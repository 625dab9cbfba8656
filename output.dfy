/** The `read` entry point of the output device, as a function on the
    shared state. */
module Output {
  import opened SharedState

  /** `bytes_to_read`: the request, cut down to the held length. */
  function ReadAmount(length: nat, len: nat): (k: nat)
    ensures k == Min(len, length)
  {
    if len > length then length else len
  }

  /** `copy_to_user(buffer, message, n)`, where only the first `writable`
      bytes of the caller's buffer can be written: the bytes that reach
      the caller. */
  function CopyToUser(message: seq<Byte>, n: nat, writable: nat): (out: seq<Byte>)
    requires n <= |message|
    ensures |out| == Min(n, writable)
    ensures forall i :: 0 <= i < |out| ==> out[i] == message[i]
  {
    message[..Min(n, writable)]
  }

  /** What `read` returns, the bytes it copies out, and the shared state it
      leaves. */
  datatype ReadStep = ReadStep(outcome: Outcome, delivered: seq<Byte>, after: State)

  /** `read(buffer, len)` with `writable` bytes of `buffer` writable and
      `interrupted` telling whether `mutex_lock_interruptible` fails. After
      the copy, the length drops by the amount read and the first bytes of
      `message`, as many as the NEW length, are zeroed; nothing is shifted. */
  function Read(s: State, len: nat, writable: nat, interrupted: bool): (r: ReadStep)
    requires Valid(s)
    ensures Valid(r.after)
    ensures r.outcome.Busy? <==> interrupted && Min(len, s.length) > 0
    ensures r.outcome.Transferred? ==> r.outcome.count == Min(len, s.length)
    ensures r.outcome == Busy || r.outcome == Transferred(0) ==> r.after == s && r.delivered == []
    ensures r.outcome.Transferred? ==> r.after.length == s.length - r.outcome.count
    ensures r.outcome.Transferred? ==> r.delivered == s.message[..Min(r.outcome.count, writable)]
    ensures r.outcome.Transferred? && r.outcome.count > 0 ==>
              forall i :: 0 <= i < r.after.length ==> r.after.message[i] == 0
    ensures forall i :: r.after.length <= i < BUFFER_SIZE ==> r.after.message[i] == s.message[i]
  {
    var k := ReadAmount(s.length, len);
    if k == 0 then
      ReadStep(Transferred(0), [], s)
    else if interrupted then
      ReadStep(Busy, [], s)
    else
      var delivered := CopyToUser(s.message, k, writable);
      var rest := s.length - k;
      ReadStep(Transferred(k), delivered, State(Memset(s.message, rest), rest))
  }
}
