/** The `write` entry point of the input device, as a function on the
    shared state. */
module Input {
  import opened SharedState

  /** `bytes_to_write`: the request, cut down to the free space. */
  function WriteAmount(length: nat, len: nat): (k: nat)
    requires length <= BUFFER_SIZE
    ensures k == Min(len, BUFFER_SIZE - length)
    ensures length + k <= BUFFER_SIZE
  {
    if len > BUFFER_SIZE - length then BUFFER_SIZE - length else len
  }

  /** The error count `copy_from_user` returns for a copy of `n` bytes from `data`. */
  function Uncopied(data: seq<Byte>, n: nat): (e: nat)
    ensures e <= n
    ensures e == 0 <==> n <= |data|
  {
    n - Min(n, |data|)
  }

  /** `copy_from_user(dest + at, data, n)`, where `data` is the prefix of the
      caller's memory that the copy actually fetches. Each byte it does not
      fetch is counted as an error and its destination is padded with zero. */
  function CopyFromUser(dest: seq<Byte>, at: nat, data: seq<Byte>, n: nat): (r: seq<Byte>)
    requires at + n <= |dest|
    ensures |r| == |dest|
    ensures forall j :: at <= j < at + n && j - at < |data| ==> r[j] == data[j - at]
    ensures forall j :: at + |data| <= j < at + n ==> r[j] == 0
    ensures forall j :: at + n - Uncopied(data, n) <= j < at + n ==> r[j] == 0
    ensures forall j :: 0 <= j < |dest| && !(at <= j < at + n) ==> r[j] == dest[j]
  {
    var copied := Min(n, |data|);
    dest[..at] + data[..copied] + Zeroes(n - copied) + dest[at + n..]
  }

  /** `write(buffer, len)` with `data` the prefix of `buffer` that the copy
      actually fetches and `interrupted` telling whether
      `mutex_lock_interruptible` fails. */
  function Write(s: State, data: seq<Byte>, len: nat, interrupted: bool): (w: Step)
    requires Valid(s)
    ensures Valid(w.after)
    ensures w.outcome.Busy? <==> interrupted && Min(len, BUFFER_SIZE - s.length) > 0
    ensures w.outcome.Transferred? ==> w.outcome.count == Min(len, BUFFER_SIZE - s.length)
    ensures w.outcome == Busy || w.outcome == Transferred(0) ==> w.after == s
    ensures w.outcome.Transferred? ==> w.after.length == s.length + w.outcome.count
    ensures forall j :: s.length <= j < w.after.length && j - s.length < |data| ==>
              w.after.message[j] == data[j - s.length]
    ensures forall j :: s.length + |data| <= j < w.after.length ==> w.after.message[j] == 0
    ensures forall j :: 0 <= j < s.length || w.after.length <= j < BUFFER_SIZE ==>
              w.after.message[j] == s.message[j]
  {
    var k := WriteAmount(s.length, len);
    if k == 0 then
      Step(Transferred(0), s)
    else if interrupted then
      Step(Busy, s)
    else
      // the length moves on by k whatever the error count of the copy
      Step(Transferred(k), State(CopyFromUser(s.message, s.length, data, k), s.length + k))
  }
}
