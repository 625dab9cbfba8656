/** What follows from `write` and `read` together: the round trip, the
    consequences of the zeroing in `read`, and invariants of any sequence
    of calls. */
module Properties {
  import opened SharedState
  import Input
  import Output

  /** On an empty buffer, writing at most BUFFER_SIZE bytes and then reading
      as many hands the same bytes back and leaves the length at 0. */
  lemma RoundTrip(s: State, data: seq<Byte>)
    requires Valid(s) && s.length == 0
    requires |data| <= BUFFER_SIZE
    ensures var w := Input.Write(s, data, |data|, false);
            var r := Output.Read(w.after, |data|, |data|, false);
            w.outcome == Transferred(|data|) && r.outcome == Transferred(|data|) &&
            r.delivered == data && r.after.length == 0
  {
  }

  /** Reading everything empties the buffer and, since the zeroing then has
      length 0, leaves every byte of `message` as it was. */
  lemma DrainKeepsBytes(s: State, len: nat, writable: nat)
    requires Valid(s) && s.length <= len
    ensures var r := Output.Read(s, len, writable, false);
            r.outcome == Transferred(s.length) && r.after == State(s.message, 0)
  {
  }

  /** After a read that leaves bytes unread, those bytes are lost: the next
      read delivers only zeroes, not the remainder of what was written. */
  lemma PartialReadLosesRemainder(s: State, len: nat, writable: nat,
                                  len': nat, writable': nat, interrupted': bool)
    requires Valid(s) && 0 < len < s.length
    ensures var r := Output.Read(s, len, writable, false);
            var r' := Output.Read(r.after, len', writable', interrupted');
            r.after.length == s.length - len &&
            forall i :: 0 <= i < |r'.delivered| ==> r'.delivered[i] == 0
  {
  }

  /** What a partial read does to the bytes it did not deliver: those below
      the new length are zeroed, those at or past it stay where they were. */
  lemma PartialReadUnreadBytes(s: State, len: nat, writable: nat)
    requires Valid(s) && 0 < len < s.length
    ensures var r := Output.Read(s, len, writable, false);
            (forall i :: len <= i < s.length - len ==> r.after.message[i] == 0) &&
            (forall i :: s.length - len <= i < s.length ==> r.after.message[i] == s.message[i])
  {
  }

  /** Two writes whose copies fetch different amounts of the caller's memory,
      and so have different error counts, report the same count and advance
      the length equally: there is no rollback after a fault. */
  lemma WriteIgnoresCopyFaults(s: State, data: seq<Byte>, data': seq<Byte>, len: nat, interrupted: bool)
    requires Valid(s)
    ensures Input.Write(s, data, len, interrupted).outcome == Input.Write(s, data', len, interrupted).outcome
    ensures Input.Write(s, data, len, interrupted).after.length == Input.Write(s, data', len, interrupted).after.length
  {
  }

  /** One call to either device. */
  datatype Call =
    | WriteCall(data: seq<Byte>, len: nat, interrupted: bool)
    | ReadCall(len: nat, writable: nat, interrupted: bool)

  /** The signed change a call with that outcome makes to the length. */
  function Delta(c: Call, o: Outcome): int
  {
    match o
    case Busy => 0
    case Transferred(n) => if c.WriteCall? then n as int else -(n as int)
  }

  /** One call, run atomically. */
  function Apply(s: State, c: Call): (e: Step)
    requires Valid(s)
    ensures Valid(e.after)
    ensures e.after.length == s.length + Delta(c, e.outcome)
    ensures e.outcome == Busy ==> e.after == s
  {
    match c
    case WriteCall(data, len, interrupted) =>
      Input.Write(s, data, len, interrupted)
    case ReadCall(len, writable, interrupted) =>
      var r := Output.Read(s, len, writable, interrupted);
      Step(r.outcome, r.after)
  }

  /** The state after a sequence of calls, run one after another. */
  function Final(s: State, calls: seq<Call>): (f: State)
    requires Valid(s)
    ensures Valid(f)
    decreases |calls|
  {
    if calls == [] then s else Final(Apply(s, calls[0]).after, calls[1..])
  }

  /** What each of those calls returns. */
  function Outcomes(s: State, calls: seq<Call>): (os: seq<Outcome>)
    requires Valid(s)
    ensures |os| == |calls|
    decreases |calls|
  {
    if calls == [] then []
    else
      var e := Apply(s, calls[0]);
      [e.outcome] + Outcomes(e.after, calls[1..])
  }

  /** Bytes accepted minus bytes delivered, over the calls and their outcomes. */
  function Net(calls: seq<Call>, outcomes: seq<Outcome>): int
    requires |calls| == |outcomes|
    decreases |calls|
  {
    if calls == [] then 0 else Delta(calls[0], outcomes[0]) + Net(calls[1..], outcomes[1..])
  }

  /** With every call atomic, the final length is the initial length plus
      all bytes accepted minus all bytes delivered: no update is lost or
      counted twice, and the length stays within 0 .. BUFFER_SIZE. */
  lemma {:induction false} Conservation(s: State, calls: seq<Call>)
    requires Valid(s)
    ensures Final(s, calls).length == s.length + Net(calls, Outcomes(s, calls))
    ensures 0 <= s.length + Net(calls, Outcomes(s, calls)) <= BUFFER_SIZE
    decreases |calls|
  {
    if calls != [] {
      var e := Apply(s, calls[0]);
      Conservation(e.after, calls[1..]);
      assert Outcomes(s, calls) == [e.outcome] + Outcomes(e.after, calls[1..]);
    }
  }

  /** Writing BUFFER_SIZE + 50 bytes into an empty buffer stores BUFFER_SIZE. */
  lemma OverfullWrite(s: State, data: seq<Byte>)
    requires Valid(s) && s.length == 0 && |data| == BUFFER_SIZE + 50
    ensures var w := Input.Write(s, data, |data|, false);
            w.outcome == Transferred(BUFFER_SIZE) && w.after.length == BUFFER_SIZE
  {
  }

  /** Asking for 500 bytes when 10 are held delivers 10. */
  lemma ShortRead(s: State, writable: nat)
    requires Valid(s) && s.length == 10
    ensures Output.Read(s, 500, writable, false).outcome == Transferred(10)
  {
  }

  /** A full buffer accepts nothing and an empty one delivers nothing, and
      neither call changes the state, whether or not the lock would fail. */
  lemma FullAndEmpty(s: State, data: seq<Byte>, len: nat, writable: nat, interrupted: bool)
    requires Valid(s)
    ensures s.length == BUFFER_SIZE ==>
              Input.Write(s, data, len, interrupted) == Step(Transferred(0), s)
    ensures s.length == 0 ==>
              Output.Read(s, len, writable, interrupted) == Output.ReadStep(Transferred(0), [], s)
  {
  }

  /** From start-up: write 1024 bytes of 'A', write one more (nothing is
      written), read 1024 (all the 'A's come back, length 0), read one more
      (nothing is read). */
  lemma FillAndDrainScenario()
    ensures var a := seq(BUFFER_SIZE, _ => 'A' as Byte);
            var w1 := Input.Write(Initial(), a, BUFFER_SIZE, false);
            var w2 := Input.Write(w1.after, ['A' as Byte], 1, false);
            var r1 := Output.Read(w2.after, BUFFER_SIZE, BUFFER_SIZE, false);
            var r2 := Output.Read(r1.after, 1, 1, false);
            w1.outcome == Transferred(BUFFER_SIZE) && w2.outcome == Transferred(0) &&
            r1.outcome == Transferred(BUFFER_SIZE) && r1.delivered == a && r1.after.length == 0 &&
            r2.outcome == Transferred(0) && r2.delivered == []
  {
    var a := seq(BUFFER_SIZE, _ => 'A' as Byte);
    RoundTrip(Initial(), a);
  }
}
