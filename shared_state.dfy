/** The state the two character devices share: the globals `message` and
    `message_length` that the input module defines and exports and the
    output module imports, seen as one value. */
module SharedState {

  /** BUFFER_SIZE: the capacity of `message`, in bytes. */
  const BUFFER_SIZE: nat := 1024

  /** A C `char` of the buffer, as eight bits. */
  type Byte = bv8

  /** `message` (all BUFFER_SIZE bytes of it) and `message_length`. */
  datatype State = State(message: seq<Byte>, length: nat)

  /** The buffer has its fixed size and the length never passes it. */
  predicate Valid(s: State)
  {
    |s.message| == BUFFER_SIZE && s.length <= BUFFER_SIZE
  }

  /** What `write` and `read` return: the number of bytes transferred (0 when
      there is nothing to transfer), or -EBUSY when the interruptible lock
      could not be taken. */
  datatype Outcome = Transferred(count: nat) | Busy

  /** What a call returns together with the shared state it leaves. */
  datatype Step = Step(outcome: Outcome, after: State)

  /** The smaller of two counts. */
  function Min(a: nat, b: nat): (m: nat)
    ensures m <= a && m <= b
    ensures m == a || m == b
  {
    if a <= b then a else b
  }

  /** `n` zero bytes. */
  function Zeroes(n: nat): (z: seq<Byte>)
    ensures |z| == n
    ensures forall i :: 0 <= i < n ==> z[i] == 0
  {
    seq(n, _ => 0)
  }

  /** `memset(m, '\0', n)`: the first `n` bytes become zero, the rest stay. */
  function Memset(m: seq<Byte>, n: nat): (r: seq<Byte>)
    requires n <= |m|
    ensures |r| == |m|
    ensures forall i :: 0 <= i < n ==> r[i] == 0
    ensures forall i :: n <= i < |m| ==> r[i] == m[i]
  {
    Zeroes(n) + m[n..]
  }

  /** The state after module initialisation: every byte zero, length 0. */
  function Initial(): (s: State)
    ensures Valid(s)
    ensures s.length == 0
    ensures forall i :: 0 <= i < |s.message| ==> s.message[i] == 0
  {
    State(Memset(Zeroes(BUFFER_SIZE), BUFFER_SIZE), 0)
  }
}
