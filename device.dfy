/** The shared buffer as the two modules hold it: one array updated in
    place and one length variable. */
module Device {
  import opened SharedState
  import Input
  import Output

  class SharedBuffer {
    /** `message`: never replaced, only written into. */
    const message: array<Byte>
    /** `message_length`. */
    var length: nat

    ghost predicate Valid()
      reads this
    {
      message.Length == BUFFER_SIZE && length <= BUFFER_SIZE
    }

    /** The globals as a value. */
    function Snapshot(): (s: State)
      reads this, message
      requires Valid()
      ensures SharedState.Valid(s)
    {
      State(message[..], length)
    }

    /** The zero initialisation of `message` and `message_length` followed
        by the `memset` in `init_module`. */
    constructor ()
      ensures Valid() && fresh(message)
      ensures Snapshot() == Initial()
    {
      length := 0;
      message := new Byte[BUFFER_SIZE];
      new;
      forall j | 0 <= j < BUFFER_SIZE {
        message[j] := 0;
      }
    }

    /** `write`: append what fits at `message_length`, drop the rest. */
    method Write(data: seq<Byte>, len: nat, interrupted: bool) returns (r: Outcome)
      requires Valid()
      modifies this, message
      ensures Valid()
      ensures Step(r, Snapshot()) == Input.Write(old(Snapshot()), data, len, interrupted)
    {
      var bytesToWrite := len;
      if bytesToWrite > BUFFER_SIZE - length {
        bytesToWrite := BUFFER_SIZE - length;
      }
      if bytesToWrite == 0 {
        return Transferred(0);
      }
      if interrupted {
        return Busy;
      }
      ghost var before := message[..];
      var start := length;
      forall j | start <= j < start + bytesToWrite {
        message[j] := if j - start < |data| then data[j - start] else 0;
      }
      length := length + bytesToWrite;
      assert message[..] == Input.CopyFromUser(before, start, data, bytesToWrite);
      r := Transferred(bytesToWrite);
    }

    /** `read`: hand out the first bytes, shorten the length, then zero as
        many leading bytes as the new length. */
    method Read(len: nat, writable: nat, interrupted: bool) returns (r: Outcome, delivered: seq<Byte>)
      requires Valid()
      modifies this, message
      ensures Valid()
      ensures Output.ReadStep(r, delivered, Snapshot()) == Output.Read(old(Snapshot()), len, writable, interrupted)
    {
      var bytesToRead := len;
      if bytesToRead > length {
        bytesToRead := length;
      }
      if bytesToRead == 0 {
        return Transferred(0), [];
      }
      if interrupted {
        return Busy, [];
      }
      ghost var before := message[..];
      delivered := message[..Min(bytesToRead, writable)];
      length := length - bytesToRead;
      forall j | 0 <= j < length {
        message[j] := 0;
      }
      assert message[..] == Memset(before, length);
      r := Transferred(bytesToRead);
    }
  }
}
