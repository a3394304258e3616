/** The pipe: a ring of bytes with a read and a write position. */
module Pipe {
  import opened Arithmetic

  const PIPE_BUF_SIZE: nat := 4096

  class Ring {
    const buffer: array<int>
    var readPos: nat
    var writePos: nat
    var count: nat
    var isOpen: bool
    /** Everything writers handed over and everything readers got, since the pipe was created. */
    ghost var accepted: seq<int>
    ghost var delivered: seq<int>

    /** The position i places after the read position. */
    function Slot(i: nat): (k: int)
      reads this
    {
      if readPos + i < PIPE_BUF_SIZE then readPos + i else readPos + i - PIPE_BUF_SIZE
    }

    ghost function Contents(): seq<int>
      reads this, buffer
      requires buffer.Length == PIPE_BUF_SIZE && readPos < PIPE_BUF_SIZE && count <= PIPE_BUF_SIZE
    {
      seq(count, i requires 0 <= i < count <= PIPE_BUF_SIZE
          && readPos < PIPE_BUF_SIZE == buffer.Length reads this, buffer => buffer[Slot(i)])
    }

    /** What was read followed by what is buffered is what was accepted. */
    ghost predicate Valid()
      reads this, buffer
    {
      && buffer.Length == PIPE_BUF_SIZE && readPos < PIPE_BUF_SIZE && count <= PIPE_BUF_SIZE && writePos == Slot(count)
      && delivered + Contents() == accepted
    }

    constructor ()
      ensures Valid() && isOpen && Contents() == [] && fresh(buffer)
    {
      buffer := new int[PIPE_BUF_SIZE](i => 0);
      readPos, writePos, count, isOpen := 0, 0, 0, true;
      accepted, delivered := [], [];
    }

    method PutByte(b: int)
      requires Valid() && count < PIPE_BUF_SIZE
      modifies this, buffer
      ensures Valid() && Contents() == old(Contents()) + [b]
      ensures accepted == old(accepted) + [b] && delivered == old(delivered) && isOpen == old(isOpen)
    {
      ghost var was := Contents();
      assert forall i :: 0 <= i < count ==> Slot(i) != writePos;
      buffer[writePos] := b;
      writePos := (writePos + 1) % PIPE_BUF_SIZE;
      count := count + 1;
      accepted := accepted + [b];
      assert Contents() == was + [b];
    }

    method TakeByte() returns (b: int)
      requires Valid() && count > 0
      modifies this
      ensures Valid() && old(Contents()) == [b] + Contents()
      ensures delivered == old(delivered) + [b] && accepted == old(accepted) && isOpen == old(isOpen)
    {
      ghost var was, r, d := Contents(), readPos, delivered;
      b := buffer[readPos];
      readPos := (readPos + 1) % PIPE_BUF_SIZE;
      assert readPos == if r + 1 < PIPE_BUF_SIZE then r + 1 else 0;
      count := count - 1;
      delivered := delivered + [b];
      forall i | 0 <= i < count ensures buffer[Slot(i)] == was[i + 1] { }
      assert was == [b] + Contents();
      assert d + ([b] + Contents()) == (d + [b]) + Contents();
    }

    /** As much as fits is accepted, in order; -1 if the pipe is closed. */
    method Write(data: seq<int>) returns (written: int)
      requires Valid()
      modifies this, buffer
      ensures Valid() && delivered == old(delivered) && isOpen == old(isOpen)
      ensures if !isOpen then written == -1 && accepted == old(accepted) && Contents() == old(Contents())
              else written == Min(|data|, PIPE_BUF_SIZE - old(count))
                   && Contents() == old(Contents()) + data[..written] && accepted == old(accepted) + data[..written]
    {
      if !isOpen { return -1; }
      written := 0;
      while written < |data| && count < PIPE_BUF_SIZE
        invariant 0 <= written <= |data| && Valid() && isOpen && delivered == old(delivered)
            && count == old(count) + written
        invariant Contents() == old(Contents()) + data[..written] && accepted == old(accepted) + data[..written]
      {
        PutByte(data[written]);
        written := written + 1;
      }
    }

    /** As much as there is, up to the size asked for, in the order it was written. */
    method Read(size: nat) returns (out: seq<int>, ok: bool)
      requires Valid()
      modifies this
      ensures Valid() && accepted == old(accepted) && isOpen == old(isOpen) && ok == isOpen
      ensures ok ==> |out| == Min(size, old(count)) && old(Contents()) == out + Contents()
      ensures ok ==> delivered == old(delivered) + out
      ensures !ok ==> out == [] && Contents() == old(Contents()) && delivered == old(delivered)
    {
      out, ok := [], isOpen;
      if !isOpen { return; }
      while |out| < size && count > 0
        invariant |out| <= size && Valid() && isOpen && accepted == old(accepted) && count == old(count) - |out|
        invariant old(Contents()) == out + Contents() && delivered == old(delivered) + out
        decreases count
      {
        var b := TakeByte();
        assert out + ([b] + Contents()) == (out + [b]) + Contents();
        out := out + [b];
      }
    }
  }
}
