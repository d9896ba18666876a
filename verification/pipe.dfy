/** The data side of a pipe (fs/vfs.c:1145-1157, 1202-1214, 1482-1505): a ring of 4096 bytes between the reading
    and the writing end. */
module PipeRing {
  import opened Basics

  const CAPACITY: nat := 4096

  function Place(pos: nat, rel: nat): (i: nat)
    ensures i < CAPACITY
  {
    (pos + rel) % CAPACITY
  }

  /** The size bytes from pos on. */
  function Held(data: seq<Byte>, pos: nat, size: nat): (s: seq<Byte>)
    requires |data| == CAPACITY
    ensures |s| == size && forall i | 0 <= i < size :: s[i] == data[Place(pos, i)]
  {
    seq(size, i requires 0 <= i < size => data[Place(pos, i)])
  }

  lemma Taken(data: seq<Byte>, pos: nat, size: nat)
    requires |data| == CAPACITY && pos < CAPACITY && 0 < size <= CAPACITY
    ensures Held(data, (pos + 1) % CAPACITY, size - 1) == Held(data, pos, size)[1..]
    ensures data[pos] == Held(data, pos, size)[0] && Place((pos + 1) % CAPACITY, size - 1) == Place(pos, size)
  {
    var next := (pos + 1) % CAPACITY;
    forall i: nat | i < size ensures Place(next, i) == Place(pos, i + 1) {}
  }

  lemma Added(data: seq<Byte>, pos: nat, size: nat, b: Byte)
    requires |data| == CAPACITY && pos < CAPACITY && size < CAPACITY
    ensures Held(data[Place(pos, size) := b], pos, size + 1) == Held(data, pos, size) + [b]
    ensures (Place(pos, size) + 1) % CAPACITY == Place(pos, size + 1)
  {
    forall i: nat | i < size ensures Place(pos, i) != Place(pos, size) {}
  }

  /** What poll reports for an end of a pipe. */
  datatype Mask = Mask(readable: bool, writable: bool, hangUp: bool)

  class Pipe {
    const data: array<Byte>
    var readPos: nat
    var writePos: nat
    var size: nat
    var readers: nat
    var writers: nat
    /** All bytes that writes have accepted, and all that reads have returned. */
    ghost var accepted: seq<Byte>
    ghost var returned: seq<Byte>

    /** What is in the ring follows what was returned in what was accepted: first in, first out, nothing lost,
        nothing overwritten. */
    ghost predicate Valid()
      reads `readPos, `writePos, `size, `accepted, `returned, data
    {
      data.Length == CAPACITY && readPos < CAPACITY && size <= CAPACITY && writePos == Place(readPos, size) &&
      accepted == returned + Held(data[..], readPos, size)
    }

    constructor ()
      ensures Valid() && accepted == returned == [] && size == 0 && fresh(data)
    {
      data := new Byte[CAPACITY](_ => 0);
      readPos, writePos, size, readers, writers := 0, 0, 0, 0, 0;
      accepted, returned := [], [];
    }

    /** How many bytes a read of count bytes on an end moves. */
    function WouldRead(canRead: bool, count: nat): nat
      reads `size
    {
      if canRead then Min(count, size) else 0
    }

    function WouldWrite(canWrite: bool, count: nat): nat
      reads `size, `readers
    {
      if !canWrite || readers == 0 || size > CAPACITY then 0 else Min(count, CAPACITY - size)
    }

    method TakeByte() returns (b: Byte)
      requires Valid() && size > 0
      modifies `readPos, `size, `returned
      ensures Valid() && size == old(size) - 1 && returned == old(returned) + [b]
    {
      Taken(data[..], readPos, size);
      hide Held, Place;
      b := data[readPos];
      readPos := (readPos + 1) % CAPACITY;
      size := size - 1;
      returned := returned + [b];
    }

    method AddByte(b: Byte)
      requires Valid() && size < CAPACITY
      modifies data, `writePos, `size, `accepted
      ensures Valid() && size == old(size) + 1 && accepted == old(accepted) + [b]
    {
      Added(data[..], readPos, size, b);
      hide Held, Place;
      data[writePos] := b;
      writePos := (writePos + 1) % CAPACITY;
      size := size + 1;
      accepted := accepted + [b];
    }

    /** vfs_read on a pipe. */
    method Read(canRead: bool, buf: array<Byte>, count: nat) returns (got: nat)
      requires Valid() && buf != data && count <= buf.Length
      modifies buf, `readPos, `size, `returned
      ensures Valid() && got == old(WouldRead(canRead, count)) && size == old(size) - got
      ensures got == if !canRead then 0 else if count < old(size) then count else old(size)
      ensures returned == old(returned) + buf[..got] && buf[got..] == old(buf[got..])
      ensures returned <= accepted
    {
      got := 0;
      if !canRead {
        return;
      }
      hide Held, Place;
      while got < count && size > 0
        invariant Valid() && got <= count && size == old(size) - got
        invariant returned == old(returned) + buf[..got] && buf[got..] == old(buf[got..])
      {
        hide Valid;
        ghost var before := buf[..];
        buf[got] := TakeByte();
        assert buf[..got + 1] == before[..got] + [buf[got]];
        got := got + 1;
      }
    }

    /** vfs_write on a pipe. */
    method Write(canWrite: bool, src: seq<Byte>) returns (wr: nat)
      requires Valid()
      modifies data, `writePos, `size, `accepted
      ensures Valid() && wr == old(WouldWrite(canWrite, |src|)) && wr <= |src| && size == old(size) + wr
      ensures wr ==
        if !canWrite || readers == 0 then 0 else if |src| < 4096 - old(size) then |src| else 4096 - old(size)
      ensures accepted == old(accepted) + src[..wr]
    {
      wr := 0;
      if !canWrite || readers == 0 {
        return;
      }
      hide Held, Place;
      while wr < |src| && size < CAPACITY
        invariant Valid() && wr <= |src| && size == old(size) + wr
        invariant accepted == old(accepted) + src[..wr]
      {
        assert src[..wr + 1] == src[..wr] + [src[wr]];
        AddByte(src[wr]);
        wr := wr + 1;
      }
    }

    /** vfs_file_poll_mask on a pipe: an end is reported readable or writable exactly when reading or writing any
        number of bytes on it would move at least one. */
    method Poll(canRead: bool, canWrite: bool) returns (m: Mask)
      requires Valid()
      ensures forall count: nat | count > 0 :: m.readable <==> WouldRead(canRead, count) > 0
      ensures forall count: nat | count > 0 :: m.writable <==> WouldWrite(canWrite, count) > 0
      ensures m.hangUp <==> (canRead && writers == 0) || (canWrite && readers == 0)
    {
      var readable, writable, hangUp := false, false, false;
      if canRead {
        if size > 0 {
          readable := true;
        }
        if writers == 0 {
          hangUp := true;
        }
      }
      if canWrite {
        if readers == 0 {
          hangUp := true;
        } else if size < CAPACITY {
          writable := true;
        }
      }
      return Mask(readable, writable, hangUp);
    }
  }
}
