/** The AESD char device (`struct aesd_dev`): the command ring, plus the
    partially written command `working_entry` that accumulates writes until a
    newline completes it.

    Kernel services are outcomes supplied by the caller: whether the
    interruptible lock was acquired, whether kmalloc, copy_from_user,
    copy_to_user and krealloc succeeded, and what uninitialised memory a fresh
    allocation holds. */
module AesdChar {
  import opened Bytes
  import opened CircularBuffer

  const ERESTARTSYS: int := 512
  const ENOMEM: int := 12
  const EFAULT: int := 14

  /** The outcomes of the kernel services one aesd_write call uses. `uninit(i)`
      is byte `i` of a block krealloc hands out when it is given NULL. */
  datatype WriteEnv = WriteEnv(
    lockAcquired: bool,
    kmallocOk: bool,
    copyFromUserOk: bool,
    kreallocOk: bool,
    uninit: nat -> byte)

  /** Whether the call gets as far as the krealloc of the working entry. */
  predicate ReachesRealloc(env: WriteEnv)
  {
    env.lockAcquired && env.kmallocOk && env.copyFromUserOk
  }

  /** The first `size` bytes of the block krealloc(buffptr, ...) returns:
      the old contents when `buffptr` is a block, uninitialised memory when it
      is NULL. */
  function Reallocated(buffptr: Option<seq<byte>>, size: nat, uninit: nat -> byte): (r: seq<byte>)
    requires buffptr.Some? ==> |buffptr.value| == size
    ensures |r| == size
  {
    match buffptr
    case Some(d) => d
    case None => seq(size, i requires 0 <= i => uninit(i))
  }

  class AesdDev {
    var buffer: AesdCircularBuffer
    /** working_entry.buffptr (None is NULL) and the bytes it points to. */
    var workingBuffptr: Option<seq<byte>>
    /** working_entry.size */
    var workingSize: nat

    ghost predicate Valid()
      reads this, buffer, buffer.entry
    {
      buffer.Valid() &&
      (workingBuffptr.Some? ==> |workingBuffptr.value| == workingSize)
    }

    /** The device as aesd_init_module leaves it: zeroed, with an initialised
        ring and no partial command. */
    constructor ()
      ensures Valid() && fresh(buffer) && fresh(buffer.entry)
      ensures Resident(buffer.State()) == []
      ensures workingBuffptr == None && workingSize == 0
    {
      buffer := new AesdCircularBuffer.Init();
      workingBuffptr := None;
      workingSize := 0;
    }

    /** aesd_write: append `buf` (its `count` is `|buf|`) to the working entry; if
        it holds a newline, only the bytes through the first one are kept, the
        working entry becomes a command committed to the ring (first releasing
        the oldest entry, returned as `released`, when the ring is full) and the
        working entry is reset. */
    method Write(buf: seq<byte>, env: WriteEnv) returns (retval: int, released: Option<seq<byte>>)
      requires Valid()
      modifies this, buffer, buffer.entry
      ensures Valid() && buffer == old(buffer) && buffer.entry == old(buffer.entry)
      // Interrupted lock, failed kmalloc or copy_from_user: nothing changes.
      ensures !ReachesRealloc(env) ==>
        && retval == (if !env.lockAcquired then -ERESTARTSYS
                      else if !env.kmallocOk then -ENOMEM else -EFAULT)
        && workingBuffptr == old(workingBuffptr) && workingSize == old(workingSize)
        && buffer.State() == old(buffer.State()) && released == None
      // Failed krealloc: the pointer is lost, the size is kept, the ring is untouched.
      ensures ReachesRealloc(env) && !env.kreallocOk ==>
        && retval == -ENOMEM
        && workingBuffptr == None && workingSize == old(workingSize)
        && buffer.State() == old(buffer.State()) && released == None
      // No newline: the whole chunk is appended and nothing is committed.
      ensures ReachesRealloc(env) && env.kreallocOk && NoNewline(buf) ==>
        && retval == |buf|
        && workingBuffptr == Some(Reallocated(old(workingBuffptr), old(workingSize), env.uninit) + buf)
        && workingSize == old(workingSize) + |buf|
        && buffer.State() == old(buffer.State()) && released == None
      // A newline: the command through the first newline is committed as the newest
      // entry, evicting exactly the oldest one when the ring was full.
      ensures ReachesRealloc(env) && env.kreallocOk && !NoNewline(buf) ==>
        var cmd := Reallocated(old(workingBuffptr), old(workingSize), env.uninit)
                   + buf[..FirstNewline(buf).value + 1];
        && retval == |buf|
        && cmd[|cmd| - 1] == NEWLINE
        && workingBuffptr == None && workingSize == 0
        && buffer.State() == Added(old(buffer.State()), cmd)
        && Resident(buffer.State()) ==
             (if old(buffer.full) then old(Resident(buffer.State()))[1..]
              else old(Resident(buffer.State()))) + [cmd]
        && released == (if old(buffer.full) then Some(old(Resident(buffer.State()))[0]) else None)
    {
      released := None;
      if !env.lockAcquired {
        return -ERESTARTSYS, None;
      }
      if !env.kmallocOk {
        return -ENOMEM, None;
      }
      if !env.copyFromUserOk {
        return -EFAULT, None;
      }
      var newline := FirstNewline(buf);
      if newline.None? {
        if !env.kreallocOk {
          workingBuffptr := None;
          return -ENOMEM, None;
        }
        var grown := Reallocated(workingBuffptr, workingSize, env.uninit);
        workingBuffptr := Some(grown + buf);
        workingSize := workingSize + |buf|;
        return |buf|, None;
      }
      var writeSize := newline.value + 1;
      if !env.kreallocOk {
        workingBuffptr := None;
        return -ENOMEM, None;
      }
      var grown := Reallocated(workingBuffptr, workingSize, env.uninit);
      workingBuffptr := Some(grown + buf[..writeSize]);
      workingSize := workingSize + writeSize;
      var entry := workingBuffptr.value;
      workingBuffptr := None;
      workingSize := 0;
      ghost var before := buffer.State();
      if buffer.full {
        released := Some(buffer.entry[buffer.outOffs]);
        assert Slot(before, 0) == buffer.outOffs;
      }
      buffer.AddEntry(entry);
      AddedResident(before, entry);
      retval := |buf|;
    }

    /** aesd_read: resolve `fPos` to an entry and an offset in it, and copy at
        most `count` bytes, never past the end of that entry; on success the new
        file position `newFPos` is `fPos` advanced by the bytes copied. */
    method Read(count: nat, fPos: nat, lockAcquired: bool, copyToUserOk: bool)
      returns (retval: int, newFPos: nat, copied: seq<byte>)
      requires Valid()
      ensures !lockAcquired ==> retval == -ERESTARTSYS && newFPos == fPos && copied == []
      ensures lockAcquired && ReadEntry(buffer.State(), fPos, count).None? ==>
        retval == 0 && newFPos == fPos && copied == []
      ensures lockAcquired && ReadEntry(buffer.State(), fPos, count).Some? ==>
        if copyToUserOk then
          && copied == ReadEntry(buffer.State(), fPos, count).value
          && retval == |copied| && newFPos == fPos + |copied|
        else
          retval == -EFAULT && newFPos == fPos && copied == []
    {
      if !lockAcquired {
        return -ERESTARTSYS, fPos, [];
      }
      var found := buffer.FindEntryOffsetForFpos(fPos);
      if found.None? {
        return 0, fPos, [];
      }
      var (slot, entryOffset) := found.value;
      ReadEntryFromSlot(buffer.State(), fPos, count, slot, entryOffset);
      var entry := buffer.entry[slot];
      var bytesToRead := |entry| - entryOffset;
      if bytesToRead > count {
        bytesToRead := count;
      }
      if !copyToUserOk {
        return -EFAULT, fPos, [];
      }
      copied := entry[entryOffset..entryOffset + bytesToRead];
      newFPos := fPos + bytesToRead;
      retval := bytesToRead;
    }
  }

  /** "partial": a write with no newline. */
  const Partial: seq<byte> := [112, 97, 114, 116, 105, 97, 108]
  /** "rest\n": a write that completes the command. */
  const Rest: seq<byte> := [114, 101, 115, 116, NEWLINE]

  /** Two writes, the first without a newline: nothing is committed until the
      second completes the command "partialrest\n", which is then the one
      resident entry, and the working entry is empty again. */
  method PartialThenRest(uninit: nat -> byte) returns (dev: AesdDev)
    ensures dev.Valid() && Resident(dev.buffer.State()) == [Partial + Rest]
    ensures dev.workingBuffptr == None && dev.workingSize == 0
  {
    dev := new AesdDev();
    var env := WriteEnv(true, true, true, true, uninit);
    assert ReachesRealloc(env) && NoNewline(Partial);
    assert Reallocated(None, 0, uninit) + Partial == Partial;
    var n1, r1 := dev.Write(Partial, env);
    assert !dev.buffer.full && Resident(dev.buffer.State()) == [];
    assert dev.workingBuffptr == Some(Partial);
    FirstNewlineAt(Rest, 4);
    assert !NoNewline(Rest) && Rest[..4 + 1] == Rest;
    var n2, r2 := dev.Write(Rest, env);
    assert Resident(dev.buffer.State()) == [] + [Partial + Rest];
  }

  /** The command committed by PartialThenRest reads back whole from offset 0
      with a large enough `count`. */
  method PartialThenRestReadsBack(uninit: nat -> byte) returns (readBack: seq<byte>)
    ensures readBack == Partial + Rest
  {
    var dev := PartialThenRest(uninit);
    ghost var es := Resident(dev.buffer.State());
    assert Concat(es[..0]) == [];
    LocateRoundTrip(es, 0, 0);
    var n, pos, copied := dev.Read(100, 0, true, true);
    assert (Partial + Rest)[0..|Partial + Rest|] == Partial + Rest;
    readBack := copied;
  }
}
