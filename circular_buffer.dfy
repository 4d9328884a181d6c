/** The driver's fixed-capacity command ring (`struct aesd_circular_buffer`):
    `entry[]` slots, the write cursor `in_offs`, the read cursor `out_offs` (the
    oldest entry) and the `full` flag, with the three helpers main.c calls:
    init, add_entry and find_entry_offset_for_fpos.

    The ring is specified on values (RingState, Resident, Added, Locate) and
    implemented by the class AesdCircularBuffer, whose methods are proved
    against those functions. */
module CircularBuffer {
  import opened Bytes

  /** AESDCHAR_MAX_WRITE_OPERATIONS_SUPPORTED: the number of slots. */
  const MaxWriteOps: nat := 10

  datatype RingState = RingState(entry: seq<seq<byte>>, inOffs: nat, outOffs: nat, full: bool)

  /** The shape invariant: N slots, both cursors in range, and a full ring has
      its write cursor on the oldest entry. */
  predicate WellFormed(r: RingState)
  {
    |r.entry| == MaxWriteOps && r.inOffs < MaxWriteOps && r.outOffs < MaxWriteOps &&
    (r.full ==> r.inOffs == r.outOffs)
  }

  /** The slot after slot `k`, wrapping at N: `(k + 1) % N`. */
  function NextSlot(k: nat): (k': nat)
    requires k < MaxWriteOps
    ensures k' < MaxWriteOps && k' == (k + 1) % MaxWriteOps
  {
    if k + 1 == MaxWriteOps then 0 else k + 1
  }

  /** The number of resident entries: N when full, otherwise the distance from
      `out_offs` forward to `in_offs`. */
  function Count(r: RingState): (n: nat)
    requires WellFormed(r)
    ensures n <= MaxWriteOps
    ensures !r.full ==> n < MaxWriteOps
    ensures !r.full ==> n == (r.inOffs - r.outOffs) % MaxWriteOps
  {
    if r.full then MaxWriteOps
    else if r.outOffs <= r.inOffs then r.inOffs - r.outOffs
    else r.inOffs + MaxWriteOps - r.outOffs
  }

  /** The slot holding the `i`-th oldest resident entry (`i == N` only as the
      slot after the newest of a full ring): `(out_offs + i) % N`. */
  function Slot(r: RingState, i: nat): (k: nat)
    requires WellFormed(r) && i <= MaxWriteOps
    ensures k < MaxWriteOps
  {
    if r.outOffs + i < MaxWriteOps then r.outOffs + i else r.outOffs + i - MaxWriteOps
  }

  /** The resident entries, oldest first: `Count(r)` slots from `out_offs`,
      wrapping modulo N. */
  function Resident(r: RingState): (es: seq<seq<byte>>)
    requires WellFormed(r)
    ensures |es| == Count(r)
  {
    seq(Count(r), i requires 0 <= i < Count(r) => r.entry[Slot(r, i)])
  }

  /** The bytes of the linear address space: all resident entries in ring order. */
  function Contents(r: RingState): seq<byte>
    requires WellFormed(r)
  {
    Concat(Resident(r))
  }

  /** aesd_circular_buffer_init: every slot empty, both cursors 0, not full. */
  function Empty(): (r: RingState)
    ensures WellFormed(r) && Resident(r) == []
  {
    RingState(seq(MaxWriteOps, _ => []), 0, 0, false)
  }

  /** aesd_circular_buffer_add_entry: store at `in_offs` and advance it; when the
      ring was full the oldest entry is overwritten, so `out_offs` advances too;
      the ring is full exactly when the cursors meet again. */
  function Added(r: RingState, e: seq<byte>): (r': RingState)
    requires WellFormed(r)
    ensures WellFormed(r')
  {
    var inOffs := NextSlot(r.inOffs);
    var outOffs := if r.full then NextSlot(r.outOffs) else r.outOffs;
    RingState(r.entry[r.inOffs := e], inOffs, outOffs, inOffs == outOffs)
  }

  /** Stepping the read cursor by one slot. */
  lemma SlotStep(r: RingState, i: nat)
    requires WellFormed(r) && i < MaxWriteOps
    ensures Slot(r, i + 1) == NextSlot(Slot(r, i))
  {
  }

  /** When the ring is not full, the next free slot follows the newest entry,
      and no resident entry is in it. */
  lemma NextSlotIsInOffs(r: RingState)
    requires WellFormed(r) && !r.full
    ensures Slot(r, Count(r)) == r.inOffs
    ensures forall i :: 0 <= i < Count(r) ==> Slot(r, i) != r.inOffs
  {
  }

  /** add_entry on a full ring: the oldest entry is overwritten by the newest. */
  lemma {:induction false} AddedResidentFull(r: RingState, e: seq<byte>)
    requires WellFormed(r) && r.full
    ensures Count(Added(r, e)) == MaxWriteOps
    ensures Resident(Added(r, e)) == Resident(r)[1..] + [e]
  {
    var r' := Added(r, e);
    var old_ := Resident(r);
    var new_ := Resident(r');
    forall i | 0 <= i < MaxWriteOps
      ensures new_[i] == (old_[1..] + [e])[i]
    {
      if i < MaxWriteOps - 1 {
        assert Slot(r', i) == Slot(r, i + 1) != r.inOffs;
      } else {
        assert Slot(r', i) == r.inOffs;
      }
    }
  }

  /** add_entry on a ring that is not full: the entry goes into the free slot
      after the newest, and every resident entry stays. */
  lemma {:induction false} AddedResidentNotFull(r: RingState, e: seq<byte>)
    requires WellFormed(r) && !r.full
    ensures Count(Added(r, e)) == Count(r) + 1
    ensures Resident(Added(r, e)) == Resident(r) + [e]
  {
    NextSlotIsInOffs(r);
    var r' := Added(r, e);
    var old_ := Resident(r);
    var new_ := Resident(r');
    var c := Count(r);
    assert Count(r') == c + 1;
    forall i | 0 <= i < c + 1
      ensures new_[i] == (old_ + [e])[i]
    {
      assert Slot(r', i) == Slot(r, i);
    }
  }

  /** Adding an entry appends it as the newest; on a full ring exactly the oldest
      entry is dropped and the count stays at N, otherwise the count grows by one. */
  lemma AddedResident(r: RingState, e: seq<byte>)
    requires WellFormed(r)
    ensures Count(Added(r, e)) == if r.full then MaxWriteOps else Count(r) + 1
    ensures Resident(Added(r, e)) == (if r.full then Resident(r)[1..] else Resident(r)) + [e]
  {
    if r.full {
      AddedResidentFull(r, e);
    } else {
      AddedResidentNotFull(r, e);
    }
  }

  /** The ring keeps the newest N entries of whatever was ever committed. */
  function Newest(s: seq<seq<byte>>): (t: seq<seq<byte>>)
  {
    if |s| <= MaxWriteOps then s else s[|s| - MaxWriteOps..]
  }

  /** A run of add_entry calls. */
  function AddedAll(r: RingState, es: seq<seq<byte>>): (r': RingState)
    requires WellFormed(r)
    ensures WellFormed(r')
    decreases |es|
  {
    if es == [] then r else AddedAll(Added(r, es[0]), es[1..])
  }

  /** Eviction order: after any run of commits the ring holds exactly the newest
      N of (the old residents followed by the commits), oldest first. From an
      empty ring and at most N commits, nothing is evicted. */
  lemma {:induction false} AddedAllKeepsNewest(r: RingState, es: seq<seq<byte>>)
    requires WellFormed(r)
    ensures Resident(AddedAll(r, es)) == Newest(Resident(r) + es)
    decreases |es|
  {
    if es == [] {
      assert Resident(r) + es == Resident(r);
    } else {
      var r1 := Added(r, es[0]);
      AddedResident(r, es[0]);
      AddedAllKeepsNewest(r1, es[1..]);
      var res := Resident(r);
      if r.full {
        assert |res| == MaxWriteOps;
        assert Resident(r1) + es[1..] == (res + es)[1..];
      } else {
        assert Resident(r1) + es[1..] == res + es;
      }
    }
  }

  /** The linear offset `pos` resolved to (index of a resident entry, offset in
      it), searching oldest first; None past the end of the data. */
  function Locate(es: seq<seq<byte>>, pos: nat): (loc: Option<(nat, nat)>)
    ensures loc.None? <==> pos >= |Concat(es)|
    ensures loc.Some? ==>
      var (i, off) := loc.value;
      i < |es| && off < |es[i]| && |Concat(es[..i])| + off == pos &&
      |Concat(es[..i])| + |es[i]| <= |Concat(es)|
  {
    if es == [] then None
    else if pos < |es[0]| then
      assert es[..0] == [];
      Some((0, pos))
    else match Locate(es[1..], pos - |es[0]|)
      case None => None
      case Some((i, off)) =>
        assert es[..i + 1] == [es[0]] + es[1..][..i];
        assert Concat(es[..i + 1]) == es[0] + Concat(es[1..][..i]);
        Some((i + 1, off))
  }

  /** Locate, with the resident index turned into the slot that holds it. */
  function SlotLocation(r: RingState, pos: nat): Option<(nat, nat)>
    requires WellFormed(r)
  {
    match Locate(Resident(r), pos)
    case None => None
    case Some((i, off)) => Some((Slot(r, i), off))
  }

  /** One step of find's walk: the `k`-th oldest entry starts at linear offset
      `total`; it is the located one exactly when `pos` falls before its end. */
  lemma FindStep(r: RingState, k: nat, total: nat, pos: nat)
    requires WellFormed(r) && k < Count(r)
    requires total == |Concat(Resident(r)[..k])| <= pos
    ensures total + |r.entry[Slot(r, k)]| == |Concat(Resident(r)[..k + 1])|
    ensures pos < total + |r.entry[Slot(r, k)]| ==> SlotLocation(r, pos) == Some((Slot(r, k), pos - total))
  {
    var es := Resident(r);
    assert es[k] == r.entry[Slot(r, k)];
    ConcatPrefixStep(es, k);
    if pos < total + |es[k]| {
      LocateHit(es, k, total, pos);
    }
  }

  /** The entry whose byte range holds `pos` is the one Locate finds. */
  lemma LocateHit(es: seq<seq<byte>>, k: nat, total: nat, pos: nat)
    requires k < |es| && total == |Concat(es[..k])| <= pos < total + |es[k]|
    ensures Locate(es, pos) == Some((k, pos - total))
  {
    LocateRoundTrip(es, k, pos - total);
  }

  /** Walking past every resident entry: `pos` is beyond the data. */
  lemma FindEnd(r: RingState, total: nat, pos: nat)
    requires WellFormed(r)
    requires total == |Concat(Resident(r)[..Count(r)])| <= pos
    ensures SlotLocation(r, pos) == None
  {
    var es := Resident(r);
    assert es[..Count(r)] == es;
  }

  function Min(a: int, b: int): int
  {
    if a <= b then a else b
  }

  /** What one read of at most `count` bytes at linear offset `pos` of the
      entries `es` returns: None past the end of the data, otherwise the bytes
      of the located entry from the located offset, up to `count` and never past
      the entry's end. */
  function ReadFrom(es: seq<seq<byte>>, pos: nat, count: nat): Option<seq<byte>>
  {
    match Locate(es, pos)
    case None => None
    case Some((i, off)) => Some(es[i][off..off + Min(|es[i]| - off, count)])
  }

  /** One read of the ring, at linear offset `pos` of its resident entries. */
  function ReadEntry(r: RingState, pos: nat, count: nat): Option<seq<byte>>
    requires WellFormed(r)
  {
    ReadFrom(Resident(r), pos, count)
  }

  /** ReadFrom is a window on the concatenated entries. */
  lemma ReadFromWindow(es: seq<seq<byte>>, pos: nat, count: nat)
    ensures ReadFrom(es, pos, count).None? <==> pos >= |Concat(es)|
    ensures ReadFrom(es, pos, count).Some? ==>
      var d := ReadFrom(es, pos, count).value;
      var (i, off) := Locate(es, pos).value;
      && |d| == Min(|es[i]| - off, count)
      && pos + |d| <= |Concat(es[..i + 1])| <= |Concat(es)|
      && d == Concat(es)[pos..pos + |d|]
      && (|d| > 0 <==> count > 0)
  {
    match Locate(es, pos)
    case None =>
    case Some((i, off)) =>
      WindowAt(es, i, off, count);
  }

  /** The read window of entry `i` from offset `off`, placed in the linear
      address space. */
  lemma WindowAt(es: seq<seq<byte>>, i: nat, off: nat, count: nat)
    requires i < |es| && off < |es[i]|
    ensures var base := |Concat(es[..i])|;
      var d := es[i][off..off + Min(|es[i]| - off, count)];
      && base + off + |d| <= |Concat(es[..i + 1])| <= |Concat(es)|
      && d == Concat(es)[base + off..base + off + |d|]
      && (|d| > 0 <==> count > 0)
  {
    var n := Min(|es[i]| - off, count);
    EntryInContents(es, i, off, off + n);
    EntryInContents(es, i, 0, |es[i]|);
    ConcatPrefixStep(es, i);
  }

  /** A read is a window on the linear contents: it finds data exactly when
      `pos` is inside them, and then returns the `min(count, rest of entry)`
      bytes of the contents that start at `pos`, never crossing into the next
      entry. */
  lemma ReadEntryInContents(r: RingState, pos: nat, count: nat)
    requires WellFormed(r)
    ensures ReadEntry(r, pos, count).None? <==> pos >= |Contents(r)|
    ensures ReadEntry(r, pos, count).Some? ==>
      var d := ReadEntry(r, pos, count).value;
      var (i, off) := Locate(Resident(r), pos).value;
      && |d| == Min(|Resident(r)[i]| - off, count)
      && pos + |d| <= |Concat(Resident(r)[..i + 1])| <= |Contents(r)|
      && d == Contents(r)[pos..pos + |d|]
      && (|d| > 0 <==> count > 0)
  {
    ReadFromWindow(Resident(r), pos, count);
  }

  /** The slot that find returns holds the entry ReadEntry reads from. */
  lemma ReadEntryFromSlot(r: RingState, pos: nat, count: nat, slot: nat, off: nat)
    requires WellFormed(r) && SlotLocation(r, pos) == Some((slot, off))
    ensures slot < MaxWriteOps && off < |r.entry[slot]|
    ensures ReadEntry(r, pos, count) ==
      Some(r.entry[slot][off..off + Min(|r.entry[slot]| - off, count)])
  {
  }

  /** The two addressing schemes agree: the linear offset of byte `off` of
      resident entry `i` resolves back to (`i`, `off`). */
  lemma {:induction false} LocateRoundTrip(es: seq<seq<byte>>, i: nat, off: nat)
    requires i < |es| && off < |es[i]|
    ensures Locate(es, |Concat(es[..i])| + off) == Some((i, off))
  {
    if i == 0 {
      assert es[..0] == [];
    } else {
      assert es[..i] == [es[0]] + es[1..][..i - 1];
      assert Concat(es[..i]) == es[0] + Concat(es[1..][..i - 1]);
      LocateRoundTrip(es[1..], i - 1, off);
    }
  }

  /** The bytes of one resident entry sit in the linear address space at that
      entry's offset. */
  lemma EntryInContents(es: seq<seq<byte>>, i: nat, lo: nat, hi: nat)
    requires i < |es| && lo <= hi <= |es[i]|
    ensures |Concat(es[..i])| + hi <= |Concat(es)|
    ensures Concat(es)[|Concat(es[..i])| + lo .. |Concat(es[..i])| + hi] == es[i][lo..hi]
  {
    assert es == es[..i] + [es[i]] + es[i + 1..];
    ConcatAppend(es[..i] + [es[i]], es[i + 1..]);
    ConcatSnoc(es[..i], es[i]);
  }

  /** The ring as the driver holds it: `struct aesd_circular_buffer`. */
  class AesdCircularBuffer {
    var entry: array<seq<byte>>
    var inOffs: nat
    var outOffs: nat
    var full: bool

    function State(): RingState
      reads this, entry
    {
      RingState(entry[..], inOffs, outOffs, full)
    }

    ghost predicate Valid()
      reads this, entry
    {
      WellFormed(State())
    }

    /** aesd_circular_buffer_init, on a zeroed device. */
    constructor Init()
      ensures Valid() && fresh(entry)
      ensures State() == Empty()
    {
      var slots := new seq<byte>[MaxWriteOps](_ => []);
      assert slots[..] == Empty().entry;
      entry := slots;
      inOffs, outOffs, full := 0, 0, false;
      new;
      assert entry[..] == Empty().entry;
    }

    /** aesd_circular_buffer_add_entry. */
    method AddEntry(e: seq<byte>)
      requires Valid()
      modifies this, entry
      ensures Valid() && entry == old(entry)
      ensures State() == Added(old(State()), e)
    {
      entry[inOffs] := e;
      inOffs := NextSlot(inOffs);
      if full {
        outOffs := NextSlot(outOffs);
      }
      full := inOffs == outOffs;
    }

    /** aesd_circular_buffer_find_entry_offset_for_fpos: walks the resident
        entries from `out_offs`, accumulating their sizes, and returns the slot
        whose byte range holds `charOffset` with the offset inside it, or None
        (NULL) past the end of the data. */
    method FindEntryOffsetForFpos(charOffset: nat) returns (r: Option<(nat, nat)>)
      requires Valid()
      ensures r == SlotLocation(State(), charOffset)
      ensures r.Some? ==> r.value.0 < entry.Length && r.value.1 < |entry[r.value.0]|
    {
      ghost var st := State();
      var n := Count(State());
      var total := 0;
      var index := outOffs;
      var k := 0;
      while k < n
        invariant n == Count(st) && 0 <= k <= n
        invariant index == Slot(st, k)
        invariant total == |Concat(Resident(st)[..k])| && total <= charOffset
        decreases n - k
      {
        assert entry[index] == st.entry[index];
        FindStep(st, k, total, charOffset);
        if charOffset < total + |entry[index]| {
          return Some((index, charOffset - total));
        }
        total := total + |entry[index]|;
        SlotStep(st, k);
        index := NextSlot(index);
        k := k + 1;
      }
      FindEnd(st, total, charOffset);
      return None;
    }
  }
}
