/** What a read sees after a write, at every position of every file: sparse files, holes and the unused rest of a
    file's last block included. */
module ReadBack {
  import opened Wrappers
  import opened Geometry
  import opened Directory
  import opened Volume
  import opened Invariant
  import opened Refinement
  import opened Overwrites

  /** The block `cpmRead` finds for a position, 0 for a hole. */
  function BlockFor(g: Geometry, v: Volume, f: Key, pos: nat): nat
    requires ValidGeometry(g)
  {
    var i := FindFileExtent(g, v.dir, f, 0, pos / LOGICAL_EXTENT);
    if i == -1 then 0 else Ptr(g, v.dir[i], Slot(g, pos))
  }

  /** What is there: a byte of that block, or zero. */
  function ByteFor(g: Geometry, v: Volume, f: Key, pos: nat): byte
    requires Mounted(g, v)
  {
    NeverBad(g, v, f);
    ReadByte(g, v, f, pos)
  }

  /** The entry of a file for one of its extents is the one the scan finds. */
  lemma EntryFound(g: Geometry, v: Volume, i: nat, pos: nat)
    requires Consistent(g, v) && Mounted(g, v) && i < |v.dir| && Live(g, v.dir[i])
    requires PhysicalOf(g, v.dir[i]) == PhysicalExtent(g, pos)
    ensures var b := LivePtr(g, v.dir[i], Slot(g, pos));
      && b < |v.data| && BlockFor(g, v, KeyOf(v.dir[i]), pos) == b
      && (b != 0 ==> Offset(g, pos) < |v.data[b]|)
      && ByteFor(g, v, KeyOf(v.dir[i]), pos) == if b == 0 then 0 else v.data[b][Offset(g, pos)]
  {
    hide ValidGeometry, KeyOf, Ptr, Slot, Offset, PhysicalExtent, PointersOk, NoSharing, AlvOf;
    PhysicalOfLogical(g, pos);
  }

  lemma NoEntryFound(g: Geometry, v: Volume, h: Key, pos: nat)
    requires Mounted(g, v) && !HasExtent(g, v.dir, h, PhysicalExtent(g, pos))
    ensures BlockFor(g, v, h, pos) == 0 && ByteFor(g, v, h, pos) == 0
  {
    hide ValidGeometry, KeyOf, Ptr, Slot, Offset, PhysicalExtent, WellSized, PointersInRange;
    PhysicalOfLogical(g, pos);
  }

  lemma OtherSlot(g: Geometry, v: Volume, v': Volume, i: nat, k: nat, b: nat, block: seq<byte>, j: nat, l: nat)
    requires ValidGeometry(g) && StoredAt(g, v, v', i, k, b, block) && j < |v.dir| && l < PointersPerEntry(g)
    ensures if j == i && l == k then LivePtr(g, v'.dir[j], l) == b && v'.data[b] == block
            else
              var c := LivePtr(g, v.dir[j], l);
              LivePtr(g, v'.dir[j], l) == c && (0 < c < |v.data| ==> v'.data[c] == v.data[c])
  {
    hide ValidGeometry, LivePtr, KeyOf, PhysicalOf, Live;
    assert LivePtr(g, v'.dir[i], k) == b;
  }

  /** A stored block is seen at the positions of its slot, and nothing else changes for any file. */
  lemma StoredReads(g: Geometry, v: Volume, v': Volume, i: nat, k: nat, b: nat, block: seq<byte>, h: Key, p: nat)
    requires Consistent(g, v) && Consistent(g, v') && Mounted(g, v) && Mounted(g, v')
    requires StoredAt(g, v, v', i, k, b, block)
    ensures if h == KeyOf(v.dir[i]) && PhysicalExtent(g, p) == PhysicalOf(g, v.dir[i]) && Slot(g, p) == k
            then BlockFor(g, v', h, p) == b && Offset(g, p) < |block| && ByteFor(g, v', h, p) == block[Offset(g, p)]
            else BlockFor(g, v', h, p) == BlockFor(g, v, h, p) && ByteFor(g, v', h, p) == ByteFor(g, v, h, p)
  {
    hide ValidGeometry, KeyOf, Slot, Offset, PhysicalExtent, PhysicalOf, Live, LivePtr, PointersOk, AlvOf,
         UniqueExtents, NoSharing, BlockFor, ByteFor, WellSized, PointersInRange;
    var x := PhysicalExtent(g, p);
    if h == KeyOf(v.dir[i]) && x == PhysicalOf(g, v.dir[i]) {
      EntryFound(g, v, i, p);
      EntryFound(g, v', i, p);
      OtherSlot(g, v, v', i, k, b, block, i, Slot(g, p));
    } else if HasExtent(g, v.dir, h, x) {
      var j: nat :| j < |v.dir| && Live(g, v.dir[j]) && KeyOf(v.dir[j]) == h && PhysicalOf(g, v.dir[j]) == x;
      EntryFound(g, v, j, p);
      EntryFound(g, v', j, p);
      OtherSlot(g, v, v', i, k, b, block, j, Slot(g, p));
    } else {
      NoEntryFound(g, v, h, p);
      assert !HasExtent(g, v'.dir, h, x);
      NoEntryFound(g, v', h, p);
    }
  }

  /** An entry made for a new extent shows nothing. */
  lemma OpenedReads(g: Geometry, v: Volume, ino: nat, pos: nat, cursor: Option<Cursor>, h: Key, p: nat)
    requires Consistent(g, v) && Mounted(g, v) && ino < |v.dir| && Live(g, v.dir[ino]) && pos < MAX_FILE
    requires CursorOk(g, v, ino, pos, cursor) && Opened(g, v, ino, pos, cursor).Some?
    requires Mounted(g, Opened(g, v, ino, pos, cursor).value.0)
    ensures var v' := Opened(g, v, ino, pos, cursor).value.0;
      BlockFor(g, v', h, p) == BlockFor(g, v, h, p) && ByteFor(g, v', h, p) == ByteFor(g, v, h, p)
  {
    hide ValidGeometry, KeyOf, Slot, Offset, PhysicalExtent, PhysicalOf, Live, LivePtr, PointersOk, AlvOf,
         UniqueExtents, NoSharing, BlockFor, ByteFor, WellSized, PointersInRange, WithExtentNumber, CursorOk;
    var v', x := Opened(g, v, ino, pos, cursor).value.0, PhysicalExtent(g, p);
    OpenedConsistent(g, v, ino, pos, cursor);
    if v' != v {
      var j := FindFreeExtent(v.dir, 0);
      ExtentEntryFacts(g, v.dir[ino], pos);
      UnusedIsNotLive(g, v.dir[j]);
      if HasExtent(g, v.dir, h, x) {
        var l: nat :| l < |v.dir| && Live(g, v.dir[l]) && KeyOf(v.dir[l]) == h && PhysicalOf(g, v.dir[l]) == x;
        EntryFound(g, v, l, p);
        EntryFound(g, v', l, p);
      } else {
        NoEntryFound(g, v, h, p);
        if KeyOf(v'.dir[j]) == h && PhysicalOf(g, v'.dir[j]) == x {
          EntryFound(g, v', j, p);
        } else {
          assert !HasExtent(g, v'.dir, h, x);
          NoEntryFound(g, v', h, p);
        }
      }
    }
  }

  /** What a read may find disturbed: bytes behind the write, in the sector it ends in, if their block was there before
      and that sector was not fetched. */
  predicate Disturbed(g: Geometry, v: Volume, f: Key, pos: nat, n: nat, p: nat)
    requires ValidGeometry(g)
  {
    0 < n && InTail(g, pos, n, p) && BlockFor(g, v, f, p) != 0
  }

  /** A read finds the written bytes where they were written, and what it found before everywhere else. */
  ghost predicate Updated(g: Geometry, v: Volume, v': Volume, f: Key, pos: nat, data: seq<byte>, h: Key, p: nat)
    requires Mounted(g, v) && Mounted(g, v')
  {
    ByteFor(g, v', h, p) == if h == f && pos <= p < pos + |data| then data[p - pos] else ByteFor(g, v, h, p)
  }

  /** One block stored: the bytes behind the write are the file's, or zeros if the block is new, unless they are
      disturbed. */
  lemma BlockPassReads(g: Geometry, v: Volume, ino: nat, c: Cursor, pos: nat, data: seq<byte>, buffer: seq<byte>,
                       h: Key, p: nat)
    requires Consistent(g, v) && Mounted(g, v) && ino < |v.dir| && CursorOk(g, v, ino, pos, Some(c))
    requires Live(g, v.dir[ino]) && c.extent < |v.dir| && Live(g, v.dir[c.extent]) && |buffer| == LOGICAL_EXTENT
    requires 0 < |data| && BlockPass(g, v, c, pos, data, buffer).Stored?
    ensures var f, r := KeyOf(v.dir[ino]), BlockPass(g, v, c, pos, data, buffer);
      && r.n == PassLength(g, pos, |data|) && Mounted(g, r.vol)
      && ((h == f && Disturbed(g, v, f, pos, r.n, p)) || Updated(g, v, r.vol, f, pos, data[..r.n], h, p))
      && (BlockFor(g, r.vol, h, p) == BlockFor(g, v, h, p) ||
          (h == f && PhysicalExtent(g, p) == PhysicalExtent(g, pos) && Slot(g, p) == Slot(g, pos)))
  {
    hide ValidGeometry, Consistent, CursorOk, WellSized, PointersInRange, KeyOf, Live, BlockPass, PassLength, WithEnd,
         PhysicalOf, PhysicalExtent, Slot, Offset, BlockFor, ByteFor, FromBuffer, StoredAt;
    CursorEntry(g, v, ino, pos, c);
    var b, block := BlockPassStores(g, v, ino, c, pos, data, buffer);
    var r := BlockPass(g, v, c, pos, data, buffer);
    StoredReads(g, v, r.vol, c.extent, Slot(g, pos), b, block, h, p);
    if h == KeyOf(v.dir[ino]) && PhysicalExtent(g, p) == PhysicalExtent(g, pos) {
      EntryFound(g, v, c.extent, p);
      if Slot(g, p) == Slot(g, pos) {
        SameSlotClose(g, p, pos);
      } else {
        OtherBlock(g, pos, r.n, p);
      }
    } else if pos <= p < pos + r.n {
      SameBlock(g, pos, p - pos);
    }
  }

  lemma OtherBlock(g: Geometry, pos: nat, n: nat, p: nat)
    requires ValidGeometry(g) && 0 < n && Offset(g, pos) + n <= g.blksiz && Slot(g, p) != Slot(g, pos)
    ensures !(pos <= p < pos + n)
  {
    hide ValidGeometry, Slot;
    if pos <= p < pos + n {
      SameBlock(g, pos, p - pos);
    }
  }

  lemma PassReads(g: Geometry, v: Volume, ino: nat, pos: nat, cursor: Option<Cursor>, data: seq<byte>,
                  buffer: seq<byte>, h: Key, p: nat)
    requires WriteState(g, v, ino, pos, cursor, |data|, buffer) && Writable(g, v, ino, cursor, buffer) && 0 < |data|
    ensures var f, r := KeyOf(v.dir[ino]), WritePass(g, v, ino, pos, cursor, data, buffer);
      && Mounted(g, r.vol)
      && (r.Full? ==> ByteFor(g, r.vol, h, p) == ByteFor(g, v, h, p))
      && (r.Stored? ==>
            && r.n == PassLength(g, pos, |data|)
            && ((h == f && Disturbed(g, v, f, pos, r.n, p)) || Updated(g, v, r.vol, f, pos, data[..r.n], h, p))
            && (BlockFor(g, r.vol, h, p) == BlockFor(g, v, h, p) ||
                (h == f && PhysicalExtent(g, p) == PhysicalExtent(g, pos) && Slot(g, p) == Slot(g, pos))))
  {
    hide ValidGeometry, Consistent, CursorOk, CursorFits, WellSized, PointersInRange, KeyOf, Live, BlockPass, Opened,
         PassLength, PhysicalExtent, Slot, BlockFor, ByteFor, InTail;
    if Opened(g, v, ino, pos, cursor).Some? {
      OpenedConsistent(g, v, ino, pos, cursor);
      var (v1, c) := Opened(g, v, ino, pos, cursor).value;
      ConsistentIsMounted(g, v1);
      OpenedReads(g, v, ino, pos, cursor, h, p);
      if BlockPass(g, v1, c, pos, data, buffer).Stored? {
        BlockPassReads(g, v1, ino, c, pos, data, buffer, h, p);
      } else {
        FullPassChangesNothing(g, v1, c, pos, data, buffer);
      }
    }
  }

  /** After any write, at any position and however much of it was stored, every position of every file reads as if the
      stored bytes had been put into the file and nothing else: holes read zero, and so does what is behind the data
      in a block that is new. The one exception is the sector the write ends in, if its block was there before and it
      was not fetched. */
  lemma {:induction false} WriteReads(g: Geometry, v: Volume, ino: nat, pos: nat, cursor: Option<Cursor>,
                                      data: seq<byte>, buffer: seq<byte>, h: Key, p: nat)
    requires WriteState(g, v, ino, pos, cursor, |data|, buffer) && Writable(g, v, ino, cursor, buffer)
    ensures var f, r := KeyOf(v.dir[ino]), Write(g, v, ino, pos, cursor, data, buffer);
      && Mounted(g, r.vol)
      && ((h == f && Disturbed(g, v, f, pos, r.got, p)) || Updated(g, v, r.vol, f, pos, data[..r.got], h, p))
    decreases |data|
  {
    hide ValidGeometry, Consistent, CursorOk, CursorFits, WellSized, PointersInRange, KeyOf, Live, WritePass,
         PassLength, PhysicalExtent, Slot, BlockFor, ByteFor, InTail;
    if |data| > 0 {
      WritePassConsistent(g, v, ino, pos, cursor, data, buffer);
      PassReads(g, v, ino, pos, cursor, data, buffer, h, p);
      var step := WritePass(g, v, ino, pos, cursor, data, buffer);
      if step.Stored? {
        WriteReads(g, step.vol, ino, pos + step.n, step.cursor, data[step.n..], step.buffer, h, p);
        var rest := Write(g, step.vol, ino, pos + step.n, step.cursor, data[step.n..], step.buffer);
        if rest.got > 0 {
          TailOfRest(g, pos, step.n, |data|, rest.got, p);
        }
      }
    }
  }

  /** Behind a write of several passes only its last block can be disturbed. */
  lemma TailOfRest(g: Geometry, pos: nat, n: nat, count: nat, got: nat, p: nat)
    requires ValidGeometry(g) && 0 < count && n == PassLength(g, pos, count) && 0 < got <= count - n
    ensures InTail(g, pos, n + got, p) <==> InTail(g, pos + n, got, p)
    ensures !InTail(g, pos, n, p)
    ensures InTail(g, pos, n + got, p) ==> PhysicalExtent(g, p) != PhysicalExtent(g, pos) || Slot(g, p) != Slot(g, pos)
  {
    hide ValidGeometry, FromBuffer, Offset, PhysicalExtent, Slot;
    LastStartOfRest(g, pos, n + got);
    if PhysicalExtent(g, p) == PhysicalExtent(g, pos) && Slot(g, p) == Slot(g, pos) {
      SameSlotClose(g, p, pos);
    }
  }

  ghost predicate NoBlocks(g: Geometry, dir: seq<DirEntry>, f: Key) {
    forall i: nat, k: nat :: i < |dir| && Live(g, dir[i]) && KeyOf(dir[i]) == f && k < PointersPerEntry(g) ==>
      LivePtr(g, dir[i], k) == 0
  }

  /** A write into a file that has no blocks yet, at any position: on the disk, its blocks hold the stored bytes and
      zeros everywhere else, in front of them and behind them, whatever the buffer and the blocks held before. */
  lemma NewBlocksAreClean(g: Geometry, v: Volume, ino: nat, pos: nat, data: seq<byte>, buffer: seq<byte>,
                          i: nat, k: nat, o: nat)
    requires WriteState(g, v, ino, pos, None, |data|, buffer) && Writable(g, v, ino, None, buffer)
    requires NoBlocks(g, v.dir, KeyOf(v.dir[ino])) && o < g.blksiz && k < PointersPerEntry(g)
    requires var w := Write(g, v, ino, pos, None, data, buffer).vol;
      i < |w.dir| && Live(g, w.dir[i]) && KeyOf(w.dir[i]) == KeyOf(v.dir[ino]) && LivePtr(g, w.dir[i], k) != 0
    ensures var r := Write(g, v, ino, pos, None, data, buffer);
      var b, p := LivePtr(g, r.vol.dir[i], k), SlotStart(g, PhysicalOf(g, r.vol.dir[i]), k) + o;
      && b < |r.vol.data| && o < |r.vol.data[b]|
      && r.vol.data[b][o] == if pos <= p < pos + r.got then data[p - pos] else 0
  {
    hide ValidGeometry, WellSized, PointersInRange, KeyOf, Live, Write, PhysicalOf, PhysicalExtent, Slot, SlotStart,
         Offset, BlockFor, ByteFor, InTail, NoSharing, UniqueExtents, AlvOf;
    var r := Write(g, v, ino, pos, None, data, buffer);
    var f, p := KeyOf(v.dir[ino]), SlotStart(g, PhysicalOf(g, r.vol.dir[i]), k) + o;
    WriteConsistent(g, v, ino, pos, None, data, buffer);
    assert k < BlocksPerExtent(g);
    PositionOf(g, PhysicalOf(g, r.vol.dir[i]), k, o);
    WriteReads(g, v, ino, pos, None, data, buffer, f, p);
    EntryFound(g, r.vol, i, p);
    HoleBefore(g, v, f, p);
  }

  lemma HoleBefore(g: Geometry, v: Volume, f: Key, p: nat)
    requires Consistent(g, v) && Mounted(g, v) && NoBlocks(g, v.dir, f)
    ensures BlockFor(g, v, f, p) == 0 && ByteFor(g, v, f, p) == 0
  {
    hide ValidGeometry, WellSized, PointersInRange, KeyOf, Live, PhysicalOf, PhysicalExtent, Slot, Offset, BlockFor,
         ByteFor, NoSharing, UniqueExtents, AlvOf, PointersOk, LivePtr;
    if HasExtent(g, v.dir, f, PhysicalExtent(g, p)) {
      var i: nat :|
        i < |v.dir| && Live(g, v.dir[i]) && KeyOf(v.dir[i]) == f && PhysicalOf(g, v.dir[i]) == PhysicalExtent(g, p);
      EntryFound(g, v, i, p);
    } else {
      NoEntryFound(g, v, f, p);
    }
  }
}
