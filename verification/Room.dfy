/** How much an append stores: exactly as much as the free blocks and free entries have room for. */
module Room {
  import opened Wrappers
  import opened Arithmetic
  import opened Geometry
  import opened Directory
  import opened Volume
  import opened Invariant
  import opened Refinement
  import opened Runs
  import opened Space
  import opened Sizes

  /** Blocks an append of `n` bytes to a file of `pos` adds. */
  function NeededBlocks(g: Geometry, pos: nat, n: nat): int
    requires ValidGeometry(g)
  {
    BlocksFor(g, pos + n) - BlocksFor(g, pos)
  }

  /** Entries it adds: one for each extent it reaches that has none. */
  ghost function NeededEntries(g: Geometry, dir: seq<DirEntry>, f: Key, pos: nat, n: nat): int
    requires ValidGeometry(g)
  {
    if n == 0 then 0
    else PhysicalExtent(g, pos + n - 1) - PhysicalExtent(g, pos) + if HasExtent(g, dir, f, PhysicalExtent(g, pos))
      then 0 else 1
  }

  /** What `cpmStatFS` reports as free is enough for them. */
  ghost predicate HasRoom(g: Geometry, v: Volume, f: Key, pos: nat, n: nat)
    requires ValidGeometry(g) && g.size <= |v.alv|
  {
    NeededBlocks(g, pos, n) <= Bfree(g, v.alv) && NeededEntries(g, v.dir, f, pos, n) <= CountUnused(v.dir, |v.dir|)
  }

  // ----- counting ------------------------------------------------------------------------------------

  lemma {:induction false} AllCounted(alv: seq<bool>, n: nat)
    requires n <= |alv|
    ensures CountSet(alv, n) == n <==> forall b :: 0 <= b < n ==> alv[b]
  {
    if n > 0 {
      AllCounted(alv, n - 1);
    }
  }

  lemma {:induction false} OneMoreCounted(alv: seq<bool>, a: nat, n: nat)
    requires n <= |alv| && a < |alv| && !alv[a]
    ensures CountSet(alv[a := true], n) == CountSet(alv, n) + if a < n then 1 else 0
  {
    if n > 0 {
      OneMoreCounted(alv, a, n - 1);
    }
  }

  lemma {:induction false} NoneUnused(dir: seq<DirEntry>, n: nat)
    requires n <= |dir|
    ensures CountUnused(dir, n) == 0 <==> forall i :: 0 <= i < n ==> dir[i].status != UNUSED
  {
    if n > 0 {
      NoneUnused(dir, n - 1);
    }
  }

  lemma {:induction false} OneLessUnused(dir: seq<DirEntry>, i: nat, e: DirEntry, n: nat)
    requires n <= |dir| && i < |dir| && dir[i].status == UNUSED && e.status != UNUSED
    ensures CountUnused(dir[i := e], n) == CountUnused(dir, n) - if i < n then 1 else 0
  {
    if n > 0 {
      OneLessUnused(dir, i, e, n - 1);
    }
  }

  lemma {:induction false} SameUnused(dir: seq<DirEntry>, dir': seq<DirEntry>, n: nat)
    requires n <= |dir| == |dir'| && forall i :: 0 <= i < |dir| ==> dir'[i].status == dir[i].status
    ensures CountUnused(dir', n) == CountUnused(dir, n)
  {
    if n > 0 {
      SameUnused(dir, dir', n - 1);
    }
  }

  // ----- what a pass needs -----------------------------------------------------------------------------

  /** An append in the middle of a file system call: the file ends at `pos`, in its last extent. */
  ghost predicate AtEnd(g: Geometry, v: Volume, ino: nat, pos: nat, files: Files) {
    && Consistent(g, v) && ino < |v.dir| && Contents(g, v, files) && KeyOf(v.dir[ino]) in files
    && |files[KeyOf(v.dir[ino])]| == pos && EntriesUpTo(g, v.dir, KeyOf(v.dir[ino]), PhysicalExtent(g, pos))
  }

  /** The entry of `pos` is found or made exactly if it is there or an entry is free. */
  lemma OpenNeeds(g: Geometry, v: Volume, ino: nat, pos: nat, cursor: Option<Cursor>)
    requires Consistent(g, v) && ino < |v.dir| && Live(g, v.dir[ino]) && CursorOk(g, v, ino, pos, cursor)
    ensures var has, unused := HasExtent(g, v.dir, KeyOf(v.dir[ino]), PhysicalExtent(g, pos)),
      CountUnused(v.dir, |v.dir|);
      && (Opened(g, v, ino, pos, cursor).Some? <==> has || 0 < unused)
      && (Opened(g, v, ino, pos, cursor).Some? ==>
            var v' := Opened(g, v, ino, pos, cursor).value.0;
            v'.alv == v.alv && CountUnused(v'.dir, |v'.dir|) == unused - if has then 0 else 1)
  {
    hide ValidGeometry, PointersOk, NoSharing, UniqueExtents, AlvOf, WellSized, KeyOf, WithExtentNumber;
    PhysicalOfLogical(g, pos);
    NoneUnused(v.dir, |v.dir|);
    var f, extentno := KeyOf(v.dir[ino]), pos / LOGICAL_EXTENT;
    if cursor.Some? {
      assert KeyOf(v.dir[cursor.value.extent]) == f;
    } else if FindFileExtent(g, v.dir, f, 0, extentno) == -1 {
      NoExtent(g, v.dir, f, pos);
      if FindFreeExtent(v.dir, 0) != -1 {
        NewEntryCounted(g, v.dir, FindFreeExtent(v.dir, 0), v.dir[ino], extentno);
      }
    }
  }

  lemma NewEntryCounted(g: Geometry, dir: seq<DirEntry>, j: nat, like: DirEntry, extentno: nat)
    requires j < |dir| && dir[j].status == UNUSED && Live(g, like)
    ensures CountUnused(dir[j := ExtentEntry(like, extentno)], |dir|) == CountUnused(dir, |dir|) - 1
  {
    OneLessUnused(dir, j, ExtentEntry(like, extentno), |dir|);
  }

  /** The slot of the end of a file is in use exactly if the file ends inside a block. */
  lemma EndSlot(g: Geometry, v: Volume, i: nat, pos: nat, files: Files)
    requires Consistent(g, v) && Contents(g, v, files) && i < |v.dir| && Live(g, v.dir[i])
    requires KeyOf(v.dir[i]) in files && |files[KeyOf(v.dir[i])]| == pos
    requires PhysicalOf(g, v.dir[i]) == PhysicalExtent(g, pos)
    ensures Ptr(g, v.dir[i], Slot(g, pos)) != 0 <==> Offset(g, pos) != 0
  {
    hide ValidGeometry, PointersOk, NoSharing, UniqueExtents, AlvOf, WellSized, KeyOf, PhysicalOf, Ptr, Slot, Offset,
         SlotStart, Complete, PhysicalExtent;
    assert EntryContents(g, v, i, files);
    assert LivePtr(g, v.dir[i], Slot(g, pos)) == Ptr(g, v.dir[i], Slot(g, pos));
    PositionSplits(g, pos);
    if Offset(g, pos) != 0 {
      PreviousByte(g, pos);
      assert ByteAt(g, v.data, LivePtr(g, v.dir[i], Slot(g, pos - 1)), Offset(g, pos - 1),
        files[KeyOf(v.dir[i])][pos - 1]);
    }
  }

  lemma PreviousByte(g: Geometry, pos: nat)
    requires ValidGeometry(g) && Offset(g, pos) != 0
    ensures 0 < pos && PhysicalExtent(g, pos - 1) == PhysicalExtent(g, pos) && Slot(g, pos - 1) == Slot(g, pos)
  {
    hide ValidGeometry, PhysicalExtent, Slot, SlotStart;
    PositionSplits(g, pos);
    PositionOf(g, PhysicalExtent(g, pos), Slot(g, pos), Offset(g, pos) - 1);
  }

  /** A pass stores exactly if the slot is in use or a block is free. */
  lemma BlockNeeds(g: Geometry, v: Volume, c: Cursor, pos: nat, data: seq<byte>, buffer: seq<byte>)
    requires Mounted(g, v) && c.extent < |v.dir| && Live(g, v.dir[c.extent]) && |buffer| == LOGICAL_EXTENT && 0 < |data|
    requires g.size <= |v.alv|
    ensures var there, r := Ptr(g, v.dir[c.extent], Slot(g, pos)) != 0, BlockPass(g, v, c, pos, data, buffer);
      && (r.Stored? <==> there || 0 < Bfree(g, v.alv))
      && (r.Stored? ==>
            && |r.vol.alv| == |v.alv| && Bfree(g, r.vol.alv) == Bfree(g, v.alv) - (if there then 0 else 1)
            && CountUnused(r.vol.dir, |r.vol.dir|) == CountUnused(v.dir, |v.dir|))
  {
    hide ValidGeometry, WellSized, PointersInRange, Ptr, Slot, StoreInBlock, WithEnd, AdvancedExtentNumber, SetPtr,
         Offset, PhysicalExtent, CountUnused;
    AllCounted(v.alv, g.size);
    var a := AllocBlock(g, v.alv);
    if a != -1 {
      OneMoreCounted(v.alv, a, g.size);
    }
    var r := BlockPass(g, v, c, pos, data, buffer);
    if r.Stored? {
      OpenBlockMounted(g, v, c.extent, Slot(g, pos));
      SameUnused(v.dir, r.vol.dir, |v.dir|);
    }
  }

  /** The first pass goes through exactly if there is room for one byte, and leaves room for what is left. */
  lemma PassNeeds(g: Geometry, v: Volume, ino: nat, pos: nat, cursor: Option<Cursor>, data: seq<byte>,
                  buffer: seq<byte>, files: Files)
    requires WriteState(g, v, ino, pos, cursor, |data|, buffer) && Writable(g, v, ino, cursor, buffer) && 0 < |data|
    requires AtEnd(g, v, ino, pos, files) && g.size <= |v.alv|
    ensures var f, step := KeyOf(v.dir[ino]), WritePass(g, v, ino, pos, cursor, data, buffer);
      var has := HasExtent(g, v.dir, f, PhysicalExtent(g, pos));
      && (step.Stored? <==> (has || 0 < CountUnused(v.dir, |v.dir|)) && (Offset(g, pos) != 0 || 0 < Bfree(g, v.alv)))
      && (step.Stored? ==>
            && |step.vol.alv| == |v.alv| &&
              Bfree(g, step.vol.alv) == Bfree(g, v.alv) - (if Offset(g, pos) != 0 then 0 else 1)
            && CountUnused(step.vol.dir, |step.vol.dir|) == CountUnused(v.dir, |v.dir|) - (if has then 0 else 1))
  {
    hide ValidGeometry, Consistent, CursorOk, CursorFits, BlockPass, KeyOf, Live, WellSized, PointersInRange,
         PhysicalOf, Contents, EntriesUpTo, HasExtent, CountUnused, Bfree, Ptr, Offset, PhysicalExtent;
    OpenNeeds(g, v, ino, pos, cursor);
    if Opened(g, v, ino, pos, cursor).Some? {
      OpenedConsistent(g, v, ino, pos, cursor);
      var (v1, c) := Opened(g, v, ino, pos, cursor).value;
      if cursor.None? {
        OpenExtentContents(g, v, ino, pos, files);
      }
      ConsistentIsMounted(g, v1);
      CursorEntry(g, v1, ino, pos, c);
      EndSlot(g, v1, c.extent, pos, files);
      BlockNeeds(g, v1, c, pos, data, buffer);
    }
  }

  /** After a pass the file ends where the pass did, and its entry is there. */
  lemma PassAtEnd(g: Geometry, v: Volume, ino: nat, pos: nat, cursor: Option<Cursor>, data: seq<byte>,
                  buffer: seq<byte>, files: Files)
    requires WriteState(g, v, ino, pos, cursor, |data|, buffer) && Writable(g, v, ino, cursor, buffer) && 0 < |data|
    requires AtEnd(g, v, ino, pos, files) && WritePass(g, v, ino, pos, cursor, data, buffer).Stored?
    ensures var f, step := KeyOf(v.dir[ino]), WritePass(g, v, ino, pos, cursor, data, buffer);
      && AtEnd(g, step.vol, ino, pos + step.n, files[f := files[f] + data[..step.n]])
      && HasExtent(g, step.vol.dir, f, PhysicalExtent(g, pos)) &&
        EntriesUpTo(g, step.vol.dir, f, PhysicalExtent(g, pos))
      && step.n == PassLength(g, pos, |data|)
  {
    hide ValidGeometry, Consistent, CursorOk, CursorFits, WritePass, KeyOf, Live, WellSized, PointersInRange,
         PhysicalOf, Contents, EntriesUpTo, SameOutside, PhysicalExtent, PassLength, Offset, WithEnd, ExtentNumber;
    var f, step, x := KeyOf(v.dir[ino]), WritePass(g, v, ino, pos, cursor, data, buffer), PhysicalExtent(g, pos);
    WritePassConsistent(g, v, ino, pos, cursor, data, buffer);
    PassAppends(g, v, ino, pos, cursor, data, buffer, files);
    PassRecordsEnd(g, v, ino, pos, cursor, data, buffer);
    PassLengthOf(g, v, ino, pos, cursor, data, buffer);
    UpToStays(g, v.dir, step.vol.dir, f, x, x);
    ExtentMonotone(g, pos, pos + step.n);
    UpToGrows(g, step.vol.dir, f, x, PhysicalExtent(g, pos + step.n));
  }

  // ----- the arithmetic of what is left ------------------------------------------------------------------

  /** Bytes up to the end of a block need one block, or none if the file ended inside it. */
  lemma BlocksOfPass(g: Geometry, pos: nat, n: nat)
    requires ValidGeometry(g) && 0 < n && Offset(g, pos) + n <= g.blksiz
    ensures BlocksFor(g, pos + n) == BlocksFor(g, pos) + if Offset(g, pos) != 0 then 0 else 1
  {
    CapacityIsPositive(g);
    LastBlock(pos, n, g.blksiz);
  }

  lemma LastBlock(pos: nat, n: nat, d: nat)
    requires 0 < d && 0 < n && pos % d + n <= d
    ensures (pos + n - 1) / d == pos / d
    ensures pos % d != 0 ==> (pos - 1) / d == pos / d
    ensures pos % d == 0 && 0 < pos ==> (pos - 1) / d == pos / d - 1
    ensures pos == 0 ==> pos / d == 0
  {
    var q, r := pos / d, pos % d;
    DivModEquation(pos, d);
    DivModUnique(pos + n - 1, d, q, r + n - 1);
    if r != 0 {
      DivModUnique(pos - 1, d, q, r - 1);
    } else if 0 < pos {
      assert (q - 1) * d == q * d - d;
      DivModUnique(pos - 1, d, q - 1, d - 1);
    }
  }

  lemma BlocksMonotone(g: Geometry, m: nat, n: nat)
    requires ValidGeometry(g) && m <= n
    ensures BlocksFor(g, m) <= BlocksFor(g, n)
  {
    CapacityIsPositive(g);
    if 0 < m {
      QuotientMonotone(m - 1, n - 1, g.blksiz);
    }
  }

  /** Room for more is room for less. */
  lemma RoomForLess(g: Geometry, v: Volume, f: Key, pos: nat, m: nat, n: nat)
    requires ValidGeometry(g) && g.size <= |v.alv| && m <= n && HasRoom(g, v, f, pos, n)
    ensures HasRoom(g, v, f, pos, m)
  {
    hide ValidGeometry, BlocksFor, PhysicalExtent, HasExtent;
    BlocksMonotone(g, pos + m, pos + n);
    if 0 < m {
      ExtentMonotone(g, pos + m - 1, pos + n - 1);
    }
  }

  lemma RoomForNothing(g: Geometry, v: Volume, f: Key, pos: nat)
    requires ValidGeometry(g) && g.size <= |v.alv|
    ensures HasRoom(g, v, f, pos, 0)
  {
    hide ValidGeometry, BlocksFor;
  }

  /** A stored pass takes away what it needed. */
  ghost predicate Shrinks(g: Geometry, v: Volume, v': Volume, f: Key, pos: nat)
    requires ValidGeometry(g) && g.size <= |v.alv| == |v'.alv|
  {
    var has, blocks, entries := HasExtent(g, v.dir, f, PhysicalExtent(g, pos)), Bfree(g, v.alv),
      CountUnused(v.dir, |v.dir|);
    && (has || 0 < entries) && (Offset(g, pos) != 0 || 0 < blocks)
    && Bfree(g, v'.alv) == blocks - (if Offset(g, pos) != 0 then 0 else 1)
    && CountUnused(v'.dir, |v'.dir|) == entries - (if has then 0 else 1)
    && HasExtent(g, v'.dir, f, PhysicalExtent(g, pos)) && EntriesUpTo(g, v'.dir, f, PhysicalExtent(g, pos))
  }

  lemma RoomAfterPass(g: Geometry, v: Volume, v': Volume, f: Key, pos: nat, m: nat, k: nat)
    requires ValidGeometry(g) && g.size <= |v.alv| == |v'.alv| && 0 < m && Offset(g, pos) + m <= g.blksiz
    requires Shrinks(g, v, v', f, pos)
    ensures HasRoom(g, v, f, pos, m + k) <==> HasRoom(g, v', f, pos + m, k)
  {
    hide ValidGeometry, BlocksFor, PhysicalExtent, HasExtent, EntriesUpTo, Offset, Bfree, CountUnused;
    BlocksOfPass(g, pos, m);
    SameBlock(g, pos, m - 1);
    if 0 < k {
      ExtentMonotone(g, pos, pos + m);
      NextByteExtent(g, pos + m);
      if PhysicalExtent(g, pos + m) != PhysicalExtent(g, pos) {
        NoExtentBehind(g, v'.dir, f, PhysicalExtent(g, pos), PhysicalExtent(g, pos + m));
      }
    }
  }

  lemma NextByteExtent(g: Geometry, pos: nat)
    requires ValidGeometry(g) && 0 < pos
    ensures PhysicalExtent(g, pos) <= PhysicalExtent(g, pos - 1) + 1
  {
    hide ValidGeometry, PhysicalExtent, SlotStart;
    var x := PhysicalExtent(g, pos - 1);
    ExtentBounds(g, pos - 1, x);
    ExtentBounds(g, pos, x);
    if pos == SlotStart(g, x + 1, 0) {
      StartsExtent(g, x + 1);
    }
  }

  // ----- the whole call ------------------------------------------------------------------------------------

  /** An append stores exactly the longest part of its data that there is room for, and fails exactly if that
      is not all of it. */
  lemma {:induction false} AppendStores(g: Geometry, v: Volume, ino: nat, pos: nat, cursor: Option<Cursor>,
                                        data: seq<byte>,
                                        buffer: seq<byte>, files: Files)
    requires WriteState(g, v, ino, pos, cursor, |data|, buffer) && Writable(g, v, ino, cursor, buffer)
    requires AtEnd(g, v, ino, pos, files) && g.size <= |v.alv|
    ensures var f, r := KeyOf(v.dir[ino]), Write(g, v, ino, pos, cursor, data, buffer);
      && (r.failed <==> r.got < |data|)
      && (forall k: nat :: k <= |data| ==> (HasRoom(g, v, f, pos, k) <==> k <= r.got))
    decreases |data|
  {
    hide ValidGeometry, Consistent, CursorOk, CursorFits, KeyOf, Live, WellSized, PointersInRange, WritePass,
         Contents, HasRoom, EntriesUpTo, PhysicalExtent, HasExtent, PassLength, Offset, CountUnused, Bfree, AtEnd;
    var f, n := KeyOf(v.dir[ino]), |data|;
    AtEndParts(g, v, ino, pos, files);
    RoomForNothing(g, v, f, pos);
    if 0 < n {
      PassNeeds(g, v, ino, pos, cursor, data, buffer, files);
      var step := WritePass(g, v, ino, pos, cursor, data, buffer);
      if step.Full? {
        NoRoomForAny(g, v, f, pos);
      } else {
        WritePassConsistent(g, v, ino, pos, cursor, data, buffer);
        PassAtEnd(g, v, ino, pos, cursor, data, buffer, files);
        AppendStores(g, step.vol, ino, pos + step.n, step.cursor, data[step.n..], step.buffer,
                     files[f := files[f] + data[..step.n]]);
        RoomBeforePass(g, v, step.vol, f, pos, step.n);
      }
    }
  }

  lemma RoomBeforePass(g: Geometry, v: Volume, v': Volume, f: Key, pos: nat, m: nat)
    requires ValidGeometry(g) && g.size <= |v.alv| == |v'.alv| && 0 < m && Offset(g, pos) + m <= g.blksiz
    requires Shrinks(g, v, v', f, pos)
    ensures forall k: nat :: k <= m ==> HasRoom(g, v, f, pos, k)
    ensures forall k: nat :: m <= k ==> (HasRoom(g, v, f, pos, k) <==> HasRoom(g, v', f, pos + m, k - m))
  {
    hide ValidGeometry, HasRoom, Shrinks, Offset;
    forall k: nat | m <= k ensures HasRoom(g, v, f, pos, k) <==> HasRoom(g, v', f, pos + m, k - m) {
      RoomAfterPass(g, v, v', f, pos, m, k - m);
    }
    RoomForNothing(g, v', f, pos + m);
    RoomAfterPass(g, v, v', f, pos, m, 0);
    forall k: nat | k <= m ensures HasRoom(g, v, f, pos, k) {
      RoomForLess(g, v, f, pos, k, m);
    }
  }

  /** On a volume that stands for a map of files, an append completes exactly if there is room for it. */
  lemma AppendCompletes(g: Geometry, v: Volume, ino: nat, data: seq<byte>, buffer: seq<byte>, files: Files)
    requires Refines(g, v, files) && Open(g, v, ino) && KeyOf(v.dir[ino]) in files && g.size <= |v.alv|
    requires |files[KeyOf(v.dir[ino])]| + |data| <= MAX_FILE && |buffer| == LOGICAL_EXTENT
    ensures var f := KeyOf(v.dir[ino]);
      Write(g, v, ino, |files[f]|, None, data, buffer).failed <==> !HasRoom(g, v, f, |files[f]|, |data|)
  {
    hide ValidGeometry, PointersOk, NoSharing, UniqueExtents, AlvOf, WellSized, PointersInRange, Contents, Sized,
         EntriesUpTo, KeyOf, Live, Write, HasRoom;
    SizedUpTo(g, v.dir, KeyOf(v.dir[ino]), files);
    AppendStores(g, v, ino, |files[KeyOf(v.dir[ino])]|, None, data, buffer, files);
  }

  lemma AtEndParts(g: Geometry, v: Volume, ino: nat, pos: nat, files: Files)
    requires AtEnd(g, v, ino, pos, files)
    ensures ValidGeometry(g) && ino < |v.dir| && KeyOf(v.dir[ino]) in files
  {}

  lemma NoRoomForAny(g: Geometry, v: Volume, f: Key, pos: nat)
    requires ValidGeometry(g) && g.size <= |v.alv|
    requires var has := HasExtent(g, v.dir, f, PhysicalExtent(g, pos));
      !((has || 0 < CountUnused(v.dir, |v.dir|)) && (Offset(g, pos) != 0 || 0 < Bfree(g, v.alv)))
    ensures forall k: nat :: 0 < k ==> !HasRoom(g, v, f, pos, k)
  {
    hide ValidGeometry, BlocksFor, PhysicalExtent, HasExtent, Offset, Bfree, CountUnused;
    OffsetInBlock(g, pos);
    BlocksOfPass(g, pos, 1);
    assert !HasRoom(g, v, f, pos, 1);
    forall k: nat | 0 < k && HasRoom(g, v, f, pos, k) ensures false {
      RoomForLess(g, v, f, pos, 1, k);
    }
  }

  lemma OffsetInBlock(g: Geometry, pos: nat)
    requires ValidGeometry(g)
    ensures Offset(g, pos) + 1 <= g.blksiz
  {
    hide ValidGeometry;
  }
}
