/** What every operation keeps, including writes that fail part way: the allocation vector is
    the one the directory implies, pointers stay in the data area, no block is in two slots and
    a file has at most one entry per physical extent. */
module Invariant {
  import opened Wrappers
  import opened Geometry
  import opened Directory
  import opened Volume

  ghost predicate PointersOk(g: Geometry, dir: seq<DirEntry>)
    requires ValidGeometry(g)
  {
    forall i, k :: 0 <= i < |dir| && 0 <= k < PointersPerEntry(g) && LivePtr(g, dir[i], k) != 0 ==>
      g.dirblks <= LivePtr(g, dir[i], k) < g.size && k < BlocksPerExtent(g)
  }

  ghost predicate NoSharing(g: Geometry, dir: seq<DirEntry>) {
    forall i, k, j, l ::
      0 <= i < |dir| && 0 <= k < PointersPerEntry(g) && 0 <= j < |dir| && 0 <= l < PointersPerEntry(g) &&
      LivePtr(g, dir[i], k) != 0 && LivePtr(g, dir[i], k) == LivePtr(g, dir[j], l) ==>
        i == j && k == l
  }

  ghost predicate UniqueExtents(g: Geometry, dir: seq<DirEntry>)
    requires ValidGeometry(g)
  {
    forall i, j ::
      0 <= i < |dir| && 0 <= j < |dir| && i != j && Live(g, dir[i]) && Live(g, dir[j]) &&
      KeyOf(dir[i]) == KeyOf(dir[j]) ==>
        PhysicalOf(g, dir[i]) != PhysicalOf(g, dir[j])
  }

  ghost predicate Consistent(g: Geometry, v: Volume) {
    && ValidGeometry(g) && NoMpmDates(g) && WellSized(g, v)
    && PointersOk(g, v.dir) && NoSharing(g, v.dir) && UniqueExtents(g, v.dir)
    && v.alv == AlvOf(g, v.dir)
  }

  lemma ConsistentIsMounted(g: Geometry, v: Volume)
    requires Consistent(g, v)
    ensures Mounted(g, v)
  {
    hide ValidGeometry, BlocksPerExtent, NoSharing, UniqueExtents, Used, Referenced, WellSized;
    ValidSize(g);
    assert forall i, k :: 0 <= i < |v.dir| && 0 <= k < PointersPerEntry(g) ==> LivePtr(g, v.dir[i], k) < g.size;
  }

  /** The cursor of `cpmWrite` names the entry of the extent of `pos`. */
  ghost predicate CursorOk(g: Geometry, v: Volume, ino: nat, pos: nat, cursor: Option<Cursor>)
    requires ValidGeometry(g) && ino < |v.dir|
  {
    cursor.Some? ==>
      && cursor.value.extent < |v.dir|
      && Matches(g, v.dir[cursor.value.extent], KeyOf(v.dir[ino]), cursor.value.extentno)
      && cursor.value.extentno < MAX_EXTENTS
      && cursor.value.extentno / g.extents == PhysicalExtent(g, pos)
  }

  // ----- one entry replaced --------------------------------------------------------------------

  /** An entry replaced by one with the same live pointers leaves every reference alone. */
  lemma ReplaceEntry(g: Geometry, dir: seq<DirEntry>, i: nat, e: DirEntry)
    requires ValidGeometry(g) && i < |dir| && PointersOk(g, dir) && NoSharing(g, dir)
    requires forall k: nat :: k < PointersPerEntry(g) ==> LivePtr(g, e, k) == LivePtr(g, dir[i], k)
    ensures PointersOk(g, dir[i := e]) && NoSharing(g, dir[i := e])
    ensures AlvOf(g, dir[i := e]) == AlvOf(g, dir)
  {
    hide ValidGeometry, LivePtr, BlocksPerExtent;
    assert forall j, k: nat :: 0 <= j < |dir| && k < PointersPerEntry(g) ==>
      LivePtr(g, dir[i := e][j], k) == LivePtr(g, dir[j], k);
    SameReferences(g, dir, dir[i := e]);
  }

  lemma SameReferences(g: Geometry, dir: seq<DirEntry>, dir': seq<DirEntry>)
    requires ValidGeometry(g) && |dir'| == |dir|
    requires forall j, k: nat :: 0 <= j < |dir| && k < PointersPerEntry(g) ==>
      LivePtr(g, dir'[j], k) == LivePtr(g, dir[j], k)
    ensures AlvOf(g, dir') == AlvOf(g, dir)
  {
    hide ValidGeometry, LivePtr;
    forall b: nat ensures Referenced(g, dir', b) == Referenced(g, dir, b) {
      if Referenced(g, dir, b) {
        var j, k :| 0 <= j < |dir| && 0 <= k < PointersPerEntry(g) && LivePtr(g, dir[j], k) == b;
        assert LivePtr(g, dir'[j], k) == b;
      }
      if Referenced(g, dir', b) {
        var j, k :| 0 <= j < |dir| && 0 <= k < PointersPerEntry(g) && LivePtr(g, dir'[j], k) == b;
        assert LivePtr(g, dir[j], k) == b;
      }
    }
  }

  /** Attaching an unused block to an empty slot marks exactly that block. */
  lemma AttachBlock(g: Geometry, dir: seq<DirEntry>, i: nat, k: nat, b: nat)
    requires ValidGeometry(g) && i < |dir| && PointersOk(g, dir) && NoSharing(g, dir)
    requires Live(g, dir[i]) && k < BlocksPerExtent(g) && k < PointersPerEntry(g) && LivePtr(g, dir[i], k) == 0
    requires b < g.size && !Used(g, dir, b) && b < AlvBits(g)
    ensures PointersOk(g, dir[i := SetPtr(g, dir[i], k, b)])
    ensures NoSharing(g, dir[i := SetPtr(g, dir[i], k, b)])
    ensures AlvOf(g, dir[i := SetPtr(g, dir[i], k, b)]) == AlvOf(g, dir)[b := true]
  {
    hide ValidGeometry, LivePtr, SetPtr, BlocksPerExtent;
    ValidSize(g);
    var e := SetPtr(g, dir[i], k, b);
    var dir' := dir[i := e];
    SetPtrFacts(g, dir[i], k, b);
    assert forall j, l: nat :: 0 <= j < |dir| && l < PointersPerEntry(g) && (j != i || l != k) ==>
      LivePtr(g, dir'[j], l) == LivePtr(g, dir[j], l);
    assert forall j, l :: 0 <= j < |dir| && 0 <= l < PointersPerEntry(g) ==> LivePtr(g, dir[j], l) != b;
    forall c: nat | 0 < c ensures Referenced(g, dir', c) == (Referenced(g, dir, c) || c == b) {
      if Referenced(g, dir, c) {
        var j, l :| 0 <= j < |dir| && 0 <= l < PointersPerEntry(g) && LivePtr(g, dir[j], l) == c;
        assert LivePtr(g, dir'[j], l) == c;
      }
      if c == b {
        assert LivePtr(g, dir'[i], k) == c;
      }
      if Referenced(g, dir', c) && c != b {
        var j, l :| 0 <= j < |dir| && 0 <= l < PointersPerEntry(g) && LivePtr(g, dir'[j], l) == c;
        assert LivePtr(g, dir[j], l) == c;
      }
    }
  }

  /** An entry replaced by one of the same file and extent, or added for an extent not there yet. */
  lemma ReplaceKeepsUnique(g: Geometry, dir: seq<DirEntry>, i: nat, e: DirEntry)
    requires ValidGeometry(g) && i < |dir| && UniqueExtents(g, dir)
    requires forall j :: 0 <= j < |dir| && j != i && Live(g, dir[j]) && KeyOf(dir[j]) == KeyOf(e) ==>
      PhysicalOf(g, dir[j]) != PhysicalOf(g, e)
    ensures UniqueExtents(g, dir[i := e])
  {
    hide ValidGeometry, KeyOf, PhysicalOf, Live;
  }

  lemma SameFileAndExtent(g: Geometry, dir: seq<DirEntry>, i: nat, e: DirEntry)
    requires ValidGeometry(g) && i < |dir| && UniqueExtents(g, dir)
    requires Live(g, dir[i]) && KeyOf(e) == KeyOf(dir[i]) && PhysicalOf(g, e) == PhysicalOf(g, dir[i])
    ensures UniqueExtents(g, dir[i := e])
  {
    hide ValidGeometry, KeyOf, Live, PhysicalOf;
    ReplaceKeepsUnique(g, dir, i, e);
  }

  // ----- cpmWrite --------------------------------------------------------------------------------

  lemma OpenExtentConsistent(g: Geometry, v: Volume, ino: nat, pos: nat)
    requires Consistent(g, v) && ino < |v.dir| && Live(g, v.dir[ino]) && pos < MAX_FILE
    requires OpenExtent(g, v, ino, pos).Some?
    ensures var (v', c) := OpenExtent(g, v, ino, pos).value;
      Consistent(g, v') && v'.dir[ino] == v.dir[ino] && CursorOk(g, v', ino, pos, Some(c))
  {
    PhysicalOfLogical(g, pos);
    var f, extentno := KeyOf(v.dir[ino]), pos / LOGICAL_EXTENT;
    var (v', c) := OpenExtent(g, v, ino, pos).value;
    if FindFileExtent(g, v.dir, f, 0, extentno) == -1 {
      var j := FindFreeExtent(v.dir, 0);
      var e := ExtentEntry(v.dir[ino], extentno);
      ExtentNumberRoundTrip(v.dir[ino].(pointers := ZEROS16, blkcnt := 0, lrc := 0), extentno);
      assert PhysicalOf(g, e) == extentno / g.extents && KeyOf(e) == f;
      assert forall k: nat :: k < PointersPerEntry(g) ==> LivePtr(g, e, k) == LivePtr(g, v.dir[j], k);
      ReplaceEntry(g, v.dir, j, e);
      assert forall i :: 0 <= i < |v.dir| ==> !Matches(g, v.dir[i], f, extentno);
      ReplaceKeepsUnique(g, v.dir, j, e);
    }
  }

  lemma OpenBlockConsistent(g: Geometry, v: Volume, i: nat, k: nat)
    requires Consistent(g, v) && i < |v.dir| && Live(g, v.dir[i]) && k < BlocksPerExtent(g)
    requires k < PointersPerEntry(g) && OpenBlock(g, v, i, k).Some?
    ensures var (v', b, isNew) := OpenBlock(g, v, i, k).value;
      && Consistent(g, v') && 0 < b < g.size && LivePtr(g, v'.dir[i], k) == b
      && v'.dir == v.dir[i := v.dir[i].(pointers := v'.dir[i].pointers)]
  {
    hide SetPtr, NoSharing, UniqueExtents, KeyOf, BlocksPerExtent;
    ValidSize(g);
    var (v', b, isNew) := OpenBlock(g, v, i, k).value;
    AlvCoversVolume(g);
    if isNew {
      assert v.alv[0] == Used(g, v.dir, 0);
      assert LivePtr(g, v.dir[i], k) == 0;
      AttachBlock(g, v.dir, i, k, b);
      SetPtrFacts(g, v.dir[i], k, b);
      SameFileAndExtent(g, v.dir, i, SetPtr(g, v.dir[i], k, b));
    } else {
      assert v.dir == v.dir[i := v.dir[i]];
      assert LivePtr(g, v.dir[i], k) == b;
    }
  }

  /** Slots behind the extent's capacity are empty, so `extentno` never moves. */
  lemma ExtentNumberStays(g: Geometry, dir: seq<DirEntry>, i: nat, extentno: nat)
    requires ValidGeometry(g) && PointersOk(g, dir) && i < |dir| && Live(g, dir[i])
    ensures AdvancedExtentNumber(g, dir[i], extentno) == extentno
  {
    var last := LastPointer(g, dir[i], PointersPerEntry(g) - 1);
    CapacityInBlocks(g);
    assert last < BlocksPerExtent(g) by {
      if last != 0 {
        assert LivePtr(g, dir[i], last) != 0;
      }
    }
    PositionOf(g, 0, last, 0);
  }

  lemma StorePassConsistent(g: Geometry, v: Volume, ino: nat, c: Cursor, b: nat, isNew: bool, pos: nat,
                            bytes: seq<byte>, buffer: seq<byte>)
    requires Consistent(g, v) && ino < |v.dir| && CursorOk(g, v, ino, pos, Some(c)) && b < g.size
    requires |buffer| == LOGICAL_EXTENT && 0 < |bytes| && Offset(g, pos) + |bytes| <= g.blksiz
    ensures var r := StorePass(g, v, c, b, isNew, pos, bytes, buffer);
      && Consistent(g, r.vol) && KeyOf(r.vol.dir[ino]) == KeyOf(v.dir[ino])
      && Live(g, r.vol.dir[ino]) == Live(g, v.dir[ino]) && |r.vol.dir| == |v.dir|
      && r.vol.dir == v.dir[c.extent := WithEnd(g, v.dir[c.extent], c.extentno, pos + |bytes|)]
      && CursorOk(g, r.vol, ino, pos + |bytes|, r.cursor)
      && r.cursor == if PhysicalExtent(g, pos + |bytes|) != PhysicalExtent(g, pos) then None else Some(c)
  {
    hide ValidGeometry, NoSharing, PointersOk, UniqueExtents, KeyOf, LivePtr, WithEnd, Offset, StoreInBlock,
         AdvancedExtentNumber;
    var r := StorePass(g, v, c, b, isNew, pos, bytes, buffer);
    var e := WithEnd(g, v.dir[c.extent], c.extentno, pos + |bytes|);
    ExtentNumberStays(g, v.dir, c.extent, c.extentno);
    WithEndFacts(g, v.dir[c.extent], c.extentno, pos + |bytes|);
    ReplaceEntry(g, v.dir, c.extent, e);
    SameFileAndExtent(g, v.dir, c.extent, e);
  }

  /** The inode `cpmWrite` works through goes on naming the same file. */
  predicate KeepsInode(g: Geometry, v: Volume, v': Volume, ino: nat)
    requires ino < |v.dir|
  {
    |v'.dir| == |v.dir| && Live(g, v'.dir[ino]) && KeyOf(v'.dir[ino]) == KeyOf(v.dir[ino])
  }

  /** A state from which `cpmWrite` may go on at `pos`. */
  ghost predicate WriteState(g: Geometry, v: Volume, ino: nat, pos: nat, cursor: Option<Cursor>, count: nat,
                             buffer: seq<byte>) {
    && Consistent(g, v) && ino < |v.dir| && Live(g, v.dir[ino]) && CursorOk(g, v, ino, pos, cursor)
    && pos + count <= MAX_FILE && |buffer| == LOGICAL_EXTENT
  }

  lemma OpenedConsistent(g: Geometry, v: Volume, ino: nat, pos: nat, cursor: Option<Cursor>)
    requires Consistent(g, v) && ino < |v.dir| && Live(g, v.dir[ino]) && pos < MAX_FILE
    requires CursorOk(g, v, ino, pos, cursor) && Opened(g, v, ino, pos, cursor).Some?
    ensures var (v', c) := Opened(g, v, ino, pos, cursor).value;
      && Consistent(g, v') && v'.dir[ino] == v.dir[ino] && CursorOk(g, v', ino, pos, Some(c))
      && |v'.dir| == |v.dir| && c.extent < |v'.dir| && Live(g, v'.dir[c.extent])
  {
    hide Consistent, ValidGeometry;
    if cursor.None? {
      OpenExtentConsistent(g, v, ino, pos);
    }
  }

  /** Attaching a block changes neither identity nor extent number of an entry. */
  lemma CursorSurvivesBlock(g: Geometry, v: Volume, v': Volume, ino: nat, pos: nat, c: Cursor)
    requires ValidGeometry(g) && ino < |v.dir| && CursorOk(g, v, ino, pos, Some(c))
    requires |v'.dir| == |v.dir|
    requires v'.dir == v.dir[c.extent := v.dir[c.extent].(pointers := v'.dir[c.extent].pointers)]
    ensures CursorOk(g, v', ino, pos, Some(c))
    ensures KeyOf(v'.dir[ino]) == KeyOf(v.dir[ino]) && Live(g, v'.dir[ino]) == Live(g, v.dir[ino])
  {
    hide ValidGeometry;
  }

  lemma CursorEntry(g: Geometry, v: Volume, ino: nat, pos: nat, c: Cursor)
    requires Consistent(g, v) && ino < |v.dir| && CursorOk(g, v, ino, pos, Some(c))
    ensures ValidGeometry(g) && UniqueExtents(g, v.dir) && c.extent < |v.dir| && Live(g, v.dir[c.extent])
    ensures KeyOf(v.dir[c.extent]) == KeyOf(v.dir[ino]) && PhysicalOf(g, v.dir[c.extent]) == PhysicalExtent(g, pos)
    ensures c.extentno < MAX_EXTENTS
  {
    hide ValidGeometry, PointersOk, NoSharing, UniqueExtents, KeyOf, AlvOf;
  }

  lemma BlockPassConsistent(g: Geometry, v: Volume, ino: nat, c: Cursor, pos: nat, data: seq<byte>, buffer: seq<byte>)
    requires Consistent(g, v) && ino < |v.dir| && CursorOk(g, v, ino, pos, Some(c))
    requires c.extent < |v.dir| && Live(g, v.dir[c.extent]) && Live(g, v.dir[ino])
    requires Mounted(g, v) && |buffer| == LOGICAL_EXTENT && 0 < |data|
    ensures var r := BlockPass(g, v, c, pos, data, buffer);
      && Consistent(g, r.vol) && KeepsInode(g, v, r.vol, ino)
      && (r.Stored? ==>
            && CursorOk(g, r.vol, ino, pos + r.n, r.cursor)
            && r.cursor == if PhysicalExtent(g, pos + r.n) != PhysicalExtent(g, pos) then None else Some(c))
  {
    hide ValidGeometry, Consistent, CursorOk, OpenBlock, StorePass, BlocksPerExtent, KeyOf, Live, LivePtr,
         PointersInRange;
    PositionSplits(g, pos);
    if OpenBlock(g, v, c.extent, Slot(g, pos)).Some? {
      OpenBlockConsistent(g, v, c.extent, Slot(g, pos));
      var (v', b, isNew) := OpenBlock(g, v, c.extent, Slot(g, pos)).value;
      CursorSurvivesBlock(g, v, v', ino, pos, c);
      StorePassConsistent(g, v', ino, c, b, isNew, pos, data[..PassLength(g, pos, |data|)], buffer);
    }
  }

  lemma WritePassConsistent(g: Geometry, v: Volume, ino: nat, pos: nat, cursor: Option<Cursor>, data: seq<byte>,
                            buffer: seq<byte>)
    requires WriteState(g, v, ino, pos, cursor, |data|, buffer) && 0 < |data|
    requires Writable(g, v, ino, cursor, buffer)
    ensures var r := WritePass(g, v, ino, pos, cursor, data, buffer);
      && Consistent(g, r.vol) && KeepsInode(g, v, r.vol, ino)
      && (r.Stored? ==> WriteState(g, r.vol, ino, pos + r.n, r.cursor, |data| - r.n, r.buffer))
  {
    hide ValidGeometry, Consistent, CursorOk, CursorFits, Opened, BlockPass, KeyOf, Live, WellSized, PointersInRange;
    if Opened(g, v, ino, pos, cursor).Some? {
      OpenedConsistent(g, v, ino, pos, cursor);
      var (v1, c) := Opened(g, v, ino, pos, cursor).value;
      ConsistentIsMounted(g, v1);
      BlockPassConsistent(g, v1, ino, c, pos, data, buffer);
    }
  }

  /** Every write, at any position and of any length, complete or cut short by a full device or
      a full directory, leaves a consistent volume. */
  lemma {:induction false} WriteConsistent(g: Geometry, v: Volume, ino: nat, pos: nat, cursor: Option<Cursor>,
                                           data: seq<byte>, buffer: seq<byte>)
    requires WriteState(g, v, ino, pos, cursor, |data|, buffer)
    requires Writable(g, v, ino, cursor, buffer)
    ensures Consistent(g, Write(g, v, ino, pos, cursor, data, buffer).vol)
    ensures KeepsInode(g, v, Write(g, v, ino, pos, cursor, data, buffer).vol, ino)
    decreases |data|
  {
    hide Writable, Consistent, Mounted, WritePass, CursorOk, CursorFits, ValidGeometry;
    if |data| > 0 {
      WritePassConsistent(g, v, ino, pos, cursor, data, buffer);
      var step := WritePass(g, v, ino, pos, cursor, data, buffer);
      if step.Stored? {
        WriteConsistent(g, step.vol, ino, pos + step.n, step.cursor, data[step.n..], step.buffer);
      }
    }
  }

  // ----- the directory operations -----------------------------------------------------------------

  lemma FreshEntryFacts(g: Geometry, f: Key)
    requires ValidKey(g, f)
    ensures var e := FreshEntry(f);
      && KeyOf(e) == f && Live(g, e) && ExtentNumber(e) == 0 && e.blkcnt == 0 && e.lrc == 0
      && e == WithExtentNumber(e, 0)
      && forall k: nat :: k < PointersPerEntry(g) ==> LivePtr(g, e, k) == 0
  {}

  lemma CreatConsistent(g: Geometry, v: Volume, f: Key)
    requires Consistent(g, v) && ValidKey(g, f) && Creat(g, v, f).Done?
    ensures Consistent(g, Creat(g, v, f).vol)
  {
    hide ValidGeometry, PointersOk, NoSharing, UniqueExtents, KeyOf, FreshEntry, AlvOf, PhysicalOf;
    var i := FindFreeExtent(v.dir, 0);
    var e := FreshEntry(f);
    FreshEntryFacts(g, f);
    ReplaceEntry(g, v.dir, i, e);
    ReplaceKeepsUnique(g, v.dir, i, e);
  }

  lemma RenamedKey(e: DirEntry, f: Key)
    requires |f.name| == 8 && |f.ext| == 3
    requires forall i :: 0 <= i < 8 ==> f.name[i] < 128
    requires forall i :: 0 <= i < 3 ==> f.ext[i] < 128
    ensures KeyOf(RenamedEntry(e, f)) == f
  {
    assert Strip(Memcpy7(e.name, f.name)) == f.name;
    assert Strip(Memcpy7(e.ext, f.ext)) == f.ext;
  }

  lemma RenamedEntries(g: Geometry, dir: seq<DirEntry>, from: Key, to: Key)
    requires ValidGeometry(g) && ValidKey(g, to)
    ensures forall i, k: nat :: 0 <= i < |dir| && k < PointersPerEntry(g) ==>
      LivePtr(g, RenamedDir(g, dir, from, to)[i], k) == LivePtr(g, dir[i], k)
    ensures forall i :: 0 <= i < |dir| ==>
      && Live(g, RenamedDir(g, dir, from, to)[i]) == Live(g, dir[i])
      && PhysicalOf(g, RenamedDir(g, dir, from, to)[i]) == PhysicalOf(g, dir[i])
    ensures forall i :: 0 <= i < |dir| ==>
      KeyOf(RenamedDir(g, dir, from, to)[i]) == if Matches(g, dir[i], from, -1) then to else KeyOf(dir[i])
  {
    hide ValidGeometry, KeyOf, Memcpy7;
    forall i | 0 <= i < |dir| ensures KeyOf(RenamedEntry(dir[i], to)) == to {
      RenamedKey(dir[i], to);
    }
    forall i, k: nat | 0 <= i < |dir| && k < PointersPerEntry(g)
      ensures LivePtr(g, RenamedDir(g, dir, from, to)[i], k) == LivePtr(g, dir[i], k)
    {
      if Matches(g, dir[i], from, -1) {
        SamePointers(g, dir[i], RenamedEntry(dir[i], to));
      }
    }
  }

  lemma RenameConsistent(g: Geometry, v: Volume, from: Key, to: Key)
    requires Consistent(g, v) && ValidKey(g, to) && Rename(g, v, from, to).Done?
    ensures Consistent(g, Rename(g, v, from, to).vol)
  {
    hide ValidGeometry, LivePtr, KeyOf, RenamedDir, PhysicalOf, BlocksPerExtent, Live;
    RenamedEntries(g, v.dir, from, to);
    SameReferences(g, v.dir, RenamedDir(g, v.dir, from, to));
  }

  lemma UnlinkedEntries(g: Geometry, dir: seq<DirEntry>, f: Key)
    requires ValidGeometry(g)
    ensures var dir' := UnlinkedDir(g, dir, f);
      && (forall i, k: nat :: 0 <= i < |dir| && k < PointersPerEntry(g) ==>
            LivePtr(g, dir'[i], k) == if Matches(g, dir[i], f, -1) then 0 else LivePtr(g, dir[i], k))
      && (forall i :: 0 <= i < |dir| && Live(g, dir'[i]) ==> dir'[i] == dir[i])
      && (forall i :: 0 <= i < |dir| ==> Live(g, dir'[i]) == (Live(g, dir[i]) && KeyOf(dir[i]) != f))
  {
    hide ValidGeometry, KeyOf;
  }

  lemma UnlinkConsistent(g: Geometry, v: Volume, f: Key)
    requires Consistent(g, v) && Unlink(g, v, f).Done?
    ensures Consistent(g, Unlink(g, v, f).vol)
  {
    hide ValidGeometry, LivePtr, KeyOf, UnlinkedDir, PhysicalOf, BlocksPerExtent, Live;
    UnlinkedEntries(g, v.dir, f);
  }
}
