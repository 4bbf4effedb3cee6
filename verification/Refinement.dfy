/** The volume refines a map from file to bytes. `Contents` says the directory and the blocks hold
    exactly the bytes of the map; `Sized` says every entry describes the right end of its file. */
module Refinement {
  import opened Wrappers
  import opened Arithmetic
  import opened Geometry
  import opened Directory
  import opened Volume
  import opened Invariant

  type Files = map<Key, seq<byte>>

  /** The bytes of the file that fall in the extent of `e` are where its pointers say. */
  ghost predicate HoldsBytes(g: Geometry, data: seq<seq<byte>>, e: DirEntry, bytes: seq<byte>)
    requires ValidGeometry(g)
  {
    forall p: nat :: p < |bytes| && PhysicalExtent(g, p) == PhysicalOf(g, e) ==>
      ByteAt(g, data, LivePtr(g, e, Slot(g, p)), Offset(g, p), bytes[p])
  }

  predicate ByteAt(g: Geometry, data: seq<seq<byte>>, b: nat, o: nat, x: byte) {
    0 < b < |data| && o < |data[b]| && data[b][o] == x
  }

  /** Slots entirely behind the end of the file are empty. */
  ghost predicate NoBlocksBehind(g: Geometry, e: DirEntry, size: nat)
    requires ValidGeometry(g)
  {
    forall k: nat :: k < PointersPerEntry(g) && LivePtr(g, e, k) != 0 ==> SlotStart(g, PhysicalOf(g, e), k) < size
  }

  ghost predicate HasExtent(g: Geometry, dir: seq<DirEntry>, f: Key, x: nat)
    requires ValidGeometry(g)
  {
    exists i :: 0 <= i < |dir| && Live(g, dir[i]) && KeyOf(dir[i]) == f && PhysicalOf(g, dir[i]) == x
  }

  ghost predicate HasFile(g: Geometry, dir: seq<DirEntry>, f: Key) {
    exists i :: 0 <= i < |dir| && Live(g, dir[i]) && KeyOf(dir[i]) == f
  }

  /** The file exists and has an entry for every extent its size reaches. */
  ghost predicate Complete(g: Geometry, dir: seq<DirEntry>, f: Key, size: nat)
    requires ValidGeometry(g)
  {
    HasFile(g, dir, f) && forall p: nat :: p < size ==> HasExtent(g, dir, f, PhysicalExtent(g, p))
  }

  ghost predicate EntryContents(g: Geometry, v: Volume, i: nat, files: Files)
    requires ValidGeometry(g) && i < |v.dir|
  {
    var f := KeyOf(v.dir[i]);
    f in files && HoldsBytes(g, v.data, v.dir[i], files[f]) && NoBlocksBehind(g, v.dir[i], |files[f]|)
  }

  ghost predicate Contents(g: Geometry, v: Volume, files: Files)
    requires ValidGeometry(g)
  {
    && (forall i: nat :: i < |v.dir| && Live(g, v.dir[i]) ==> EntryContents(g, v, i, files))
    && (forall f :: f in files ==> Complete(g, v.dir, f, |files[f]|))
  }

  /** A file after `data` is written at `pos`: what is behind the write stays. */
  function Overwritten(bytes: seq<byte>, pos: nat, data: seq<byte>): (r: seq<byte>)
    requires pos <= |bytes|
    ensures |r| == if |bytes| <= pos + |data| then pos + |data| else |bytes|
    ensures forall p :: 0 <= p < |r| ==> r[p] == if pos <= p < pos + |data| then data[p - pos] else bytes[p]
  {
    bytes[..pos] + data + if |bytes| <= pos + |data| then [] else bytes[pos + |data|..]
  }

  /** What a pass puts behind its bytes from the buffer is what the file has there. */
  ghost predicate RestAgrees(g: Geometry, pos: nat, n: nat, buffer: seq<byte>, bytes: seq<byte>)
    requires ValidGeometry(g) && 0 < n && Offset(g, pos) + n <= g.blksiz && |buffer| == LOGICAL_EXTENT
  {
    forall j: nat ::
      Offset(g, pos) + n <= j < g.blksiz && FromBuffer(g, Offset(g, pos), n, j) &&
        pos + (j - Offset(g, pos)) < |bytes| ==>
        buffer[j] == bytes[pos + (j - Offset(g, pos))]
  }

  lemma NothingBehind(g: Geometry, pos: nat, n: nat, buffer: seq<byte>, bytes: seq<byte>)
    requires ValidGeometry(g) && 0 < n && Offset(g, pos) + n <= g.blksiz && |buffer| == LOGICAL_EXTENT
    requires |bytes| <= pos + n || KeepsRest(g, Offset(g, pos), n)
    ensures RestAgrees(g, pos, n, buffer, bytes)
  {
    hide ValidGeometry, Offset, KeepsRest;
  }

  /** Record count and byte count of the entry describe the end of a file of `size` bytes, or the end of the
      extent when the file goes on behind it. With `exact`, so does the extent number; otherwise it may be
      short, the way `cpmWrite` leaves it when it crosses a 16 KiB boundary. */
  predicate RecordsEnd(g: Geometry, e: DirEntry, size: nat, exact: bool)
    requires ValidGeometry(g)
  {
    var start, end := SlotStart(g, PhysicalOf(g, e), 0), Min(size, SlotStart(g, PhysicalOf(g, e) + 1, 0));
    && start <= size
    && if end == start then ExtentNumber(e) * LOGICAL_EXTENT == start && IsBare(e)
       else 0 < end && Reaches(ExtentNumber(e), end, exact) && e == WithEnd(g, e, ExtentNumber(e), end)
  }

  predicate Reaches(extentno: nat, end: nat, exact: bool)
    requires 0 < end
  {
    if exact then extentno == (end - 1) / LOGICAL_EXTENT else extentno <= (end - 1) / LOGICAL_EXTENT
  }

  /** An entry nothing was written through yet. */
  predicate IsBare(e: DirEntry) {
    e.blkcnt == 0 && e.lrc == 0 && e == WithExtentNumber(e, ExtentNumber(e))
  }

  ghost predicate Ended(g: Geometry, dir: seq<DirEntry>, files: Files, exact: bool)
    requires ValidGeometry(g)
  {
    forall i: nat :: i < |dir| && Live(g, dir[i]) ==>
      KeyOf(dir[i]) in files && RecordsEnd(g, dir[i], |files[KeyOf(dir[i])]|, exact)
  }

  /** Every entry describes the end of its file exactly. */
  ghost predicate Sized(g: Geometry, dir: seq<DirEntry>, files: Files)
    requires ValidGeometry(g)
  {
    Ended(g, dir, files, true)
  }

  /** A file of the map is exactly a file `findFileExtent` finds. */
  lemma FileIsFound(g: Geometry, v: Volume, f: Key, files: Files)
    requires ValidGeometry(g) && Contents(g, v, files)
    ensures f in files <==> FindFileExtent(g, v.dir, f, 0, -1) != -1
  {
    hide ValidGeometry, KeyOf, Live, LivePtr;
    var i := FindFileExtent(g, v.dir, f, 0, -1);
    if i != -1 {
      assert EntryContents(g, v, i, files);
    }
  }

  // ----- cpmCreat ----------------------------------------------------------------------------------

  lemma CreatContents(g: Geometry, v: Volume, f: Key, files: Files)
    requires Consistent(g, v) && Contents(g, v, files) && ValidKey(g, f) && Creat(g, v, f).Done?
    ensures f !in files && Contents(g, Creat(g, v, f).vol, files[f := []])
  {
    hide ValidGeometry, LivePtr, KeyOf, FreshEntry, PhysicalOf;
    FreshEntryFacts(g, f);
    var i, e := FindFreeExtent(v.dir, 0), FreshEntry(f);
    if f in files {
      FileIsFound(g, v, f, files);
    }
    AddEntryContents(g, v, i, e, files, files[f := []]);
  }

  /** Replacing an entry of no file or of the same file and extent keeps every file complete. */
  lemma CompleteSurvives(g: Geometry, dir: seq<DirEntry>, i: nat, e: DirEntry, f: Key, size: nat)
    requires ValidGeometry(g) && i < |dir| && Complete(g, dir, f, size)
    requires Live(g, dir[i]) ==> Live(g, e) && KeyOf(e) == KeyOf(dir[i]) && PhysicalOf(g, e) == PhysicalOf(g, dir[i])
    ensures Complete(g, dir[i := e], f, size)
  {
    hide ValidGeometry, KeyOf, PhysicalOf, Live;
    var dir' := dir[i := e];
    var j :| 0 <= j < |dir| && Live(g, dir[j]) && KeyOf(dir[j]) == f;
    assert Live(g, dir'[j]) && KeyOf(dir'[j]) == f;
    forall p: nat | p < size ensures HasExtent(g, dir', f, PhysicalExtent(g, p)) {
      var x := PhysicalExtent(g, p);
      assert HasExtent(g, dir, f, x);
      var l :| 0 <= l < |dir| && Live(g, dir[l]) && KeyOf(dir[l]) == f && PhysicalOf(g, dir[l]) == x;
      assert Live(g, dir'[l]) && KeyOf(dir'[l]) == f && PhysicalOf(g, dir'[l]) == x;
    }
  }

  lemma FreshEntryDescribed(g: Geometry, e: DirEntry)
    requires ValidGeometry(g) && ExtentNumber(e) == 0 && IsBare(e)
    ensures RecordsEnd(g, e, 0, true) && RecordsEnd(g, e, 0, false)
  {}

  lemma CreatEnded(g: Geometry, v: Volume, f: Key, files: Files, exact: bool)
    requires Consistent(g, v) && Ended(g, v.dir, files, exact) && ValidKey(g, f) && Creat(g, v, f).Done?
    ensures Ended(g, Creat(g, v, f).vol.dir, files[f := []], exact)
  {
    hide ValidGeometry, KeyOf, FreshEntry, RecordsEnd, PhysicalOf;
    FreshEntryFacts(g, f);
    FreshEntryDescribed(g, FreshEntry(f));
  }

  // ----- cpmWrite as an append ------------------------------------------------------------------------

  /** An extent is missing only where the file ends, and only when its size has just reached it. */
  lemma OpenExtentAtEnd(g: Geometry, v: Volume, ino: nat, pos: nat, files: Files)
    requires Consistent(g, v) && Contents(g, v, files) && ino < |v.dir| && Live(g, v.dir[ino])
    requires KeyOf(v.dir[ino]) in files && pos <= |files[KeyOf(v.dir[ino])]|
    requires FindFileExtent(g, v.dir, KeyOf(v.dir[ino]), 0, pos / LOGICAL_EXTENT) == -1
    ensures pos == SlotStart(g, PhysicalExtent(g, pos), 0) && pos == |files[KeyOf(v.dir[ino])]|
    ensures forall p: nat :: p < pos ==> PhysicalExtent(g, p) != PhysicalExtent(g, pos)
  {
    hide KeyOf, LivePtr, Live, ValidGeometry;
    var f, x := KeyOf(v.dir[ino]), PhysicalExtent(g, pos);
    PhysicalOfLogical(g, pos);
    ExtentBounds(g, pos, x);
    assert Complete(g, v.dir, f, |files[f]|);
    forall p: nat | p < |files[f]| ensures PhysicalExtent(g, p) != x {
      assert HasExtent(g, v.dir, f, PhysicalExtent(g, p));
    }
    if SlotStart(g, x, 0) < pos {
      ExtentBounds(g, pos - 1, x);
    }
  }

  /** An entry without blocks, added for an extent its file does not reach yet, holds nothing. */
  lemma AddEntryContents(g: Geometry, v: Volume, j: nat, e: DirEntry, files: Files, files': Files)
    requires ValidGeometry(g) && Contents(g, v, files) && j < |v.dir| && !Live(g, v.dir[j]) && Live(g, e)
    requires files' == if KeyOf(e) in files then files else files[KeyOf(e) := []]
    requires forall k: nat :: k < PointersPerEntry(g) ==> LivePtr(g, e, k) == 0
    requires forall p: nat :: p < |files'[KeyOf(e)]| ==> PhysicalExtent(g, p) != PhysicalOf(g, e)
    ensures Contents(g, v.(dir := v.dir[j := e]), files')
  {
    hide ValidGeometry, LivePtr, KeyOf, PhysicalOf, Live;
    var v' := v.(dir := v.dir[j := e]);
    assert EntryContents(g, v', j, files');
    forall i: nat | i < |v.dir| && Live(g, v'.dir[i]) ensures EntryContents(g, v', i, files') {
      if i != j {
        assert EntryContents(g, v, i, files);
      }
    }
    forall h | h in files' ensures Complete(g, v'.dir, h, |files'[h]|) {
      if h in files {
        CompleteSurvives(g, v.dir, j, e, h, |files[h]|);
      } else {
        assert Live(g, v'.dir[j]) && KeyOf(v'.dir[j]) == h;
      }
    }
  }

  lemma ExtentEntryFacts(g: Geometry, like: DirEntry, pos: nat)
    requires ValidGeometry(g) && pos < MAX_FILE
    ensures var e := ExtentEntry(like, pos / LOGICAL_EXTENT);
      && KeyOf(e) == KeyOf(like) && PhysicalOf(g, e) == PhysicalExtent(g, pos)
      && ExtentNumber(e) == pos / LOGICAL_EXTENT && IsBare(e) && Live(g, e) == Live(g, like)
      && (forall k: nat :: k < PointersPerEntry(g) ==> LivePtr(g, e, k) == 0)
  {
    hide ValidGeometry;
    PhysicalOfLogical(g, pos);
    ExtentNumberRoundTrip(like.(pointers := ZEROS16, blkcnt := 0, lrc := 0), pos / LOGICAL_EXTENT);
  }

  /** An entry that was just added describes the end of a file that stops where the extent starts. */
  lemma ExtentEntryDescribed(g: Geometry, e: DirEntry, pos: nat)
    requires ValidGeometry(g) && PhysicalOf(g, e) == PhysicalExtent(g, pos)
    requires ExtentNumber(e) == pos / LOGICAL_EXTENT && IsBare(e)
    requires pos == SlotStart(g, PhysicalExtent(g, pos), 0)
    ensures forall exact :: RecordsEnd(g, e, pos, exact)
  {
    hide ValidGeometry, PhysicalOf;
    var x := PhysicalExtent(g, pos);
    CapacityIsLogical(g);
    ExtentBounds(g, pos, x);
    assert x * (LOGICAL_EXTENT * g.extents) == LOGICAL_EXTENT * (x * g.extents);
  }

  lemma OpenExtentContents(g: Geometry, v: Volume, ino: nat, pos: nat, files: Files)
    requires Consistent(g, v) && Contents(g, v, files) && ino < |v.dir| && Live(g, v.dir[ino])
    requires KeyOf(v.dir[ino]) in files && pos <= |files[KeyOf(v.dir[ino])]| && pos < MAX_FILE
    requires OpenExtent(g, v, ino, pos).Some?
    ensures Contents(g, OpenExtent(g, v, ino, pos).value.0, files)
    ensures forall exact :: Ended(g, v.dir, files, exact) ==>
      Ended(g, OpenExtent(g, v, ino, pos).value.0.dir, files, exact)
  {
    hide ValidGeometry, KeyOf, PhysicalOf, RecordsEnd, LivePtr, WithExtentNumber, Contents;
    var c := OpenExtent(g, v, ino, pos).value.1;
    if FindFileExtent(g, v.dir, KeyOf(v.dir[ino]), 0, pos / LOGICAL_EXTENT) == -1 {
      OpenExtentAtEnd(g, v, ino, pos, files);
      ExtentEntryFacts(g, v.dir[ino], pos);
      ExtentEntryDescribed(g, ExtentEntry(v.dir[ino], pos / LOGICAL_EXTENT), pos);
      AddEntryContents(g, v, c.extent, ExtentEntry(v.dir[ino], pos / LOGICAL_EXTENT), files, files);
    }
  }

  /** Block `b` is attached to slot `k` of entry `i`, and then holds `block`. */
  ghost predicate StoredAt(g: Geometry, v: Volume, v': Volume, i: nat, k: nat, b: nat, block: seq<byte>)
    requires ValidGeometry(g)
  {
    && i < |v.dir| && k < PointersPerEntry(g) && 0 < b < |v.data| && |v'.dir| == |v.dir|
    && v'.dir == v.dir[i := v'.dir[i]] && v'.data == v.data[b := block]
    && Live(g, v.dir[i]) && Live(g, v'.dir[i])
    && KeyOf(v'.dir[i]) == KeyOf(v.dir[i]) && PhysicalOf(g, v'.dir[i]) == PhysicalOf(g, v.dir[i])
    && LivePtr(g, v'.dir[i], k) == b
    && (forall l: nat :: l < PointersPerEntry(g) && l != k ==> LivePtr(g, v'.dir[i], l) == LivePtr(g, v.dir[i], l))
    && NoSharing(g, v'.dir)
  }

  /** Entries other than the one written to keep their bytes. */
  lemma OtherEntryKeepsBytes(g: Geometry, v: Volume, v': Volume, i: nat, k: nat, b: nat, block: seq<byte>, j: nat,
                             bytes: seq<byte>)
    requires ValidGeometry(g) && StoredAt(g, v, v', i, k, b, block)
    requires j < |v.dir| && j != i && HoldsBytes(g, v.data, v.dir[j], bytes)
    ensures HoldsBytes(g, v'.data, v'.dir[j], bytes)
  {
    hide ValidGeometry, KeyOf, PhysicalOf, Live, LivePtr;
    forall p: nat | p < |bytes| && PhysicalExtent(g, p) == PhysicalOf(g, v.dir[j])
      ensures ByteAt(g, v'.data, LivePtr(g, v'.dir[j], Slot(g, p)), Offset(g, p), bytes[p])
    {
      assert ByteAt(g, v.data, LivePtr(g, v.dir[j], Slot(g, p)), Offset(g, p), bytes[p]);
      assert LivePtr(g, v'.dir[j], Slot(g, p)) != LivePtr(g, v'.dir[i], k);
    }
  }

  /** The entry written to holds the file with the new bytes in it. */
  lemma ThisEntryHoldsBytes(g: Geometry, v: Volume, v': Volume, i: nat, pos: nat, b: nat, block: seq<byte>,
                            bytes: seq<byte>, data: seq<byte>)
    requires ValidGeometry(g) && StoredAt(g, v, v', i, Slot(g, pos), b, block)
    requires PhysicalOf(g, v.dir[i]) == PhysicalExtent(g, pos) && pos <= |bytes|
    requires HoldsBytes(g, v.data, v.dir[i], bytes)
    requires Offset(g, pos) + |data| <= |block| == g.blksiz
    requires forall j: nat :: j < |data| ==> block[Offset(g, pos) + j] == data[j]
    requires LivePtr(g, v.dir[i], Slot(g, pos)) != 0 ==>
      && LivePtr(g, v.dir[i], Slot(g, pos)) == b
      && (forall j: nat :: j < Offset(g, pos) && j < |v.data[b]| ==> block[j] == v.data[b][j])
      && (forall j: nat ::
            Offset(g, pos) + |data| <= j < g.blksiz && j < |v.data[b]| && pos + (j - Offset(g, pos)) < |bytes| ==>
              block[j] == v.data[b][j] || block[j] == bytes[pos + (j - Offset(g, pos))])
    ensures HoldsBytes(g, v'.data, v'.dir[i], Overwritten(bytes, pos, data))
  {
    hide ValidGeometry, KeyOf, PhysicalOf, Live, LivePtr, Offset, Slot, PhysicalExtent;
    var bytes' := Overwritten(bytes, pos, data);
    forall p: nat | p < |bytes'| && PhysicalExtent(g, p) == PhysicalOf(g, v.dir[i])
      ensures ByteAt(g, v'.data, LivePtr(g, v'.dir[i], Slot(g, p)), Offset(g, p), bytes'[p])
    {
      if pos <= p < pos + |data| {
        SameBlock(g, pos, p - pos);
      } else {
        assert ByteAt(g, v.data, LivePtr(g, v.dir[i], Slot(g, p)), Offset(g, p), bytes[p]);
        if Slot(g, p) == Slot(g, pos) {
          SameSlotClose(g, p, pos);
        } else {
          assert LivePtr(g, v'.dir[i], Slot(g, p)) != LivePtr(g, v'.dir[i], Slot(g, pos));
        }
      }
    }
  }

  /** What one pass of `cpmWrite` does to directory and blocks. */
  lemma BlockPassStores(g: Geometry, v: Volume, ino: nat, c: Cursor, pos: nat, data: seq<byte>, buffer: seq<byte>)
    returns (b: nat, block: seq<byte>)
    requires Consistent(g, v) && Mounted(g, v) && ino < |v.dir| && CursorOk(g, v, ino, pos, Some(c))
    requires Live(g, v.dir[ino]) && c.extent < |v.dir| && Live(g, v.dir[c.extent]) && |buffer| == LOGICAL_EXTENT
    requires 0 < |data|
    requires BlockPass(g, v, c, pos, data, buffer).Stored?
    ensures var v', n := BlockPass(g, v, c, pos, data, buffer).vol, PassLength(g, pos, |data|);
      && BlockPass(g, v, c, pos, data, buffer).n == n
      && StoredAt(g, v, v', c.extent, Slot(g, pos), b, block)
      && Consistent(g, v') && |block| == g.blksiz
      && (forall j: nat :: j < n ==> block[Offset(g, pos) + j] == data[j])
      && (LivePtr(g, v.dir[c.extent], Slot(g, pos)) != 0 ==>
            && LivePtr(g, v.dir[c.extent], Slot(g, pos)) == b
            && (forall j: nat :: j < Offset(g, pos) ==> block[j] == v.data[b][j])
            && (forall j: nat :: Offset(g, pos) + n <= j < g.blksiz ==>
                  block[j] == if FromBuffer(g, Offset(g, pos), n, j) then buffer[j] else v.data[b][j]))
      && (LivePtr(g, v.dir[c.extent], Slot(g, pos)) == 0 ==>
            && !Used(g, v.dir, b)
            && (forall j: nat :: j < Offset(g, pos) || Offset(g, pos) + n <= j < g.blksiz ==> block[j] == 0))
      && v'.dir[c.extent] == WithEnd(g, v'.dir[c.extent], c.extentno, pos + n)
      && ExtentNumber(v'.dir[c.extent]) == c.extentno
  {
    hide ValidGeometry, StoreInBlock, PointersOk, NoSharing, UniqueExtents, WithEnd, OpenBlock, AlvOf, LivePtr, KeyOf,
         KeepsRest;
    PositionSplits(g, pos);
    CursorEntry(g, v, ino, pos, c);
    BlockPassConsistent(g, v, ino, c, pos, data, buffer);
    var i, k, n := c.extent, Slot(g, pos), PassLength(g, pos, |data|);
    OpenBlockConsistent(g, v, i, k);
    OpenedSlot(g, v, i, k);
    var (v1, b_, isNew) := OpenBlock(g, v, i, k).value;
    b := b_;
    CursorSurvivesBlock(g, v, v1, ino, pos, c);
    StorePassConsistent(g, v1, ino, c, b, isNew, pos, data[..n], buffer);
    var v' := BlockPass(g, v, c, pos, data, buffer).vol;
    block := StoreInBlock(g, buffer, v1.data[b], isNew, Offset(g, pos), data[..n]).0;
    StoredBytes(g, buffer, v1.data[b], isNew, Offset(g, pos), data[..n]);
    WithEndFacts(g, v1.dir[i], c.extentno, pos + n);
  }

  lemma StoredBytes(g: Geometry, buffer: seq<byte>, block: seq<byte>, isNew: bool, o: nat, bytes: seq<byte>)
    requires ValidGeometry(g) && |buffer| == LOGICAL_EXTENT && |block| == g.blksiz
    requires 0 < |bytes| && o + |bytes| <= g.blksiz
    ensures var r := StoreInBlock(g, buffer, block, isNew, o, bytes).0;
      && (forall j: nat :: j < |bytes| ==> r[o + j] == bytes[j])
      && (!isNew ==> forall j: nat :: j < o ==> r[j] == block[j])
      && (!isNew ==> forall j: nat :: o + |bytes| <= j < g.blksiz ==>
            r[j] == if FromBuffer(g, o, |bytes|, j) then buffer[j] else block[j])
      && (isNew ==> forall j: nat :: j < o || o + |bytes| <= j < g.blksiz ==> r[j] == 0)
  {
    hide ValidGeometry, StoreInBlock, KeepsRest, FromBuffer;
    BlockFitsBuffer(g);
    forall j: nat | isNew && (j < o || o + |bytes| <= j < g.blksiz)
      ensures StoreInBlock(g, buffer, block, isNew, o, bytes).0[j] == 0
    {
      StoreClearsNew(g, buffer, block, o, bytes, j);
    }
    forall j: nat | j < |bytes| ensures StoreInBlock(g, buffer, block, isNew, o, bytes).0[o + j] == bytes[j] {
      StoreKeepsPrefix(g, buffer, block, isNew, o, bytes, o + j);
    }
    forall j: nat | j < o && !isNew ensures StoreInBlock(g, buffer, block, isNew, o, bytes).0[j] == block[j] {
      StoreKeepsPrefix(g, buffer, block, isNew, o, bytes, j);
    }
    forall j: nat | o + |bytes| <= j < g.blksiz && !isNew
      ensures StoreInBlock(g, buffer, block, isNew, o, bytes).0[j] == if FromBuffer(g, o, |bytes|, j) then buffer[j]
        else block[j]
    {
      StoreRest(g, buffer, block, o, bytes, j);
    }
  }

  /** `OpenBlock` changes one slot, from empty to a block nothing uses. */
  lemma OpenedSlot(g: Geometry, v: Volume, i: nat, k: nat)
    requires Consistent(g, v) && i < |v.dir| && Live(g, v.dir[i]) && k < BlocksPerExtent(g)
    requires k < PointersPerEntry(g) && OpenBlock(g, v, i, k).Some?
    ensures var (v', b, isNew) := OpenBlock(g, v, i, k).value;
      && v'.data == v.data && LivePtr(g, v'.dir[i], k) == b
      && (forall l: nat :: l < PointersPerEntry(g) && l != k ==> LivePtr(g, v'.dir[i], l) == LivePtr(g, v.dir[i], l))
      && (if isNew then LivePtr(g, v.dir[i], k) == 0 && !Used(g, v.dir, b) else LivePtr(g, v.dir[i], k) == b)
      && 0 < b < g.size
  {
    hide ValidGeometry;
    OpenBlockConsistent(g, v, i, k);
    ValidSize(g);
    var (v', b, isNew) := OpenBlock(g, v, i, k).value;
    if isNew {
      SetPtrFacts(g, v.dir[i], k, b);
    }
  }

  /** A pass anywhere in a file puts its bytes there and leaves every other file alone. */
  lemma BlockPassContents(g: Geometry, v: Volume, ino: nat, c: Cursor, pos: nat, data: seq<byte>, buffer: seq<byte>,
                          files: Files)
    requires Consistent(g, v) && Mounted(g, v) && ino < |v.dir| && CursorOk(g, v, ino, pos, Some(c))
    requires Live(g, v.dir[ino]) && c.extent < |v.dir| && Live(g, v.dir[c.extent]) && |buffer| == LOGICAL_EXTENT
    requires 0 < |data|
    requires Contents(g, v, files) && KeyOf(v.dir[ino]) in files && pos <= |files[KeyOf(v.dir[ino])]|
    requires BlockPass(g, v, c, pos, data, buffer).Stored?
    requires RestAgrees(g, pos, PassLength(g, pos, |data|), buffer, files[KeyOf(v.dir[ino])])
    ensures var f, r := KeyOf(v.dir[ino]), BlockPass(g, v, c, pos, data, buffer);
      Contents(g, r.vol, files[f := Overwritten(files[f], pos, data[..r.n])])
  {
    hide BlockPass, Consistent, CursorOk, Mounted, KeyOf, PhysicalOf, LivePtr, Live, ValidGeometry, WithEnd,
         KeepsRest, Overwritten, PassLength, FromBuffer;
    CursorEntry(g, v, ino, pos, c);
    var f, r, i, k := KeyOf(v.dir[ino]), BlockPass(g, v, c, pos, data, buffer), c.extent, Slot(g, pos);
    var b, block := BlockPassStores(g, v, ino, c, pos, data, buffer);
    var files' := files[f := Overwritten(files[f], pos, data[..r.n])];
    assert EntryContents(g, v, i, files);
    ThisEntryHoldsBytes(g, v, r.vol, i, pos, b, block, files[f], data[..r.n]);
    PositionSplits(g, pos);
    assert EntryContents(g, r.vol, i, files');
    forall j: nat | j < |v.dir| && Live(g, r.vol.dir[j]) ensures EntryContents(g, r.vol, j, files') {
      if j != i {
        assert EntryContents(g, v, j, files);
        OtherEntryKeepsBytes(g, v, r.vol, i, k, b, block, j, files[KeyOf(v.dir[j])]);
        if KeyOf(v.dir[j]) == f {
          OtherExtentUntouched(g, r.vol.data, v.dir[j], files[f], pos, data[..r.n]);
        }
      }
    }
    forall h | h in files' ensures Complete(g, r.vol.dir, h, |files'[h]|) {
      CompleteSurvives(g, v.dir, i, r.vol.dir[i], h, |files[h]|);
      if h == f {
        CompleteGrows(g, r.vol.dir, i, f, |files[f]|, pos, r.n);
      }
    }
  }

  /** Bytes stored inside one block concern one extent only. */
  lemma OtherExtentUntouched(g: Geometry, blocks: seq<seq<byte>>, e: DirEntry, bytes: seq<byte>, pos: nat,
                             data: seq<byte>)
    requires ValidGeometry(g) && HoldsBytes(g, blocks, e, bytes) && pos <= |bytes|
    requires Offset(g, pos) + |data| <= g.blksiz
    requires PhysicalOf(g, e) != PhysicalExtent(g, pos)
    ensures HoldsBytes(g, blocks, e, Overwritten(bytes, pos, data))
  {
    hide ValidGeometry, PhysicalOf, LivePtr, PhysicalExtent, Slot, Offset;
    var bytes' := Overwritten(bytes, pos, data);
    forall p: nat | p < |bytes'| && PhysicalExtent(g, p) == PhysicalOf(g, e)
      ensures ByteAt(g, blocks, LivePtr(g, e, Slot(g, p)), Offset(g, p), bytes'[p])
    {
      if pos <= p < pos + |data| {
        SameBlock(g, pos, p - pos);
      }
    }
  }

  lemma CompleteGrows(g: Geometry, dir: seq<DirEntry>, i: nat, f: Key, size: nat, pos: nat, n: nat)
    requires ValidGeometry(g) && i < |dir| && Complete(g, dir, f, size) && pos <= size && Offset(g, pos) + n <= g.blksiz
    requires Live(g, dir[i]) && KeyOf(dir[i]) == f && PhysicalOf(g, dir[i]) == PhysicalExtent(g, pos)
    ensures Complete(g, dir, f, if size <= pos + n then pos + n else size)
  {
    hide ValidGeometry, PhysicalOf, KeyOf, Live;
    forall p: nat | p < pos + n ensures HasExtent(g, dir, f, PhysicalExtent(g, p)) {
      if p >= pos {
        SameBlock(g, pos, p - pos);
      }
    }
  }

  /** The end of an extent that a file has left does not move when the file grows. */
  lemma OtherEndStays(g: Geometry, e: DirEntry, pos: nat, n: nat, exact: bool)
    requires ValidGeometry(g) && RecordsEnd(g, e, pos, exact) && PhysicalOf(g, e) != PhysicalExtent(g, pos)
    ensures RecordsEnd(g, e, pos + n, exact)
  {
    hide ValidGeometry, PhysicalOf, WithEnd;
    var x, y := PhysicalOf(g, e), PhysicalExtent(g, pos);
    ExtentBounds(g, pos, x);
  }

  lemma WrittenEnd(g: Geometry, e: DirEntry, extentno: nat, pos: nat, n: nat, exact: bool)
    requires ValidGeometry(g) && 0 < n && Offset(g, pos) + n <= g.blksiz
    requires PhysicalOf(g, e) == PhysicalExtent(g, pos) && e == WithEnd(g, e, extentno, pos + n)
    requires Reaches(extentno, pos + n, exact) && ExtentNumber(e) == extentno
    ensures RecordsEnd(g, e, pos + n, exact)
  {
    hide ValidGeometry, PhysicalOf, WithEnd;
    SameBlock(g, pos, n - 1);
    ExtentBounds(g, pos, PhysicalExtent(g, pos));
    ExtentBounds(g, pos + n - 1, PhysicalExtent(g, pos));
  }

  lemma EndedAfterPass(g: Geometry, dir: seq<DirEntry>, i: nat, e: DirEntry, pos: nat, n: nat, f: Key, files: Files,
                       files': Files, exact: bool)
    requires ValidGeometry(g) && UniqueExtents(g, dir) && Ended(g, dir, files, exact)
    requires i < |dir| && Live(g, dir[i]) && KeyOf(dir[i]) == f && PhysicalOf(g, dir[i]) == PhysicalExtent(g, pos)
    requires KeyOf(e) == f && RecordsEnd(g, e, pos + n, exact)
    requires f in files && |files[f]| == pos
    requires files'.Keys == files.Keys && |files'[f]| == pos + n && forall h :: h in files && h != f ==>
      files'[h] == files[h]
    ensures Ended(g, dir[i := e], files', exact)
  {
    hide KeyOf, PhysicalOf, Live, ValidGeometry, RecordsEnd;
    var dir' := dir[i := e];
    forall j: nat | j < |dir'| && Live(g, dir'[j])
      ensures KeyOf(dir'[j]) in files' && RecordsEnd(g, dir'[j], |files'[KeyOf(dir'[j])]|, exact)
    {
      if j != i && KeyOf(dir[j]) == f {
        OtherEndStays(g, dir[j], pos, n, exact);
      }
    }
  }

  /** A pass keeps every recorded end right, and with it every size if it ends in the logical extent the cursor
      stands for. */
  lemma BlockPassEnded(g: Geometry, v: Volume, ino: nat, c: Cursor, pos: nat, data: seq<byte>, buffer: seq<byte>,
                       files: Files, exact: bool)
    requires Consistent(g, v) && Mounted(g, v) && ino < |v.dir| && CursorOk(g, v, ino, pos, Some(c))
    requires Live(g, v.dir[ino]) && c.extent < |v.dir| && Live(g, v.dir[c.extent]) && |buffer| == LOGICAL_EXTENT
    requires 0 < |data|
    requires Ended(g, v.dir, files, exact) && KeyOf(v.dir[ino]) in files && |files[KeyOf(v.dir[ino])]| == pos
    requires BlockPass(g, v, c, pos, data, buffer).Stored?
    requires Reaches(c.extentno, pos + PassLength(g, pos, |data|), exact)
    ensures var f, r := KeyOf(v.dir[ino]), BlockPass(g, v, c, pos, data, buffer);
      Ended(g, r.vol.dir, files[f := files[f] + data[..r.n]], exact)
  {
    hide BlockPass, Consistent, CursorOk, Mounted, KeyOf, PhysicalOf, LivePtr, Live, ValidGeometry, WithEnd,
         RecordsEnd, Reaches;
    var f, r, i := KeyOf(v.dir[ino]), BlockPass(g, v, c, pos, data, buffer), c.extent;
    var b, block := BlockPassStores(g, v, ino, c, pos, data, buffer);
    var files' := files[f := files[f] + data[..r.n]];
    CursorEntry(g, v, ino, pos, c);
    WrittenEnd(g, r.vol.dir[i], c.extentno, pos, r.n, exact);
    EndedAfterPass(g, v.dir, i, r.vol.dir[i], pos, r.n, f, files, files', exact);
  }

  lemma PassContents(g: Geometry, v: Volume, ino: nat, pos: nat, cursor: Option<Cursor>, data: seq<byte>,
                     buffer: seq<byte>, files: Files)
    requires WriteState(g, v, ino, pos, cursor, |data|, buffer) && Writable(g, v, ino, cursor, buffer) && 0 < |data|
    requires Contents(g, v, files) && KeyOf(v.dir[ino]) in files && pos <= |files[KeyOf(v.dir[ino])]|
    requires WritePass(g, v, ino, pos, cursor, data, buffer).Stored? ==>
      RestAgrees(g, pos, PassLength(g, pos, |data|), buffer, files[KeyOf(v.dir[ino])])
    ensures var f, r := KeyOf(v.dir[ino]), WritePass(g, v, ino, pos, cursor, data, buffer);
      && (r.Stored? ==> r.n == PassLength(g, pos, |data|))
      && Contents(g, r.vol, if r.Stored? then files[f := Overwritten(files[f], pos, data[..r.n])] else files)
  {
    hide ValidGeometry, Consistent, CursorOk, CursorFits, BlockPass, KeyOf, Live, WellSized, PointersInRange,
         Contents, RestAgrees, Overwritten, PassLength, Offset;
    if Opened(g, v, ino, pos, cursor).Some? {
      OpenedConsistent(g, v, ino, pos, cursor);
      var (v1, c) := Opened(g, v, ino, pos, cursor).value;
      if cursor.None? {
        OpenExtentContents(g, v, ino, pos, files);
      }
      ConsistentIsMounted(g, v1);
      if BlockPass(g, v1, c, pos, data, buffer).Stored? {
        BlockPassLength(g, v1, c, pos, data, buffer);
        BlockPassContents(g, v1, ino, c, pos, data, buffer, files);
      } else {
        FullPassChangesNothing(g, v1, c, pos, data, buffer);
      }
    }
  }

  lemma FullPassChangesNothing(g: Geometry, v: Volume, c: Cursor, pos: nat, data: seq<byte>, buffer: seq<byte>)
    requires Mounted(g, v) && c.extent < |v.dir| && Live(g, v.dir[c.extent]) && |buffer| == LOGICAL_EXTENT && 0 < |data|
    requires BlockPass(g, v, c, pos, data, buffer).Full?
    ensures BlockPass(g, v, c, pos, data, buffer).vol == v
    ensures AllocBlock(g, v.alv) == -1
  {
    hide ValidGeometry, Mounted;
  }

  lemma PassLengthOf(g: Geometry, v: Volume, ino: nat, pos: nat, cursor: Option<Cursor>, data: seq<byte>,
                     buffer: seq<byte>)
    requires WriteState(g, v, ino, pos, cursor, |data|, buffer) && Writable(g, v, ino, cursor, buffer) && 0 < |data|
    requires WritePass(g, v, ino, pos, cursor, data, buffer).Stored?
    ensures WritePass(g, v, ino, pos, cursor, data, buffer).n == PassLength(g, pos, |data|)
  {
    hide ValidGeometry, Consistent, CursorOk, CursorFits, BlockPass, KeyOf, Live, WellSized, PointersInRange,
         PassLength;
    OpenedConsistent(g, v, ino, pos, cursor);
    var (v1, c) := Opened(g, v, ino, pos, cursor).value;
    ConsistentIsMounted(g, v1);
    BlockPassLength(g, v1, c, pos, data, buffer);
  }

  /** A pass at the end of a file appends to it. */
  lemma PassAppends(g: Geometry, v: Volume, ino: nat, pos: nat, cursor: Option<Cursor>, data: seq<byte>,
                    buffer: seq<byte>, files: Files)
    requires WriteState(g, v, ino, pos, cursor, |data|, buffer) && Writable(g, v, ino, cursor, buffer) && 0 < |data|
    requires Contents(g, v, files) && KeyOf(v.dir[ino]) in files && |files[KeyOf(v.dir[ino])]| == pos
    ensures var f, r := KeyOf(v.dir[ino]), WritePass(g, v, ino, pos, cursor, data, buffer);
      Contents(g, r.vol, if r.Stored? then files[f := files[f] + data[..r.n]] else files)
  {
    hide ValidGeometry, Consistent, CursorOk, CursorFits, WellSized, PointersInRange, KeyOf, Live, WritePass,
         Contents, Overwritten, KeepsRest, RestAgrees;
    NothingBehind(g, pos, PassLength(g, pos, |data|), buffer, files[KeyOf(v.dir[ino])]);
    PassContents(g, v, ino, pos, cursor, data, buffer, files);
    var r := WritePass(g, v, ino, pos, cursor, data, buffer);
    if r.Stored? {
      OverwriteAtEnd(files[KeyOf(v.dir[ino])], data[..r.n]);
    }
  }

  lemma AppendNothing(files: Files, f: Key, data: seq<byte>)
    requires f in files
    ensures files[f := files[f] + data[..0]] == files
  {
    assert files[f] + data[..0] == files[f];
  }

  lemma AppendTwice(files: Files, f: Key, data: seq<byte>, n: nat, k: nat)
    requires f in files && n + k <= |data|
    ensures var files' := files[f := files[f] + data[..n]];
      files'[f := files'[f] + data[n..][..k]] == files[f := files[f] + data[..n + k]]
  {
    assert files[f] + data[..n] + data[n..][..k] == files[f] + data[..n + k];
  }

  lemma OverwriteNothing(files: Files, f: Key, pos: nat, data: seq<byte>)
    requires f in files && pos <= |files[f]|
    ensures files[f := Overwritten(files[f], pos, data[..0])] == files
  {
    assert Overwritten(files[f], pos, data[..0]) == files[f];
  }

  lemma OverwriteTwice(files: Files, f: Key, pos: nat, data: seq<byte>, n: nat, k: nat)
    requires f in files && n + k <= |data| && pos <= |files[f]|
    ensures var files' := files[f := Overwritten(files[f], pos, data[..n])];
      pos + n <= |files'[f]| &&
      files'[f := Overwritten(files'[f], pos + n, data[n..][..k])] ==
        files[f := Overwritten(files[f], pos, data[..n + k])]
  {
    var once := Overwritten(files[f], pos, data[..n]);
    assert Overwritten(once, pos + n, data[n..][..k]) == Overwritten(files[f], pos, data[..n + k]);
  }

  /** At its end, a file is overwritten by appending to it. */
  lemma OverwriteAtEnd(bytes: seq<byte>, data: seq<byte>)
    ensures Overwritten(bytes, |bytes|, data) == bytes + data
  {}

  /** A pass that is not the last reaches the end of its block. */
  lemma PassKeepsRest(g: Geometry, pos: nat, n: nat)
    requires ValidGeometry(g) && 0 < n && PassLength(g, pos, n) < n
    ensures KeepsRest(g, Offset(g, pos), PassLength(g, pos, n))
  {
    hide ValidGeometry, KeepsRest, Offset;
    WholeBlockKept(g, Offset(g, pos), PassLength(g, pos, n));
  }

  lemma NextBlockStarts(g: Geometry, pos: nat)
    requires ValidGeometry(g)
    ensures Offset(g, pos + (g.blksiz - Offset(g, pos))) == 0
  {
    hide ValidExtents;
    DivModEquation(pos, g.blksiz);
    assert (pos / g.blksiz + 1) * g.blksiz == pos / g.blksiz * g.blksiz + g.blksiz;
    DivModUnique(pos + (g.blksiz - Offset(g, pos)), g.blksiz, pos / g.blksiz + 1, 0);
  }

  lemma WholeBlockKept(g: Geometry, o: nat, n: nat)
    requires ValidGeometry(g) && 0 < n && o + n == g.blksiz
    ensures KeepsRest(g, o, n)
  {}

  /** `cpmWrite` puts exactly the stored prefix into the file, at the position it was called with, and touches
      nothing else: no other file, and no byte of this one outside the range. It may stop anywhere. Writes that
      complete in front of the end of the file are the matter of module Overwrites. */
  lemma {:induction false} WriteContents(g: Geometry, v: Volume, ino: nat, pos: nat, cursor: Option<Cursor>,
                                         data: seq<byte>, buffer: seq<byte>, files: Files)
    requires WriteState(g, v, ino, pos, cursor, |data|, buffer) && Writable(g, v, ino, cursor, buffer)
    requires Contents(g, v, files) && KeyOf(v.dir[ino]) in files && pos <= |files[KeyOf(v.dir[ino])]|
    requires Write(g, v, ino, pos, cursor, data, buffer).failed || |files[KeyOf(v.dir[ino])]| <= pos + |data|
    ensures var f, r := KeyOf(v.dir[ino]), Write(g, v, ino, pos, cursor, data, buffer);
      Contents(g, r.vol, files[f := Overwritten(files[f], pos, data[..r.got])])
    decreases |data|
  {
    hide ValidGeometry, Consistent, CursorOk, CursorFits, WellSized, PointersInRange, KeyOf, Live, WritePass,
         Contents, Overwritten, KeepsRest, PassLength, Offset, RestAgrees;
    var f := KeyOf(v.dir[ino]);
    if |data| == 0 {
      OverwriteNothing(files, f, pos, data);
    } else {
      WritePassConsistent(g, v, ino, pos, cursor, data, buffer);
      if WritePass(g, v, ino, pos, cursor, data, buffer).Stored? {
        PassLengthOf(g, v, ino, pos, cursor, data, buffer);
        if PassLength(g, pos, |data|) < |data| {
          PassKeepsRest(g, pos, |data|);
        }
        NothingBehind(g, pos, PassLength(g, pos, |data|), buffer, files[f]);
      }
      PassContents(g, v, ino, pos, cursor, data, buffer, files);
      var step := WritePass(g, v, ino, pos, cursor, data, buffer);
      if step.Full? {
        OverwriteNothing(files, f, pos, data);
      } else {
        var files' := files[f := Overwritten(files[f], pos, data[..step.n])];
        WriteContents(g, step.vol, ino, pos + step.n, step.cursor, data[step.n..], step.buffer, files');
        var rest := Write(g, step.vol, ino, pos + step.n, step.cursor, data[step.n..], step.buffer);
        OverwriteTwice(files, f, pos, data, step.n, rest.got);
      }
    }
  }

  /** Where a volume that stands for a map of files has a byte of it. */
  lemma ByteShown(g: Geometry, v: Volume, i: nat, files: Files, p: nat)
    requires ValidGeometry(g) && Contents(g, v, files) && i < |v.dir| && Live(g, v.dir[i])
    requires KeyOf(v.dir[i]) in files && p < |files[KeyOf(v.dir[i])]| && PhysicalExtent(g, p) == PhysicalOf(g, v.dir[i])
    ensures ByteAt(g, v.data, LivePtr(g, v.dir[i], Slot(g, p)), Offset(g, p), files[KeyOf(v.dir[i])][p])
  {
    hide ValidGeometry, KeyOf, Live, LivePtr, PhysicalOf, NoBlocksBehind, Complete;
    assert EntryContents(g, v, i, files);
  }

  /** Appending with `cpmWrite` adds exactly the stored prefix to the file and touches no other,
      however long the write and wherever it stops. */
  lemma WriteAppends(g: Geometry, v: Volume, ino: nat, pos: nat, cursor: Option<Cursor>, data: seq<byte>,
                     buffer: seq<byte>, files: Files)
    requires WriteState(g, v, ino, pos, cursor, |data|, buffer) && Writable(g, v, ino, cursor, buffer)
    requires Contents(g, v, files) && KeyOf(v.dir[ino]) in files && |files[KeyOf(v.dir[ino])]| == pos
    ensures var f, r := KeyOf(v.dir[ino]), Write(g, v, ino, pos, cursor, data, buffer);
      Contents(g, r.vol, files[f := files[f] + data[..r.got]])
  {
    hide ValidGeometry, Consistent, CursorOk, CursorFits, Mounted, KeyOf, Live, Write, Contents, Overwritten;
    WriteContents(g, v, ino, pos, cursor, data, buffer, files);
    OverwriteAtEnd(files[KeyOf(v.dir[ino])], data[..Write(g, v, ino, pos, cursor, data, buffer).got]);
  }

  // ----- sizes ------------------------------------------------------------------------------------------

  /** The part of a write of `n` bytes at `pos` that falls in the extent of `pos`. */
  function PieceLength(g: Geometry, pos: nat, n: nat): (m: nat)
    requires ValidGeometry(g)
    ensures m <= n && (0 < n ==> 0 < m)
  {
    ExtentBounds(g, pos, PhysicalExtent(g, pos));
    Min(n, SlotStart(g, PhysicalExtent(g, pos) + 1, 0) - pos)
  }

  /** The write crosses no 16 KiB boundary inside a physical extent. `cpmWrite` computes the extent
      number once per physical extent, so this is the caller's part when `extents > 1`. */
  predicate StaysInLogical(g: Geometry, pos: nat, n: nat)
    requires ValidGeometry(g)
    decreases n
  {
    n == 0 ||
    (var m := PieceLength(g, pos, n);
     (pos + m - 1) / LOGICAL_EXTENT == pos / LOGICAL_EXTENT && StaysInLogical(g, pos + m, n - m))
  }

  /** The extent number computed for the current extent: where exact ends are wanted, the write stays in the
      logical extent it stands for; in any case it stands for none behind `pos`. */
  predicate KeepsExtentNumber(g: Geometry, cursor: Option<Cursor>, pos: nat, n: nat, exact: bool)
    requires ValidGeometry(g)
  {
    if exact then StaysInLogical(g, pos, n) && (cursor.Some? && 0 < n ==> cursor.value.extentno == pos / LOGICAL_EXTENT)
    else cursor.Some? ==> cursor.value.extentno <= pos / LOGICAL_EXTENT
  }

  lemma SingleLogicalExtent(g: Geometry, pos: nat, n: nat)
    requires ValidGeometry(g) && g.extents == 1
    ensures StaysInLogical(g, pos, n)
    decreases n
  {
    if n > 0 {
      var m := PieceLength(g, pos, n);
      PhysicalOfLogical(g, pos);
      PhysicalOfLogical(g, pos + m - 1);
      ExtentBounds(g, pos, PhysicalExtent(g, pos));
      ExtentBounds(g, pos + m - 1, PhysicalExtent(g, pos));
      SingleLogicalExtent(g, pos + m, n - m);
    }
  }

  /** A write that stays inside one logical extent, such as an aligned chunk of `cpmcp`. */
  lemma SameLogicalExtent(g: Geometry, pos: nat, n: nat)
    requires ValidGeometry(g) && 0 < n && (pos + n - 1) / LOGICAL_EXTENT == pos / LOGICAL_EXTENT
    ensures StaysInLogical(g, pos, n)
  {
    PhysicalOfLogical(g, pos);
    PhysicalOfLogical(g, pos + n - 1);
    ExtentBounds(g, pos + n - 1, PhysicalExtent(g, pos));
  }

  lemma StaysAfterPass(g: Geometry, pos: nat, n: nat, done: nat)
    requires ValidGeometry(g) && StaysInLogical(g, pos, n)
    requires 0 < done <= n && Offset(g, pos) + done <= g.blksiz
    ensures (pos + done - 1) / LOGICAL_EXTENT == pos / LOGICAL_EXTENT
    ensures StaysInLogical(g, pos + done, n - done)
    ensures done < n && PhysicalExtent(g, pos + done) == PhysicalExtent(g, pos) ==>
      (pos + done) / LOGICAL_EXTENT == pos / LOGICAL_EXTENT
  {
    hide ValidGeometry, PhysicalExtent, Slot, PieceLength, Offset;
    PieceAfterPass(g, pos, n, done);
    var m := PieceLength(g, pos, n);
    assert StaysInLogical(g, pos + m, n - m) && (pos + m - 1) / LOGICAL_EXTENT == pos / LOGICAL_EXTENT;
  }

  /** What is left of the piece in the current extent. */
  lemma PieceAfterPass(g: Geometry, pos: nat, n: nat, done: nat)
    requires ValidGeometry(g) && 0 < done <= n && Offset(g, pos) + done <= g.blksiz
    ensures var m := PieceLength(g, pos, n);
      && done <= m <= n && (done < m ==> PieceLength(g, pos + done, n - done) == m - done)
      && (done < n && PhysicalExtent(g, pos + done) == PhysicalExtent(g, pos) ==> done < m)
  {
    hide ValidGeometry, SlotStart, PhysicalExtent, Slot;
    var x := PhysicalExtent(g, pos);
    SameBlock(g, pos, done - 1);
    ExtentBounds(g, pos + done - 1, x);
    ExtentBounds(g, pos + done, x);
    ExtentBounds(g, pos, x);
  }

  lemma PassEnded(g: Geometry, v: Volume, ino: nat, pos: nat, cursor: Option<Cursor>, data: seq<byte>,
                  buffer: seq<byte>, files: Files, exact: bool)
    requires WriteState(g, v, ino, pos, cursor, |data|, buffer) && Writable(g, v, ino, cursor, buffer) && 0 < |data|
    requires Contents(g, v, files) && Ended(g, v.dir, files, exact)
    requires KeyOf(v.dir[ino]) in files && |files[KeyOf(v.dir[ino])]| == pos
    requires KeepsExtentNumber(g, cursor, pos, |data|, exact)
    ensures var f, r := KeyOf(v.dir[ino]), WritePass(g, v, ino, pos, cursor, data, buffer);
      && Ended(g, r.vol.dir, if r.Stored? then files[f := files[f] + data[..r.n]] else files, exact)
      && (r.Stored? ==> KeepsExtentNumber(g, r.cursor, pos + r.n, |data| - r.n, exact))
  {
    hide ValidGeometry, Consistent, CursorOk, CursorFits, BlockPass, KeyOf, Live, WellSized, PointersInRange,
         Contents, Ended, StaysInLogical;
    if Opened(g, v, ino, pos, cursor).Some? {
      OpenedConsistent(g, v, ino, pos, cursor);
      var (v1, c) := Opened(g, v, ino, pos, cursor).value;
      if cursor.None? {
        OpenExtentContents(g, v, ino, pos, files);
      }
      ConsistentIsMounted(g, v1);
      var r := BlockPass(g, v1, c, pos, data, buffer);
      if r.Stored? {
        BlockPassConsistent(g, v1, ino, c, pos, data, buffer);
        BlockPassLength(g, v1, c, pos, data, buffer);
        if exact {
          StaysAfterPass(g, pos, |data|, r.n);
        }
        BlockPassEnded(g, v1, ino, c, pos, data, buffer, files, exact);
      } else {
        FullPassChangesNothing(g, v1, c, pos, data, buffer);
      }
    }
  }

  lemma BlockPassLength(g: Geometry, v: Volume, c: Cursor, pos: nat, data: seq<byte>, buffer: seq<byte>)
    requires Mounted(g, v) && c.extent < |v.dir| && Live(g, v.dir[c.extent]) && |buffer| == LOGICAL_EXTENT && 0 < |data|
    requires BlockPass(g, v, c, pos, data, buffer).Stored?
    ensures BlockPass(g, v, c, pos, data, buffer).n == PassLength(g, pos, |data|)
  {
    hide ValidGeometry, Live, OpenBlock, PointersInRange;
    OpenBlockMounted(g, v, c.extent, Slot(g, pos));
  }

  /** An append keeps every recorded end right, wherever it stops, and under the caller's condition every size. */
  lemma {:induction false} WriteEnded(g: Geometry, v: Volume, ino: nat, pos: nat, cursor: Option<Cursor>,
                                      data: seq<byte>, buffer: seq<byte>, files: Files, exact: bool)
    requires WriteState(g, v, ino, pos, cursor, |data|, buffer) && Writable(g, v, ino, cursor, buffer)
    requires Contents(g, v, files) && Ended(g, v.dir, files, exact)
    requires KeyOf(v.dir[ino]) in files && |files[KeyOf(v.dir[ino])]| == pos
    requires KeepsExtentNumber(g, cursor, pos, |data|, exact)
    ensures var f, r := KeyOf(v.dir[ino]), Write(g, v, ino, pos, cursor, data, buffer);
      Ended(g, r.vol.dir, files[f := files[f] + data[..r.got]], exact)
    decreases |data|
  {
    hide ValidGeometry, Consistent, CursorOk, CursorFits, Mounted, KeyOf, Live, WritePass, Contents, Ended,
         KeepsExtentNumber;
    var f := KeyOf(v.dir[ino]);
    if |data| == 0 {
      AppendNothing(files, f, data);
    } else {
      WritePassConsistent(g, v, ino, pos, cursor, data, buffer);
      PassAppends(g, v, ino, pos, cursor, data, buffer, files);
      PassEnded(g, v, ino, pos, cursor, data, buffer, files, exact);
      var step := WritePass(g, v, ino, pos, cursor, data, buffer);
      if step.Full? {
        AppendNothing(files, f, data);
      } else {
        var files' := files[f := files[f] + data[..step.n]];
        WriteEnded(g, step.vol, ino, pos + step.n, step.cursor, data[step.n..], step.buffer, files', exact);
        var rest := Write(g, step.vol, ino, pos + step.n, step.cursor, data[step.n..], step.buffer);
        AppendTwice(files, f, data, step.n, rest.got);
      }
    }
  }

  /** The three packed fields give back the end they were made from. */
  lemma EntryEndExact(g: Geometry, e: DirEntry, size: nat)
    requires ValidGeometry(g) && RecordsEnd(g, e, size, true)
    ensures EntryEnd(g, e) == Min(size, SlotStart(g, PhysicalOf(g, e) + 1, 0))
  {
    hide ValidGeometry, PhysicalOf, SlotStart, ExtentNumber, WithEnd, EntryEnd;
    var end := Min(size, SlotStart(g, PhysicalOf(g, e) + 1, 0));
    if end != SlotStart(g, PhysicalOf(g, e), 0) {
      DescribedFieldsEnd(g, e, end);
    } else {
      BareEnd(g, e);
    }
  }

  lemma BareEnd(g: Geometry, e: DirEntry)
    requires e.blkcnt == 0
    ensures EntryEnd(g, e) == ExtentNumber(e) * LOGICAL_EXTENT
  {}

  lemma DescribedFieldsEnd(g: Geometry, e: DirEntry, end: nat)
    requires 0 < end && ExtentNumber(e) == (end - 1) / LOGICAL_EXTENT && e == WithEnd(g, e, ExtentNumber(e), end)
    ensures EntryEnd(g, e) == end
  {
    hide ExtentNumber, ExtentLow, ExtentHigh;
    assert e.blkcnt == (end - 1) % LOGICAL_EXTENT / 128 + 1 && e.lrc == LastRecordBytes(g, end);
    RecordArithmetic(end);
  }

  lemma RecordArithmetic(end: nat)
    requires 0 < end
    ensures (end - 1) / LOGICAL_EXTENT * LOGICAL_EXTENT + (end - 1) % LOGICAL_EXTENT / 128 * 128 +
            (if end % 128 == 0 then 128 else end % 128) == end
  {}

  /** Every entry of file `f` describes its end. */
  ghost predicate SizedFile(g: Geometry, dir: seq<DirEntry>, f: Key, size: nat)
    requires ValidGeometry(g)
  {
    forall i: nat :: i < |dir| && Live(g, dir[i]) && KeyOf(dir[i]) == f ==> RecordsEnd(g, dir[i], size, true)
  }

  /** `cpmNamei` recovers the exact size of every file that is described. */
  lemma NameiSize(g: Geometry, v: Volume, f: Key, files: Files)
    requires ValidGeometry(g) && Contents(g, v, files) && f in files && SizedFile(g, v.dir, f, |files[f]|)
    ensures Namei(g, v.dir, f).Some? && Namei(g, v.dir, f).value.size == |files[f]|
  {
    hide ValidGeometry, KeyOf, Live, EntryEnd, RecordsEnd, ExtentNumber, SlotStart;
    var n, highest := |files[f]|, HighestEntry(g, v.dir, f, |v.dir|);
    assert Complete(g, v.dir, f, n);
    assert highest != -1;
    EntryEndExact(g, v.dir[highest], n);
    LastExtentIsHighest(g, v.dir, f, n);
  }

  /** The entry with the highest extent number reaches the end of the file. */
  lemma LastExtentIsHighest(g: Geometry, dir: seq<DirEntry>, f: Key, n: nat)
    requires ValidGeometry(g) && Complete(g, dir, f, n) && HighestEntry(g, dir, f, |dir|) != -1
    ensures n <= SlotStart(g, PhysicalOf(g, dir[HighestEntry(g, dir, f, |dir|)]) + 1, 0)
  {
    hide ValidGeometry, KeyOf, Live, ExtentNumber, SlotStart;
    var highest := HighestEntry(g, dir, f, |dir|);
    var x := PhysicalOf(g, dir[highest]);
    var next := SlotStart(g, x + 1, 0);
    if next < n {
      CapacityIsPositive(g);
      PositionOf(g, x + 1, 0, 0);
      assert HasExtent(g, dir, f, PhysicalExtent(g, next));
      var i :| 0 <= i < |dir| && Live(g, dir[i]) && KeyOf(dir[i]) == f && PhysicalOf(g, dir[i]) == x + 1;
      assert Matches(g, dir[i], f, -1);
      QuotientMonotone(ExtentNumber(dir[i]), ExtentNumber(dir[highest]), g.extents);
    }
  }

  lemma CapacityIsPositive(g: Geometry)
    requires ValidGeometry(g)
    ensures 0 < g.blksiz && 0 < BlocksPerExtent(g) && 0 < g.extents
  {
    CapacityInBlocks(g);
  }

  lemma ReadReturnsContents(g: Geometry, v: Volume, f: Key, pos: nat, count: nat, files: Files)
    requires Consistent(g, v) && Mounted(g, v) && Contents(g, v, files) && f in files
    ensures Read(g, v, f, |files[f]|, pos, count) ==
      if pos <= |files[f]| then files[f][pos..Min(pos + count, |files[f]|)] else []
  {
    hide Consistent, Mounted, Contents, ReadByte;
    var r := Read(g, v, f, |files[f]|, pos, count);
    forall i: nat | i < |r| ensures r[i] == files[f][pos + i] {
      ReadByteExact(g, v, f, pos + i, files);
    }
  }

  /** The entry found for a position of a file points to the byte there. */
  lemma FoundAt(g: Geometry, v: Volume, f: Key, p: nat, files: Files)
    requires ValidGeometry(g) && Contents(g, v, files) && f in files && p < |files[f]|
    ensures var i := FindFileExtent(g, v.dir, f, 0, p / LOGICAL_EXTENT);
      && i != -1 && Live(g, v.dir[i])
      && ByteAt(g, v.data, LivePtr(g, v.dir[i], Slot(g, p)), Offset(g, p), files[f][p])
  {
    hide ValidGeometry, KeyOf, Slot, Offset, PhysicalExtent, LivePtr, ByteAt, NoBlocksBehind;
    PhysicalOfLogical(g, p);
    var i := FindFileExtent(g, v.dir, f, 0, p / LOGICAL_EXTENT);
    assert Complete(g, v.dir, f, |files[f]|);
    assert HasExtent(g, v.dir, f, PhysicalExtent(g, p));
    assert EntryContents(g, v, i, files);
  }

  lemma ReadByteExact(g: Geometry, v: Volume, f: Key, p: nat, files: Files)
    requires Consistent(g, v) && Mounted(g, v) && Contents(g, v, files) && f in files && p < |files[f]|
    ensures !BadAt(g, v, f, p) && ReadByte(g, v, f, p) == files[f][p]
  {
    hide ValidGeometry, Consistent, Contents, FindFileExtent, WellSized, PointersInRange, Slot, Offset, Ptr;
    FoundAt(g, v, f, p, files);
    NeverBad(g, v, f);
  }

  // ----- cpmRename and cpmUnlink ----------------------------------------------------------------------------

  /** Contents are a matter of extent and pointers, not of the name. */
  lemma SameEntryContents(g: Geometry, data: seq<seq<byte>>, e: DirEntry, e': DirEntry, bytes: seq<byte>)
    requires ValidGeometry(g) && PhysicalOf(g, e') == PhysicalOf(g, e)
    requires forall k: nat :: k < PointersPerEntry(g) ==> LivePtr(g, e', k) == LivePtr(g, e, k)
    ensures HoldsBytes(g, data, e', bytes) == HoldsBytes(g, data, e, bytes)
    ensures NoBlocksBehind(g, e', |bytes|) == NoBlocksBehind(g, e, |bytes|)
  {
    hide ValidGeometry, PhysicalOf, LivePtr, ByteAt;
  }

  lemma CompleteRenamed(g: Geometry, dir: seq<DirEntry>, dir': seq<DirEntry>, f: Key, f': Key, size: nat)
    requires ValidGeometry(g) && |dir'| == |dir| && Complete(g, dir, f, size)
    requires forall i :: 0 <= i < |dir| && Live(g, dir[i]) && KeyOf(dir[i]) == f ==>
      Live(g, dir'[i]) && KeyOf(dir'[i]) == f' && PhysicalOf(g, dir'[i]) == PhysicalOf(g, dir[i])
    ensures Complete(g, dir', f', size)
  {
    hide ValidGeometry, KeyOf, PhysicalOf, Live;
    forall p: nat | p < size ensures HasExtent(g, dir', f', PhysicalExtent(g, p)) {
      var x := PhysicalExtent(g, p);
      assert HasExtent(g, dir, f, x);
      var i :| 0 <= i < |dir| && Live(g, dir[i]) && KeyOf(dir[i]) == f && PhysicalOf(g, dir[i]) == x;
      assert KeyOf(dir'[i]) == f';
    }
  }

  function Renamed(files: Files, from: Key, to: Key): Files
    requires from in files
  {
    files[to := files[from]] - {from}
  }

  /** `cpmRename` moves the bytes from one name to the other. */
  lemma RenameContents(g: Geometry, v: Volume, from: Key, to: Key, files: Files)
    requires Consistent(g, v) && Contents(g, v, files) && ValidKey(g, to) && Rename(g, v, from, to).Done?
    ensures from in files && to !in files
    ensures Contents(g, Rename(g, v, from, to).vol, Renamed(files, from, to))
  {
    hide ValidGeometry, KeyOf, PhysicalOf, LivePtr, Live, RenamedDir;
    FileIsFound(g, v, from, files);
    FileIsFound(g, v, to, files);
    RenamedEntries(g, v.dir, from, to);
    var v', files' := Rename(g, v, from, to).vol, Renamed(files, from, to);
    forall i: nat | i < |v.dir| && Live(g, v'.dir[i]) ensures EntryContents(g, v', i, files') {
      assert EntryContents(g, v, i, files);
      SameEntryContents(g, v.data, v.dir[i], v'.dir[i], files[KeyOf(v.dir[i])]);
    }
    forall h | h in files' ensures Complete(g, v'.dir, h, |files'[h]|) {
      CompleteRenamed(g, v.dir, v'.dir, if h == to then from else h, h, |files'[h]|);
    }
  }

  lemma RenameEnded(g: Geometry, v: Volume, from: Key, to: Key, files: Files, exact: bool)
    requires Consistent(g, v) && Ended(g, v.dir, files, exact) && ValidKey(g, to) && Rename(g, v, from, to).Done?
    requires from in files && to !in files
    ensures Ended(g, Rename(g, v, from, to).vol.dir, Renamed(files, from, to), exact)
  {
    hide ValidGeometry, KeyOf, PhysicalOf, LivePtr, Live, RecordsEnd;
    RenamedEntries(g, v.dir, from, to);
    forall i: nat | i < |v.dir| && Live(g, v.dir[i])
      ensures RecordsEnd(g, RenamedEntry(v.dir[i], to), |files[KeyOf(v.dir[i])]|, exact)
    {
      RenamedRecordsEnd(g, v.dir[i], to, |files[KeyOf(v.dir[i])]|, exact);
    }
  }

  lemma RenamedRecordsEnd(g: Geometry, e: DirEntry, to: Key, size: nat, exact: bool)
    requires ValidGeometry(g) && |to.name| == 8 && |to.ext| == 3 && RecordsEnd(g, e, size, exact)
    ensures RecordsEnd(g, RenamedEntry(e, to), size, exact)
  {
    hide ValidGeometry, SlotStart, LastRecordBytes, Memcpy7;
  }

  /** A renamed entry carries the new name under its old attribute bits; extent number, sizes and pointers
      stay, and so does every entry of another file. */
  lemma RenameKeepsAttributes(g: Geometry, dir: seq<DirEntry>, from: Key, to: Key, i: nat)
    requires ValidGeometry(g) && ValidKey(g, to) && i < |dir|
    ensures var e, r := dir[i], RenamedDir(g, dir, from, to)[i];
      if Matches(g, e, from, -1) then
        && r == e.(status := to.user, name := r.name, ext := r.ext)
        && (forall j :: 0 <= j < 8 ==> r.name[j] / 128 == e.name[j] / 128 && r.name[j] % 128 == to.name[j])
        && (forall j :: 0 <= j < 3 ==> r.ext[j] / 128 == e.ext[j] / 128 && r.ext[j] % 128 == to.ext[j])
      else r == e
  {
    hide ValidGeometry, KeyOf, PhysicalOf;
  }

  /** `cpmUnlink` removes one file. */
  lemma UnlinkContents(g: Geometry, v: Volume, f: Key, files: Files)
    requires Consistent(g, v) && Contents(g, v, files) && Unlink(g, v, f).Done?
    ensures f in files && Contents(g, Unlink(g, v, f).vol, files - {f})
    ensures forall exact :: Ended(g, v.dir, files, exact) ==> Ended(g, Unlink(g, v, f).vol.dir, files - {f}, exact)
  {
    hide ValidGeometry, KeyOf, PhysicalOf, LivePtr, Live, UnlinkedDir, RecordsEnd;
    FileIsFound(g, v, f, files);
    UnlinkedEntries(g, v.dir, f);
    var v', files' := Unlink(g, v, f).vol, files - {f};
    forall i: nat | i < |v.dir| && Live(g, v'.dir[i]) ensures EntryContents(g, v', i, files') {
      assert EntryContents(g, v, i, files);
    }
    forall h | h in files' ensures Complete(g, v'.dir, h, |files'[h]|) {
      CompleteRenamed(g, v.dir, v'.dir, h, h, |files'[h]|);
    }
  }
}
