/** Files whose size was lost when a write crossed a 16 KiB boundary, as `fsck` sees them. */
module Miscount {
  import opened Wrappers
  import opened Arithmetic
  import opened Geometry
  import opened Directory
  import opened Volume
  import opened Invariant
  import opened Refinement
  import opened Runs
  import opened Sizes
  import opened FsckClean
  import Fsck

  /** The last 16 KiB piece of a file of `end` bytes needs all its blocks. */
  predicate LastPieceFull(g: Geometry, end: nat)
    requires ValidGeometry(g) && 0 < end
  {
    BlocksFor(g, (end - 1) % LOGICAL_EXTENT + 1) == LOGICAL_EXTENT / g.blksiz
  }

  /** Where the pointers split evenly, an entry is counted right if its extent number is exact or the piece it
      ends in is full. */
  lemma EvenlyCounted(g: Geometry, e: DirEntry, size: nat)
    requires ValidGeometry(g) && ValidExtents(g.extents) && Fsck.FsckGeometry(g) && SplitsEvenly(g)
    requires RecordsEnd(g, e, size, false) && 0 < BytesIn(g, PhysicalOf(g, e), size)
    ensures var end := SlotStart(g, PhysicalOf(g, e), 0) + BytesIn(g, PhysicalOf(g, e), size);
      Counted(g, e, size) <==> ExtentNumber(e) == (end - 1) / LOGICAL_EXTENT || LastPieceFull(g, end)
  {
    hide ValidGeometry, RecordsEnd, BlocksFor, BytesIn, PhysicalOf, Fsck.SlotsPerLogical, Fsck.FsckGeometry,
         ValidExtents, DefaultExtents, ExtentNumber, ExtentCapacity;
    var len, x := BytesIn(g, PhysicalOf(g, e), size), PhysicalOf(g, e);
    GeometryParts(g);
    LastLogical(g, e, size, false);
    SlotsCover(g);
    CapacityIsLogical(g);
    SplitEnd(x, g.extents, len);
    EvenAgrees(e.extnol % g.extents, (len - 1) / LOGICAL_EXTENT, LOGICAL_EXTENT / g.blksiz);
  }

  lemma EvenAgrees(seen: nat, last: nat, m: nat)
    requires 0 < m && seen <= last
    ensures last * m == seen * m <==> last == seen
  {
    if seen < last {
      MulMonotone(seen + 1, last, m);
      assert (seen + 1) * m == seen * m + m;
    }
  }

  /** Extents in front of the last are filled to the end, so they count right whatever their extent number. */
  lemma EarlierCounted(g: Geometry, e: DirEntry, size: nat)
    requires ValidGeometry(g) && ValidExtents(g.extents) && Fsck.FsckGeometry(g) && SplitsEvenly(g)
    requires RecordsEnd(g, e, size, false) && 0 < size && PhysicalOf(g, e) != PhysicalExtent(g, size - 1)
    ensures Counted(g, e, size)
  {
    hide ValidGeometry, RecordsEnd, PhysicalOf, Fsck.FsckGeometry, ValidExtents, SplitsEvenly, ExtentNumber,
         ExtentCapacity, Fsck.SlotsPerLogical, ShowsLast, LastPieceFull;
    var x := PhysicalOf(g, e);
    if 0 < BytesIn(g, x, size) {
      EvenlyCounted(g, e, size);
      ExtentBounds(g, size - 1, x);
      EndsFull(g, x + 1);
    }
  }

  lemma EndsFull(g: Geometry, x: nat)
    requires ValidGeometry(g) && 0 < x
    ensures 0 < SlotStart(g, x, 0) && LastPieceFull(g, SlotStart(g, x, 0))
  {
    CapacityIsLogical(g);
    GeometryParts(g);
    WholePieces(x, g.extents);
    LogicalFull(g);
  }

  lemma WholePieces(x: nat, extents: nat)
    requires 0 < x && 0 < extents
    ensures var end := x * (LOGICAL_EXTENT * extents);
      0 < end && (end - 1) % LOGICAL_EXTENT == LOGICAL_EXTENT - 1
  {
    MulMonotone(1, x, extents);
    assert x * (LOGICAL_EXTENT * extents) == LOGICAL_EXTENT * (x * extents);
  }

  lemma LogicalFull(g: Geometry)
    requires ValidGeometry(g)
    ensures BlocksFor(g, LOGICAL_EXTENT) == LOGICAL_EXTENT / g.blksiz
  {}

  /** A new file is counted right exactly if the last call that wrote anything kept its size, or its last piece
      is full. */
  lemma NewFileCounted(g: Geometry, dir: seq<DirEntry>, f: Key, end: nat, n: nat)
    requires ValidGeometry(g) && ValidExtents(g.extents) && Fsck.FsckGeometry(g) && SplitsEvenly(g)
    requires UniqueExtents(g, dir) && 0 < n <= end
    requires forall i :: 0 <= i < |dir| && Live(g, dir[i]) && KeyOf(dir[i]) == f ==> RecordsEnd(g, dir[i], end, false)
    requires EntryIs(g, dir, f, PhysicalExtent(g, end - 1), LastEntered(g, end - n, n) / LOGICAL_EXTENT, end)
    ensures FileCounted(g, dir, f, end) <==> SizeKept(g, end, n) || LastPieceFull(g, end)
  {
    hide ValidGeometry, RecordsEnd, Fsck.FsckGeometry, ValidExtents, SplitsEvenly, ExtentNumber, Counted, KeyOf, Live,
         PhysicalOf, PhysicalExtent, LastEntered, WithEnd, LastPieceFull, BytesIn;
    var x, extentno := PhysicalExtent(g, end - 1), LastEntered(g, end - n, n) / LOGICAL_EXTENT;
    var i :| 0 <= i < |dir| && Live(g, dir[i]) && KeyOf(dir[i]) == f && PhysicalOf(g, dir[i]) == x
             && ExtentNumber(dir[i]) == extentno && dir[i] == WithEnd(g, dir[i], extentno, end);
    EndsInLast(g, end);
    EvenlyCounted(g, dir[i], end);
    forall j | 0 <= j < |dir| && Live(g, dir[j]) && KeyOf(dir[j]) == f && j != i ensures Counted(g, dir[j], end) {
      EarlierCounted(g, dir[j], end);
    }
  }

  lemma EndsInLast(g: Geometry, end: nat)
    requires ValidGeometry(g) && 0 < end
    ensures var x := PhysicalExtent(g, end - 1);
      0 < BytesIn(g, x, end) && SlotStart(g, x, 0) + BytesIn(g, x, end) == end
  {
    hide ValidGeometry, PhysicalExtent, SlotStart;
    ExtentBounds(g, end - 1, PhysicalExtent(g, end - 1));
  }

  lemma NothingCounted(g: Geometry, dir: seq<DirEntry>, f: Key)
    requires ValidGeometry(g) && Fsck.FsckGeometry(g)
    ensures FileCounted(g, dir, f, 0)
  {
    hide ValidGeometry, Fsck.FsckGeometry, KeyOf, Live, PhysicalOf, SlotStart;
  }

  lemma OthersCounted(g: Geometry, dir: seq<DirEntry>, dir': seq<DirEntry>, f: Key, x: nat, h: Key, files: Files)
    requires ValidGeometry(g) && ValidExtents(g.extents) && Fsck.FsckGeometry(g) && SplitsEvenly(g)
    requires SameOutside(g, dir, dir', f, x) && Sized(g, dir, files) && h != f && h in files
    ensures FileCounted(g, dir', h, |files[h]|)
  {
    hide ValidGeometry, ValidExtents, Fsck.FsckGeometry, SplitsEvenly, KeyOf, Live, PhysicalOf, RecordsEnd, Counted,
         BytesIn;
    forall i | 0 <= i < |dir'| && Live(g, dir'[i]) && KeyOf(dir'[i]) == h ensures Counted(g, dir'[i], |files[h]|) {
      assert dir'[i] == dir[i];
      ExactCounted(g, dir[i], |files[h]|);
    }
  }

  lemma OthersOutside(g: Geometry, dir: seq<DirEntry>, dir': seq<DirEntry>, f: Key, x: nat)
    requires ValidGeometry(g) && Fsck.FsckGeometry(g) && SameOutside(g, dir, dir', f, x) && OthersSound(g, dir)
    ensures OthersSound(g, dir')
  {
    hide ValidGeometry, KeyOf, PhysicalOf, Fsck.Sound, Fsck.FsckGeometry;
  }

  /** A file created and written in any chunks, on a format whose pointers split evenly: `fsck` accepts the volume
      if and only if the last call kept the size or the last 16 KiB piece needs all its blocks. */
  lemma CopyIsSound(g: Geometry, v: Volume, f: Key, chunks: seq<Chunk>, files: Files)
    requires Refines(g, v, files) && ValidKey(g, f) && Creat(g, v, f).Done?
    requires Open(g, Creat(g, v, f).vol, FindFreeExtent(v.dir, 0))
    requires CopiesFully(g, Creat(g, v, f).vol, FindFreeExtent(v.dir, 0), 0, chunks)
    requires ValidExtents(g.extents) && Fsck.FsckGeometry(g) && SplitsEvenly(g) && OthersSound(g, v.dir)
    requires CleanKey(g, f) && forall h :: h in files ==> CleanKey(g, h)
    ensures var w, end := Copy(g, Creat(g, v, f).vol, FindFreeExtent(v.dir, 0), 0, chunks), |Concat(chunks)|;
      && Fsck.NoSharedBlocks(g, w.dir) && Fsck.NoDuplicateExtents(g, w.dir)
      && (AllSound(g, w.dir) <==> CopySizeKept(g, chunks) || (0 < end && LastPieceFull(g, end)))
  {
    hide Consistent, Mounted, Contents, Ended, KeyOf, Live, CopiesFully, Copy, AllCountRight, ValidGeometry, Namei,
         EntriesUpTo, SameOutside, PhysicalExtent, Creat, SizeKept, ValidExtents, Fsck.FsckGeometry, SplitsEvenly,
         OthersSound, CleanKey, AllSound, FileCounted, Fsck.NoSharedBlocks, Fsck.NoDuplicateExtents, LastPieceFull,
         Concat, EntryIs, LastEntered;
    HoldsValid(g, v, files);
    CreatOpens(g, v, f);
    var files', end := files[f := Concat(chunks)], |Concat(chunks)|;
    var w := Copy(g, Creat(g, v, f).vol, FindFreeExtent(v.dir, 0), 0, chunks);
    LooselyEnded(g, v.dir, files);
    CopyIntoNew(g, v, f, chunks, files);
    CopyOutside(g, v, f, chunks, files);
    OthersOutside(g, v.dir, w.dir, f, PhysicalExtent(g, end));
    VolumeIsSound(g, w, files');
    forall h | h in files && h != f ensures FileCounted(g, w.dir, h, |files'[h]|) {
      OthersCounted(g, v.dir, w.dir, f, PhysicalExtent(g, end), h, files);
    }
    CopiedFileCounted(g, w, f, files', chunks);
    assert AllCounted(g, w.dir, files') <==> FileCounted(g, w.dir, f, |files'[f]|);
  }

  /** What a copy leaves in the directory: only entries of its file change, and the last is the last call's. */
  lemma CopyOutside(g: Geometry, v: Volume, f: Key, chunks: seq<Chunk>, files: Files)
    requires Refines(g, v, files) && ValidGeometry(g) && ValidKey(g, f) && Creat(g, v, f).Done?
    requires Open(g, Creat(g, v, f).vol, FindFreeExtent(v.dir, 0))
    requires CopiesFully(g, Creat(g, v, f).vol, FindFreeExtent(v.dir, 0), 0, chunks)
    ensures var w, end, n := Copy(g, Creat(g, v, f).vol, FindFreeExtent(v.dir, 0), 0, chunks), |Concat(chunks)|,
      LastLength(chunks);
      && SameOutside(g, v.dir, w.dir, f, PhysicalExtent(g, end))
      && (0 < n ==> EntryIs(g, w.dir, f, PhysicalExtent(g, end - 1), LastEntered(g, end - n, n) / LOGICAL_EXTENT, end))
  {
    hide Consistent, Mounted, Contents, Ended, KeyOf, Live, CopiesFully, Copy, ValidGeometry, Namei, EntriesUpTo,
         SameOutside, PhysicalExtent, Creat, Concat, EntryIs, LastEntered;
    var v', i := Creat(g, v, f).vol, FindFreeExtent(v.dir, 0);
    CreatOpens(g, v, f);
    CreatUpTo(g, v, f);
    CopySize(g, v', i, 0, chunks);
    ExtentMonotone(g, 0, |Concat(chunks)|);
    SameOutsideTransitive(g, v.dir, v'.dir, Copy(g, v', i, 0, chunks).dir, f, PhysicalExtent(g, 0),
                          PhysicalExtent(g, |Concat(chunks)|));
  }

  lemma CopiedFileCounted(g: Geometry, w: Volume, f: Key, files: Files, chunks: seq<Chunk>)
    requires Holds(g, w, files) && Ended(g, w.dir, files, false) && f in files && files[f] == Concat(chunks)
    requires ValidGeometry(g) && ValidExtents(g.extents) && Fsck.FsckGeometry(g) && SplitsEvenly(g)
    requires var end, n := |Concat(chunks)|, LastLength(chunks);
      0 < n ==> EntryIs(g, w.dir, f, PhysicalExtent(g, end - 1), LastEntered(g, end - n, n) / LOGICAL_EXTENT, end)
    ensures var end := |Concat(chunks)|;
      FileCounted(g, w.dir, f, end) <==> CopySizeKept(g, chunks) || (0 < end && LastPieceFull(g, end))
  {
    hide ValidGeometry, PointersOk, NoSharing, AlvOf, WellSized, UniqueExtents, Contents, RecordsEnd, KeyOf, Live,
         PhysicalExtent, ValidExtents, Fsck.FsckGeometry, SplitsEvenly, FileCounted, LastPieceFull, EntryIs,
         LastEntered, SizeKept;
    if LastLength(chunks) == 0 {
      NothingCounted(g, w.dir, f);
    } else {
      NewFileCounted(g, w.dir, f, |Concat(chunks)|, LastLength(chunks));
    }
  }

  /** The failing input: on a default format with two or more logical extents per entry and blocks below 16 KiB, the
      16385 bytes written at once are all there, and `fsck` asks to remove the file. */
  lemma CrossingIsMisjudged(g: Geometry, v: Volume, ino: nat, data: seq<byte>, buffer: seq<byte>,
                            files: Files) returns (i: nat)
    requires Refines(g, v, files) && Open(g, v, ino) && |data| == LOGICAL_EXTENT + 1 && |buffer| == LOGICAL_EXTENT
    requires KeyOf(v.dir[ino]) in files && |files[KeyOf(v.dir[ino])]| == 0
    requires !Write(g, v, ino, 0, None, data, buffer).failed
    requires ValidExtents(g.extents) && Fsck.FsckGeometry(g)
    requires DefaultExtents(g) && 2 <= g.extents && g.blksiz < LOGICAL_EXTENT
    ensures var f, w := KeyOf(v.dir[ino]), Write(g, v, ino, 0, None, data, buffer).vol;
      && Holds(g, w, files[f := data])
      && i < |w.dir| && Live(g, w.dir[i]) && KeyOf(w.dir[i]) == f && !Fsck.SoundRecordCount(g, w.dir[i])
  {
    hide KeyOf, Live, WellSized, PointersInRange, PointersOk, NoSharing, UniqueExtents, AlvOf, Contents, Ended, Write,
         ExtentNumber, WithEnd, Fsck.FsckGeometry, ValidExtents, Fsck.SoundRecordCount, DefaultExtents, PhysicalOf,
         LastEntered, Counted, UsesFirst, LastPieceFull, RecordsEnd;
    hide ValidGeometry;
    var f, w := KeyOf(v.dir[ino]), Write(g, v, ino, 0, None, data, buffer).vol;
    WriteConsistent(g, v, ino, 0, None, data, buffer);
    WriteAppends(g, v, ino, 0, None, data, buffer, files);
    assert files[f] + data[..|data|] == data;
    LooselyEnded(g, v.dir, files);
    WriteEnded(g, v, ino, 0, None, data, buffer, files, false);
    WriteRecordsEnd(g, v, ino, 0, None, data, buffer);
    FirstPieceEntered(g);
    i :| 0 <= i < |w.dir| && Live(g, w.dir[i]) && KeyOf(w.dir[i]) == f && PhysicalOf(g, w.dir[i]) == 0
         && ExtentNumber(w.dir[i]) == 0 && w.dir[i] == WithEnd(g, w.dir[i], 0, LOGICAL_EXTENT + 1);
    MiscountedEntry(g, w, i, files[f := data]);
  }

  lemma FirstPieceEntered(g: Geometry)
    requires ValidGeometry(g) && 2 <= g.extents
    ensures PhysicalExtent(g, LOGICAL_EXTENT) == 0 && LastEntered(g, 0, LOGICAL_EXTENT + 1) == 0
  {
    CapacityIsLogical(g);
  }

  lemma MiscountedEntry(g: Geometry, w: Volume, i: nat, files: Files)
    requires Holds(g, w, files) && Ended(g, w.dir, files, false) && ValidGeometry(g) && ValidExtents(g.extents)
    requires Fsck.FsckGeometry(g)
    requires DefaultExtents(g) && 2 <= g.extents && g.blksiz < LOGICAL_EXTENT
    requires i < |w.dir| && Live(g, w.dir[i]) && PhysicalOf(g, w.dir[i]) == 0 && ExtentNumber(w.dir[i]) == 0
    requires KeyOf(w.dir[i]) in files && |files[KeyOf(w.dir[i])]| == LOGICAL_EXTENT + 1
    ensures !Fsck.SoundRecordCount(g, w.dir[i])
  {
    hide ValidGeometry, PointersOk, NoSharing, UniqueExtents, AlvOf, RecordsEnd, HoldsBytes, NoBlocksBehind, Complete,
         KeyOf, Live, Fsck.FsckGeometry, ValidExtents, Fsck.SoundRecordCount, DefaultExtents, PhysicalOf, Counted,
         UsesFirst, ExtentNumber, LastPieceFull, BytesIn;
    assert EntryContents(g, w, i, files);
    EntryUsesFirst(g, w, i, files);
    RecordCountSound(g, w.dir[i], LOGICAL_EXTENT + 1);
    OneByteOver(g);
    EvenlyCounted(g, w.dir[i], LOGICAL_EXTENT + 1);
  }

  lemma OneByteOver(g: Geometry)
    requires ValidGeometry(g) && 2 <= g.extents && g.blksiz < LOGICAL_EXTENT
    ensures SlotStart(g, 0, 0) == 0 && BytesIn(g, 0, LOGICAL_EXTENT + 1) == LOGICAL_EXTENT + 1
    ensures !LastPieceFull(g, LOGICAL_EXTENT + 1)
  {
    CapacityIsLogical(g);
    GeometryParts(g);
  }
}
