/** What a directory that `fsck` accepts is to the file system: what the engine needs, and where the two disagree. */
module Accepted {
  import opened Geometry
  import opened Directory
  import opened Volume
  import opened Invariant
  import Fsck
  import Names

  // ----- one entry ---------------------------------------------------------------------------------

  /** The statuses `fsck` has a branch for, by system; all others are bad unless the entry is unused. The engine takes
      16 to 31 for files on all systems with high user numbers. */
  lemma AcceptedStatuses(g: Geometry, e: DirEntry)
    requires Fsck.FsckGeometry(g)
    ensures g.os == CPMFS_DR22 ==> (Fsck.KindOf(g, e) != Fsck.OtherKind <==> e.status <= 15)
    ensures g.os == CPMFS_P2DOS ==> (Fsck.KindOf(g, e) != Fsck.OtherKind <==> e.status <= 31 || e.status == 0x21)
    ensures g.os == CPMFS_DR3 ==> (Fsck.KindOf(g, e) != Fsck.OtherKind <==> e.status <= 31 || e.status in {0x20, 0x21})
    ensures g.os == CPMFS_MPM ==> (Fsck.KindOf(g, e) != Fsck.OtherKind <==> e.status <= 31 || e.status == 0x20)
    ensures Fsck.KindOf(g, e) == Fsck.OtherKind ==> (Fsck.Sound(g, e) <==> e.status == 0xE5)
    ensures e.status == 0x21 && Fsck.KindOf(g, e) != Fsck.OtherKind ==> Fsck.Sound(g, e)
  {
    hide Fsck.FsckGeometry;
  }

  /** A file of user 16 to 31 is found and read on CP/M 2.2, and `fsck` wants its entries cleared. */
  lemma HighUserRejected(g: Geometry, e: DirEntry)
    requires Fsck.FsckGeometry(g) && g.os.hiUser && !g.os.hasXfcbs && g.os != CPMFS_P2DOS && 16 <= e.status <= 31
    ensures Live(g, e) && !Fsck.Sound(g, e)
  {
    hide Fsck.FsckGeometry;
  }

  /** The entry of a file just created passes exactly if the name has no small letters and does not start with a blank,
      and the user is below 16 or on a system where `fsck` knows what the higher ones are. */
  lemma NewFileAccepted(g: Geometry, f: Key)
    requires Fsck.FsckGeometry(g) && ValidKey(g, f)
    ensures Fsck.Sound(g, FreshEntry(f)) <==>
      && Fsck.SoundName(f.name) && Fsck.SoundExt(f.ext)
      && (f.user <= 15 || g.os == CPMFS_P2DOS || g.os.hasXfcbs)
  {
    hide Fsck.FsckGeometry, Fsck.SoundRecordCount, Fsck.SoundPointers, Fsck.SoundName, Fsck.SoundExt;
    EmptyIsSound(g, FreshEntry(f));
  }

  lemma EmptyIsSound(g: Geometry, e: DirEntry)
    requires Fsck.FsckGeometry(g) && e.pointers == ZEROS16 && e.blkcnt == 0
    ensures Fsck.SoundPointers(g, e) && Fsck.SoundRecordCount(g, e)
  {
    hide Fsck.CountPointers;
    Fsck.LastLogicalExtent(g, e);
    NoneCounted(g, e, Fsck.FirstSlot(g, e), Fsck.FirstSlot(g, e) + Fsck.SlotsPerLogical(g));
    NoPointers(g, e);
    NoBlocksNeeded(g.blksiz);
  }

  lemma NoBlocksNeeded(blksiz: nat)
    requires 0 < blksiz
    ensures (0 * 128 + blksiz - 1) / blksiz == 0
  {}

  lemma NoPointers(g: Geometry, e: DirEntry)
    requires e.pointers == ZEROS16
    ensures forall k: nat :: k < PointersPerEntry(g) ==> Ptr(g, e, k) == 0
  {}

  /** The extent number is accepted exactly if the engine would write it the same way. */
  lemma AcceptedExtentNumber(g: Geometry, e: DirEntry)
    requires Fsck.FsckGeometry(g) && Fsck.KindOf(g, e) == Fsck.FileKind
    ensures !Fsck.Defect(g, e, Fsck.RemoveForLowBits) && !Fsck.Defect(g, e, Fsck.RemoveForHighBits) <==>
      WithExtentNumber(e, ExtentNumber(e)) == e
  {
    hide Fsck.FsckGeometry;
  }

  /** The byte count is accepted exactly if the data the engine sees ends in the last record counted. */
  lemma AcceptedByteCount(g: Geometry, e: DirEntry)
    requires Fsck.FsckGeometry(g) && Fsck.KindOf(g, e) == Fsck.FileKind && 0 < e.blkcnt
    ensures var start := ExtentNumber(e) * LOGICAL_EXTENT;
      !Fsck.Defect(g, e, Fsck.ClearByteCount) <==>
        start + (e.blkcnt - 1) * 128 <= EntryEnd(g, e) <= start + e.blkcnt * 128
  {
    hide Fsck.FsckGeometry, ExtentNumber;
  }

  /** Names pass exactly if the engine would make them, which writes capitals only. */
  lemma AcceptedCharacter(notFirst: bool, c: byte)
    ensures Fsck.NameChar(notFirst, c) <==> FileChar(notFirst, c) && Names.ToUpper(c) == c
  {}

  /** Every character of the password is printable. */
  predicate Printable(e: DirEntry) {
    forall i :: 0 <= i < 8 ==> 32 <= Fsck.Xor(e.pointers[i], e.lrc) < 128
  }

  /** A disk label passes unless it asks for a password it does not have, or on CP/M 3 for both dates. */
  lemma AcceptedLabel(g: Geometry, e: DirEntry)
    requires Fsck.FsckGeometry(g) && Fsck.KindOf(g, e) == Fsck.LabelKind
    ensures Fsck.Sound(g, e) <==>
      && (e.extnol < 0x80 || Printable(e))
      && !(g.os == CPMFS_DR3 && e.extnol / 0x40 % 2 == e.extnol / 0x10 % 2 == 1)
  {
    hide Fsck.FsckGeometry, Fsck.Xor;
    PasswordReversed(e);
  }

  /** An XFCB passes unless its name is no file's or it asks for a password, by any of its three top bits, that it does
      not have. */
  lemma AcceptedXfcb(g: Geometry, e: DirEntry)
    requires Fsck.FsckGeometry(g) && Fsck.KindOf(g, e) == Fsck.XfcbKind
    ensures Fsck.Sound(g, e) <==>
      Fsck.SoundName(e.name) && Fsck.SoundExt(e.ext) && (e.extnol < 0x20 || Printable(e))
  {
    hide Fsck.FsckGeometry, Fsck.Xor, Fsck.SoundName, Fsck.SoundExt;
    PasswordReversed(e);
    TopBits(e.extnol);
  }

  lemma TopBits(b: byte)
    ensures Fsck.Bit(b, 0x80) || Fsck.Bit(b, 0x40) || Fsck.Bit(b, 0x20) <==> 0x20 <= b
  {}

  lemma PasswordReversed(e: DirEntry)
    ensures Fsck.SoundPassword(e) <==> Printable(e)
  {
    hide Fsck.Xor;
    assert forall i :: 0 <= i < 8 ==> Fsck.DecodedChar(e, i) == Fsck.Xor(e.pointers[7 - i], e.lrc);
    if Fsck.SoundPassword(e) {
      forall i | 0 <= i < 8 ensures 32 <= Fsck.Xor(e.pointers[i], e.lrc) < 128 {
        assert 32 <= Fsck.DecodedChar(e, 7 - i) < 128;
      }
    }
  }

  // ----- a directory -------------------------------------------------------------------------------

  /** Phase 1 finds nothing, and no entry is an XFCB. */
  ghost predicate Accepts(g: Geometry, dir: seq<DirEntry>)
    requires Fsck.FsckGeometry(g)
  {
    forall i: nat :: i < |dir| ==> Fsck.Sound(g, dir[i]) && Fsck.KindOf(g, dir[i]) != Fsck.XfcbKind
  }

  lemma FilesAreLive(g: Geometry, e: DirEntry)
    requires Fsck.FsckGeometry(g) && Fsck.Sound(g, e) && Fsck.KindOf(g, e) != Fsck.XfcbKind
    ensures Fsck.IsFile(g, e) <==> Live(g, e)
    ensures Live(g, e) ==> Fsck.SoundPointers(g, e)
  {
    hide Fsck.FsckGeometry;
  }

  lemma AllSlotsCount(g: Geometry)
    requires ValidGeometry(g) && DefaultExtents(g)
    ensures BlocksPerExtent(g) == PointersPerEntry(g)
  {}

  lemma SharedMeans(g: Geometry, dir: seq<DirEntry>, x: nat, k: nat, y: nat, l: nat)
    requires x < |dir| && y < |dir| && k < PointersPerEntry(g) && l < PointersPerEntry(g)
    requires (Fsck.IsFile(g, dir[x]) <==> Live(g, dir[x])) && (Fsck.IsFile(g, dir[y]) <==> Live(g, dir[y]))
    ensures Fsck.SharedBlock(g, dir, x, k, y, l) <==>
      LivePtr(g, dir[x], k) != 0 && LivePtr(g, dir[x], k) == LivePtr(g, dir[y], l) && (x != y || k != l)
  {
    hide Fsck.IsFile, Live, Ptr;
  }

  lemma AcceptedSharing(g: Geometry, dir: seq<DirEntry>)
    requires forall i: nat :: i < |dir| ==> (Fsck.IsFile(g, dir[i]) <==> Live(g, dir[i]))
    ensures Fsck.NoSharedBlocks(g, dir) <==> NoSharing(g, dir)
  {
    hide Fsck.SharedBlock, Fsck.IsFile, Live, LivePtr;
    forall x: nat, k: nat, y: nat, l: nat
      | x < |dir| && k < PointersPerEntry(g) && y < |dir| && l < PointersPerEntry(g)
      ensures Fsck.SharedBlock(g, dir, x, k, y, l) <==>
        LivePtr(g, dir[x], k) != 0 && LivePtr(g, dir[x], k) == LivePtr(g, dir[y], l) && (x != y || k != l)
    {
      SharedMeans(g, dir, x, k, y, l);
    }
  }

  lemma AcceptedPointers(g: Geometry, dir: seq<DirEntry>)
    requires ValidGeometry(g) && Fsck.FsckGeometry(g) && DefaultExtents(g) && Accepts(g, dir)
    ensures PointersOk(g, dir)
    ensures Fsck.NoSharedBlocks(g, dir) <==> NoSharing(g, dir)
  {
    hide ValidGeometry, Fsck.FsckGeometry, Fsck.Sound, Fsck.KindOf, Live, Ptr, Fsck.NoSharedBlocks, NoSharing;
    AllSlotsCount(g);
    forall i: nat | i < |dir| ensures Fsck.IsFile(g, dir[i]) <==> Live(g, dir[i])
      ensures Live(g, dir[i]) ==> Fsck.SoundPointers(g, dir[i])
    {
      FilesAreLive(g, dir[i]);
    }
    AcceptedSharing(g, dir);
  }

  /** Phase 2's second check compares logical extents, the engine physical ones. */
  lemma AcceptedExtents(g: Geometry, dir: seq<DirEntry>)
    requires ValidGeometry(g) && Fsck.FsckGeometry(g) && Accepts(g, dir)
    ensures UniqueExtents(g, dir) ==> Fsck.NoDuplicateExtents(g, dir)
    ensures g.extents == 1 && Fsck.NoDuplicateExtents(g, dir) ==> UniqueExtents(g, dir)
  {
    hide ValidGeometry, Fsck.FsckGeometry, Fsck.Sound, Fsck.KindOf, Live, KeyOf, ExtentNumber;
    forall i: nat | i < |dir| ensures Fsck.IsFile(g, dir[i]) <==> Live(g, dir[i]) {
      FilesAreLive(g, dir[i]);
    }
    assert forall x: nat, y: nat :: x < |dir| && y < |dir| ==>
      (Fsck.DuplicateExtent(g, dir, x, y) <==>
       Live(g, dir[x]) && Live(g, dir[y]) && x != y && ExtentNumber(dir[x]) == ExtentNumber(dir[y]) &&
       KeyOf(dir[x]) == KeyOf(dir[y]));
  }

  /** A directory that phase 1 accepts mounts as a consistent volume if and only if phase 2 accepts it too, on formats
      with one logical extent per entry; on the others phase 2 may accept a file with two entries for one place. */
  lemma AcceptedIsConsistent(g: Geometry, v: Volume)
    requires ValidGeometry(g) && ValidExtents(g.extents) && DefaultExtents(g) && NoMpmDates(g) && WellSized(g, v)
    requires Fsck.FsckGeometry(g) && Accepts(g, v.dir) && v.alv == AlvOf(g, v.dir)
    ensures Consistent(g, v) <==> Fsck.NoSharedBlocks(g, v.dir) && UniqueExtents(g, v.dir)
    ensures Consistent(g, v) ==> Fsck.NoSharedBlocks(g, v.dir) && Fsck.NoDuplicateExtents(g, v.dir)
    ensures g.extents == 1 ==>
      (Consistent(g, v) <==> Fsck.NoSharedBlocks(g, v.dir) && Fsck.NoDuplicateExtents(g, v.dir))
  {
    hide ValidGeometry, Fsck.FsckGeometry, Accepts, PointersOk, NoSharing, UniqueExtents, Fsck.NoSharedBlocks,
         Fsck.NoDuplicateExtents, AlvOf, WellSized;
    AcceptedPointers(g, v.dir);
    AcceptedExtents(g, v.dir);
  }

  /** Two entries of one file, numbered 0 and 1, on a format with two logical extents per entry. */
  const TWIN: DirEntry :=
    Entry(0, [65, 32, 32, 32, 32, 32, 32, 32], BLANKS3, 0, 0, 0, 0, ZEROS16)

  lemma TwinsPass()
    ensures ValidGeometry(EPSON_QX10) && Fsck.FsckGeometry(EPSON_QX10)
    ensures var dir := [TWIN, TWIN.(extnol := 1)];
      && Accepts(EPSON_QX10, dir) && Fsck.NoSharedBlocks(EPSON_QX10, dir) && Fsck.NoDuplicateExtents(EPSON_QX10, dir)
      && !UniqueExtents(EPSON_QX10, dir)
      && forall n: nat :: n < 2 ==> FindFileExtent(EPSON_QX10, dir, KeyOf(TWIN), 0, n) == 0
  {
    hide Fsck.Sound, Fsck.KindOf, Fsck.FsckGeometry, ValidGeometry, Fsck.NoSharedBlocks, Fsck.NoDuplicateExtents,
         UniqueExtents;
    var dir := [TWIN, TWIN.(extnol := 1)];
    ListedFormatsAreValid();
    TwinSound(TWIN);
    TwinSound(TWIN.(extnol := 1));
    NoBlocksToShare(dir);
    TwinsDiffer(dir);
    TwinsFound(dir);
  }

  lemma NoBlocksToShare(dir: seq<DirEntry>)
    requires forall i, k: nat :: 0 <= i < |dir| && k < PointersPerEntry(EPSON_QX10) ==> Ptr(EPSON_QX10, dir[i], k) == 0
    ensures Fsck.NoSharedBlocks(EPSON_QX10, dir)
  {
    hide Ptr;
  }

  lemma TwinsDiffer(dir: seq<DirEntry>)
    requires dir == [TWIN, TWIN.(extnol := 1)]
    ensures Fsck.NoDuplicateExtents(EPSON_QX10, dir)
  {
    hide KeyOf, ExtentNumber, Fsck.IsFile;
    LowNumber(dir[0]);
    LowNumber(dir[1]);
  }

  lemma LowNumber(e: DirEntry)
    requires e.extnoh == 0 && e.extnol < 32
    ensures ExtentNumber(e) == e.extnol
  {}

  lemma TwinsFound(dir: seq<DirEntry>)
    requires dir == [TWIN, TWIN.(extnol := 1)] && ValidGeometry(EPSON_QX10)
    ensures !UniqueExtents(EPSON_QX10, dir)
    ensures forall n: nat :: n < 2 ==> FindFileExtent(EPSON_QX10, dir, KeyOf(TWIN), 0, n) == 0
  {
    hide KeyOf, ExtentNumber, ValidGeometry, FindFileExtent;
    LowNumber(dir[0]);
    LowNumber(dir[1]);
    SameName(dir[0], dir[1]);
    assert PhysicalOf(EPSON_QX10, dir[0]) == PhysicalOf(EPSON_QX10, dir[1]) == 0;
    forall n: nat | n < 2 ensures FindFileExtent(EPSON_QX10, dir, KeyOf(TWIN), 0, n) == 0 {
      FirstIsFound(EPSON_QX10, dir, KeyOf(TWIN), n);
    }
  }

  lemma SameName(e: DirEntry, e': DirEntry)
    requires e' == e.(extnol := e'.extnol)
    ensures KeyOf(e') == KeyOf(e)
  {}

  lemma FirstIsFound(g: Geometry, dir: seq<DirEntry>, f: Key, n: nat)
    requires ValidGeometry(g) && dir != [] && Matches(g, dir[0], f, n)
    ensures FindFileExtent(g, dir, f, 0, n) == 0
  {
    hide ValidGeometry, Matches;
  }

  lemma TwinSound(e: DirEntry)
    requires e == TWIN || e == TWIN.(extnol := 1)
    ensures Fsck.FsckGeometry(EPSON_QX10) && Fsck.KindOf(EPSON_QX10, e) == Fsck.FileKind && Fsck.Sound(EPSON_QX10, e)
    ensures forall k: nat :: k < PointersPerEntry(EPSON_QX10) ==> Ptr(EPSON_QX10, e, k) == 0
  {
    hide Fsck.SoundRecordCount, Fsck.SoundPointers;
    EmptyIsSound(EPSON_QX10, e);
    NoPointers(EPSON_QX10, e);
  }

  lemma {:induction false} NoneCounted(g: Geometry, e: DirEntry, k: nat, end: nat)
    requires e.pointers == ZEROS16 && k <= end <= PointersPerEntry(g)
    ensures Fsck.CountPointers(g, e, k, end) == 0
    decreases end - k
  {
    if k < end {
      NoneCounted(g, e, k + 1, end);
    }
  }
}
