/** What `fsck` says about volumes written by this file system: miscounted blocks at most, and exactly when. */
module FsckClean {
  import opened Arithmetic
  import opened Geometry
  import opened Directory
  import opened Volume
  import opened Invariant
  import opened Refinement
  import opened Overwrites
  import opened Xfcbs
  import opened Runs
  import Fsck

  /** A name `fsck` accepts: a non-blank base name in the file character set, a user it knows. */
  predicate CleanKey(g: Geometry, f: Key) {
    f.user <= Fsck.FileLimit(g) && Fsck.SoundName(f.name) && Fsck.SoundExt(f.ext)
  }

  /** Every entry belongs to a file, or is one `fsck` accepts: unused, for stamps, or a disk label. */
  ghost predicate OthersSound(g: Geometry, dir: seq<DirEntry>)
    requires Fsck.FsckGeometry(g)
  {
    forall i: nat :: i < |dir| ==> Live(g, dir[i]) || Fsck.Sound(g, dir[i])
  }

  lemma FsckGeometryValid(g: Geometry)
    requires ValidGeometry(g) && ValidExtents(g.extents)
    ensures Fsck.FsckGeometry(g)
  {}

  // ----- counting the blocks of the last logical extent ---------------------------------------------

  /** Records round up to blocks: 128-byte granularity loses nothing. */
  lemma RecordsToBlocks(t: nat, blksiz: nat)
    requires ValidBlockSize(blksiz) && 0 < t
    ensures (((t - 1) / 128 + 1) * 128 + blksiz - 1) / blksiz == (t - 1) / blksiz + 1
  {
    var m := blksiz / 128;
    assert blksiz == 128 * m && 0 < m;
    DivDiv(t - 1, 128, m);
    RoundedUp((t - 1) / 128, m);
  }

  lemma RoundedUp(u: nat, m: nat)
    requires 0 < m
    ensures ((u + 1) * 128 + 128 * m - 1) / (128 * m) == u / m + 1
  {
    DivModEquation(u, m);
    assert (u / m + 1) * (128 * m) == 128 * (u / m * m) + 128 * m;
    DivModUnique((u + 1) * 128 + 128 * m - 1, 128 * m, u / m + 1, 128 * (u % m) + 127);
  }

  /** A logical extent is a whole number of blocks. */
  lemma BlocksInLogical(r: nat, t: nat, blksiz: nat)
    requires ValidBlockSize(blksiz) && 0 < t
    ensures (r * LOGICAL_EXTENT + t - 1) / blksiz == r * (LOGICAL_EXTENT / blksiz) + (t - 1) / blksiz
  {}

  /** Slots `0..m` of an entry are used, the rest are not. */
  ghost predicate UsesFirst(g: Geometry, e: DirEntry, m: nat) {
    forall k: nat :: k < PointersPerEntry(g) ==> (Ptr(g, e, k) != 0 <==> k < m)
  }

  lemma {:induction false} CountFirst(g: Geometry, e: DirEntry, m: nat, k: nat, end: nat)
    requires UsesFirst(g, e, m) && k <= end <= PointersPerEntry(g)
    ensures Fsck.CountPointers(g, e, k, end) == if m <= k then 0 else if m < end then m - k else end - k
    decreases end - k
  {
    hide Ptr;
    if k < end {
      CountFirst(g, e, m, k + 1, end);
    }
  }

  lemma SlotNeeded(g: Geometry, x: nat, k: nat, len: nat)
    requires ValidGeometry(g)
    ensures SlotStart(g, x, k) < SlotStart(g, x, 0) + len <==> k < BlocksFor(g, len)
  {
    if len > 0 {
      DivModEquation(len - 1, g.blksiz);
      var q := (len - 1) / g.blksiz;
      if k <= q {
        MulMonotone(k, q, g.blksiz);
      } else {
        MulMonotone(q + 1, k, g.blksiz);
        assert (q + 1) * g.blksiz == q * g.blksiz + g.blksiz;
      }
    }
  }

  /** Bytes of a file of `size` bytes that fall in physical extent `x`. */
  function BytesIn(g: Geometry, x: nat, size: nat): (n: nat)
    requires ValidGeometry(g)
    ensures 0 < n ==> SlotStart(g, x, 0) + n == Min(size, SlotStart(g, x + 1, 0))
    ensures n == 0 ==> size <= SlotStart(g, x, 0)
  {
    CapacityIsPositive(g);
    SlotBeforeNext(g, x, 0);
    if size <= SlotStart(g, x, 0) then 0 else Min(size, SlotStart(g, x + 1, 0)) - SlotStart(g, x, 0)
  }

  /** The entry of a file uses exactly the slots its bytes need. */
  lemma EntryUsesFirst(g: Geometry, v: Volume, i: nat, files: Files)
    requires Consistent(g, v) && i < |v.dir| && Live(g, v.dir[i]) && EntryContents(g, v, i, files)
    ensures UsesFirst(g, v.dir[i], BlocksFor(g, BytesIn(g, PhysicalOf(g, v.dir[i]), |files[KeyOf(v.dir[i])]|)))
  {
    hide ValidGeometry, KeyOf, PhysicalOf, Ptr, BlocksFor, Consistent, BytesIn, SlotStart, HoldsBytes, NoBlocksBehind;
    ConsistentIsMounted(g, v);
    var x, n := PhysicalOf(g, v.dir[i]), |files[KeyOf(v.dir[i])]|;
    var len := BytesIn(g, x, n);
    forall k: nat | k < PointersPerEntry(g) ensures Ptr(g, v.dir[i], k) != 0 <==> k < BlocksFor(g, len) {
      SlotNeeded(g, x, k, len);
      SlotUsed(g, v, i, files, k);
      SlotsAscend(g, x, k);
    }
  }

  lemma SlotsAscend(g: Geometry, x: nat, k: nat)
    requires ValidGeometry(g)
    ensures SlotStart(g, x, 0) <= SlotStart(g, x, k)
  {
    MulMonotone(0, k, g.blksiz);
  }

  lemma SlotUsed(g: Geometry, v: Volume, i: nat, files: Files, k: nat)
    requires Consistent(g, v) && i < |v.dir| && Live(g, v.dir[i]) && EntryContents(g, v, i, files)
    requires k < PointersPerEntry(g)
    ensures var x, n := PhysicalOf(g, v.dir[i]), |files[KeyOf(v.dir[i])]|;
      Ptr(g, v.dir[i], k) != 0 <==> SlotStart(g, x, k) < Min(n, SlotStart(g, x + 1, 0))
  {
    hide ValidGeometry, KeyOf, PhysicalOf, Ptr, NoSharing, UniqueExtents, AlvOf, BlocksPerExtent, SlotStart;
    var e, f := v.dir[i], KeyOf(v.dir[i]);
    var x, n := PhysicalOf(g, e), |files[f]|;
    var p := SlotStart(g, x, k);
    assert LivePtr(g, e, k) == Ptr(g, e, k);
    SlotBeforeNext(g, x, k);
    if k < BlocksPerExtent(g) {
      CapacityIsPositive(g);
      PositionOf(g, x, k, 0);
      if p < n {
        assert ByteAt(g, v.data, LivePtr(g, e, Slot(g, p)), Offset(g, p), files[f][p]);
      }
    }
  }

  lemma SlotBeforeNext(g: Geometry, x: nat, k: nat)
    requires ValidGeometry(g)
    ensures SlotStart(g, x, k) < SlotStart(g, x + 1, 0) <==> k < BlocksPerExtent(g)
  {
    CapacityInBlocks(g);
    var n := BlocksPerExtent(g);
    assert (x + 1) * ExtentCapacity(g) == x * ExtentCapacity(g) + n * g.blksiz;
    if k < n {
      MulMonotone(k + 1, n, g.blksiz);
      assert (k + 1) * g.blksiz == k * g.blksiz + g.blksiz;
    } else {
      MulMonotone(n, k, g.blksiz);
    }
  }

  // ----- the entries of a file ---------------------------------------------------------------------

  /** `fsck` sees each logical extent's slots where the file system puts them. */
  predicate SplitsEvenly(g: Geometry) {
    g.extents == 1 || DefaultExtents(g)
  }

  /** What an entry that records its end holds in its packed fields. */
  lemma RecordedFields(g: Geometry, e: DirEntry, size: nat, exact: bool)
    requires ValidGeometry(g) && RecordsEnd(g, e, size, exact)
    ensures e.extnol <= 0x1f && e.extnoh <= 0x3f && e.lrc <= 128
    ensures var n := BytesIn(g, PhysicalOf(g, e), size);
      if n == 0 then e.blkcnt == 0
      else
        var end := SlotStart(g, PhysicalOf(g, e), 0) + n;
        && 0 < end && Reaches(ExtentNumber(e), end, exact) && e.blkcnt == (end - 1) % LOGICAL_EXTENT / 128 + 1
        && e == WithEnd(g, e, ExtentNumber(e), end)
  {
    hide ValidGeometry, BytesIn, SlotStart, PhysicalOf, Reaches;
    var x := PhysicalOf(g, e);
    var end := Min(size, SlotStart(g, x + 1, 0));
    NextExtentLater(g, x);
    if end != SlotStart(g, x, 0) {
      assert e.blkcnt == (end - 1) % LOGICAL_EXTENT / 128 + 1;
    }
  }

  lemma NextExtentLater(g: Geometry, x: nat)
    requires ValidGeometry(g)
    ensures SlotStart(g, x, 0) < SlotStart(g, x + 1, 0)
  {
    CapacityIsPositive(g);
    SlotBeforeNext(g, x, 0);
  }

  /** The logical extent `fsck` takes for the last of an entry, and the one that is. */
  lemma LastLogical(g: Geometry, e: DirEntry, size: nat, exact: bool)
    requires ValidGeometry(g) && ValidExtents(g.extents) && RecordsEnd(g, e, size, exact)
    requires 0 < BytesIn(g, PhysicalOf(g, e), size)
    ensures var len, seen := BytesIn(g, PhysicalOf(g, e), size), e.extnol % g.extents;
      var last, end := (len - 1) / LOGICAL_EXTENT, SlotStart(g, PhysicalOf(g, e), 0) + len;
      && last < g.extents && seen <= last && (exact ==> seen == last)
      && (seen == last <==> ExtentNumber(e) == (end - 1) / LOGICAL_EXTENT)
      && e.blkcnt == (len - 1) % LOGICAL_EXTENT / 128 + 1
  {
    hide ValidGeometry, BytesIn, RecordsEnd, ExtentCapacity, ExtentNumber, ValidExtents;
    GeometryParts(g);
    RecordedFields(g, e, size, exact);
    var x := PhysicalOf(g, e);
    var len := BytesIn(g, x, size);
    CapacityIsLogical(g);
    LowBitsSuffice(e, g.extents);
    DivModEquation(ExtentNumber(e), g.extents);
    SplitEnd(x, g.extents, len);
    LastPieceFits(g, x, size);
  }

  lemma SplitEnd(x: nat, extents: nat, len: nat)
    requires 0 < len
    ensures var before := x * (LOGICAL_EXTENT * extents) + len - 1;
      && before / LOGICAL_EXTENT == x * extents + (len - 1) / LOGICAL_EXTENT
      && before % LOGICAL_EXTENT == (len - 1) % LOGICAL_EXTENT
  {
    assert x * (LOGICAL_EXTENT * extents) == LOGICAL_EXTENT * (x * extents);
  }

  lemma LastPieceFits(g: Geometry, x: nat, size: nat)
    requires ValidGeometry(g) && 0 < BytesIn(g, x, size)
    ensures (BytesIn(g, x, size) - 1) / LOGICAL_EXTENT < g.extents
  {
    hide ValidGeometry, BytesIn, ExtentCapacity;
    CapacityIsLogical(g);
    var c := LOGICAL_EXTENT * g.extents;
    assert (x + 1) * c == x * c + c;
  }

  lemma GeometryParts(g: Geometry)
    requires ValidGeometry(g)
    ensures ValidBlockSize(g.blksiz) && 0 < g.extents && 0 < g.blksiz
  {}

  lemma LowBitsSuffice(e: DirEntry, extents: nat)
    requires ValidExtents(extents) && e.extnol < 32
    ensures ExtentNumber(e) % extents == e.extnol % extents
  {
    var low, high := e.extnol, e.extnoh % 64;
    match extents {
      case 1 =>
      case 2 => MultipleAdded(low, 16 * high, 2);
      case 4 => MultipleAdded(low, 8 * high, 4);
      case 8 => MultipleAdded(low, 4 * high, 8);
      case _ => MultipleAdded(low, 2 * high, 16);
    }
  }

  lemma MultipleAdded(a: nat, q: nat, d: nat)
    requires 0 < d
    ensures (a + d * q) % d == a % d
  {
    DivModEquation(a, d);
    assert (a / d + q) * d == a / d * d + d * q;
    DivModUnique(a + d * q, d, a / d + q, a % d);
  }

  lemma SlotsCover(g: Geometry)
    requires ValidGeometry(g) && Fsck.FsckGeometry(g)
    ensures 0 < LOGICAL_EXTENT / g.blksiz <= Fsck.SlotsPerLogical(g)
    ensures g.extents != 1 ==> (DefaultExtents(g) <==> LOGICAL_EXTENT / g.blksiz == Fsck.SlotsPerLogical(g))
  {}

  /** The slots of the logical extent `seen` by `fsck` show the blocks of the `last` one, which holds `t` bytes:
      they are its slots, or all of them are in use and it needs as many. */
  predicate ShowsLast(g: Geometry, seen: nat, last: nat, t: nat)
    requires ValidGeometry(g) && Fsck.FsckGeometry(g)
  {
    || last * (LOGICAL_EXTENT / g.blksiz) == seen * Fsck.SlotsPerLogical(g)
    || BlocksFor(g, t) == Fsck.SlotsPerLogical(g)
  }

  /** `fsck` counts the blocks the record count of the entry asks for. */
  predicate Counted(g: Geometry, e: DirEntry, size: nat)
    requires ValidGeometry(g) && Fsck.FsckGeometry(g)
  {
    var len := BytesIn(g, PhysicalOf(g, e), size);
    len == 0 || ShowsLast(g, e.extnol % g.extents, (len - 1) / LOGICAL_EXTENT, (len - 1) % LOGICAL_EXTENT + 1)
  }

  /** Of the `n` slots of logical extent `seen`, where the first `last * m + c` slots are in use, as many are as the
      count asks for. */
  lemma CountAgrees(seen: nat, last: nat, m: nat, n: nat, c: nat)
    requires 0 < c <= m <= n && seen <= last
    ensures var used, first := last * m + c, seen * n;
      c == (if used <= first then 0 else if used < first + n then used - first else n) <==>
        last * m == seen * n || c == n
  {
    if c == n {
      MulMonotone(seen, last, n);
    }
  }

  lemma ExactAgrees(last: nat, m: nat, n: nat, c: nat)
    requires 0 < c <= m <= n
    ensures last * m == last * n || c == n <==> m == n || last == 0
  {
    if m < n && last != 0 {
      MulMonotone(m + 1, n, last);
      assert (m + 1) * last == m * last + last;
    }
  }

  lemma BlocksOfLast(g: Geometry, len: nat)
    requires ValidGeometry(g) && 0 < len
    ensures var last, t := (len - 1) / LOGICAL_EXTENT, (len - 1) % LOGICAL_EXTENT + 1;
      && BlocksFor(g, len) == last * (LOGICAL_EXTENT / g.blksiz) + BlocksFor(g, t)
      && 0 < BlocksFor(g, t) == (t - 1) / g.blksiz + 1 <= LOGICAL_EXTENT / g.blksiz
  {
    BlocksInLogical((len - 1) / LOGICAL_EXTENT, (len - 1) % LOGICAL_EXTENT + 1, g.blksiz);
  }

  /** The record count of phase 1 agrees with the slots in use exactly under that condition. */
  lemma RecordCountSound(g: Geometry, e: DirEntry, size: nat)
    requires ValidGeometry(g) && ValidExtents(g.extents) && Fsck.FsckGeometry(g) && RecordsEnd(g, e, size, false)
    requires UsesFirst(g, e, BlocksFor(g, BytesIn(g, PhysicalOf(g, e), size)))
    ensures Fsck.SoundRecordCount(g, e) <==> Counted(g, e, size)
  {
    hide ValidGeometry, UsesFirst, RecordsEnd, BlocksFor, BytesIn, PhysicalOf, Fsck.SlotsPerLogical,
         Fsck.CountPointers, Fsck.FsckGeometry, ValidExtents, Fsck.FirstSlot, ShowsLast;
    var len := BytesIn(g, PhysicalOf(g, e), size);
    var first, n := Fsck.FirstSlot(g, e), Fsck.SlotsPerLogical(g);
    Fsck.LastLogicalExtent(g, e);
    CountFirst(g, e, BlocksFor(g, len), first, first + n);
    if len > 0 {
      LastLogical(g, e, size, false);
      LastCounted(g, e, len);
    } else {
      RecordedFields(g, e, size, false);
      NothingCountedFor(g, e);
    }
  }

  lemma NothingCountedFor(g: Geometry, e: DirEntry)
    requires ValidGeometry(g) && e.blkcnt == 0
    ensures 0 < g.blksiz && BlocksFor(g, 0) == 0 && (e.blkcnt * 128 + g.blksiz - 1) / g.blksiz == 0
  {
    GeometryParts(g);
    NothingNeeded(g);
  }

  lemma LastCounted(g: Geometry, e: DirEntry, len: nat)
    requires ValidGeometry(g) && Fsck.FsckGeometry(g) && 0 < len && e.blkcnt == (len - 1) % LOGICAL_EXTENT / 128 + 1
    requires e.extnol % g.extents <= (len - 1) / LOGICAL_EXTENT
    ensures var first, n, used := Fsck.FirstSlot(g, e), Fsck.SlotsPerLogical(g), BlocksFor(g, len);
      var counted := if used <= first then 0 else if used < first + n then used - first else n;
      (e.blkcnt * 128 + g.blksiz - 1) / g.blksiz == counted <==>
        ShowsLast(g, e.extnol % g.extents, (len - 1) / LOGICAL_EXTENT, (len - 1) % LOGICAL_EXTENT + 1)
  {
    hide ValidGeometry, BlocksFor, Fsck.SlotsPerLogical, Fsck.FsckGeometry;
    var t := (len - 1) % LOGICAL_EXTENT + 1;
    GeometryParts(g);
    SlotsCover(g);
    BlocksOfLast(g, len);
    RecordsToBlocks(t, g.blksiz);
    CountAgrees(e.extnol % g.extents, (len - 1) / LOGICAL_EXTENT, LOGICAL_EXTENT / g.blksiz, Fsck.SlotsPerLogical(g),
                BlocksFor(g, t));
  }

  /** Where the extent number is exact, that is on formats whose pointers split evenly, and in entries that end in
      their first logical extent. */
  lemma ExactCounted(g: Geometry, e: DirEntry, size: nat)
    requires ValidGeometry(g) && ValidExtents(g.extents) && Fsck.FsckGeometry(g) && RecordsEnd(g, e, size, true)
    ensures Counted(g, e, size) <==> SplitsEvenly(g) || BytesIn(g, PhysicalOf(g, e), size) <= LOGICAL_EXTENT
  {
    hide ValidGeometry, RecordsEnd, BlocksFor, BytesIn, PhysicalOf, Fsck.SlotsPerLogical, Fsck.FsckGeometry,
         ValidExtents, DefaultExtents;
    var len := BytesIn(g, PhysicalOf(g, e), size);
    if len > 0 {
      LastLogical(g, e, size, true);
      SlotsCover(g);
      BlocksOfLast(g, len);
      ExactAgrees((len - 1) / LOGICAL_EXTENT, LOGICAL_EXTENT / g.blksiz, Fsck.SlotsPerLogical(g),
                  BlocksFor(g, (len - 1) % LOGICAL_EXTENT + 1));
    }
  }

  lemma NothingNeeded(g: Geometry)
    requires ValidGeometry(g)
    ensures BlocksFor(g, 0) == 0 && (g.blksiz - 1) / g.blksiz == 0
  {}

  lemma StrippedNameSound(e: DirEntry)
    requires Fsck.SoundName(KeyOf(e).name) && Fsck.SoundExt(KeyOf(e).ext)
    ensures Fsck.SoundName(e.name) && Fsck.SoundExt(e.ext)
  {
    assert forall i :: 0 <= i < 8 ==> KeyOf(e).name[i] % 128 == e.name[i] % 128;
    assert forall i :: 0 <= i < 3 ==> KeyOf(e).ext[i] % 128 == e.ext[i] % 128;
  }

  lemma PointersSound(g: Geometry, dir: seq<DirEntry>, i: nat)
    requires ValidGeometry(g) && PointersOk(g, dir) && i < |dir| && Live(g, dir[i])
    ensures Fsck.SoundPointers(g, dir[i])
  {
    hide ValidGeometry, Ptr, BlocksPerExtent;
    forall k: nat | k < PointersPerEntry(g) && Ptr(g, dir[i], k) != 0
      ensures g.dirblks <= Ptr(g, dir[i], k) < g.size
    {
      assert LivePtr(g, dir[i], k) == Ptr(g, dir[i], k);
    }
  }

  /** An entry of a file the engine wrote has nothing wrong with it but what `fsck` miscounts. */
  lemma EntrySound(g: Geometry, v: Volume, i: nat, files: Files)
    requires Consistent(g, v) && ValidExtents(g.extents) && Fsck.FsckGeometry(g) && i < |v.dir| && Live(g, v.dir[i])
    requires EntryContents(g, v, i, files) && RecordsEnd(g, v.dir[i], |files[KeyOf(v.dir[i])]|, false)
    requires CleanKey(g, KeyOf(v.dir[i]))
    ensures Fsck.Sound(g, v.dir[i]) <==> Counted(g, v.dir[i], |files[KeyOf(v.dir[i])]|)
  {
    hide ValidGeometry, PointersOk, NoSharing, UniqueExtents, AlvOf, RecordsEnd, HoldsBytes, NoBlocksBehind, Counted,
         UsesFirst, ValidExtents, Fsck.FsckGeometry, Fsck.SoundRecordCount, Fsck.SoundPointers, Fsck.SoundName,
         Fsck.SoundExt, Live;
    var size := |files[KeyOf(v.dir[i])]|;
    StrippedNameSound(v.dir[i]);
    PointersSound(g, v.dir, i);
    RecordedFields(g, v.dir[i], size, false);
    EntryUsesFirst(g, v, i, files);
    RecordCountSound(g, v.dir[i], size);
  }

  /** All entries of the file pass phase 1. */
  ghost predicate FileSound(g: Geometry, dir: seq<DirEntry>, f: Key)
    requires Fsck.FsckGeometry(g)
  {
    forall i :: 0 <= i < |dir| && Live(g, dir[i]) && KeyOf(dir[i]) == f ==> Fsck.Sound(g, dir[i])
  }

  ghost predicate FileCounted(g: Geometry, dir: seq<DirEntry>, f: Key, size: nat)
    requires ValidGeometry(g) && Fsck.FsckGeometry(g)
  {
    forall i :: 0 <= i < |dir| && Live(g, dir[i]) && KeyOf(dir[i]) == f ==> Counted(g, dir[i], size)
  }

  /** What phase 1 finds about a file is that its record counts disagree, and nothing else. */
  lemma FileIsSound(g: Geometry, v: Volume, files: Files, f: Key)
    requires Holds(g, v, files) && Ended(g, v.dir, files, false) && ValidExtents(g.extents) && Fsck.FsckGeometry(g)
    requires f in files && CleanKey(g, f)
    ensures FileSound(g, v.dir, f) <==> FileCounted(g, v.dir, f, |files[f]|)
  {
    hide ValidGeometry, PointersOk, NoSharing, UniqueExtents, AlvOf, RecordsEnd, HoldsBytes, NoBlocksBehind, Complete,
         Fsck.FsckGeometry, Fsck.Sound, KeyOf, ValidExtents, CleanKey, Counted, Live;
    forall i: nat | i < |v.dir| && Live(g, v.dir[i]) && KeyOf(v.dir[i]) == f
      ensures Fsck.Sound(g, v.dir[i]) <==> Counted(g, v.dir[i], |files[f]|)
    {
      assert EntryContents(g, v, i, files);
      EntrySound(g, v, i, files);
    }
  }

  /** With exact sizes, `fsck` rejects a file if and only if it is longer than 16 KiB and the format does not
      split evenly. */
  lemma SizedFileIsSound(g: Geometry, v: Volume, files: Files, f: Key)
    requires Refines(g, v, files) && ValidExtents(g.extents) && Fsck.FsckGeometry(g) && f in files && CleanKey(g, f)
    ensures FileSound(g, v.dir, f) <==> SplitsEvenly(g) || |files[f]| <= LOGICAL_EXTENT
  {
    hide ValidGeometry, Consistent, Contents, Ended, Fsck.FsckGeometry, ValidExtents, CleanKey, FileSound,
         FileCounted, SplitsEvenly;
    HoldsValid(g, v, files);
    LooselyEnded(g, v.dir, files);
    FileIsSound(g, v, files, f);
    SizedFileCounted(g, v, files, f);
  }

  lemma SizedFileCounted(g: Geometry, v: Volume, files: Files, f: Key)
    requires Refines(g, v, files) && ValidGeometry(g) && ValidExtents(g.extents) && Fsck.FsckGeometry(g) && f in files
    ensures FileCounted(g, v.dir, f, |files[f]|) <==> SplitsEvenly(g) || |files[f]| <= LOGICAL_EXTENT
  {
    hide ValidGeometry, Consistent, Contents, RecordsEnd, Fsck.FsckGeometry, KeyOf, ValidExtents, Counted, Live,
         SplitsEvenly, BytesIn;
    forall i: nat | i < |v.dir| && Live(g, v.dir[i]) && KeyOf(v.dir[i]) == f
      ensures Counted(g, v.dir[i], |files[f]|) <==>
                SplitsEvenly(g) || BytesIn(g, PhysicalOf(g, v.dir[i]), |files[f]|) <= LOGICAL_EXTENT
      ensures BytesIn(g, PhysicalOf(g, v.dir[i]), |files[f]|) <= |files[f]|
    {
      ExactCounted(g, v.dir[i], |files[f]|);
      BytesAtMost(g, PhysicalOf(g, v.dir[i]), |files[f]|);
    }
    if !SplitsEvenly(g) && LOGICAL_EXTENT < |files[f]| {
      var i := FirstEntry(g, v, files, f);
      LongInFirst(g, |files[f]|);
    }
  }

  lemma LooselyEnded(g: Geometry, dir: seq<DirEntry>, files: Files)
    requires ValidGeometry(g) && Ended(g, dir, files, true)
    ensures Ended(g, dir, files, false)
  {
    hide ValidGeometry, KeyOf, Live, SlotStart, PhysicalOf, WithEnd;
    forall i: nat | i < |dir| && Live(g, dir[i]) ensures RecordsEnd(g, dir[i], |files[KeyOf(dir[i])]|, false) {
      assert RecordsEnd(g, dir[i], |files[KeyOf(dir[i])]|, true);
    }
  }

  lemma BytesAtMost(g: Geometry, x: nat, size: nat)
    requires ValidGeometry(g)
    ensures BytesIn(g, x, size) <= size
  {
    hide ValidGeometry;
  }

  lemma LongInFirst(g: Geometry, size: nat)
    requires ValidGeometry(g) && !SplitsEvenly(g) && LOGICAL_EXTENT < size
    ensures LOGICAL_EXTENT < BytesIn(g, 0, size)
  {
    CapacityIsLogical(g);
    GeometryParts(g);
  }

  lemma FirstEntry(g: Geometry, v: Volume, files: Files, f: Key) returns (i: nat)
    requires Holds(g, v, files) && f in files && 0 < |files[f]|
    ensures i < |v.dir| && Live(g, v.dir[i]) && KeyOf(v.dir[i]) == f && PhysicalOf(g, v.dir[i]) == 0
  {
    hide ValidGeometry, PointersOk, NoSharing, UniqueExtents, AlvOf, KeyOf, Live, PhysicalOf;
    assert Complete(g, v.dir, f, |files[f]|);
    assert HasExtent(g, v.dir, f, PhysicalExtent(g, 0));
    FirstExtent(g);
    i :| 0 <= i < |v.dir| && Live(g, v.dir[i]) && KeyOf(v.dir[i]) == f && PhysicalOf(g, v.dir[i]) == 0;
  }

  lemma FirstExtent(g: Geometry)
    requires ValidGeometry(g)
    ensures PhysicalExtent(g, 0) == 0
  {
    CapacityIsLogical(g);
  }

  /** Phase 2 finds nothing: no block has two owners, no extent two entries. */
  lemma NothingShared(g: Geometry, v: Volume)
    requires Consistent(g, v) && Fsck.FsckGeometry(g)
    ensures Fsck.NoSharedBlocks(g, v.dir) && Fsck.NoDuplicateExtents(g, v.dir)
  {
    hide ValidGeometry, PointersOk, AlvOf, Fsck.FsckGeometry, Ptr, KeyOf, ExtentNumber;
    forall x: nat, k: nat, y: nat, l: nat | x < |v.dir| && k < PointersPerEntry(g) && y < |v.dir| &&
      l < PointersPerEntry(g)
      ensures !Fsck.SharedBlock(g, v.dir, x, k, y, l)
    {
      FileIsLive(g, v.dir[x]);
      FileIsLive(g, v.dir[y]);
      assert LivePtr(g, v.dir[x], k) == LivePtr(g, v.dir[y], l) && LivePtr(g, v.dir[x], k) != 0 ==> x == y && k == l;
    }
    forall x: nat, y: nat | x < |v.dir| && y < |v.dir| ensures !Fsck.DuplicateExtent(g, v.dir, x, y) {
      FileIsLive(g, v.dir[x]);
      FileIsLive(g, v.dir[y]);
    }
  }

  ghost predicate AllSound(g: Geometry, dir: seq<DirEntry>)
    requires Fsck.FsckGeometry(g)
  {
    forall i :: 0 <= i < |dir| ==> Fsck.Sound(g, dir[i])
  }

  ghost predicate AllCounted(g: Geometry, dir: seq<DirEntry>, files: Files)
    requires ValidGeometry(g) && Fsck.FsckGeometry(g)
  {
    forall f :: f in files ==> FileCounted(g, dir, f, |files[f]|)
  }

  /** What `fsck` finds about a volume that holds files with clean names and records their ends is miscounted
      blocks, and nothing else: no wrong field, no shared block, no extent twice. */
  lemma VolumeIsSound(g: Geometry, v: Volume, files: Files)
    requires Holds(g, v, files) && Ended(g, v.dir, files, false) && ValidExtents(g.extents) && Fsck.FsckGeometry(g)
    requires OthersSound(g, v.dir) && forall f :: f in files ==> CleanKey(g, f)
    ensures Fsck.NoSharedBlocks(g, v.dir) && Fsck.NoDuplicateExtents(g, v.dir)
    ensures AllSound(g, v.dir) <==> AllCounted(g, v.dir, files)
  {
    hide ValidGeometry, Consistent, Contents, RecordsEnd, Fsck.FsckGeometry, Fsck.SoundFile, KeyOf, ValidExtents,
         CleanKey, FileCounted, Fsck.NoSharedBlocks, Fsck.NoDuplicateExtents, Fsck.SoundPassword;
    HoldsValid(g, v, files);
    NothingShared(g, v);
    forall f | f in files ensures FileSound(g, v.dir, f) <==> FileCounted(g, v.dir, f, |files[f]|) {
      FileIsSound(g, v, files, f);
    }
    if AllCounted(g, v.dir, files) {
      forall i: nat | i < |v.dir| ensures Fsck.Sound(g, v.dir[i]) {
        if Live(g, v.dir[i]) {
          assert FileSound(g, v.dir, KeyOf(v.dir[i]));
        }
      }
    }
  }

  /** With exact sizes, that is nothing if and only if the format splits evenly or no file is longer than 16 KiB. */
  lemma SizedVolumeIsSound(g: Geometry, v: Volume, files: Files)
    requires Refines(g, v, files) && ValidExtents(g.extents) && Fsck.FsckGeometry(g)
    requires OthersSound(g, v.dir) && forall f :: f in files ==> CleanKey(g, f)
    ensures AllSound(g, v.dir) <==> SplitsEvenly(g) || forall f :: f in files ==> |files[f]| <= LOGICAL_EXTENT
  {
    hide ValidGeometry, Consistent, Contents, Ended, Fsck.FsckGeometry, ValidExtents, CleanKey, FileCounted,
         FileSound, AllSound, OthersSound, SplitsEvenly;
    HoldsValid(g, v, files);
    LooselyEnded(g, v.dir, files);
    VolumeIsSound(g, v, files);
    forall f | f in files
      ensures FileCounted(g, v.dir, f, |files[f]|) <==> SplitsEvenly(g) || |files[f]| <= LOGICAL_EXTENT
    {
      FileIsSound(g, v, files, f);
      SizedFileIsSound(g, v, files, f);
    }
  }

  /** A format with two logical extents per entry where the pointers could cover four, and the entry of a file
      of 16385 bytes on it: slots 0 to 4 are used, and `fsck` looks for the last of them in slots 8 to 15. */
  const UNEVEN := Geometry(128, 32, 77, 4096, 64, 1, 2, 0, 75, 2, CPMFS_DR22)
  const UNEVEN_ENTRY: DirEntry :=
    Entry(0, BLANKS8, BLANKS3, 1, 1, 0, 1, [1, 2, 3, 4, 5, 0, 0, 0, 0, 0, 0, 0, 0, 0, 0, 0])

  lemma UnevenEntryUnsound()
    ensures ValidGeometry(UNEVEN) && ValidExtents(UNEVEN.extents) && !SplitsEvenly(UNEVEN)
    ensures RecordsEnd(UNEVEN, UNEVEN_ENTRY, 16385, true)
    ensures UsesFirst(UNEVEN, UNEVEN_ENTRY, BlocksFor(UNEVEN, 16385))
    ensures !Fsck.SoundRecordCount(UNEVEN, UNEVEN_ENTRY)
  {
    UnevenDescribed();
    UnevenUses();
    CountFirst(UNEVEN, UNEVEN_ENTRY, 5, 8, 16);
  }

  lemma SecondLogical(g: Geometry, e: DirEntry)
    requires ValidGeometry(g) && g.extents == 2 && ExtentNumber(e) == 1
    ensures PhysicalOf(g, e) == 0 && SlotStart(g, 0, 0) == 0 && SlotStart(g, 1, 0) == 32768
  {
    CapacityIsLogical(g);
  }

  lemma UnevenNumber()
    ensures ExtentNumber(UNEVEN_ENTRY) == 1
  {}

  lemma UnevenDescribed()
    requires ValidGeometry(UNEVEN)
    ensures RecordsEnd(UNEVEN, UNEVEN_ENTRY, 16385, true)
  {
    hide ValidGeometry, SlotStart, PhysicalOf, ExtentNumber, WithEnd;
    UnevenNumber();
    SecondLogical(UNEVEN, UNEVEN_ENTRY);
    UnevenEnd();
  }

  lemma UnevenEnd()
    ensures UNEVEN_ENTRY == WithEnd(UNEVEN, UNEVEN_ENTRY, 1, 16385)
  {
    var end: nat := 16385;
    assert (end - 1) % LOGICAL_EXTENT / 128 + 1 == 1;
    assert LastRecordBytes(UNEVEN, end) == 1;
  }

  lemma UnevenUses()
    ensures UsesFirst(UNEVEN, UNEVEN_ENTRY, 5)
  {}

  lemma FileIsLive(g: Geometry, e: DirEntry)
    ensures Fsck.IsFile(g, e) ==> Live(g, e)
  {}

  // ----- runs ------------------------------------------------------------------------------------------

  /** Names a call introduces are ones `fsck` accepts. */
  predicate CleanOp(g: Geometry, op: Op) {
    match op
    case CreatOp(f, t) => CleanKey(g, f)
    case RenameOp(from, to) => CleanKey(g, to)
    case _ => true
  }

  lemma FilesStayClean(g: Geometry, v: Volume, files: Files, op: Op)
    requires Holds(g, v, files) && Mounted(g, v) && Legal(g, v, op) && Placed(g, v, files, op) && CleanOp(g, op)
    requires forall f :: f in files ==> CleanKey(g, f)
    ensures forall f :: f in FilesAfter(g, v, files, op) ==> CleanKey(g, f)
  {
    hide Consistent, Contents, WellSized, PointersInRange, ValidGeometry, CleanKey, KeyOf, Write, CursorFits,
         KeepsTail, Overwritten, Twin;
    if op.RenameOp? && op.from in files {
      if g.os.hasXfcbs {
        TwinIsUnclean(g, op.from);
        TwinIsUnclean(g, op.to);
      }
    }
  }

  /** `fsck` takes no XFCB for a file. */
  lemma TwinIsUnclean(g: Geometry, f: Key)
    requires CleanKey(g, f) && g.os.hasXfcbs
    ensures !CleanKey(g, Twin(f))
  {}

  /** Of a stamp entry `fsck` looks at the status alone. */
  lemma OthersStaySound(g: Geometry, dir: seq<DirEntry>, dir': seq<DirEntry>)
    requires Fsck.FsckGeometry(g) && OthersSound(g, dir) && KeepsOthers(g, dir, dir')
    ensures OthersSound(g, dir')
  {
    hide Fsck.SoundFile, Fsck.SoundLabel, Fsck.SoundXfcb, Fsck.FsckGeometry;
    forall i: nat | i < |dir'| ensures Live(g, dir'[i]) || Fsck.Sound(g, dir'[i]) {
      assert Live(g, dir[i]) || Fsck.Sound(g, dir[i]);
      FileIsLive(g, dir'[i]);
      FileIsLive(g, dir[i]);
    }
  }

  /** A run brings in no entries of other kinds and no names it was not given. */
  lemma {:induction false} RunStaysClean(g: Geometry, v: Volume, files: Files, ops: seq<Op>)
    requires Holds(g, v, files) && PlacedRun(g, v, files, ops) && LegalRun(g, v, ops)
    requires Fsck.FsckGeometry(g) && OthersSound(g, v.dir)
    requires forall f :: f in files ==> CleanKey(g, f)
    requires forall j :: 0 <= j < |ops| ==> CleanOp(g, ops[j])
    ensures OthersSound(g, Run(g, v, ops).dir)
    ensures forall f :: f in RunFiles(g, v, files, ops) ==> CleanKey(g, f)
    decreases |ops|
  {
    hide Consistent, Step, Legal, Contents, Placed, OthersSound, KeepsOthers, CleanKey, FilesAfter, CleanOp;
    if |ops| > 0 {
      ConsistentIsMounted(g, v);
      StepHolds(g, v, files, ops[0]);
      StepKeepsOthers(g, v, ops[0]);
      OthersStaySound(g, v.dir, Step(g, v, ops[0]).dir);
      FilesStayClean(g, v, files, ops[0]);
      RunStaysClean(g, Step(g, v, ops[0]), FilesAfter(g, v, files, ops[0]), ops[1..]);
    }
  }

  /** Whatever is created, appended, renamed, unlinked and synced, in whatever order and however full the volume
      gets, `fsck` finds nothing but miscounted blocks. If in addition no append crosses a 16 KiB boundary inside
      an entry, it finds those if and only if the format does not split evenly and a file is longer than 16 KiB. */
  lemma RunIsSound(g: Geometry, v: Volume, files: Files, ops: seq<Op>)
    requires Holds(g, v, files) && Ended(g, v.dir, files, false)
    requires AppendingRun(g, v, files, ops) && PlacedRun(g, v, files, ops) && LegalRun(g, v, ops)
    requires ValidExtents(g.extents) && Fsck.FsckGeometry(g) && OthersSound(g, v.dir)
    requires forall f :: f in files ==> CleanKey(g, f)
    requires forall j :: 0 <= j < |ops| ==> CleanOp(g, ops[j])
    ensures ValidGeometry(g)
    ensures var w, files' := Run(g, v, ops), RunFiles(g, v, files, ops);
      && Fsck.NoSharedBlocks(g, w.dir) && Fsck.NoDuplicateExtents(g, w.dir)
      && (AllSound(g, w.dir) <==> AllCounted(g, w.dir, files'))
      && (Refines(g, v, files) && (forall j :: 0 <= j < |ops| ==> CountsRight(g, ops[j])) ==>
            (AllSound(g, w.dir) <==> SplitsEvenly(g) || forall f :: f in files' ==> |files'[f]| <= LOGICAL_EXTENT))
  {
    hide Consistent, Contents, Ended, AppendingRun, PlacedRun, LegalRun, Run, RunFiles, SplitsEvenly,
         Fsck.FsckGeometry, OthersSound, CleanKey, AllSound, AllCounted, Fsck.NoSharedBlocks, Fsck.NoDuplicateExtents,
         CleanOp, ValidExtents, CountsRight, ValidGeometry;
    HoldsValid(g, v, files);
    RunHolds(g, v, files, ops);
    RunEnded(g, v, files, ops, false);
    RunStaysClean(g, v, files, ops);
    VolumeIsSound(g, Run(g, v, ops), RunFiles(g, v, files, ops));
    if Refines(g, v, files) && (forall j :: 0 <= j < |ops| ==> CountsRight(g, ops[j])) {
      RunRefines(g, v, files, ops);
      SizedVolumeIsSound(g, Run(g, v, ops), RunFiles(g, v, files, ops));
    }
  }
}
