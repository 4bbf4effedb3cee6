/** Drive geometry and the arithmetic that turns a file position into a physical
    extent, a pointer slot and an offset inside a block. */
module Geometry {
  import opened Arithmetic

  type byte = b: int | 0 <= b < 256

  /** The feature bits of `CPMFS_*`; the named formats are combinations of them. */
  datatype OsType = OsType(hiUser: bool, cpm3Dates: bool, cpm3Other: bool, exactSize: bool,
                           mpmDates: bool, hasXfcbs: bool)

  const CPMFS_DR22 := OsType(true, false, false, false, false, false)
  const CPMFS_P2DOS := OsType(true, true, false, false, false, false)
  const CPMFS_DR3 := OsType(true, true, true, false, false, true)
  const CPMFS_MPM := OsType(true, false, true, false, true, true)

  datatype Geometry = Geometry(
    secLength: nat,   // bytes per sector
    sectrk: nat,      // sectors per track
    tracks: nat,
    blksiz: nat,      // bytes per block
    maxdir: nat,      // directory entries
    dirblks: nat,     // blocks reserved for the directory
    boottrk: nat,     // system tracks before block 0
    offset: nat,      // volume offset inside the image
    size: nat,        // blocks on the volume
    extents: nat,     // logical extents per physical extent
    os: OsType)

  /** Formats without MP/M time stamps, which are kept where other entries have block pointers. */
  predicate NoMpmDates(g: Geometry) {
    !g.os.mpmDates
  }

  /** Size of a logical extent. */
  const LOGICAL_EXTENT := 16384

  /** Largest number of logical extents a file may have: 5 + 6 bits of extent number. */
  const MAX_EXTENTS := 2048

  /** Longest file the extent number can address. */
  const MAX_FILE := 33554432

  function PointersPerEntry(g: Geometry): nat {
    if g.size <= 256 then 16 else 8
  }

  /** Bytes covered by one directory entry, as computed by `cpmRead` and `cpmWrite`. */
  function ExtentCapacity(g: Geometry): nat {
    var capacity := PointersPerEntry(g) * g.blksiz;
    if capacity > LOGICAL_EXTENT then LOGICAL_EXTENT * g.extents else capacity
  }

  /** The block sizes for which an entry holds whole logical extents. */
  predicate ValidBlockSize(blksiz: nat) {
    blksiz == 1024 || blksiz == 2048 || blksiz == 4096 || blksiz == 8192 || blksiz == 16384
  }

  /** The numbers of logical extents `fsck` can split an entry's pointers into. */
  predicate ValidExtents(extents: nat) {
    extents == 1 || extents == 2 || extents == 4 || extents == 8 || extents == 16
  }

  ghost predicate ValidGeometry(g: Geometry) {
    && ValidBlockSize(g.blksiz)
    && 1 <= g.extents
    && LOGICAL_EXTENT * g.extents <= PointersPerEntry(g) * g.blksiz
    && 0 < g.secLength && g.blksiz % g.secLength == 0
    && 0 < g.sectrk && g.boottrk <= g.tracks
    && 0 < g.maxdir && g.maxdir * 32 <= g.dirblks * g.blksiz
    && 1 <= g.dirblks <= g.size <= 65536
    && g.size * g.blksiz <= (g.tracks - g.boottrk) * g.sectrk * g.secLength
  }

  /** The number of logical extents `diskdefReadSuper` picks when none is configured. */
  predicate DefaultExtents(g: Geometry) {
    LOGICAL_EXTENT * g.extents == PointersPerEntry(g) * g.blksiz
  }

  /** Two listed formats: `ibm-3740` with one logical extent per entry, `epsqx10` with two. */
  const IBM_3740 := Geometry(128, 26, 77, 1024, 64, 2, 2, 0, 243, 1, CPMFS_DR22)
  const EPSON_QX10 := Geometry(512, 20, 40, 2048, 128, 2, 2, 0, 190, 2, CPMFS_DR22)

  /** Volume size and logical extents as `diskdefReadSuper` derives them. */
  predicate DerivedSize(g: Geometry)
    requires 0 < g.blksiz
  {
    g.size == g.secLength * g.sectrk * (g.tracks - g.boottrk) / g.blksiz && DefaultExtents(g)
  }

  lemma ListedFormatsAreValid()
    ensures ValidGeometry(IBM_3740) && DerivedSize(IBM_3740)
    ensures ValidGeometry(EPSON_QX10) && DerivedSize(EPSON_QX10)
  {}

  /** The physical extent a file position falls in. */
  function PhysicalExtent(g: Geometry, pos: nat): nat
    requires ValidGeometry(g)
  {
    hide ValidGeometry, ExtentCapacity;
    CapacityNotZero(g);
    pos / ExtentCapacity(g)
  }

  lemma CapacityNotZero(g: Geometry)
    requires ValidGeometry(g)
    ensures 0 < ExtentCapacity(g)
  {
    CapacityIsLogical(g);
  }

  /** The pointer slot a file position uses inside its extent. */
  function Slot(g: Geometry, pos: nat): (k: nat)
    requires ValidGeometry(g)
    ensures k < PointersPerEntry(g)
  {
    CapacityInBlocks(g);
    ModOfMultiple(pos, BlocksPerExtent(g), g.blksiz);
    pos % ExtentCapacity(g) / g.blksiz
  }

  function Offset(g: Geometry, pos: nat): (o: nat)
    requires ValidGeometry(g)
    ensures o < g.blksiz
  {
    pos % g.blksiz
  }

  function BlocksPerExtent(g: Geometry): nat
    requires ValidGeometry(g)
  {
    ExtentCapacity(g) / g.blksiz
  }

  /** First file position of slot `k` of physical extent `x`. */
  function SlotStart(g: Geometry, x: nat, k: nat): nat
    requires ValidGeometry(g)
  {
    x * ExtentCapacity(g) + k * g.blksiz
  }

  /** Blocks needed for `len` bytes. */
  function BlocksFor(g: Geometry, len: nat): nat
    requires ValidGeometry(g)
  {
    if len == 0 then 0 else (len - 1) / g.blksiz + 1
  }

  lemma CapacityIsLogical(g: Geometry)
    requires ValidGeometry(g)
    ensures ExtentCapacity(g) == LOGICAL_EXTENT * g.extents
  {}

  lemma CapacityInBlocks(g: Geometry)
    requires ValidGeometry(g)
    ensures 0 < BlocksPerExtent(g) <= PointersPerEntry(g)
    ensures BlocksPerExtent(g) * g.blksiz == ExtentCapacity(g)
  {
    CapacityIsLogical(g);
    var c := LOGICAL_EXTENT * g.extents;
    assert c % g.blksiz == 0;
  }

  /** A position is its slot's start plus its offset. */
  lemma PositionSplits(g: Geometry, pos: nat)
    requires ValidGeometry(g)
    ensures pos == SlotStart(g, PhysicalExtent(g, pos), Slot(g, pos)) + Offset(g, pos)
    ensures Slot(g, pos) < BlocksPerExtent(g)
  {
    var c := ExtentCapacity(g);
    CapacityInBlocks(g);
    ModOfMultiple(pos, BlocksPerExtent(g), g.blksiz);
    DivModEquation(pos, c);
    DivModEquation(pos % c, g.blksiz);
  }

  /** Extent, slot and offset can be chosen freely, and the position they name yields them back. */
  lemma PositionOf(g: Geometry, x: nat, k: nat, o: nat)
    requires ValidGeometry(g) && k < BlocksPerExtent(g) && o < g.blksiz
    ensures PhysicalExtent(g, SlotStart(g, x, k) + o) == x
    ensures Slot(g, SlotStart(g, x, k) + o) == k
    ensures Offset(g, SlotStart(g, x, k) + o) == o
  {
    var c, s := ExtentCapacity(g), BlocksPerExtent(g);
    var pos := SlotStart(g, x, k) + o;
    CapacityInBlocks(g);
    assert k * g.blksiz + o < c by {
      MulMonotone(k + 1, s, g.blksiz);
      assert (k + 1) * g.blksiz == k * g.blksiz + g.blksiz;
    }
    DivModUnique(pos, c, x, k * g.blksiz + o);
    DivModUnique(k * g.blksiz + o, g.blksiz, k, o);
    ModOfMultiple(pos, s, g.blksiz);
  }

  /** Positions that stay inside the block of `pos` share its extent and slot. */
  lemma SameBlock(g: Geometry, pos: nat, j: nat)
    requires ValidGeometry(g) && Offset(g, pos) + j < g.blksiz
    ensures PhysicalExtent(g, pos + j) == PhysicalExtent(g, pos)
    ensures Slot(g, pos + j) == Slot(g, pos)
    ensures Offset(g, pos + j) == Offset(g, pos) + j
  {
    PositionSplits(g, pos);
    PositionOf(g, PhysicalExtent(g, pos), Slot(g, pos), Offset(g, pos) + j);
  }

  /** Two positions in one extent and slot lie in one block-sized window. */
  lemma SameSlotClose(g: Geometry, p: nat, q: nat)
    requires ValidGeometry(g)
    requires PhysicalExtent(g, p) == PhysicalExtent(g, q) && Slot(g, p) == Slot(g, q)
    ensures p - Offset(g, p) == q - Offset(g, q)
  {
    PositionSplits(g, p);
    PositionSplits(g, q);
  }

  lemma ExtentBounds(g: Geometry, pos: nat, x: nat)
    requires ValidGeometry(g)
    ensures PhysicalExtent(g, pos) == x <==> SlotStart(g, x, 0) <= pos < SlotStart(g, x + 1, 0)
  {
    var c, q := ExtentCapacity(g), PhysicalExtent(g, pos);
    DivModEquation(pos, c);
    if x < q {
      MulMonotone(x + 1, q, c);
    } else if q < x {
      MulMonotone(q + 1, x, c);
      assert (q + 1) * c == q * c + c;
    } else {
      assert (x + 1) * c == x * c + c;
    }
  }

  lemma ExtentMonotone(g: Geometry, p: nat, q: nat)
    requires ValidGeometry(g) && p <= q
    ensures PhysicalExtent(g, p) <= PhysicalExtent(g, q)
  {
    var x := PhysicalExtent(g, p);
    var y := PhysicalExtent(g, q);
    ExtentBounds(g, p, x);
    ExtentBounds(g, q, y);
    if y < x {
      MulMonotone(y + 1, x, ExtentCapacity(g));
    }
  }

  /** The extent number stored in an entry determines the physical extent of its positions. */
  lemma PhysicalOfLogical(g: Geometry, pos: nat)
    requires ValidGeometry(g)
    ensures pos / LOGICAL_EXTENT / g.extents == PhysicalExtent(g, pos)
  {
    CapacityIsLogical(g);
    DivDiv(pos, LOGICAL_EXTENT, g.extents);
  }
}
