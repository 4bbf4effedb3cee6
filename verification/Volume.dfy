/** The mounted volume as a value, and every operation of the file system as a function on it.
    The block contents are the logical ones: sector order is resolved by module Blocks. */
module Volume {
  import opened Wrappers
  import opened Arithmetic
  import opened Geometry
  import opened Directory

  /** In-core directory and allocation vector, and the blocks of the image.
      `slack` is the rest of the directory buffer behind entry `maxdir - 1`. */
  datatype Volume = Volume(dir: seq<DirEntry>, slack: seq<byte>, alv: seq<bool>,
                           data: seq<seq<byte>>, dirty: bool)

  /** Blocks `cpmReadSuper` and `cpmSync` transfer for the directory. */
  function DirectoryBlocks(g: Geometry): nat
    requires ValidGeometry(g)
  {
    (g.maxdir * 32 + g.blksiz - 1) / g.blksiz
  }

  /** Bytes of the directory buffer behind the last entry. */
  function SlackBytes(g: Geometry): nat
    requires ValidGeometry(g)
  {
    DirectoryFits(g);
    DirectoryBlocks(g) * g.blksiz - g.maxdir * 32
  }

  lemma DirectoryFits(g: Geometry)
    requires ValidGeometry(g)
    ensures g.maxdir * 32 <= DirectoryBlocks(g) * g.blksiz
    ensures 0 < DirectoryBlocks(g) <= g.dirblks
  {
    var n := g.maxdir * 32 + g.blksiz - 1;
    DivModEquation(n, g.blksiz);
    QuotientBound(n, g.blksiz, g.dirblks);
  }

  /** Bits of the allocation vector: a whole number of 32-bit words covering the data tracks. */
  function AlvBits(g: Geometry): nat
    requires ValidGeometry(g)
  {
    ((g.tracks - g.boottrk) * g.sectrk * g.secLength / g.blksiz + 31) / 32 * 32
  }

  ghost predicate WellSized(g: Geometry, v: Volume)
    requires ValidGeometry(g)
  {
    && |v.dir| == g.maxdir
    && |v.slack| == SlackBytes(g)
    && |v.alv| == AlvBits(g)
    && |v.data| == g.size
    && forall b :: 0 <= b < g.size ==> |v.data[b]| == g.blksiz
  }

  /** No file points behind the end of the volume; `writeBlock` asserts as much. */
  ghost predicate PointersInRange(g: Geometry, dir: seq<DirEntry>) {
    forall i, k :: 0 <= i < |dir| && 0 <= k < PointersPerEntry(g) ==> LivePtr(g, dir[i], k) < g.size
  }

  ghost predicate Mounted(g: Geometry, v: Volume) {
    ValidGeometry(g) && WellSized(g, v) && PointersInRange(g, v.dir)
  }

  // ----- allocation ------------------------------------------------------------------

  /** A directory block, or a block some file points to. */
  ghost predicate Used(g: Geometry, dir: seq<DirEntry>, b: nat) {
    b < g.dirblks || (0 < b < g.size && Referenced(g, dir, b))
  }

  ghost predicate Referenced(g: Geometry, dir: seq<DirEntry>, b: nat) {
    exists i, k :: 0 <= i < |dir| && 0 <= k < PointersPerEntry(g) && LivePtr(g, dir[i], k) == b
  }

  /** `alvInit`. */
  ghost function AlvOf(g: Geometry, dir: seq<DirEntry>): (alv: seq<bool>)
    requires ValidGeometry(g)
    ensures |alv| == AlvBits(g)
    ensures forall b: nat :: b < |alv| ==> alv[b] == Used(g, dir, b)
  {
    seq(AlvBits(g), (b: nat) => Used(g, dir, b))
  }

  /** The smallest free bit from `b` on, or `|alv|`. */
  function FirstFree(alv: seq<bool>, b: nat): (r: nat)
    requires b <= |alv|
    ensures b <= r <= |alv|
    ensures forall j :: b <= j < r ==> alv[j]
    ensures r < |alv| ==> !alv[r]
    decreases |alv| - b
  {
    if b == |alv| || !alv[b] then b else FirstFree(alv, b + 1)
  }

  /** `allocBlock`: the block taken, -1 when the device is full. */
  function AllocBlock(g: Geometry, alv: seq<bool>): (r: int)
    ensures r == -1 || 0 <= r < g.size
    ensures 0 <= r ==> r < |alv| && !alv[r] && forall j :: 0 <= j < r ==> alv[j]
    ensures r == -1 ==> forall j :: 0 <= j < g.size && j < |alv| ==> alv[j]
  {
    var b := FirstFree(alv, 0);
    if b < |alv| && b < g.size then b else -1
  }

  lemma AlvCoversVolume(g: Geometry)
    requires ValidGeometry(g)
    ensures g.size <= AlvBits(g)
  {
    var bytes := (g.tracks - g.boottrk) * g.sectrk * g.secLength;
    DivModEquation(bytes, g.blksiz);
  }

  // ----- storing bytes into one block --------------------------------------------------

  function Overlay(buffer: seq<byte>, at: nat, bytes: seq<byte>): (r: seq<byte>)
    requires at + |bytes| <= |buffer|
    ensures |r| == |buffer|
    ensures forall j :: 0 <= j < |r| ==>
      r[j] == if at <= j < at + |bytes| then bytes[j - at] else buffer[j]
  {
    buffer[..at] + bytes + buffer[at + |bytes|..]
  }

  function Zeros(n: nat): seq<byte> {
    seq(n, _ => 0)
  }

  /** Start of the sector holding offset `j` of a block. */
  function SectorStart(g: Geometry, j: nat): (r: nat)
    requires ValidGeometry(g) && j < g.blksiz
    ensures r <= j < r + g.secLength <= g.blksiz
  {
    var n := g.blksiz / g.secLength;
    DivModEquation(j, g.secLength);
    DivModEquation(g.blksiz, g.secLength);
    assert (j / g.secLength + 1) * g.secLength == j / g.secLength * g.secLength + g.secLength;
    assert j / g.secLength + 1 <= n by {
      if n <= j / g.secLength {
        MulMonotone(n, j / g.secLength, g.secLength);
      }
    }
    MulMonotone(j / g.secLength + 1, n, g.secLength);
    j / g.secLength * g.secLength
  }

  /** The sector of offset `j` of a block, copied to the same place of `buffer`. */
  function FetchSector(g: Geometry, buffer: seq<byte>, block: seq<byte>, j: nat): (r: seq<byte>)
    requires ValidGeometry(g) && |buffer| == LOGICAL_EXTENT && |block| == g.blksiz && j < g.blksiz
    ensures |r| == LOGICAL_EXTENT
  {
    var at := SectorStart(g, j);
    Overlay(buffer, at, block[at..at + g.secLength])
  }

  /** The local buffer of `cpmWrite` when it starts to copy `n` bytes to offset `o` of a block:
      cleared for a fresh block, otherwise with the partly overwritten sectors fetched. */
  function Prepared(g: Geometry, buffer: seq<byte>, block: seq<byte>, isNew: bool, o: nat, n: nat): (r: seq<byte>)
    requires ValidGeometry(g) && |buffer| == LOGICAL_EXTENT && |block| == g.blksiz
    requires 0 < n && o + n <= g.blksiz
    ensures |r| == LOGICAL_EXTENT
  {
    if isNew then Overlay(buffer, 0, Zeros(g.blksiz))
    else
      var first := if o % g.secLength != 0 then FetchSector(g, buffer, block, o) else buffer;
      if SectorStart(g, o + n - 1) != SectorStart(g, o) && o + n < g.blksiz && (o + n) % g.secLength != 0
      then FetchSector(g, first, block, o + n - 1)
      else first
  }

  /** The block after sectors covering the modified range are written back from `filled`. */
  function WrittenBack(g: Geometry, filled: seq<byte>, block: seq<byte>, isNew: bool, o: nat, n: nat): (r: seq<byte>)
    requires ValidGeometry(g) && |filled| == LOGICAL_EXTENT && |block| == g.blksiz
    requires 0 < n && o + n <= g.blksiz
    ensures |r| == g.blksiz
  {
    if isNew then filled[..g.blksiz]
    else
      var start := SectorStart(g, o);
      var end := SectorStart(g, o + n - 1) + g.secLength;
      Overlay(block, start, filled[start..end])
  }

  /** One pass of `cpmWrite` over a block: the new block and the local buffer it leaves behind. */
  function StoreInBlock(g: Geometry, buffer: seq<byte>, block: seq<byte>, isNew: bool, o: nat, bytes: seq<byte>)
    : (r: (seq<byte>, seq<byte>))
    requires ValidGeometry(g) && |buffer| == LOGICAL_EXTENT && |block| == g.blksiz
    requires 0 < |bytes| && o + |bytes| <= g.blksiz
    ensures |r.0| == g.blksiz && |r.1| == LOGICAL_EXTENT
  {
    var filled := Overlay(Prepared(g, buffer, block, isNew, o, |bytes|), o, bytes);
    (WrittenBack(g, filled, block, isNew, o, |bytes|), filled)
  }

  /** In front of the new bytes, the first sector written back holds what the block holds. */
  lemma PreparedPrefix(g: Geometry, buffer: seq<byte>, block: seq<byte>, isNew: bool, o: nat, n: nat, j: nat)
    requires ValidGeometry(g) && |buffer| == LOGICAL_EXTENT && |block| == g.blksiz
    requires 0 < n && o + n <= g.blksiz && j < o
    requires isNew || SectorStart(g, o) <= j
    ensures Prepared(g, buffer, block, isNew, o, n)[j] == if isNew then 0 else block[j]
  {
    if !isNew {
      DivModEquation(o, g.secLength);
      assert SectorStart(g, o) == o - o % g.secLength;
      assert o % g.secLength != 0;
      assert FetchSector(g, buffer, block, o)[j] == block[j];
    }
  }

  /** Whatever the uninitialised buffer held: the bytes arrive, and the block keeps what it had
      before them (a new block reads as zeros). */
  lemma StoreKeepsPrefix(g: Geometry, buffer: seq<byte>, block: seq<byte>, isNew: bool, o: nat, bytes: seq<byte>,
                         j: nat)
    requires ValidGeometry(g) && |buffer| == LOGICAL_EXTENT && |block| == g.blksiz
    requires 0 < |bytes| && o + |bytes| <= g.blksiz && j < o + |bytes|
    ensures StoreInBlock(g, buffer, block, isNew, o, bytes).0[j]
         == if o <= j then bytes[j - o] else if isNew then 0 else block[j]
  {
    var first, last := SectorStart(g, o), SectorStart(g, o + |bytes| - 1);
    if j < o && (isNew || first <= j) {
      PreparedPrefix(g, buffer, block, isNew, o, |bytes|, j);
    }
  }

  /** A new block holds the bytes stored in it and zeros everywhere else, whatever the buffer and the block held. */
  lemma StoreClearsNew(g: Geometry, buffer: seq<byte>, block: seq<byte>, o: nat, bytes: seq<byte>, j: nat)
    requires ValidGeometry(g) && |buffer| == LOGICAL_EXTENT && |block| == g.blksiz
    requires 0 < |bytes| && o + |bytes| <= g.blksiz && j < g.blksiz
    ensures StoreInBlock(g, buffer, block, true, o, bytes).0[j] == if o <= j < o + |bytes| then bytes[j - o] else 0
  {
    hide ValidGeometry;
    BlockFitsBuffer(g);
  }

  /** The partly overwritten sectors are fetched, or there are none: the store covers whole sectors at
      its end, starts inside a sector, or reaches into a second one. */
  predicate KeepsRest(g: Geometry, o: nat, n: nat)
    requires ValidGeometry(g) && 0 < n && o + n <= g.blksiz
  {
    o % g.secLength != 0 || (o + n) % g.secLength == 0 || SectorStart(g, o) != SectorStart(g, o + n - 1)
  }

  /** Behind the new bytes, the block gets back what the uninitialised buffer held. */
  predicate FromBuffer(g: Geometry, o: nat, n: nat, j: nat)
    requires ValidGeometry(g) && 0 < n && o + n <= g.blksiz
  {
    !KeepsRest(g, o, n) && j < SectorStart(g, o + n - 1) + g.secLength
  }

  lemma StoreRest(g: Geometry, buffer: seq<byte>, block: seq<byte>, o: nat, bytes: seq<byte>, j: nat)
    requires ValidGeometry(g) && |buffer| == LOGICAL_EXTENT && |block| == g.blksiz
    requires 0 < |bytes| && o + |bytes| <= j < g.blksiz
    ensures StoreInBlock(g, buffer, block, false, o, bytes).0[j] == if FromBuffer(g, o, |bytes|, j) then buffer[j]
      else block[j]
  {
    hide ValidGeometry, Prepared, SectorStart, KeepsRest;
    BlockFitsBuffer(g);
    LastSectorEnd(g, o, |bytes|);
    if j < SectorStart(g, o + |bytes| - 1) + g.secLength {
      PreparedRest(g, buffer, block, o, |bytes|, j);
    }
  }

  lemma BlockFitsBuffer(g: Geometry)
    requires ValidGeometry(g)
    ensures g.blksiz <= LOGICAL_EXTENT
  {}

  /** Whatever the uninitialised buffer holds, a store into an existing block leaves the bytes behind it
      alone exactly under that condition. */
  lemma StoreKeepsRest(g: Geometry, block: seq<byte>, o: nat, bytes: seq<byte>)
    requires ValidGeometry(g) && |block| == g.blksiz && 0 < |bytes| && o + |bytes| <= g.blksiz
    ensures KeepsRest(g, o, |bytes|) <==>
      forall buffer: seq<byte>, j: nat :: |buffer| == LOGICAL_EXTENT && o + |bytes| <= j < g.blksiz ==>
        StoreInBlock(g, buffer, block, false, o, bytes).0[j] == block[j]
  {
    hide ValidGeometry, StoreInBlock, KeepsRest;
    if KeepsRest(g, o, |bytes|) {
      forall buffer: seq<byte>, j: nat | |buffer| == LOGICAL_EXTENT && o + |bytes| <= j < g.blksiz
        ensures StoreInBlock(g, buffer, block, false, o, bytes).0[j] == block[j]
      {
        StoreRest(g, buffer, block, o, bytes, j);
      }
    } else {
      var j := o + |bytes|;
      RestExists(g, o, |bytes|);
      var other: byte := if block[j] == 0 then 1 else 0;
      var buffer := seq<byte>(LOGICAL_EXTENT, _ => other);
      StoreRest(g, buffer, block, o, bytes, j);
      assert buffer[j] != block[j];
    }
  }

  lemma RestExists(g: Geometry, o: nat, n: nat)
    requires ValidGeometry(g) && 0 < n && o + n <= g.blksiz && !KeepsRest(g, o, n)
    ensures o + n < g.blksiz <= LOGICAL_EXTENT && o + n < SectorStart(g, o + n - 1) + g.secLength
  {
    hide ValidGeometry, SectorStart;
    BlockFitsBuffer(g);
    LastSectorEnd(g, o, n);
  }

  /** A store that ends inside a sector ends before that sector does. */
  lemma LastSectorEnd(g: Geometry, o: nat, n: nat)
    requires ValidGeometry(g) && 0 < n && o + n <= g.blksiz
    ensures (o + n) % g.secLength != 0 ==> o + n < SectorStart(g, o + n - 1) + g.secLength
    ensures (o + n) % g.secLength == 0 ==> o + n == SectorStart(g, o + n - 1) + g.secLength
  {
    hide ValidGeometry;
    SectorStartIs(g, o + n - 1);
    EndOfQuotient(o + n, g.secLength);
  }

  lemma SectorStartIs(g: Geometry, j: nat)
    requires ValidGeometry(g) && j < g.blksiz
    ensures 0 < g.secLength && SectorStart(g, j) == j / g.secLength * g.secLength
  {}

  lemma EndOfQuotient(e: nat, d: nat)
    requires 0 < e && 0 < d
    ensures e % d != 0 ==> e < (e - 1) / d * d + d
    ensures e % d == 0 ==> e == (e - 1) / d * d + d
  {
    var q, r := (e - 1) / d, (e - 1) % d;
    DivModEquation(e - 1, d);
    if r + 1 < d {
      DivModUnique(e, d, q, r + 1);
    } else {
      assert (q + 1) * d == q * d + d;
      DivModUnique(e, d, q + 1, 0);
    }
  }

  lemma FetchedByte(g: Geometry, buffer: seq<byte>, block: seq<byte>, j: nat, k: nat)
    requires ValidGeometry(g) && |buffer| == LOGICAL_EXTENT && |block| == g.blksiz && j < g.blksiz && k < g.blksiz
    requires g.blksiz <= LOGICAL_EXTENT
    ensures FetchSector(g, buffer, block, j)[k] ==
      if SectorStart(g, j) <= k < SectorStart(g, j) + g.secLength then block[k] else buffer[k]
  {
    hide ValidGeometry, SectorStart;
  }

  /** Behind the new bytes, the last sector written back holds what was fetched into it. */
  lemma PreparedRest(g: Geometry, buffer: seq<byte>, block: seq<byte>, o: nat, n: nat, j: nat)
    requires ValidGeometry(g) && |buffer| == LOGICAL_EXTENT && |block| == g.blksiz && g.blksiz <= LOGICAL_EXTENT
    requires 0 < n && o + n <= g.blksiz && o + n <= j < SectorStart(g, o + n - 1) + g.secLength
    ensures KeepsRest(g, o, n) ==> Prepared(g, buffer, block, false, o, n)[j] == block[j]
    ensures !KeepsRest(g, o, n) ==> Prepared(g, buffer, block, false, o, n)[j] == buffer[j]
  {
    hide ValidGeometry, SectorStart, FetchSector;
    LastSectorEnd(g, o, n);
    var first := if o % g.secLength != 0 then FetchSector(g, buffer, block, o) else buffer;
    FetchedByte(g, buffer, block, o, j);
    FetchedByte(g, first, block, o + n - 1, j);
  }

  // ----- cpmWrite -----------------------------------------------------------------------

  /** `extent` and `extentno` of the C loop, once `findext` is settled. */
  datatype Cursor = Cursor(extent: nat, extentno: nat)

  /** The entry `cpmWrite` makes for a new extent, before any block is attached to it. */
  function ExtentEntry(like: DirEntry, extentno: nat): DirEntry {
    WithExtentNumber(like.(pointers := ZEROS16, blkcnt := 0, lrc := 0), extentno)
  }

  /** The `findext` branch: the entry for the extent of `pos`, taken from a free slot if missing. */
  function OpenExtent(g: Geometry, v: Volume, ino: nat, pos: nat): (r: Option<(Volume, Cursor)>)
    requires ValidGeometry(g) && ino < |v.dir|
    ensures r.Some? ==> |r.value.0.dir| == |v.dir| && r.value.1.extent < |v.dir|
  {
    var extentno := pos / LOGICAL_EXTENT;
    var i := FindFileExtent(g, v.dir, KeyOf(v.dir[ino]), 0, extentno);
    if i != -1 then Some((v, Cursor(i, extentno)))
    else
      var j := FindFreeExtent(v.dir, 0);
      if j == -1 then None
      else Some((v.(dir := v.dir[j := ExtentEntry(v.dir[ino], extentno)]), Cursor(j, extentno)))
  }

  /** The `findblock` branch: the block for slot `k` of entry `i`, allocated if the slot is empty. */
  function OpenBlock(g: Geometry, v: Volume, i: nat, k: nat): (r: Option<(Volume, nat, bool)>)
    requires i < |v.dir| && k < PointersPerEntry(g)
    ensures r.Some? ==> |r.value.0.dir| == |v.dir|
  {
    var b := Ptr(g, v.dir[i], k);
    if b != 0 then Some((v, b, false))
    else
      var a := AllocBlock(g, v.alv);
      if a == -1 then None
      else Some((v.(dir := v.dir[i := SetPtr(g, v.dir[i], k, a)], alv := v.alv[a := true]), a, true))
  }

  /** `last`: the highest slot in use, 0 when only slot 0 or no slot is. */
  function LastPointer(g: Geometry, e: DirEntry, k: nat): (r: nat)
    requires k < PointersPerEntry(g)
    ensures r <= k && (r == 0 || Ptr(g, e, r) != 0)
    ensures forall j :: r < j <= k ==> Ptr(g, e, j) == 0
  {
    if k == 0 || Ptr(g, e, k) != 0 then k else LastPointer(g, e, k - 1)
  }

  /** The extent number after a block was written: `extentno += (last * blocksize) / extcap`. */
  function AdvancedExtentNumber(g: Geometry, e: DirEntry, extentno: nat): nat
    requires ValidGeometry(g)
  {
    extentno + ExtentAdvance(g, LastPointer(g, e, PointersPerEntry(g) - 1))
  }

  function ExtentAdvance(g: Geometry, last: nat): nat
    requires ValidGeometry(g)
  {
    CapacityIsLogical(g);
    Quotient(last * g.blksiz, ExtentCapacity(g))
  }

  /** The last-record byte count for a file ending at `pos`. */
  function LastRecordBytes(g: Geometry, pos: nat): byte {
    if g.os.exactSize then (128 - pos % 128) % 128 else pos % 128
  }

  /** The entry describing data up to `pos`. */
  function WithEnd(g: Geometry, e: DirEntry, extentno: nat, pos: nat): DirEntry
    requires 0 < pos
  {
    WithExtentNumber(e, extentno).(blkcnt := (pos - 1) % LOGICAL_EXTENT / 128 + 1, lrc := LastRecordBytes(g, pos))
  }

  lemma WithEndFacts(g: Geometry, e: DirEntry, extentno: nat, end: nat)
    requires 0 < end
    ensures var r := WithEnd(g, e, extentno, end);
      && r == WithEnd(g, r, extentno, end) && Live(g, r) == Live(g, e) && KeyOf(r) == KeyOf(e) && r.status == e.status
      && (extentno < MAX_EXTENTS ==> ExtentNumber(r) == extentno)
      && (forall k: nat :: k < PointersPerEntry(g) ==> LivePtr(g, r, k) == LivePtr(g, e, k))
  {
    SamePointers(g, e, WithEnd(g, e, extentno, end));
  }

  /** How an end is recorded: the records the last 16 KiB piece needs, and how far the last of them is filled, or
      falls short of being, which is 0 for a full one. */
  lemma EndFields(g: Geometry, e: DirEntry, extentno: nat, end: nat)
    requires 0 < end
    ensures var r, piece := WithEnd(g, e, extentno, end), (end - 1) % LOGICAL_EXTENT + 1;
      && r == e.(extnol := r.extnol, extnoh := r.extnoh, blkcnt := r.blkcnt, lrc := r.lrc)
      && r.extnol < 32 && r.extnoh < 64
      && (r.blkcnt - 1) * 128 < piece <= r.blkcnt * 128
      && r.lrc < 128
      && (g.os.exactSize ==> piece + r.lrc == r.blkcnt * 128)
      && (!g.os.exactSize ==> r.lrc == if piece == r.blkcnt * 128 then 0 else piece - (r.blkcnt - 1) * 128)
  {
    var last := (end - 1) % LOGICAL_EXTENT;
    SameLastRecord(end, last);
    LastRecord(last, end % 128);
  }

  lemma SameLastRecord(end: nat, last: nat)
    requires 0 < end && last == (end - 1) % 16384
    ensures end % 128 == (last + 1) % 128
  {
    ModOfMultiple(end - 1, 128, 128);
    NextRemainder(end - 1);
    NextRemainder(last);
  }

  lemma NextRemainder(n: nat)
    ensures (n + 1) % 128 == (n % 128 + 1) % 128
  {}

  lemma LastRecord(last: nat, filled: nat)
    requires filled == (last + 1) % 128
    ensures last / 128 * 128 < last + 1 <= (last / 128 + 1) * 128
    ensures (128 - filled) % 128 + last + 1 == (last / 128 + 1) * 128
    ensures filled == if last + 1 == (last / 128 + 1) * 128 then 0 else last + 1 - last / 128 * 128
  {}

  datatype WriteResult = WriteResult(vol: Volume, got: nat, failed: bool, buffer: seq<byte>)

  datatype StepResult = Full(vol: Volume) | Stored(vol: Volume, n: nat, cursor: Option<Cursor>, buffer: seq<byte>)

  /** Bytes one pass stores: up to the end of the block. */
  function PassLength(g: Geometry, pos: nat, count: nat): (n: nat)
    requires ValidGeometry(g) && 0 < count
    ensures 0 < n <= count && Offset(g, pos) + n <= g.blksiz
  {
    if count < g.blksiz - Offset(g, pos) then count else g.blksiz - Offset(g, pos)
  }

  /** Store `bytes` at `pos` into block `b` of entry `c.extent` and describe the new end there. */
  function StorePass(g: Geometry, v: Volume, c: Cursor, b: nat, isNew: bool, pos: nat, bytes: seq<byte>,
                     buffer: seq<byte>)
    : (r: StepResult)
    requires ValidGeometry(g) && WellSized(g, v) && c.extent < |v.dir| && b < g.size
    requires |buffer| == LOGICAL_EXTENT && 0 < |bytes| && Offset(g, pos) + |bytes| <= g.blksiz
    ensures r.Stored? && WellSized(g, r.vol) && |r.buffer| == LOGICAL_EXTENT && r.n == |bytes|
    ensures r.cursor.Some? ==> r.cursor.value.extent == c.extent
  {
    var (block, filled) := StoreInBlock(g, buffer, v.data[b], isNew, Offset(g, pos), bytes);
    var extentno := AdvancedExtentNumber(g, v.dir[c.extent], c.extentno);
    var end := pos + |bytes|;
    var v' := v.(dir := v.dir[c.extent := WithEnd(g, v.dir[c.extent], extentno, end)],
                 data := v.data[b := block], dirty := true);
    Stored(v', |bytes|, if PhysicalExtent(g, end) != PhysicalExtent(g, pos) then None
      else Some(c.(extentno := extentno)), filled)
  }

  lemma OpenExtentMounted(g: Geometry, v: Volume, ino: nat, pos: nat)
    requires Mounted(g, v) && ino < |v.dir| && Live(g, v.dir[ino])
    requires OpenExtent(g, v, ino, pos).Some?
    ensures var (v', c) := OpenExtent(g, v, ino, pos).value;
      Mounted(g, v') && Live(g, v'.dir[ino]) && Live(g, v'.dir[c.extent])
  {
    hide ValidGeometry, PhysicalOf, ExtentLow, ExtentHigh, KeyOf;
    var (v', c) := OpenExtent(g, v, ino, pos).value;
    if FindFileExtent(g, v.dir, KeyOf(v.dir[ino]), 0, pos / LOGICAL_EXTENT) == -1 {
      assert forall k | 0 <= k < PointersPerEntry(g) :: Ptr(g, v'.dir[c.extent], k) == 0;
      assert 0 < g.size by { ValidSize(g); }
    }
  }

  lemma ValidSize(g: Geometry)
    requires ValidGeometry(g)
    ensures 1 <= g.dirblks <= g.size <= 65536
  {}

  lemma OpenBlockMounted(g: Geometry, v: Volume, i: nat, k: nat)
    requires Mounted(g, v) && i < |v.dir| && Live(g, v.dir[i]) && k < PointersPerEntry(g)
    requires OpenBlock(g, v, i, k).Some?
    ensures var (v', b, isNew) := OpenBlock(g, v, i, k).value;
      && Mounted(g, v') && b < g.size
      && forall j :: 0 <= j < |v.dir| ==> v'.dir[j].status == v.dir[j].status
  {
    hide ValidGeometry, SetPtr;
    ValidSize(g);
    var (v', b, isNew) := OpenBlock(g, v, i, k).value;
    if isNew {
      SetPtrFacts(g, v.dir[i], k, b);
    } else {
      assert LivePtr(g, v.dir[i], k) == b;
    }
  }

  lemma StorePassMounted(g: Geometry, v: Volume, c: Cursor, b: nat, isNew: bool, pos: nat, bytes: seq<byte>,
                         buffer: seq<byte>)
    requires Mounted(g, v) && c.extent < |v.dir| && b < g.size
    requires |buffer| == LOGICAL_EXTENT && 0 < |bytes| && Offset(g, pos) + |bytes| <= g.blksiz
    ensures Mounted(g, StorePass(g, v, c, b, isNew, pos, bytes, buffer).vol)
    ensures forall j :: 0 <= j < |v.dir| ==>
      StorePass(g, v, c, b, isNew, pos, bytes, buffer).vol.dir[j].status == v.dir[j].status
  {
    hide ValidGeometry, StoreInBlock, AdvancedExtentNumber, Offset, LivePtr, WithEnd;
    WithEndFacts(g, v.dir[c.extent], AdvancedExtentNumber(g, v.dir[c.extent], c.extentno), pos + |bytes|);
  }

  predicate CursorFits(g: Geometry, v: Volume, cursor: Option<Cursor>) {
    cursor.Some? ==> cursor.value.extent < |v.dir| && Live(g, v.dir[cursor.value.extent])
  }

  ghost predicate Writable(g: Geometry, v: Volume, ino: nat, cursor: Option<Cursor>, buffer: seq<byte>) {
    && Mounted(g, v) && ino < |v.dir| && Live(g, v.dir[ino])
    && CursorFits(g, v, cursor) && |buffer| == LOGICAL_EXTENT
  }

  /** The entry to write to: the cursor's, or the one `findext` settles on. */
  function Opened(g: Geometry, v: Volume, ino: nat, pos: nat, cursor: Option<Cursor>): Option<(Volume, Cursor)>
    requires ValidGeometry(g) && ino < |v.dir|
  {
    if cursor.Some? then Some((v, cursor.value)) else OpenExtent(g, v, ino, pos)
  }

  /** Find or allocate the block of `pos` in the cursor's entry and store as much as fits in it. */
  function BlockPass(g: Geometry, v: Volume, c: Cursor, pos: nat, data: seq<byte>, buffer: seq<byte>): (r: StepResult)
    requires Mounted(g, v) && c.extent < |v.dir| && Live(g, v.dir[c.extent]) && |buffer| == LOGICAL_EXTENT && 0 < |data|
    ensures r.Stored? ==> 0 < r.n <= |data| && |r.buffer| == LOGICAL_EXTENT && Mounted(g, r.vol)
    ensures r.Stored? && r.cursor.Some? ==> r.cursor.value.extent == c.extent
    ensures r.Stored? ==> forall j :: 0 <= j < |v.dir| ==> r.vol.dir[j].status == v.dir[j].status
  {
    hide ValidGeometry;
    match OpenBlock(g, v, c.extent, Slot(g, pos))
    case None => Full(v)
    case Some((v', b, isNew)) =>
      OpenBlockMounted(g, v, c.extent, Slot(g, pos));
      var bytes := data[..PassLength(g, pos, |data|)];
      StorePassMounted(g, v', c, b, isNew, pos, bytes, buffer);
      StorePass(g, v', c, b, isNew, pos, bytes, buffer)
  }

  /** One round of the `while (count > 0)` loop of `cpmWrite`. */
  function WritePass(g: Geometry, v: Volume, ino: nat, pos: nat, cursor: Option<Cursor>, data: seq<byte>,
                     buffer: seq<byte>)
    : (r: StepResult)
    requires Writable(g, v, ino, cursor, buffer) && 0 < |data|
    ensures r.Stored? ==> 0 < r.n <= |data| && Writable(g, r.vol, ino, r.cursor, r.buffer)
  {
    hide ValidGeometry, OpenBlock, StorePass, BlockPass;
    match Opened(g, v, ino, pos, cursor)
    case None => Full(v)
    case Some((v1, c)) =>
      assert Mounted(g, v1) && Live(g, v1.dir[ino]) && Live(g, v1.dir[c.extent]) by {
        if cursor.None? { OpenExtentMounted(g, v, ino, pos); }
      }
      BlockPass(g, v1, c, pos, data, buffer)
  }

  /** `cpmWrite` at `pos` through the inode of entry `ino`; `buffer` is the initial content of its
      uninitialised local buffer. */
  function Write(g: Geometry, v: Volume, ino: nat, pos: nat, cursor: Option<Cursor>, data: seq<byte>, buffer: seq<byte>)
    : (r: WriteResult)
    requires Writable(g, v, ino, cursor, buffer)
    ensures r.got <= |data| && (!r.failed ==> r.got == |data|)
    decreases |data|
  {
    if |data| == 0 then WriteResult(v, 0, false, buffer)
    else
      var step := WritePass(g, v, ino, pos, cursor, data, buffer);
      if step.Full? then WriteResult(step.vol, 0, true, buffer)
      else
        var rest := Write(g, step.vol, ino, pos + step.n, step.cursor, data[step.n..], step.buffer);
        rest.(got := step.n + rest.got)
  }

  // ----- the other operations -------------------------------------------------------------

  datatype Error = NotFound | AlreadyExists | DirectoryFull | IllegalName

  datatype Outcome = Done(vol: Volume) | Failed(error: Error)

  /** The entry `cpmCreat` clears and names. */
  function FreshEntry(f: Key): DirEntry
    requires |f.name| == 8 && |f.ext| == 3
  {
    Entry(f.user, f.name, f.ext, 0, 0, 0, 0, ZEROS16)
  }

  /** `cpmCreat`. */
  function Creat(g: Geometry, v: Volume, f: Key): Outcome
    requires ValidGeometry(g) && |f.name| == 8 && |f.ext| == 3
  {
    if FindFileExtent(g, v.dir, f, 0, -1) != -1 then Failed(AlreadyExists)
    else
      var i := FindFreeExtent(v.dir, 0);
      if i == -1 then Failed(DirectoryFull)
      else Done(v.(dir := v.dir[i := FreshEntry(f)], dirty := true))
  }

  /** `memcpy7`: the low seven bits of `src` under the attribute bits of `dest`. */
  function Memcpy7(dest: seq<byte>, src: seq<byte>): (r: seq<byte>)
    requires |dest| == |src|
    ensures |r| == |dest|
  {
    seq(|dest|, i requires 0 <= i < |dest| => dest[i] / 128 * 128 + src[i] % 128)
  }

  function RenamedEntry(e: DirEntry, f: Key): DirEntry
    requires |f.name| == 8 && |f.ext| == 3
  {
    e.(status := f.user, name := Memcpy7(e.name, f.name), ext := Memcpy7(e.ext, f.ext))
  }

  function RenamedDir(g: Geometry, dir: seq<DirEntry>, from: Key, to: Key): (r: seq<DirEntry>)
    requires ValidGeometry(g) && |to.name| == 8 && |to.ext| == 3
    ensures |r| == |dir|
  {
    seq(|dir|, i requires 0 <= i < |dir| =>
      if Matches(g, dir[i], from, -1) then RenamedEntry(dir[i], to) else dir[i])
  }

  /** `cpmRename`, as far as the entries of the file itself go. */
  function Rename(g: Geometry, v: Volume, from: Key, to: Key): Outcome
    requires ValidGeometry(g) && |to.name| == 8 && |to.ext| == 3
  {
    if FindFileExtent(g, v.dir, from, 0, -1) == -1 then Failed(NotFound)
    else if FindFileExtent(g, v.dir, to, 0, -1) != -1 then Failed(AlreadyExists)
    else Done(v.(dir := RenamedDir(g, v.dir, from, to), dirty := true))
  }

  function UnlinkedDir(g: Geometry, dir: seq<DirEntry>, f: Key): (r: seq<DirEntry>)
    requires ValidGeometry(g)
    ensures |r| == |dir|
  {
    seq(|dir|, i requires 0 <= i < |dir| =>
      if Matches(g, dir[i], f, -1) then dir[i].(status := UNUSED) else dir[i])
  }

  /** `cpmUnlink`, as far as the entries of the file itself go: the allocation vector is rebuilt from what is left. */
  ghost function Unlink(g: Geometry, v: Volume, f: Key): Outcome
    requires ValidGeometry(g)
  {
    if FindFileExtent(g, v.dir, f, 0, -1) == -1 then Failed(NotFound)
    else
      var dir := UnlinkedDir(g, v.dir, f);
      Done(v.(dir := dir, alv := AlvOf(g, dir), dirty := true))
  }

  /** The first entry of `f` with the highest extent number among the first `n`, or -1. */
  function HighestEntry(g: Geometry, dir: seq<DirEntry>, f: Key, n: nat): (r: int)
    requires ValidGeometry(g) && n <= |dir|
    ensures r == -1 || 0 <= r < n
    ensures r == -1 ==> forall i :: 0 <= i < n ==> !Matches(g, dir[i], f, -1)
    ensures r != -1 ==> Matches(g, dir[r], f, -1)
    ensures r != -1 ==> forall i :: 0 <= i < n && Matches(g, dir[i], f, -1) ==>
      ExtentNumber(dir[i]) < ExtentNumber(dir[r]) || (ExtentNumber(dir[i]) == ExtentNumber(dir[r]) && r <= i)
  {
    if n == 0 then -1
    else
      var best := HighestEntry(g, dir, f, n - 1);
      if Matches(g, dir[n - 1], f, -1) && (best == -1 || ExtentNumber(dir[n - 1]) > ExtentNumber(dir[best]))
      then n - 1 else best
  }

  function LowestEntry(g: Geometry, dir: seq<DirEntry>, f: Key, n: nat): (r: int)
    requires ValidGeometry(g) && n <= |dir|
    ensures r == -1 || 0 <= r < n
    ensures r == -1 ==> forall i :: 0 <= i < n ==> !Matches(g, dir[i], f, -1)
    ensures r != -1 ==> Matches(g, dir[r], f, -1)
    ensures r != -1 ==> forall i :: 0 <= i < n && Matches(g, dir[i], f, -1) ==>
      ExtentNumber(dir[r]) < ExtentNumber(dir[i]) || (ExtentNumber(dir[i]) == ExtentNumber(dir[r]) && r <= i)
  {
    if n == 0 then -1
    else
      var best := LowestEntry(g, dir, f, n - 1);
      if Matches(g, dir[n - 1], f, -1) && (best == -1 || ExtentNumber(dir[n - 1]) < ExtentNumber(dir[best]))
      then n - 1 else best
  }

  /** Where the data described by an entry ends, from extent number, record count and byte count. */
  function EntryEnd(g: Geometry, e: DirEntry): int {
    ExtentNumber(e) * LOGICAL_EXTENT +
    if e.blkcnt == 0 then 0
    else (e.blkcnt - 1) * 128 +
         if g.os.exactSize then 128 - e.lrc else if e.lrc != 0 then e.lrc else 128
  }

  datatype Found = Found(ino: nat, size: int)

  /** `cpmNamei`: inode number and size. */
  function Namei(g: Geometry, dir: seq<DirEntry>, f: Key): (r: Option<Found>)
    requires ValidGeometry(g)
  {
    var highest := HighestEntry(g, dir, f, |dir|);
    if highest == -1 then None
    else Some(Found(LowestEntry(g, dir, f, |dir|), EntryEnd(g, dir[highest])))
  }

  /** The block of position `pos` would lie behind the end of the volume. */
  predicate BadAt(g: Geometry, v: Volume, f: Key, pos: nat)
    requires ValidGeometry(g)
  {
    var i := FindFileExtent(g, v.dir, f, 0, pos / LOGICAL_EXTENT);
    i != -1 && g.size <= Ptr(g, v.dir[i], Slot(g, pos))
  }

  /** The byte `cpmRead` delivers for position `pos` of file `f`: holes read as zero. */
  function ReadByte(g: Geometry, v: Volume, f: Key, pos: nat): byte
    requires ValidGeometry(g) && WellSized(g, v) && !BadAt(g, v, f, pos)
  {
    var i := FindFileExtent(g, v.dir, f, 0, pos / LOGICAL_EXTENT);
    if i == -1 then 0
    else
      var b := Ptr(g, v.dir[i], Slot(g, pos));
      if b == 0 then 0 else v.data[b][Offset(g, pos)]
  }

  /** On a volume without stray pointers no read is cut short. */
  lemma NeverBad(g: Geometry, v: Volume, f: Key)
    requires Mounted(g, v)
    ensures forall pos: nat :: !BadAt(g, v, f, pos)
  {
    hide ValidGeometry, Slot, Ptr;
    forall pos: nat ensures !BadAt(g, v, f, pos) {
      var i := FindFileExtent(g, v.dir, f, 0, pos / LOGICAL_EXTENT);
      if i != -1 {
        assert LivePtr(g, v.dir[i], Slot(g, pos)) < g.size;
      }
    }
  }

  /** What `cpmRead` returns for `count` bytes at `pos` of a file of `size` bytes. */
  function Read(g: Geometry, v: Volume, f: Key, size: nat, pos: nat, count: nat): (r: seq<byte>)
    requires Mounted(g, v)
  {
    NeverBad(g, v, f);
    if size <= pos then []
    else seq<byte>(if count < size - pos then count else size - pos,
                   (i: nat) requires !BadAt(g, v, f, pos + i) => ReadByte(g, v, f, pos + i))
  }
}
