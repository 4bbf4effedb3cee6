/** `mkfs.cpm`: the image it writes, and the volume a first mount finds on it. */
module Mkfs {
  import opened Arithmetic
  import opened Geometry
  import opened Directory
  import opened Volume
  import opened Skew
  import opened Blocks
  import opened Persistence
  import opened Invariant
  import opened Refinement
  import opened Calendar
  import opened Names
  import Runs
  import Stamps
  import Fsck
  import FsckClean

  const RECORD := 128

  function TrackBytes(g: Geometry): nat {
    g.secLength * g.sectrk
  }

  function BootBytes(g: Geometry): nat {
    TrackBytes(g) * g.boottrk
  }

  /** The directory rounded up to whole tracks. */
  function FormatBytes(g: Geometry): nat
    requires 0 < TrackBytes(g)
  {
    var bytes := g.maxdir * 32;
    if bytes % TrackBytes(g) != 0 then (bytes + TrackBytes(g)) / TrackBytes(g) * TrackBytes(g) else bytes
  }

  /** Rounded up to the records it is written in. */
  function WrittenBytes(g: Geometry): nat
    requires 0 < TrackBytes(g)
  {
    (FormatBytes(g) + RECORD - 1) / RECORD * RECORD
  }

  predicate Stamped(g: Geometry, timeStamps: bool) {
    timeStamps && (g.os == CPMFS_P2DOS || g.os == CPMFS_DR3)
  }

  /** Byte `r` of the directory area. */
  function FormatByte(g: Geometry, timeStamps: bool, diskLabel: seq<byte>, r: nat): byte
    requires |diskLabel| == 32
  {
    if g.os == CPMFS_DR3 && r < 32 then diskLabel[r]
    else if Stamped(g, timeStamps) && r % RECORD == 96 then 0x21
    else 0xE5
  }

  /** The image after `mkfs`: boot tracks, directory area, and behind them what was there before. */
  ghost predicate Formatted(g: Geometry, image: seq<byte>, image': seq<byte>, boot: seq<byte>, timeStamps: bool,
                            diskLabel: seq<byte>)
    requires 0 < TrackBytes(g) && |boot| == BootBytes(g) && |diskLabel| == 32
  {
    forall a: nat :: ByteOf(image', a) ==
      if a < BootBytes(g) then boot[a]
      else if a < BootBytes(g) + WrittenBytes(g) then FormatByte(g, timeStamps, diskLabel, a - BootBytes(g))
      else ByteOf(image, a)
  }

  /** `write` at the end of what was written so far. */
  method Append(dev: Device, at: nat, bytes: seq<byte>)
    modifies dev`image
    ensures SplicedAt(old(dev.image), dev.image, at, bytes)
  {
    dev.image := Spliced(dev.image, at, bytes);
  }

  method WriteBootTracks(dev: Device, boot: seq<byte>)
    requires 0 < TrackBytes(dev.g) && |boot| == BootBytes(dev.g)
    modifies dev`image
    ensures SplicedAt(old(dev.image), dev.image, 0, boot)
  {
    hide TrackBytes, BootBytes;
    var g := dev.g;
    BootSectors(g);
    var i: nat := 0;
    ghost var k: nat := 0;
    while i < BootBytes(g)
      invariant i == k * g.secLength && i <= BootBytes(g)
      invariant SplicedAt(old(dev.image), dev.image, 0, boot[..i])
      decreases BootBytes(g) - i
    {
      NextMultiple(k, g.sectrk * g.boottrk, g.secLength);
      Append(dev, i, boot[i..i + g.secLength]);
      i, k := i + g.secLength, k + 1;
    }
    assert boot[..i] == boot;
  }

  lemma BootSectors(g: Geometry)
    requires 0 < TrackBytes(g)
    ensures 0 < g.secLength && 0 < g.sectrk && BootBytes(g) == g.sectrk * g.boottrk * g.secLength
  {
    assert g.secLength * g.sectrk * g.boottrk == g.sectrk * g.boottrk * g.secLength;
  }

  lemma NextMultiple(k: nat, n: nat, d: nat)
    requires 0 < d && k * d < n * d
    ensures k * d + d <= n * d && (k + 1) * d == k * d + d
  {
    if n <= k {
      MulMonotone(n, k, d);
    }
    MulMonotone(k + 1, n, d);
    assert (k + 1) * d == k * d + d;
  }

  /** The record written over and over; the first one may hold the label. */
  function FormatRecord(g: Geometry, timeStamps: bool, diskLabel: seq<byte>, first: bool): (r: seq<byte>)
    requires |diskLabel| == 32
    ensures |r| == RECORD
    ensures forall k :: 0 <= k < RECORD ==>
      r[k] == FormatByte(g, timeStamps, diskLabel, if first then k else k + RECORD)
  {
    seq<byte>(RECORD, r requires 0 <= r < RECORD => FormatByte(g, timeStamps, diskLabel, if first then r
      else r + RECORD))
  }

  /** The name on a disk label: eleven characters in capitals, padded with blanks. */
  function LabelName(text: seq<byte>): (r: seq<byte>)
    ensures |r| == 11
  {
    seq<byte>(11, i requires 0 <= i < 11 => if i < |text| then ToUpper(text[i] % 128) else BLANK)
  }

  /** The directory entry made for the disk label of a CP/M 3 volume, at time `now`. */
  function DiskLabel(text: seq<byte>, timeStamps: bool, now: Stamp): (r: seq<byte>)
    ensures |r| == 32
  {
    [LABEL] + LabelName(text) + [if timeStamps then 0x11 else 0x01] + seq<byte>(11, _ => 0)
    + if timeStamps then StampBytes(now) + StampBytes(now) else seq<byte>(8, _ => UNUSED)
  }

  /** With time stamps the label was made and changed now; without, its eight bytes of stamps are what the buffer was
      cleared to. */
  lemma LabelLayout(text: seq<byte>, timeStamps: bool, now: Stamp)
    ensures var r := DiskLabel(text, timeStamps, now);
      && IsLabel(timeStamps, r)
      && (forall i :: 0 <= i < 11 ==> r[1 + i] == if i < |text| then ToUpper(text[i] % 128) else BLANK)
      && (forall i :: 13 <= i < 24 ==> r[i] == 0)
      && (timeStamps ==> r[24..28] == r[28..32] == StampBytes(now))
      && (!timeStamps ==> forall i :: 24 <= i < 32 ==> r[i] == 0xE5)
  {
    hide StampBytes, ToUpper;
  }

  /** The composition of the label, `firstbuf`. */
  method ComposeLabel(text: seq<byte>, timeStamps: bool, now: Stamp) returns (r: seq<byte>)
    ensures r == DiskLabel(text, timeStamps, now)
  {
    hide StampBytes, ToUpper;
    var name: seq<byte> := [];
    var i := 0;
    while i < 11 && i < |text|
      invariant 0 <= i <= 11 && i <= |text| && name == LabelName(text)[..i]
    {
      name := name + [ToUpper(text[i] % 128)];
      i := i + 1;
    }
    while i < 11
      invariant 0 <= i <= 11 && (i == 11 || |text| <= i) && name == LabelName(text)[..i]
    {
      name := name + [BLANK];
      i := i + 1;
    }
    assert LabelName(text)[..11] == LabelName(text);
    r := [LABEL] + name + [if timeStamps then 0x11 else 0x01] + seq<byte>(11, _ => 0);
    r := r + if timeStamps then StampBytes(now) + StampBytes(now) else seq<byte>(8, _ => UNUSED);
  }

  /** `mkfs`. */
  method Mkfs(dev: Device, boot: seq<byte>, text: seq<byte>, timeStamps: bool, now: Stamp)
    requires 0 < TrackBytes(dev.g) && |boot| == BootBytes(dev.g)
    modifies dev`image
    ensures Formatted(dev.g, old(dev.image), dev.image, boot, timeStamps, DiskLabel(text, timeStamps, now))
  {
    hide TrackBytes, BootBytes, FormatBytes, DiskLabel;
    var g := dev.g;
    WriteBootTracks(dev, boot);
    ghost var booted := dev.image;
    var diskLabel := ComposeLabel(text, timeStamps, now);
    var buf := FormatRecord(g, timeStamps, diskLabel, false);
    var firstbuf := FormatRecord(g, timeStamps, diskLabel, true);
    var i: nat := 0;
    while i < FormatBytes(g)
      invariant i % RECORD == 0 && i <= WrittenBytes(g)
      invariant FilledTo(g, booted, dev.image, timeStamps, diskLabel, i)
      decreases WrittenBytes(g) - i
    {
      ghost var before := dev.image;
      Append(dev, BootBytes(g) + i, if i == 0 then firstbuf else buf);
      OneMoreRecord(g, booted, before, dev.image, timeStamps, diskLabel, i);
      i := i + RECORD;
    }
  }

  /** The directory area is written up to byte `i`. */
  ghost predicate FilledTo(g: Geometry, booted: seq<byte>, image: seq<byte>, timeStamps: bool, diskLabel: seq<byte>,
                           i: nat)
    requires |diskLabel| == 32
  {
    forall a: nat :: ByteOf(image, a) == if BootBytes(g) <= a < BootBytes(g) + i
                                         then FormatByte(g, timeStamps, diskLabel, a - BootBytes(g))
                                         else ByteOf(booted, a)
  }

  lemma FormatByteRepeats(g: Geometry, timeStamps: bool, diskLabel: seq<byte>, r: nat, i: nat)
    requires |diskLabel| == 32 && i % RECORD == 0 && i <= r < i + RECORD
    ensures FormatByte(g, timeStamps, diskLabel, if i == 0 then r - i else r - i + RECORD) ==
      FormatByte(g, timeStamps, diskLabel, r)
  {
    hide Stamped;
    SameRemainder(r, i);
    assert i != 0 ==> i >= RECORD;
    SameRemainder(r - i + RECORD, RECORD);
  }

  lemma OneMoreRecord(g: Geometry, booted: seq<byte>, image: seq<byte>, image': seq<byte>, timeStamps: bool,
                      diskLabel: seq<byte>, i: nat)
    requires |diskLabel| == 32 && i % RECORD == 0 && FilledTo(g, booted, image, timeStamps, diskLabel, i)
    requires SplicedAt(image, image', BootBytes(g) + i, FormatRecord(g, timeStamps, diskLabel, i == 0))
    ensures FilledTo(g, booted, image', timeStamps, diskLabel, i + RECORD)
  {
    hide BootBytes, Stamped, ByteOf;
    var record := FormatRecord(g, timeStamps, diskLabel, i == 0);
    forall r: nat | i <= r < i + RECORD ensures record[r - i] == FormatByte(g, timeStamps, diskLabel, r) {
      FormatByteRepeats(g, timeStamps, diskLabel, r, i);
    }
  }

  // ----- what a mount finds --------------------------------------------------------------------------

  /** Byte `a` of the volume is byte `a % secLength` of data sector `a / secLength`. */
  lemma VolumeByte(g: Geometry, tab: seq<nat>, a: nat)
    requires ValidGeometry(g) && |tab| == g.sectrk
    ensures Address(g, tab, a / g.blksiz, a % g.blksiz) == SectorBase(g, tab, a / g.secLength) + a % g.secLength
  {
    hide SectorBase, ValidBlockSize, ValidExtents;
    var n := SectorsPerBlock(g);
    PositiveParts(g);
    DivModEquation(g.blksiz, g.secLength);
    ModOfMultiple(a, n, g.secLength);
    DivModEquation(a / g.secLength, n);
  }

  /** Reordering sectors never moves data to another track. */
  lemma SectorInTrack(g: Geometry, tab: seq<nat>, s: nat, i: nat)
    requires 0 < g.sectrk && SkewTable(g, tab) && i < g.secLength
    ensures BootBytes(g) + s / g.sectrk * TrackBytes(g) + g.offset <= SectorBase(g, tab, s) + i
    ensures SectorBase(g, tab, s) + i < BootBytes(g) + s / g.sectrk * TrackBytes(g) + TrackBytes(g) + g.offset
  {
    hide SectorBase, PhysicalSector, IsPermutation, TrackBytes, BootBytes;
    var t, p := s / g.sectrk + g.boottrk, PhysicalSectorOf(g, tab, s);
    PhysicalInTrack(g, tab, s);
    ScaledRange(t * g.sectrk, p, (t + 1) * g.sectrk, g.secLength, i);
    TrackStart(g, t, s / g.sectrk);
  }

  lemma PhysicalInTrack(g: Geometry, tab: seq<nat>, s: nat)
    requires 0 < g.sectrk && SkewTable(g, tab)
    ensures var t := s / g.sectrk + g.boottrk;
      t * g.sectrk <= PhysicalSector(g, tab, s) < (t + 1) * g.sectrk
  {
    var t := s / g.sectrk + g.boottrk;
    assert (t + 1) * g.sectrk == t * g.sectrk + g.sectrk;
    assert tab[s % g.sectrk] < |tab|;
  }

  lemma TrackStart(g: Geometry, t: nat, x: nat)
    requires t == x + g.boottrk
    ensures t * g.sectrk * g.secLength == BootBytes(g) + x * TrackBytes(g)
    ensures (t + 1) * g.sectrk * g.secLength == BootBytes(g) + x * TrackBytes(g) + TrackBytes(g)
  {
    Regroup(t, g.sectrk, g.secLength);
    Regroup(t + 1, g.sectrk, g.secLength);
    var track := TrackBytes(g);
    assert track == g.sectrk * g.secLength;
    assert t * track == x * track + g.boottrk * track;
    assert (t + 1) * track == t * track + track;
    assert g.boottrk * track == track * g.boottrk;
  }

  lemma Regroup(a: nat, b: nat, c: nat)
    ensures a * b * c == a * (b * c)
  {}

  /** The directory lies in tracks that were formatted from end to end. */
  lemma DirectoryInTracks(g: Geometry, a: nat)
    requires 0 < g.secLength && 0 < g.sectrk && 0 < TrackBytes(g) && a < 32 * g.maxdir
    ensures a / g.secLength / g.sectrk * TrackBytes(g) + TrackBytes(g) <= FormatBytes(g) <= WrittenBytes(g)
  {
    hide TrackBytes;
    var track, bytes := TrackBytes(g), g.maxdir * 32;
    TrackOf(g, a);
    RoundedUp(bytes, track);
    var m := FormatBytes(g) / track;
    DivModEquation(FormatBytes(g), track);
    DivModEquation(a, track);
    if m <= a / track {
      MulMonotone(m, a / track, track);
    }
    MulMonotone(a / track + 1, m, track);
    assert (a / track + 1) * track == a / track * track + track;
  }

  lemma TrackOf(g: Geometry, a: nat)
    requires 0 < g.secLength && 0 < g.sectrk && 0 < TrackBytes(g)
    ensures a / g.secLength / g.sectrk == a / TrackBytes(g)
  {
    DivDiv(a, g.secLength, g.sectrk);
  }

  lemma RoundedUp(bytes: nat, track: nat)
    requires 0 < track
    ensures var r := if bytes % track != 0 then (bytes + track) / track * track else bytes;
      bytes <= r && r % track == 0
  {
    if bytes % track != 0 {
      var q := (bytes + track) / track;
      DivModEquation(bytes + track, track);
      DivModUnique(q * track, track, q, 0);
    }
  }

  lemma LessThanMultiple(bytes: nat, track: nat, q: nat)
    requires 0 < track && bytes % track != 0 && q == (bytes + track) / track
    ensures q * track < bytes + track
  {
    DivModEquation(bytes, track);
    var p := bytes / track;
    assert bytes + track == (p + 1) * track + bytes % track;
    DivModUnique(bytes + track, track, p + 1, bytes % track);
  }

  /** No more is written than the directory takes in whole tracks and whole records. */
  lemma WrittenArea(g: Geometry)
    requires 0 < TrackBytes(g)
    ensures g.maxdir * 32 <= FormatBytes(g) < g.maxdir * 32 + TrackBytes(g) && FormatBytes(g) % TrackBytes(g) == 0
    ensures FormatBytes(g) <= WrittenBytes(g) < FormatBytes(g) + RECORD && WrittenBytes(g) % RECORD == 0
  {
    hide TrackBytes;
    RoundedUp(g.maxdir * 32, TrackBytes(g));
    if g.maxdir * 32 % TrackBytes(g) != 0 {
      LessThanMultiple(g.maxdir * 32, TrackBytes(g), (g.maxdir * 32 + TrackBytes(g)) / TrackBytes(g));
    }
  }

  /** Sectors of whole records start at a record boundary. */
  lemma RecordAlignment(g: Geometry, tab: seq<nat>, s: nat, i: nat)
    requires 0 < g.sectrk && SkewTable(g, tab) && g.offset % RECORD == 0 && g.secLength % RECORD == 0
    ensures (SectorBase(g, tab, s) + i) % RECORD == i % RECORD
    ensures BootBytes(g) % RECORD == 0
  {
    hide SectorBase, PhysicalSector, IsPermutation, BootBytes;
    var p := PhysicalSectorOf(g, tab, s);
    MultipleOf(p, g.secLength, RECORD);
    AlignedSum(p * g.secLength, g.offset, i);
    BootAligned(g);
  }

  lemma AlignedSum(x: nat, y: nat, i: nat)
    requires x % RECORD == 0 && y % RECORD == 0
    ensures (x + y + i) % RECORD == i % RECORD
  {}

  lemma BootAligned(g: Geometry)
    requires g.secLength % RECORD == 0
    ensures BootBytes(g) % RECORD == 0
  {
    MultipleOf(g.sectrk * g.boottrk, g.secLength, RECORD);
    Regroup(g.secLength, g.sectrk, g.boottrk);
  }

  lemma MultipleOf(p: nat, c: nat, d: nat)
    requires 0 < d && c % d == 0
    ensures p * c % d == 0
  {
    DivModEquation(c, d);
    assert p * c == p * (c / d) * d by {
      Regroup(p, c / d, d);
    }
    DivModUnique(p * c, d, p * (c / d), 0);
  }

  /** Where byte `a` of the directory is in the image. */
  function DirectoryAddress(g: Geometry, tab: seq<nat>, a: nat): nat
    requires ValidGeometry(g) && |tab| == g.sectrk
  {
    Address(g, tab, a / g.blksiz, a % g.blksiz)
  }

  /** Behind the boot tracks and the offset. */
  lemma DirectoryBehind(g: Geometry, tab: seq<nat>, a: nat)
    requires ValidGeometry(g) && SkewTable(g, tab)
    ensures BootBytes(g) + g.offset <= DirectoryAddress(g, tab, a)
  {
    hide ValidGeometry, SectorBase, IsPermutation, Address, TrackBytes, BootBytes;
    PositiveParts(g);
    VolumeByte(g, tab, a);
    SectorInTrack(g, tab, a / g.secLength, a % g.secLength);
  }

  /** `mkfs` wrote every byte a mount takes for the directory. */
  ghost predicate AllFormatted(g: Geometry, tab: seq<nat>)
    requires ValidGeometry(g) && |tab| == g.sectrk && 0 < TrackBytes(g)
  {
    forall a: nat :: a < 32 * g.maxdir ==> DirectoryAddress(g, tab, a) < BootBytes(g) + WrittenBytes(g)
  }

  /** Without an offset it did, whatever the skew. */
  lemma NoOffsetFormatted(g: Geometry, tab: seq<nat>)
    requires ValidGeometry(g) && SkewTable(g, tab) && 0 < TrackBytes(g) && g.offset == 0
    ensures AllFormatted(g, tab)
  {
    hide ValidGeometry, IsPermutation, DirectoryAddress, TrackBytes, BootBytes, WrittenBytes;
    forall a: nat | a < 32 * g.maxdir ensures DirectoryAddress(g, tab, a) < BootBytes(g) + WrittenBytes(g) {
      InFormattedArea(g, tab, a);
    }
  }

  lemma InFormattedArea(g: Geometry, tab: seq<nat>, a: nat)
    requires ValidGeometry(g) && SkewTable(g, tab) && 0 < TrackBytes(g) && g.offset == 0 && a < 32 * g.maxdir
    ensures DirectoryAddress(g, tab, a) < BootBytes(g) + WrittenBytes(g)
  {
    hide ValidGeometry, SectorBase, IsPermutation, Address, TrackBytes, BootBytes, FormatBytes, WrittenBytes;
    PositiveParts(g);
    VolumeByte(g, tab, a);
    SectorInTrack(g, tab, a / g.secLength, a % g.secLength);
    DirectoryInTracks(g, a);
  }

  /** What a mount reads as byte `a` of the directory: what was written there, and what the image held before
      where nothing was. */
  lemma MountedByte(g: Geometry, tab: seq<nat>, image: seq<byte>, image': seq<byte>, boot: seq<byte>,
                    timeStamps: bool, diskLabel: seq<byte>, a: nat)
    requires ValidGeometry(g) && SkewTable(g, tab) && a < 32 * g.maxdir
    requires 0 < TrackBytes(g) && |boot| == BootBytes(g) && |diskLabel| == 32
    requires Formatted(g, image, image', boot, timeStamps, diskLabel)
    ensures var p := DirectoryAddress(g, tab, a);
      BootBytes(g) <= p &&
      BufferByte(g, DiskAt(g, tab, image'), a) ==
        if p < BootBytes(g) + WrittenBytes(g) then FormatByte(g, timeStamps, diskLabel, p - BootBytes(g))
          else ByteOf(image, p)
  {
    hide ValidGeometry, IsPermutation, TrackBytes, BootBytes, Stamped, Address, SlackBytes, DirectoryBlocks,
         FormatByte, ByteOf, WrittenBytes;
    DirectoryFits(g);
    BlockOfByte(g, a);
    ValidSize(g);
    PositiveParts(g);
    DirectoryBehind(g, tab, a);
  }

  /** Where records are not torn by sectors or offset, a byte is read from its place in a record. */
  lemma SamePlaceInRecord(g: Geometry, tab: seq<nat>, a: nat)
    requires ValidGeometry(g) && SkewTable(g, tab) && g.offset % RECORD == 0 && g.secLength % RECORD == 0
    requires BootBytes(g) <= DirectoryAddress(g, tab, a)
    ensures (DirectoryAddress(g, tab, a) - BootBytes(g)) % RECORD == a % RECORD
  {
    hide ValidGeometry, SectorBase, IsPermutation, BootBytes, Address;
    PositiveParts(g);
    VolumeByte(g, tab, a);
    RecordAlignment(g, tab, a / g.secLength, a % g.secLength);
    DivModEquation(a, g.secLength);
    MultipleOf(a / g.secLength, g.secLength, RECORD);
    SameRemainder(DirectoryAddress(g, tab, a), BootBytes(g));
    SameRemainder(a, a / g.secLength * g.secLength);
  }

  lemma SameRemainder(x: nat, y: nat)
    requires y <= x && y % RECORD == 0
    ensures (x - y) % RECORD == x % RECORD
  {}

  /** The entry a fresh directory has at index `i`. */
  predicate FreshAt(g: Geometry, timeStamps: bool, e: DirEntry, i: nat) {
    && e.status == (if Stamped(g, timeStamps) && i % 4 == 3 then 0x21 else 0xE5)
    && (forall j :: 0 <= j < 8 ==> e.name[j] == 0xE5) && (forall j :: 0 <= j < 3 ==> e.ext[j] == 0xE5)
    && e.extnol == e.lrc == e.extnoh == e.blkcnt == 0xE5
    && forall j :: 0 <= j < 16 ==> e.pointers[j] == 0xE5
  }

  /** The entry that holds the disk label of a CP/M 3 volume. */
  predicate LabelAt(g: Geometry, diskLabel: seq<byte>, e: DirEntry)
    requires |diskLabel| == 32
  {
    g.os == CPMFS_DR3 && EntryBytes(e) == diskLabel
  }

  /** The record with the label was written to where the mount finds entry `i`. */
  predicate HoldsLabel(g: Geometry, tab: seq<nat>, i: nat)
    requires ValidGeometry(g) && |tab| == g.sectrk
  {
    g.os == CPMFS_DR3 && DirectoryAddress(g, tab, 32 * i) == BootBytes(g)
  }

  ghost predicate FreshOrLabel(g: Geometry, tab: seq<nat>, timeStamps: bool, diskLabel: seq<byte>, e: DirEntry, i: nat)
    requires ValidGeometry(g) && |tab| == g.sectrk && |diskLabel| == 32
  {
    if HoldsLabel(g, tab, i) then LabelAt(g, diskLabel, e) else FreshAt(g, timeStamps, e, i)
  }

  /** Neither sectors nor the offset tear what belongs together: four entries where every fourth is for stamps,
      and the entry of a label. */
  predicate RecordsWhole(g: Geometry, timeStamps: bool) {
    && (Stamped(g, timeStamps) ==> g.secLength % RECORD == 0 && g.offset % RECORD == 0)
    && (g.os == CPMFS_DR3 ==> g.secLength % 32 == 0 && g.offset % 32 == 0)
  }

  /** Mounting an image whose directory was all formatted finds unused entries, and a stamp entry in every fourth
      place if stamps were asked for, through any skew table. A CP/M 3 volume has its label among them. */
  lemma FreshDirectory(g: Geometry, tab: seq<nat>, image: seq<byte>, image': seq<byte>, boot: seq<byte>,
                       timeStamps: bool, diskLabel: seq<byte>)
    requires ValidGeometry(g) && SkewTable(g, tab)
    requires 0 < TrackBytes(g) && |boot| == BootBytes(g) && |diskLabel| == 32
    requires Formatted(g, image, image', boot, timeStamps, diskLabel)
    requires AllFormatted(g, tab) && RecordsWhole(g, timeStamps)
    ensures var dir := Mount(g, DiskAt(g, tab, image')).dir;
      forall i: nat :: i < g.maxdir ==> FreshOrLabel(g, tab, timeStamps, diskLabel, dir[i], i)
  {
    hide ValidGeometry, IsPermutation, TrackBytes, BootBytes, Formatted, AlvOf, FreshAt, LabelAt, AllFormatted,
         RecordsWhole, SlackBytes, ParseEntry, EntryOnDisk, HoldsLabel;
    var disk := DiskAt(g, tab, image');
    forall i: nat | i < g.maxdir ensures FreshOrLabel(g, tab, timeStamps, diskLabel, Mount(g, disk).dir[i], i) {
      FreshEntryAt(g, tab, image, image', boot, timeStamps, diskLabel, i);
      MountedEntry(g, disk, i);
    }
  }

  /** On a volume made with time stamps every entry has its place for them, on P2DOS and CP/M 3, and on one made without
      none has. */
  lemma FreshStamps(g: Geometry, tab: seq<nat>, dir: seq<DirEntry>, timeStamps: bool, diskLabel: seq<byte>, i: nat)
    requires ValidGeometry(g) && SkewTable(g, tab) && |diskLabel| == 32 && (g.os == CPMFS_DR3 ==> diskLabel[0] == LABEL)
    requires RecordsWhole(g, timeStamps) && |dir| == g.maxdir && i < g.maxdir && i % 4 != 3
    requires forall j: nat :: j < g.maxdir ==> FreshOrLabel(g, tab, timeStamps, diskLabel, dir[j], j)
    ensures timeStamps && (g.os == CPMFS_P2DOS || g.os == CPMFS_DR3) && i + 3 - i % 4 < g.maxdir ==>
      Stamps.TimesOf(g, dir, i).Some?
    ensures !timeStamps ==> Stamps.TimesOf(g, dir, i).None?
  {
    hide ValidGeometry, IsPermutation, RecordsWhole, HoldsLabel, FreshAt, LabelAt, EntryBytes;
    var k := i + 3 - i % 4;
    Stamps.TimesPlaced(g, dir, i);
    if k < g.maxdir {
      assert FreshOrLabel(g, tab, timeStamps, diskLabel, dir[k], k);
      StatusOfFresh(g, tab, timeStamps, diskLabel, dir[k], k);
    }
  }

  lemma StatusOfFresh(g: Geometry, tab: seq<nat>, timeStamps: bool, diskLabel: seq<byte>, e: DirEntry, k: nat)
    requires ValidGeometry(g) && SkewTable(g, tab) && |diskLabel| == 32 && (g.os == CPMFS_DR3 ==> diskLabel[0] == LABEL)
    requires RecordsWhole(g, timeStamps) && k % 4 == 3 && FreshOrLabel(g, tab, timeStamps, diskLabel, e, k)
    ensures e.status == STAMP ==> Stamped(g, timeStamps)
    ensures timeStamps && (g.os == CPMFS_P2DOS || g.os == CPMFS_DR3) ==> e.status == STAMP
  {
    hide ValidGeometry, IsPermutation, DirectoryAddress, BootBytes;
    Stamps.StatusOf(e);
    if HoldsLabel(g, tab, k) && Stamped(g, timeStamps) {
      SamePlaceInRecord(g, tab, 32 * k);
      assert false;
    }
  }

  lemma FreshEntryAt(g: Geometry, tab: seq<nat>, image: seq<byte>, image': seq<byte>, boot: seq<byte>,
                     timeStamps: bool, diskLabel: seq<byte>, i: nat)
    requires ValidGeometry(g) && SkewTable(g, tab) && i < g.maxdir
    requires 0 < TrackBytes(g) && |boot| == BootBytes(g) && |diskLabel| == 32
    requires Formatted(g, image, image', boot, timeStamps, diskLabel)
    requires AllFormatted(g, tab) && RecordsWhole(g, timeStamps)
    ensures FreshOrLabel(g, tab, timeStamps, diskLabel, ParseEntry(EntryOnDisk(g, DiskAt(g, tab, image'), i)), i)
  {
    hide ValidGeometry, IsPermutation, TrackBytes, BootBytes, Formatted, Stamped, FreshAt, BufferByte, AllFormatted,
         RecordsWhole, DirectoryAddress, EntryBytes, ParseEntry;
    var disk := DiskAt(g, tab, image');
    var b := EntryOnDisk(g, disk, i);
    DirectoryBehind(g, tab, 32 * i);
    if HoldsLabel(g, tab, i) {
      forall j: nat | j < 32 ensures b[j] == diskLabel[j] {
        EntryPlace(g, tab, timeStamps, i, j);
        MountedByte(g, tab, image, image', boot, timeStamps, diskLabel, 32 * i + j);
        LabelByte(g, timeStamps, diskLabel, j);
        InFormat(g, tab, 32 * i + j);
      }
      assert b == diskLabel;
      BytesRoundTrip(b);
    } else {
      forall j: nat | j < 32
        ensures b[j] == if Stamped(g, timeStamps) && i % 4 == 3 && j == 0 then 0x21 else 0xE5
      {
        FreshByte(g, tab, image, image', boot, timeStamps, diskLabel, i, j);
      }
      ParsedFresh(g, timeStamps, b, i);
    }
  }

  lemma InFormat(g: Geometry, tab: seq<nat>, a: nat)
    requires ValidGeometry(g) && |tab| == g.sectrk && 0 < TrackBytes(g) && AllFormatted(g, tab) && a < 32 * g.maxdir
    ensures DirectoryAddress(g, tab, a) < BootBytes(g) + WrittenBytes(g)
  {
    hide ValidGeometry, DirectoryAddress, TrackBytes, BootBytes, WrittenBytes;
  }

  lemma LabelByte(g: Geometry, timeStamps: bool, diskLabel: seq<byte>, j: nat)
    requires |diskLabel| == 32 && j < 32 && g.os == CPMFS_DR3
    ensures FormatByte(g, timeStamps, diskLabel, j) == diskLabel[j]
  {}

  /** The 32 bytes of an entry are together in the image, and start at a multiple of 32 behind the boot tracks. */
  lemma EntryPlace(g: Geometry, tab: seq<nat>, timeStamps: bool, i: nat, j: nat)
    requires ValidGeometry(g) && SkewTable(g, tab) && RecordsWhole(g, timeStamps) && g.os == CPMFS_DR3 && j < 32
    requires BootBytes(g) <= DirectoryAddress(g, tab, 32 * i)
    ensures DirectoryAddress(g, tab, 32 * i + j) == DirectoryAddress(g, tab, 32 * i) + j
    ensures (DirectoryAddress(g, tab, 32 * i) - BootBytes(g)) % 32 == 0
  {
    hide ValidGeometry, SectorBase, PhysicalSector, IsPermutation, BootBytes, Address, Stamped;
    PositiveParts(g);
    VolumeByte(g, tab, 32 * i);
    VolumeByte(g, tab, 32 * i + j);
    var s := 32 * i / g.secLength;
    var p := PhysicalSectorOf(g, tab, s);
    MultipleOf(p, g.secLength, 32);
    MultipleOf(s, g.secLength, 32);
    DivModEquation(32 * i, g.secLength);
    SameParts(32 * i, j, g.secLength, s, 32 * i % g.secLength);
    BootOfEntries(g);
    MultiplesOf32(p * g.secLength, g.offset, s * g.secLength, 32 * i, BootBytes(g));
  }

  lemma SameParts(a: nat, j: nat, d: nat, q: nat, r: nat)
    requires a % 32 == 0 && j < 32 && 0 < d && d % 32 == 0
    requires a == q * d + r && r < d
    ensures (a + j) / d == q && (a + j) % d == r + j
  {
    MultipleOf(q, d, 32);
    RoomBehind(q * d, r, j, d);
    DivModUnique(a + j, d, q, r + j);
  }

  lemma RoomBehind(x: nat, r: nat, j: nat, d: nat)
    requires x % 32 == 0 && (x + r) % 32 == 0 && d % 32 == 0 && r < d && j < 32
    ensures r + j < d
  {}

  lemma MultiplesOf32(x: nat, y: nat, z: nat, a: nat, boot: nat)
    requires x % 32 == 0 && y % 32 == 0 && z % 32 == 0 && a % 32 == 0 && boot % 32 == 0 && z <= a
    ensures boot <= x + y + (a - z) ==> (x + y + (a - z) - boot) % 32 == 0
  {}

  lemma BootOfEntries(g: Geometry)
    requires g.secLength % 32 == 0
    ensures BootBytes(g) % 32 == 0
  {
    MultipleOf(g.sectrk * g.boottrk, g.secLength, 32);
    Regroup(g.secLength, g.sectrk, g.boottrk);
  }

  lemma ParsedFresh(g: Geometry, timeStamps: bool, b: seq<byte>, i: nat)
    requires |b| == 32
    requires forall j :: 0 <= j < 32 ==> b[j] == if Stamped(g, timeStamps) && i % 4 == 3 && j == 0 then 0x21 else 0xE5
    ensures FreshAt(g, timeStamps, ParseEntry(b), i)
  {
    hide Stamped;
  }

  /** A byte of an entry that does not hold the label. */
  lemma FreshByte(g: Geometry, tab: seq<nat>, image: seq<byte>, image': seq<byte>, boot: seq<byte>,
                  timeStamps: bool, diskLabel: seq<byte>, i: nat, j: nat)
    requires ValidGeometry(g) && SkewTable(g, tab) && i < g.maxdir && j < 32
    requires 0 < TrackBytes(g) && |boot| == BootBytes(g) && |diskLabel| == 32
    requires Formatted(g, image, image', boot, timeStamps, diskLabel)
    requires AllFormatted(g, tab) && RecordsWhole(g, timeStamps)
    requires g.os == CPMFS_DR3 ==> BootBytes(g) < DirectoryAddress(g, tab, 32 * i)
    ensures BufferByte(g, DiskAt(g, tab, image'), 32 * i + j)
         == if Stamped(g, timeStamps) && i % 4 == 3 && j == 0 then 0x21 else 0xE5
  {
    hide ValidGeometry, IsPermutation, TrackBytes, BootBytes, Formatted, Stamped, DirectoryAddress, WrittenBytes,
         BufferByte, AllFormatted;
    MountedByte(g, tab, image, image', boot, timeStamps, diskLabel, 32 * i + j);
    InFormat(g, tab, 32 * i + j);
    if g.os == CPMFS_DR3 {
      EntryPlace(g, tab, timeStamps, i, j);
      BehindLabel(DirectoryAddress(g, tab, 32 * i), BootBytes(g));
    }
    if Stamped(g, timeStamps) {
      SamePlaceInRecord(g, tab, 32 * i + j);
    }
    PlaceInRecord(i, j);
  }

  lemma BehindLabel(p: nat, boot: nat)
    requires boot < p && (p - boot) % 32 == 0
    ensures boot + 32 <= p
  {}

  lemma PlaceInRecord(i: nat, j: nat)
    requires j < 32
    ensures (32 * i + j) % RECORD == 96 <==> i % 4 == 3 && j == 0
  {}

  // ----- formats with an offset --------------------------------------------------------------------------

  /** On a new image without stamps and label, a directory byte reads 0xE5 if it was written, and 0 otherwise. */
  lemma NewImageByte(g: Geometry, tab: seq<nat>, image': seq<byte>, boot: seq<byte>, diskLabel: seq<byte>, a: nat)
    requires ValidGeometry(g) && SkewTable(g, tab) && g.os != CPMFS_DR3 && a < 32 * g.maxdir
    requires 0 < TrackBytes(g) && |boot| == BootBytes(g) && |diskLabel| == 32
    requires Formatted(g, [], image', boot, false, diskLabel)
    ensures BufferByte(g, DiskAt(g, tab, image'), a) ==
      if DirectoryAddress(g, tab, a) < BootBytes(g) + WrittenBytes(g) then 0xE5 else 0
  {
    hide ValidGeometry, IsPermutation, TrackBytes, BootBytes, Formatted, DirectoryAddress, WrittenBytes, BufferByte;
    MountedByte(g, tab, [], image', boot, false, diskLabel, a);
  }

  /** The directory of a new image is fresh if and only if `mkfs` wrote all of it. */
  lemma FreshExactly(g: Geometry, tab: seq<nat>, image': seq<byte>, boot: seq<byte>, diskLabel: seq<byte>)
    requires ValidGeometry(g) && SkewTable(g, tab) && g.os != CPMFS_DR3
    requires 0 < TrackBytes(g) && |boot| == BootBytes(g) && |diskLabel| == 32
    requires Formatted(g, [], image', boot, false, diskLabel)
    ensures (forall i: nat :: i < g.maxdir ==> FreshAt(g, false, Mount(g, DiskAt(g, tab, image')).dir[i], i))
            <==> AllFormatted(g, tab)
  {
    hide ValidGeometry, IsPermutation, TrackBytes, BootBytes, Formatted, AlvOf, FreshAt, BufferByte, AllFormatted,
         SlackBytes;
    var disk := DiskAt(g, tab, image');
    if AllFormatted(g, tab) {
      FreshDirectory(g, tab, [], image', boot, false, diskLabel);
    } else {
      var a := UnformattedByte(g, tab);
      NewImageByte(g, tab, image', boot, diskLabel, a);
      assert EntryOnDisk(g, disk, a / 32)[a % 32] == 0;
      NotFresh(g, EntryOnDisk(g, disk, a / 32), a / 32, a % 32);
      assert Mount(g, disk).dir[a / 32] == ParseEntry(EntryOnDisk(g, disk, a / 32));
    }
  }

  lemma UnformattedByte(g: Geometry, tab: seq<nat>) returns (a: nat)
    requires ValidGeometry(g) && |tab| == g.sectrk && 0 < TrackBytes(g) && !AllFormatted(g, tab)
    ensures a < 32 * g.maxdir && BootBytes(g) + WrittenBytes(g) <= DirectoryAddress(g, tab, a)
  {
    hide ValidGeometry, DirectoryAddress, BootBytes, WrittenBytes, TrackBytes;
    a :| a < 32 * g.maxdir && BootBytes(g) + WrittenBytes(g) <= DirectoryAddress(g, tab, a);
  }

  lemma NotFresh(g: Geometry, b: seq<byte>, i: nat, j: nat)
    requires |b| == 32 && j < 32 && b[j] == 0
    ensures !FreshAt(g, false, ParseEntry(b), i)
  {
    var e := ParseEntry(b);
    assert 1 <= j < 9 ==> e.name[j - 1] == 0;
    assert 9 <= j < 12 ==> e.ext[j - 9] == 0;
    assert 16 <= j < 32 ==> e.pointers[j - 16] == 0;
  }

  /** An entry read from where nothing was written: it belongs to user 0. */
  const BLANK_ENTRY: DirEntry := Entry(0, ZEROS16[..8], ZEROS16[..3], 0, 0, 0, 0, ZEROS16)

  /** If the offset is not less than what `mkfs` writes, a mount of the new image finds none of it: all entries
      belong to one nameless file of user 0, none is free, and the invariant does not hold. */
  lemma OffsetHidesDirectory(g: Geometry, tab: seq<nat>, image': seq<byte>, boot: seq<byte>,
                             timeStamps: bool, diskLabel: seq<byte>)
    requires ValidGeometry(g) && SkewTable(g, tab)
    requires 0 < TrackBytes(g) && |boot| == BootBytes(g) && |diskLabel| == 32
    requires Formatted(g, [], image', boot, timeStamps, diskLabel) && WrittenBytes(g) <= g.offset
    ensures var v := Mount(g, DiskAt(g, tab, image'));
      && (forall i: nat :: i < g.maxdir ==> v.dir[i] == BLANK_ENTRY && Live(g, v.dir[i]))
      && FindFreeExtent(v.dir, 0) == -1
      && (2 <= g.maxdir ==> !Consistent(g, v))
  {
    hide ValidGeometry, IsPermutation, TrackBytes, BootBytes, WrittenBytes, Formatted, AlvOf, BufferByte, SlackBytes,
         DirectoryAddress, PointersOk, NoSharing, KeyOf, Mount;
    var disk := DiskAt(g, tab, image');
    var v := Mount(g, disk);
    MountedEntry(g, disk, 0);
    forall i: nat | i < g.maxdir ensures v.dir[i] == BLANK_ENTRY {
      forall j: nat | j < 32 ensures EntryOnDisk(g, disk, i)[j] == 0 {
        DirectoryBehind(g, tab, 32 * i + j);
        MountedByte(g, tab, [], image', boot, timeStamps, diskLabel, 32 * i + j);
      }
      ParsedBlank(EntryOnDisk(g, disk, i));
      MountedEntry(g, disk, i);
    }
    if 2 <= g.maxdir {
      assert v.dir[0] == v.dir[1] == BLANK_ENTRY;
    }
  }

  lemma ParsedBlank(b: seq<byte>)
    requires |b| == 32 && forall j: nat :: j < 32 ==> b[j] == 0
    ensures ParseEntry(b) == BLANK_ENTRY
  {}

  lemma MountedEntry(g: Geometry, disk: seq<seq<byte>>, i: nat)
    requires ValidGeometry(g) && IsDisk(g, disk)
    ensures |Mount(g, disk).dir| == g.maxdir
    ensures i < g.maxdir ==> Mount(g, disk).dir[i] == ParseEntry(EntryOnDisk(g, disk, i))
  {
    hide ValidGeometry, ParseEntry, BufferByte, SlackBytes, AlvOf;
  }

  /** A listed format whose offset is behind all `mkfs` writes. */
  const XEROX_820 := Geometry(128, 26, 77, 1024, 64, 2, 0, 5888, 250, 1, CPMFS_DR22)

  lemma XeroxIsHidden()
    ensures ValidGeometry(XEROX_820) && DerivedSize(XEROX_820)
    ensures 0 < TrackBytes(XEROX_820) && WrittenBytes(XEROX_820) == 3328 < XEROX_820.offset
  {}

  // ----- the fresh volume --------------------------------------------------------------------------------

  /** Status and mode byte of the label `mkfs` writes on CP/M 3 volumes. */
  predicate IsLabel(timeStamps: bool, diskLabel: seq<byte>)
    requires |diskLabel| == 32
  {
    diskLabel[0] == LABEL && diskLabel[12] == (if timeStamps then 0x11 else 0x01)
  }

  /** No entry of a fresh volume belongs to a file, and `fsck` accepts them all. */
  lemma FreshIsEmpty(g: Geometry, timeStamps: bool, diskLabel: seq<byte>, dir: seq<DirEntry>)
    requires |diskLabel| == 32 && (g.os == CPMFS_DR3 ==> IsLabel(timeStamps, diskLabel))
    requires forall i: nat :: i < |dir| ==> FreshAt(g, timeStamps, dir[i], i) || LabelAt(g, diskLabel, dir[i])
    ensures forall i: nat :: i < |dir| ==> !Live(g, dir[i])
    ensures Fsck.FsckGeometry(g) ==> FsckClean.OthersSound(g, dir)
  {
    hide Fsck.FsckGeometry, Fsck.SoundFile, Fsck.SoundPassword, FreshAt, LabelAt, Fsck.Sound;
    forall i: nat | i < |dir| ensures !Live(g, dir[i]) && (Fsck.FsckGeometry(g) ==> Fsck.Sound(g, dir[i])) {
      FreshEntryIsSound(g, timeStamps, diskLabel, dir[i], i);
    }
  }

  lemma FreshEntryIsSound(g: Geometry, timeStamps: bool, diskLabel: seq<byte>, e: DirEntry, i: nat)
    requires |diskLabel| == 32 && (g.os == CPMFS_DR3 ==> IsLabel(timeStamps, diskLabel))
    requires FreshAt(g, timeStamps, e, i) || LabelAt(g, diskLabel, e)
    ensures !Live(g, e) && (Fsck.FsckGeometry(g) ==> Fsck.Sound(g, e))
  {
    hide Fsck.FsckGeometry, Fsck.SoundFile, Fsck.SoundPassword;
    assert EntryBytes(e)[0] == e.status;
    assert EntryBytes(e)[12] == e.extnol;
    assert !Fsck.Bit(0x11, 0x40) && !Fsck.Bit(0x11, 0x80) && !Fsck.Bit(0x01, 0x40) && !Fsck.Bit(0x01, 0x80);
  }

  lemma EmptyVolume(g: Geometry, disk: seq<seq<byte>>)
    requires ValidGeometry(g) && IsDisk(g, disk)
    requires forall i: nat :: i < g.maxdir ==> !Live(g, Mount(g, disk).dir[i])
    ensures NoMpmDates(g) ==> Runs.Refines(g, Mount(g, disk), map[])
    ensures forall b: nat :: b < AlvBits(g) ==> (Mount(g, disk).alv[b] <==> b < g.dirblks)
  {
    hide ValidGeometry, ParseEntry, EntryOnDisk, BufferByte, SlackBytes, KeyOf, Live;
    var v := Mount(g, disk);
    assert forall i, k :: 0 <= i < |v.dir| && 0 <= k < PointersPerEntry(g) ==> LivePtr(g, v.dir[i], k) == 0;
  }

  /** A formatted image mounts as the empty file system, stamped, labelled or neither: nothing but the directory is
      in use, every invariant holds, and `fsck` has nothing to say. This is where every run starts. */
  lemma FreshVolume(g: Geometry, tab: seq<nat>, image: seq<byte>, image': seq<byte>, boot: seq<byte>,
                    timeStamps: bool, diskLabel: seq<byte>)
    requires ValidGeometry(g) && SkewTable(g, tab) && 0 < TrackBytes(g) && |boot| == BootBytes(g)
    requires |diskLabel| == 32 && (g.os == CPMFS_DR3 ==> IsLabel(timeStamps, diskLabel))
    requires Formatted(g, image, image', boot, timeStamps, diskLabel)
    requires AllFormatted(g, tab) && RecordsWhole(g, timeStamps)
    ensures var v := Mount(g, DiskAt(g, tab, image'));
      && (NoMpmDates(g) ==> Runs.Refines(g, v, map[]))
      && (forall b: nat :: b < AlvBits(g) ==> (v.alv[b] <==> b < g.dirblks))
      && (Fsck.FsckGeometry(g) ==> FsckClean.OthersSound(g, v.dir))
  {
    hide ValidGeometry, IsPermutation, TrackBytes, BootBytes, Formatted, Stamped, AlvOf, FreshAt, LabelAt, ParseEntry,
         EntryOnDisk, BlockAt, AllFormatted, RecordsWhole, Consistent, Contents, Ended, FsckClean.OthersSound,
         SlackBytes, IsLabel, Fsck.FsckGeometry;
    var disk := DiskAt(g, tab, image');
    FreshDirectory(g, tab, image, image', boot, timeStamps, diskLabel);
    assert forall i: nat :: i < g.maxdir ==> FreshOrLabel(g, tab, timeStamps, diskLabel, Mount(g, disk).dir[i], i);
    FreshIsEmpty(g, timeStamps, diskLabel, Mount(g, disk).dir);
    EmptyVolume(g, disk);
  }

  /** From the formatted image on: any run of calls keeps the invariant; any run that appends leaves a volume on
      which `fsck` finds at most miscounted blocks, and if no append crosses a 16 KiB boundary inside an entry,
      those only in files longer than 16 KiB on formats that do not split evenly. */
  lemma RunsFromFormat(g: Geometry, tab: seq<nat>, image: seq<byte>, image': seq<byte>, boot: seq<byte>,
                       timeStamps: bool, diskLabel: seq<byte>, ops: seq<Runs.Op>)
    requires ValidGeometry(g) && NoMpmDates(g) && SkewTable(g, tab) && 0 < TrackBytes(g) && |boot| == BootBytes(g)
    requires |diskLabel| == 32 && (g.os == CPMFS_DR3 ==> IsLabel(timeStamps, diskLabel))
    requires Formatted(g, image, image', boot, timeStamps, diskLabel)
    requires AllFormatted(g, tab) && RecordsWhole(g, timeStamps)
    requires (FreshVolume(g, tab, image, image', boot, timeStamps, diskLabel);
              Runs.LegalRun(g, Mount(g, DiskAt(g, tab, image')), ops))
    ensures (FreshVolume(g, tab, image, image', boot, timeStamps, diskLabel);
      var v := Mount(g, DiskAt(g, tab, image'));
      var w := Runs.Run(g, v, ops);
      && Consistent(g, w)
      && (Runs.AppendingRun(g, v, map[], ops) && ValidExtents(g.extents) &&
          (forall j :: 0 <= j < |ops| ==> FsckClean.CleanOp(g, ops[j])) ==>
            && Runs.PlacedRun(g, v, map[], ops) && Fsck.FsckGeometry(g)
            && Fsck.NoSharedBlocks(g, w.dir) && Fsck.NoDuplicateExtents(g, w.dir)
            && var files := Runs.RunFiles(g, v, map[], ops);
               && (FsckClean.AllSound(g, w.dir) <==> FsckClean.AllCounted(g, w.dir, files))
               && ((forall j :: 0 <= j < |ops| ==> Runs.CountsRight(g, ops[j])) ==>
                     (FsckClean.AllSound(g, w.dir) <==>
                        FsckClean.SplitsEvenly(g) || forall f :: f in files ==> |files[f]| <= LOGICAL_EXTENT))))
  {
    hide ValidGeometry, RecordsWhole, IsPermutation, TrackBytes, BootBytes, Formatted, AlvOf, FreshAt, IsLabel,
         ParseEntry, EntryOnDisk, BlockAt, AllFormatted, Consistent, Contents, Ended, FsckClean.OthersSound,
         SlackBytes, Mount, Runs.LegalRun, Runs.AppendingRun, Runs.PlacedRun, Runs.Run, Runs.RunFiles,
         FsckClean.SplitsEvenly, Fsck.FsckGeometry, FsckClean.CleanOp, Runs.CountsRight, ValidExtents,
         FsckClean.AllSound, FsckClean.AllCounted, Fsck.NoSharedBlocks, Fsck.NoDuplicateExtents;
    var v := Mount(g, DiskAt(g, tab, image'));
    FreshVolume(g, tab, image, image', boot, timeStamps, diskLabel);
    Runs.RunConsistent(g, v, ops);
    if Runs.AppendingRun(g, v, map[], ops) && ValidExtents(g.extents) &&
       (forall j :: 0 <= j < |ops| ==> FsckClean.CleanOp(g, ops[j])) {
      FsckClean.FsckGeometryValid(g);
      Runs.AppendingRunIsPlaced(g, v, map[], ops);
      FsckClean.LooselyEnded(g, v.dir, map[]);
      FsckClean.RunIsSound(g, v, map[], ops);
    }
  }
}
