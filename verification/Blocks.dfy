/** Sectors of an image file, and blocks laid over them through the skew table. */
module Blocks {
  import opened Arithmetic
  import opened Geometry
  import opened Skew

  /** A byte of the image; behind its end the device reads zeros. */
  function ByteOf(image: seq<byte>, a: nat): byte {
    if a < |image| then image[a] else 0
  }

  /** Where `Device_readSector` and `Device_writeSector` seek to. */
  function SectorAddress(g: Geometry, track: nat, sector: nat): nat {
    (sector + track * g.sectrk) * g.secLength + g.offset
  }

  /** The image file behind a drive. */
  class Device {
    const g: Geometry
    var image: seq<byte>

    constructor (g: Geometry, image: seq<byte>)
      ensures this.g == g && this.image == image
    {
      this.g := g;
      this.image := image;
    }

    /** `Device_readSector`: a short read is filled up with zeros. */
    method ReadSector(track: nat, sector: nat, buf: array<byte>, at: nat)
      requires sector < g.sectrk && track < g.tracks && at + g.secLength <= buf.Length
      modifies buf
      ensures forall i :: 0 <= i < buf.Length ==>
        buf[i] == if at <= i < at + g.secLength then ByteOf(image, SectorAddress(g, track, sector) + i - at)
          else old(buf[i])
    {
      var start := SectorAddress(g, track, sector);
      var res: nat := if |image| <= start then 0 else if |image| - start < g.secLength then |image| - start
        else g.secLength;
      for i := 0 to res
        invariant forall k :: 0 <= k < buf.Length ==>
          buf[k] == if at <= k < at + i then image[start + k - at] else old(buf[k])
      {
        buf[at + i] := image[start + i];
      }
      for i := res to g.secLength
        invariant forall k :: 0 <= k < buf.Length ==>
          buf[k] == if at <= k < at + i then ByteOf(image, start + k - at) else old(buf[k])
      {
        buf[at + i] := 0;
      }
    }

    /** `Device_writeSector`: writing behind the end extends the file. */
    method WriteSector(track: nat, sector: nat, buf: array<byte>, at: nat)
      requires sector < g.sectrk && track < g.tracks && at + g.secLength <= buf.Length
      modifies this`image
      ensures SplicedAt(old(image), image, SectorAddress(g, track, sector), buf[at..at + g.secLength])
    {
      var start := SectorAddress(g, track, sector);
      image := Spliced(image, start, buf[at..at + g.secLength]);
    }
  }

  /** The image differs from the old one in `bytes` at `start` and nowhere else. */
  ghost predicate SplicedAt(image: seq<byte>, image': seq<byte>, start: nat, bytes: seq<byte>) {
    forall a: nat :: ByteOf(image', a) == if start <= a < start + |bytes| then bytes[a - start] else ByteOf(image, a)
  }

  /** The file after `bytes` are written at `start`; a gap behind the old end reads as zeros. */
  function Spliced(image: seq<byte>, start: nat, bytes: seq<byte>): (r: seq<byte>)
    ensures SplicedAt(image, r, start, bytes)
  {
    var front := if start <= |image| then image[..start] else image + seq<byte>(start - |image|, _ => 0);
    var back := if start + |bytes| <= |image| then image[start + |bytes|..] else [];
    front + bytes + back
  }

  // ----- blocks over sectors ------------------------------------------------------------------------

  function SectorsPerBlock(g: Geometry): nat
    requires ValidGeometry(g)
  {
    g.blksiz / g.secLength
  }

  ghost predicate SkewTable(g: Geometry, tab: seq<nat>) {
    |tab| == g.sectrk && IsPermutation(tab)
  }

  /** Physical sector number, counted over all tracks, of data sector `s`. */
  function PhysicalSector(g: Geometry, tab: seq<nat>, s: nat): nat
    requires 0 < g.sectrk && |tab| == g.sectrk
  {
    tab[s % g.sectrk] + (s / g.sectrk + g.boottrk) * g.sectrk
  }

  /** Image address of the start of data sector `s`. */
  function SectorBase(g: Geometry, tab: seq<nat>, s: nat): nat
    requires 0 < g.sectrk && |tab| == g.sectrk
  {
    SectorAddress(g, s / g.sectrk + g.boottrk, tab[s % g.sectrk])
  }

  /** Image address of byte `o` of block `b`. */
  function Address(g: Geometry, tab: seq<nat>, b: nat, o: nat): nat
    requires ValidGeometry(g) && |tab| == g.sectrk
  {
    SectorBase(g, tab, b * SectorsPerBlock(g) + o / g.secLength) + o % g.secLength
  }

  /** `readBlock` and `writeBlock` compute their first sector differently and agree. */
  lemma StartFormulasAgree(g: Geometry, b: nat)
    requires ValidGeometry(g)
    ensures (b * SectorsPerBlock(g) + g.sectrk * g.boottrk) % g.sectrk == b * SectorsPerBlock(g) % g.sectrk
    ensures (b * SectorsPerBlock(g) + g.sectrk * g.boottrk) / g.sectrk == b * SectorsPerBlock(g) / g.sectrk + g.boottrk
  {
    hide SectorsPerBlock;
    var s := b * SectorsPerBlock(g);
    DivModEquation(s, g.sectrk);
    assert s + g.sectrk * g.boottrk == (s / g.sectrk + g.boottrk) * g.sectrk + s % g.sectrk;
    DivModUnique(s + g.sectrk * g.boottrk, g.sectrk, s / g.sectrk + g.boottrk, s % g.sectrk);
  }

  lemma PhysicalSectorsDistinct(g: Geometry, tab: seq<nat>, s: nat, t: nat)
    requires 0 < g.sectrk && SkewTable(g, tab) && PhysicalSector(g, tab, s) == PhysicalSector(g, tab, t)
    ensures s == t
  {
    hide IsPermutation, PhysicalSector;
    var q, i := PhysicalParts(g, tab, s);
    var r, j := PhysicalParts(g, tab, t);
    TabInjective(tab, i, j);
    SameQuotient(q, r, g.sectrk, tab[i], tab[j]);
  }

  lemma PhysicalParts(g: Geometry, tab: seq<nat>, s: nat) returns (q: nat, i: nat)
    requires 0 < g.sectrk && |tab| == g.sectrk
    ensures g.boottrk <= q && i < g.sectrk
    ensures PhysicalSector(g, tab, s) == q * g.sectrk + tab[i] && s == (q - g.boottrk) * g.sectrk + i
  {
    q, i := s / g.sectrk + g.boottrk, s % g.sectrk;
    DivModEquation(s, g.sectrk);
  }

  lemma TabInjective(tab: seq<nat>, i: nat, j: nat)
    requires IsPermutation(tab) && i < |tab| && j < |tab|
    ensures tab[i] < |tab| && tab[j] < |tab| && (tab[i] == tab[j] ==> i == j)
  {}

  lemma SameQuotient(p: nat, q: nat, c: nat, i: nat, j: nat)
    requires p * c + i == q * c + j && i < c && j < c
    ensures p == q && i == j
  {
    DivModUnique(p * c + i, c, p, i);
    DivModUnique(q * c + j, c, q, j);
  }

  /** Different data sectors occupy disjoint ranges of the image. */
  lemma SectorsDisjoint(g: Geometry, tab: seq<nat>, s: nat, t: nat, i: nat, j: nat)
    requires 0 < g.sectrk && 0 < g.secLength && SkewTable(g, tab) && i < g.secLength && j < g.secLength
    requires SectorBase(g, tab, s) + i == SectorBase(g, tab, t) + j
    ensures s == t && i == j
  {
    hide PhysicalSector, SectorBase, SectorAddress, IsPermutation;
    var p, q := PhysicalSectorOf(g, tab, s), PhysicalSectorOf(g, tab, t);
    SameQuotient(p, q, g.secLength, i, j);
    PhysicalSectorsDistinct(g, tab, s, t);
  }

  function PhysicalSectorOf(g: Geometry, tab: seq<nat>, s: nat): (p: nat)
    requires 0 < g.sectrk && |tab| == g.sectrk
    ensures p == PhysicalSector(g, tab, s) && SectorBase(g, tab, s) == p * g.secLength + g.offset
  {
    PhysicalSector(g, tab, s)
  }

  /** The sectors of a block, and no others, lie in its range of sector numbers. */
  lemma SectorOfBlock(g: Geometry, b: nat, o: nat)
    requires ValidGeometry(g) && o < g.blksiz
    ensures o / g.secLength < SectorsPerBlock(g) && 0 < SectorsPerBlock(g)
    ensures (b * SectorsPerBlock(g) + o / g.secLength) / SectorsPerBlock(g) == b
    ensures (b * SectorsPerBlock(g) + o / g.secLength) % SectorsPerBlock(g) == o / g.secLength
  {
    hide ValidBlockSize, ValidExtents;
    DivModEquation(g.blksiz, g.secLength);
    SectorNumber(b, SectorsPerBlock(g), g.secLength, o);
  }

  lemma SectorNumber(b: nat, n: nat, d: nat, o: nat)
    requires 0 < d && o < n * d
    ensures o / d < n && (b * n + o / d) / n == b && (b * n + o / d) % n == o / d
  {
    DivModEquation(o, d);
    if n <= o / d {
      MulMonotone(n, o / d, d);
    }
    DivModUnique(b * n + o / d, n, b, o / d);
  }

  /** Distinct bytes of blocks have distinct addresses. */
  lemma AddressInjective(g: Geometry, tab: seq<nat>, b: nat, o: nat, c: nat, p: nat)
    requires ValidGeometry(g) && SkewTable(g, tab) && o < g.blksiz && p < g.blksiz
    requires Address(g, tab, b, o) == Address(g, tab, c, p)
    ensures b == c && o == p
  {
    hide SectorBase, SectorsPerBlock, SkewTable, ValidBlockSize, ValidExtents;
    var n := SectorsPerBlock(g);
    SectorOfBlock(g, b, o);
    SectorOfBlock(g, c, p);
    SectorsDisjoint(g, tab, b * n + o / g.secLength, c * n + p / g.secLength, o % g.secLength, p % g.secLength);
    DivModEquation(o, g.secLength);
    DivModEquation(p, g.secLength);
  }

  /** The bytes of the blocks are numbered through from the first data track on: byte number `p` lies in track
      `p / (sectrk * secLength)` behind the boot tracks, in the sector the skew table names for its place there. */
  lemma AddressByNumber(g: Geometry, tab: seq<nat>, b: nat, o: nat)
    requires ValidGeometry(g) && |tab| == g.sectrk && o < g.blksiz && 0 < g.sectrk * g.secLength
    ensures var p := b * g.blksiz + o;
      Address(g, tab, b, o) ==
        g.offset + (g.boottrk + p / (g.sectrk * g.secLength)) * (g.sectrk * g.secLength)
        + tab[p / g.secLength % g.sectrk] * g.secLength + p % g.secLength
  {
    hide ValidBlockSize, ValidExtents;
    var n := SectorsPerBlock(g);
    var s := b * n + o / g.secLength;
    DivModEquation(g.blksiz, g.secLength);
    DivModEquation(o, g.secLength);
    ByteNumber(b, n, g.secLength, g.blksiz, o);
    DivDiv(b * g.blksiz + o, g.secLength, g.sectrk);
    assert g.secLength * g.sectrk == g.sectrk * g.secLength;
    TrackAndSector(s / g.sectrk + g.boottrk, tab[s % g.sectrk], g.sectrk, g.secLength);
  }

  lemma ByteNumber(b: nat, n: nat, d: nat, blksiz: nat, o: nat)
    requires 0 < d && blksiz == n * d
    ensures (b * blksiz + o) / d == b * n + o / d && (b * blksiz + o) % d == o % d
  {
    DivModEquation(o, d);
    assert b * blksiz == (b * n) * d by {
      assert b * (n * d) == (b * n) * d;
    }
    assert (b * n + o / d) * d == (b * n) * d + o / d * d;
    DivModUnique(b * blksiz + o, d, b * n + o / d, o % d);
  }

  lemma TrackAndSector(track: nat, sector: nat, sectrk: nat, length: nat)
    ensures (sector + track * sectrk) * length == track * (sectrk * length) + sector * length
  {
    assert (sector + track * sectrk) * length == sector * length + track * sectrk * length;
    assert track * sectrk * length == track * (sectrk * length);
  }

  /** Without skew, the blocks follow the boot tracks one after the other. */
  lemma PlainAddress(g: Geometry, tab: seq<nat>, b: nat, o: nat)
    requires ValidGeometry(g) && |tab| == g.sectrk && o < g.blksiz && forall i :: 0 <= i < |tab| ==> tab[i] == i
    ensures Address(g, tab, b, o) == g.offset + g.boottrk * (g.sectrk * g.secLength) + b * g.blksiz + o
  {
    hide ValidBlockSize, ValidExtents, Address, SectorsPerBlock;
    var p, t := b * g.blksiz + o, g.sectrk * g.secLength;
    MulMonotone(1, g.sectrk, g.secLength);
    AddressByNumber(g, tab, b, o);
    DivDiv(p, g.secLength, g.sectrk);
    assert g.secLength * g.sectrk == t;
    InOrder(p, p / g.secLength, g.secLength, g.sectrk, g.boottrk);
  }

  lemma InOrder(p: nat, s: nat, length: nat, sectrk: nat, boottrk: nat)
    requires 0 < length && 0 < sectrk && s == p / length
    ensures (boottrk + s / sectrk) * (sectrk * length) + s % sectrk * length + p % length
         == boottrk * (sectrk * length) + p
  {
    DivModEquation(p, length);
    DivModEquation(s, sectrk);
    var q, r := s / sectrk, s % sectrk;
    assert (boottrk + q) * (sectrk * length) == boottrk * (sectrk * length) + q * (sectrk * length);
    assert q * (sectrk * length) == q * sectrk * length;
    assert (q * sectrk + r) * length == q * sectrk * length + r * length;
  }

  lemma CancelLength(a: nat, b: nat, c: nat)
    requires 0 < c && a * c <= b * c
    ensures a <= b
  {
    if b < a {
      MulMonotone(b + 1, a, c);
    }
    assert (b + 1) * c == b * c + c;
  }

  lemma DataSectorTrack(g: Geometry, b: nat, o: nat)
    requires ValidGeometry(g) && b < g.size && o < g.blksiz
    ensures (b * SectorsPerBlock(g) + o / g.secLength) / g.sectrk + g.boottrk < g.tracks
  {
    hide ValidBlockSize, ValidExtents;
    var n := SectorsPerBlock(g);
    var s, all := b * n + o / g.secLength, (g.tracks - g.boottrk) * g.sectrk;
    SectorOfBlock(g, b, o);
    DivModEquation(g.blksiz, g.secLength);
    assert (g.size * n) * g.secLength == g.size * (n * g.secLength);
    CancelLength(g.size * n, all, g.secLength);
    MulMonotone(b + 1, g.size, n);
    assert (b + 1) * n == b * n + n;
    LastTrack(s, g.tracks - g.boottrk, g.sectrk);
  }

  lemma LastTrack(s: nat, tracks: nat, sectrk: nat)
    requires 0 < sectrk && s < tracks * sectrk
    ensures s / sectrk < tracks
  {
    if tracks > 0 {
      assert (tracks - 1) * sectrk + sectrk == tracks * sectrk;
      QuotientBound(s, sectrk, tracks - 1);
    }
  }

  lemma PhysicalSectorRange(g: Geometry, tab: seq<nat>, s: nat)
    requires 0 < g.sectrk && SkewTable(g, tab) && s / g.sectrk + g.boottrk < g.tracks
    ensures g.boottrk * g.sectrk <= PhysicalSector(g, tab, s) < g.tracks * g.sectrk
  {
    var t := s / g.sectrk + g.boottrk;
    MulMonotone(g.boottrk, t, g.sectrk);
    MulMonotone(t + 1, g.tracks, g.sectrk);
    assert (t + 1) * g.sectrk == t * g.sectrk + g.sectrk;
  }

  /** Blocks lie in the data tracks: behind the boot tracks and before the end of the volume. */
  lemma AddressInTracks(g: Geometry, tab: seq<nat>, b: nat, o: nat)
    requires ValidGeometry(g) && SkewTable(g, tab) && b < g.size && o < g.blksiz
    ensures SectorAddress(g, g.boottrk, 0) <= Address(g, tab, b, o) < SectorAddress(g, g.tracks, 0)
    ensures (b * SectorsPerBlock(g) + o / g.secLength) / g.sectrk + g.boottrk < g.tracks
  {
    hide SectorBase, SectorsPerBlock, ValidGeometry, IsPermutation, SectorAddress;
    PositiveParts(g);
    var s := b * SectorsPerBlock(g) + o / g.secLength;
    DataSectorTrack(g, b, o);
    DivModEquation(o, g.secLength);
    SectorInTracks(g, tab, s, o % g.secLength);
  }

  lemma SectorInTracks(g: Geometry, tab: seq<nat>, s: nat, i: nat)
    requires 0 < g.sectrk && SkewTable(g, tab) && s / g.sectrk + g.boottrk < g.tracks && i < g.secLength
    ensures SectorAddress(g, g.boottrk, 0) <= SectorBase(g, tab, s) + i < SectorAddress(g, g.tracks, 0)
  {
    hide PhysicalSector, SectorBase, IsPermutation;
    var p := PhysicalSectorOf(g, tab, s);
    PhysicalSectorRange(g, tab, s);
    ScaledRange(g.boottrk * g.sectrk, p, g.tracks * g.sectrk, g.secLength, i);
  }

  lemma ScaledRange(low: nat, p: nat, high: nat, c: nat, i: nat)
    requires low <= p < high && i < c
    ensures low * c <= p * c + i < high * c
  {
    MulMonotone(low, p, c);
    MulMonotone(p + 1, high, c);
    assert (p + 1) * c == p * c + c;
  }

  /** Offset `o` of a block lies in one of its sectors `start` to `end`. */
  predicate InSectors(g: Geometry, o: nat, start: nat, end: int)
    requires 0 < g.secLength
  {
    start <= o / g.secLength <= end
  }

  lemma SectorRange(length: nat, counter: nat, o: nat)
    requires 0 < length
    ensures counter * length <= o < counter * length + length <==> o / length == counter
    ensures o / length == counter ==> o - counter * length == o % length
  {
    DivModEquation(o, length);
    if counter * length <= o < counter * length + length {
      DivModUnique(o, length, counter, o - counter * length);
    }
  }

  /** The sector and track counters of the transfer loops step through the sectors of a block. */
  lemma NextSector(s: nat, sectrk: nat)
    requires 0 < sectrk
    ensures if s % sectrk + 1 >= sectrk then (s + 1) % sectrk == 0 && (s + 1) / sectrk == s / sectrk + 1
            else (s + 1) % sectrk == s % sectrk + 1 && (s + 1) / sectrk == s / sectrk
  {
    DivModEquation(s, sectrk);
    NextInTrack(s, sectrk, s / sectrk, s % sectrk);
  }

  lemma NextInTrack(s: nat, d: nat, q: nat, r: nat)
    requires s == q * d + r && r < d
    ensures if r + 1 >= d then (s + 1) % d == 0 && (s + 1) / d == q + 1 else (s + 1) % d == r + 1 && (s + 1) / d == q
  {
    if r + 1 >= d {
      assert (q + 1) * d == q * d + d;
      DivModUnique(s + 1, d, q + 1, 0);
    } else {
      DivModUnique(s + 1, d, q, r + 1);
    }
  }

  /** Sector `counter` of a block: where it is, and that it fits the buffer. */
  lemma SectorOfTransfer(g: Geometry, tab: seq<nat>, b: nat, counter: nat)
    requires ValidGeometry(g) && SkewTable(g, tab) && b < g.size && counter < SectorsPerBlock(g)
    ensures (b * SectorsPerBlock(g) + counter) / g.sectrk + g.boottrk < g.tracks
    ensures tab[(b * SectorsPerBlock(g) + counter) % g.sectrk] < g.sectrk
    ensures counter * g.secLength + g.secLength <= g.blksiz
    ensures forall o: nat :: counter * g.secLength <= o < counter * g.secLength + g.secLength <==>
      o / g.secLength == counter
    ensures forall o: nat :: o / g.secLength == counter ==>
      Address(g, tab, b, o) == SectorBase(g, tab, b * SectorsPerBlock(g) + counter) + o - counter * g.secLength
  {
    hide ValidBlockSize, ValidExtents, SectorBase, SectorsPerBlock;
    var o := counter * g.secLength;
    SectorFits(g, counter);
    DivModUnique(o, g.secLength, counter, 0);
    DataSectorTrack(g, b, o);
    forall p: nat
      ensures counter * g.secLength <= p < counter * g.secLength + g.secLength <==> p / g.secLength == counter
      ensures p / g.secLength == counter ==> p - counter * g.secLength == p % g.secLength
    {
      SectorRange(g.secLength, counter, p);
    }
  }

  lemma SectorFits(g: Geometry, counter: nat)
    requires ValidGeometry(g) && counter < SectorsPerBlock(g)
    ensures counter * g.secLength + g.secLength <= g.blksiz
  {
    DivModEquation(g.blksiz, g.secLength);
    MulMonotone(counter + 1, SectorsPerBlock(g), g.secLength);
    assert (counter + 1) * g.secLength == counter * g.secLength + g.secLength;
  }

  lemma PositiveParts(g: Geometry)
    requires ValidGeometry(g)
    ensures 0 < g.sectrk && 0 < g.secLength && 0 < g.blksiz && 0 < SectorsPerBlock(g)
  {
    SectorOfBlock(g, 0, 0);
  }

  /** The sector and track counters stand at sector `counter` of block `b`. */
  predicate AtSector(g: Geometry, b: nat, counter: nat, sect: nat, track: nat)
    requires ValidGeometry(g)
  {
    var s := b * SectorsPerBlock(g) + counter;
    sect == s % g.sectrk && track == s / g.sectrk + g.boottrk
  }

  lemma AtNextSector(g: Geometry, b: nat, counter: nat, sect: nat, track: nat)
    requires ValidGeometry(g) && AtSector(g, b, counter, sect, track)
    ensures if sect + 1 >= g.sectrk then AtSector(g, b, counter + 1, 0, track + 1)
      else AtSector(g, b, counter + 1, sect + 1, track)
  {
    hide SectorsPerBlock;
    NextSector(b * SectorsPerBlock(g) + counter, g.sectrk);
  }

  lemma AtFirstSector(g: Geometry, b: nat)
    requires ValidGeometry(g)
    ensures var s := b * SectorsPerBlock(g);
      && AtSector(g, b, 0, (s + g.sectrk * g.boottrk) % g.sectrk, (s + g.sectrk * g.boottrk) / g.sectrk)
      && AtSector(g, b, 0, s % g.sectrk, s / g.sectrk + g.boottrk)
  {
    StartFormulasAgree(g, b);
  }

  method ReadSectorOfBlock(dev: Device, tab: array<nat>, b: nat, counter: nat, sect: nat, track: nat,
                           buffer: array<byte>)
    requires ValidGeometry(dev.g) && SkewTable(dev.g, tab[..]) && b < dev.g.size && counter < SectorsPerBlock(dev.g)
    requires AtSector(dev.g, b, counter, sect, track) && dev.g.blksiz <= buffer.Length
    modifies buffer
    ensures forall o :: 0 <= o < buffer.Length ==>
      buffer[o] == if o / dev.g.secLength == counter then ByteOf(dev.image, Address(dev.g, tab[..], b, o))
        else old(buffer[o])
  {
    hide ValidBlockSize, ValidExtents, Address, SectorsPerBlock;
    SectorOfTransfer(dev.g, tab[..], b, counter);
    dev.ReadSector(track, tab[sect], buffer, counter * dev.g.secLength);
  }

  /** `readBlock`: sectors `start` to `end` of block `b`; a negative `end` means the last one. */
  method ReadBlock(dev: Device, tab: array<nat>, b: nat, buffer: array<byte>, start: nat, end: int) returns (r: int)
    requires ValidGeometry(dev.g) && SkewTable(dev.g, tab[..])
    requires end < SectorsPerBlock(dev.g) && dev.g.blksiz <= buffer.Length
    modifies buffer
    ensures r == if b < dev.g.size then 0 else -1
    ensures forall o :: 0 <= o < buffer.Length ==>
      buffer[o] == if b < dev.g.size && InSectors(dev.g, o, start, LastSector(dev.g, end))
                   then ByteOf(dev.image, Address(dev.g, tab[..], b, o)) else old(buffer[o])
  {
    hide ValidGeometry, SectorsPerBlock, Address, AtSector;
    var g := dev.g;
    PositiveParts(g);
    if b >= g.size {
      return -1;
    }
    var last := LastSector(g, end);
    AtFirstSector(g, b);
    var sect: nat := (b * SectorsPerBlock(g) + g.sectrk * g.boottrk) % g.sectrk;
    var track: nat := (b * SectorsPerBlock(g) + g.sectrk * g.boottrk) / g.sectrk;
    var counter: nat := 0;
    while counter <= last
      invariant counter <= last + 1 && AtSector(g, b, counter, sect, track)
      invariant forall o :: 0 <= o < buffer.Length ==>
        buffer[o] == if InSectors(g, o, start, counter - 1) then ByteOf(dev.image, Address(g, tab[..], b, o))
          else old(buffer[o])
    {
      if counter >= start {
        ReadSectorOfBlock(dev, tab, b, counter, sect, track, buffer);
      }
      AtNextSector(g, b, counter, sect, track);
      sect := sect + 1;
      if sect >= g.sectrk {
        sect, track := 0, track + 1;
      }
      counter := counter + 1;
    }
    r := 0;
  }

  function LastSector(g: Geometry, end: int): int
    requires ValidGeometry(g)
  {
    if end < 0 then SectorsPerBlock(g) - 1 else end
  }

  /** Address `a` holds a byte of sectors `start` to `end` of block `b`. */
  ghost predicate InRange(g: Geometry, tab: seq<nat>, b: nat, start: nat, end: int, a: nat)
    requires ValidGeometry(g) && |tab| == g.sectrk
  {
    exists o: nat :: o < g.blksiz && InSectors(g, o, start, end) && Address(g, tab, b, o) == a
  }

  /** What `writeBlock` leaves on the image: sectors `start` to `end` of block `b` hold `bytes`, and
      every other byte is as before. */
  ghost predicate WroteBlock(g: Geometry, tab: seq<nat>, image: seq<byte>, image': seq<byte>, b: nat,
                             bytes: seq<byte>, start: nat, end: int)
    requires ValidGeometry(g) && |tab| == g.sectrk && g.blksiz <= |bytes|
  {
    && (forall o: nat :: o < g.blksiz && InSectors(g, o, start, end) ==>
      ByteOf(image', Address(g, tab, b, o)) == bytes[o])
    && (forall a: nat :: !InRange(g, tab, b, start, end, a) ==> ByteOf(image', a) == ByteOf(image, a))
  }

  method WriteSectorOfBlock(dev: Device, tab: array<nat>, b: nat, counter: nat, sect: nat, track: nat,
                            buffer: array<byte>)
    requires ValidGeometry(dev.g) && SkewTable(dev.g, tab[..]) && b < dev.g.size && counter < SectorsPerBlock(dev.g)
    requires AtSector(dev.g, b, counter, sect, track) && dev.g.blksiz <= buffer.Length
    modifies dev`image
    ensures WroteBlock(dev.g, tab[..], old(dev.image), dev.image, b, buffer[..], counter, counter)
  {
    hide ValidBlockSize, ValidExtents, SectorsPerBlock, Address;
    SectorOfTransfer(dev.g, tab[..], b, counter);
    dev.WriteSector(track, tab[sect], buffer, counter * dev.g.secLength);
    SectorWritten(dev.g, tab[..], old(dev.image), dev.image, b, buffer[..], counter);
  }

  lemma SectorWritten(g: Geometry, tab: seq<nat>, image: seq<byte>, image': seq<byte>, b: nat, bytes: seq<byte>,
                      counter: nat)
    requires ValidGeometry(g) && SkewTable(g, tab) && b < g.size && counter < SectorsPerBlock(g) && g.blksiz <= |bytes|
    requires counter * g.secLength + g.secLength <= g.blksiz
    requires SplicedAt(image, image', SectorBase(g, tab, b * SectorsPerBlock(g) + counter),
                       bytes[counter * g.secLength..counter * g.secLength + g.secLength])
    ensures WroteBlock(g, tab, image, image', b, bytes, counter, counter)
  {
    hide ValidBlockSize, ValidExtents, SectorsPerBlock, Address, SectorBase;
    SectorOfTransfer(g, tab, b, counter);
    var start, at := SectorBase(g, tab, b * SectorsPerBlock(g) + counter), counter * g.secLength;
    forall a: nat | start <= a < start + g.secLength ensures InRange(g, tab, b, counter, counter, a) {
      assert Address(g, tab, b, at + a - start) == a;
    }
  }

  /** Writing one more sector after sectors `start` to `end` writes sectors `start` to `end + 1`. */
  lemma WroteNextSector(g: Geometry, tab: seq<nat>, i0: seq<byte>, i1: seq<byte>, i2: seq<byte>, b: nat,
                        bytes: seq<byte>, start: nat, end: int)
    requires ValidGeometry(g) && SkewTable(g, tab) && g.blksiz <= |bytes| && start <= end + 1 && 0 <= end + 1
    requires WroteBlock(g, tab, i0, i1, b, bytes, start, end) && WroteBlock(g, tab, i1, i2, b, bytes, end + 1, end + 1)
    ensures WroteBlock(g, tab, i0, i2, b, bytes, start, end + 1)
  {
    hide ValidBlockSize, ValidExtents, Address, IsPermutation;
    PositiveParts(g);
    forall o: nat | o < g.blksiz && InSectors(g, o, start, end + 1)
      ensures ByteOf(i2, Address(g, tab, b, o)) == bytes[o] {
      if InSectors(g, o, start, end) && InRange(g, tab, b, end + 1, end + 1, Address(g, tab, b, o)) {
        var p: nat :| p < g.blksiz && InSectors(g, p, end + 1, end + 1) &&
          Address(g, tab, b, p) == Address(g, tab, b, o);
        AddressInjective(g, tab, b, o, b, p);
      }
    }
  }

  lemma WroteNothing(g: Geometry, tab: seq<nat>, image: seq<byte>, b: nat, bytes: seq<byte>, start: nat, end: int)
    requires ValidGeometry(g) && SkewTable(g, tab) && g.blksiz <= |bytes| && end < start
    ensures WroteBlock(g, tab, image, image, b, bytes, start, end)
  {
    hide ValidBlockSize, ValidExtents, Address;
  }

  /** `writeBlock`. */
  method WriteBlock(dev: Device, tab: array<nat>, b: nat, buffer: array<byte>, start: nat, end: int)
    requires ValidGeometry(dev.g) && SkewTable(dev.g, tab[..]) && b < dev.g.size
    requires end < SectorsPerBlock(dev.g) && dev.g.blksiz <= buffer.Length
    modifies dev`image
    ensures WroteBlock(dev.g, tab[..], old(dev.image), dev.image, b, buffer[..], start, LastSector(dev.g, end))
  {
    hide ValidGeometry, SectorsPerBlock, Address, AtSector, WroteBlock;
    var g := dev.g;
    PositiveParts(g);
    var last := LastSector(g, end);
    AtFirstSector(g, b);
    var sect: nat := b * SectorsPerBlock(g) % g.sectrk;
    var track: nat := b * SectorsPerBlock(g) / g.sectrk + g.boottrk;
    var counter: nat := 0;
    WroteNothing(g, tab[..], dev.image, b, buffer[..], start, -1);
    while counter <= last
      invariant counter <= last + 1 && AtSector(g, b, counter, sect, track)
      invariant WroteBlock(g, tab[..], old(dev.image), dev.image, b, buffer[..], start, counter - 1)
    {
      ghost var before := dev.image;
      if counter >= start {
        WriteSectorOfBlock(dev, tab, b, counter, sect, track, buffer);
        WroteNextSector(g, tab[..], old(dev.image), before, dev.image, b, buffer[..], start, counter - 1);
      } else {
        WroteStill(g, tab[..], old(dev.image), dev.image, b, buffer[..], start, counter);
      }
      AtNextSector(g, b, counter, sect, track);
      sect := sect + 1;
      if sect >= g.sectrk {
        sect, track := 0, track + 1;
      }
      counter := counter + 1;
    }
  }

  lemma WroteStill(g: Geometry, tab: seq<nat>, image: seq<byte>, image': seq<byte>, b: nat, bytes: seq<byte>,
                   start: nat, counter: nat)
    requires ValidGeometry(g) && SkewTable(g, tab) && g.blksiz <= |bytes| && counter < start
    requires WroteBlock(g, tab, image, image', b, bytes, start, counter - 1)
    ensures WroteBlock(g, tab, image, image', b, bytes, start, counter)
  {
    hide ValidBlockSize, ValidExtents, Address;
  }

  // ----- the logical disk ----------------------------------------------------------------------------

  /** The bytes of block `b`. */
  function BlockAt(g: Geometry, tab: seq<nat>, image: seq<byte>, b: nat): (r: seq<byte>)
    requires ValidGeometry(g) && |tab| == g.sectrk
    ensures |r| == g.blksiz
  {
    seq<byte>(g.blksiz, o requires 0 <= o < g.blksiz => ByteOf(image, Address(g, tab, b, o)))
  }

  /** All blocks of the volume. */
  function DiskAt(g: Geometry, tab: seq<nat>, image: seq<byte>): (r: seq<seq<byte>>)
    requires ValidGeometry(g) && |tab| == g.sectrk
    ensures |r| == g.size && forall b :: 0 <= b < g.size ==> |r[b]| == g.blksiz
  {
    seq(g.size, b requires 0 <= b < g.size => BlockAt(g, tab, image, b))
  }

  /** A block with sectors `start` to `end` replaced. */
  function Patched(g: Geometry, block: seq<byte>, bytes: seq<byte>, start: nat, end: int): (r: seq<byte>)
    requires 0 < g.secLength && |block| <= |bytes|
    ensures |r| == |block|
  {
    seq<byte>(|block|, o requires 0 <= o < |block| => if InSectors(g, o, start, end) then bytes[o] else block[o])
  }

  /** On the logical disk a write changes the written sectors of its block and nothing else. */
  lemma WroteBlockOnDisk(g: Geometry, tab: seq<nat>, image: seq<byte>, image': seq<byte>, b: nat, bytes: seq<byte>,
                         start: nat, end: int)
    requires ValidGeometry(g) && SkewTable(g, tab) && b < g.size && g.blksiz <= |bytes|
    requires WroteBlock(g, tab, image, image', b, bytes, start, end)
    ensures DiskAt(g, tab, image') ==
      DiskAt(g, tab, image)[b := Patched(g, BlockAt(g, tab, image, b), bytes, start, end)]
  {
    hide ValidBlockSize, ValidExtents, Address, IsPermutation;
    forall c: nat, o: nat | c < g.size && o < g.blksiz
      ensures ByteOf(image', Address(g, tab, c, o)) ==
        if c == b && InSectors(g, o, start, end) then bytes[o] else ByteOf(image, Address(g, tab, c, o))
    {
      ByteAfterWrite(g, tab, image, image', b, bytes, start, end, c, o);
    }
    var disk, disk' := DiskAt(g, tab, image), DiskAt(g, tab, image');
    forall c | 0 <= c < g.size
      ensures disk'[c] == disk[b := Patched(g, BlockAt(g, tab, image, b), bytes, start, end)][c]
    {}
  }

  lemma ByteAfterWrite(g: Geometry, tab: seq<nat>, image: seq<byte>, image': seq<byte>, b: nat, bytes: seq<byte>,
                       start: nat, end: int, c: nat, o: nat)
    requires ValidGeometry(g) && SkewTable(g, tab) && g.blksiz <= |bytes| && c < g.size && o < g.blksiz
    requires WroteBlock(g, tab, image, image', b, bytes, start, end)
    ensures ByteOf(image', Address(g, tab, c, o)) ==
      if c == b && InSectors(g, o, start, end) then bytes[o] else ByteOf(image, Address(g, tab, c, o))
  {
    hide ValidBlockSize, ValidExtents, Address, IsPermutation;
    var a := Address(g, tab, c, o);
    if InRange(g, tab, b, start, end, a) {
      var p: nat :| p < g.blksiz && InSectors(g, p, start, end) && Address(g, tab, b, p) == a;
      AddressInjective(g, tab, b, p, c, o);
    }
  }

  /** Writing a block leaves the boot tracks, and everything outside the volume, alone. */
  lemma WriteStaysInTracks(g: Geometry, tab: seq<nat>, image: seq<byte>, image': seq<byte>, b: nat, bytes: seq<byte>,
                           start: nat, end: int, a: nat)
    requires ValidGeometry(g) && SkewTable(g, tab) && b < g.size && g.blksiz <= |bytes|
    requires WroteBlock(g, tab, image, image', b, bytes, start, end)
    requires a < SectorAddress(g, g.boottrk, 0) || SectorAddress(g, g.tracks, 0) <= a
    ensures ByteOf(image', a) == ByteOf(image, a)
  {
    hide ValidBlockSize, ValidExtents, Address, SectorAddress;
    if InRange(g, tab, b, start, end, a) {
      var o: nat :| o < g.blksiz && InSectors(g, o, start, end) && Address(g, tab, b, o) == a;
      AddressInTracks(g, tab, b, o);
    }
  }
}
