/** The size `cpmNamei` reports after writes of any length at any position: what it is, and exactly when
    it is right. */
module Sizes {
  import opened Wrappers
  import opened Arithmetic
  import opened Geometry
  import opened Directory
  import opened Volume
  import opened Invariant
  import opened Refinement
  import opened Overwrites
  import opened Runs

  /** Where the last physical extent touched by a write of `n` bytes at `pos` was entered. */
  function LastEntered(g: Geometry, pos: nat, n: nat): nat
    requires ValidGeometry(g) && 0 < n
  {
    var x := PhysicalExtent(g, pos + n - 1);
    if PhysicalExtent(g, pos) == x then pos else SlotStart(g, x, 0)
  }

  /** The extent number that ends up in the last entry. */
  function StoredExtentNumber(g: Geometry, cursor: Option<Cursor>, pos: nat, n: nat): nat
    requires ValidGeometry(g) && 0 < n
  {
    if cursor.Some? && PhysicalExtent(g, pos) == PhysicalExtent(g, pos + n - 1) then cursor.value.extentno
    else LastEntered(g, pos, n) / LOGICAL_EXTENT
  }

  /** The file has no extent behind `x`. */
  ghost predicate EntriesUpTo(g: Geometry, dir: seq<DirEntry>, f: Key, x: nat)
    requires ValidGeometry(g)
  {
    forall i :: 0 <= i < |dir| && Live(g, dir[i]) && KeyOf(dir[i]) == f ==> PhysicalOf(g, dir[i]) <= x
  }

  /** The entry of extent `x` records `extentno` and the end `end`. */
  ghost predicate EntryIs(g: Geometry, dir: seq<DirEntry>, f: Key, x: nat, extentno: nat, end: nat)
    requires ValidGeometry(g) && 0 < end
  {
    exists i :: 0 <= i < |dir| && Live(g, dir[i]) && KeyOf(dir[i]) == f && PhysicalOf(g, dir[i]) == x
                && ExtentNumber(dir[i]) == extentno && dir[i] == WithEnd(g, dir[i], extentno, end)
  }

  predicate Within(g: Geometry, e: DirEntry, f: Key, x: nat)
    requires ValidGeometry(g)
  {
    Live(g, e) && KeyOf(e) == f && PhysicalOf(g, e) <= x
  }

  /** Entries changed only if they belong to the first extents of one file, or were unused and now do. */
  ghost predicate SameOutside(g: Geometry, dir: seq<DirEntry>, dir': seq<DirEntry>, f: Key, x: nat)
    requires ValidGeometry(g)
  {
    |dir'| == |dir| && forall i :: 0 <= i < |dir| ==>
      dir'[i] == dir[i] || (Within(g, dir'[i], f, x) && (!Live(g, dir[i]) || Within(g, dir[i], f, x)))
  }

  lemma SameOutsideTransitive(g: Geometry, u: seq<DirEntry>, v: seq<DirEntry>, w: seq<DirEntry>, f: Key, x: nat, y: nat)
    requires ValidGeometry(g) && SameOutside(g, u, v, f, x) && SameOutside(g, v, w, f, y) && x <= y
    ensures SameOutside(g, u, w, f, y)
  {
    hide ValidGeometry, KeyOf, Live, PhysicalOf;
  }

  lemma UpToStays(g: Geometry, dir: seq<DirEntry>, dir': seq<DirEntry>, f: Key, x: nat, y: nat)
    requires ValidGeometry(g) && SameOutside(g, dir, dir', f, x) && EntriesUpTo(g, dir, f, y) && x <= y
    ensures EntriesUpTo(g, dir', f, y)
  {
    hide ValidGeometry, KeyOf, Live, PhysicalOf;
  }

  // ----- one call ------------------------------------------------------------------------------------

  /** One pass leaves its end, and the extent number it was opened with, in the entry of `pos`. */
  lemma PassRecordsEnd(g: Geometry, v: Volume, ino: nat, pos: nat, cursor: Option<Cursor>, data: seq<byte>,
                       buffer: seq<byte>)
    requires WriteState(g, v, ino, pos, cursor, |data|, buffer) && Writable(g, v, ino, cursor, buffer) && 0 < |data|
    requires WritePass(g, v, ino, pos, cursor, data, buffer).Stored?
    ensures var r := WritePass(g, v, ino, pos, cursor, data, buffer);
      var extentno := if cursor.Some? then cursor.value.extentno else pos / LOGICAL_EXTENT;
      && Offset(g, pos) + r.n <= g.blksiz && 0 < r.n
      && EntryIs(g, r.vol.dir, KeyOf(v.dir[ino]), PhysicalExtent(g, pos), extentno, pos + r.n)
      && SameOutside(g, v.dir, r.vol.dir, KeyOf(v.dir[ino]), PhysicalExtent(g, pos))
      && (if PhysicalExtent(g, pos + r.n) != PhysicalExtent(g, pos) then r.cursor == None
          else r.cursor.Some? && r.cursor.value.extentno == extentno)
  {
    hide ValidGeometry, Consistent, CursorOk, CursorFits, BlockPass, KeyOf, Live, WellSized, PointersInRange,
         PhysicalOf, WithEnd, ExtentEntry;
    OpenedConsistent(g, v, ino, pos, cursor);
    var (v1, c) := Opened(g, v, ino, pos, cursor).value;
    ConsistentIsMounted(g, v1);
    BlockPassConsistent(g, v1, ino, c, pos, data, buffer);
    var b, block := BlockPassStores(g, v1, ino, c, pos, data, buffer);
    CursorEntry(g, v1, ino, pos, c);
    OpenedOutside(g, v, ino, pos, cursor);
    var dir' := BlockPass(g, v1, c, pos, data, buffer).vol.dir;
    assert Live(g, dir'[c.extent]) && KeyOf(dir'[c.extent]) == KeyOf(v.dir[ino]);
    SameOutsideTransitive(g, v.dir, v1.dir, dir', KeyOf(v.dir[ino]), PhysicalExtent(g, pos), PhysicalExtent(g, pos));
  }

  lemma OpenedOutside(g: Geometry, v: Volume, ino: nat, pos: nat, cursor: Option<Cursor>)
    requires Consistent(g, v) && ino < |v.dir| && Live(g, v.dir[ino]) && pos < MAX_FILE
    requires Opened(g, v, ino, pos, cursor).Some?
    ensures SameOutside(g, v.dir, Opened(g, v, ino, pos, cursor).value.0.dir, KeyOf(v.dir[ino]), PhysicalExtent(g, pos))
  {
    hide ValidGeometry, Consistent, KeyOf, PhysicalOf, ExtentEntry;
    ConsistentIsMounted(g, v);
    ExtentEntryFacts(g, v.dir[ino], pos);
  }

  /** How the stored extent number of a write follows from that of its rest. */
  lemma StoredNumberStep(g: Geometry, pos: nat, n: nat, done: nat)
    requires ValidGeometry(g) && 0 < done < n && Offset(g, pos) + done <= g.blksiz
    requires PhysicalExtent(g, pos + done) != PhysicalExtent(g, pos)
    ensures PhysicalExtent(g, pos) != PhysicalExtent(g, pos + n - 1)
    ensures LastEntered(g, pos + done, n - done) == LastEntered(g, pos, n)
  {
    hide ValidGeometry, SlotStart;
    var x, y := PhysicalExtent(g, pos), PhysicalExtent(g, pos + done);
    SameBlock(g, pos, done - 1);
    ExtentMonotone(g, pos + done, pos + n - 1);
    ExtentMonotone(g, pos, pos + done);
    ExtentBounds(g, pos + done - 1, x);
    ExtentBounds(g, pos + done, x);
    ExtentBounds(g, pos + done, y);
    StartsExtent(g, x + 1);
  }

  /** The rest of a write stores the same last extent number as the whole. */
  lemma StoredNumberSame(g: Geometry, cursor: Option<Cursor>, cursor': Option<Cursor>, pos: nat, n: nat, done: nat)
    requires ValidGeometry(g) && 0 < done < n && Offset(g, pos) + done <= g.blksiz
    requires if PhysicalExtent(g, pos + done) != PhysicalExtent(g, pos) then cursor' == None
             else cursor'.Some? && cursor'.value.extentno == if cursor.Some? then cursor.value.extentno
               else pos / LOGICAL_EXTENT
    ensures StoredExtentNumber(g, cursor', pos + done, n - done) == StoredExtentNumber(g, cursor, pos, n)
  {
    hide ValidGeometry, SlotStart;
    if PhysicalExtent(g, pos + done) != PhysicalExtent(g, pos) {
      StoredNumberStep(g, pos, n, done);
    }
  }

  lemma StartsExtent(g: Geometry, x: nat)
    requires ValidGeometry(g)
    ensures PhysicalExtent(g, SlotStart(g, x, 0)) == x
  {
    CapacityIsPositive(g);
    PositionOf(g, x, 0, 0);
  }

  /** The first entry of the extent that starts at `end` is new and still empty. */
  ghost predicate Trails(g: Geometry, dir: seq<DirEntry>, dir': seq<DirEntry>, f: Key, end: nat)
    requires ValidGeometry(g)
  {
    var x := PhysicalExtent(g, end);
    && end == SlotStart(g, x, 0) && !HasExtent(g, dir, f, x) && SameOutside(g, dir, dir', f, x)
    && exists j ::
         && 0 <= j < |dir'| && Live(g, dir'[j]) && KeyOf(dir'[j]) == f && PhysicalOf(g, dir'[j]) == x
         && ExtentNumber(dir'[j]) * LOGICAL_EXTENT == end && dir'[j].blkcnt == 0
  }

  lemma NoExtent(g: Geometry, dir: seq<DirEntry>, f: Key, pos: nat)
    requires ValidGeometry(g) && FindFileExtent(g, dir, f, 0, pos / LOGICAL_EXTENT) == -1
    ensures !HasExtent(g, dir, f, PhysicalExtent(g, pos))
  {
    hide ValidGeometry, KeyOf, Live, PhysicalOf;
    PhysicalOfLogical(g, pos);
    forall i | 0 <= i < |dir|
      ensures !(Live(g, dir[i]) && KeyOf(dir[i]) == f && PhysicalOf(g, dir[i]) == PhysicalExtent(g, pos))
    {
      assert !Matches(g, dir[i], f, pos / LOGICAL_EXTENT);
    }
  }

  /** A pass that stores nothing changes nothing, or makes the entry of its extent. */
  lemma FullPassOpens(g: Geometry, v: Volume, ino: nat, pos: nat, cursor: Option<Cursor>, data: seq<byte>,
                      buffer: seq<byte>)
    requires WriteState(g, v, ino, pos, cursor, |data|, buffer) && Writable(g, v, ino, cursor, buffer) && 0 < |data|
    requires WritePass(g, v, ino, pos, cursor, data, buffer).Full?
    ensures var w := WritePass(g, v, ino, pos, cursor, data, buffer).vol;
      || w.dir == v.dir
      || (cursor.None? && !HasExtent(g, v.dir, KeyOf(v.dir[ino]), PhysicalExtent(g, pos)) &&
          exists j :: 0 <= j < |v.dir| && !Live(g, v.dir[j]) &&
            w.dir == v.dir[j := ExtentEntry(v.dir[ino], pos / LOGICAL_EXTENT)])
  {
    hide ValidGeometry, Consistent, CursorOk, CursorFits, BlockPass, KeyOf, WellSized, PointersInRange, ExtentEntry,
         HasExtent;
    if Opened(g, v, ino, pos, cursor).Some? {
      OpenedConsistent(g, v, ino, pos, cursor);
      var (v1, c) := Opened(g, v, ino, pos, cursor).value;
      ConsistentIsMounted(g, v1);
      FullPassChangesNothing(g, v1, c, pos, data, buffer);
      if cursor.None? && FindFileExtent(g, v.dir, KeyOf(v.dir[ino]), 0, pos / LOGICAL_EXTENT) == -1 {
        NoExtent(g, v.dir, KeyOf(v.dir[ino]), pos);
        assert !Live(g, v.dir[c.extent]);
      }
    }
  }

  /** A write that stops right behind a pass leaves that pass's end recorded, and perhaps an empty entry behind it. */
  lemma StopRecordsEnd(g: Geometry, v: Volume, ino: nat, pos: nat, cursor: Option<Cursor>, data: seq<byte>,
                       buffer: seq<byte>, x: nat, extentno: nat)
    requires WriteState(g, v, ino, pos, cursor, |data|, buffer) && Writable(g, v, ino, cursor, buffer)
    requires Write(g, v, ino, pos, cursor, data, buffer).got == 0 < pos
    requires cursor.None? && 0 < |data| ==> PhysicalExtent(g, pos) != PhysicalExtent(g, pos - 1)
    requires EntryIs(g, v.dir, KeyOf(v.dir[ino]), x, extentno, pos)
    ensures var r := Write(g, v, ino, pos, cursor, data, buffer);
      && EntryIs(g, r.vol.dir, KeyOf(v.dir[ino]), x, extentno, pos)
      && (r.vol.dir == v.dir || (r.failed && Trails(g, v.dir, r.vol.dir, KeyOf(v.dir[ino]), pos)))
  {
    hide ValidGeometry, Consistent, CursorOk, CursorFits, KeyOf, Live, WellSized, PointersInRange, WritePass,
         HasExtent, PhysicalExtent, PhysicalOf, WithEnd, ExtentNumber, ExtentEntry, SlotStart;
    if 0 < |data| {
      FullPassOpens(g, v, ino, pos, cursor, data, buffer);
      var dir' := WritePass(g, v, ino, pos, cursor, data, buffer).vol.dir;
      if dir' != v.dir {
        StartOfExtent(g, pos);
        ExtentEntryFacts(g, v.dir[ino], pos);
        var j :| 0 <= j < |v.dir| && !Live(g, v.dir[j]) &&
          dir' == v.dir[j := ExtentEntry(v.dir[ino], pos / LOGICAL_EXTENT)];
        EntryStays(g, v.dir, j, ExtentEntry(v.dir[ino], pos / LOGICAL_EXTENT), KeyOf(v.dir[ino]), x, extentno, pos);
        assert Live(g, dir'[j]) && KeyOf(dir'[j]) == KeyOf(v.dir[ino]);
      }
    }
  }

  lemma StartOfExtent(g: Geometry, pos: nat)
    requires ValidGeometry(g) && 0 < pos && PhysicalExtent(g, pos) != PhysicalExtent(g, pos - 1)
    ensures pos == SlotStart(g, PhysicalExtent(g, pos), 0) && PhysicalExtent(g, pos) == PhysicalExtent(g, pos - 1) + 1
    ensures pos / LOGICAL_EXTENT * LOGICAL_EXTENT == pos
  {
    hide ValidGeometry, ExtentCapacity;
    var x := PhysicalExtent(g, pos - 1);
    ExtentBounds(g, pos - 1, x);
    ExtentBounds(g, pos, x);
    StartsExtent(g, x + 1);
    CapacityIsLogical(g);
    assert (x + 1) * (LOGICAL_EXTENT * g.extents) == (x + 1) * g.extents * LOGICAL_EXTENT;
  }

  lemma EntryStays(g: Geometry, dir: seq<DirEntry>, j: nat, e: DirEntry, f: Key, x: nat, extentno: nat, end: nat)
    requires ValidGeometry(g) && 0 < end && EntryIs(g, dir, f, x, extentno, end) && j < |dir| && !Live(g, dir[j])
    ensures EntryIs(g, dir[j := e], f, x, extentno, end)
  {
    hide ValidGeometry, KeyOf, Live, PhysicalOf, WithEnd, ExtentNumber;
    var i :| 0 <= i < |dir| && Live(g, dir[i]) && KeyOf(dir[i]) == f && PhysicalOf(g, dir[i]) == x
             && ExtentNumber(dir[i]) == extentno && dir[i] == WithEnd(g, dir[i], extentno, end);
    assert dir[j := e][i] == dir[i];
  }

  lemma TrailsBefore(g: Geometry, u: seq<DirEntry>, v: seq<DirEntry>, w: seq<DirEntry>, f: Key, x: nat, end: nat)
    requires ValidGeometry(g) && SameOutside(g, u, v, f, x) && Trails(g, v, w, f, end) && x < PhysicalExtent(g, end)
    ensures Trails(g, u, w, f, end)
  {
    hide ValidGeometry, KeyOf, Live, PhysicalOf, PhysicalExtent, ExtentNumber, SlotStart;
    SameOutsideTransitive(g, u, v, w, f, x, PhysicalExtent(g, end));
    forall i | 0 <= i < |u| ensures !(Live(g, u[i]) && KeyOf(u[i]) == f &&
      PhysicalOf(g, u[i]) == PhysicalExtent(g, end)) {
      assert v[i] == u[i] || Within(g, v[i], f, x);
    }
  }

  /** Whether it completes or stops somewhere, a write that stored anything leaves its end, and the extent number
      its last extent was entered with, in the entry of that extent. */
  lemma {:induction false} WriteRecordsEnd(g: Geometry, v: Volume, ino: nat, pos: nat, cursor: Option<Cursor>,
                                           data: seq<byte>, buffer: seq<byte>)
    requires WriteState(g, v, ino, pos, cursor, |data|, buffer) && Writable(g, v, ino, cursor, buffer)
    requires 0 < Write(g, v, ino, pos, cursor, data, buffer).got
    ensures var r, f := Write(g, v, ino, pos, cursor, data, buffer), KeyOf(v.dir[ino]);
      var end := pos + r.got;
      && EntryIs(g, r.vol.dir, f, PhysicalExtent(g, end - 1), StoredExtentNumber(g, cursor, pos, r.got), end)
      && (SameOutside(g, v.dir, r.vol.dir, f, PhysicalExtent(g, end - 1)) ||
          (r.failed && PhysicalExtent(g, end) == PhysicalExtent(g, end - 1) + 1 && Trails(g, v.dir, r.vol.dir, f, end)))
    decreases |data|
  {
    hide ValidGeometry, Consistent, CursorOk, CursorFits, KeyOf, Live, WellSized, PointersInRange, WritePass,
         SlotStart, EntryIs, SameOutside, PhysicalExtent, Trails;
    WritePassConsistent(g, v, ino, pos, cursor, data, buffer);
    PassRecordsEnd(g, v, ino, pos, cursor, data, buffer);
    var f, step := KeyOf(v.dir[ino]), WritePass(g, v, ino, pos, cursor, data, buffer);
    var x, mid := PhysicalExtent(g, pos), pos + step.n;
    var rest := Write(g, step.vol, ino, mid, step.cursor, data[step.n..], step.buffer);
    SameBlock(g, pos, step.n - 1);
    if rest.got == 0 {
      StopRecordsEnd(g, step.vol, ino, mid, step.cursor, data[step.n..], step.buffer, x,
                     if cursor.Some? then cursor.value.extentno else pos / LOGICAL_EXTENT);
      if rest.vol.dir != step.vol.dir {
        TrailsStarts(g, step.vol.dir, rest.vol.dir, f, mid);
        TrailsBefore(g, v.dir, step.vol.dir, rest.vol.dir, f, x, mid);
      }
    } else {
      var end := mid + rest.got;
      WriteRecordsEnd(g, step.vol, ino, mid, step.cursor, data[step.n..], step.buffer);
      StoredNumberSame(g, cursor, step.cursor, pos, step.n + rest.got, step.n);
      ExtentMonotone(g, pos, end - 1);
      if SameOutside(g, step.vol.dir, rest.vol.dir, f, PhysicalExtent(g, end - 1)) {
        SameOutsideTransitive(g, v.dir, step.vol.dir, rest.vol.dir, f, x, PhysicalExtent(g, end - 1));
      } else {
        TrailsBefore(g, v.dir, step.vol.dir, rest.vol.dir, f, x, end);
      }
    }
  }

  lemma TrailsStarts(g: Geometry, dir: seq<DirEntry>, dir': seq<DirEntry>, f: Key, end: nat)
    requires ValidGeometry(g) && 0 < end && Trails(g, dir, dir', f, end)
    ensures PhysicalExtent(g, end) == PhysicalExtent(g, end - 1) + 1
  {
    hide ValidGeometry, SameOutside, HasExtent, KeyOf, Live, PhysicalOf, ExtentNumber, PhysicalExtent, SlotStart;
    var x := PhysicalExtent(g, end);
    ExtentBounds(g, end - 1, x);
    if PhysicalExtent(g, end - 1) == x {
      assert false;
    }
    StartOfExtent(g, end);
  }

  /** The size of a file whose last entry is known. */
  lemma LastEntrySize(g: Geometry, dir: seq<DirEntry>, f: Key, x: nat, extentno: nat, end: nat)
    requires ValidGeometry(g) && UniqueExtents(g, dir) && 0 < end
    requires EntryIs(g, dir, f, x, extentno, end) && EntriesUpTo(g, dir, f, x)
    ensures Namei(g, dir, f).Some?
    ensures Namei(g, dir, f).value.size == end - ((end - 1) / LOGICAL_EXTENT - extentno) * LOGICAL_EXTENT
  {
    hide ValidGeometry, KeyOf, Live, WithEnd, ExtentNumber;
    var i :| 0 <= i < |dir| && Live(g, dir[i]) && KeyOf(dir[i]) == f && PhysicalOf(g, dir[i]) == x
             && ExtentNumber(dir[i]) == extentno && dir[i] == WithEnd(g, dir[i], extentno, end);
    assert Matches(g, dir[i], f, -1);
    var h := HighestEntry(g, dir, f, |dir|);
    GeometryIsPositive(g);
    QuotientMonotone(ExtentNumber(dir[i]), ExtentNumber(dir[h]), g.extents);
    assert h == i;
    EndOf(g, dir[i], extentno, end);
  }

  lemma GeometryIsPositive(g: Geometry)
    requires ValidGeometry(g)
    ensures 0 < g.extents
  {}

  lemma EndOf(g: Geometry, e: DirEntry, extentno: nat, end: nat)
    requires 0 < end && e == WithEnd(g, e, extentno, end) && ExtentNumber(e) == extentno
    ensures EntryEnd(g, e) == end - ((end - 1) / LOGICAL_EXTENT - extentno) * LOGICAL_EXTENT
  {
    hide ExtentNumber, ExtentLow, ExtentHigh;
    assert e.blkcnt == (end - 1) % LOGICAL_EXTENT / 128 + 1 && e.lrc == LastRecordBytes(g, end);
    RecordArithmetic(end);
  }

  /** The entry with the highest extent number lies behind `x` if any entry of the file does. */
  lemma HighestIsBehind(g: Geometry, dir: seq<DirEntry>, f: Key, x: nat, i: nat)
    requires ValidGeometry(g) && i < |dir| && Live(g, dir[i]) && KeyOf(dir[i]) == f && x < PhysicalOf(g, dir[i])
    ensures var h := HighestEntry(g, dir, f, |dir|); h != -1 && x < PhysicalOf(g, dir[h])
  {
    hide ValidGeometry, KeyOf, Live, ExtentNumber;
    assert Matches(g, dir[i], f, -1);
    var h := HighestEntry(g, dir, f, |dir|);
    GeometryIsPositive(g);
    QuotientMonotone(ExtentNumber(dir[i]), ExtentNumber(dir[h]), g.extents);
  }

  /** A file that goes on behind the entries that changed keeps its size. */
  lemma SizeStaysBehind(g: Geometry, dir: seq<DirEntry>, dir': seq<DirEntry>, f: Key, x: nat)
    requires ValidGeometry(g) && SameOutside(g, dir, dir', f, x) && !EntriesUpTo(g, dir, f, x)
    ensures Namei(g, dir, f).Some? && Namei(g, dir', f).Some?
    ensures Namei(g, dir', f).value.size == Namei(g, dir, f).value.size
  {
    hide ValidGeometry, KeyOf, Live, ExtentNumber, PhysicalOf, EntryEnd;
    var i :| 0 <= i < |dir| && Live(g, dir[i]) && KeyOf(dir[i]) == f && x < PhysicalOf(g, dir[i]);
    HighestIsBehind(g, dir, f, x, i);
    HighestIsBehind(g, dir', f, x, i);
    var h, h' := HighestEntry(g, dir, f, |dir|), HighestEntry(g, dir', f, |dir'|);
    assert dir'[h] == dir[h] && dir'[h'] == dir[h'];
    assert Matches(g, dir'[h], f, -1) && Matches(g, dir[h'], f, -1);
  }

  /** The size a write of `n` bytes that ends at `end` records. */
  function Recorded(g: Geometry, end: nat, n: nat): (size: int)
    requires ValidGeometry(g) && 0 < n <= end
  {
    end - ((end - 1) / LOGICAL_EXTENT - LastEntered(g, end - n, n) / LOGICAL_EXTENT) * LOGICAL_EXTENT
  }

  /** The write entered its last physical extent in the 16 KiB piece it ended in. */
  predicate SizeKept(g: Geometry, end: nat, n: nat)
    requires ValidGeometry(g) && 0 < n <= end
  {
    (end - 1) / LOGICAL_EXTENT == LastEntered(g, end - n, n) / LOGICAL_EXTENT
  }

  /** The recorded size is the end of the write, or short of it by whole pieces. */
  lemma RecordedShort(g: Geometry, end: nat, n: nat)
    requires ValidGeometry(g) && 0 < n <= end
    ensures 0 < Recorded(g, end, n) <= end
    ensures if SizeKept(g, end, n) then Recorded(g, end, n) == end else Recorded(g, end, n) + LOGICAL_EXTENT <= end
  {
    hide ValidGeometry, SlotStart, PhysicalExtent;
    ExtentBounds(g, end - 1, PhysicalExtent(g, end - 1));
    assert LastEntered(g, end - n, n) <= end - 1;
  }

  lemma NoExtentBehind(g: Geometry, dir: seq<DirEntry>, f: Key, x: nat, y: nat)
    requires ValidGeometry(g) && EntriesUpTo(g, dir, f, x) && x < y
    ensures !HasExtent(g, dir, f, y)
  {
    hide ValidGeometry, KeyOf, Live, PhysicalOf;
  }

  /** After any write that stored something, complete or cut short, `cpmNamei` reports where it ended if that is in
      the file's last extent, whatever the size was before: exactly, if the write stopped after it had made an
      entry for the extent that starts there; otherwise short by the 16 KiB pieces between where the write
      entered its last extent and where it ended. A file that goes on in another extent keeps its size. */
  lemma SizeAfterWrite(g: Geometry, v: Volume, ino: nat, pos: nat, data: seq<byte>, buffer: seq<byte>)
    requires Open(g, v, ino) && pos + |data| <= MAX_FILE && |buffer| == LOGICAL_EXTENT
    requires 0 < Write(g, v, ino, pos, None, data, buffer).got
    ensures var f, r := KeyOf(v.dir[ino]), Write(g, v, ino, pos, None, data, buffer);
      var end, dir' := pos + r.got, r.vol.dir;
      var x := PhysicalExtent(g, end - 1);
      && Namei(g, dir', f).Some? && Namei(g, v.dir, f).Some?
      && var size := Namei(g, dir', f).value.size;
         if EntriesUpTo(g, v.dir, f, x) then
           if HasExtent(g, dir', f, x + 1) then r.failed && end == SlotStart(g, x + 1, 0) && size == end
           else size == Recorded(g, end, r.got) && (size == end <==> SizeKept(g, end, r.got))
         else size == Namei(g, v.dir, f).value.size
  {
    hide ValidGeometry, KeyOf, Live, WellSized, PointersInRange, PointersOk, NoSharing, UniqueExtents, AlvOf, EntryIs,
         Write, LastEntered, Namei, PhysicalExtent, EntriesUpTo, SameOutside, HasExtent, SlotStart, Trails;
    WriteConsistent(g, v, ino, pos, None, data, buffer);
    WriteRecordsEnd(g, v, ino, pos, None, data, buffer);
    FileHasSize(g, v, ino);
    var f, r := KeyOf(v.dir[ino]), Write(g, v, ino, pos, None, data, buffer);
    var end, dir' := pos + r.got, r.vol.dir;
    var x := PhysicalExtent(g, end - 1);
    if SameOutside(g, v.dir, dir', f, x) {
      if EntriesUpTo(g, v.dir, f, x) {
        UpToStays(g, v.dir, dir', f, x, x);
        NoExtentBehind(g, dir', f, x, x + 1);
        LastEntrySize(g, dir', f, x, StoredExtentNumber(g, None, pos, r.got), end);
      } else {
        SizeStaysBehind(g, v.dir, dir', f, x);
      }
    } else {
      SizeWithTrail(g, v.dir, dir', f, end);
    }
  }

  lemma SizeWithTrail(g: Geometry, dir: seq<DirEntry>, dir': seq<DirEntry>, f: Key, end: nat)
    requires ValidGeometry(g) && UniqueExtents(g, dir') && 0 < end && Trails(g, dir, dir', f, end)
    requires PhysicalExtent(g, end) == PhysicalExtent(g, end - 1) + 1
    ensures var x := PhysicalExtent(g, end - 1);
      && Namei(g, dir', f).Some? && HasExtent(g, dir', f, x + 1) && end == SlotStart(g, x + 1, 0)
      && (if EntriesUpTo(g, dir, f, x) then Namei(g, dir', f).value.size == end
          else Namei(g, dir, f).Some? && Namei(g, dir', f).value.size == Namei(g, dir, f).value.size)
  {
    hide ValidGeometry, KeyOf, Live, ExtentNumber, PhysicalExtent, SlotStart, SameOutside, Namei;
    var x := PhysicalExtent(g, end - 1);
    var j :| 0 <= j < |dir'| && Live(g, dir'[j]) && KeyOf(dir'[j]) == f && PhysicalOf(g, dir'[j]) == x + 1
             && ExtentNumber(dir'[j]) * LOGICAL_EXTENT == end && dir'[j].blkcnt == 0;
    if EntriesUpTo(g, dir, f, x) {
      UpToGrows(g, dir, f, x, x + 1);
      UpToStays(g, dir, dir', f, x + 1, x + 1);
      EmptyEntrySize(g, dir', f, x + 1, j, end);
    } else {
      GoesOnBehind(g, dir, f, x);
      SizeStaysBehind(g, dir, dir', f, x + 1);
    }
  }

  lemma EmptyEntrySize(g: Geometry, dir: seq<DirEntry>, f: Key, x: nat, j: nat, end: nat)
    requires ValidGeometry(g) && UniqueExtents(g, dir) && EntriesUpTo(g, dir, f, x)
    requires j < |dir| && Live(g, dir[j]) && KeyOf(dir[j]) == f && PhysicalOf(g, dir[j]) == x
    requires ExtentNumber(dir[j]) * LOGICAL_EXTENT == end && dir[j].blkcnt == 0
    ensures Namei(g, dir, f).Some? && Namei(g, dir, f).value.size == end
  {
    hide ValidGeometry, KeyOf, Live, ExtentNumber;
    assert Matches(g, dir[j], f, -1);
    var h := HighestEntry(g, dir, f, |dir|);
    GeometryIsPositive(g);
    QuotientMonotone(ExtentNumber(dir[j]), ExtentNumber(dir[h]), g.extents);
    assert h == j;
  }

  lemma GoesOnBehind(g: Geometry, dir: seq<DirEntry>, f: Key, x: nat)
    requires ValidGeometry(g) && !EntriesUpTo(g, dir, f, x) && !HasExtent(g, dir, f, x + 1)
    ensures !EntriesUpTo(g, dir, f, x + 1)
  {
    hide ValidGeometry, KeyOf, Live, PhysicalOf;
    var i :| 0 <= i < |dir| && Live(g, dir[i]) && KeyOf(dir[i]) == f && x < PhysicalOf(g, dir[i]);
    assert PhysicalOf(g, dir[i]) != x + 1;
  }

  lemma FileHasSize(g: Geometry, v: Volume, ino: nat)
    requires Open(g, v, ino)
    ensures Namei(g, v.dir, KeyOf(v.dir[ino])).Some?
  {
    hide KeyOf, WellSized, PointersInRange, PointersOk, NoSharing, UniqueExtents, AlvOf, ValidGeometry, Live;
    assert Matches(g, v.dir[ino], KeyOf(v.dir[ino]), -1);
  }

  /** A described file has no extent behind its end. */
  lemma SizedUpTo(g: Geometry, dir: seq<DirEntry>, f: Key, files: Files)
    requires ValidGeometry(g) && Sized(g, dir, files) && f in files
    ensures EntriesUpTo(g, dir, f, PhysicalExtent(g, |files[f]|))
  {
    hide ValidGeometry, KeyOf, Live, PhysicalOf, WithEnd;
    var n := |files[f]|;
    forall i | 0 <= i < |dir| && Live(g, dir[i]) && KeyOf(dir[i]) == f
      ensures PhysicalOf(g, dir[i]) <= PhysicalExtent(g, n)
    {
      var x := PhysicalOf(g, dir[i]);
      assert RecordsEnd(g, dir[i], n, true);
      StartsExtent(g, x);
      ExtentMonotone(g, SlotStart(g, x, 0), n);
    }
  }

  /** The append that fails: with two or more logical extents per entry, one call that writes 16385 bytes
      into an empty file leaves it with a reported size of 1. */
  lemma CrossingLosesSize(g: Geometry, v: Volume, ino: nat, data: seq<byte>, buffer: seq<byte>, files: Files)
    requires Refines(g, v, files) && Open(g, v, ino) && |data| == LOGICAL_EXTENT + 1 && |buffer| == LOGICAL_EXTENT
    requires KeyOf(v.dir[ino]) in files && |files[KeyOf(v.dir[ino])]| == 0 && 2 <= g.extents
    requires !Write(g, v, ino, 0, None, data, buffer).failed
    ensures Namei(g, Write(g, v, ino, 0, None, data, buffer).vol.dir, KeyOf(v.dir[ino])).Some?
    ensures Namei(g, Write(g, v, ino, 0, None, data, buffer).vol.dir, KeyOf(v.dir[ino])).value.size == 1
  {
    hide KeyOf, Live, WellSized, PointersInRange, PointersOk, NoSharing, UniqueExtents, AlvOf, Contents, Ended, Write,
         Namei, EntriesUpTo;
    CapacityIsLogical(g);
    SizedUpTo(g, v.dir, KeyOf(v.dir[ino]), files);
    SizeAfterWrite(g, v, ino, 0, data, buffer);
  }

  /** The overwrite that fails: ten bytes written to the start of a file of 1000 leave a reported size of 10.
      Where sectors are longer than that, bytes of the old content may be lost too. */
  lemma TenBytesOverwritten(g: Geometry, v: Volume, ino: nat, data: seq<byte>, files: Files)
    requires Refines(g, v, files) && Open(g, v, ino) && |data| == 10
    requires KeyOf(v.dir[ino]) in files && |files[KeyOf(v.dir[ino])]| == 1000
    ensures var f := KeyOf(v.dir[ino]);
      && (forall buffer: seq<byte> :: |buffer| == LOGICAL_EXTENT ==>
            var size := Namei(g, Write(g, v, ino, 0, None, data, buffer).vol.dir, f);
            size.Some? && size.value.size == 10)
      && (10 < g.secLength ==>
            exists buffer: seq<byte> ::
              && |buffer| == LOGICAL_EXTENT
              && !Contents(g, Write(g, v, ino, 0, None, data, buffer).vol, files[f := Overwritten(files[f], 0, data)]))
  {
    hide KeyOf, Live, WellSized, PointersInRange, PointersOk, NoSharing, UniqueExtents, AlvOf, Contents, Ended, Write,
         Namei, EntriesUpTo, Overwritten, KeepsRest, TailFromFile, TailAgrees;
    var f := KeyOf(v.dir[ino]);
    FirstTenBytes(g);
    SizedUpTo(g, v.dir, f, files);
    forall buffer: seq<byte> | |buffer| == LOGICAL_EXTENT
      ensures var size := Namei(g, Write(g, v, ino, 0, None, data, buffer).vol.dir, f);
        size.Some? && size.value.size == 10
    {
      WriteExact(g, v, ino, 0, None, data, buffer, files);
      SizeAfterWrite(g, v, ino, 0, data, buffer);
    }
    FetchedTail(g, 0, data, files[f]);
    WriteKeepsTail(g, v, ino, 0, data, files);
  }

  lemma FirstTenBytes(g: Geometry)
    requires ValidGeometry(g)
    ensures Offset(g, 0) == 0 && 10 <= g.blksiz && PhysicalExtent(g, 9) == PhysicalExtent(g, 1000) == 0
    ensures 10 < g.secLength ==> !KeepsRest(g, 0, 10)
  {
    CapacityIsLogical(g);
    SmallQuotient(9, ExtentCapacity(g));
    SmallQuotient(1000, ExtentCapacity(g));
    SmallQuotient(0, g.blksiz);
    if 10 < g.secLength {
      SmallQuotient(0, g.secLength);
      SmallQuotient(9, g.secLength);
      SmallQuotient(10, g.secLength);
    }
  }

  lemma SmallQuotient(n: nat, d: nat)
    requires n < d
    ensures n / d == 0 && n % d == n
  {}

  // ----- a sequence of calls ---------------------------------------------------------------------------

  /** The length of the last call that wrote anything. */
  function LastLength(chunks: seq<Chunk>): (n: nat)
    ensures n <= |Concat(chunks)| && (n == 0 ==> Concat(chunks) == [])
  {
    if chunks == [] then 0
    else if LastLength(chunks[1..]) > 0 then LastLength(chunks[1..])
    else |chunks[0].data|
  }

  /** Whatever the calls in between recorded, the last one that wrote anything decides about the size. */
  lemma {:induction false} CopySize(g: Geometry, v: Volume, ino: nat, pos: nat, chunks: seq<Chunk>)
    requires Open(g, v, ino) && CopiesFully(g, v, ino, pos, chunks)
    requires EntriesUpTo(g, v.dir, KeyOf(v.dir[ino]), PhysicalExtent(g, pos))
    ensures var f, w, end, n := KeyOf(v.dir[ino]), Copy(g, v, ino, pos, chunks), pos + |Concat(chunks)|,
      LastLength(chunks);
      && SameOutside(g, v.dir, w.dir, f, PhysicalExtent(g, end))
      && if n == 0 then w.dir == v.dir
         else
           && EntryIs(g, w.dir, f, PhysicalExtent(g, end - 1), LastEntered(g, end - n, n) / LOGICAL_EXTENT, end)
           && Namei(g, w.dir, f).Some? && Namei(g, w.dir, f).value.size == Recorded(g, end, n)
    decreases |chunks|
  {
    hide Consistent, Mounted, KeyOf, Live, Fits, WriteChunk, ValidGeometry, PhysicalExtent, EntriesUpTo, SameOutside,
         Namei, LastEntered, EntryIs, Recorded, Open;
    OpenIsValid(g, v, ino);
    if chunks != [] {
      var f, w1, end := KeyOf(v.dir[ino]), WriteChunk(g, v, ino, pos, chunks[0]).vol, pos + |chunks[0].data|;
      ChunkSize(g, v, ino, pos, chunks[0]);
      CopySize(g, w1, ino, end, chunks[1..]);
      ExtentMonotone(g, end, pos + |Concat(chunks)|);
      SameOutsideTransitive(g, v.dir, w1.dir, Copy(g, v, ino, pos, chunks).dir, f, PhysicalExtent(g, end),
                            PhysicalExtent(g, pos + |Concat(chunks)|));
    } else {
      SameOutsideItself(g, v.dir, KeyOf(v.dir[ino]), PhysicalExtent(g, pos));
    }
  }

  lemma OpenIsValid(g: Geometry, v: Volume, ino: nat)
    requires Open(g, v, ino)
    ensures ValidGeometry(g) && ino < |v.dir|
  {}

  lemma SameOutsideItself(g: Geometry, dir: seq<DirEntry>, f: Key, x: nat)
    requires ValidGeometry(g)
    ensures SameOutside(g, dir, dir, f, x)
  {
    hide ValidGeometry, Within;
  }

  lemma ChunkSize(g: Geometry, v: Volume, ino: nat, pos: nat, c: Chunk)
    requires Open(g, v, ino) && Fits(pos, c) && !WriteChunk(g, v, ino, pos, c).failed
    requires EntriesUpTo(g, v.dir, KeyOf(v.dir[ino]), PhysicalExtent(g, pos))
    ensures var f, w, end := KeyOf(v.dir[ino]), WriteChunk(g, v, ino, pos, c).vol, pos + |c.data|;
      && SameOutside(g, v.dir, w.dir, f, PhysicalExtent(g, end)) && EntriesUpTo(g, w.dir, f, PhysicalExtent(g, end))
      && if c.data == [] then w.dir == v.dir
         else
           && EntryIs(g, w.dir, f, PhysicalExtent(g, end - 1), LastEntered(g, pos, |c.data|) / LOGICAL_EXTENT, end)
           && Namei(g, w.dir, f).Some? && Namei(g, w.dir, f).value.size == Recorded(g, end, |c.data|)
  {
    hide Consistent, Mounted, KeyOf, Live, Write, WriteChunk, ValidGeometry, PhysicalExtent, EntriesUpTo, SameOutside,
         Namei, LastEntered, EntryIs;
    WriteChunkIs(g, v, ino, pos, c);
    var f, w, end := KeyOf(v.dir[ino]), WriteChunk(g, v, ino, pos, c).vol, pos + |c.data|;
    if c.data == [] {
      WriteNothing(g, v, ino, pos, c.data, c.buffer);
      SameOutsideItself(g, v.dir, f, PhysicalExtent(g, pos));
    } else {
      WriteRecordsEnd(g, v, ino, pos, None, c.data, c.buffer);
      ExtentMonotone(g, pos, end - 1);
      ExtentMonotone(g, end - 1, end);
      UpToGrows(g, v.dir, f, PhysicalExtent(g, pos), PhysicalExtent(g, end - 1));
      SizeAfterWrite(g, v, ino, pos, c.data, c.buffer);
      UpToStays(g, v.dir, w.dir, f, PhysicalExtent(g, end - 1), PhysicalExtent(g, end - 1));
      UpToGrows(g, w.dir, f, PhysicalExtent(g, end - 1), PhysicalExtent(g, end));
      SameOutsideItself(g, w.dir, f, PhysicalExtent(g, end));
      SameOutsideTransitive(g, v.dir, w.dir, w.dir, f, PhysicalExtent(g, end - 1), PhysicalExtent(g, end));
    }
  }

  lemma WriteNothing(g: Geometry, v: Volume, ino: nat, pos: nat, data: seq<byte>, buffer: seq<byte>)
    requires Writable(g, v, ino, None, buffer) && data == []
    ensures Write(g, v, ino, pos, None, data, buffer).vol == v
  {}

  lemma UpToGrows(g: Geometry, dir: seq<DirEntry>, f: Key, x: nat, y: nat)
    requires ValidGeometry(g) && EntriesUpTo(g, dir, f, x) && x <= y
    ensures EntriesUpTo(g, dir, f, y)
  {
    hide ValidGeometry, KeyOf, Live, PhysicalOf;
  }

  lemma CreatUpTo(g: Geometry, v: Volume, f: Key)
    requires Consistent(g, v) && ValidKey(g, f) && Creat(g, v, f).Done?
    ensures EntriesUpTo(g, Creat(g, v, f).vol.dir, f, PhysicalExtent(g, 0))
    ensures SameOutside(g, v.dir, Creat(g, v, f).vol.dir, f, PhysicalExtent(g, 0))
  {
    hide ValidGeometry, PointersOk, NoSharing, UniqueExtents, KeyOf, FreshEntry, AlvOf;
    FreshEntryFacts(g, f);
    assert Zero(g) by { ZeroExtents(g); }
  }

  predicate Zero(g: Geometry)
    requires ValidGeometry(g)
  {
    PhysicalExtent(g, 0) == 0 && 0 / g.extents == 0
  }

  lemma ZeroExtents(g: Geometry)
    requires ValidGeometry(g)
    ensures Zero(g)
  {}

  /** Other files keep their entries, and with them their sizes. */
  lemma OthersSized(g: Geometry, dir: seq<DirEntry>, dir': seq<DirEntry>, f: Key, x: nat, h: Key, files: Files)
    requires ValidGeometry(g) && SameOutside(g, dir, dir', f, x) && Sized(g, dir, files) && h != f && h in files
    ensures SizedFile(g, dir', h, |files[h]|)
  {
    hide ValidGeometry, KeyOf, Live, PhysicalOf, RecordsEnd;
  }

  /** A volume that holds a map of files shows it exactly if every size it reports is right. */
  lemma HoldsShows(g: Geometry, v: Volume, files: Files, f: Key)
    requires Holds(g, v, files) && Mounted(g, v) && f in files
    requires forall h :: h in files && h != f ==> SizedFile(g, v.dir, h, |files[h]|)
    requires Namei(g, v.dir, f).Some?
    ensures Shows(g, v, files) <==> Namei(g, v.dir, f).value.size == |files[f]|
  {
    hide Consistent, WellSized, PointersInRange, Contents, ValidGeometry, ReadsAs, KeyOf, Live, EntryEnd, SizedFile;
    if Namei(g, v.dir, f).value.size == |files[f]| {
      forall h: Key
        ensures Namei(g, v.dir, h).Some? <==> h in files
        ensures h in files ==> Namei(g, v.dir, h).value.size == |files[h]| && ReadsAs(g, v, h, files[h])
      {
        FileIsFound(g, v, h, files);
        if h in files {
          HoldsReads(g, v, h, files);
          if h != f {
            NameiSize(g, v, h, files);
          }
        }
      }
    }
  }

  /** The calls together lose no size: nothing was written, or the last call that wrote anything kept it. */
  predicate CopySizeKept(g: Geometry, chunks: seq<Chunk>)
    requires ValidGeometry(g)
  {
    var n := LastLength(chunks);
    n == 0 || SizeKept(g, |Concat(chunks)|, n)
  }

  function CopyRecorded(g: Geometry, chunks: seq<Chunk>): int
    requires ValidGeometry(g)
  {
    var n := LastLength(chunks);
    if n == 0 then 0 else Recorded(g, |Concat(chunks)|, n)
  }

  /** Create a file and write into it, in any chunks, across any boundaries: the bytes are always right, the
      reported size is known, and the volume shows the new map of files exactly if that is the true one. */
  lemma CopyRoundTrip(g: Geometry, v: Volume, f: Key, chunks: seq<Chunk>, files: Files)
    requires Refines(g, v, files) && ValidKey(g, f) && Creat(g, v, f).Done?
    requires Open(g, Creat(g, v, f).vol, FindFreeExtent(v.dir, 0))
    requires CopiesFully(g, Creat(g, v, f).vol, FindFreeExtent(v.dir, 0), 0, chunks)
    ensures var w := Copy(g, Creat(g, v, f).vol, FindFreeExtent(v.dir, 0), 0, chunks);
      && Holds(g, w, files[f := Concat(chunks)]) && ReadsAs(g, w, f, Concat(chunks))
      && Namei(g, w.dir, f).Some? && Namei(g, w.dir, f).value.size == CopyRecorded(g, chunks)
      && (Shows(g, w, files[f := Concat(chunks)]) <==> CopySizeKept(g, chunks))
  {
    hide Consistent, Mounted, Contents, Ended, KeyOf, Live, CopiesFully, Copy, FreshEntry, Read, AllCountRight,
         ValidGeometry, Namei, EntriesUpTo, SameOutside, PhysicalExtent, Shows, ReadsAs, SizedFile, LastEntered,
         Creat;
    HoldsValid(g, v, files);
    var i, v', files' := FindFreeExtent(v.dir, 0), Creat(g, v, f).vol, files[f := Concat(chunks)];
    CreatOpens(g, v, f);
    var w := Copy(g, v', i, 0, chunks);
    CopyIntoNew(g, v, f, chunks, files);
    CreatUpTo(g, v, f);
    CopySize(g, v', i, 0, chunks);
    var x := PhysicalExtent(g, |Concat(chunks)|);
    ExtentMonotone(g, 0, |Concat(chunks)|);
    SameOutsideTransitive(g, v.dir, v'.dir, w.dir, f, PhysicalExtent(g, 0), x);
    forall h | h in files' && h != f ensures SizedFile(g, w.dir, h, |files'[h]|) {
      OthersSized(g, v.dir, w.dir, f, x, h, files);
    }
    if LastLength(chunks) == 0 {
      NewFileSize(g, v, f, files);
    } else {
      RecordedShort(g, |Concat(chunks)|, LastLength(chunks));
    }
    HoldsShows(g, w, files', f);
  }

  lemma NewFileSize(g: Geometry, v: Volume, f: Key, files: Files)
    requires Refines(g, v, files) && ValidKey(g, f) && Creat(g, v, f).Done?
    ensures Namei(g, Creat(g, v, f).vol.dir, f).Some? && Namei(g, Creat(g, v, f).vol.dir, f).value.size == 0
  {
    hide Consistent, Contents, KeyOf, Live, FreshEntry, Namei, RecordsEnd, Creat;
    HoldsValid(g, v, files);
    CreatContents(g, v, f, files);
    CreatEnded(g, v, f, files, true);
    CreatConsistent(g, v, f);
    ConsistentIsMounted(g, v);
    NameiSize(g, Creat(g, v, f).vol, f, files[f := []]);
  }
}
