/** The time stamps of P2DOS and CP/M 3: every fourth directory entry may hold those of the three before it.
    `cpmCreat`, `cpmWrite` and `cpmUtime` update them, nothing else on the volume depends on them. */
module Stamps {
  import opened Wrappers
  import opened Geometry
  import opened Directory
  import opened Volume
  import opened Invariant
  import opened Refinement
  import opened Persistence

  const NO_TIMES: seq<byte> := [0, 0, 0, 0, 0, 0, 0, 0]

  /** Creation or access time and time of the last modification of a file, four bytes each. */
  type Times = t: seq<byte> | |t| == 8 witness NO_TIMES

  /** What a call would stamp a file with: before it stored anything, and after. */
  datatype Clock = Clock(before: Times, after: Times)

  /** `extent | 3`. */
  function StampIndex(i: nat): nat {
    i / 4 * 4 + 3
  }

  /** Entry `i` has its stamps in a stamp entry. */
  predicate HasStamp(g: Geometry, dir: seq<DirEntry>, i: nat) {
    g.os.cpm3Dates && StampIndex(i) < |dir| && dir[StampIndex(i)].status == STAMP
  }

  /** Where in the 32 bytes of the stamp entry the times of entry `i` are. */
  function StampPlace(i: nat): nat {
    1 + 10 * (i % 4)
  }

  function WithTimes(e: DirEntry, i: nat, t: Times): DirEntry
    requires i % 4 != 3
  {
    ParseEntry(Overlay(EntryBytes(e), StampPlace(i), t))
  }

  /** `updateTimeStamps` on formats without MP/M dates. */
  function Touch(g: Geometry, v: Volume, i: nat, t: Times): (v': Volume)
    ensures |v'.dir| == |v.dir|
  {
    if !HasStamp(g, v.dir, i) then v
    else if i % 4 == 3 then v.(dirty := true)
    else v.(dir := v.dir[StampIndex(i) := WithTimes(v.dir[StampIndex(i)], i, t)], dirty := true)
  }

  /** `readTimeStamps`. */
  function TimesOf(g: Geometry, dir: seq<DirEntry>, i: nat): Option<Times> {
    if HasStamp(g, dir, i) && i % 4 != 3 then
      Some(EntryBytes(dir[StampIndex(i)])[StampPlace(i)..StampPlace(i) + 8])
    else None
  }

  /** The times a call stores for a file read back, and those of every other entry stay, as does every entry that
      is not for stamps. */
  lemma TouchReadsBack(g: Geometry, v: Volume, i: nat, t: Times)
    requires i < |v.dir| && Live(g, v.dir[i])
    ensures var v' := Touch(g, v, i, t);
      && TimesOf(g, v'.dir, i) == (if HasStamp(g, v.dir, i) then Some(t) else None)
      && (forall j: nat :: j != i ==> TimesOf(g, v'.dir, j) == TimesOf(g, v.dir, j))
      && (forall j: nat :: j < |v.dir| && j != StampIndex(i) ==> v'.dir[j] == v.dir[j])
  {
    hide Overlay, EntryBytes, ParseEntry;
    var v' := Touch(g, v, i, t);
    if HasStamp(g, v.dir, i) && i % 4 != 3 {
      var e, k := v.dir[StampIndex(i)], StampIndex(i);
      TimesAt(e, i, i, t);
      forall j: nat | j != i ensures TimesOf(g, v'.dir, j) == TimesOf(g, v.dir, j) {
        if StampIndex(j) == k && j % 4 != 3 {
          TimesAt(e, i, j, t);
        }
      }
    }
  }

  /** The entry that holds the times of entry `i` is the last of its group of four, and where in it they are. */
  lemma TimesPlaced(g: Geometry, dir: seq<DirEntry>, i: nat)
    ensures var k, t := i + 3 - i % 4, TimesOf(g, dir, i);
      && (t.Some? <==> g.os.cpm3Dates && i % 4 != 3 && k < |dir| && dir[k].status == 0x21)
      && (t.Some? && i % 4 == 0 ==> t.value == dir[k].name)
      && (t.Some? && i % 4 == 1 ==>
            t.value ==
              dir[k].ext[2..] + [dir[k].extnol, dir[k].lrc, dir[k].extnoh, dir[k].blkcnt] + dir[k].pointers[..3])
      && (t.Some? && i % 4 == 2 ==> t.value == dir[k].pointers[5..13])
  {
    if TimesOf(g, dir, i).Some? {
      PlacedIn(dir[i + 3 - i % 4], i);
    }
  }

  lemma PlacedIn(e: DirEntry, i: nat)
    requires i % 4 != 3
    ensures var t := EntryBytes(e)[StampPlace(i)..StampPlace(i) + 8];
      && (i % 4 == 0 ==> t == e.name)
      && (i % 4 == 1 ==> t == e.ext[2..] + [e.extnol, e.lrc, e.extnoh, e.blkcnt] + e.pointers[..3])
      && (i % 4 == 2 ==> t == e.pointers[5..13])
  {
    var r := EntryBytes(e);
    assert r[1..9] == e.name;
    assert r[11..19] == e.ext[2..] + [e.extnol, e.lrc, e.extnoh, e.blkcnt] + e.pointers[..3];
    assert r[21..29] == e.pointers[5..13];
  }

  /** The fields `updateTimeStamps` writes to are the bytes reserved for the entry. */
  lemma StampFields(e: DirEntry, i: nat, t: Times)
    ensures i % 4 == 0 ==> WithTimes(e, i, t) == e.(name := t)
    ensures i % 4 == 1 ==> WithTimes(e, i, t) == SecondTimes(e, t)
    ensures i % 4 == 2 ==> WithTimes(e, i, t) == e.(pointers := e.pointers[..5] + t + e.pointers[13..])
  {
    hide EntryBytes, ParseEntry, Overlay, SecondTimes;
    if i % 4 == 0 {
      FirstPlace(e, t);
      EntryRoundTrip(e.(name := t));
    } else if i % 4 == 1 {
      SecondPlace(e, t);
      EntryRoundTrip(SecondTimes(e, t));
    } else if i % 4 == 2 {
      ThirdPlace(e, t);
      EntryRoundTrip(e.(pointers := e.pointers[..5] + t + e.pointers[13..]));
    }
  }

  function SecondTimes(e: DirEntry, t: Times): DirEntry {
    e.(ext := e.ext[..2] + t[..1], extnol := t[1], lrc := t[2], extnoh := t[3], blkcnt := t[4],
       pointers := t[5..] + e.pointers[3..])
  }

  lemma FirstPlace(e: DirEntry, t: Times)
    ensures Overlay(EntryBytes(e), 1, t) == EntryBytes(e.(name := t))
  {}

  lemma SecondPlace(e: DirEntry, t: Times)
    ensures Overlay(EntryBytes(e), 11, t) == EntryBytes(SecondTimes(e, t))
  {}

  lemma ThirdPlace(e: DirEntry, t: Times)
    ensures Overlay(EntryBytes(e), 21, t) == EntryBytes(e.(pointers := e.pointers[..5] + t + e.pointers[13..]))
  {}

  /** Every byte of a stamp entry that is not one of the times stored stays: the other times, and what says how the
      files are protected. */
  lemma TouchKeepsBytes(g: Geometry, v: Volume, i: nat, t: Times, j: nat, b: nat)
    requires j < |v.dir| && b < 32
    requires TimesOf(g, v.dir, i).Some? && j == StampIndex(i) ==> !(StampPlace(i) <= b < StampPlace(i) + 8)
    ensures EntryBytes(Touch(g, v, i, t).dir[j])[b] == EntryBytes(v.dir[j])[b]
  {
    hide EntryBytes, ParseEntry;
    if HasStamp(g, v.dir, i) && i % 4 != 3 && j == StampIndex(i) {
      BytesRoundTrip(Overlay(EntryBytes(v.dir[j]), StampPlace(i), t));
    }
  }

  lemma TimesAt(e: DirEntry, i: nat, j: nat, t: Times)
    requires i % 4 != 3 && j % 4 != 3
    ensures var b := EntryBytes(WithTimes(e, i, t));
      && WithTimes(e, i, t).status == e.status
      && b[StampPlace(j)..StampPlace(j) + 8] ==
           if i % 4 == j % 4 then t else EntryBytes(e)[StampPlace(j)..StampPlace(j) + 8]
  {
    hide EntryBytes, ParseEntry;
    var b := Overlay(EntryBytes(e), StampPlace(i), t);
    BytesRoundTrip(b);
    StatusByte(b);
    StatusOf(e);
  }

  lemma StatusByte(b: seq<byte>)
    requires |b| == 32
    ensures ParseEntry(b).status == b[0]
  {}

  lemma StatusOf(e: DirEntry)
    ensures EntryBytes(e)[0] == e.status
  {}

  // ----- nothing else depends on them -----------------------------------------------------------------

  /** The directories differ at most in what stamp entries hold. */
  ghost predicate SameButStamps(dir: seq<DirEntry>, dir': seq<DirEntry>) {
    |dir'| == |dir| && forall i :: 0 <= i < |dir| ==> dir'[i] == dir[i] || (dir[i].status == STAMP == dir'[i].status)
  }

  /** `v'` is `v` with other stamps, and perhaps marked as changed for it. */
  ghost predicate Alike(v: Volume, v': Volume) {
    && SameButStamps(v.dir, v'.dir)
    && v'.slack == v.slack && v'.alv == v.alv && v'.data == v.data && (v.dirty ==> v'.dirty)
  }

  lemma AlikeTransitive(u: Volume, v: Volume, w: Volume)
    requires Alike(u, v) && Alike(v, w)
    ensures Alike(u, w)
  {}

  lemma TouchAlike(g: Geometry, v: Volume, i: nat, t: Times)
    ensures Alike(v, Touch(g, v, i, t))
  {
    hide WithTimes;
    if HasStamp(g, v.dir, i) && i % 4 != 3 {
      TimesAt(v.dir[StampIndex(i)], i, i, t);
    }
  }

  lemma {:induction false} ScanAlike(g: Geometry, dir: seq<DirEntry>, dir': seq<DirEntry>, f: Key, start: nat,
                                     extno: int)
    requires ValidGeometry(g) && -1 <= extno && SameButStamps(dir, dir')
    ensures FindFileExtent(g, dir', f, start, extno) == FindFileExtent(g, dir, f, start, extno)
    decreases |dir| - start
  {
    hide ValidGeometry, KeyOf, PhysicalOf;
    if start < |dir| {
      ScanAlike(g, dir, dir', f, start + 1, extno);
    }
  }

  lemma {:induction false} FreeAlike(dir: seq<DirEntry>, dir': seq<DirEntry>, start: nat)
    requires SameButStamps(dir, dir')
    ensures FindFreeExtent(dir', start) == FindFreeExtent(dir, start)
    decreases |dir| - start
  {
    if start < |dir| {
      FreeAlike(dir, dir', start + 1);
    }
  }

  lemma PointersAlike(g: Geometry, dir: seq<DirEntry>, dir': seq<DirEntry>)
    requires SameButStamps(dir, dir')
    ensures forall i, k :: 0 <= i < |dir| && 0 <= k < PointersPerEntry(g) ==>
      LivePtr(g, dir'[i], k) == LivePtr(g, dir[i], k)
    ensures forall i :: 0 <= i < |dir| ==> (Live(g, dir'[i]) <==> Live(g, dir[i]))
    ensures forall i :: 0 <= i < |dir| && Live(g, dir[i]) ==> dir'[i] == dir[i]
  {
    hide Ptr;
  }

  lemma MountedAlike(g: Geometry, v: Volume, v': Volume)
    requires Mounted(g, v) && Alike(v, v')
    ensures Mounted(g, v')
  {
    hide ValidGeometry, Ptr;
    PointersAlike(g, v.dir, v'.dir);
  }

  lemma ConsistentAlike(g: Geometry, v: Volume, v': Volume)
    requires Consistent(g, v) && Alike(v, v')
    ensures Consistent(g, v')
  {
    hide ValidGeometry, LivePtr, KeyOf, PhysicalOf, Live, BlocksPerExtent;
    PointersAlike(g, v.dir, v'.dir);
    SameReferences(g, v.dir, v'.dir);
  }

  lemma ContentsAlike(g: Geometry, v: Volume, v': Volume, files: Files)
    requires ValidGeometry(g) && Contents(g, v, files) && Alike(v, v')
    ensures Contents(g, v', files)
  {
    hide ValidGeometry, LivePtr, KeyOf, PhysicalOf, Live, HoldsBytes, NoBlocksBehind, HasExtent;
    PointersAlike(g, v.dir, v'.dir);
    forall i: nat | i < |v'.dir| && Live(g, v'.dir[i]) ensures EntryContents(g, v', i, files) {
      assert EntryContents(g, v, i, files);
    }
    forall f | f in files ensures Complete(g, v'.dir, f, |files[f]|) {
      CompleteAlike(g, v.dir, v'.dir, f, |files[f]|);
    }
  }

  lemma CompleteAlike(g: Geometry, dir: seq<DirEntry>, dir': seq<DirEntry>, f: Key, size: nat)
    requires ValidGeometry(g) && Complete(g, dir, f, size) && SameButStamps(dir, dir')
    ensures Complete(g, dir', f, size)
  {
    hide ValidGeometry, KeyOf, PhysicalOf, Live;
    PointersAlike(g, dir, dir');
    var j :| 0 <= j < |dir| && Live(g, dir[j]) && KeyOf(dir[j]) == f;
    assert Live(g, dir'[j]) && KeyOf(dir'[j]) == f;
    forall p: nat | p < size ensures HasExtent(g, dir', f, PhysicalExtent(g, p)) {
      var x := PhysicalExtent(g, p);
      assert HasExtent(g, dir, f, x);
      var l :| 0 <= l < |dir| && Live(g, dir[l]) && KeyOf(dir[l]) == f && PhysicalOf(g, dir[l]) == x;
      assert Live(g, dir'[l]) && KeyOf(dir'[l]) == f && PhysicalOf(g, dir'[l]) == x;
    }
  }

  lemma EndedAlike(g: Geometry, dir: seq<DirEntry>, dir': seq<DirEntry>, files: Files, exact: bool)
    requires ValidGeometry(g) && Ended(g, dir, files, exact) && SameButStamps(dir, dir')
    ensures Ended(g, dir', files, exact)
  {
    hide ValidGeometry, KeyOf, RecordsEnd, Live;
    PointersAlike(g, dir, dir');
  }

  // ----- the calls that stamp ------------------------------------------------------------------------

  /** `cpmUtime` through the inode of entry `ino` is this and nothing else. */
  function Utime(g: Geometry, v: Volume, ino: nat, t: Times): Volume {
    Touch(g, v, ino, t)
  }

  /** The times set through the inode a lookup finds are the ones the next lookup of the file reads, no other file's
      times and no file's entry change. */
  lemma UtimeReadsBack(g: Geometry, v: Volume, f: Key, t: Times)
    requires ValidGeometry(g) && Namei(g, v.dir, f).Some?
    ensures var found, w := Namei(g, v.dir, f).value, Utime(g, v, Namei(g, v.dir, f).value.ino, t);
      && |w.dir| == |v.dir| && Namei(g, w.dir, f) == Some(found) && Alike(v, w)
      && TimesOf(g, w.dir, found.ino) == (if HasStamp(g, v.dir, found.ino) then Some(t) else None)
      && forall j: nat :: j < |v.dir| && Live(g, v.dir[j]) && j != found.ino ==> TimesKept(g, v.dir, w.dir, j)
  {
    hide ValidGeometry, KeyOf, TimesOf, Touch, Live, HighestEntry, LowestEntry, EntryEnd;
    var i := Namei(g, v.dir, f).value.ino;
    MatchIsLive(g, v.dir[i], f);
    TouchReadsBack(g, v, i, t);
    TouchTimes(g, v, i, t);
    TouchAlike(g, v, i, t);
    HighestAlike(g, v.dir, Touch(g, v, i, t).dir, f, |v.dir|);
    LowestAlike(g, v.dir, Touch(g, v, i, t).dir, f, |v.dir|);
  }

  /** `cpmCreat`. */
  function CreatAt(g: Geometry, v: Volume, f: Key, t: Times): Outcome
    requires ValidGeometry(g) && |f.name| == 8 && |f.ext| == 3
  {
    var o := Creat(g, v, f);
    if o.Failed? then o else Done(Touch(g, o.vol, FindFreeExtent(v.dir, 0), t))
  }

  lemma CreatAlike(g: Geometry, v: Volume, f: Key, t: Times)
    requires ValidGeometry(g) && |f.name| == 8 && |f.ext| == 3
    ensures var o, o' := Creat(g, v, f), CreatAt(g, v, f, t);
      if o.Failed? then o' == o else o'.Done? && Alike(o.vol, o'.vol)
  {
    hide ValidGeometry, Touch, Alike;
    if Creat(g, v, f).Done? {
      TouchAlike(g, Creat(g, v, f).vol, FindFreeExtent(v.dir, 0), t);
    }
  }

  /** The entry that a lookup finds for a file just created reads the times of the call back, if it has a stamp entry,
      whatever was left in there; the times of every other file stay. */
  lemma CreatTimes(g: Geometry, v: Volume, f: Key, t: Times)
    requires ValidGeometry(g) && ValidKey(g, f) && CreatAt(g, v, f, t).Done?
    ensures var w, found := CreatAt(g, v, f, t).vol, Namei(g, CreatAt(g, v, f, t).vol.dir, f);
      && found.Some? && found.value == Found(FindFreeExtent(v.dir, 0), 0) && |w.dir| == |v.dir|
      && TimesOf(g, w.dir, found.value.ino) == (if HasStamp(g, v.dir, found.value.ino) then Some(t) else None)
      && forall j: nat :: j < |v.dir| && Live(g, v.dir[j]) ==> TimesKept(g, v.dir, w.dir, j)
  {
    hide ValidGeometry, KeyOf, FreshEntry, TimesOf, Touch, Live, EntryEnd, Matches, HighestEntry, LowestEntry;
    FreshEntryFacts(g, f);
    FreshStamp(g, v.dir, f);
    var i, u := FindFreeExtent(v.dir, 0), Creat(g, v, f).vol;
    FoundFresh(g, v, f);
    ReplaceKeepsTimes(g, v.dir, i, FreshEntry(f));
    TouchReadsBack(g, u, i, t);
    TouchTimes(g, u, i, t);
    TouchAlike(g, u, i, t);
    HighestAlike(g, u.dir, Touch(g, u, i, t).dir, f, |u.dir|);
    LowestAlike(g, u.dir, Touch(g, u, i, t).dir, f, |u.dir|);
    forall j: nat | j < |v.dir| && Live(g, v.dir[j]) ensures TimesKept(g, v.dir, Touch(g, u, i, t).dir, j) {
      UnusedIsNotLive(g, v.dir[i]);
      assert u.dir[j] == v.dir[j];
      assert TimesKept(g, u.dir, Touch(g, u, i, t).dir, j);
    }
  }

  lemma FreshStamp(g: Geometry, dir: seq<DirEntry>, f: Key)
    requires ValidKey(g, f) && FindFreeExtent(dir, 0) != -1
    ensures var i := FindFreeExtent(dir, 0);
      && FreshEntry(f).status != STAMP && dir[i].status != STAMP
      && HasStamp(g, dir[i := FreshEntry(f)], i) == HasStamp(g, dir, i)
  {}

  lemma FoundFresh(g: Geometry, v: Volume, f: Key)
    requires ValidGeometry(g) && ValidKey(g, f) && Creat(g, v, f).Done?
    ensures Namei(g, Creat(g, v, f).vol.dir, f) == Some(Found(FindFreeExtent(v.dir, 0), 0))
  {
    hide ValidGeometry, KeyOf, PhysicalOf, ExtentNumber, Live, HighestEntry, LowestEntry;
    FreshEntryFacts(g, f);
    FreshEnd(g, f);
    var i, dir' := FindFreeExtent(v.dir, 0), Creat(g, v, f).vol.dir;
    assert forall j :: 0 <= j < |dir'| && Matches(g, dir'[j], f, -1) ==> j == i;
    assert Matches(g, dir'[i], f, -1);
  }

  lemma FreshEnd(g: Geometry, f: Key)
    requires |f.name| == 8 && |f.ext| == 3
    ensures EntryEnd(g, FreshEntry(f)) == 0
  {}

  /** The `findext` branch of `cpmWrite`. */
  function OpenExtentAt(g: Geometry, v: Volume, ino: nat, pos: nat, t: Times): (r: Option<(Volume, Cursor)>)
    requires ValidGeometry(g) && ino < |v.dir|
    ensures r.Some? ==> |r.value.0.dir| == |v.dir| && r.value.1.extent < |v.dir|
  {
    match OpenExtent(g, v, ino, pos)
    case None => None
    case Some((v', c)) =>
      var isNew := FindFileExtent(g, v.dir, KeyOf(v.dir[ino]), 0, pos / LOGICAL_EXTENT) == -1;
      Some((if isNew then Touch(g, v', c.extent, t) else v', c))
  }

  /** Its `findblock` branch. */
  function OpenBlockAt(g: Geometry, v: Volume, i: nat, k: nat, t: Times): (r: Option<(Volume, nat, bool)>)
    requires i < |v.dir| && k < PointersPerEntry(g)
    ensures r.Some? ==> |r.value.0.dir| == |v.dir|
  {
    match OpenBlock(g, v, i, k)
    case None => None
    case Some((v', b, isNew)) => Some((if isNew then Touch(g, v', i, t) else v', b, isNew))
  }

  /** The entry to write to: the cursor's, or the one `findext` settles on. */
  function OpenedAt(g: Geometry, v: Volume, ino: nat, pos: nat, cursor: Option<Cursor>, t: Times)
    : Option<(Volume, Cursor)>
    requires ValidGeometry(g) && ino < |v.dir|
  {
    if cursor.Some? then Some((v, cursor.value)) else OpenExtentAt(g, v, ino, pos, t)
  }

  lemma OpenExtentAlike(g: Geometry, v: Volume, v': Volume, ino: nat, pos: nat, t: Times)
    requires ValidGeometry(g) && ino < |v.dir| && Live(g, v.dir[ino]) && Alike(v, v')
    ensures var r, r' := OpenExtent(g, v, ino, pos), OpenExtentAt(g, v', ino, pos, t);
      if r.None? then r' == None else r'.Some? && r'.value.1 == r.value.1 && Alike(r.value.0, r'.value.0)
  {
    hide ValidGeometry, KeyOf, ExtentEntry, FindFileExtent, FindFreeExtent, Touch, Matches;
    PointersAlike(g, v.dir, v'.dir);
    ScanAlike(g, v.dir, v'.dir, KeyOf(v.dir[ino]), 0, pos / LOGICAL_EXTENT);
    FreeAlike(v.dir, v'.dir, 0);
    var r, r' := OpenExtent(g, v, ino, pos), OpenExtent(g, v', ino, pos);
    if r.Some? {
      assert Alike(r.value.0, r'.value.0);
      TouchAlike(g, r'.value.0, r.value.1.extent, t);
      AlikeTransitive(r.value.0, r'.value.0, Touch(g, r'.value.0, r.value.1.extent, t));
    }
  }

  lemma OpenBlockAlike(g: Geometry, v: Volume, v': Volume, i: nat, k: nat, t: Times)
    requires i < |v.dir| && Live(g, v.dir[i]) && k < PointersPerEntry(g) && Alike(v, v')
    ensures var r, r' := OpenBlock(g, v, i, k), OpenBlockAt(g, v', i, k, t);
      if r.None? then r' == None
      else r'.Some? && r'.value.1 == r.value.1 && r'.value.2 == r.value.2 && Alike(r.value.0, r'.value.0)
  {
    hide Ptr, SetPtr, AllocBlock, Touch;
    PointersAlike(g, v.dir, v'.dir);
    var r, r' := OpenBlock(g, v, i, k), OpenBlock(g, v', i, k);
    if r.Some? {
      assert Alike(r.value.0, r'.value.0);
      TouchAlike(g, r'.value.0, i, t);
      AlikeTransitive(r.value.0, r'.value.0, Touch(g, r'.value.0, i, t));
    }
  }

  lemma StoreAlike(g: Geometry, v: Volume, v': Volume, c: Cursor, b: nat, isNew: bool, pos: nat, bytes: seq<byte>,
                   buffer: seq<byte>, t: Times)
    requires ValidGeometry(g) && WellSized(g, v) && Alike(v, v') && c.extent < |v.dir| && b < g.size
    requires Live(g, v.dir[c.extent])
    requires |buffer| == LOGICAL_EXTENT && 0 < |bytes| && Offset(g, pos) + |bytes| <= g.blksiz
    ensures WellSized(g, v')
    ensures var r, r' := StorePass(g, v, c, b, isNew, pos, bytes, buffer),
                         StorePass(g, v', c, b, isNew, pos, bytes, buffer);
      Alike(r.vol, Touch(g, r'.vol, c.extent, t)) && r' == r.(vol := r'.vol)
  {
    hide ValidGeometry, StoreInBlock, AdvancedExtentNumber, WithEnd, PhysicalExtent, Offset, Touch;
    PointersAlike(g, v.dir, v'.dir);
    var r, r' := StorePass(g, v, c, b, isNew, pos, bytes, buffer), StorePass(g, v', c, b, isNew, pos, bytes, buffer);
    assert Alike(r.vol, r'.vol);
    TouchAlike(g, r'.vol, c.extent, t);
    AlikeTransitive(r.vol, r'.vol, Touch(g, r'.vol, c.extent, t));
  }

  lemma WritableAlike(g: Geometry, v: Volume, v': Volume, ino: nat, cursor: Option<Cursor>, buffer: seq<byte>)
    requires Writable(g, v, ino, cursor, buffer) && Alike(v, v')
    ensures Writable(g, v', ino, cursor, buffer)
  {
    hide Mounted;
    MountedAlike(g, v, v');
    PointersAlike(g, v.dir, v'.dir);
  }

  /** Find or allocate the block of `pos` in the cursor's entry and store as much as fits in it. */
  function BlockPassAt(g: Geometry, v: Volume, c: Cursor, pos: nat, data: seq<byte>, buffer: seq<byte>, clock: Clock)
    : (r: StepResult)
    requires Mounted(g, v) && c.extent < |v.dir| && Live(g, v.dir[c.extent]) && |buffer| == LOGICAL_EXTENT && 0 < |data|
  {
    hide ValidGeometry, OpenBlockAt, StorePass, Touch;
    match OpenBlockAt(g, v, c.extent, Slot(g, pos), clock.before)
    case None => Full(v)
    case Some((v', b, isNew)) =>
      OpenBlockAtMounted(g, v, c.extent, Slot(g, pos), clock.before);
      var r := StorePass(g, v', c, b, isNew, pos, data[..PassLength(g, pos, |data|)], buffer);
      r.(vol := Touch(g, r.vol, c.extent, clock.after))
  }

  lemma OpenBlockAtMounted(g: Geometry, v: Volume, i: nat, k: nat, t: Times)
    requires Mounted(g, v) && i < |v.dir| && Live(g, v.dir[i]) && k < PointersPerEntry(g)
    requires OpenBlockAt(g, v, i, k, t).Some?
    ensures var (v', b, isNew) := OpenBlockAt(g, v, i, k, t).value; Mounted(g, v') && b < g.size
  {
    hide ValidGeometry, OpenBlock, Touch, Mounted, Alike;
    OpenBlockMounted(g, v, i, k);
    var (v', b, isNew) := OpenBlock(g, v, i, k).value;
    TouchAlike(g, v', i, t);
    MountedAlike(g, v', Touch(g, v', i, t));
  }

  lemma BlockPassAlike(g: Geometry, v: Volume, v': Volume, c: Cursor, pos: nat, data: seq<byte>, buffer: seq<byte>,
                       clock: Clock)
    requires Mounted(g, v) && Mounted(g, v') && Alike(v, v') && c.extent < |v.dir|
    requires Live(g, v.dir[c.extent]) && Live(g, v'.dir[c.extent]) && |buffer| == LOGICAL_EXTENT && 0 < |data|
    ensures var r, r' := BlockPass(g, v, c, pos, data, buffer), BlockPassAt(g, v', c, pos, data, buffer, clock);
      Alike(r.vol, r'.vol) && r' == r.(vol := r'.vol)
  {
    hide ValidGeometry, OpenBlock, OpenBlockAt, StorePass, Touch, Mounted, Alike, Live, PassLength, Slot;
    MountedIsSized(g, v);
    AlikeSizes(g, v, v');
    var k := Slot(g, pos);
    OpenBlockAlike(g, v, v', c.extent, k, clock.before);
    if OpenBlock(g, v, c.extent, k).Some? {
      OpenBlockMounted(g, v, c.extent, k);
      OpenBlockAtMounted(g, v', c.extent, k, clock.before);
      var (v1, b, isNew) := OpenBlock(g, v, c.extent, k).value;
      var v1' := OpenBlockAt(g, v', c.extent, k, clock.before).value.0;
      SameStatusLive(g, v.dir[c.extent], v1.dir[c.extent]);
      MountedIsSized(g, v1);
      StoreAlike(g, v1, v1', c, b, isNew, pos, data[..PassLength(g, pos, |data|)], buffer, clock.after);
    }
  }

  lemma SameStatusLive(g: Geometry, e: DirEntry, e': DirEntry)
    requires e'.status == e.status
    ensures Live(g, e') == Live(g, e)
  {}

  lemma MountedIsSized(g: Geometry, v: Volume)
    requires Mounted(g, v)
    ensures ValidGeometry(g) && WellSized(g, v)
  {}

  lemma OpenedAtReady(g: Geometry, v: Volume, ino: nat, pos: nat, cursor: Option<Cursor>, buffer: seq<byte>, t: Times)
    requires Writable(g, v, ino, cursor, buffer)
    ensures ValidGeometry(g)
    ensures var r := OpenedAt(g, v, ino, pos, cursor, t);
      r.Some? ==> var (v1, c) := r.value; Mounted(g, v1) && c.extent < |v1.dir| && Live(g, v1.dir[c.extent])
  {
    hide ValidGeometry, Opened, OpenedAt, Mounted, Live, Alike;
    AlikeItself(v);
    MountedIsSized(g, v);
    OpenedAtMounted(g, v, v, ino, pos, cursor, buffer, t);
    if Opened(g, v, ino, pos, cursor).Some? {
      AlikeSizes(g, Opened(g, v, ino, pos, cursor).value.0, OpenedAt(g, v, ino, pos, cursor, t).value.0);
    }
  }

  /** One round of `while (count > 0)`, stamps included. */
  function WritePassAt(g: Geometry, v: Volume, ino: nat, pos: nat, cursor: Option<Cursor>, data: seq<byte>,
                       buffer: seq<byte>, clock: Clock)
    : (r: StepResult)
    requires Writable(g, v, ino, cursor, buffer) && 0 < |data|
  {
    hide ValidGeometry, OpenedAt, BlockPassAt, Mounted, Live;
    OpenedAtReady(g, v, ino, pos, cursor, buffer, clock.before);
    match OpenedAt(g, v, ino, pos, cursor, clock.before)
    case None => Full(v)
    case Some((v1, c)) => BlockPassAt(g, v1, c, pos, data, buffer, clock)
  }

  lemma OpenedAtMounted(g: Geometry, v: Volume, v': Volume, ino: nat, pos: nat, cursor: Option<Cursor>,
                        buffer: seq<byte>, t: Times)
    requires Writable(g, v, ino, cursor, buffer) && Alike(v, v')
    ensures ino < |v'.dir|
    ensures var r, r' := Opened(g, v, ino, pos, cursor), OpenedAt(g, v', ino, pos, cursor, t);
      if r.None? then r' == None
      else
        var (v1, c) := r.value;
        && r'.Some? && r'.value.1 == c && Alike(v1, r'.value.0) && c.extent < |v1.dir|
        && Mounted(g, v1) && Live(g, v1.dir[c.extent]) && Mounted(g, r'.value.0) && Live(g, r'.value.0.dir[c.extent])
  {
    hide ValidGeometry, OpenExtent, OpenExtentAt, Mounted, Alike, Live;
    AlikeSizes(g, v, v');
    MountedAlike(g, v, v');
    if cursor.None? {
      MountedIsSized(g, v);
      OpenExtentAlike(g, v, v', ino, pos, t);
      if OpenExtent(g, v, ino, pos).Some? {
        OpenExtentMounted(g, v, ino, pos);
        var (v1, c) := OpenExtent(g, v, ino, pos).value;
        var v1' := OpenExtentAt(g, v', ino, pos, t).value.0;
        MountedAlike(g, v1, v1');
        AlikeSizes(g, v1, v1');
      }
    }
  }

  lemma AlikeSizes(g: Geometry, v: Volume, v': Volume)
    requires Alike(v, v')
    ensures |v'.dir| == |v.dir| && forall i :: 0 <= i < |v.dir| ==> Live(g, v'.dir[i]) == Live(g, v.dir[i])
  {}

  lemma PassAlike(g: Geometry, v: Volume, v': Volume, ino: nat, pos: nat, cursor: Option<Cursor>, data: seq<byte>,
                  buffer: seq<byte>, clock: Clock)
    requires Writable(g, v, ino, cursor, buffer) && Alike(v, v') && 0 < |data|
    ensures Writable(g, v', ino, cursor, buffer)
    ensures var r, r' := WritePass(g, v, ino, pos, cursor, data, buffer),
                         WritePassAt(g, v', ino, pos, cursor, data, buffer, clock);
      Alike(r.vol, r'.vol) && r' == r.(vol := r'.vol)
    ensures var r' := WritePassAt(g, v', ino, pos, cursor, data, buffer, clock);
      r'.Stored? ==> 0 < r'.n <= |data| && Writable(g, r'.vol, ino, r'.cursor, r'.buffer)
  {
    hide ValidGeometry, Opened, OpenedAt, BlockPass, BlockPassAt, Mounted, Alike, Live, CursorFits;
    WritableAlike(g, v, v', ino, cursor, buffer);
    OpenedAtMounted(g, v, v', ino, pos, cursor, buffer, clock.before);
    MountedIsSized(g, v);
    if Opened(g, v, ino, pos, cursor).Some? {
      var (v1, c) := Opened(g, v, ino, pos, cursor).value;
      BlockPassAlike(g, v1, OpenedAt(g, v', ino, pos, cursor, clock.before).value.0, c, pos, data, buffer, clock);
    }
    var r, r' := WritePass(g, v, ino, pos, cursor, data, buffer),
                 WritePassAt(g, v', ino, pos, cursor, data, buffer, clock);
    if r.Stored? {
      WritableAlike(g, r.vol, r'.vol, ino, r.cursor, r.buffer);
    }
  }

  /** `cpmWrite`, stamps included. */
  function WriteAt(g: Geometry, v: Volume, ino: nat, pos: nat, cursor: Option<Cursor>, data: seq<byte>,
                   buffer: seq<byte>, clock: Clock)
    : (r: WriteResult)
    requires Writable(g, v, ino, cursor, buffer)
    decreases |data|
  {
    hide Writable, WritePassAt;
    if |data| == 0 then WriteResult(v, 0, false, buffer)
    else
      AlikeItself(v);
      PassAlike(g, v, v, ino, pos, cursor, data, buffer, clock);
      var step := WritePassAt(g, v, ino, pos, cursor, data, buffer, clock);
      if step.Full? then WriteResult(step.vol, 0, true, buffer)
      else
        var rest := WriteAt(g, step.vol, ino, pos + step.n, step.cursor, data[step.n..], step.buffer, clock);
        rest.(got := step.n + rest.got)
  }

  lemma AlikeItself(v: Volume)
    ensures Alike(v, v)
  {}

  /** A write stores the same bytes in the same blocks whatever the stamps say, and stamps nothing else. */
  lemma {:induction false} WriteAlike(g: Geometry, v: Volume, v': Volume, ino: nat, pos: nat, cursor: Option<Cursor>,
                                      data: seq<byte>, buffer: seq<byte>, clock: Clock)
    requires Writable(g, v, ino, cursor, buffer) && Alike(v, v')
    ensures Writable(g, v', ino, cursor, buffer)
    ensures var r, r' := Write(g, v, ino, pos, cursor, data, buffer),
                         WriteAt(g, v', ino, pos, cursor, data, buffer, clock);
      Alike(r.vol, r'.vol) && r' == r.(vol := r'.vol)
    decreases |data|
  {
    hide Writable, WritePass, WritePassAt, Alike;
    WritableAlike(g, v, v', ino, cursor, buffer);
    if |data| > 0 {
      PassAlike(g, v, v', ino, pos, cursor, data, buffer, clock);
      var step, step' := WritePass(g, v, ino, pos, cursor, data, buffer),
                         WritePassAt(g, v', ino, pos, cursor, data, buffer, clock);
      if step.Stored? {
        WriteAlike(g, step.vol, step'.vol, ino, pos + step.n, step.cursor, data[step.n..], step.buffer, clock);
      }
    }
  }

  // ----- what other calls see ---------------------------------------------------------------------------

  lemma MatchAlike(g: Geometry, dir: seq<DirEntry>, dir': seq<DirEntry>, f: Key, i: nat)
    requires ValidGeometry(g) && SameButStamps(dir, dir') && i < |dir|
    ensures Matches(g, dir'[i], f, -1) == Matches(g, dir[i], f, -1)
    ensures Matches(g, dir[i], f, -1) ==> dir'[i] == dir[i]
  {
    hide ValidGeometry, KeyOf;
  }

  lemma {:induction false} HighestAlike(g: Geometry, dir: seq<DirEntry>, dir': seq<DirEntry>, f: Key, n: nat)
    requires ValidGeometry(g) && SameButStamps(dir, dir') && n <= |dir|
    ensures var h := HighestEntry(g, dir, f, n); HighestEntry(g, dir', f, n) == h && (h != -1 ==> dir'[h] == dir[h])
  {
    hide ValidGeometry, Matches, ExtentNumber, SameButStamps;
    SameSizes(dir, dir');
    if n > 0 {
      HighestAlike(g, dir, dir', f, n - 1);
      MatchAlike(g, dir, dir', f, n - 1);
    }
  }

  lemma {:induction false} LowestAlike(g: Geometry, dir: seq<DirEntry>, dir': seq<DirEntry>, f: Key, n: nat)
    requires ValidGeometry(g) && SameButStamps(dir, dir') && n <= |dir|
    ensures var l := LowestEntry(g, dir, f, n); LowestEntry(g, dir', f, n) == l && (l != -1 ==> dir'[l] == dir[l])
  {
    hide ValidGeometry, Matches, ExtentNumber, SameButStamps;
    SameSizes(dir, dir');
    if n > 0 {
      LowestAlike(g, dir, dir', f, n - 1);
      MatchAlike(g, dir, dir', f, n - 1);
    }
  }

  lemma SameSizes(dir: seq<DirEntry>, dir': seq<DirEntry>)
    requires SameButStamps(dir, dir')
    ensures |dir'| == |dir|
  {}

  /** Whatever the stamps say, a file is found with the same inode number and size, and a read delivers the same. */
  lemma ShowsAlike(g: Geometry, v: Volume, v': Volume, f: Key)
    requires Mounted(g, v) && Alike(v, v')
    ensures Mounted(g, v') && Namei(g, v'.dir, f) == Namei(g, v.dir, f)
    ensures forall size: nat, pos: nat, count: nat ::
      Read(g, v', f, size, pos, count) == Read(g, v, f, size, pos, count)
  {
    hide ValidGeometry, WellSized, PointersInRange, HighestEntry, LowestEntry, EntryEnd, ReadByte, BadAt, Matches;
    MountedAlike(g, v, v');
    HighestAlike(g, v.dir, v'.dir, f, |v.dir|);
    LowestAlike(g, v.dir, v'.dir, f, |v.dir|);
    NeverBad(g, v, f);
    NeverBad(g, v', f);
    forall pos: nat ensures ReadByte(g, v', f, pos) == ReadByte(g, v, f, pos) {
      ByteAlike(g, v, v', f, pos);
    }
  }

  lemma ByteAlike(g: Geometry, v: Volume, v': Volume, f: Key, pos: nat)
    requires Mounted(g, v) && Mounted(g, v') && Alike(v, v') && !BadAt(g, v, f, pos) && !BadAt(g, v', f, pos)
    ensures ReadByte(g, v', f, pos) == ReadByte(g, v, f, pos)
  {
    hide ValidGeometry, PointersInRange, KeyOf, ExtentNumber, Ptr, Slot, Offset;
    ScanAlike(g, v.dir, v'.dir, f, 0, pos / LOGICAL_EXTENT);
  }

  // ----- which stamps a write sets ------------------------------------------------------------------------

  /** Entry `j` and its times are as before. */
  predicate TimesKept(g: Geometry, dir: seq<DirEntry>, dir': seq<DirEntry>, j: nat)
    requires j < |dir| == |dir'|
  {
    dir'[j] == dir[j] && TimesOf(g, dir', j) == TimesOf(g, dir, j)
  }

  /** Other files keep their entries and times. */
  ghost predicate StampsOwn(g: Geometry, f: Key, dir: seq<DirEntry>, dir': seq<DirEntry>) {
    |dir'| == |dir| &&
    forall j: nat :: j < |dir| && Live(g, dir[j]) && KeyOf(dir[j]) != f ==> TimesKept(g, dir, dir', j)
  }

  ghost predicate StampsNothing(g: Geometry, dir: seq<DirEntry>, dir': seq<DirEntry>) {
    |dir'| == |dir| && forall j: nat :: j < |dir| && Live(g, dir[j]) ==> TimesKept(g, dir, dir', j)
  }

  /** Entries for other places than extent `x` of the file keep their times. */
  ghost predicate StampsExtent(g: Geometry, f: Key, x: nat, dir: seq<DirEntry>, dir': seq<DirEntry>)
    requires ValidGeometry(g)
  {
    |dir'| == |dir| &&
    forall j: nat :: j < |dir| && Live(g, dir[j]) && (KeyOf(dir[j]) != f || PhysicalOf(g, dir[j]) != x) ==>
      TimesKept(g, dir, dir', j)
  }

  /** An entry taken into use reads what the call stamps with: `before` if nothing could be stored through it. */
  ghost predicate TakenStamped(g: Geometry, dir: seq<DirEntry>, dir': seq<DirEntry>, clock: Clock) {
    |dir'| == |dir| &&
    forall j: nat :: j < |dir| ==>
      && (Live(g, dir[j]) ==> Live(g, dir'[j]) && (TimesKept(g, dir, dir', j) || Reads(g, dir', j, clock.after)))
      && (!Live(g, dir[j]) && Live(g, dir'[j]) ==>
            Reads(g, dir', j, clock.after) || (Reads(g, dir', j, clock.before) && dir'[j].blkcnt == 0))
  }

  /** The entry for extent `x` of the file reads `t` back, unless it has no stamps. */
  ghost predicate StampedWith(g: Geometry, dir: seq<DirEntry>, f: Key, x: nat, t: Times)
    requires ValidGeometry(g)
  {
    exists i: nat ::
      i < |dir| && Live(g, dir[i]) && KeyOf(dir[i]) == f && PhysicalOf(g, dir[i]) == x && Reads(g, dir, i, t)
  }

  predicate Reads(g: Geometry, dir: seq<DirEntry>, i: nat, t: Times) {
    TimesOf(g, dir, i).Some? ==> TimesOf(g, dir, i).value == t
  }

  lemma ReplaceKeepsTimes(g: Geometry, dir: seq<DirEntry>, i: nat, e: DirEntry)
    requires i < |dir| && dir[i].status != STAMP && e.status != STAMP
    ensures forall j: nat :: TimesOf(g, dir[i := e], j) == TimesOf(g, dir, j)
  {
    hide EntryBytes;
  }

  lemma TouchTimes(g: Geometry, v: Volume, i: nat, t: Times)
    requires i < |v.dir| && Live(g, v.dir[i])
    ensures var w := Touch(g, v, i, t);
      && (forall j: nat :: j < |v.dir| && Live(g, v.dir[j]) && j != i ==> TimesKept(g, v.dir, w.dir, j))
      && w.dir[i] == v.dir[i] && Reads(g, w.dir, i, t)
  {
    hide WithTimes, EntryBytes, TimesOf;
    TouchReadsBack(g, v, i, t);
  }

  lemma OpenedAtTimes(g: Geometry, v: Volume, ino: nat, pos: nat, cursor: Option<Cursor>, t: Times)
    requires ValidGeometry(g) && ino < |v.dir| && Live(g, v.dir[ino]) && OpenedAt(g, v, ino, pos, cursor, t).Some?
    ensures var w := OpenedAt(g, v, ino, pos, cursor, t).value.0;
      && StampsNothing(g, v.dir, w.dir)
      && forall j: nat :: j < |v.dir| && !Live(g, v.dir[j]) && Live(g, w.dir[j]) ==>
        Reads(g, w.dir, j, t) && w.dir[j].blkcnt == 0
  {
    hide ValidGeometry, KeyOf, WithExtentNumber, FindFileExtent, FindFreeExtent, Touch, TimesOf, Reads, Live;
    var j := FindFreeExtent(v.dir, 0);
    FreeIsUnused(v.dir);
    if cursor.None? && FindFileExtent(g, v.dir, KeyOf(v.dir[ino]), 0, pos / LOGICAL_EXTENT) == -1 {
      var e := ExtentEntry(v.dir[ino], pos / LOGICAL_EXTENT);
      LikeStatus(v.dir[ino], pos / LOGICAL_EXTENT);
      SameStatusLive(g, v.dir[ino], e);
      LiveIsNoStamp(g, e);
      ReplaceKeepsTimes(g, v.dir, j, e);
      var u := v.(dir := v.dir[j := e]);
      TouchTimes(g, u, j, t);
      TouchAlike(g, u, j, t);
      UnusedIsNotLive(g, v.dir[j]);
      AlikeSizes(g, u, Touch(g, u, j, t));
      forall i: nat | i < |v.dir| && Live(g, v.dir[i]) ensures TimesKept(g, v.dir, Touch(g, u, j, t).dir, i) {
        assert u.dir[i] == v.dir[i];
        assert TimesKept(g, u.dir, Touch(g, u, j, t).dir, i);
      }
    }
  }

  lemma FreeIsUnused(dir: seq<DirEntry>)
    ensures var j := FindFreeExtent(dir, 0); j == -1 || (0 <= j < |dir| && dir[j].status == UNUSED)
  {}

  lemma LikeStatus(like: DirEntry, extentno: nat)
    ensures ExtentEntry(like, extentno).status == like.status && ExtentEntry(like, extentno).blkcnt == 0
  {}

  lemma LiveIsNoStamp(g: Geometry, e: DirEntry)
    requires Live(g, e)
    ensures e.status != STAMP
  {}

  lemma BlockPassAtLive(g: Geometry, v: Volume, c: Cursor, pos: nat, data: seq<byte>, buffer: seq<byte>, clock: Clock)
    requires Mounted(g, v) && c.extent < |v.dir| && Live(g, v.dir[c.extent]) && |buffer| == LOGICAL_EXTENT && 0 < |data|
    ensures var r := BlockPassAt(g, v, c, pos, data, buffer, clock);
      |r.vol.dir| == |v.dir| && forall j: nat :: j < |v.dir| ==> Live(g, r.vol.dir[j]) == Live(g, v.dir[j])
  {
    hide Mounted, ValidGeometry, Touch, OpenBlock, StorePass, Slot, PassLength, Live, BlockPassAt, Alike;
    AlikeItself(v);
    BlockPassAlike(g, v, v, c, pos, data, buffer, clock);
    AlikeSizes(g, BlockPass(g, v, c, pos, data, buffer).vol, BlockPassAt(g, v, c, pos, data, buffer, clock).vol);
    BlockPassLive(g, v, c, pos, data, buffer);
  }

  lemma BlockPassLive(g: Geometry, v: Volume, c: Cursor, pos: nat, data: seq<byte>, buffer: seq<byte>)
    requires Mounted(g, v) && c.extent < |v.dir| && Live(g, v.dir[c.extent]) && |buffer| == LOGICAL_EXTENT && 0 < |data|
    ensures var r := BlockPass(g, v, c, pos, data, buffer);
      |r.vol.dir| == |v.dir| && forall j: nat :: j < |v.dir| ==> Live(g, r.vol.dir[j]) == Live(g, v.dir[j])
  {
    hide ValidGeometry, PointersInRange, WellSized, Ptr, AllocBlock, StoreInBlock, Slot, PassLength,
         AdvancedExtentNumber, PhysicalExtent, Offset, LastRecordBytes;
    if OpenBlock(g, v, c.extent, Slot(g, pos)).Some? {
      OpenBlockMounted(g, v, c.extent, Slot(g, pos));
    }
  }

  /** A block is stored through one entry alone, and that is stamped. */
  lemma BlockPassAtTimes(g: Geometry, v: Volume, c: Cursor, pos: nat, data: seq<byte>, buffer: seq<byte>, clock: Clock)
    requires Mounted(g, v) && c.extent < |v.dir| && Live(g, v.dir[c.extent]) && |buffer| == LOGICAL_EXTENT && 0 < |data|
    ensures var r := BlockPassAt(g, v, c, pos, data, buffer, clock);
      && |r.vol.dir| == |v.dir| && (r.Full? ==> r.vol == v)
      && (forall j: nat :: j < |v.dir| && Live(g, v.dir[j]) && j != c.extent ==> TimesKept(g, v.dir, r.vol.dir, j))
      && (r.Stored? ==> r.n == PassLength(g, pos, |data|) && Reads(g, r.vol.dir, c.extent, clock.after))
      && (forall j: nat :: j < |v.dir| ==> Live(g, r.vol.dir[j]) == Live(g, v.dir[j]))
  {
    hide ValidGeometry, PointersInRange, Touch, TimesOf, SetPtr, Ptr, AllocBlock, StoreInBlock, WithEnd, Reads,
         AdvancedExtentNumber, Offset, PassLength, Slot, PhysicalExtent;
    BlockPassAtLive(g, v, c, pos, data, buffer, clock);
    var i, k := c.extent, Slot(g, pos);
    var o := OpenBlockAt(g, v, i, k, clock.before);
    if o.Some? {
      OpenBlockAtMounted(g, v, i, k, clock.before);
      var (v1, b, isNew) := o.value;
      if isNew {
        var u := OpenBlock(g, v, i, k).value.0;
        OpenBlockMounted(g, v, i, k);
        ReplaceKeepsTimes(g, v.dir, i, u.dir[i]);
        TouchTimes(g, u, i, clock.before);
      }
      var bytes := data[..PassLength(g, pos, |data|)];
      var r := StorePass(g, v1, c, b, isNew, pos, bytes, buffer);
      StorePassMounted(g, v1, c, b, isNew, pos, bytes, buffer);
      ReplaceKeepsTimes(g, v1.dir, i, r.vol.dir[i]);
      TouchTimes(g, r.vol, i, clock.after);
    }
  }

  /** A pass takes at most one entry into use and then stores through one entry of extent `x`. */
  lemma TwoSteps(g: Geometry, f: Key, x: nat, dir: seq<DirEntry>, dir1: seq<DirEntry>, dir2: seq<DirEntry>, i: nat,
                 clock: Clock)
    requires ValidGeometry(g) && StampsNothing(g, dir, dir1) && |dir2| == |dir|
    requires forall j: nat :: j < |dir| && !Live(g, dir[j]) && Live(g, dir1[j]) ==>
      Reads(g, dir1, j, clock.before) && dir1[j].blkcnt == 0
    requires i < |dir| && Live(g, dir1[i]) && KeyOf(dir1[i]) == f && PhysicalOf(g, dir1[i]) == x
    requires forall j: nat :: j < |dir| && Live(g, dir1[j]) && j != i ==> TimesKept(g, dir1, dir2, j)
    requires forall j: nat :: j < |dir| ==> Live(g, dir2[j]) == Live(g, dir1[j])
    requires dir2 == dir1 || Reads(g, dir2, i, clock.after)
    ensures StampsExtent(g, f, x, dir, dir2) && TakenStamped(g, dir, dir2, clock)
    ensures dir2 == dir1 ==> StampsNothing(g, dir, dir2)
  {
    hide ValidGeometry, KeyOf, Live, TimesOf, PhysicalOf;
    forall j: nat | j < |dir|
      ensures Live(g, dir[j]) ==> Live(g, dir2[j]) && (TimesKept(g, dir, dir2, j) || Reads(g, dir2, j, clock.after))
      ensures Live(g, dir[j]) && (KeyOf(dir[j]) != f || PhysicalOf(g, dir[j]) != x) ==> TimesKept(g, dir, dir2, j)
      ensures !Live(g, dir[j]) && Live(g, dir2[j]) ==>
        Reads(g, dir2, j, clock.after) || (Reads(g, dir2, j, clock.before) && dir2[j].blkcnt == 0)
    {
      if Live(g, dir[j]) {
        assert TimesKept(g, dir, dir1, j);
      }
      if Live(g, dir1[j]) && j != i {
        assert TimesKept(g, dir1, dir2, j);
      }
    }
  }

  lemma OwnExtent(g: Geometry, f: Key, x: nat, dir: seq<DirEntry>, dir': seq<DirEntry>)
    requires ValidGeometry(g) && StampsExtent(g, f, x, dir, dir')
    ensures StampsOwn(g, f, dir, dir')
  {
    hide ValidGeometry, KeyOf, Live, TimesKept, PhysicalOf;
  }

  lemma TakenTransitive(g: Geometry, u: seq<DirEntry>, v: seq<DirEntry>, w: seq<DirEntry>, clock: Clock)
    requires TakenStamped(g, u, v, clock) && TakenStamped(g, v, w, clock)
    ensures TakenStamped(g, u, w, clock)
  {
    hide Live, TimesOf;
  }

  lemma PassTimes(g: Geometry, v: Volume, ino: nat, pos: nat, cursor: Option<Cursor>, data: seq<byte>,
                  buffer: seq<byte>, clock: Clock)
    requires WriteState(g, v, ino, pos, cursor, |data|, buffer) && Writable(g, v, ino, cursor, buffer) && 0 < |data|
    ensures ValidGeometry(g)
    ensures var f, r := KeyOf(v.dir[ino]), WritePassAt(g, v, ino, pos, cursor, data, buffer, clock);
      && StampsExtent(g, f, PhysicalExtent(g, pos), v.dir, r.vol.dir) && TakenStamped(g, v.dir, r.vol.dir, clock)
      && (r.Full? ==> StampsNothing(g, v.dir, r.vol.dir))
      && (r.Stored? ==>
            && 0 < r.n
            && (forall p :: pos <= p < pos + r.n ==> PhysicalExtent(g, p) == PhysicalExtent(g, pos))
            && StampedWith(g, r.vol.dir, f, PhysicalExtent(g, pos), clock.after))
  {
    hide ValidGeometry, Consistent, CursorOk, CursorFits, Mounted, Opened, OpenedAt, BlockPass, BlockPassAt, KeyOf,
         Live, TimesOf, Reads, PhysicalOf, PhysicalExtent, PassLength, Alike, TimesKept, StampsExtent, TakenStamped,
         StampsNothing;
    AlikeItself(v);
    MountedIsSized(g, v);
    OpenedAtMounted(g, v, v, ino, pos, cursor, buffer, clock.before);
    if Opened(g, v, ino, pos, cursor).Some? {
      var (u1, c) := Opened(g, v, ino, pos, cursor).value;
      var v1 := OpenedAt(g, v, ino, pos, cursor, clock.before).value.0;
      OpenedConsistent(g, v, ino, pos, cursor);
      OpenedAtTimes(g, v, ino, pos, cursor, clock.before);
      CursorEntry(g, u1, ino, pos, c);
      LiveAlike(g, u1, v1, c.extent);
      BlockPassAtTimes(g, v1, c, pos, data, buffer, clock);
      BlockPassAlike(g, u1, v1, c, pos, data, buffer, clock);
      var r := BlockPassAt(g, v1, c, pos, data, buffer, clock);
      StampsSizes(g, v.dir, v1.dir);
      TwoSteps(g, KeyOf(v.dir[ino]), PhysicalExtent(g, pos), v.dir, v1.dir, r.vol.dir, c.extent, clock);
      if r.Stored? {
        var b, block := BlockPassStores(g, u1, ino, c, pos, data, buffer);
        LiveAlike(g, BlockPass(g, u1, c, pos, data, buffer).vol, r.vol, c.extent);
        forall p | pos <= p < pos + r.n ensures PhysicalExtent(g, p) == PhysicalExtent(g, pos) {
          SameBlock(g, pos, p - pos);
        }
      }
    } else {
      AllKept(g, KeyOf(v.dir[ino]), PhysicalExtent(g, pos), v.dir, clock);
    }
  }

  lemma StampsSizes(g: Geometry, dir: seq<DirEntry>, dir': seq<DirEntry>)
    requires StampsNothing(g, dir, dir')
    ensures |dir'| == |dir|
  {}

  lemma AllKept(g: Geometry, f: Key, x: nat, dir: seq<DirEntry>, clock: Clock)
    requires ValidGeometry(g)
    ensures StampsNothing(g, dir, dir) && StampsExtent(g, f, x, dir, dir) && TakenStamped(g, dir, dir, clock)
    ensures StampsOwn(g, f, dir, dir)
  {
    hide ValidGeometry, KeyOf, Live, TimesOf, PhysicalOf;
  }

  lemma LiveAlike(g: Geometry, v: Volume, v': Volume, i: nat)
    requires Alike(v, v') && i < |v.dir| && Live(g, v.dir[i])
    ensures |v'.dir| == |v.dir| && v'.dir[i] == v.dir[i]
  {}

  lemma WriteStateAlike(g: Geometry, v: Volume, v': Volume, ino: nat, pos: nat, cursor: Option<Cursor>, count: nat,
                        buffer: seq<byte>)
    requires WriteState(g, v, ino, pos, cursor, count, buffer) && Alike(v, v')
    ensures WriteState(g, v', ino, pos, cursor, count, buffer) && v'.dir[ino] == v.dir[ino]
  {
    hide Consistent, KeyOf, PhysicalOf, PhysicalExtent;
    ConsistentAlike(g, v, v');
    PointersAlike(g, v.dir, v'.dir);
  }

  lemma StampsOwnTransitive(g: Geometry, f: Key, u: seq<DirEntry>, v: seq<DirEntry>, w: seq<DirEntry>)
    requires StampsOwn(g, f, u, v) && StampsOwn(g, f, v, w)
    ensures StampsOwn(g, f, u, w)
  {
    hide KeyOf, Live, TimesOf;
  }

  /** What was stamped stays so, whether the next stamps are for it or for something else. */
  lemma StampedStays(g: Geometry, dir: seq<DirEntry>, dir': seq<DirEntry>, f: Key, f': Key, x: nat, y: nat, t: Times)
    requires ValidGeometry(g) && StampedWith(g, dir, f, x, t) && StampsExtent(g, f', y, dir, dir') && x != y
    ensures StampedWith(g, dir', f, x, t)
  {
    hide ValidGeometry, KeyOf, Live, TimesOf, PhysicalOf;
    var i: nat :|
      i < |dir| && Live(g, dir[i]) && KeyOf(dir[i]) == f && PhysicalOf(g, dir[i]) == x && Reads(g, dir, i, t);
    assert TimesKept(g, dir, dir', i);
    assert Live(g, dir'[i]) && KeyOf(dir'[i]) == f && PhysicalOf(g, dir'[i]) == x && Reads(g, dir', i, t);
  }

  lemma NothingStampedStays(g: Geometry, dir: seq<DirEntry>, dir': seq<DirEntry>, f: Key, x: nat, t: Times)
    requires ValidGeometry(g) && StampedWith(g, dir, f, x, t) && StampsNothing(g, dir, dir')
    ensures StampedWith(g, dir', f, x, t)
  {
    hide ValidGeometry, KeyOf, Live, TimesOf, PhysicalOf;
    var i: nat :|
      i < |dir| && Live(g, dir[i]) && KeyOf(dir[i]) == f && PhysicalOf(g, dir[i]) == x && Reads(g, dir, i, t);
    assert TimesKept(g, dir, dir', i);
    assert Live(g, dir'[i]) && KeyOf(dir'[i]) == f && PhysicalOf(g, dir'[i]) == x && Reads(g, dir', i, t);
  }

  lemma {:induction false} StampedThrough(g: Geometry, v: Volume, ino: nat, pos: nat, cursor: Option<Cursor>,
                                          data: seq<byte>, buffer: seq<byte>, clock: Clock, x: nat)
    requires WriteState(g, v, ino, pos, cursor, |data|, buffer) && Writable(g, v, ino, cursor, buffer)
    requires ValidGeometry(g) && StampedWith(g, v.dir, KeyOf(v.dir[ino]), x, clock.after)
    ensures StampedWith(g, WriteAt(g, v, ino, pos, cursor, data, buffer, clock).vol.dir, KeyOf(v.dir[ino]), x,
                        clock.after)
    decreases |data|
  {
    hide Consistent, CursorOk, CursorFits, Mounted, WritePass, WritePassAt, KeyOf, Live, TimesKept, StampsExtent,
         TakenStamped, ValidGeometry, StampsNothing, StampedWith, PhysicalExtent, Alike;
    AlikeItself(v);
    if |data| > 0 {
      PassAlike(g, v, v, ino, pos, cursor, data, buffer, clock);
      PassTimes(g, v, ino, pos, cursor, data, buffer, clock);
      WritePassConsistent(g, v, ino, pos, cursor, data, buffer);
      var f, spec, step := KeyOf(v.dir[ino]), WritePass(g, v, ino, pos, cursor, data, buffer),
                           WritePassAt(g, v, ino, pos, cursor, data, buffer, clock);
      if x != PhysicalExtent(g, pos) {
        StampedStays(g, v.dir, step.vol.dir, f, f, x, PhysicalExtent(g, pos), clock.after);
      }
      if step.Stored? {
        WriteStateAlike(g, spec.vol, step.vol, ino, pos + step.n, step.cursor, |data| - step.n, step.buffer);
        StampedThrough(g, step.vol, ino, pos + step.n, step.cursor, data[step.n..], step.buffer, clock, x);
      } else {
        NothingStampedStays(g, v.dir, step.vol.dir, f, x, clock.after);
      }
    }
  }

  /** A write stamps no other file, every entry through which it stored a byte reads the new times back, and so does an
      entry it took into use, or the earlier times if nothing could be stored through it. */
  lemma {:induction false} WriteTimes(g: Geometry, v: Volume, ino: nat, pos: nat, cursor: Option<Cursor>,
                                      data: seq<byte>, buffer: seq<byte>, clock: Clock)
    requires WriteState(g, v, ino, pos, cursor, |data|, buffer) && Writable(g, v, ino, cursor, buffer)
    ensures var f, r := KeyOf(v.dir[ino]), WriteAt(g, v, ino, pos, cursor, data, buffer, clock);
      && ValidGeometry(g) && StampsOwn(g, f, v.dir, r.vol.dir) && TakenStamped(g, v.dir, r.vol.dir, clock)
      && (r.got == 0 ==> StampsNothing(g, v.dir, r.vol.dir))
      && forall p: nat :: pos <= p < pos + r.got ==> StampedWith(g, r.vol.dir, f, PhysicalExtent(g, p), clock.after)
    decreases |data|
  {
    hide Consistent, CursorOk, CursorFits, Mounted, WritePass, WritePassAt, KeyOf, Live, TimesKept, StampsOwn,
         ValidGeometry, StampsNothing, StampedWith, PhysicalExtent, Alike, TakenStamped, StampsExtent;
    MountedIsSized(g, v);
    AlikeItself(v);
    if |data| == 0 {
      AllKept(g, KeyOf(v.dir[ino]), 0, v.dir, clock);
    } else {
      PassAlike(g, v, v, ino, pos, cursor, data, buffer, clock);
      PassTimes(g, v, ino, pos, cursor, data, buffer, clock);
      WritePassConsistent(g, v, ino, pos, cursor, data, buffer);
      var f, spec, step := KeyOf(v.dir[ino]), WritePass(g, v, ino, pos, cursor, data, buffer),
                           WritePassAt(g, v, ino, pos, cursor, data, buffer, clock);
      OwnExtent(g, f, PhysicalExtent(g, pos), v.dir, step.vol.dir);
      if step.Stored? {
        WriteStateAlike(g, spec.vol, step.vol, ino, pos + step.n, step.cursor, |data| - step.n, step.buffer);
        WriteTimes(g, step.vol, ino, pos + step.n, step.cursor, data[step.n..], step.buffer, clock);
        StampedThrough(g, step.vol, ino, pos + step.n, step.cursor, data[step.n..], step.buffer, clock,
                       PhysicalExtent(g, pos));
        var rest := WriteAt(g, step.vol, ino, pos + step.n, step.cursor, data[step.n..], step.buffer, clock);
        StampsOwnTransitive(g, f, v.dir, step.vol.dir, rest.vol.dir);
        TakenTransitive(g, v.dir, step.vol.dir, rest.vol.dir, clock);
      }
    }
  }

}
