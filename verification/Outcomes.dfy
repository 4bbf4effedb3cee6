/** What single calls answer, and every entry they touch, byte by byte. */
module Outcomes {
  import opened Wrappers
  import opened Geometry
  import opened Directory
  import opened Volume
  import opened Refinement
  import opened Persistence
  import opened Stamps
  import opened Xfcbs

  ghost predicate Full(dir: seq<DirEntry>) {
    forall i :: 0 <= i < |dir| ==> dir[i].status != UNUSED
  }

  /** A file is created unless it is there or no entry is free. Its entry is the first free one, with nothing but the
      name in it, and only stamps change besides. */
  lemma CreatOutcome(g: Geometry, v: Volume, files: Files, f: Key, t: Times)
    requires ValidGeometry(g) && Contents(g, v, files) && ValidKey(g, f)
    ensures var o := CreatAt(g, v, f, t);
      && (o == Failed(AlreadyExists) <==> f in files)
      && (o == Failed(DirectoryFull) <==> f !in files && Full(v.dir))
      && (o.Done? <==> f !in files && !Full(v.dir))
    ensures CreatAt(g, v, f, t).Done? ==>
      var i, w := FindFreeExtent(v.dir, 0), CreatAt(g, v, f, t).vol;
      && 0 <= i < |v.dir| == |w.dir| && v.dir[i].status == UNUSED
      && (forall j :: 0 <= j < i ==> v.dir[j].status != UNUSED)
      && EntryBytes(w.dir[i]) == [f.user] + f.name + f.ext + seq(20, _ => 0)
      && SameButStamps(v.dir[i := w.dir[i]], w.dir)
      && w.alv == v.alv && w.data == v.data && w.slack == v.slack && w.dirty
  {
    hide ValidGeometry, Contents, EntryBytes, FreshEntry, Touch, SameButStamps;
    FileIsFound(g, v, f, files);
    var i := FindFreeExtent(v.dir, 0);
    if Creat(g, v, f).Done? {
      var u := Creat(g, v, f).vol;
      FreshBytes(g, f);
      TouchAlike(g, u, i, t);
      FreshStays(g, u, i, f, t);
    }
  }

  lemma FreshBytes(g: Geometry, f: Key)
    requires ValidKey(g, f)
    ensures EntryBytes(FreshEntry(f)) == [f.user] + f.name + f.ext + seq(20, _ => 0)
    ensures FreshEntry(f).status != STAMP
  {}

  lemma FreshStays(g: Geometry, u: Volume, i: nat, f: Key, t: Times)
    requires ValidKey(g, f) && i < |u.dir| && u.dir[i] == FreshEntry(f)
    ensures Touch(g, u, i, t).dir[i] == u.dir[i] && Touch(g, u, i, t).alv == u.alv && Touch(g, u, i, t).data == u.data
    ensures Touch(g, u, i, t).slack == u.slack && (u.dirty ==> Touch(g, u, i, t).dirty)
  {
    FreshBytes(g, f);
    TouchAlike(g, u, i, t);
  }

  /** A rename needs the old name and must not meet the new one. */
  lemma RenameOutcome(g: Geometry, v: Volume, files: Files, from: Key, to: Key)
    requires ValidGeometry(g) && Contents(g, v, files) && ValidKey(g, to)
    ensures var o := RenameAll(g, v, from, to);
      && (o == Failed(NotFound) <==> from !in files)
      && (o == Failed(AlreadyExists) <==> from in files && to in files)
      && (o.Done? <==> from in files && to !in files)
      && (o.Done? ==> o.vol.alv == v.alv && o.vol.data == v.data && o.vol.slack == v.slack && o.vol.dirty)
  {
    hide ValidGeometry, Contents, RenamedDir;
    FileIsFound(g, v, from, files);
    FileIsFound(g, v, to, files);
  }

  /** The entry is the one that `cpmUnlink` takes for the XFCB of the file. */
  predicate IsXfcbOf(g: Geometry, dir: seq<DirEntry>, f: Key, i: nat)
    requires ValidGeometry(g)
  {
    g.os.hasXfcbs && i == FindFileExtent(g, dir, Twin(f), 0, -1)
  }

  /** An unlink needs the file. Its entries, and the XFCB, lose their status and nothing else; no block is written. */
  lemma UnlinkOutcome(g: Geometry, v: Volume, files: Files, f: Key)
    requires ValidGeometry(g) && Contents(g, v, files)
    ensures var o := UnlinkAll(g, v, f);
      && (o == Failed(NotFound) <==> f !in files) && (o.Done? <==> f in files)
      && (o.Done? ==>
            && |o.vol.dir| == |v.dir| && o.vol.data == v.data && o.vol.slack == v.slack && o.vol.dirty
            && forall i: nat :: i < |v.dir| ==>
              o.vol.dir[i] == if Matches(g, v.dir[i], f, -1) || IsXfcbOf(g, UnlinkedDir(g, v.dir, f), f, i)
                              then v.dir[i].(status := UNUSED) else v.dir[i])
  {
    hide ValidGeometry, Contents, KeyOf, AlvOf, Matches;
    FileIsFound(g, v, f, files);
  }
}
