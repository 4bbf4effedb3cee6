/** XFCBs: on CP/M 3 and MP/M, the entry that holds the password mode of a file is a directory entry of the same
    name and of the user number plus 16. `cpmRename` and `cpmUnlink` take it along. */
module Xfcbs {
  import opened Wrappers
  import opened Geometry
  import opened Directory
  import opened Volume
  import opened Invariant
  import opened Refinement

  /** Whose entry is taken for the XFCB of a file. */
  function Twin(f: Key): Key {
    f.(user := (f.user + 16) % 256)
  }

  /** The end of `cpmRename`. */
  function MoveXfcb(g: Geometry, v: Volume, from: Key, to: Key): Volume
    requires ValidGeometry(g) && |to.name| == 8 && |to.ext| == 3
  {
    var x := FindFileExtent(g, v.dir, Twin(from), 0, -1);
    if !g.os.hasXfcbs || x == -1 then v
    else v.(dir := v.dir[x := RenamedEntry(v.dir[x], Twin(to))], dirty := true)
  }

  /** `cpmRename`. */
  function RenameAll(g: Geometry, v: Volume, from: Key, to: Key): Outcome
    requires ValidGeometry(g) && |to.name| == 8 && |to.ext| == 3
  {
    var o := Rename(g, v, from, to);
    if o.Failed? then o else Done(MoveXfcb(g, o.vol, from, to))
  }

  /** The end of `cpmUnlink`: the bitmap is rebuilt after the XFCB is gone as well. */
  ghost function DropXfcb(g: Geometry, v: Volume, f: Key): Volume
    requires ValidGeometry(g)
  {
    var x := FindFileExtent(g, v.dir, Twin(f), 0, -1);
    if !g.os.hasXfcbs || x == -1 then v
    else
      var dir := v.dir[x := v.dir[x].(status := UNUSED)];
      v.(dir := dir, alv := AlvOf(g, dir), dirty := true)
  }

  /** `cpmUnlink`. */
  ghost function UnlinkAll(g: Geometry, v: Volume, f: Key): Outcome
    requires ValidGeometry(g)
  {
    var o := Unlink(g, v, f);
    if o.Failed? then o else Done(DropXfcb(g, o.vol, f))
  }

  // ----- an XFCB is one entry ---------------------------------------------------------------------------

  ghost predicate AtMostOne(g: Geometry, dir: seq<DirEntry>, f: Key) {
    forall i, j ::
      0 <= i < |dir| && 0 <= j < |dir| && Live(g, dir[i]) && Live(g, dir[j]) && KeyOf(dir[i]) == f == KeyOf(dir[j]) ==>
        i == j
  }

  /** Nothing that would be taken for the XFCB of the file has more than one entry. */
  ghost predicate XfcbAlone(g: Geometry, dir: seq<DirEntry>, f: Key) {
    g.os.hasXfcbs ==> AtMostOne(g, dir, Twin(f))
  }

  /** The XFCB of the file, if it has one, is a single entry and can go where the file goes; and the file does not go
      where its own XFCB would be. */
  ghost predicate XfcbMoves(g: Geometry, dir: seq<DirEntry>, from: Key, to: Key) {
    g.os.hasXfcbs ==>
      && to != Twin(from)
      && (HasFile(g, dir, Twin(from)) ==>
            AtMostOne(g, dir, Twin(from)) && to.user + 16 <= MaxUser(g) && !HasFile(g, dir, Twin(to)))
  }

  lemma FoundIsFile(g: Geometry, dir: seq<DirEntry>, f: Key)
    requires ValidGeometry(g)
    ensures FindFileExtent(g, dir, f, 0, -1) != -1 <==> HasFile(g, dir, f)
  {
    hide ValidGeometry, KeyOf;
  }

  /** Of a file with a single entry, that entry is all a rename or an unlink touches. */
  lemma OnlyEntry(g: Geometry, dir: seq<DirEntry>, f: Key, to: Key)
    requires ValidGeometry(g) && AtMostOne(g, dir, f) && FindFileExtent(g, dir, f, 0, -1) != -1
    requires |to.name| == 8 && |to.ext| == 3
    ensures var x := FindFileExtent(g, dir, f, 0, -1);
      && RenamedDir(g, dir, f, to) == dir[x := RenamedEntry(dir[x], to)]
      && UnlinkedDir(g, dir, f) == dir[x := dir[x].(status := UNUSED)]
  {
    hide ValidGeometry, KeyOf, RenamedEntry, Live, Matches;
    var x := FindFileExtent(g, dir, f, 0, -1);
    forall i | 0 <= i < |dir| ensures Matches(g, dir[i], f, -1) <==> i == x {
      MatchIsLive(g, dir[i], f);
      MatchIsLive(g, dir[x], f);
    }
  }

  lemma AloneAfterUnlink(g: Geometry, v: Volume, f: Key)
    requires ValidGeometry(g) && XfcbAlone(g, v.dir, f) && Unlink(g, v, f).Done?
    ensures XfcbAlone(g, Unlink(g, v, f).vol.dir, f)
  {
    hide ValidGeometry, KeyOf, Live, LivePtr, UnlinkedDir;
    UnlinkedEntries(g, v.dir, f);
  }

  lemma MovesAfterRename(g: Geometry, v: Volume, from: Key, to: Key)
    requires ValidGeometry(g) && g.os.hasXfcbs && XfcbMoves(g, v.dir, from, to) && ValidKey(g, to)
    requires Rename(g, v, from, to).Done? && HasFile(g, Rename(g, v, from, to).vol.dir, Twin(from))
    ensures var w := Rename(g, v, from, to).vol;
      && HasFile(g, v.dir, Twin(from)) && AtMostOne(g, w.dir, Twin(from))
      && !HasFile(g, w.dir, Twin(to)) && ValidKey(g, Twin(to)) && Twin(to) != Twin(from)
  {
    hide ValidGeometry, KeyOf, Live, LivePtr, RenamedDir;
    RenamedEntries(g, v.dir, from, to);
    FoundIsFile(g, v.dir, from);
    FoundIsFile(g, v.dir, to);
    var w := Rename(g, v, from, to).vol;
    var i :| 0 <= i < |w.dir| && Live(g, w.dir[i]) && KeyOf(w.dir[i]) == Twin(from);
    assert Live(g, v.dir[i]) && KeyOf(v.dir[i]) == Twin(from);
    TwinDiffers(to);
    TwinValid(g, to);
  }

  lemma TwinDiffers(f: Key)
    ensures Twin(f) != f && (forall h: Key :: Twin(f) == Twin(h) ==> f == h)
  {}

  lemma TwinValid(g: Geometry, f: Key)
    requires ValidKey(g, f) && f.user + 16 <= MaxUser(g)
    ensures ValidKey(g, Twin(f))
  {}

  /** An unlink that takes the XFCB along is one unlink after the other. */
  lemma UnlinkIsTwo(g: Geometry, v: Volume, f: Key)
    requires ValidGeometry(g) && XfcbAlone(g, v.dir, f) && Unlink(g, v, f).Done?
    ensures var w := Unlink(g, v, f).vol;
      && (!g.os.hasXfcbs || Unlink(g, w, Twin(f)).Failed? ==> UnlinkAll(g, v, f) == Done(w))
      && (g.os.hasXfcbs && Unlink(g, w, Twin(f)).Done? ==> UnlinkAll(g, v, f) == Unlink(g, w, Twin(f)))
  {
    hide ValidGeometry, KeyOf, Live, AlvOf, Matches, RenamedEntry, FindFileExtent, UnlinkedDir;
    AloneAfterUnlink(g, v, f);
    var w := Unlink(g, v, f).vol;
    if g.os.hasXfcbs && FindFileExtent(g, w.dir, Twin(f), 0, -1) != -1 {
      OnlyEntry(g, w.dir, Twin(f), Key(0, BLANKS8, BLANKS3));
    }
  }

  /** A rename that takes the XFCB along is one rename after the other. */
  lemma RenameIsTwo(g: Geometry, v: Volume, from: Key, to: Key)
    requires ValidGeometry(g) && XfcbMoves(g, v.dir, from, to) && ValidKey(g, to) && Rename(g, v, from, to).Done?
    ensures var w := Rename(g, v, from, to).vol;
      if g.os.hasXfcbs && HasFile(g, w.dir, Twin(from)) then
        && ValidKey(g, Twin(to)) && Rename(g, w, Twin(from), Twin(to)).Done?
        && RenameAll(g, v, from, to) == Rename(g, w, Twin(from), Twin(to))
      else RenameAll(g, v, from, to) == Done(w)
  {
    hide ValidGeometry, KeyOf, Live, Matches, RenamedEntry, FindFileExtent, RenamedDir, HasFile, AtMostOne;
    var w := Rename(g, v, from, to).vol;
    FoundIsFile(g, w.dir, Twin(from));
    if g.os.hasXfcbs && HasFile(g, w.dir, Twin(from)) {
      MovesAfterRename(g, v, from, to);
      FoundIsFile(g, w.dir, Twin(to));
      OnlyEntry(g, w.dir, Twin(from), Twin(to));
    }
  }

  // ----- what the calls keep ------------------------------------------------------------------------------

  function UnlinkedFiles(g: Geometry, files: Files, f: Key): Files {
    if g.os.hasXfcbs then files - {f} - {Twin(f)} else files - {f}
  }

  function RenamedFiles(g: Geometry, files: Files, from: Key, to: Key): Files
    requires from in files
  {
    var files' := Renamed(files, from, to);
    if g.os.hasXfcbs && Twin(from) in files' then Renamed(files', Twin(from), Twin(to)) else files'
  }

  lemma UnlinkAllConsistent(g: Geometry, v: Volume, f: Key)
    requires Consistent(g, v) && XfcbAlone(g, v.dir, f) && UnlinkAll(g, v, f).Done?
    ensures Consistent(g, UnlinkAll(g, v, f).vol)
  {
    hide ValidGeometry, Unlink, PointersOk, NoSharing, UniqueExtents, AlvOf, WellSized, XfcbAlone, DropXfcb;
    UnlinkIsTwo(g, v, f);
    UnlinkConsistent(g, v, f);
    if g.os.hasXfcbs && Unlink(g, Unlink(g, v, f).vol, Twin(f)).Done? {
      UnlinkConsistent(g, Unlink(g, v, f).vol, Twin(f));
    }
  }

  lemma RenameAllConsistent(g: Geometry, v: Volume, from: Key, to: Key)
    requires Consistent(g, v) && ValidKey(g, to) && XfcbMoves(g, v.dir, from, to) && RenameAll(g, v, from, to).Done?
    ensures Consistent(g, RenameAll(g, v, from, to).vol)
  {
    hide ValidGeometry, Rename, PointersOk, NoSharing, UniqueExtents, AlvOf, WellSized, XfcbMoves, MoveXfcb, HasFile;
    RenameIsTwo(g, v, from, to);
    RenameConsistent(g, v, from, to);
    if g.os.hasXfcbs && HasFile(g, Rename(g, v, from, to).vol.dir, Twin(from)) {
      RenameConsistent(g, Rename(g, v, from, to).vol, Twin(from), Twin(to));
    }
  }

  /** An unlink removes the file and what would be taken for its XFCB, and no other. */
  lemma UnlinkAllContents(g: Geometry, v: Volume, f: Key, files: Files)
    requires Consistent(g, v) && Contents(g, v, files) && XfcbAlone(g, v.dir, f) && UnlinkAll(g, v, f).Done?
    ensures var w, files' := UnlinkAll(g, v, f).vol, UnlinkedFiles(g, files, f);
      && f in files && Contents(g, w, files')
      && (forall exact :: Ended(g, v.dir, files, exact) ==> Ended(g, w.dir, files', exact))
  {
    hide ValidGeometry, PointersOk, NoSharing, UniqueExtents, AlvOf, WellSized, XfcbAlone, DropXfcb, Contents, Ended,
         FindFileExtent, UnlinkedDir;
    UnlinkIsTwo(g, v, f);
    UnlinkConsistent(g, v, f);
    UnlinkContents(g, v, f, files);
    var w := Unlink(g, v, f).vol;
    if g.os.hasXfcbs {
      FileIsFound(g, w, Twin(f), files - {f});
      if Unlink(g, w, Twin(f)).Done? {
        UnlinkContents(g, w, Twin(f), files - {f});
      } else {
        assert files - {f} - {Twin(f)} == files - {f};
      }
    }
  }

  /** A rename moves the file, and its XFCB with it, and no other. */
  lemma RenameAllContents(g: Geometry, v: Volume, from: Key, to: Key, files: Files)
    requires Consistent(g, v) && Contents(g, v, files) && ValidKey(g, to) && XfcbMoves(g, v.dir, from, to)
    requires RenameAll(g, v, from, to).Done?
    ensures from in files && to !in files
    ensures var w, files' := RenameAll(g, v, from, to).vol, RenamedFiles(g, files, from, to);
      && Contents(g, w, files')
      && (forall exact :: Ended(g, v.dir, files, exact) ==> Ended(g, w.dir, files', exact))
  {
    hide ValidGeometry, PointersOk, NoSharing, UniqueExtents, AlvOf, WellSized, XfcbMoves, MoveXfcb, Contents, Ended,
         FindFileExtent, RenamedDir, HasFile, Rename;
    RenameIsTwo(g, v, from, to);
    RenameConsistent(g, v, from, to);
    RenameContents(g, v, from, to, files);
    var w, files' := Rename(g, v, from, to).vol, Renamed(files, from, to);
    forall exact | Ended(g, v.dir, files, exact) ensures Ended(g, w.dir, files', exact) {
      RenameEnded(g, v, from, to, files, exact);
    }
    FileIsFound(g, w, Twin(from), files');
    FoundIsFile(g, w.dir, Twin(from));
    if g.os.hasXfcbs && Twin(from) in files' {
      RenameContents(g, w, Twin(from), Twin(to), files');
      forall exact | Ended(g, w.dir, files', exact)
        ensures Ended(g, Rename(g, w, Twin(from), Twin(to)).vol.dir, Renamed(files', Twin(from), Twin(to)), exact)
      {
        RenameEnded(g, w, Twin(from), Twin(to), files', exact);
      }
    }
  }

  /** A file renamed to where its own XFCB would be is taken for that XFCB in the same call: its first entry ends up
      with a status that belongs to no file. */
  lemma RenamedOntoXfcb(g: Geometry, v: Volume, f: Key)
    requires ValidGeometry(g) && g.os.hasXfcbs && ValidKey(g, f) && ValidKey(g, Twin(f))
    requires Rename(g, v, f, Twin(f)).Done?
    ensures var x, w := FindFileExtent(g, v.dir, f, 0, -1), RenameAll(g, v, f, Twin(f)).vol;
      0 <= x < |v.dir| == |w.dir| && Live(g, v.dir[x]) && w.dir[x].status == f.user + 32 && !Live(g, w.dir[x])
  {
    hide ValidGeometry, KeyOf, LivePtr, Memcpy7, RenamedDir, PhysicalOf;
    RenamedEntries(g, v.dir, f, Twin(f));
    var x, w := FindFileExtent(g, v.dir, f, 0, -1), Rename(g, v, f, Twin(f)).vol;
    var y := FindFileExtent(g, w.dir, Twin(f), 0, -1);
    MatchIsLive(g, w.dir[x], Twin(f));
    assert y <= x;
    MatchIsLive(g, w.dir[y], Twin(f));
    MatchIsLive(g, v.dir[y], f);
    MatchIsLive(g, v.dir[y], Twin(f));
  }
}
