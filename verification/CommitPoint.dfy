/** `cpmSync` is a commit point: until the next one, and as long as no block of a file unlinked since is
    handed out again, the image holds the directory of that sync and every byte it describes. */
module CommitPoint {
  import opened Wrappers
  import opened Geometry
  import opened Directory
  import opened Volume
  import opened Invariant
  import opened Refinement
  import opened Overwrites
  import opened Persistence
  import opened Stamps
  import opened Xfcbs
  import opened Runs

  /** The volume only grew: no file's entry, extent or pointer was given up, and the directory
      blocks of the image are as before. */
  ghost predicate Grows(g: Geometry, v: Volume, v': Volume)
    requires ValidGeometry(g)
  {
    && |v'.dir| == |v.dir| && |v'.data| == |v.data|
    && (forall i: nat :: i < |v.dir| && Live(g, v.dir[i]) ==>
          Live(g, v'.dir[i]) && PhysicalOf(g, v'.dir[i]) == PhysicalOf(g, v.dir[i]))
    && (forall i: nat, k: nat ::
          i < |v.dir| && k < PointersPerEntry(g) && Live(g, v.dir[i]) && LivePtr(g, v.dir[i], k) != 0 ==>
            LivePtr(g, v'.dir[i], k) == LivePtr(g, v.dir[i], k))
    && (forall b: nat :: b < g.dirblks && b < |v.data| ==> v'.data[b] == v.data[b])
  }

  /** The entries still name the same files, or ones the contents were moved to. */
  ghost predicate SameNames(g: Geometry, v: Volume, v': Volume)
  {
    |v'.dir| == |v.dir| && forall i: nat :: i < |v.dir| && Live(g, v.dir[i]) ==> KeyOf(v'.dir[i]) == KeyOf(v.dir[i])
  }

  lemma GrowsTransitive(g: Geometry, u: Volume, v: Volume, w: Volume)
    requires ValidGeometry(g) && Grows(g, u, v) && Grows(g, v, w)
    ensures Grows(g, u, w)
  {
    hide ValidGeometry, Live, PhysicalOf, LivePtr;
  }

  lemma OpenedGrows(g: Geometry, v: Volume, ino: nat, pos: nat, cursor: Option<Cursor>)
    requires Consistent(g, v) && ino < |v.dir| && Opened(g, v, ino, pos, cursor).Some?
    ensures Grows(g, v, Opened(g, v, ino, pos, cursor).value.0)
    ensures SameNames(g, v, Opened(g, v, ino, pos, cursor).value.0)
  {
    hide ValidGeometry, PhysicalOf, KeyOf, ExtentEntry;
  }

  lemma StoredGrows(g: Geometry, v: Volume, v': Volume, i: nat, k: nat, b: nat, block: seq<byte>)
    requires ValidGeometry(g) && StoredAt(g, v, v', i, k, b, block) && PointersOk(g, v'.dir)
    requires LivePtr(g, v.dir[i], k) != 0 ==> LivePtr(g, v.dir[i], k) == b
    ensures Grows(g, v, v') && SameNames(g, v, v')
  {
    hide ValidGeometry, PhysicalOf, KeyOf, LivePtr, Live, NoSharing, BlocksPerExtent;
  }

  lemma BlockPassGrows(g: Geometry, v: Volume, ino: nat, c: Cursor, pos: nat, data: seq<byte>, buffer: seq<byte>)
    requires Consistent(g, v) && Mounted(g, v) && ino < |v.dir| && CursorOk(g, v, ino, pos, Some(c))
    requires Live(g, v.dir[ino]) && c.extent < |v.dir| && Live(g, v.dir[c.extent]) && |buffer| == LOGICAL_EXTENT
    requires 0 < |data|
    ensures var v' := BlockPass(g, v, c, pos, data, buffer).vol; Grows(g, v, v') && SameNames(g, v, v')
  {
    hide ValidGeometry, KeyOf, Live, LivePtr, NoSharing, UniqueExtents, AlvOf, CursorOk, BlockPass, PointersOk;
    if BlockPass(g, v, c, pos, data, buffer).Stored? {
      var b, block := BlockPassStores(g, v, ino, c, pos, data, buffer);
      StoredGrows(g, v, BlockPass(g, v, c, pos, data, buffer).vol, c.extent, Slot(g, pos), b, block);
    } else {
      FullPassChangesNothing(g, v, c, pos, data, buffer);
    }
  }

  lemma WritePassGrows(g: Geometry, v: Volume, ino: nat, pos: nat, cursor: Option<Cursor>, data: seq<byte>,
                       buffer: seq<byte>)
    requires WriteState(g, v, ino, pos, cursor, |data|, buffer) && Writable(g, v, ino, cursor, buffer) && 0 < |data|
    ensures var v' := WritePass(g, v, ino, pos, cursor, data, buffer).vol; Grows(g, v, v') && SameNames(g, v, v')
  {
    hide ValidGeometry, Consistent, CursorOk, CursorFits, BlockPass, KeyOf, Live, WellSized, PointersInRange, Grows,
         Opened;
    if Opened(g, v, ino, pos, cursor).Some? {
      OpenedConsistent(g, v, ino, pos, cursor);
      OpenedGrows(g, v, ino, pos, cursor);
      var (v1, c) := Opened(g, v, ino, pos, cursor).value;
      ConsistentIsMounted(g, v1);
      BlockPassGrows(g, v1, ino, c, pos, data, buffer);
      SameNamesTransitive(g, v, v1, BlockPass(g, v1, c, pos, data, buffer).vol);
      GrowsTransitive(g, v, v1, BlockPass(g, v1, c, pos, data, buffer).vol);
    } else {
      GrowsReflexive(g, v);
    }
  }

  lemma GrowsReflexive(g: Geometry, v: Volume)
    requires ValidGeometry(g)
    ensures Grows(g, v, v) && SameNames(g, v, v)
  {
    hide ValidGeometry;
  }

  lemma SameNamesTransitive(g: Geometry, u: Volume, v: Volume, w: Volume)
    requires ValidGeometry(g) && Grows(g, u, v) && SameNames(g, u, v) && SameNames(g, v, w)
    ensures SameNames(g, u, w)
  {
    hide ValidGeometry, KeyOf, Live;
  }

  lemma {:induction false} WriteGrows(g: Geometry, v: Volume, ino: nat, pos: nat, cursor: Option<Cursor>,
                                      data: seq<byte>, buffer: seq<byte>)
    requires WriteState(g, v, ino, pos, cursor, |data|, buffer) && Writable(g, v, ino, cursor, buffer)
    ensures var v' := Write(g, v, ino, pos, cursor, data, buffer).vol; Grows(g, v, v') && SameNames(g, v, v')
    decreases |data|
  {
    hide ValidGeometry, Consistent, WellSized, PointersInRange, CursorOk, CursorFits, KeyOf, Live, WritePass, Grows,
         SameNames;
    if |data| == 0 {
      GrowsReflexive(g, v);
    } else {
      WritePassConsistent(g, v, ino, pos, cursor, data, buffer);
      WritePassGrows(g, v, ino, pos, cursor, data, buffer);
      var step := WritePass(g, v, ino, pos, cursor, data, buffer);
      if step.Stored? {
        WriteGrows(g, step.vol, ino, pos + step.n, step.cursor, data[step.n..], step.buffer);
        var w := Write(g, v, ino, pos, cursor, data, buffer).vol;
        GrowsTransitive(g, v, step.vol, w);
        SameNamesTransitive(g, v, step.vol, w);
      }
    }
  }

  /** Each entry's file now starts with the bytes it had. */
  ghost predicate FilesGrow(g: Geometry, v: Volume, files: Files, v': Volume, files': Files) {
    |v'.dir| == |v.dir| &&
    forall i: nat :: i < |v.dir| && Live(g, v.dir[i]) ==>
      KeyOf(v.dir[i]) in files && KeyOf(v'.dir[i]) in files' && files[KeyOf(v.dir[i])] <= files'[KeyOf(v'.dir[i])]
  }

  /** Calls that neither unlink nor sync. */
  predicate BeforeSync(op: Op) {
    !op.UnlinkOp? && !op.SyncOp?
  }

  lemma StepGrows(g: Geometry, v: Volume, files: Files, op: Op)
    requires Holds(g, v, files) && Mounted(g, v) && Legal(g, v, op) && Appending(g, v, files, op) && BeforeSync(op)
    requires Placed(g, v, files, op)
    ensures Grows(g, v, Step(g, v, op)) && FilesGrow(g, v, files, Step(g, v, op), FilesAfter(g, v, files, op))
  {
    hide Consistent, Contents, Step, Bare, FilesAfter, Legal, Placed, Mounted, Alike, Appending, Grows, FilesGrow;
    HoldsValid(g, v, files);
    BareGrows(g, v, files, op);
    StepAlike(g, v, op);
    GrowsAlike(g, v, files, Bare(g, v, op), Step(g, v, op), FilesAfter(g, v, files, op));
  }

  lemma GrowsAlike(g: Geometry, v: Volume, files: Files, u: Volume, w: Volume, files': Files)
    requires ValidGeometry(g) && Alike(u, w) && Grows(g, v, u) && FilesGrow(g, v, files, u, files')
    ensures Grows(g, v, w) && FilesGrow(g, v, files, w, files')
  {
    hide ValidGeometry, LivePtr, KeyOf, PhysicalOf, Live;
    PointersAlike(g, u.dir, w.dir);
  }

  lemma BareGrows(g: Geometry, v: Volume, files: Files, op: Op)
    requires Holds(g, v, files) && Mounted(g, v) && Legal(g, v, op) && Appending(g, v, files, op) && BeforeSync(op)
    requires Placed(g, v, files, op)
    ensures ValidGeometry(g) && Grows(g, v, Bare(g, v, op))
    ensures FilesGrow(g, v, files, Bare(g, v, op), FilesAfter(g, v, files, op))
  {
    hide ValidGeometry, Consistent, Contents, WellSized, PointersInRange, KeyOf, KeepsTail, Overwritten, Live,
         LivePtr, PhysicalOf, FreshEntry, Write, Creat, RenameAll, Grows, FilesGrow, XfcbMoves, RenamedFiles;
    HoldsValid(g, v, files);
    GrowsReflexive(g, v);
    FilesGrowReflexive(g, v, files);
    match op {
      case CreatOp(f, t) =>
        if Creat(g, v, f).Done? {
          CreatGrows(g, v, files, f);
        }
        FileIsFound(g, v, f, files);
        CreatWhen(g, v, f);
      case WriteOp(ino, pos, data, buffer, clock) => WriteFilesGrow(g, v, files, ino, pos, data, buffer);
      case RenameOp(from, to) =>
        FileIsFound(g, v, from, files);
        FileIsFound(g, v, to, files);
        RenameWhen(g, v, from, to);
        if RenameAll(g, v, from, to).Done? {
          RenameAllGrows(g, v, files, from, to);
        }
      case _ =>
    }
  }

  lemma CreatWhen(g: Geometry, v: Volume, f: Key)
    requires ValidGeometry(g) && |f.name| == 8 && |f.ext| == 3
    ensures Creat(g, v, f).Done? <==> FindFileExtent(g, v.dir, f, 0, -1) == -1 && FindFreeExtent(v.dir, 0) != -1
  {}

  lemma RenameWhen(g: Geometry, v: Volume, from: Key, to: Key)
    requires ValidGeometry(g) && |to.name| == 8 && |to.ext| == 3
    ensures RenameAll(g, v, from, to).Done? <==>
      FindFileExtent(g, v.dir, from, 0, -1) != -1 && FindFileExtent(g, v.dir, to, 0, -1) == -1
  {}

  lemma RenameAllGrows(g: Geometry, v: Volume, files: Files, from: Key, to: Key)
    requires Holds(g, v, files) && ValidKey(g, to) && XfcbMoves(g, v.dir, from, to) && RenameAll(g, v, from, to).Done?
    requires ValidGeometry(g) && from in files && to !in files
    ensures Grows(g, v, RenameAll(g, v, from, to).vol)
    ensures FilesGrow(g, v, files, RenameAll(g, v, from, to).vol, RenamedFiles(g, files, from, to))
  {
    hide ValidGeometry, PointersOk, NoSharing, UniqueExtents, AlvOf, WellSized, XfcbMoves, MoveXfcb, Contents,
         FindFileExtent, RenamedDir, HasFile, Rename, Grows, FilesGrow;
    RenameIsTwo(g, v, from, to);
    RenameConsistent(g, v, from, to);
    RenameContents(g, v, from, to, files);
    FilesGrowReflexive(g, v, files);
    RenameGrows(g, v, files, from, to);
    var w, files' := Rename(g, v, from, to).vol, Renamed(files, from, to);
    FileIsFound(g, w, Twin(from), files');
    FoundIsFile(g, w.dir, Twin(from));
    if g.os.hasXfcbs && Twin(from) in files' {
      RenameContents(g, w, Twin(from), Twin(to), files');
      FilesGrowReflexive(g, w, files');
      RenameGrows(g, w, files', Twin(from), Twin(to));
      var u, files'' := Rename(g, w, Twin(from), Twin(to)).vol, Renamed(files', Twin(from), Twin(to));
      GrowsTransitive(g, v, w, u);
      FilesGrowTransitive(g, v, files, w, files', u, files'');
    }
  }

  lemma FilesGrowTransitive(g: Geometry, u: Volume, fu: Files, v: Volume, fv: Files, w: Volume, fw: Files)
    requires ValidGeometry(g) && Grows(g, u, v) && FilesGrow(g, u, fu, v, fv) && FilesGrow(g, v, fv, w, fw)
    ensures FilesGrow(g, u, fu, w, fw)
  {
    hide ValidGeometry, KeyOf, Live, LivePtr, PhysicalOf;
  }

  lemma CreatGrows(g: Geometry, v: Volume, files: Files, f: Key)
    requires ValidGeometry(g) && ValidKey(g, f) && Creat(g, v, f).Done? && FilesGrow(g, v, files, v, files)
    ensures Grows(g, v, Creat(g, v, f).vol)
    ensures f !in files ==> FilesGrow(g, v, files, Creat(g, v, f).vol, files[f := []])
  {
    hide ValidGeometry, KeyOf, LivePtr, PhysicalOf, FreshEntry;
  }

  lemma WriteFilesGrow(g: Geometry, v: Volume, files: Files, ino: nat, pos: nat, data: seq<byte>, buffer: seq<byte>)
    requires WriteState(g, v, ino, pos, None, |data|, buffer) && Writable(g, v, ino, None, buffer)
    requires FilesGrow(g, v, files, v, files) && KeyOf(v.dir[ino]) in files && pos == |files[KeyOf(v.dir[ino])]|
    ensures var f, r := KeyOf(v.dir[ino]), Write(g, v, ino, pos, None, data, buffer);
      && Grows(g, v, r.vol) && FilesGrow(g, v, files, r.vol, files[f := Overwritten(files[f], pos, data[..r.got])])
  {
    hide ValidGeometry, Consistent, WellSized, PointersInRange, KeyOf, Overwritten, Write, Grows;
    WriteGrows(g, v, ino, pos, None, data, buffer);
    OverwriteAtEnd(files[KeyOf(v.dir[ino])], data[..Write(g, v, ino, pos, None, data, buffer).got]);
  }

  lemma RenameGrows(g: Geometry, v: Volume, files: Files, from: Key, to: Key)
    requires ValidGeometry(g) && ValidKey(g, to) && Rename(g, v, from, to).Done? && FilesGrow(g, v, files, v, files)
    requires from in files && to !in files
    ensures Grows(g, v, Rename(g, v, from, to).vol)
    ensures FilesGrow(g, v, files, Rename(g, v, from, to).vol, Renamed(files, from, to))
  {
    hide ValidGeometry, KeyOf, LivePtr, PhysicalOf, RenamedDir, Live;
    RenamedEntries(g, v.dir, from, to);
  }

  lemma FilesGrowReflexive(g: Geometry, v: Volume, files: Files)
    requires Holds(g, v, files)
    ensures FilesGrow(g, v, files, v, files)
  {
    hide ValidGeometry, Consistent, KeyOf, Live, HoldsBytes, NoBlocksBehind, Complete;
    HoldsValid(g, v, files);
    forall i: nat | i < |v.dir| && Live(g, v.dir[i]) ensures KeyOf(v.dir[i]) in files {
      assert EntryContents(g, v, i, files);
    }
  }

  /** The image, read back before the next sync, with the directory it was last given. */
  lemma MountBeforeSync(g: Geometry, v: Volume, data: seq<seq<byte>>)
    requires Consistent(g, v) && IsDisk(g, v.data) && IsDisk(g, data) && Mount(g, v.data) == v
    requires forall b: nat :: b < g.dirblks && b < |v.data| ==> data[b] == v.data[b]
    ensures Mount(g, data) == v.(data := data)
  {
    hide ValidGeometry, ParseEntry, PointersOk, NoSharing, UniqueExtents, WellSized, KeyOf;
    forall a: nat | a < 32 * g.maxdir + SlackBytes(g) ensures BufferByte(g, data, a) == BufferByte(g, v.data, a) {
      BlockOfByte(g, a);
      DirectoryFits(g);
      ValidSize(g);
    }
    var m := Mount(g, data);
    forall i | 0 <= i < g.maxdir ensures m.dir[i] == v.dir[i] {
      assert EntryOnDisk(g, data, i) == EntryOnDisk(g, v.data, i);
      assert v.dir[i] == Mount(g, v.data).dir[i];
    }
    assert m.dir == v.dir;
    assert m.slack == Mount(g, v.data).slack;
  }

  // ----- unlinks between -----------------------------------------------------------------------------

  /** Slot `k` of entry `i` goes on standing for the same place of a file that starts with what it had. */
  ghost predicate Holding(g: Geometry, v: Volume, files: Files, v': Volume, files': Files, i: nat, k: nat)
    requires ValidGeometry(g) && i < |v.dir| == |v'.dir| && k < PointersPerEntry(g)
  {
    && Live(g, v.dir[i]) && Live(g, v'.dir[i]) && LivePtr(g, v'.dir[i], k) == LivePtr(g, v.dir[i], k)
    && PhysicalOf(g, v'.dir[i]) == PhysicalOf(g, v.dir[i])
    && KeyOf(v.dir[i]) in files && KeyOf(v'.dir[i]) in files' && files[KeyOf(v.dir[i])] <= files'[KeyOf(v'.dir[i])]
  }

  /** What a call may do to the blocks in use: keep them where they are, or give them up untouched. Blocks in use
      neither before nor after are not written. */
  ghost predicate Moves(g: Geometry, v: Volume, files: Files, v': Volume, files': Files)
    requires ValidGeometry(g)
  {
    && |v'.dir| == |v.dir| && |v'.data| == |v.data|
    && (forall b: nat :: b < g.dirblks && b < |v.data| ==> v'.data[b] == v.data[b])
    && (forall b: nat :: 0 < b < |v.data| && !Referenced(g, v'.dir, b) ==> v'.data[b] == v.data[b])
    && (forall i: nat, k: nat :: i < |v.dir| && k < PointersPerEntry(g) && LivePtr(g, v.dir[i], k) != 0 ==>
          Holding(g, v, files, v', files', i, k) || !Referenced(g, v'.dir, LivePtr(g, v.dir[i], k)))
  }

  lemma {:induction false} WriteTouches(g: Geometry, v: Volume, ino: nat, pos: nat, cursor: Option<Cursor>,
                                        data: seq<byte>, buffer: seq<byte>, b: nat)
    requires WriteState(g, v, ino, pos, cursor, |data|, buffer) && Writable(g, v, ino, cursor, buffer)
    requires var w := Write(g, v, ino, pos, cursor, data, buffer).vol; 0 < b < |v.data| && !Referenced(g, w.dir, b)
    ensures var w := Write(g, v, ino, pos, cursor, data, buffer).vol; b < |w.data| && w.data[b] == v.data[b]
    decreases |data|
  {
    hide ValidGeometry, Consistent, WellSized, PointersInRange, CursorOk, CursorFits, KeyOf, Live, WritePass,
         Referenced;
    if |data| > 0 {
      WritePassConsistent(g, v, ino, pos, cursor, data, buffer);
      var step := WritePass(g, v, ino, pos, cursor, data, buffer);
      if step.Stored? {
        WriteGrows(g, step.vol, ino, pos + step.n, step.cursor, data[step.n..], step.buffer);
        if Referenced(g, step.vol.dir, b) {
          GrowsReferences(g, step.vol, Write(g, v, ino, pos, cursor, data, buffer).vol, b);
        }
        PassTouches(g, v, ino, pos, cursor, data, buffer, b);
        WriteTouches(g, step.vol, ino, pos + step.n, step.cursor, data[step.n..], step.buffer, b);
      } else {
        PassTouches(g, v, ino, pos, cursor, data, buffer, b);
      }
    }
  }

  lemma GrowsReferences(g: Geometry, v: Volume, v': Volume, b: nat)
    requires ValidGeometry(g) && Grows(g, v, v') && 0 < b && Referenced(g, v.dir, b)
    ensures Referenced(g, v'.dir, b)
  {
    hide ValidGeometry, PhysicalOf, Ptr;
    var i, k :| 0 <= i < |v.dir| && 0 <= k < PointersPerEntry(g) && LivePtr(g, v.dir[i], k) == b;
    assert LivePtr(g, v'.dir[i], k) == b;
  }

  lemma PassTouches(g: Geometry, v: Volume, ino: nat, pos: nat, cursor: Option<Cursor>, data: seq<byte>,
                    buffer: seq<byte>, b: nat)
    requires WriteState(g, v, ino, pos, cursor, |data|, buffer) && Writable(g, v, ino, cursor, buffer) && 0 < |data|
    ensures var r := WritePass(g, v, ino, pos, cursor, data, buffer);
      && |r.vol.data| == |v.data| && (r.Full? ==> r.vol.data == v.data)
      && (b < |v.data| && !Referenced(g, r.vol.dir, b) ==> r.vol.data[b] == v.data[b])
  {
    hide ValidGeometry, Consistent, CursorOk, CursorFits, BlockPass, KeyOf, Live, WellSized, PointersInRange, LivePtr,
         PhysicalOf, NoSharing, WithEnd;
    if Opened(g, v, ino, pos, cursor).Some? {
      OpenedConsistent(g, v, ino, pos, cursor);
      var (v1, c) := Opened(g, v, ino, pos, cursor).value;
      ConsistentIsMounted(g, v1);
      var r := BlockPass(g, v1, c, pos, data, buffer);
      if r.Stored? {
        var a, block := BlockPassStores(g, v1, ino, c, pos, data, buffer);
        assert Referenced(g, r.vol.dir, a);
      } else {
        FullPassChangesNothing(g, v1, c, pos, data, buffer);
      }
    }
  }

  lemma GrowsMoves(g: Geometry, v: Volume, files: Files, v': Volume, files': Files)
    requires ValidGeometry(g) && Grows(g, v, v') && FilesGrow(g, v, files, v', files')
    requires forall b: nat :: 0 < b < |v.data| && !Referenced(g, v'.dir, b) ==> v'.data[b] == v.data[b]
    ensures Moves(g, v, files, v', files')
  {
    hide ValidGeometry, KeyOf, PhysicalOf, Ptr, Referenced;
  }

  lemma UnlinkMoves(g: Geometry, v: Volume, files: Files, f: Key)
    requires Consistent(g, v) && FilesGrow(g, v, files, v, files) && Unlink(g, v, f).Done?
    ensures Moves(g, v, files, Unlink(g, v, f).vol, files - {f})
  {
    hide ValidGeometry, KeyOf, PhysicalOf, LivePtr, Live, UnlinkedDir, PointersOk, UniqueExtents, AlvOf, WellSized;
    var v', files' := Unlink(g, v, f).vol, files - {f};
    UnlinkedEntries(g, v.dir, f);
    forall i: nat, k: nat | i < |v.dir| && k < PointersPerEntry(g) && LivePtr(g, v.dir[i], k) != 0
      ensures Holding(g, v, files, v', files', i, k) || !Referenced(g, v'.dir, LivePtr(g, v.dir[i], k))
    {
      PointerOfLive(g, v.dir[i], k);
      if Referenced(g, v'.dir, LivePtr(g, v.dir[i], k)) {
        var j, l :| 0 <= j < |v.dir| && 0 <= l < PointersPerEntry(g) &&
          LivePtr(g, v'.dir[j], l) == LivePtr(g, v.dir[i], k);
        assert LivePtr(g, v.dir[j], l) == LivePtr(g, v.dir[i], k);
        assert i == j && k == l;
      }
    }
  }

  lemma PointerOfLive(g: Geometry, e: DirEntry, k: nat)
    requires k < PointersPerEntry(g) && LivePtr(g, e, k) != 0
    ensures Live(g, e)
  {}

  lemma UnlinkAllMoves(g: Geometry, v: Volume, files: Files, f: Key)
    requires Holds(g, v, files) && ValidGeometry(g) && XfcbAlone(g, v.dir, f) && UnlinkAll(g, v, f).Done?
    ensures Moves(g, v, files, UnlinkAll(g, v, f).vol, UnlinkedFiles(g, files, f))
  {
    hide ValidGeometry, PointersOk, NoSharing, UniqueExtents, AlvOf, WellSized, XfcbAlone, DropXfcb, Contents,
         FindFileExtent, UnlinkedDir, Moves, FilesGrow;
    UnlinkIsTwo(g, v, f);
    UnlinkConsistent(g, v, f);
    UnlinkContents(g, v, f, files);
    FilesGrowReflexive(g, v, files);
    UnlinkMoves(g, v, files, f);
    var w, files' := Unlink(g, v, f).vol, files - {f};
    if g.os.hasXfcbs {
      FileIsFound(g, w, Twin(f), files');
      if Unlink(g, w, Twin(f)).Done? {
        FilesGrowReflexive(g, w, files');
        UnlinkMoves(g, w, files', Twin(f));
        UnlinkShrinks(g, v, f);
        UnlinkShrinks(g, w, Twin(f));
        MovesTransitive(g, v, files, w, files', Unlink(g, w, Twin(f)).vol, files' - {Twin(f)});
      } else {
        assert files' - {Twin(f)} == files';
      }
    }
  }

  lemma UnlinkShrinks(g: Geometry, v: Volume, f: Key)
    requires ValidGeometry(g) && Unlink(g, v, f).Done?
    ensures var w := Unlink(g, v, f).vol;
      w.data == v.data && forall b: nat :: 0 < b && Referenced(g, w.dir, b) ==> Referenced(g, v.dir, b)
  {
    hide ValidGeometry, KeyOf, LivePtr, Live, UnlinkedDir, AlvOf;
    UnlinkedEntries(g, v.dir, f);
    var w := Unlink(g, v, f).vol;
    forall b: nat | 0 < b && Referenced(g, w.dir, b) ensures Referenced(g, v.dir, b) {
      var i, k :| 0 <= i < |w.dir| && 0 <= k < PointersPerEntry(g) && LivePtr(g, w.dir[i], k) == b;
      assert LivePtr(g, v.dir[i], k) == b;
    }
  }

  lemma MovesTransitive(g: Geometry, u: Volume, fu: Files, v: Volume, fv: Files, w: Volume, fw: Files)
    requires ValidGeometry(g) && Moves(g, u, fu, v, fv) && Moves(g, v, fv, w, fw) && w.data == v.data == u.data
    requires forall b: nat :: 0 < b && Referenced(g, w.dir, b) ==> Referenced(g, v.dir, b)
    ensures Moves(g, u, fu, w, fw)
  {
    hide ValidGeometry, KeyOf, Live, LivePtr, PhysicalOf, Referenced;
  }

  lemma StepMoves(g: Geometry, v: Volume, files: Files, op: Op)
    requires Holds(g, v, files) && Mounted(g, v) && Legal(g, v, op) && Appending(g, v, files, op) && !op.SyncOp?
    requires Placed(g, v, files, op)
    ensures Moves(g, v, files, Step(g, v, op), FilesAfter(g, v, files, op))
  {
    hide ValidGeometry, Consistent, Contents, WellSized, PointersInRange, KeyOf, KeepsTail, Overwritten, Moves,
         Write, Creat, RenameAll, UnlinkAll, Grows, FilesGrow, Referenced, CreatAt, WriteAt, Touch, Live, XfcbAlone,
         XfcbMoves, UnlinkedFiles;
    HoldsValid(g, v, files);
    FilesGrowReflexive(g, v, files);
    if op.UnlinkOp? {
      FileIsFound(g, v, op.file, files);
      UnlinkWhen(g, v, op.file);
      if UnlinkAll(g, v, op.file).Done? {
        UnlinkAllMoves(g, v, files, op.file);
      } else {
        GrowsReflexive(g, v);
        GrowsMoves(g, v, files, v, files);
      }
    } else {
      var v', files' := Step(g, v, op), FilesAfter(g, v, files, op);
      StepGrows(g, v, files, op);
      SameLength(g, v, v');
      forall b: nat | 0 < b < |v.data| && !Referenced(g, v'.dir, b) ensures v'.data[b] == v.data[b] {
        StepTouches(g, v, op, b);
      }
      GrowsMoves(g, v, files, v', files');
    }
  }

  lemma UnlinkWhen(g: Geometry, v: Volume, f: Key)
    requires ValidGeometry(g)
    ensures UnlinkAll(g, v, f).Done? <==> FindFileExtent(g, v.dir, f, 0, -1) != -1
  {}

  lemma SameLength(g: Geometry, v: Volume, v': Volume)
    requires ValidGeometry(g) && Grows(g, v, v')
    ensures |v'.data| == |v.data| && |v'.dir| == |v.dir|
  {}

  lemma StepTouches(g: Geometry, v: Volume, op: Op, b: nat)
    requires Consistent(g, v) && Mounted(g, v) && Legal(g, v, op) && !op.SyncOp? && 0 < b < |v.data|
    requires !Referenced(g, Step(g, v, op).dir, b)
    ensures b < |Step(g, v, op).data| && Step(g, v, op).data[b] == v.data[b]
  {
    hide ValidGeometry, Consistent, WellSized, PointersInRange, KeyOf, Write, Referenced, Step, Alike;
    StepAlike(g, v, op);
    ReferencedAlike(g, Bare(g, v, op), Step(g, v, op), b);
    match op {
      case WriteOp(ino, pos, data, buffer, clock) => WriteTouches(g, v, ino, pos, None, data, buffer, b);
      case _ =>
    }
  }

  lemma ReferencedAlike(g: Geometry, v: Volume, w: Volume, b: nat)
    requires Alike(v, w)
    ensures Referenced(g, v.dir, b) <==> Referenced(g, w.dir, b)
    ensures w.data == v.data
  {
    hide LivePtr;
    PointersAlike(g, v.dir, w.dir);
    if Referenced(g, v.dir, b) {
      var i, k :| 0 <= i < |v.dir| && 0 <= k < PointersPerEntry(g) && LivePtr(g, v.dir[i], k) == b;
      assert LivePtr(g, w.dir[i], k) == b;
    }
  }

  /** The bytes slot `k` of entry `i` stood for are still in its block. */
  ghost predicate BytesRemain(g: Geometry, v: Volume, files: Files, data: seq<seq<byte>>, i: nat, k: nat)
    requires ValidGeometry(g) && i < |v.dir| && k < PointersPerEntry(g)
  {
    KeyOf(v.dir[i]) in files &&
    forall p: nat ::
      p < |files[KeyOf(v.dir[i])]| && PhysicalExtent(g, p) == PhysicalOf(g, v.dir[i]) && Slot(g, p) == k ==>
        ByteAt(g, data, LivePtr(g, v.dir[i], k), Offset(g, p), files[KeyOf(v.dir[i])][p])
  }

  /** Of every committed block: its slot still stands for it, or nothing uses it and its bytes are still there. */
  ghost predicate Survives(g: Geometry, v: Volume, files: Files, u: Volume, files': Files)
    requires ValidGeometry(g)
  {
    && |u.dir| == |v.dir| && |u.data| == |v.data|
    && (forall b: nat :: b < g.dirblks && b < |v.data| ==> u.data[b] == v.data[b])
    && (forall i: nat, k: nat :: i < |v.dir| && k < PointersPerEntry(g) && LivePtr(g, v.dir[i], k) != 0 ==>
          if Referenced(g, u.dir, LivePtr(g, v.dir[i], k)) then Holding(g, v, files, u, files', i, k)
          else BytesRemain(g, v, files, u.data, i, k))
  }

  /** The call is not given a block that the committed directory names and that was freed since. */
  ghost predicate Spares(g: Geometry, committed: seq<DirEntry>, dir: seq<DirEntry>, dir': seq<DirEntry>) {
    forall b: nat :: 0 < b && Referenced(g, committed, b) && !Referenced(g, dir, b) ==> !Referenced(g, dir', b)
  }

  lemma HoldingRemains(g: Geometry, v: Volume, files: Files, u: Volume, files': Files, i: nat, k: nat)
    requires ValidGeometry(g) && Contents(g, u, files') && i < |v.dir| == |u.dir| && k < PointersPerEntry(g)
    requires Holding(g, v, files, u, files', i, k)
    ensures BytesRemain(g, v, files, u.data, i, k)
  {
    hide ValidGeometry, KeyOf, Live, PhysicalOf, LivePtr, Slot, Offset, PhysicalExtent, NoBlocksBehind, Complete;
    assert EntryContents(g, u, i, files');
    var f, f' := KeyOf(v.dir[i]), KeyOf(u.dir[i]);
    forall p: nat | p < |files[f]| && PhysicalExtent(g, p) == PhysicalOf(g, v.dir[i]) && Slot(g, p) == k
      ensures ByteAt(g, u.data, LivePtr(g, v.dir[i], k), Offset(g, p), files[f][p])
    {
      assert ByteAt(g, u.data, LivePtr(g, u.dir[i], Slot(g, p)), Offset(g, p), files'[f'][p]);
    }
  }

  lemma SameBytesRemain(g: Geometry, v: Volume, files: Files, data: seq<seq<byte>>, data': seq<seq<byte>>, i: nat,
                        k: nat)
    requires ValidGeometry(g) && i < |v.dir| && k < PointersPerEntry(g) && BytesRemain(g, v, files, data, i, k)
    requires |data'| == |data| &&
      (LivePtr(g, v.dir[i], k) < |data| ==> data'[LivePtr(g, v.dir[i], k)] == data[LivePtr(g, v.dir[i], k)])
    ensures BytesRemain(g, v, files, data', i, k)
  {
    hide ValidGeometry, KeyOf, PhysicalOf, LivePtr, Slot, Offset, PhysicalExtent;
    forall p: nat | p < |files[KeyOf(v.dir[i])]| && PhysicalExtent(g, p) == PhysicalOf(g, v.dir[i]) && Slot(g, p) == k
      ensures ByteAt(g, data', LivePtr(g, v.dir[i], k), Offset(g, p), files[KeyOf(v.dir[i])][p])
    {
      assert ByteAt(g, data, LivePtr(g, v.dir[i], k), Offset(g, p), files[KeyOf(v.dir[i])][p]);
    }
  }

  lemma SurvivesStep(g: Geometry, v: Volume, files: Files, u: Volume, fu: Files, w: Volume, fw: Files)
    requires ValidGeometry(g) && Survives(g, v, files, u, fu) && Contents(g, u, fu) && Moves(g, u, fu, w, fw)
    requires Spares(g, v.dir, u.dir, w.dir)
    ensures Survives(g, v, files, w, fw)
  {
    hide ValidGeometry, KeyOf, Live, PhysicalOf, LivePtr, BytesRemain, Contents, Holding, Referenced;
    forall i: nat, k: nat | i < |v.dir| && k < PointersPerEntry(g) && LivePtr(g, v.dir[i], k) != 0
      ensures if Referenced(g, w.dir, LivePtr(g, v.dir[i], k)) then Holding(g, v, files, w, fw, i, k)
              else BytesRemain(g, v, files, w.data, i, k)
    {
      SlotSurvives(g, v, files, u, fu, w, fw, i, k);
    }
  }

  lemma SlotSurvives(g: Geometry, v: Volume, files: Files, u: Volume, fu: Files, w: Volume, fw: Files, i: nat, k: nat)
    requires ValidGeometry(g) && Survives(g, v, files, u, fu) && Contents(g, u, fu) && Moves(g, u, fu, w, fw)
    requires Spares(g, v.dir, u.dir, w.dir)
    requires i < |v.dir| && k < PointersPerEntry(g) && LivePtr(g, v.dir[i], k) != 0
    ensures if Referenced(g, w.dir, LivePtr(g, v.dir[i], k)) then Holding(g, v, files, w, fw, i, k)
            else BytesRemain(g, v, files, w.data, i, k)
  {
    hide ValidGeometry, KeyOf, Live, PhysicalOf, LivePtr, BytesRemain, Contents, Holding, Referenced;
    var b := LivePtr(g, v.dir[i], k);
    SlotReferenced(g, v.dir, i, k);
    if Referenced(g, u.dir, b) {
      HoldingPointer(g, v, files, u, fu, i, k);
      if Holding(g, u, fu, w, fw, i, k) {
        HoldingTransitive(g, v, files, u, fu, w, fw, i, k);
        SlotReferenced(g, w.dir, i, k);
      } else {
        HoldingRemains(g, v, files, u, fu, i, k);
        SameBytesRemain(g, v, files, u.data, w.data, i, k);
      }
    } else {
      SameBytesRemain(g, v, files, u.data, w.data, i, k);
    }
  }

  lemma SlotReferenced(g: Geometry, dir: seq<DirEntry>, i: nat, k: nat)
    requires i < |dir| && k < PointersPerEntry(g)
    ensures Referenced(g, dir, LivePtr(g, dir[i], k))
  {}

  lemma HoldingPointer(g: Geometry, v: Volume, files: Files, u: Volume, fu: Files, i: nat, k: nat)
    requires ValidGeometry(g) && i < |v.dir| == |u.dir| && k < PointersPerEntry(g) && Holding(g, v, files, u, fu, i, k)
    ensures LivePtr(g, u.dir[i], k) == LivePtr(g, v.dir[i], k)
  {}

  lemma HoldingTransitive(g: Geometry, v: Volume, files: Files, u: Volume, fu: Files, w: Volume, fw: Files, i: nat,
                          k: nat)
    requires ValidGeometry(g) && i < |v.dir| == |u.dir| == |w.dir| && k < PointersPerEntry(g)
    requires Holding(g, v, files, u, fu, i, k) && Holding(g, u, fu, w, fw, i, k)
    ensures Holding(g, v, files, w, fw, i, k) && LivePtr(g, w.dir[i], k) == LivePtr(g, v.dir[i], k)
  {
    hide ValidGeometry, KeyOf, Live, PhysicalOf, LivePtr;
  }

  /** No call of the run is given a block of the committed directory that was freed since. */
  ghost predicate NeverReuses(g: Geometry, committed: seq<DirEntry>, v: Volume, ops: seq<Op>)
    requires Consistent(g, v) && LegalRun(g, v, ops)
    decreases |ops|
  {
    ConsistentIsMounted(g, v);
    |ops| > 0 ==>
      Spares(g, committed, v.dir, Step(g, v, ops[0]).dir) &&
      (StepConsistent(g, v, ops[0]); NeverReuses(g, committed, Step(g, v, ops[0]), ops[1..]))
  }

  lemma {:induction false} RunSurvives(g: Geometry, v: Volume, files: Files, u: Volume, fu: Files, ops: seq<Op>)
    requires Holds(g, u, fu) && AppendingRun(g, u, fu, ops) && PlacedRun(g, u, fu, ops) && LegalRun(g, u, ops)
    requires ValidGeometry(g) && Survives(g, v, files, u, fu) && NeverReuses(g, v.dir, u, ops)
    requires forall j :: 0 <= j < |ops| ==> !ops[j].SyncOp?
    ensures Survives(g, v, files, Run(g, u, ops), RunFiles(g, u, fu, ops))
    decreases |ops|
  {
    hide Consistent, Step, Legal, Contents, FilesAfter, Appending, Placed, Survives, Moves, Spares, ValidGeometry,
         WellSized, PointersInRange;
    if |ops| > 0 {
      ConsistentIsMounted(g, u);
      StepHolds(g, u, fu, ops[0]);
      StepMoves(g, u, fu, ops[0]);
      SurvivesStep(g, v, files, u, fu, Step(g, u, ops[0]), FilesAfter(g, u, fu, ops[0]));
      RunSurvives(g, v, files, Step(g, u, ops[0]), FilesAfter(g, u, fu, ops[0]), ops[1..]);
    }
  }

  lemma SurvivesItself(g: Geometry, v: Volume, files: Files)
    requires Holds(g, v, files) && ValidGeometry(g)
    ensures Survives(g, v, files, v, files)
  {
    hide ValidGeometry, Consistent, KeyOf, LivePtr, Live, PhysicalOf, Referenced, Contents;
    FilesGrowReflexive(g, v, files);
    forall i: nat, k: nat | i < |v.dir| && k < PointersPerEntry(g) && LivePtr(g, v.dir[i], k) != 0
      ensures Referenced(g, v.dir, LivePtr(g, v.dir[i], k)) && Holding(g, v, files, v, files, i, k)
    {
      PointerOfLive(g, v.dir[i], k);
      SlotReferenced(g, v.dir, i, k);
    }
  }

  /** What the image has for a committed file includes all the committed directory describes. */
  lemma SurvivorsHold(g: Geometry, v: Volume, files: Files, u: Volume, fu: Files)
    requires ValidGeometry(g) && Contents(g, v, files) && Contents(g, u, fu) && Survives(g, v, files, u, fu)
    ensures Contents(g, v.(data := u.data), files)
  {
    hide ValidGeometry, KeyOf, Live, PhysicalOf, LivePtr, Slot, Offset, PhysicalExtent, NoBlocksBehind, Complete,
         Holding, BytesRemain, Referenced, Survives;
    var m := v.(data := u.data);
    forall i: nat | i < |v.dir| && Live(g, m.dir[i]) ensures EntryContents(g, m, i, files) {
      assert EntryContents(g, v, i, files);
      var f := KeyOf(v.dir[i]);
      forall p: nat | p < |files[f]| && PhysicalExtent(g, p) == PhysicalOf(g, v.dir[i])
        ensures ByteAt(g, u.data, LivePtr(g, v.dir[i], Slot(g, p)), Offset(g, p), files[f][p])
      {
        assert ByteAt(g, v.data, LivePtr(g, v.dir[i], Slot(g, p)), Offset(g, p), files[f][p]);
        SurvivorRemains(g, v, files, u, fu, i, Slot(g, p));
        RemainingByte(g, v, files, u.data, i, p);
      }
    }
  }

  lemma SurvivorRemains(g: Geometry, v: Volume, files: Files, u: Volume, fu: Files, i: nat, k: nat)
    requires ValidGeometry(g) && Contents(g, u, fu) && Survives(g, v, files, u, fu)
    requires i < |v.dir| && k < PointersPerEntry(g) && LivePtr(g, v.dir[i], k) != 0
    ensures BytesRemain(g, v, files, u.data, i, k)
  {
    hide ValidGeometry, KeyOf, Live, PhysicalOf, LivePtr, Contents, Holding, BytesRemain, Referenced;
    if Referenced(g, u.dir, LivePtr(g, v.dir[i], k)) {
      HoldingRemains(g, v, files, u, fu, i, k);
    }
  }

  lemma RemainingByte(g: Geometry, v: Volume, files: Files, data: seq<seq<byte>>, i: nat, p: nat)
    requires ValidGeometry(g) && i < |v.dir| && BytesRemain(g, v, files, data, i, Slot(g, p))
    requires KeyOf(v.dir[i]) in files && p < |files[KeyOf(v.dir[i])]| && PhysicalExtent(g, p) == PhysicalOf(g, v.dir[i])
    ensures ByteAt(g, data, LivePtr(g, v.dir[i], Slot(g, p)), Offset(g, p), files[KeyOf(v.dir[i])][p])
  {
    hide ValidGeometry, KeyOf, PhysicalOf, LivePtr, Slot, Offset, PhysicalExtent;
  }

  /** Creates, appends, renames and unlinks after a sync leave, on the image, exactly the synced directory and the
      contents of every file in it, as long as no block of a file unlinked since is handed out again. A crash
      before the next sync then brings back the synced files, deleted ones included. */
  lemma CommitPointWithUnlinks(g: Geometry, v: Volume, files: Files, ops: seq<Op>)
    requires Holds(g, v, files) && IsDisk(g, v.data) && Mount(g, v.data) == v
    requires AppendingRun(g, v, files, ops) && LegalRun(g, v, ops) && NeverReuses(g, v.dir, v, ops)
    requires forall j :: 0 <= j < |ops| ==> !ops[j].SyncOp?
    ensures var w := Run(g, v, ops);
      && IsDisk(g, w.data)
      && Mount(g, w.data).dir == v.dir && Holds(g, Mount(g, w.data), files)
      && (Refines(g, v, files) ==> Refines(g, Mount(g, w.data), files))
  {
    hide PointersOk, NoSharing, UniqueExtents, ValidGeometry, EntryContents, Complete, RecordsEnd, Mount, LivePtr,
         Live, KeyOf, PhysicalOf, AppendingRun, PlacedRun, LegalRun, Run, RunFiles, Survives, NeverReuses;
    AppendingRunIsPlaced(g, v, files, ops);
    var w := Run(g, v, ops);
    RunHolds(g, v, files, ops);
    SurvivesItself(g, v, files);
    RunSurvives(g, v, files, v, files, ops);
    SurvivorBlocks(g, v, files, w, RunFiles(g, v, files, ops));
    MountBeforeSync(g, v, w.data);
    SurvivorsHold(g, v, files, w, RunFiles(g, v, files, ops));
  }

  lemma SurvivorBlocks(g: Geometry, v: Volume, files: Files, w: Volume, fw: Files)
    requires Consistent(g, v) && Consistent(g, w) && Survives(g, v, files, w, fw)
    ensures IsDisk(g, w.data) && |w.data| == |v.data|
    ensures forall b: nat :: b < g.dirblks && b < |v.data| ==> w.data[b] == v.data[b]
  {
    hide PointersOk, NoSharing, UniqueExtents, ValidGeometry, LivePtr, PhysicalOf, AlvOf;
  }

  /** Where nothing is unlinked, nothing is freed. */
  lemma {:induction false} NothingFreed(g: Geometry, committed: seq<DirEntry>, v: Volume, files: Files, ops: seq<Op>)
    requires Holds(g, v, files) && AppendingRun(g, v, files, ops) && PlacedRun(g, v, files, ops) && LegalRun(g, v, ops)
    requires forall j :: 0 <= j < |ops| ==> BeforeSync(ops[j])
    requires forall b: nat :: 0 < b && Referenced(g, committed, b) ==> Referenced(g, v.dir, b)
    ensures NeverReuses(g, committed, v, ops)
    decreases |ops|
  {
    hide Consistent, Step, Legal, Contents, FilesAfter, Appending, Placed, Grows, FilesGrow, ValidGeometry, WellSized,
         PointersInRange, Referenced;
    HoldsValid(g, v, files);
    if |ops| > 0 {
      ConsistentIsMounted(g, v);
      StepHolds(g, v, files, ops[0]);
      StepGrows(g, v, files, ops[0]);
      var v' := Step(g, v, ops[0]);
      forall b: nat | 0 < b && Referenced(g, committed, b) ensures Referenced(g, v'.dir, b) {
        GrowsReferences(g, v, v', b);
      }
      NothingFreed(g, committed, v', FilesAfter(g, v, files, ops[0]), ops[1..]);
    }
  }

  /** Without unlinks no condition is left, whatever boundaries the appends cross and wherever they stop. */
  lemma CommitPoint(g: Geometry, v: Volume, files: Files, ops: seq<Op>)
    requires Holds(g, v, files) && IsDisk(g, v.data) && Mount(g, v.data) == v && AppendingRun(g, v, files, ops)
    requires forall j :: 0 <= j < |ops| ==> BeforeSync(ops[j])
    ensures LegalRun(g, v, ops)
    ensures var w := Run(g, v, ops);
      && IsDisk(g, w.data)
      && Mount(g, w.data).dir == v.dir && Holds(g, Mount(g, w.data), files)
      && (Refines(g, v, files) ==> Refines(g, Mount(g, w.data), files))
  {
    hide Consistent, Contents, Sized, ValidGeometry, Mount, AppendingRun, PlacedRun, LegalRun, Run, RunFiles,
         NeverReuses, Referenced;
    AppendingRunIsPlaced(g, v, files, ops);
    NothingFreed(g, v.dir, v, files, ops);
    CommitPointWithUnlinks(g, v, files, ops);
  }
}
