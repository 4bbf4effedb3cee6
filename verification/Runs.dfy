/** Runs of file system calls: what every run keeps, and what it does to the map of files. */
module Runs {
  import opened Wrappers
  import opened Arithmetic
  import opened Geometry
  import opened Directory
  import opened Volume
  import opened Invariant
  import opened Refinement
  import opened Overwrites
  import opened Persistence
  import opened Stamps
  import opened Xfcbs

  /** A call. A write names its inode by entry index and carries the junk its local buffer holds. Calls that
      stamp a file carry the times. */
  datatype Op =
    | CreatOp(file: Key, times: Times)
    | WriteOp(ino: nat, pos: nat, data: seq<byte>, buffer: seq<byte>, clock: Clock)
    | UtimeOp(ino: nat, times: Times)
    | RenameOp(from: Key, to: Key)
    | UnlinkOp(file: Key)
    | SyncOp

  /** What the calls ask of their caller: a parsed name, or an inode of an existing file and a
      position the extent number can express. */
  ghost predicate Legal(g: Geometry, v: Volume, op: Op) {
    StampsFit(g) &&
    match op
    case CreatOp(f, t) => ValidKey(g, f)
    case WriteOp(ino, pos, data, buffer, clock) =>
      ino < |v.dir| && Live(g, v.dir[ino]) && pos + |data| <= MAX_FILE && |buffer| == LOGICAL_EXTENT
    case UtimeOp(ino, t) => ino < |v.dir| && Live(g, v.dir[ino])
    case RenameOp(from, to) => ValidKey(g, to) && XfcbMoves(g, v.dir, from, to)
    case UnlinkOp(f) => XfcbAlone(g, v.dir, f)
    case SyncOp => true
  }

  function After(o: Outcome, v: Volume): Volume {
    if o.Done? then o.vol else v
  }

  ghost function Step(g: Geometry, v: Volume, op: Op): (v': Volume)
    requires Mounted(g, v) && Legal(g, v, op)
  {
    match op
    case CreatOp(f, t) => After(CreatAt(g, v, f, t), v)
    case WriteOp(ino, pos, data, buffer, clock) => WriteAt(g, v, ino, pos, None, data, buffer, clock).vol
    case UtimeOp(ino, t) => Utime(g, v, ino, t)
    case RenameOp(from, to) => After(RenameAll(g, v, from, to), v)
    case UnlinkOp(f) => After(UnlinkAll(g, v, f), v)
    case SyncOp => Sync(g, v)
  }

  ghost predicate LegalRun(g: Geometry, v: Volume, ops: seq<Op>)
    requires Consistent(g, v)
    decreases |ops|
  {
    ConsistentIsMounted(g, v);
    |ops| > 0 ==>
      Legal(g, v, ops[0]) && (StepConsistent(g, v, ops[0]); LegalRun(g, Step(g, v, ops[0]), ops[1..]))
  }

  ghost function Run(g: Geometry, v: Volume, ops: seq<Op>): Volume
    requires Consistent(g, v) && LegalRun(g, v, ops)
    decreases |ops|
  {
    ConsistentIsMounted(g, v);
    if |ops| == 0 then v
    else
      StepConsistent(g, v, ops[0]);
      Run(g, Step(g, v, ops[0]), ops[1..])
  }

  /** What a call would do on a volume without stamps. */
  ghost function Bare(g: Geometry, v: Volume, op: Op): Volume
    requires Mounted(g, v) && Legal(g, v, op)
  {
    match op
    case CreatOp(f, t) => After(Creat(g, v, f), v)
    case WriteOp(ino, pos, data, buffer, clock) => Write(g, v, ino, pos, None, data, buffer).vol
    case UtimeOp(ino, t) => v
    case RenameOp(from, to) => After(RenameAll(g, v, from, to), v)
    case UnlinkOp(f) => After(UnlinkAll(g, v, f), v)
    case SyncOp => Sync(g, v)
  }

  /** Stamps are all that sets the two apart. */
  lemma StepAlike(g: Geometry, v: Volume, op: Op)
    requires Mounted(g, v) && Legal(g, v, op)
    ensures Alike(Bare(g, v, op), Step(g, v, op))
  {
    hide ValidGeometry, WellSized, PointersInRange, Creat, CreatAt, Touch, RenameAll, UnlinkAll, Sync, Write, WriteAt,
         Alike;
    AlikeItself(v);
    AlikeItself(Bare(g, v, op));
    match op {
      case CreatOp(f, t) => CreatAlike(g, v, f, t);
      case WriteOp(ino, pos, data, buffer, clock) => WriteAlike(g, v, v, ino, pos, None, data, buffer, clock);
      case UtimeOp(ino, t) => TouchAlike(g, v, ino, t);
      case _ =>
    }
  }

  lemma StepConsistent(g: Geometry, v: Volume, op: Op)
    requires Consistent(g, v) && Mounted(g, v) && Legal(g, v, op)
    ensures Consistent(g, Step(g, v, op)) && Consistent(g, Bare(g, v, op))
  {
    hide PointersOk, NoSharing, UniqueExtents, AlvOf, WellSized, KeyOf, ValidGeometry, Alike, Step, Creat, Write,
         RenameAll, UnlinkAll, Sync;
    match op {
      case CreatOp(f, t) => if Creat(g, v, f).Done? { CreatConsistent(g, v, f); }
      case WriteOp(ino, pos, data, buffer, clock) => WriteConsistent(g, v, ino, pos, None, data, buffer);
      case RenameOp(from, to) => if RenameAll(g, v, from, to).Done? { RenameAllConsistent(g, v, from, to); }
      case UnlinkOp(f) => if UnlinkAll(g, v, f).Done? { UnlinkAllConsistent(g, v, f); }
      case SyncOp => SyncConsistent(g, v);
      case _ =>
    }
    StepAlike(g, v, op);
    ConsistentAlike(g, Bare(g, v, op), Step(g, v, op));
  }

  /** The invariant of every run, whatever is written where and however often the device fills up. */
  lemma {:induction false} RunConsistent(g: Geometry, v: Volume, ops: seq<Op>)
    requires Consistent(g, v) && LegalRun(g, v, ops)
    ensures Consistent(g, Run(g, v, ops))
    decreases |ops|
  {
    hide Consistent, Step, Legal;
    if |ops| > 0 {
      ConsistentIsMounted(g, v);
      StepConsistent(g, v, ops[0]);
      RunConsistent(g, Step(g, v, ops[0]), ops[1..]);
    }
  }

  /** An entry that changed belongs to a file, is unused or is for stamps. */
  ghost predicate KeepsOthers(g: Geometry, dir: seq<DirEntry>, dir': seq<DirEntry>) {
    |dir'| == |dir| &&
    forall i :: 0 <= i < |dir| ==>
      dir'[i] == dir[i] || Live(g, dir'[i]) || dir'[i].status == UNUSED || (dir[i].status == STAMP == dir'[i].status)
  }

  lemma KeepsOthersTransitive(g: Geometry, u: seq<DirEntry>, v: seq<DirEntry>, w: seq<DirEntry>)
    requires KeepsOthers(g, u, v) && KeepsOthers(g, v, w)
    ensures KeepsOthers(g, u, w)
  {}

  lemma AlikeKeepsOthers(g: Geometry, dir: seq<DirEntry>, v: Volume, w: Volume)
    requires KeepsOthers(g, dir, v.dir) && Alike(v, w)
    ensures KeepsOthers(g, dir, w.dir)
  {}

  lemma {:induction false} WriteKeepsOthers(g: Geometry, v: Volume, ino: nat, pos: nat, cursor: Option<Cursor>,
                                            data: seq<byte>, buffer: seq<byte>)
    requires Writable(g, v, ino, cursor, buffer)
    ensures KeepsOthers(g, v.dir, Write(g, v, ino, pos, cursor, data, buffer).vol.dir)
    decreases |data|
  {
    hide Mounted, WritePass, KeepsOthers, CursorFits, Live;
    if |data| > 0 {
      var step := WritePass(g, v, ino, pos, cursor, data, buffer);
      PassKeepsOthers(g, v, ino, pos, cursor, data, buffer);
      if step.Stored? {
        WriteKeepsOthers(g, step.vol, ino, pos + step.n, step.cursor, data[step.n..], step.buffer);
        KeepsOthersTransitive(g, v.dir, step.vol.dir, Write(g, v, ino, pos, cursor, data, buffer).vol.dir);
      }
    } else {
      OthersAsBefore(g, v.dir);
    }
  }

  lemma OthersAsBefore(g: Geometry, dir: seq<DirEntry>)
    ensures KeepsOthers(g, dir, dir)
  {}

  lemma PassKeepsOthers(g: Geometry, v: Volume, ino: nat, pos: nat, cursor: Option<Cursor>, data: seq<byte>,
                        buffer: seq<byte>)
    requires Writable(g, v, ino, cursor, buffer) && 0 < |data|
    ensures KeepsOthers(g, v.dir, WritePass(g, v, ino, pos, cursor, data, buffer).vol.dir)
  {
    hide WellSized, PointersInRange, ValidGeometry, BlockPass, KeyOf, WithExtentNumber;
    if Opened(g, v, ino, pos, cursor).Some? {
      var (v1, c) := Opened(g, v, ino, pos, cursor).value;
      if cursor.None? {
        OpenExtentMounted(g, v, ino, pos);
      }
      ExtentEntryStatus(v.dir[ino], pos / LOGICAL_EXTENT);
      BlockPassChanges(g, v1, c, pos, data, buffer);
    }
  }

  lemma ExtentEntryStatus(like: DirEntry, extentno: nat)
    ensures ExtentEntry(like, extentno).status == like.status
  {}

  lemma BlockPassChanges(g: Geometry, v: Volume, c: Cursor, pos: nat, data: seq<byte>, buffer: seq<byte>)
    requires Mounted(g, v) && c.extent < |v.dir| && Live(g, v.dir[c.extent]) && |buffer| == LOGICAL_EXTENT && 0 < |data|
    ensures var v' := BlockPass(g, v, c, pos, data, buffer).vol;
      && |v'.dir| == |v.dir| && v'.dir[c.extent].status == v.dir[c.extent].status
      && forall j :: 0 <= j < |v.dir| && j != c.extent ==> v'.dir[j] == v.dir[j]
  {
    hide ValidGeometry, PointersInRange, SetPtr, StoreInBlock, WithEnd, AdvancedExtentNumber, Offset, Ptr, AllocBlock;
    if OpenBlock(g, v, c.extent, Slot(g, pos)).Some? {
      OpenBlockMounted(g, v, c.extent, Slot(g, pos));
      var (v', b, isNew) := OpenBlock(g, v, c.extent, Slot(g, pos)).value;
      StorePassMounted(g, v', c, b, isNew, pos, data[..PassLength(g, pos, |data|)], buffer);
    }
  }

  lemma RenameKeepsOthers(g: Geometry, v: Volume, from: Key, to: Key)
    requires ValidGeometry(g) && ValidKey(g, to) && XfcbMoves(g, v.dir, from, to)
    ensures KeepsOthers(g, v.dir, After(RenameAll(g, v, from, to), v).dir)
  {
    hide ValidGeometry, KeyOf, PhysicalOf, FindFileExtent, Memcpy7, XfcbMoves, MoveXfcb, HasFile, KeepsOthers;
    OthersAsBefore(g, v.dir);
    if Rename(g, v, from, to).Done? {
      RenameIsTwo(g, v, from, to);
      RenamedKinds(g, v.dir, from, to);
      var w := Rename(g, v, from, to).vol;
      if g.os.hasXfcbs && HasFile(g, w.dir, Twin(from)) {
        RenamedKinds(g, w.dir, Twin(from), Twin(to));
        KeepsOthersTransitive(g, v.dir, w.dir, Rename(g, w, Twin(from), Twin(to)).vol.dir);
      }
    }
  }

  lemma RenamedKinds(g: Geometry, dir: seq<DirEntry>, from: Key, to: Key)
    requires ValidGeometry(g) && ValidKey(g, to)
    ensures KeepsOthers(g, dir, RenamedDir(g, dir, from, to))
  {
    hide ValidGeometry, KeyOf, PhysicalOf, Memcpy7;
  }

  lemma UnlinkKeepsOthers(g: Geometry, v: Volume, f: Key)
    requires ValidGeometry(g) && UnlinkAll(g, v, f).Done?
    ensures KeepsOthers(g, v.dir, UnlinkAll(g, v, f).vol.dir)
  {
    hide ValidGeometry, KeyOf, PhysicalOf, FindFileExtent, AlvOf;
  }

  /** No call makes or changes an entry that is neither a file's nor for stamps. */
  lemma StepKeepsOthers(g: Geometry, v: Volume, op: Op)
    requires Mounted(g, v) && Legal(g, v, op)
    ensures KeepsOthers(g, v.dir, Step(g, v, op).dir)
  {
    hide WellSized, PointersInRange, ValidGeometry, KeyOf, Step, Write, Alike, RenameAll, UnlinkAll;
    match op {
      case WriteOp(ino, pos, data, buffer, clock) => WriteKeepsOthers(g, v, ino, pos, None, data, buffer);
      case RenameOp(from, to) => RenameKeepsOthers(g, v, from, to);
      case UnlinkOp(f) =>
        OthersAsBefore(g, v.dir);
        if UnlinkAll(g, v, f).Done? {
          UnlinkKeepsOthers(g, v, f);
        }
      case _ =>
    }
    StepAlike(g, v, op);
    AlikeKeepsOthers(g, v.dir, Bare(g, v, op), Step(g, v, op));
  }

  // ----- the map of files ------------------------------------------------------------------------

  /** The volume holds these files and no others, and all their bytes. Where in its last block a file ends is not
      fixed by this. */
  ghost predicate Holds(g: Geometry, v: Volume, files: Files) {
    Consistent(g, v) && Contents(g, v, files)
  }

  /** It also records where each of them ends. */
  ghost predicate Refines(g: Geometry, v: Volume, files: Files) {
    Holds(g, v, files) && Sized(g, v.dir, files)
  }

  lemma HoldsValid(g: Geometry, v: Volume, files: Files)
    requires Holds(g, v, files)
    ensures ValidGeometry(g)
  {}

  /** A write starts inside its file or at its end, and keeps what is behind it or stops for want of space. */
  ghost predicate Placed(g: Geometry, v: Volume, files: Files, op: Op)
    requires Holds(g, v, files) && Mounted(g, v) && Legal(g, v, op)
  {
    op.WriteOp? ==>
      var f := KeyOf(v.dir[op.ino]);
      && f in files && op.pos <= |files[f]|
      && (KeepsTail(g, op.pos, op.data, files[f]) || Write(g, v, op.ino, op.pos, None, op.data, op.buffer).failed)
  }

  /** The effect of a call on the map of files. */
  ghost function FilesAfter(g: Geometry, v: Volume, files: Files, op: Op): Files
    requires Holds(g, v, files) && Mounted(g, v) && Legal(g, v, op) && Placed(g, v, files, op)
  {
    match op
    case CreatOp(f, t) => if f in files || FindFreeExtent(v.dir, 0) == -1 then files else files[f := []]
    case WriteOp(ino, pos, data, buffer, clock) =>
      var f := KeyOf(v.dir[ino]);
      files[f := Overwritten(files[f], pos, data[..Write(g, v, ino, pos, None, data, buffer).got])]
    case RenameOp(from, to) => if from !in files || to in files then files else RenamedFiles(g, files, from, to)
    case UnlinkOp(f) => if f in files then UnlinkedFiles(g, files, f) else files
    case _ => files
  }

  /** One call changes the bytes on the volume exactly as it changes the map. */
  lemma StepHolds(g: Geometry, v: Volume, files: Files, op: Op)
    requires Holds(g, v, files) && Mounted(g, v) && Legal(g, v, op) && Placed(g, v, files, op)
    ensures Holds(g, Step(g, v, op), FilesAfter(g, v, files, op))
  {
    hide Consistent, Contents, Step, Bare, FilesAfter, Legal, Placed, Mounted, Alike;
    HoldsValid(g, v, files);
    StepConsistent(g, v, op);
    BareContents(g, v, files, op);
    StepAlike(g, v, op);
    ContentsAlike(g, Bare(g, v, op), Step(g, v, op), FilesAfter(g, v, files, op));
  }

  lemma BareContents(g: Geometry, v: Volume, files: Files, op: Op)
    requires Holds(g, v, files) && Mounted(g, v) && Legal(g, v, op) && Placed(g, v, files, op)
    ensures ValidGeometry(g) && Contents(g, Bare(g, v, op), FilesAfter(g, v, files, op))
  {
    hide PointersOk, NoSharing, UniqueExtents, AlvOf, WellSized, KeyOf, ValidGeometry, EntryContents, Complete,
         KeepsTail, Overwritten, Live, Write, MoveXfcb, DropXfcb, XfcbMoves, XfcbAlone, RenamedFiles, UnlinkedFiles;
    match op {
      case CreatOp(f, t) =>
        FileIsFound(g, v, f, files);
        if Creat(g, v, f).Done? {
          CreatContents(g, v, f, files);
        }
      case WriteOp(ino, pos, data, buffer, clock) => WriteStores(g, v, ino, pos, None, data, buffer, files);
      case RenameOp(from, to) =>
        FileIsFound(g, v, from, files);
        FileIsFound(g, v, to, files);
        if RenameAll(g, v, from, to).Done? {
          RenameAllContents(g, v, from, to, files);
        }
      case UnlinkOp(f) =>
        FileIsFound(g, v, f, files);
        if UnlinkAll(g, v, f).Done? {
          UnlinkAllContents(g, v, f, files);
        }
      case SyncOp => SyncRefines(g, v, files);
      case _ =>
    }
  }

  ghost predicate PlacedRun(g: Geometry, v: Volume, files: Files, ops: seq<Op>)
    requires Holds(g, v, files)
    decreases |ops|
  {
    ConsistentIsMounted(g, v);
    |ops| > 0 ==>
      Legal(g, v, ops[0]) && Placed(g, v, files, ops[0]) &&
      (StepHolds(g, v, files, ops[0]);
       PlacedRun(g, Step(g, v, ops[0]), FilesAfter(g, v, files, ops[0]), ops[1..]))
  }

  ghost function RunFiles(g: Geometry, v: Volume, files: Files, ops: seq<Op>): Files
    requires Holds(g, v, files) && PlacedRun(g, v, files, ops)
    decreases |ops|
  {
    ConsistentIsMounted(g, v);
    if |ops| == 0 then files
    else
      StepHolds(g, v, files, ops[0]);
      RunFiles(g, Step(g, v, ops[0]), FilesAfter(g, v, files, ops[0]), ops[1..])
  }

  /** The bytes of a whole run of creates, writes, renames, unlinks and syncs follow the map of files,
      whatever boundaries the writes cross and wherever they stop. */
  lemma {:induction false} RunHolds(g: Geometry, v: Volume, files: Files, ops: seq<Op>)
    requires Holds(g, v, files) && PlacedRun(g, v, files, ops)
    ensures LegalRun(g, v, ops)
    ensures Holds(g, Run(g, v, ops), RunFiles(g, v, files, ops))
    decreases |ops|
  {
    hide Consistent, Step, Legal, Contents, FilesAfter, Placed;
    if |ops| > 0 {
      ConsistentIsMounted(g, v);
      StepHolds(g, v, files, ops[0]);
      RunHolds(g, Step(g, v, ops[0]), FilesAfter(g, v, files, ops[0]), ops[1..]);
    }
  }

  /** A write starts where its file ends. */
  ghost predicate Appending(g: Geometry, v: Volume, files: Files, op: Op)
    requires Holds(g, v, files) && Legal(g, v, op)
  {
    op.WriteOp? ==> KeyOf(v.dir[op.ino]) in files && op.pos == |files[KeyOf(v.dir[op.ino])]|
  }

  lemma AppendingIsPlaced(g: Geometry, v: Volume, files: Files, op: Op)
    requires Holds(g, v, files) && Mounted(g, v) && Legal(g, v, op) && Appending(g, v, files, op)
    ensures Placed(g, v, files, op)
  {
    hide Consistent, Contents, WellSized, PointersInRange, KeyOf, Write, TailFromFile, ValidGeometry;
  }

  ghost predicate AppendingRun(g: Geometry, v: Volume, files: Files, ops: seq<Op>)
    requires Holds(g, v, files)
    decreases |ops|
  {
    ConsistentIsMounted(g, v);
    |ops| > 0 ==>
      Legal(g, v, ops[0]) && Appending(g, v, files, ops[0]) &&
      (AppendingIsPlaced(g, v, files, ops[0]);
       StepHolds(g, v, files, ops[0]);
       AppendingRun(g, Step(g, v, ops[0]), FilesAfter(g, v, files, ops[0]), ops[1..]))
  }

  lemma {:induction false} AppendingRunIsPlaced(g: Geometry, v: Volume, files: Files, ops: seq<Op>)
    requires Holds(g, v, files) && AppendingRun(g, v, files, ops)
    ensures PlacedRun(g, v, files, ops) && LegalRun(g, v, ops)
    decreases |ops|
  {
    hide Consistent, Step, Legal, Contents, FilesAfter, Placed, Appending;
    if |ops| > 0 {
      ConsistentIsMounted(g, v);
      AppendingIsPlaced(g, v, files, ops[0]);
      StepHolds(g, v, files, ops[0]);
      AppendingRunIsPlaced(g, Step(g, v, ops[0]), FilesAfter(g, v, files, ops[0]), ops[1..]);
    }
  }

  /** A write crosses no boundary `cpmWrite` would miscount; for sizes only. */
  predicate CountsRight(g: Geometry, op: Op)
    requires ValidGeometry(g)
  {
    op.WriteOp? ==> StaysInLogical(g, op.pos, |op.data|)
  }

  /** One such call keeps every recorded end right, and every recorded size if its write crosses no boundary. */
  lemma StepEnded(g: Geometry, v: Volume, files: Files, op: Op, exact: bool)
    requires Holds(g, v, files) && Ended(g, v.dir, files, exact) && Mounted(g, v) && Legal(g, v, op)
    requires Appending(g, v, files, op) && Placed(g, v, files, op) && (exact ==> CountsRight(g, op))
    ensures Ended(g, Step(g, v, op).dir, FilesAfter(g, v, files, op), exact)
  {
    hide Consistent, Contents, Ended, Step, Bare, FilesAfter, Legal, Placed, Mounted, SameButStamps, Appending;
    HoldsValid(g, v, files);
    BareEnded(g, v, files, op, exact);
    StepAlike(g, v, op);
    EndedAlike(g, Bare(g, v, op).dir, Step(g, v, op).dir, FilesAfter(g, v, files, op), exact);
  }

  lemma BareEnded(g: Geometry, v: Volume, files: Files, op: Op, exact: bool)
    requires Holds(g, v, files) && Ended(g, v.dir, files, exact) && Mounted(g, v) && Legal(g, v, op)
    requires Appending(g, v, files, op) && Placed(g, v, files, op) && (exact ==> CountsRight(g, op))
    ensures Ended(g, Bare(g, v, op).dir, FilesAfter(g, v, files, op), exact)
  {
    hide PointersOk, NoSharing, UniqueExtents, AlvOf, WellSized, KeyOf, ValidGeometry, EntryContents, Complete,
         RecordsEnd, StaysInLogical, KeepsTail, Overwritten, PointersInRange, Live, Write, MoveXfcb, DropXfcb,
         XfcbMoves, XfcbAlone, RenamedFiles, UnlinkedFiles;
    match op {
      case CreatOp(f, t) =>
        FileIsFound(g, v, f, files);
        if Creat(g, v, f).Done? {
          CreatEnded(g, v, f, files, exact);
        }
      case WriteOp(ino, pos, data, buffer, clock) =>
        WriteEnded(g, v, ino, pos, None, data, buffer, files, exact);
        OverwriteAtEnd(files[KeyOf(v.dir[ino])], data[..Write(g, v, ino, pos, None, data, buffer).got]);
      case RenameOp(from, to) =>
        FileIsFound(g, v, from, files);
        FileIsFound(g, v, to, files);
        if RenameAll(g, v, from, to).Done? {
          RenameAllContents(g, v, from, to, files);
        }
      case UnlinkOp(f) =>
        FileIsFound(g, v, f, files);
        if UnlinkAll(g, v, f).Done? {
          UnlinkAllContents(g, v, f, files);
        }
      case SyncOp => SyncRefines(g, v, files);
      case _ =>
    }
  }

  lemma StepRefines(g: Geometry, v: Volume, files: Files, op: Op)
    requires Refines(g, v, files) && Mounted(g, v) && Legal(g, v, op) && Appending(g, v, files, op)
    requires Placed(g, v, files, op) && CountsRight(g, op)
    ensures Refines(g, Step(g, v, op), FilesAfter(g, v, files, op))
  {
    hide Consistent, Mounted, Legal, Step, Contents, Ended, FilesAfter, Appending, Placed, CountsRight;
    StepHolds(g, v, files, op);
    StepEnded(g, v, files, op, true);
  }

  /** And so does every run of them. */
  lemma {:induction false} RunEnded(g: Geometry, v: Volume, files: Files, ops: seq<Op>, exact: bool)
    requires Holds(g, v, files) && AppendingRun(g, v, files, ops) && PlacedRun(g, v, files, ops) && LegalRun(g, v, ops)
    requires Ended(g, v.dir, files, exact) && (exact ==> forall j :: 0 <= j < |ops| ==> CountsRight(g, ops[j]))
    ensures Ended(g, Run(g, v, ops).dir, RunFiles(g, v, files, ops), exact)
    decreases |ops|
  {
    hide Consistent, Step, Legal, Contents, Ended, FilesAfter, Appending, Placed, CountsRight;
    if |ops| > 0 {
      ConsistentIsMounted(g, v);
      StepHolds(g, v, files, ops[0]);
      StepEnded(g, v, files, ops[0], exact);
      RunEnded(g, Step(g, v, ops[0]), FilesAfter(g, v, files, ops[0]), ops[1..], exact);
    }
  }

  /** Runs whose appends cross no boundary stand for their map of files, sizes included. */
  lemma RunRefines(g: Geometry, v: Volume, files: Files, ops: seq<Op>)
    requires Refines(g, v, files) && AppendingRun(g, v, files, ops)
    requires forall j :: 0 <= j < |ops| ==> CountsRight(g, ops[j])
    ensures LegalRun(g, v, ops) && PlacedRun(g, v, files, ops)
    ensures Refines(g, Run(g, v, ops), RunFiles(g, v, files, ops))
  {
    hide Consistent, Contents, Ended, AppendingRun, PlacedRun, LegalRun, Run, RunFiles, CountsRight;
    AppendingRunIsPlaced(g, v, files, ops);
    RunHolds(g, v, files, ops);
    RunEnded(g, v, files, ops, true);
  }

  /** What a user of the volume can see: exactly the files of the map, at their sizes, with their
      bytes, whatever is asked for in one read. */
  ghost predicate Shows(g: Geometry, v: Volume, files: Files)
    requires Mounted(g, v)
  {
    forall f: Key ::
      (Namei(g, v.dir, f).Some? <==> f in files) &&
      (f in files ==> Namei(g, v.dir, f).value.size == |files[f]| && ReadsAs(g, v, f, files[f]))
  }

  ghost predicate ReadsAs(g: Geometry, v: Volume, f: Key, bytes: seq<byte>)
    requires Mounted(g, v)
  {
    forall pos: nat, count: nat :: pos <= |bytes| ==>
      Read(g, v, f, |bytes|, pos, count) == bytes[pos..Min(pos + count, |bytes|)]
  }

  /** Every read of a file returns its bytes. */
  lemma HoldsReads(g: Geometry, v: Volume, f: Key, files: Files)
    requires Holds(g, v, files) && Mounted(g, v) && f in files
    ensures ReadsAs(g, v, f, files[f])
  {
    hide Consistent, WellSized, PointersInRange, Contents, ValidGeometry, Read;
    forall pos: nat, count: nat | pos <= |files[f]|
      ensures Read(g, v, f, |files[f]|, pos, count) == files[f][pos..Min(pos + count, |files[f]|)]
    {
      ReadReturnsContents(g, v, f, pos, count, files);
    }
  }

  /** Stamps are not part of what a volume stands for. */
  lemma RefinesAlike(g: Geometry, v: Volume, v': Volume, files: Files)
    requires Alike(v, v')
    ensures Holds(g, v, files) ==> Holds(g, v', files)
    ensures Refines(g, v, files) ==> Refines(g, v', files)
  {
    hide Consistent, Contents, Ended, SameButStamps;
    if Holds(g, v, files) {
      HoldsValid(g, v, files);
      ConsistentAlike(g, v, v');
      ContentsAlike(g, v, v', files);
      if Ended(g, v.dir, files, true) {
        EndedAlike(g, v.dir, v'.dir, files, true);
      }
    }
  }

  lemma RefinementShows(g: Geometry, v: Volume, files: Files)
    requires Refines(g, v, files) && Mounted(g, v)
    ensures Shows(g, v, files)
  {
    hide Consistent, WellSized, PointersInRange, Contents, ValidGeometry, ReadsAs, KeyOf, Live, EntryEnd, RecordsEnd;
    forall f: Key
      ensures Namei(g, v.dir, f).Some? <==> f in files
      ensures f in files ==> Namei(g, v.dir, f).value.size == |files[f]| && ReadsAs(g, v, f, files[f])
    {
      FileIsFound(g, v, f, files);
      if f in files {
        NameiSize(g, v, f, files);
        HoldsReads(g, v, f, files);
      }
    }
  }

  // ----- sequences of writes --------------------------------------------------------------------------

  /** One `cpmWrite` call of a copy: its bytes and the junk in its buffer. */
  datatype Chunk = Chunk(data: seq<byte>, buffer: seq<byte>)

  function Concat(chunks: seq<Chunk>): seq<byte> {
    if |chunks| == 0 then [] else chunks[0].data + Concat(chunks[1..])
  }

  /** `ino` is the inode of an open file. */
  ghost predicate Open(g: Geometry, v: Volume, ino: nat) {
    Consistent(g, v) && Mounted(g, v) && ino < |v.dir| && Live(g, v.dir[ino])
  }

  predicate Fits(pos: nat, c: Chunk) {
    |c.buffer| == LOGICAL_EXTENT && pos + |c.data| <= MAX_FILE
  }

  ghost function WriteChunk(g: Geometry, v: Volume, ino: nat, pos: nat, c: Chunk): (r: WriteResult)
    requires Open(g, v, ino) && Fits(pos, c)
    ensures Open(g, r.vol, ino) && KeyOf(r.vol.dir[ino]) == KeyOf(v.dir[ino])
    ensures !r.failed ==> r.got == |c.data|
  {
    hide Consistent, Mounted, Live, KeyOf;
    WriteConsistent(g, v, ino, pos, None, c.data, c.buffer);
    ConsistentIsMounted(g, Write(g, v, ino, pos, None, c.data, c.buffer).vol);
    Write(g, v, ino, pos, None, c.data, c.buffer)
  }

  /** Every call of the copy stores all it is given. */
  ghost predicate CopiesFully(g: Geometry, v: Volume, ino: nat, pos: nat, chunks: seq<Chunk>)
    requires Open(g, v, ino)
    decreases |chunks|
  {
    |chunks| > 0 ==>
      && Fits(pos, chunks[0])
      && var r := WriteChunk(g, v, ino, pos, chunks[0]);
         !r.failed && CopiesFully(g, r.vol, ino, pos + |chunks[0].data|, chunks[1..])
  }

  ghost function Copy(g: Geometry, v: Volume, ino: nat, pos: nat, chunks: seq<Chunk>): (w: Volume)
    requires Open(g, v, ino) && CopiesFully(g, v, ino, pos, chunks)
    ensures Open(g, w, ino) && KeyOf(w.dir[ino]) == KeyOf(v.dir[ino])
    decreases |chunks|
  {
    hide Open, KeyOf, Fits, WriteChunk;
    if |chunks| == 0 then v
    else
      var r := WriteChunk(g, v, ino, pos, chunks[0]);
      Copy(g, r.vol, ino, pos + |chunks[0].data|, chunks[1..])
  }

  lemma WriteChunkIs(g: Geometry, v: Volume, ino: nat, pos: nat, c: Chunk)
    requires Open(g, v, ino) && Fits(pos, c)
    ensures ValidGeometry(g) && WriteState(g, v, ino, pos, None, |c.data|, c.buffer) &&
      Writable(g, v, ino, None, c.buffer)
    ensures WriteChunk(g, v, ino, pos, c) == Write(g, v, ino, pos, None, c.data, c.buffer)
  {
    hide Live, KeyOf, Write, WellSized, PointersInRange, PointersOk, NoSharing, UniqueExtents, AlvOf;
  }

  lemma WriteChunkHolds(g: Geometry, v: Volume, ino: nat, pos: nat, c: Chunk, files: Files)
    requires Holds(g, v, files) && Open(g, v, ino) && Fits(pos, c)
    requires KeyOf(v.dir[ino]) in files && |files[KeyOf(v.dir[ino])]| == pos
    requires !WriteChunk(g, v, ino, pos, c).failed
    ensures var f := KeyOf(v.dir[ino]);
      && Holds(g, WriteChunk(g, v, ino, pos, c).vol, files[f := files[f] + c.data])
      && (forall exact :: Ended(g, v.dir, files, exact) && (exact ==> StaysInLogical(g, pos, |c.data|)) ==>
            Ended(g, WriteChunk(g, v, ino, pos, c).vol.dir, files[f := files[f] + c.data], exact))
  {
    hide Consistent, Mounted, Live, KeyOf, StaysInLogical, Contents, Ended, ValidGeometry, Write, WriteChunk,
         WriteState, Writable;
    WriteChunkIs(g, v, ino, pos, c);
    WriteAppends(g, v, ino, pos, None, c.data, c.buffer, files);
    assert c.data[..|c.data|] == c.data;
    var files' := files[KeyOf(v.dir[ino]) := files[KeyOf(v.dir[ino])] + c.data];
    forall exact | Ended(g, v.dir, files, exact) && (exact ==> StaysInLogical(g, pos, |c.data|))
      ensures Ended(g, WriteChunk(g, v, ino, pos, c).vol.dir, files', exact)
    {
      WriteEnded(g, v, ino, pos, None, c.data, c.buffer, files, exact);
    }
  }

  /** No call crosses a 16 KiB boundary inside a physical extent. */
  ghost predicate AllCountRight(g: Geometry, pos: nat, chunks: seq<Chunk>)
    requires ValidGeometry(g)
    decreases |chunks|
  {
    chunks != [] ==> StaysInLogical(g, pos, |chunks[0].data|) && AllCountRight(g, pos + |chunks[0].data|, chunks[1..])
  }

  /** Consecutive complete writes append the concatenation of their data, wherever they are cut. */
  lemma {:induction false} CopyAppends(g: Geometry, v: Volume, ino: nat, pos: nat, chunks: seq<Chunk>, files: Files)
    requires Holds(g, v, files) && Open(g, v, ino) && CopiesFully(g, v, ino, pos, chunks)
    requires KeyOf(v.dir[ino]) in files && |files[KeyOf(v.dir[ino])]| == pos
    ensures var f, w := KeyOf(v.dir[ino]), Copy(g, v, ino, pos, chunks);
      && Holds(g, w, files[f := files[f] + Concat(chunks)])
      && (forall exact :: Ended(g, v.dir, files, exact) && (exact ==> AllCountRight(g, pos, chunks)) ==>
            Ended(g, w.dir, files[f := files[f] + Concat(chunks)], exact))
    decreases |chunks|
  {
    hide Consistent, Contents, Ended, KeyOf, Live, Mounted, Fits, WriteChunk, StaysInLogical, ValidGeometry;
    var f := KeyOf(v.dir[ino]);
    if |chunks| == 0 {
      assert files[f] + [] == files[f];
      assert files[f := files[f]] == files;
    } else {
      var c := chunks[0];
      WriteChunkHolds(g, v, ino, pos, c, files);
      var files' := files[f := files[f] + c.data];
      CopyAppends(g, WriteChunk(g, v, ino, pos, c).vol, ino, pos + |c.data|, chunks[1..], files');
      assert files[f] + c.data + Concat(chunks[1..]) == files[f] + Concat(chunks);
      assert files'[f := files[f] + Concat(chunks)] == files[f := files[f] + Concat(chunks)];
    }
  }

  lemma CreatOpens(g: Geometry, v: Volume, f: Key)
    requires Consistent(g, v) && ValidKey(g, f) && Creat(g, v, f).Done?
    ensures var v', i := Creat(g, v, f).vol, FindFreeExtent(v.dir, 0);
      0 <= i && Open(g, v', i) && KeyOf(v'.dir[i]) == f
  {
    hide ValidGeometry, KeyOf, FreshEntry, WellSized, PointersOk, NoSharing, UniqueExtents, AlvOf, PointersInRange;
    CreatConsistent(g, v, f);
    FreshEntryFacts(g, f);
    ConsistentIsMounted(g, Creat(g, v, f).vol);
  }

  /** Create a file and write into it in any chunks: the volume then holds exactly the concatenation under
      that name, and what it held before under all others. */
  lemma CopyIntoNew(g: Geometry, v: Volume, f: Key, chunks: seq<Chunk>, files: Files)
    requires Holds(g, v, files) && ValidKey(g, f) && Creat(g, v, f).Done?
    requires Open(g, Creat(g, v, f).vol, FindFreeExtent(v.dir, 0))
    requires CopiesFully(g, Creat(g, v, f).vol, FindFreeExtent(v.dir, 0), 0, chunks)
    ensures var w := Copy(g, Creat(g, v, f).vol, FindFreeExtent(v.dir, 0), 0, chunks);
      && Holds(g, w, files[f := Concat(chunks)]) && ReadsAs(g, w, f, Concat(chunks))
      && (forall exact :: Ended(g, v.dir, files, exact) && (exact ==> AllCountRight(g, 0, chunks)) ==>
            Ended(g, w.dir, files[f := Concat(chunks)], exact))
  {
    hide Consistent, Contents, Ended, KeyOf, Live, WellSized, PointersInRange, CopiesFully, Copy, FreshEntry, Read,
         AllCountRight, ValidGeometry;
    var i, v', files' := FindFreeExtent(v.dir, 0), Creat(g, v, f).vol, files[f := []];
    CreatOpens(g, v, f);
    CreatContents(g, v, f, files);
    forall exact | Ended(g, v.dir, files, exact) ensures Ended(g, v'.dir, files', exact) {
      CreatEnded(g, v, f, files, exact);
    }
    CopyAppends(g, v', i, 0, chunks, files');
    assert files'[f] + Concat(chunks) == Concat(chunks);
    assert files'[f := Concat(chunks)] == files[f := Concat(chunks)];
    HoldsReads(g, Copy(g, v', i, 0, chunks), f, files[f := Concat(chunks)]);
  }

  // ----- short writes ----------------------------------------------------------------------------------

  /** `cpmWrite` stores less than asked only when no directory entry or no block is left. */
  lemma {:induction false} ShortWriteMeansFull(g: Geometry, v: Volume, ino: nat, pos: nat, cursor: Option<Cursor>,
                                               data: seq<byte>, buffer: seq<byte>)
    requires WriteState(g, v, ino, pos, cursor, |data|, buffer) && Writable(g, v, ino, cursor, buffer)
    requires Write(g, v, ino, pos, cursor, data, buffer).failed
    ensures var w := Write(g, v, ino, pos, cursor, data, buffer).vol;
      AllocBlock(g, w.alv) == -1 || FindFreeExtent(w.dir, 0) == -1
    decreases |data|
  {
    hide Consistent, Mounted, KeyOf, Live, CursorOk, CursorFits, ValidGeometry, AllocBlock, WritePass;
    WritePassConsistent(g, v, ino, pos, cursor, data, buffer);
    var step := WritePass(g, v, ino, pos, cursor, data, buffer);
    if step.Full? {
      FullPassMeansFull(g, v, ino, pos, cursor, data, buffer);
    } else {
      ShortWriteMeansFull(g, step.vol, ino, pos + step.n, step.cursor, data[step.n..], step.buffer);
    }
  }

  lemma FullPassMeansFull(g: Geometry, v: Volume, ino: nat, pos: nat, cursor: Option<Cursor>, data: seq<byte>,
                          buffer: seq<byte>)
    requires WriteState(g, v, ino, pos, cursor, |data|, buffer) && Writable(g, v, ino, cursor, buffer) && 0 < |data|
    requires WritePass(g, v, ino, pos, cursor, data, buffer).Full?
    ensures var w := WritePass(g, v, ino, pos, cursor, data, buffer).vol;
      AllocBlock(g, w.alv) == -1 || FindFreeExtent(w.dir, 0) == -1
  {
    hide ValidGeometry, Consistent, CursorOk, CursorFits, BlockPass, KeyOf, Live, WellSized, PointersInRange,
         AllocBlock;
    if Opened(g, v, ino, pos, cursor).Some? {
      OpenedConsistent(g, v, ino, pos, cursor);
      var (v1, c) := Opened(g, v, ino, pos, cursor).value;
      ConsistentIsMounted(g, v1);
      FullPassChangesNothing(g, v1, c, pos, data, buffer);
    }
  }
}
