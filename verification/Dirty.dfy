/** `dirtyDirectory`: when it is clear, the directory on the image is the one in core. One path of
    `cpmWrite` breaks that, and no other call does. */
module Dirty {
  import opened Wrappers
  import opened Geometry
  import opened Directory
  import opened Volume
  import opened Invariant
  import opened Persistence
  import opened Stamps
  import opened Runs

  /** The flag is set, or a mount of the image would find exactly this volume. */
  ghost predicate InStep(g: Geometry, v: Volume)
    requires ValidGeometry(g)
  {
    IsDisk(g, v.data) && (v.dirty || Mount(g, v.data) == v)
  }

  /** The write makes an entry for a new extent and then finds no block for it, before it stored anything. A new
      entry that is stamped sets the flag in time. */
  predicate Strands(g: Geometry, v: Volume, ino: nat, pos: nat, data: seq<byte>)
    requires ValidGeometry(g) && ino < |v.dir|
  {
    && 0 < |data| && !v.dirty
    && FindFileExtent(g, v.dir, KeyOf(v.dir[ino]), 0, pos / LOGICAL_EXTENT) == -1
    && FindFreeExtent(v.dir, 0) != -1
    && AllocBlock(g, v.alv) == -1
    && !HasStamp(g, v.dir, FindFreeExtent(v.dir, 0))
  }

  /** Nothing but an unused entry was given to a file. */
  ghost predicate Stranded(g: Geometry, v: Volume, w: Volume) {
    && |w.dir| == |v.dir| && w == v.(dir := w.dir)
    && exists j :: 0 <= j < |v.dir| && v.dir[j].status == UNUSED && Live(g, w.dir[j]) && w.dir == v.dir[j := w.dir[j]]
  }

  lemma PassMarks(g: Geometry, v: Volume, ino: nat, pos: nat, cursor: Option<Cursor>, data: seq<byte>,
                  buffer: seq<byte>, clock: Clock)
    requires Writable(g, v, ino, cursor, buffer) && 0 < |data|
    ensures var step := WritePass(g, v, ino, pos, cursor, data, buffer);
      (step.Stored? ==> step.vol.dirty) && (v.dirty ==> step.vol.dirty)
    ensures var step := WritePassAt(g, v, ino, pos, cursor, data, buffer, clock);
      (step.Stored? ==> step.vol.dirty) && (v.dirty ==> step.vol.dirty)
  {
    hide ValidGeometry, WellSized, PointersInRange, StoreInBlock, WithEnd, AdvancedExtentNumber, SetPtr, AllocBlock,
         Offset, ExtentEntry, WritePassAt, SameButStamps;
    if cursor.None? && OpenExtent(g, v, ino, pos).Some? {
      OpenExtentMounted(g, v, ino, pos);
    }
    AlikeItself(v);
    PassAlike(g, v, v, ino, pos, cursor, data, buffer, clock);
  }

  lemma {:induction false} WriteKeepsMark(g: Geometry, v: Volume, ino: nat, pos: nat, cursor: Option<Cursor>,
                                          data: seq<byte>, buffer: seq<byte>, clock: Clock)
    requires Writable(g, v, ino, cursor, buffer) && v.dirty
    ensures WriteAt(g, v, ino, pos, cursor, data, buffer, clock).vol.dirty
    decreases |data|
  {
    hide Writable, WritePass, WritePassAt, SameButStamps;
    if |data| > 0 {
      PassMarks(g, v, ino, pos, cursor, data, buffer, clock);
      AlikeItself(v);
      PassAlike(g, v, v, ino, pos, cursor, data, buffer, clock);
      var step := WritePassAt(g, v, ino, pos, cursor, data, buffer, clock);
      if step.Stored? {
        WriteKeepsMark(g, step.vol, ino, pos + step.n, step.cursor, data[step.n..], step.buffer, clock);
      }
    }
  }

  /** A first pass that stores nothing leaves the volume as it was, or sets the flag, or strands an entry. */
  lemma FullPass(g: Geometry, v: Volume, ino: nat, pos: nat, data: seq<byte>, buffer: seq<byte>, clock: Clock)
    requires Writable(g, v, ino, None, buffer) && 0 < |data| && !v.dirty
    ensures var step := WritePassAt(g, v, ino, pos, None, data, buffer, clock);
      if Strands(g, v, ino, pos, data) then
        step.Full? && Stranded(g, v, step.vol)
      else step.Full? ==> step.vol == v || step.vol.dirty
  {
    hide ValidGeometry, WellSized, PointersInRange, StorePass, AllocBlock, KeyOf, FindFreeExtent, FindFileExtent,
         WithTimes;
    OpenedAtReady(g, v, ino, pos, None, buffer, clock.before);
    var found := OpenExtent(g, v, ino, pos);
    if found.Some? {
      OpenExtentMounted(g, v, ino, pos);
      var j := FindFreeExtent(v.dir, 0);
      FreeEntryIsFree(v.dir);
      NewExtentIsEmpty(g, v.dir[ino], pos / LOGICAL_EXTENT, Slot(g, pos));
    }
  }

  lemma FreeEntryIsFree(dir: seq<DirEntry>)
    ensures var j := FindFreeExtent(dir, 0); j == -1 || (0 <= j < |dir| && dir[j].status == UNUSED)
  {}

  lemma NewExtentIsEmpty(g: Geometry, like: DirEntry, extentno: nat, k: nat)
    requires k < PointersPerEntry(g)
    ensures Ptr(g, ExtentEntry(like, extentno), k) == 0 && ExtentEntry(like, extentno).status == like.status
  {}

  /** A write that leaves the flag clear changes nothing or strands an entry. */
  lemma CleanWrite(g: Geometry, v: Volume, ino: nat, pos: nat, data: seq<byte>, buffer: seq<byte>, clock: Clock)
    requires Writable(g, v, ino, None, buffer)
    ensures var w := WriteAt(g, v, ino, pos, None, data, buffer, clock).vol;
      && (Strands(g, v, ino, pos, data) ==> !w.dirty && Stranded(g, v, w))
      && (!Strands(g, v, ino, pos, data) ==> w.dirty || w == v)
  {
    hide ValidGeometry, Mounted, WritePassAt, Strands, Live, Stranded, CursorFits;
    MountedIsSized(g, v);
    NoDataNoStrand(g, v, ino, pos, data);
    if v.dirty {
      WriteKeepsMark(g, v, ino, pos, None, data, buffer, clock);
    } else if 0 < |data| {
      AlikeItself(v);
      PassAlike(g, v, v, ino, pos, None, data, buffer, clock);
      FullPass(g, v, ino, pos, data, buffer, clock);
      PassMarks(g, v, ino, pos, None, data, buffer, clock);
      var step := WritePassAt(g, v, ino, pos, None, data, buffer, clock);
      if step.Stored? {
        WriteKeepsMark(g, step.vol, ino, pos + step.n, step.cursor, data[step.n..], step.buffer, clock);
      } else {
        StrandedIsClean(g, v, step.vol);
      }
    }
  }

  lemma StrandedIsClean(g: Geometry, v: Volume, w: Volume)
    ensures Stranded(g, v, w) ==> w.dirty == v.dirty && w.data == v.data && w != v
  {}

  /** A write keeps flag and image in step exactly if it does not strand an entry. */
  lemma WriteInStep(g: Geometry, v: Volume, ino: nat, pos: nat, data: seq<byte>, buffer: seq<byte>, clock: Clock)
    requires Writable(g, v, ino, None, buffer) && InStep(g, v)
    requires Consistent(g, WriteAt(g, v, ino, pos, None, data, buffer, clock).vol)
    ensures InStep(g, WriteAt(g, v, ino, pos, None, data, buffer, clock).vol) <==> !Strands(g, v, ino, pos, data)
  {
    hide ValidGeometry, WellSized, PointersInRange, WriteAt, Strands, Mount, PointersOk, NoSharing, UniqueExtents,
         AlvOf, Live, Stranded;
    var w := WriteAt(g, v, ino, pos, None, data, buffer, clock).vol;
    SyncIsDisk(g, w);
    CleanWrite(g, v, ino, pos, data, buffer, clock);
    StrandedIsClean(g, v, w);
    NoDataNoStrand(g, v, ino, pos, data);
  }

  lemma NoDataNoStrand(g: Geometry, v: Volume, ino: nat, pos: nat, data: seq<byte>)
    requires ValidGeometry(g) && ino < |v.dir|
    ensures Strands(g, v, ino, pos, data) ==> 0 < |data| && !v.dirty
  {}

  /** The one call that may lose the step. */
  ghost predicate StepStrands(g: Geometry, v: Volume, op: Op)
    requires ValidGeometry(g) && Legal(g, v, op)
  {
    op.WriteOp? && Strands(g, v, op.ino, op.pos, op.data)
  }

  lemma StepInStep(g: Geometry, v: Volume, op: Op)
    requires Consistent(g, v) && Mounted(g, v) && Legal(g, v, op) && InStep(g, v)
    ensures InStep(g, Step(g, v, op)) <==> !StepStrands(g, v, op)
  {
    hide ValidGeometry, PointersInRange, Strands, Mount, PointersOk, NoSharing, UniqueExtents, AlvOf, Live, Write,
         UnlinkedDir, RenamedDir, FreshEntry, Sync, WithTimes, WriteAt;
    StepConsistent(g, v, op);
    SyncIsDisk(g, Step(g, v, op));
    match op {
      case WriteOp(ino, pos, data, buffer, clock) => WriteInStep(g, v, ino, pos, data, buffer, clock);
      case SyncOp =>
        if v.dirty {
          MountAfterSync(g, v);
        } else {
          SyncOfClean(g, v);
        }
      case _ =>
    }
  }

  lemma SyncOfClean(g: Geometry, v: Volume)
    requires ValidGeometry(g) && WellSized(g, v) && !v.dirty
    ensures Sync(g, v) == v
  {}

  // ----- runs ---------------------------------------------------------------------------------------

  /** An entry of a file in core that is unused on the image, and nothing will write it back. */
  ghost predicate Lost(g: Geometry, v: Volume)
    requires ValidGeometry(g) && IsDisk(g, v.data)
  {
    var onDisk := Mount(g, v.data).dir;
    !v.dirty && exists i :: 0 <= i < |v.dir| && i < |onDisk| && Live(g, v.dir[i]) && onDisk[i].status == UNUSED
  }

  /** What is lost stays lost until a call sets the flag. */
  lemma StepStaysLost(g: Geometry, v: Volume, op: Op)
    requires Consistent(g, v) && Mounted(g, v) && Legal(g, v, op) && IsDisk(g, v.data) && !Step(g, v, op).dirty
    requires Lost(g, v) || (InStep(g, v) && StepStrands(g, v, op))
    ensures IsDisk(g, Step(g, v, op).data) && Lost(g, Step(g, v, op))
  {
    hide ValidGeometry, WellSized, PointersInRange, Strands, Mount, PointersOk, NoSharing, UniqueExtents, AlvOf, Live,
         WriteAt, UnlinkedDir, RenamedDir, FreshEntry, WithTimes, FindFreeExtent, FindFileExtent, Lost, Stranded,
         DirectoryBlock;
    match op {
      case WriteOp(ino, pos, data, buffer, clock) =>
        CleanWrite(g, v, ino, pos, data, buffer, clock);
        StrandedStaysLost(g, v, Step(g, v, op));
        StrandedIsClean(g, v, Step(g, v, op));
        NoDataNoStrand(g, v, ino, pos, data);
      case _ => LostIsClean(g, v);
    }
  }

  lemma LostIsClean(g: Geometry, v: Volume)
    requires ValidGeometry(g) && IsDisk(g, v.data) && Lost(g, v)
    ensures !v.dirty
  {}

  lemma StrandedStaysLost(g: Geometry, v: Volume, w: Volume)
    requires ValidGeometry(g) && IsDisk(g, v.data) && !w.dirty
    ensures Stranded(g, v, w) && (Lost(g, v) || InStep(g, v)) ==> Lost(g, w)
  {
    hide ValidGeometry, Mount, Live;
    if Stranded(g, v, w) {
      var j :| 0 <= j < |v.dir| && v.dir[j].status == UNUSED && Live(g, w.dir[j]) && w.dir == v.dir[j := w.dir[j]];
      if Lost(g, v) {
        var onDisk := Mount(g, v.data).dir;
        var i :| 0 <= i < |v.dir| && i < |onDisk| && Live(g, v.dir[i]) && onDisk[i].status == UNUSED;
        assert Live(g, w.dir[i]);
      } else if InStep(g, v) {
        assert Mount(g, v.data).dir[j].status == UNUSED;
      }
    }
  }

  /** Whether the flag is right after the run. A stranded entry is lost track of until a call sets the flag. */
  ghost predicate KeepsTrack(g: Geometry, v: Volume, ops: seq<Op>, inStep: bool)
    requires Consistent(g, v) && LegalRun(g, v, ops)
    decreases |ops|
  {
    ConsistentIsMounted(g, v);
    if |ops| == 0 then inStep
    else
      StepConsistent(g, v, ops[0]);
      var w := Step(g, v, ops[0]);
      KeepsTrack(g, w, ops[1..], w.dirty || (inStep && !StepStrands(g, v, ops[0])))
  }

  lemma {:induction false} RunTracked(g: Geometry, v: Volume, ops: seq<Op>, inStep: bool)
    requires Consistent(g, v) && IsDisk(g, v.data) && LegalRun(g, v, ops)
    requires if inStep then InStep(g, v) else Lost(g, v)
    ensures var w := Run(g, v, ops);
      Consistent(g, w) && ValidGeometry(g) && IsDisk(g, w.data) &&
      if KeepsTrack(g, v, ops, inStep) then InStep(g, w) else Lost(g, w)
    decreases |ops|
  {
    hide Mounted, Legal, Step, StepStrands, Mount, PointersOk, NoSharing, UniqueExtents, AlvOf, WellSized,
         ValidGeometry, Lost, InStep;
    if |ops| > 0 {
      ConsistentIsMounted(g, v);
      StepConsistent(g, v, ops[0]);
      var w := Step(g, v, ops[0]);
      StepTracked(g, v, ops[0], inStep);
      RunTracked(g, w, ops[1..], w.dirty || (inStep && !StepStrands(g, v, ops[0])));
    }
  }

  lemma StepTracked(g: Geometry, v: Volume, op: Op, inStep: bool)
    requires Consistent(g, v) && IsDisk(g, v.data) && Mounted(g, v) && Legal(g, v, op)
    requires if inStep then InStep(g, v) else Lost(g, v)
    ensures var w := Step(g, v, op);
      IsDisk(g, w.data) && if w.dirty || (inStep && !StepStrands(g, v, op)) then InStep(g, w) else Lost(g, w)
  {
    hide Mounted, Legal, Step, StepStrands, Mount, PointersOk, NoSharing, UniqueExtents, AlvOf, ValidGeometry, Lost;
    StepConsistent(g, v, op);
    SyncIsDisk(g, Step(g, v, op));
    if Step(g, v, op).dirty {
    } else if inStep && !StepStrands(g, v, op) {
      StepInStep(g, v, op);
    } else {
      StepStaysLost(g, v, op);
    }
  }

  /** After any run that starts in step, a sync makes the image hold exactly the volume in core if and only if every
      stranded entry was followed by a call that sets the flag. */
  lemma RunThenSync(g: Geometry, v: Volume, ops: seq<Op>)
    requires Consistent(g, v) && InStep(g, v) && LegalRun(g, v, ops)
    ensures var w := Run(g, v, ops);
      && ValidGeometry(g) && WellSized(g, w) && IsDisk(g, Sync(g, w).data)
      && (Mount(g, Sync(g, w).data) == Sync(g, w) <==> KeepsTrack(g, v, ops, true))
  {
    hide Mounted, Legal, LegalRun, Run, KeepsTrack, Mount, PointersOk, NoSharing, UniqueExtents, AlvOf, WellSized, Sync,
         ValidGeometry, Live;
    RunTracked(g, v, ops, true);
    var w := Run(g, v, ops);
    SyncIsDisk(g, w);
    if w.dirty {
      MountAfterSync(g, w);
    } else {
      SyncOfClean(g, w);
      if Lost(g, w) {
        LostDiffers(g, w);
      }
    }
  }

  lemma LostDiffers(g: Geometry, v: Volume)
    requires ValidGeometry(g) && IsDisk(g, v.data) && Lost(g, v)
    ensures Mount(g, v.data) != v
  {
    hide ValidGeometry, Mount;
    var onDisk := Mount(g, v.data).dir;
    var i :| 0 <= i < |v.dir| && i < |onDisk| && Live(g, v.dir[i]) && onDisk[i].status == UNUSED;
    assert Live(g, v.dir[i]) ==> v.dir[i].status != UNUSED;
  }
}
