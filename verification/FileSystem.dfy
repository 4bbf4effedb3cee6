/** The mounted file system: `struct cpmSuperBlock`, inodes and open files, and the calls on them,
    each proved to do to the volume what module Volume says. */
module FileSystem {
  import opened Wrappers
  import opened Arithmetic
  import opened Geometry
  import opened Directory
  import opened V = Volume
  import opened Skew
  import opened Blocks
  import opened Persistence
  import opened Stamps
  import opened Xfcbs
  import opened Names
  import Fsck
  import Space

  class SuperBlock {
    const g: Geometry
    const dev: Device
    const skewtab: array<nat>
    const dir: array<DirEntry>
    const alv: array<bool>  // bit `j` of word `i` is cell `32 * i + j`
    const slack: seq<byte>  // the directory buffer behind entry `maxdir - 1`
    var dirtyDirectory: bool

    ghost predicate Valid()
      reads this, skewtab
    {
      && ValidGeometry(g) && dev.g == g && SkewTable(g, skewtab[..])
      && dir.Length == g.maxdir && alv.Length == AlvBits(g) && |slack| == SlackBytes(g)
      && dir as object != alv && dir as object != skewtab && alv as object != skewtab
    }

    /** The volume this object stands for, down to the bytes of the image. */
    ghost function Vol(): (v: V.Volume)
      requires Valid()
      reads this, dev, skewtab, dir, alv
      ensures WellSized(g, v)
    {
      V.Volume(dir[..], slack, alv[..], DiskAt(g, skewtab[..], dev.image), dirtyDirectory)
    }

    // ----- mounting ----------------------------------------------------------------------------------

    /** `cpmReadSuper` on an opened image, once geometry and skew table are known. */
    constructor Mount(g: Geometry, dev: Device, skewtab: array<nat>)
      requires ValidGeometry(g) && dev.g == g && SkewTable(g, skewtab[..])
      ensures Valid() && this.g == g && this.dev == dev && this.skewtab == skewtab && fresh(dir) && fresh(alv)
      ensures Vol() == Persistence.Mount(g, DiskAt(g, skewtab[..], dev.image))
    {
      hide ValidGeometry, DiskAt, AlvBits, SlackBytes, AlvOf, ParseEntry, BufferByte, IsPermutation;
      this.g, this.dev, this.skewtab, this.dirtyDirectory := g, dev, skewtab, false;
      var bytes := ReadDirectory(g, dev, skewtab);
      var entries := ParseDirectory(g, bytes);
      dir := entries;
      slack := bytes[32 * g.maxdir..];
      alv := new bool[AlvBits(g)];
      new;
      AlvInit();
      MountedParts(g, DiskAt(g, skewtab[..], dev.image), bytes, dir[..]);
    }

    // ----- directory scans ------------------------------------------------------------------------

    /** `isMatching`. */
    static method IsMatching(user1: byte, name1: seq<byte>, ext1: seq<byte>, user2: byte, name2: seq<byte>,
                             ext2: seq<byte>)
      returns (r: bool)
      requires |name1| == |name2| == 8 && |ext1| == |ext2| == 3
      ensures r <==> user1 == user2 && Strip(name1) == Strip(name2) && Strip(ext1) == Strip(ext2)
    {
      if user1 != user2 {
        return false;
      }
      for i := 0 to 8
        invariant forall j :: 0 <= j < i ==> name1[j] % 128 == name2[j] % 128
      {
        if name1[i] % 128 != name2[i] % 128 {
          assert Strip(name1)[i] != Strip(name2)[i];
          return false;
        }
      }
      for i := 0 to 3
        invariant forall j :: 0 <= j < i ==> ext1[j] % 128 == ext2[j] % 128
      {
        if ext1[i] % 128 != ext2[i] % 128 {
          assert Strip(ext1)[i] != Strip(ext2)[i];
          return false;
        }
      }
      r := true;
    }

    /** `findFileExtent`. */
    method FindFileExtent(user: byte, name: seq<byte>, ext: seq<byte>, start: nat, extno: int) returns (r: int)
      requires Valid() && |name| == 8 && |ext| == 3 && -1 <= extno
      ensures r == Directory.FindFileExtent(g, dir[..], Key(user, Strip(name), Strip(ext)), start, extno)
    {
      ghost var f := Key(user, Strip(name), Strip(ext));
      var i := start;
      while i < g.maxdir
        invariant Directory.FindFileExtent(g, dir[..], f, i, extno) ==
          Directory.FindFileExtent(g, dir[..], f, start, extno)
        decreases g.maxdir - i
      {
        var e := dir[i];
        if e.status <= MaxUser(g) && (extno == -1 || ExtentNumber(e) / g.extents == extno / g.extents) {
          var same := IsMatching(user, name, ext, e.status, e.name, e.ext);
          if same {
            return i;
          }
        }
        i := i + 1;
      }
      r := -1;
    }

    /** `findFreeExtent`. */
    method FindFreeExtent() returns (r: int)
      requires Valid()
      ensures r == Directory.FindFreeExtent(dir[..], 0)
    {
      for i := 0 to g.maxdir
        invariant Directory.FindFreeExtent(dir[..], i) == Directory.FindFreeExtent(dir[..], 0)
      {
        if dir[i].status == UNUSED {
          return i;
        }
      }
      r := -1;
    }

    // ----- allocation --------------------------------------------------------------------------------

    /** Block `b` is reserved or referenced from the entries before `i`, or from slots before `k` of entry `i`. */
    ghost predicate Marked(i: nat, k: nat, b: nat)
      requires Valid() && i <= dir.Length
      reads this, skewtab, dir
    {
      b < g.dirblks ||
      (0 < b < g.size &&
       exists j, l :: 0 <= j <= i && j < dir.Length && 0 <= l < PointersPerEntry(g) && (j < i || l < k) &&
         LivePtr(g, dir[j], l) == b)
    }

    /** Mark the blocks of entry `i`. */
    method MarkEntry(i: nat)
      requires Valid() && i < dir.Length
      requires forall b: nat :: b < alv.Length ==> alv[b] == Marked(i, 0, b)
      modifies alv
      ensures forall b: nat :: b < alv.Length ==> alv[b] == Marked(i + 1, 0, b)
    {
      hide ValidGeometry, SkewTable, AlvBits, SlackBytes;
      if dir[i].status <= MaxUser(g) {
        var j, k := 0, 0;
        while j < 16
          invariant j == Fsck.PointerByte(g, k) && 0 <= k <= PointersPerEntry(g)
          invariant forall b: nat :: b < alv.Length ==> alv[b] == Marked(i, k, b)
        {
          var block: nat := dir[i].pointers[j];
          if g.size > 256 {
            j := j + 1;
            block := block + 256 * (dir[i].pointers[j] as int);
          }
          assert block == LivePtr(g, dir[i], k);
          if block != 0 && block < g.size {
            BitExists(g);
            alv[block] := true;
          }
          j, k := j + 1, k + 1;
        }
      }
    }

    /** `alvInit`. */
    method AlvInit()
      requires Valid()
      modifies alv
      ensures alv[..] == AlvOf(g, dir[..])
    {
      hide ValidGeometry, SkewTable, AlvBits, SlackBytes, Ptr, Live;
      BitExists(g);
      for b := 0 to alv.Length
        invariant forall c :: 0 <= c < b ==> !alv[c]
      {
        alv[b] := false;
      }
      for b := 0 to g.dirblks
        invariant forall c :: 0 <= c < alv.Length ==> alv[c] == (c < b)
      {
        alv[b] := true;
      }
      for i := 0 to g.maxdir
        invariant forall b: nat :: b < alv.Length ==> alv[b] == Marked(i, 0, b)
      {
        MarkEntry(i);
      }
      forall b: nat | b < alv.Length ensures alv[b] == Used(g, dir[..], b) {}
    }

    /** `allocBlock`: first clear bit, word by word. */
    method AllocBlock() returns (block: int)
      requires Valid()
      modifies alv
      ensures block == V.AllocBlock(g, old(alv[..]))
      ensures alv[..] == if block == -1 then old(alv[..]) else old(alv[..])[block := true]
    {
      var i := 0;
      while i < alv.Length / 32
        invariant 0 <= i <= alv.Length / 32 && alv[..] == old(alv[..])
        invariant forall k :: 0 <= k < 32 * i ==> alv[k]
      {
        var j := 0;
        while j < 32
          invariant 0 <= j <= 32 && alv[..] == old(alv[..])
          invariant forall k :: 0 <= k < 32 * i + j ==> alv[k]
        {
          if !alv[32 * i + j] {
            block := 32 * i + j;
            FirstFreeIs(alv[..], block);
            if block >= g.size {
              return -1;
            }
            alv[block] := true;
            return;
          }
          j := j + 1;
        }
        i := i + 1;
      }
      FirstFreeIs(alv[..], alv.Length);
      block := -1;
    }

    // ----- calls on names ---------------------------------------------------------------------------

    /** `updateTimeStamps`: the times of the entry `extent`, where its neighbours leave room for them. */
    method UpdateTimeStamps(extent: nat, t: Times)
      requires Valid() && StampsFit(g) && extent < dir.Length
      modifies dir, this`dirtyDirectory
      ensures Vol() == Touch(g, old(Vol()), extent, t)
    {
      hide ValidGeometry, DiskAt, AlvBits, SlackBytes, IsPermutation, WithTimes;
      if g.os.cpm3Dates {
        var x := extent / 4 * 4 + 3;
        var date := dir[x];
        if date.status == STAMP {
          dirtyDirectory := true;
          StampFields(date, extent, t);
          match extent % 4 {
            case 0 => dir[x] := date.(name := t);
            case 1 => dir[x] := date.(ext := date.ext[..2] + t[..1], extnol := t[1], lrc := t[2], extnoh := t[3],
                                      blkcnt := t[4], pointers := t[5..] + date.pointers[3..]);
            case 2 => dir[x] := date.(pointers := date.pointers[..5] + t + date.pointers[13..]);
            case _ =>
          }
        }
      }
    }

    /** `readTimeStamps`, which `cpmNamei` calls for the lowest entry of a file. */
    method ReadTimeStamps(lowestExt: nat) returns (t: Option<Times>)
      requires Valid() && StampsFit(g) && lowestExt < dir.Length
      ensures t == TimesOf(g, dir[..], lowestExt)
    {
      hide ValidGeometry, AlvBits, SlackBytes, IsPermutation, EntryBytes;
      t := None;
      if g.os.cpm3Dates {
        var date := dir[lowestExt / 4 * 4 + 3];
        if date.status == STAMP {
          if lowestExt % 4 != 3 {
            PlacedIn(date, lowestExt);
          }
          match lowestExt % 4 {
            case 0 => t := Some(date.name);
            case 1 => t := Some(date.ext[2..] + [date.extnol, date.lrc, date.extnoh, date.blkcnt] + date.pointers[..3]);
            case 2 => t := Some(date.pointers[5..13]);
            case _ =>
          }
        }
      }
    }

    /** `cpmCreat`: a new, empty file and its inode. */
    method Creat(fname: seq<byte>, i: Inode, t: Times) returns (err: Option<Error>)
      requires Valid() && NoMpmDates(g) && StampsFit(g)
      modifies dir, this`dirtyDirectory, i
      ensures match SplitFilename(g, fname)
        case None => err == Some(IllegalName) && Vol() == old(Vol())
        case Some(f) =>
          var o := CreatAt(g, old(Vol()), f, t);
          if o.Failed? then err == Some(o.error) && Vol() == old(Vol())
          else err == None && Vol() == o.vol && i.ino == Directory.FindFreeExtent(old(dir[..]), 0) && i.size == 0
    {
      hide ValidGeometry, DiskAt, AlvBits, SlackBytes, SplitFilename, IsPermutation, Touch;
      var parsed := ParseFilename(g, fname);
      if parsed.None? {
        return Some(IllegalName);
      }
      var f := parsed.value;
      SplitIsStripped(g, fname);
      var extent := FindFileExtent(f.user, f.name, f.ext, 0, -1);
      if extent != -1 {
        return Some(AlreadyExists);
      }
      extent := FindFreeExtent();
      if extent == -1 {
        return Some(DirectoryFull);
      }
      dirtyDirectory := true;
      dir[extent] := FreshEntry(f);
      i.ino, i.size := extent, 0;
      UpdateTimeStamps(extent, t);
      err := None;
    }

    /** `cpmRename`: walks from one matching entry to the next. */
    method Rename(oldname: seq<byte>, newname: seq<byte>) returns (err: Option<Error>)
      requires Valid()
      modifies dir, this`dirtyDirectory
      ensures match (SplitFilename(g, oldname), SplitFilename(g, newname))
        case (Some(from), Some(to)) =>
          var o := RenameAll(g, old(Vol()), from, to);
          if o.Failed? then err == Some(o.error) && Vol() == old(Vol()) else err == None && Vol() == o.vol
        case _ => err == Some(IllegalName) && Vol() == old(Vol())
    {
      hide ValidGeometry, DiskAt, AlvBits, SlackBytes, SplitFilename, IsPermutation, Matches, RenamedEntry, Live;
      var source := ParseFilename(g, oldname);
      if source.None? {
        return Some(IllegalName);
      }
      var target := ParseFilename(g, newname);
      if target.None? {
        return Some(IllegalName);
      }
      var from, to := source.value, target.value;
      SplitIsStripped(g, oldname);
      SplitIsStripped(g, newname);
      var extent := FindFileExtent(from.user, from.name, from.ext, 0, -1);
      if extent == -1 {
        return Some(NotFound);
      }
      var taken := FindFileExtent(to.user, to.name, to.ext, 0, -1);
      if taken != -1 {
        return Some(AlreadyExists);
      }
      RenameEntries(from, to, extent);
      if g.os.hasXfcbs {
        RenameXfcb(from, to);
      }
      err := None;
    }

    /** The end of `cpmRename`. */
    method RenameXfcb(from: Key, to: Key)
      requires Valid() && ValidKey(g, from) && ValidKey(g, to) && g.os.hasXfcbs
      modifies dir, this`dirtyDirectory
      ensures Vol() == MoveXfcb(g, old(Vol()), from, to)
    {
      hide ValidGeometry, DiskAt, AlvBits, SlackBytes, IsPermutation, RenamedEntry, Directory.FindFileExtent;
      StrippedTwin(g, from);
      var extent := FindFileExtent(from.user + 16, from.name, from.ext, 0, -1);
      if extent != -1 {
        dirtyDirectory := true;
        dir[extent] := RenamedEntry(dir[extent], Twin(to));
      }
    }

    /** The loop of `cpmRename`: renamed entries no longer match, so the walk goes on behind them. */
    method RenameEntries(from: Key, to: Key, first: nat)
      requires Valid() && ValidKey(g, to) && from != to && Key(from.user, Strip(from.name), Strip(from.ext)) == from
      requires |from.name| == 8 && |from.ext| == 3
      requires first < dir.Length && first == Directory.FindFileExtent(g, dir[..], from, 0, -1)
      modifies dir, this`dirtyDirectory
      ensures dirtyDirectory && dir[..] == RenamedDir(g, old(dir[..]), from, to)
    {
      hide ValidGeometry, AlvBits, SlackBytes, IsPermutation, Matches, RenamedEntry, Live;
      var extent: int := first;
      while extent != -1
        invariant Valid() && (extent == -1 ==> dirtyDirectory) && -1 <= extent < dir.Length
        invariant extent == Directory.FindFileExtent(g, old(dir[..]), from, if extent == -1 then dir.Length
          else extent, -1)
        invariant forall i :: 0 <= i < dir.Length ==>
          dir[i] == if (extent == -1 || i < extent) && Matches(g, old(dir[i]), from, -1)
            then RenamedEntry(old(dir[i]), to) else old(dir[i])
        decreases if extent == -1 then 0 else dir.Length - extent
      {
        dirtyDirectory := true;
        dir[extent] := RenamedEntry(dir[extent], to);
        var next := FindFileExtent(from.user, from.name, from.ext, extent + 1, -1);
        SameTail(g, old(dir[..]), dir[..], from, extent + 1);
        extent := next;
      }
    }

    /** `cpmUnlink`: every entry of the file is freed, then the allocation vector is rebuilt. */
    method Unlink(fname: seq<byte>) returns (err: Option<Error>)
      requires Valid()
      modifies dir, alv, this`dirtyDirectory
      ensures match SplitFilename(g, fname)
        case None => err == Some(IllegalName) && Vol() == old(Vol())
        case Some(f) =>
          var o := UnlinkAll(g, old(Vol()), f);
          if o.Failed? then err == Some(o.error) && Vol() == old(Vol()) else err == None && Vol() == o.vol
    {
      hide ValidGeometry, DiskAt, AlvBits, SlackBytes, SplitFilename, IsPermutation, Matches, Live, AlvOf;
      var parsed := ParseFilename(g, fname);
      if parsed.None? {
        return Some(IllegalName);
      }
      var f := parsed.value;
      SplitIsStripped(g, fname);
      var extent := FindFileExtent(f.user, f.name, f.ext, 0, -1);
      if extent == -1 {
        return Some(NotFound);
      }
      dirtyDirectory := true;
      FreeEntries(f, extent);
      if g.os.hasXfcbs {
        FreeXfcb(f);
      }
      AlvInit();
      err := None;
    }

    /** The entry taken for the XFCB of a file. */
    method FreeXfcb(f: Key)
      requires Valid() && ValidKey(g, f)
      modifies dir
      ensures var x := Directory.FindFileExtent(g, old(dir[..]), Twin(f), 0, -1);
        dir[..] == if x == -1 then old(dir[..]) else old(dir[..])[x := old(dir[..])[x].(status := UNUSED)]
    {
      hide ValidGeometry, AlvBits, SlackBytes, IsPermutation, Directory.FindFileExtent;
      StrippedTwin(g, f);
      var extent := FindFileExtent(f.user + 16, f.name, f.ext, 0, -1);
      if extent != -1 {
        dir[extent] := dir[extent].(status := UNUSED);
      }
    }

    /** The loop of `cpmUnlink`. */
    method FreeEntries(f: Key, first: nat)
      requires Valid() && |f.name| == 8 && |f.ext| == 3 && Key(f.user, Strip(f.name), Strip(f.ext)) == f
      requires first < dir.Length && first == Directory.FindFileExtent(g, dir[..], f, 0, -1)
      modifies dir
      ensures dir[..] == UnlinkedDir(g, old(dir[..]), f)
    {
      hide ValidGeometry, AlvBits, SlackBytes, IsPermutation, Matches, Live;
      var extent: int := first;
      while extent != -1
        invariant Valid() && -1 <= extent < dir.Length
        invariant extent == Directory.FindFileExtent(g, old(dir[..]), f, if extent == -1 then dir.Length
          else extent, -1)
        invariant forall i :: 0 <= i < dir.Length ==>
          dir[i] == if (extent == -1 || i < extent) && Matches(g, old(dir[i]), f, -1)
            then old(dir[i]).(status := UNUSED) else old(dir[i])
        decreases if extent == -1 then 0 else dir.Length - extent
      {
        dir[extent] := dir[extent].(status := UNUSED);
        var next := FindFileExtent(f.user, f.name, f.ext, extent + 1, -1);
        SameTail(g, old(dir[..]), dir[..], f, extent + 1);
        extent := next;
      }
    }

    /** `cpmNamei` for a file: its lowest entry and its size. */
    method Namei(fname: seq<byte>, i: Inode) returns (err: Option<Error>)
      requires Valid()
      modifies i
      ensures match SplitFilename(g, fname)
        case None => err == Some(IllegalName)
        case Some(f) =>
          var found := V.Namei(g, dir[..], f);
          if found.None? then err == Some(NotFound)
            else err == None && i.ino == found.value.ino && i.size == found.value.size
    {
      hide ValidGeometry, DiskAt, AlvBits, SlackBytes, SplitFilename, IsPermutation, Matches, Live, EntryEnd;
      var parsed := ParseFilename(g, fname);
      if parsed.None? {
        return Some(IllegalName);
      }
      var f := parsed.value;
      SplitIsStripped(g, fname);
      var highest, lowest := ExtremeEntries(f);
      if highest == -1 {
        return Some(NotFound);
      }
      var e := dir[highest];
      i.size := ExtentNumber(e) * LOGICAL_EXTENT;
      if e.blkcnt != 0 {
        i.size := i.size + (e.blkcnt - 1) * 128;
        if g.os.exactSize {
          i.size := i.size + (128 - e.lrc);
        } else {
          i.size := i.size + if e.lrc != 0 then e.lrc else 128;
        }
      }
      EntryEndSteps(g, e);
      i.ino := lowest;
      err := None;
    }

    /** The scan of `cpmNamei` for the highest and the lowest extent number of a file. */
    method ExtremeEntries(f: Key) returns (highest: int, lowest: int)
      requires Valid() && |f.name| == 8 && |f.ext| == 3 && Key(f.user, Strip(f.name), Strip(f.ext)) == f
      ensures highest == HighestEntry(g, dir[..], f, dir.Length) && lowest == LowestEntry(g, dir[..], f, dir.Length)
    {
      hide ValidGeometry, AlvBits, SlackBytes, IsPermutation, Matches, HighestEntry, LowestEntry;
      NoExtremes(g, dir[..], f);
      highest, lowest := -1, -1;
      var highestExtno, lowestExtno := -1, 2049;
      var extent := FindFileExtent(f.user, f.name, f.ext, 0, -1);
      SkipToMatch(g, dir[..], f, 0, if extent == -1 then dir.Length else extent);
      while extent != -1
        invariant -1 <= extent < dir.Length && (extent != -1 ==> Matches(g, dir[extent], f, -1))
        invariant var n := if extent == -1 then dir.Length else extent;
          highest == HighestEntry(g, dir[..], f, n) && lowest == LowestEntry(g, dir[..], f, n)
        invariant highest == -1 <==> lowest == -1
        invariant highestExtno == if highest == -1 then -1 else ExtentNumber(dir[highest])
        invariant lowestExtno == if lowest == -1 then 2049 else ExtentNumber(dir[lowest])
        decreases if extent == -1 then 0 else dir.Length - extent
      {
        var extno := ExtentNumber(dir[extent]);
        if extno > highestExtno {
          highestExtno, highest := extno, extent;
        }
        if extno < lowestExtno {
          lowestExtno, lowest := extno, extent;
        }
        var next := FindFileExtent(f.user, f.name, f.ext, extent + 1, -1);
        ExtremesAfter(g, dir[..], f, extent, if next == -1 then dir.Length else next);
        extent := next;
      }
    }

    // ----- cpmStatFS and cpmSync -----------------------------------------------------------------------

    /** `cpmStatFS`: free and used blocks, and free directory entries. */
    method StatFS() returns (bfree: nat, bused: int, ffree: nat)
      requires Valid() && g.size <= alv.Length
      ensures bfree == Space.Bfree(g, alv[..]) && bused == Space.Bused(g, alv[..])
      ensures ffree == Space.CountUnused(dir[..], dir.Length)
    {
      hide ValidGeometry, AlvBits, SlackBytes, IsPermutation;
      bfree, bused, ffree := 0, 0 - g.dirblks, 0;
      var i := 0;
      while i < alv.Length / 32
        invariant 0 <= i <= alv.Length / 32
        invariant var n := if 32 * i < g.size then 32 * i else g.size;
          bused == Space.CountSet(alv[..], n) - g.dirblks && bfree == n - Space.CountSet(alv[..], n)
      {
        var j := 0;
        while j < 32
          invariant 0 <= j <= 32
          invariant var n := if 32 * i + j < g.size then 32 * i + j else g.size;
            bused == Space.CountSet(alv[..], n) - g.dirblks && bfree == n - Space.CountSet(alv[..], n)
        {
          if 32 * i + j < g.size {
            if alv[32 * i + j] {
              bused := bused + 1;
            } else {
              bfree := bfree + 1;
            }
          }
          j := j + 1;
        }
        i := i + 1;
      }
      WholeWords(g);
      for x := 0 to dir.Length
        invariant ffree == Space.CountUnused(dir[..], x)
      {
        if dir[x].status == UNUSED {
          ffree := ffree + 1;
        }
      }
    }

    /** `cpmSync`: the directory goes back to its blocks if it was changed. */
    method Sync()
      requires Valid()
      modifies dev`image, this`dirtyDirectory
      ensures Vol() == Persistence.Sync(g, old(Vol()))
    {
      hide ValidGeometry, AlvBits, SlackBytes, IsPermutation, DiskAt, DirectoryBlock, DirectoryBlocks;
      if dirtyDirectory {
        WriteDirectory();
        dirtyDirectory := false;
      }
    }

    method WriteDirectory()
      requires Valid()
      modifies dev`image
      ensures DiskAt(g, skewtab[..], dev.image) ==
        SyncedBlocks(g, dir[..], slack, DiskAt(g, skewtab[..], old(dev.image)), DirectoryBlocks(g))
    {
      hide ValidGeometry, AlvBits, SlackBytes, IsPermutation, DiskAt, DirectoryBlock, DirectoryBlocks;
      ghost var disk := DiskAt(g, skewtab[..], dev.image);
      DirectoryFits(g);
      BitExists(g);
      var buffer := new byte[g.blksiz];
      for i := 0 to DirectoryBlocks(g)
        invariant DiskAt(g, skewtab[..], dev.image) == SyncedBlocks(g, dir[..], slack, disk, i)
      {
        FillDirectoryBlock(i, buffer);
        WriteWholeBlock(i, buffer);
      }
    }

    /** Block `i` of the directory buffer. */
    method FillDirectoryBlock(i: nat, buffer: array<byte>)
      requires Valid() && i < DirectoryBlocks(g) && buffer.Length == g.blksiz
      modifies buffer
      ensures buffer[..] == DirectoryBlock(g, dir[..], slack, i)
    {
      hide ValidGeometry, AlvBits, SlackBytes, IsPermutation, DirectoryBlocks, DirectoryByte;
      ghost var block := DirectoryBlock(g, dir[..], slack, i);
      for o := 0 to g.blksiz
        invariant forall p :: 0 <= p < o ==> buffer[p] == block[p]
      {
        InDirectoryBuffer(g, i, o);
        buffer[o] := DirectoryByte(dir[..], slack, i * g.blksiz + o);
      }
    }

    method WriteWholeBlock(b: nat, buffer: array<byte>)
      requires Valid() && b < g.size && buffer.Length == g.blksiz
      modifies dev`image
      ensures DiskAt(g, skewtab[..], dev.image) == DiskAt(g, skewtab[..], old(dev.image))[b := buffer[..]]
    {
      hide ValidGeometry, AlvBits, SlackBytes, IsPermutation, DiskAt, WroteBlock, LastSector, InSectors;
      PositiveParts(g);
      WriteBlock(dev, skewtab, b, buffer, 0, -1);
      WroteBlockOnDisk(g, skewtab[..], old(dev.image), dev.image, b, buffer[..], 0, LastSector(g, -1));
      PatchedWhole(g, BlockAt(g, skewtab[..], old(dev.image), b), buffer[..]);
    }

    // ----- cpmWrite --------------------------------------------------------------------------------------

    /** The `findext` branch: the entry for the extent of `pos`, made from a free one if needed. */
    method SettleExtent(ino: nat, pos: nat, t: Times) returns (c: Option<Cursor>)
      requires Valid() && StampsFit(g) && ino < dir.Length
      modifies dir, this`dirtyDirectory
      ensures var r := OpenExtentAt(g, old(Vol()), ino, pos, t);
        if r.None? then c == None && Vol() == old(Vol()) else c == Some(r.value.1) && Vol() == r.value.0
    {
      hide ValidGeometry, DiskAt, AlvBits, SlackBytes, IsPermutation, ExtentLow, ExtentHigh, Touch;
      var extentno := pos / LOGICAL_EXTENT;
      var like := dir[ino];
      var extent := FindFileExtent(like.status, like.name, like.ext, 0, extentno);
      if extent == -1 {
        extent := FindFreeExtent();
        if extent == -1 {
          return None;
        }
        var e := like.(pointers := ZEROS16);
        e := e.(extnol := ExtentLow(extentno), extnoh := ExtentHigh(extentno), blkcnt := 0, lrc := 0);
        dir[extent] := e;
        UpdateTimeStamps(extent, t);
      }
      c := Some(Cursor(extent, extentno));
    }

    /** The `findblock` branch: the block in slot `k`, allocated if the slot is empty. */
    method SettleBlock(i: nat, k: nat, t: Times) returns (r: Option<(nat, bool)>)
      requires Valid() && StampsFit(g) && i < dir.Length && k < PointersPerEntry(g)
      modifies dir, alv, this`dirtyDirectory
      ensures var o := OpenBlockAt(g, old(Vol()), i, k, t);
        if o.None? then r == None && Vol() == old(Vol()) else r == Some((o.value.1, o.value.2)) && Vol() == o.value.0
    {
      hide ValidGeometry, DiskAt, AlvBits, SlackBytes, IsPermutation, Touch;
      var ptr := if g.size > 256 then 2 * k else k;
      var e := dir[i];
      var block: nat := e.pointers[ptr];
      if g.size > 256 {
        block := block + 256 * (e.pointers[ptr + 1] as int);
      }
      if block != 0 {
        return Some((block, false));
      }
      var a := AllocBlock();
      if a == -1 {
        return None;
      }
      var pointers := e.pointers[ptr := a % 256];
      if g.size > 256 {
        pointers := pointers[ptr + 1 := a / 256 % 256];
      }
      dir[i] := e.(pointers := pointers);
      UpdateTimeStamps(i, t);
      r := Some((a, true));
    }

    /** The local buffer made ready: cleared, or the partly overwritten sectors fetched. `start` and
        `end` are the sectors that will be written back. */
    method LoadBuffer(b: nat, isNew: bool, pos: nat, count: nat, buffer: array<byte>) returns (start: nat, end: nat)
      requires Valid() && b < g.size && 0 < count && buffer.Length == LOGICAL_EXTENT
      modifies buffer
      ensures buffer[..] == Prepared(g, old(buffer[..]), BlockAt(g, skewtab[..], dev.image, b), isNew, Offset(g, pos),
        PassLength(g, pos, count))
      ensures start == if isNew then 0 else Offset(g, pos) / g.secLength
      ensures end == if isNew then (g.blksiz - 1) / g.secLength
        else (Offset(g, pos) + PassLength(g, pos, count) - 1) / g.secLength
    {
      hide ValidGeometry, AlvBits, SlackBytes, IsPermutation, BlockAt, FetchSector, SectorStart, PassLength;
      PositiveParts(g);
      if isNew {
        start, end := 0, (g.blksiz - 1) / g.secLength;
        ClearBuffer(buffer);
      } else {
        start, end := FetchBoundaries(b, pos, count, buffer);
      }
    }

    /** An existing block: the sectors only partly overwritten are read. */
    method FetchBoundaries(b: nat, pos: nat, count: nat, buffer: array<byte>) returns (start: nat, end: nat)
      requires Valid() && b < g.size && 0 < count && buffer.Length == LOGICAL_EXTENT
      modifies buffer
      ensures buffer[..] == Prepared(g, old(buffer[..]), BlockAt(g, skewtab[..], dev.image, b), false, Offset(g, pos),
        PassLength(g, pos, count))
      ensures start == Offset(g, pos) / g.secLength
      ensures end == (Offset(g, pos) + PassLength(g, pos, count) - 1) / g.secLength
    {
      hide ValidGeometry, AlvBits, SlackBytes, IsPermutation, BlockAt, FetchSector, SectorStart, PassLength, Prepared,
           PlanFor;
      PreparedByPlan(g, buffer[..], BlockAt(g, skewtab[..], dev.image, b), pos, count);
      var plan := PlanFor(g, pos, count);
      start, end := plan.start, plan.end;
      FetchTwo(b, plan.first, plan.needFirst, plan.last, plan.needLast, buffer);
    }

    /** Up to two sectors of block `b` read into the buffer, one after the other. */
    method FetchTwo(b: nat, first: nat, needFirst: bool, last: nat, needLast: bool, buffer: array<byte>)
      requires Valid() && b < g.size && buffer.Length == LOGICAL_EXTENT
      requires (needFirst ==> first < g.blksiz) && (needLast ==> last < g.blksiz)
      modifies buffer
      ensures var block := BlockAt(g, skewtab[..], dev.image, b);
        var fetched := if needFirst then FetchSector(g, old(buffer[..]), block, first) else old(buffer[..]);
        buffer[..] == if needLast then FetchSector(g, fetched, block, last) else fetched
    {
      hide ValidGeometry, AlvBits, SlackBytes, IsPermutation, BlockAt, FetchSector;
      if needFirst {
        FetchInto(b, first, buffer);
      }
      if needLast {
        FetchInto(b, last, buffer);
      }
    }

    method ClearBuffer(buffer: array<byte>)
      requires Valid() && buffer.Length == LOGICAL_EXTENT
      modifies buffer
      ensures buffer[..] == Overlay(old(buffer[..]), 0, Zeros(g.blksiz))
    {
      hide ValidGeometry, AlvBits, SlackBytes, IsPermutation;
      BlockFitsBuffer(g);
      for j := 0 to g.blksiz
        invariant forall k :: 0 <= k < buffer.Length ==> buffer[k] == if k < j then 0 else old(buffer[k])
      {
        buffer[j] := 0;
      }
    }

    /** One sector of block `b` read into the buffer. */
    method FetchInto(b: nat, o: nat, buffer: array<byte>)
      requires Valid() && b < g.size && o < g.blksiz && buffer.Length == LOGICAL_EXTENT
      modifies buffer
      ensures buffer[..] == FetchSector(g, old(buffer[..]), BlockAt(g, skewtab[..], dev.image, b), o)
    {
      hide ValidGeometry, AlvBits, SlackBytes, IsPermutation, SectorStart, InSectors;
      PositiveParts(g);
      BlockFitsBuffer(g);
      SectorOfOffset(g, o);
      var r := ReadBlock(dev, skewtab, b, buffer, o / g.secLength, o / g.secLength);
    }

    /** Copy bytes into the buffer up to the end of the block. */
    method FillBuffer(pos: nat, data: seq<byte>, buffer: array<byte>) returns (n: nat)
      requires Valid() && 0 < |data| && buffer.Length == LOGICAL_EXTENT
      requires Offset(g, pos) + PassLength(g, pos, |data|) <= LOGICAL_EXTENT
      modifies buffer
      ensures n == PassLength(g, pos, |data|)
      ensures buffer[..] == Overlay(old(buffer[..]), Offset(g, pos), data[..n])
    {
      hide ValidGeometry, AlvBits, SlackBytes, IsPermutation, Offset;
      ghost var full := PassLength(g, pos, |data|);
      n := 0;
      NextBlockPosition(g, pos);
      var nextblockpos := pos - Offset(g, pos) + g.blksiz;
      while pos + n != nextblockpos && n < |data|
        invariant n <= full
        invariant forall k :: 0 <= k < buffer.Length ==>
          buffer[k] == if Offset(g, pos) <= k < Offset(g, pos) + n then data[k - Offset(g, pos)] else old(buffer[k])
      {
        SameBlock(g, pos, n);
        buffer[Offset(g, pos + n)] := data[n];
        n := n + 1;
      }
    }

    /** `last`: the highest pointer in use. */
    method FindLast(e: DirEntry) returns (last: int)
      requires Valid()
      ensures last <= 0 ==> LastPointer(g, e, PointersPerEntry(g) - 1) == 0
      ensures last > 0 ==> LastPointer(g, e, PointersPerEntry(g) - 1) == last
    {
      hide ValidGeometry, AlvBits, SlackBytes, IsPermutation;
      if g.size <= 256 {
        last := 15;
        while last >= 0
          invariant -1 <= last <= 15
          invariant LastPointer(g, e, 15) == if last >= 0 then LastPointer(g, e, last) else 0
        {
          if e.pointers[last] != 0 {
            break;
          }
          last := last - 1;
        }
      } else {
        last := 14;
        while last > 0
          invariant 0 <= last <= 14 && last % 2 == 0
          invariant LastPointer(g, e, 7) == LastPointer(g, e, last / 2)
        {
          if e.pointers[last] != 0 || e.pointers[last + 1] != 0 {
            last := last / 2;
            break;
          }
          last := last - 2;
        }
      }
    }

    /** The entry told where the data now ends; `extentno` as it moves on. */
    method DescribeEnd(c: Cursor, pos: nat) returns (extentno: nat)
      requires Valid() && c.extent < dir.Length && 0 < pos
      modifies dir
      ensures extentno == AdvancedExtentNumber(g, old(dir[c.extent]), c.extentno)
      ensures dir[..] == old(dir[..])[c.extent := WithEnd(g, old(dir[c.extent]), extentno, pos)]
    {
      hide ValidGeometry, AlvBits, SlackBytes, IsPermutation, ExtentLow, ExtentHigh, ExtentAdvance, LastPointer;
      var e := dir[c.extent];
      var last := FindLast(e);
      extentno := c.extentno;
      if last > 0 {
        extentno := extentno + ExtentAdvance(g, last);
      } else {
        NothingAdvanced(g);
      }
      e := e.(extnol := ExtentLow(extentno), extnoh := ExtentHigh(extentno));
      dir[c.extent] := e.(blkcnt := (pos - 1) % LOGICAL_EXTENT / 128 + 1, lrc := LastRecordBytes(g, pos));
    }

    /** Sectors `start` to `end` of the buffer written to block `b`. */
    method WriteSectors(b: nat, buffer: array<byte>, start: nat, end: nat)
      requires Valid() && b < g.size && buffer.Length == LOGICAL_EXTENT && end < SectorsPerBlock(g)
      modifies dev`image
      ensures |BlockAt(g, skewtab[..], old(dev.image), b)| <= buffer.Length
      ensures DiskAt(g, skewtab[..], dev.image) ==
        DiskAt(g, skewtab[..], old(dev.image))[b :=
          Patched(g, BlockAt(g, skewtab[..], old(dev.image), b), buffer[..], start, end)]
    {
      hide ValidGeometry, AlvBits, SlackBytes, IsPermutation, DiskAt, WroteBlock, InSectors, SectorsPerBlock, Patched;
      PositiveParts(g);
      BlockFitsBuffer(g);
      WriteBlock(dev, skewtab, b, buffer, start, end);
      WroteBlockOnDisk(g, skewtab[..], old(dev.image), dev.image, b, buffer[..], start, end);
    }

    /** Fill the buffer, write it back and describe the new end. */
    method StorePass(c: Cursor, b: nat, isNew: bool, pos: nat, data: seq<byte>, buffer: array<byte>)
      returns (n: nat, cursor: Option<Cursor>)
      requires Valid() && c.extent < dir.Length && b < g.size && 0 < |data| && buffer.Length == LOGICAL_EXTENT
      modifies dir, dev`image, this`dirtyDirectory, buffer
      ensures Valid() && n == PassLength(g, pos, |data|)
      ensures var r := V.StorePass(g, old(Vol()), c, b, isNew, pos, data[..n], old(buffer[..]));
        Vol() == r.vol && cursor == r.cursor && buffer[..] == r.buffer
    {
      hide ValidGeometry, AlvBits, SlackBytes, IsPermutation, BlockAt, Prepared, WrittenBack, Patched, WithEnd,
           AdvancedExtentNumber, Offset, PassLength, SectorsPerBlock, Overlay, PhysicalExtent;
      ghost var block := BlockAt(g, skewtab[..], dev.image, b);
      var start, end := LoadBuffer(b, isNew, pos, |data|, buffer);
      PassFits(g, pos, |data|);
      n := FillBuffer(pos, data, buffer);
      PatchedIsWrittenBack(g, buffer[..], block, isNew, Offset(g, pos), n);
      dirtyDirectory := true;
      WriteSectors(b, buffer, start, end);
      var extentno := DescribeEnd(c, pos + n);
      cursor := if PhysicalExtent(g, pos + n) != PhysicalExtent(g, pos) then None else Some(c.(extentno := extentno));
    }

    /** One round of `while (count > 0)`. */
    method WriteRound(ino: nat, pos: nat, cursor: Option<Cursor>, data: seq<byte>, buffer: array<byte>, clock: Clock)
      returns (full: bool, n: nat, next: Option<Cursor>)
      requires Valid() && StampsFit(g) && buffer.Length == LOGICAL_EXTENT && 0 < |data|
      requires Writable(g, Vol(), ino, cursor, buffer[..])
      modifies dir, alv, dev`image, this`dirtyDirectory, buffer
      ensures Valid()
      ensures var r := WritePassAt(g, old(Vol()), ino, pos, cursor, data, old(buffer[..]), clock);
        && full == r.Full? && Vol() == r.vol
        && (!full ==> n == r.n && next == r.cursor && buffer[..] == r.buffer)
    {
      hide ValidGeometry, AlvBits, SlackBytes, IsPermutation, DiskAt, OpenExtentAt, OpenBlockAt, V.StorePass,
           PassLength, Slot, Touch, Mounted, Live;
      OpenedAtReady(g, Vol(), ino, pos, cursor, buffer[..], clock.before);
      full, n, next := false, 0, cursor;
      if cursor.None? {
        next := SettleExtent(ino, pos, clock.before);
        if next.None? {
          return true, 0, None;
        }
      }
      var c := next.value;
      ghost var v1 := Vol();
      var k := Slot(g, pos);
      if OpenBlockAt(g, v1, c.extent, k, clock.before).Some? {
        OpenBlockAtMounted(g, v1, c.extent, k, clock.before);
      }
      var block := SettleBlock(c.extent, k, clock.before);
      if block.None? {
        return true, 0, None;
      }
      n, next := StorePass(c, block.value.0, block.value.1, pos, data, buffer);
      UpdateTimeStamps(c.extent, clock.after);
    }

    /** `cpmWrite`. The local buffer is not initialised; `junk` is what it happens to hold. */
    method Write(file: File, data: seq<byte>, clock: Clock) returns (ret: int, ghost junk: seq<byte>)
      requires Valid() && NoMpmDates(g) && StampsFit(g)
      requires Mounted(g, Vol()) && file.inode.ino < dir.Length && Live(g, dir[file.inode.ino])
      modifies dir, alv, dev`image, this`dirtyDirectory, file, file.inode
      ensures Valid() && |junk| == LOGICAL_EXTENT && file.inode.ino == old(file.inode.ino)
      ensures var r := WriteAt(g, old(Vol()), old(file.inode.ino), old(file.pos), None, data, junk, clock);
        && Vol() == r.vol && file.pos == old(file.pos) + r.got
        && ret == (if r.failed && r.got == 0 then -1 else r.got)
        && file.inode.size == (if r.got > 0 && old(file.inode.size) < file.pos then file.pos else old(file.inode.size))
    {
      hide ValidGeometry, AlvBits, SlackBytes, IsPermutation, DiskAt, WritePassAt, WellSized, PointersInRange, Live,
           WriteAt;
      var ino := file.inode.ino;
      var buffer := new byte[LOGICAL_EXTENT];
      junk := buffer[..];
      var cursor: Option<Cursor> := None;
      var got := 0;
      ghost var v0, pos0 := Vol(), file.pos;
      while got < |data|
        invariant Valid() && 0 <= got <= |data| && file.pos == pos0 + got && file.inode.ino == ino
        invariant Writable(g, Vol(), ino, cursor, buffer[..])
        invariant WriteAt(g, v0, ino, pos0, None, data, junk, clock) ==
          var rest := WriteAt(g, Vol(), ino, pos0 + got, cursor, data[got..], buffer[..], clock);
          rest.(got := got + rest.got)
        invariant file.inode.size == if got > 0 && old(file.inode.size) < file.pos then file.pos
          else old(file.inode.size)
      {
        WriteUnfolds(g, Vol(), ino, file.pos, cursor, data[got..], buffer[..], clock);
        var full, n, next := WriteRound(ino, file.pos, cursor, data[got..], buffer, clock);
        if full {
          return if got == 0 then -1 else got, junk;
        }
        file.pos := file.pos + n;
        if file.inode.size < file.pos {
          file.inode.size := file.pos;
        }
        assert data[got..][n..] == data[got + n..];
        got, cursor := got + n, next;
      }
      WriteEnds(g, Vol(), ino, file.pos, cursor, data[got..], buffer[..], clock);
      ret := got;
    }

    /** `cpmUtime`. */
    method Utime(i: Inode, t: Times)
      requires Valid() && StampsFit(g) && i.ino < dir.Length
      modifies dir, this`dirtyDirectory
      ensures Vol() == Stamps.Utime(g, old(Vol()), i.ino, t)
    {
      UpdateTimeStamps(i.ino, t);
    }

    // ----- cpmRead ---------------------------------------------------------------------------------------

    /** The `findext` branch of `cpmRead`: the entry for `pos`, and where its extent ends. */
    method LookUpExtent(like: DirEntry, pos: nat) returns (extent: int, nextextpos: nat)
      requires Valid()
      ensures extent == Directory.FindFileExtent(g, dir[..], KeyOf(like), 0, pos / LOGICAL_EXTENT)
      ensures nextextpos == SlotStart(g, PhysicalExtent(g, pos) + 1, 0)
      ensures SlotStart(g, PhysicalExtent(g, pos), 0) <= pos < nextextpos
    {
      hide ValidGeometry, AlvBits, SlackBytes, IsPermutation, SkewTable, SlotStart, PhysicalExtent;
      extent := FindFileExtent(like.status, like.name, like.ext, 0, pos / LOGICAL_EXTENT);
      ExtentAround(g, pos);
      nextextpos := pos / ExtentCapacity(g) * ExtentCapacity(g) + ExtentCapacity(g);
    }

    /** The `findblock` branch of `cpmRead`: the sectors needed from `pos` on, zeros for a hole. */
    method LoadForRead(ghost f: Key, extent: int, pos: nat, count: nat, buffer: array<byte>) returns (ok: bool)
      requires Valid() && buffer.Length == LOGICAL_EXTENT && 0 < count
      requires extent == Directory.FindFileExtent(g, dir[..], f, 0, pos / LOGICAL_EXTENT)
      modifies buffer
      ensures ok ==> Loaded(g, Vol(), f, extent, buffer[..], pos, pos + PassLength(g, pos, count))
      ensures !ok ==> BadAt(g, Vol(), f, pos)
    {
      hide ValidGeometry, AlvBits, SlackBytes, IsPermutation, BlockAt, BadAt, ReadByte, PassLength, Offset, Slot,
           PhysicalExtent;
      ghost var v := Vol();
      ValidSize(g);
      SlotIsPointer(g, v, f, pos, extent);
      ok := true;
      if extent != -1 {
        var ptr := if g.size > 256 then 2 * Slot(g, pos) else Slot(g, pos);
        var block: nat := dir[extent].pointers[ptr];
        if g.size > 256 {
          block := block + 256 * (dir[extent].pointers[ptr + 1] as int);
        }
        if block == 0 {
          ClearBuffer(buffer);
        } else {
          ok := FetchForRead(block, pos, count, buffer);
        }
      }
      if ok {
        forall p: nat | pos <= p < pos + PassLength(g, pos, count)
          ensures Offset(g, p) < LOGICAL_EXTENT && !BadAt(g, v, f, p)
          ensures ReadByte(g, v, f, p) == if extent == -1 then 0 else buffer[Offset(g, p)]
        {
          PassFits(g, pos, count);
          DeliveredInBlock(g, v, f, pos, p, extent);
        }
      }
    }

    /** The sectors of block `b` that hold the wanted range. */
    method FetchForRead(b: nat, pos: nat, count: nat, buffer: array<byte>) returns (ok: bool)
      requires Valid() && 0 < count && buffer.Length == LOGICAL_EXTENT
      modifies buffer
      ensures ok <==> b < g.size
      ensures Offset(g, pos) + PassLength(g, pos, count) <= g.blksiz <= LOGICAL_EXTENT
      ensures ok ==> forall o: nat :: Offset(g, pos) <= o < Offset(g, pos) + PassLength(g, pos, count) ==>
        buffer[o] == BlockAt(g, skewtab[..], dev.image, b)[o]
    {
      hide ValidGeometry, AlvBits, SlackBytes, IsPermutation, Address, InSectors, PassLength, SectorsPerBlock,
           SectorsToRead, Offset, LastSector;
      PositiveParts(g);
      PassFits(g, pos, count);
      PassSectors(g, pos, count);
      var sectors := SectorsToRead(g, pos, count);
      var r := ReadBlock(dev, skewtab, b, buffer, sectors.0, sectors.1);
      ok := r == 0;
    }

    /** The `findblock` branch for a position in the extent that was looked up at `from`. */
    method NextBlockForRead(like: DirEntry, extent: int, ghost from: nat, pos: nat, count: nat, buffer: array<byte>)
      returns (ok: bool, nextblockpos: nat)
      requires Valid() && buffer.Length == LOGICAL_EXTENT && 0 < count
      requires SlotStart(g, PhysicalExtent(g, from), 0) <= pos < SlotStart(g, PhysicalExtent(g, from) + 1, 0)
      requires extent == Directory.FindFileExtent(g, dir[..], KeyOf(like), 0, from / LOGICAL_EXTENT)
      modifies buffer
      ensures !ok ==> BadAt(g, Vol(), KeyOf(like), pos)
      ensures ok ==>
        && pos < nextblockpos <= SlotStart(g, PhysicalExtent(g, from) + 1, 0)
        && Loaded(g, Vol(), KeyOf(like), extent, buffer[..], pos, Min(nextblockpos, pos + count))
    {
      hide ValidGeometry, AlvBits, SlackBytes, IsPermutation, BadAt, ReadByte, PassLength, PhysicalExtent, WellSized,
           SlotStart, DiskAt, Loaded, SkewTable, NextBlock, Directory.FindFileExtent, Strip;
      SameExtentFound(g, dir[..], KeyOf(like), from, pos);
      BlockAround(g, pos, count);
      ok := LoadForRead(KeyOf(like), extent, pos, count, buffer);
      nextblockpos := NextBlock(g, pos);
    }

    /** The byte branch: one byte out of the local buffer, or a zero where the file has no entry. */
    method NextByte(ghost f: Key, extent: int, pos: nat, ghost to: nat, buffer: array<byte>) returns (c: byte)
      requires Valid() && buffer.Length == LOGICAL_EXTENT && pos < to
      requires Loaded(g, Vol(), f, extent, buffer[..], pos, to)
      ensures Delivers(g, Vol(), f, pos, c) && Loaded(g, Vol(), f, extent, buffer[..], pos + 1, to)
    {
      hide ValidGeometry, AlvBits, SlackBytes, IsPermutation, BadAt, ReadByte, WellSized, DiskAt, Loaded, SkewTable;
      LoadedByte(g, Vol(), f, extent, buffer[..], pos, to);
      c := if extent == -1 then 0 else buffer[Offset(g, pos)];
    }

    /** `cpmRead`: byte by byte, looking up extents and blocks as the position crosses into them. A
        pointer behind the end of the volume stops the transfer. */
    method Read(file: File, count: nat) returns (ret: int, bytes: seq<byte>)
      requires Valid() && file.inode.ino < dir.Length
      modifies file`pos
      ensures file.pos == old(file.pos) + |bytes|
      ensures var f, total := KeyOf(dir[file.inode.ino]), Wanted(file.inode.size, old(file.pos), count);
        && |bytes| <= total
        && (|bytes| < total ==> BadAt(g, Vol(), f, file.pos))
        && DeliveredFrom(g, Vol(), f, old(file.pos), bytes)
        && ret == (if |bytes| == 0 < total then -1 else |bytes|)
        && (Mounted(g, Vol()) && 0 <= file.inode.size ==>
          bytes == V.Read(g, Vol(), f, file.inode.size, old(file.pos), count))
    {
      hide ValidGeometry, AlvBits, SlackBytes, IsPermutation, BadAt, PhysicalExtent, WellSized, PointersInRange,
           SlotStart, DiskAt, V.Read, Loaded, DeliveredFrom, Delivers, SkewTable, Directory.FindFileExtent, Strip;
      var findext, findblock, extent := true, true, -1;
      var nextblockpos: nat, nextextpos: nat := 0, 0;
      var buffer := new byte[LOGICAL_EXTENT];
      var like := dir[file.inode.ino];
      ghost var f, size, v := KeyOf(like), file.inode.size, Vol();
      ghost var pos0: nat, from: nat := file.pos, file.pos;
      bytes := [];
      NothingDelivered(g, v, f, pos0);
      while |bytes| < count && file.pos < file.inode.size
        invariant file.pos == pos0 + |bytes| && |bytes| <= Wanted(size, pos0, count) && Vol() == v
        invariant DeliveredFrom(g, v, f, pos0, bytes)
        invariant !findext ==>
          && nextextpos == SlotStart(g, PhysicalExtent(g, from) + 1, 0)
          && SlotStart(g, PhysicalExtent(g, from), 0) <= file.pos <= nextextpos
          && extent == Directory.FindFileExtent(g, dir[..], f, 0, from / LOGICAL_EXTENT)
        invariant !findext && findblock ==> file.pos < nextextpos
        invariant !findext && !findblock ==>
          && file.pos <= nextblockpos <= nextextpos
          && Loaded(g, v, f, extent, buffer[..], file.pos, Min(nextblockpos, pos0 + count))
        decreases count - |bytes|, if findext || findblock then 0 else 1
      {
        if findext {
          extent, nextextpos := LookUpExtent(like, file.pos);
          from, findext, findblock := file.pos, false, true;
        }
        if findblock {
          var ok;
          ok, nextblockpos := NextBlockForRead(like, extent, from, file.pos, count - |bytes|, buffer);
          if !ok {
            ret := if |bytes| == 0 then -1 else |bytes|;
            ReadPrefix(g, v, f, size, pos0, count, bytes);
            return;
          }
          findblock := false;
        }
        if file.pos < nextblockpos {
          var c := NextByte(f, extent, file.pos, Min(nextblockpos, pos0 + count), buffer);
          OneMoreDelivered(g, v, f, pos0, bytes, c);
          bytes := bytes + [c];
          file.pos := file.pos + 1;
        } else if file.pos == nextextpos {
          findext := true;
        } else {
          findblock := true;
        }
      }
      ret := |bytes|;
      ReadPrefix(g, v, f, size, pos0, count, bytes);
    }
  }

  /** `struct cpmInode`, as far as reading and writing need it. */
  class Inode {
    var ino: nat
    var size: int

    constructor ()
    {
      ino, size := 0, 0;
    }
  }

  /** Bytes `cpmRead` is to deliver: no more than asked, and none behind the end of the file. */
  function Wanted(size: int, pos: nat, count: nat): nat {
    if size <= pos then 0 else if count < size - pos then count else size - pos
  }

  predicate Delivers(g: Geometry, v: V.Volume, f: Key, pos: nat, c: byte)
    requires ValidGeometry(g) && WellSized(g, v)
  {
    !BadAt(g, v, f, pos) && c == ReadByte(g, v, f, pos)
  }

  /** `bytes` is what the file holds from `pos` on, and no bad block is in the way. */
  predicate DeliveredFrom(g: Geometry, v: V.Volume, f: Key, pos: nat, bytes: seq<byte>)
    requires ValidGeometry(g) && WellSized(g, v)
  {
    forall j: nat :: j < |bytes| ==> Delivers(g, v, f, pos + j, bytes[j])
  }

  lemma NothingDelivered(g: Geometry, v: V.Volume, f: Key, pos: nat)
    requires ValidGeometry(g) && WellSized(g, v)
    ensures DeliveredFrom(g, v, f, pos, [])
  {}

  lemma OneMoreDelivered(g: Geometry, v: V.Volume, f: Key, pos: nat, bytes: seq<byte>, c: byte)
    requires ValidGeometry(g) && WellSized(g, v) && DeliveredFrom(g, v, f, pos, bytes)
    requires Delivers(g, v, f, pos + |bytes|, c)
    ensures DeliveredFrom(g, v, f, pos, bytes + [c])
  {
    hide ValidGeometry, WellSized, Delivers;
  }

  /** The local buffer holds the bytes for the positions from `from` to `to`. */
  ghost predicate Loaded(g: Geometry, v: V.Volume, f: Key, extent: int, buffer: seq<byte>, from: nat, to: nat)
    requires ValidGeometry(g) && WellSized(g, v) && |buffer| == LOGICAL_EXTENT
  {
    forall p: nat :: from <= p < to ==>
      && Offset(g, p) < LOGICAL_EXTENT && !BadAt(g, v, f, p)
      && ReadByte(g, v, f, p) == if extent == -1 then 0 else buffer[Offset(g, p)]
  }

  lemma LoadedByte(g: Geometry, v: V.Volume, f: Key, extent: int, buffer: seq<byte>, from: nat, to: nat)
    requires ValidGeometry(g) && WellSized(g, v) && |buffer| == LOGICAL_EXTENT && from < to
    requires Loaded(g, v, f, extent, buffer, from, to)
    ensures Offset(g, from) < LOGICAL_EXTENT && !BadAt(g, v, f, from)
    ensures ReadByte(g, v, f, from) == if extent == -1 then 0 else buffer[Offset(g, from)]
    ensures Loaded(g, v, f, extent, buffer, from + 1, to)
  {
    hide ValidGeometry, WellSized, BadAt, ReadByte, Offset;
  }

  /** On a volume without stray pointers nothing stops the transfer. */
  lemma ReadPrefix(g: Geometry, v: V.Volume, f: Key, size: int, pos: nat, count: nat, bytes: seq<byte>)
    requires ValidGeometry(g) && WellSized(g, v) && |bytes| <= Wanted(size, pos, count)
    requires |bytes| < Wanted(size, pos, count) ==> BadAt(g, v, f, pos + |bytes|)
    requires DeliveredFrom(g, v, f, pos, bytes)
    ensures Mounted(g, v) && 0 <= size ==> bytes == V.Read(g, v, f, size, pos, count)
  {
    hide ValidGeometry, WellSized, PointersInRange, BadAt, ReadByte;
    if Mounted(g, v) && 0 <= size {
      NeverBad(g, v, f);
      assert forall j: nat :: j < |bytes| ==> Delivers(g, v, f, pos + j, bytes[j]);
    }
  }

  /** All positions of a physical extent find the same entry. */
  lemma SameExtentFound(g: Geometry, dir: seq<DirEntry>, f: Key, p: nat, q: nat)
    requires ValidGeometry(g)
    requires SlotStart(g, PhysicalExtent(g, p), 0) <= q < SlotStart(g, PhysicalExtent(g, p) + 1, 0)
    ensures PhysicalExtent(g, q) == PhysicalExtent(g, p)
    ensures Directory.FindFileExtent(g, dir, f, 0, q / LOGICAL_EXTENT) ==
      Directory.FindFileExtent(g, dir, f, 0, p / LOGICAL_EXTENT)
  {
    hide ValidGeometry, SlotStart, PhysicalExtent, Matches;
    ExtentBounds(g, q, PhysicalExtent(g, p));
    PhysicalOfLogical(g, p);
    PhysicalOfLogical(g, q);
    SameScan(g, dir, f, 0, p / LOGICAL_EXTENT, q / LOGICAL_EXTENT);
  }

  lemma {:induction false} SameScan(g: Geometry, dir: seq<DirEntry>, f: Key, start: nat, x: nat, y: nat)
    requires ValidGeometry(g) && x / g.extents == y / g.extents
    ensures Directory.FindFileExtent(g, dir, f, start, x) == Directory.FindFileExtent(g, dir, f, start, y)
    decreases |dir| - start
  {
    hide ValidGeometry, PhysicalOf, KeyOf;
    if start < |dir| {
      SameScan(g, dir, f, start + 1, x, y);
    }
  }

  lemma ExtentAround(g: Geometry, pos: nat)
    requires ValidGeometry(g)
    ensures 0 < ExtentCapacity(g)
    ensures SlotStart(g, PhysicalExtent(g, pos), 0) <= pos < SlotStart(g, PhysicalExtent(g, pos) + 1, 0)
    ensures pos / ExtentCapacity(g) * ExtentCapacity(g) + ExtentCapacity(g) ==
      SlotStart(g, PhysicalExtent(g, pos) + 1, 0)
  {
    hide ValidBlockSize, ValidExtents;
    var x := PhysicalExtent(g, pos);
    ExtentBounds(g, pos, x);
    assert (x + 1) * ExtentCapacity(g) == x * ExtentCapacity(g) + ExtentCapacity(g);
  }

  /** `nextblockpos`. */
  function NextBlock(g: Geometry, pos: nat): nat
    requires ValidGeometry(g)
  {
    pos / g.blksiz * g.blksiz + g.blksiz
  }

  /** `nextblockpos` is where the pass ends, and never behind the extent. */
  lemma BlockAround(g: Geometry, pos: nat, count: nat)
    requires ValidGeometry(g) && 0 < count
    ensures var next := NextBlock(g, pos);
      && pos < next <= SlotStart(g, PhysicalExtent(g, pos) + 1, 0)
      && pos + PassLength(g, pos, count) == if next < pos + count then next else pos + count
  {
    hide ValidGeometry, PhysicalExtent, Slot, Offset, ExtentCapacity, BlocksPerExtent;
    NextBlockIs(g, pos);
    PositionSplits(g, pos);
    CapacityInBlocks(g);
    SlotEnds(PhysicalExtent(g, pos), Slot(g, pos), BlocksPerExtent(g), g.blksiz, ExtentCapacity(g));
  }

  lemma NextBlockIs(g: Geometry, pos: nat)
    requires ValidGeometry(g)
    ensures Offset(g, pos) <= pos && NextBlock(g, pos) == pos - Offset(g, pos) + g.blksiz
  {
    NextBlockPosition(g, pos);
  }

  lemma SlotEnds(x: nat, k: nat, n: nat, blksiz: nat, capacity: nat)
    requires k < n && n * blksiz == capacity
    ensures x * capacity + k * blksiz + blksiz <= (x + 1) * capacity
  {
    MulMonotone(k + 1, n, blksiz);
    assert (k + 1) * blksiz == k * blksiz + blksiz;
    assert (x + 1) * capacity == x * capacity + capacity;
  }

  /** The sectors `cpmRead` asks for. */
  function SectorsToRead(g: Geometry, pos: nat, count: nat): (r: (nat, nat))
    requires ValidGeometry(g) && 0 < count
  {
    PositiveParts(g);
    var o := pos % g.blksiz;
    var last: nat := if o + count > g.blksiz then g.blksiz - 1 else o + count - 1;
    (Quotient(o, g.secLength), Quotient(last, g.secLength))
  }

  /** They cover the pass. */
  lemma PassSectors(g: Geometry, pos: nat, count: nat)
    requires ValidGeometry(g) && 0 < count
    ensures SectorsToRead(g, pos, count).1 < SectorsPerBlock(g)
    ensures forall j: nat :: Offset(g, pos) <= j < Offset(g, pos) + PassLength(g, pos, count) ==>
      InSectors(g, j, SectorsToRead(g, pos, count).0, LastSector(g, SectorsToRead(g, pos, count).1))
  {
    hide ValidGeometry, SectorsPerBlock, Quotient;
    PositiveParts(g);
    var o := Offset(g, pos);
    var last: nat := o + PassLength(g, pos, count) - 1;
    LastOfPass(g, last);
    forall j: nat | o <= j <= last ensures InSectors(g, j, Quotient(o, g.secLength), Quotient(last, g.secLength)) {
      BetweenSectors(g, o, j, last);
    }
  }

  lemma LastOfPass(g: Geometry, last: nat)
    requires ValidGeometry(g) && last < g.blksiz
    ensures Quotient(last, g.secLength) < SectorsPerBlock(g)
  {
    SectorOfBlock(g, 0, last);
  }

  lemma BetweenSectors(g: Geometry, o: nat, j: nat, last: nat)
    requires 0 < g.secLength && o <= j <= last
    ensures InSectors(g, j, Quotient(o, g.secLength), Quotient(last, g.secLength))
  {
    QuotientMonotone(o, j, g.secLength);
    QuotientMonotone(j, last, g.secLength);
  }

  /** The pointer `cpmRead` looks at. */
  lemma SlotIsPointer(g: Geometry, v: V.Volume, f: Key, pos: nat, extent: int)
    requires ValidGeometry(g) && extent == Directory.FindFileExtent(g, v.dir, f, 0, pos / LOGICAL_EXTENT)
    ensures BadAt(g, v, f, pos) <==> extent != -1 && g.size <= Ptr(g, v.dir[extent], Slot(g, pos))
  {}

  /** Inside one block only the offset moves. */
  lemma DeliveredInBlock(g: Geometry, v: V.Volume, f: Key, pos: nat, p: nat, extent: int)
    requires ValidGeometry(g) && WellSized(g, v)
    requires extent == Directory.FindFileExtent(g, v.dir, f, 0, pos / LOGICAL_EXTENT)
    requires pos <= p && Offset(g, pos) + (p - pos) < g.blksiz && !BadAt(g, v, f, pos)
    ensures !BadAt(g, v, f, p) && Offset(g, p) == Offset(g, pos) + (p - pos)
    ensures ReadByte(g, v, f, p) ==
      if extent == -1 then 0
      else
        var b := Ptr(g, v.dir[extent], Slot(g, pos));
        if b == 0 then 0 else v.data[b][Offset(g, p)]
  {
    hide ValidGeometry, Slot, Offset, PhysicalExtent;
    SameBlock(g, pos, p - pos);
    PhysicalOfLogical(g, pos);
    PhysicalOfLogical(g, p);
    SameScan(g, v.dir, f, 0, pos / LOGICAL_EXTENT, p / LOGICAL_EXTENT);
  }

  /** A scan only depends on the entries from its start on. */
  lemma {:induction false} SameTail(g: Geometry, dir: seq<DirEntry>, dir': seq<DirEntry>, f: Key, start: nat)
    requires ValidGeometry(g) && |dir'| == |dir| && forall i :: start <= i < |dir| ==> dir'[i] == dir[i]
    ensures Directory.FindFileExtent(g, dir', f, start, -1) == Directory.FindFileExtent(g, dir, f, start, -1)
    decreases |dir| - start
  {
    hide ValidGeometry, Matches;
    if start < |dir| {
      SameTail(g, dir, dir', f, start + 1);
    }
  }

  lemma PatchedWhole(g: Geometry, block: seq<byte>, bytes: seq<byte>)
    requires ValidGeometry(g) && |block| == |bytes| == g.blksiz
    ensures Patched(g, block, bytes, 0, LastSector(g, -1)) == bytes
  {
    hide ValidBlockSize, ValidExtents, InSectors, LastSector;
    forall o: nat ensures InSectors(g, o, 0, LastSector(g, -1)) <==> o < g.blksiz {
      WholeBlock(g, o);
    }
  }

  lemma EntryEndSteps(g: Geometry, e: DirEntry)
    ensures EntryEnd(g, e) == ExtentNumber(e) * LOGICAL_EXTENT +
      if e.blkcnt == 0 then 0 else (e.blkcnt - 1) * 128 + if g.os.exactSize then 128 - e.lrc
        else if e.lrc != 0 then e.lrc else 128
  {}

  /** Entries that do not match change neither extreme. */
  lemma {:induction false} SkipToMatch(g: Geometry, dir: seq<DirEntry>, f: Key, from: nat, to: nat)
    requires ValidGeometry(g) && from <= to <= |dir| && forall i :: from <= i < to ==> !Matches(g, dir[i], f, -1)
    ensures HighestEntry(g, dir, f, to) == HighestEntry(g, dir, f, from)
    ensures LowestEntry(g, dir, f, to) == LowestEntry(g, dir, f, from)
  {
    hide ValidGeometry, Matches, ExtentNumber;
    if from < to {
      SkipToMatch(g, dir, f, from, to - 1);
    }
  }

  lemma NoExtremes(g: Geometry, dir: seq<DirEntry>, f: Key)
    requires ValidGeometry(g)
    ensures HighestEntry(g, dir, f, 0) == LowestEntry(g, dir, f, 0) == -1
  {}

  /** One step of the scan, from one match to behind the entries up to the next. */
  lemma ExtremesAfter(g: Geometry, dir: seq<DirEntry>, f: Key, i: nat, next: nat)
    requires ValidGeometry(g) && i < next <= |dir| && Matches(g, dir[i], f, -1)
    requires forall j :: i < j < next ==> !Matches(g, dir[j], f, -1)
    ensures var h, l := HighestEntry(g, dir, f, i), LowestEntry(g, dir, f, i);
      && HighestEntry(g, dir, f, next) == (if h == -1 || ExtentNumber(dir[i]) > ExtentNumber(dir[h]) then i else h)
      && LowestEntry(g, dir, f, next) == (if l == -1 || ExtentNumber(dir[i]) < ExtentNumber(dir[l]) then i else l)
  {
    hide ValidGeometry, Matches, ExtentNumber, HighestEntry, LowestEntry;
    HighestOf(g, dir, f, i);
    LowestOf(g, dir, f, i);
    SkipToMatch(g, dir, f, i + 1, next);
  }

  lemma HighestOf(g: Geometry, dir: seq<DirEntry>, f: Key, i: nat)
    requires ValidGeometry(g) && i < |dir| && Matches(g, dir[i], f, -1)
    ensures var h := HighestEntry(g, dir, f, i);
      HighestEntry(g, dir, f, i + 1) == if h == -1 || ExtentNumber(dir[i]) > ExtentNumber(dir[h]) then i else h
  {
    hide ValidGeometry, Matches, ExtentNumber;
  }

  lemma LowestOf(g: Geometry, dir: seq<DirEntry>, f: Key, i: nat)
    requires ValidGeometry(g) && i < |dir| && Matches(g, dir[i], f, -1)
    ensures var l := LowestEntry(g, dir, f, i);
      LowestEntry(g, dir, f, i + 1) == if l == -1 || ExtentNumber(dir[i]) < ExtentNumber(dir[l]) then i else l
  {
    hide ValidGeometry, Matches, ExtentNumber;
  }

  lemma WholeWords(g: Geometry)
    requires ValidGeometry(g)
    ensures AlvBits(g) / 32 * 32 == AlvBits(g)
  {
    hide ValidGeometry;
  }

  /** The disk with the first `n` directory blocks written. */
  function SyncedBlocks(g: Geometry, dir: seq<DirEntry>, slack: seq<byte>, disk: seq<seq<byte>>, n: nat): seq<seq<byte>>
    requires ValidGeometry(g) && |dir| == g.maxdir && |slack| == SlackBytes(g) && n <= DirectoryBlocks(g)
  {
    seq(|disk|, b requires 0 <= b < |disk| => if b < n then DirectoryBlock(g, dir, slack, b) else disk[b])
  }

  lemma NothingAdvanced(g: Geometry)
    requires ValidGeometry(g)
    ensures ExtentAdvance(g, 0) == 0
  {
    CapacityIsLogical(g);
  }

  /** `nextblockpos`. */
  lemma NextBlockPosition(g: Geometry, pos: nat)
    requires ValidGeometry(g)
    ensures 0 < g.blksiz && Offset(g, pos) <= pos
    ensures pos / g.blksiz * g.blksiz + g.blksiz == pos - Offset(g, pos) + g.blksiz
  {
    hide ValidGeometry;
    PositiveParts(g);
    DivModEquation(pos, g.blksiz);
  }

  lemma PassFits(g: Geometry, pos: nat, count: nat)
    requires ValidGeometry(g) && 0 < count
    ensures Offset(g, pos) + PassLength(g, pos, count) <= g.blksiz <= LOGICAL_EXTENT
  {
    BlockFitsBuffer(g);
  }

  /** The sectors `cpmWrite` names are the ones `WrittenBack` replaces. */
  lemma PatchedIsWrittenBack(g: Geometry, filled: seq<byte>, block: seq<byte>, isNew: bool, o: nat, n: nat)
    requires ValidGeometry(g) && |filled| == LOGICAL_EXTENT && |block| == g.blksiz && 0 < n && o + n <= g.blksiz
    ensures var start := if isNew then 0 else o / g.secLength;
      var end := if isNew then (g.blksiz - 1) / g.secLength else (o + n - 1) / g.secLength;
      end < SectorsPerBlock(g) && Patched(g, block, filled, start, end) == WrittenBack(g, filled, block, isNew, o, n)
  {
    hide ValidBlockSize, ValidExtents, SectorStart, InSectors;
    PositiveParts(g);
    BlockFitsBuffer(g);
    var first, last := if isNew then 0 else o, if isNew then g.blksiz - 1 else o + n - 1;
    SectorOfBlock(g, 0, last);
    DivModUnique(0, g.secLength, 0, 0);
    var patched := Patched(g, block, filled, first / g.secLength, last / g.secLength);
    forall j | 0 <= j < g.blksiz ensures patched[j] == WrittenBack(g, filled, block, isNew, o, n)[j] {
      SectorsBetween(g, first, last, j);
    }
  }

  lemma SectorsBetween(g: Geometry, i: nat, k: nat, j: nat)
    requires ValidGeometry(g) && i < g.blksiz && k < g.blksiz && j < g.blksiz
    ensures InSectors(g, j, i / g.secLength, k / g.secLength) <==>
      SectorStart(g, i) <= j < SectorStart(g, k) + g.secLength
    ensures i == 0 && j <= k ==> InSectors(g, j, i / g.secLength, k / g.secLength)
  {
    hide ValidBlockSize, ValidExtents;
    BetweenQuotients(i, k, j, g.secLength);
    if j <= k {
      QuotientMonotone(j, k, g.secLength);
    }
  }

  lemma BetweenQuotients(i: nat, k: nat, j: nat, d: nat)
    requires 0 < d
    ensures i / d <= j / d <= k / d <==> i / d * d <= j < k / d * d + d
    ensures 0 / d == 0
  {
    DivModEquation(j, d);
    DivModUnique(0, d, 0, 0);
    QuotientFloor(i / d, j, d);
    QuotientFloor(k / d + 1, j, d);
    assert (k / d + 1) * d == k / d * d + d;
  }

  lemma QuotientFloor(q: nat, j: nat, d: nat)
    requires 0 < d
    ensures q <= j / d <==> q * d <= j
  {
    DivModEquation(j, d);
    if q <= j / d {
      MulMonotone(q, j / d, d);
    } else {
      MulMonotone(j / d + 1, q, d);
      assert (j / d + 1) * d == j / d * d + d;
    }
  }

  /** The sector number of an offset, as a range of offsets. */
  lemma SectorOfOffset(g: Geometry, j: nat)
    requires ValidGeometry(g) && j < g.blksiz
    ensures j / g.secLength < SectorsPerBlock(g)
    ensures forall o: nat :: InSectors(g, o, j / g.secLength, j / g.secLength) <==>
      SectorStart(g, j) <= o < SectorStart(g, j) + g.secLength
  {
    hide ValidBlockSize, ValidExtents;
    SectorOfBlock(g, 0, j);
    forall o: nat
      ensures InSectors(g, o, j / g.secLength, j / g.secLength) <==>
        SectorStart(g, j) <= o < SectorStart(g, j) + g.secLength
    {
      SectorRange(g.secLength, j / g.secLength, o);
    }
  }

  /** Where a pass ends, as `cpmWrite` computes it from the remaining count. */
  lemma PassEnd(g: Geometry, pos: nat, count: nat)
    requires ValidGeometry(g) && 0 < count
    ensures var o, n := Offset(g, pos), PassLength(g, pos, count);
      && (o + count >= g.blksiz <==> o + n == g.blksiz)
      && (o + count < g.blksiz ==> n == count)
  {
    hide ValidBlockSize, ValidExtents;
  }

  /** Sector boundaries of the file are sector boundaries of the block. */
  lemma SectorAlignment(g: Geometry, pos: nat, count: nat)
    requires ValidGeometry(g) && 0 < count
    ensures var o, n := Offset(g, pos), PassLength(g, pos, count);
      && pos % g.secLength == o % g.secLength
      && (o + count < g.blksiz ==> (pos + count) % g.secLength == (o + count) % g.secLength)
      && (SectorStart(g, o + n - 1) != SectorStart(g, o) <==> (o + n - 1) / g.secLength != o / g.secLength)
  {
    hide ValidGeometry, SectorStart, PassLength;
    PositiveParts(g);
    var o, n := Offset(g, pos), PassLength(g, pos, count);
    OffsetAlignment(g, pos);
    if o + count < g.blksiz {
      OffsetLater(pos, count, g.blksiz);
      OffsetAlignment(g, pos + count);
    }
    SectorStartsDiffer(g, o + n - 1, o);
  }

  /** Which sectors of an existing block are written back, and which are fetched first. */
  datatype Plan = Plan(start: nat, end: nat, first: nat, needFirst: bool, last: nat, needLast: bool)

  /** The conditions of `cpmWrite`, as it tests them. */
  function PlanFor(g: Geometry, pos: nat, count: nat): Plan
    requires ValidGeometry(g) && 0 < count
  {
    hide ValidGeometry;
    PositiveParts(g);
    var o := pos % g.blksiz;
    var start := o / g.secLength;
    var end := (if o + count >= g.blksiz then g.blksiz - 1 else o + count - 1) / g.secLength;
    Plan(start, end, o, pos % g.secLength != 0,
         o + count - 1, end != start && o + count < g.blksiz && (pos + count) % g.secLength != 0)
  }

  lemma PreparedByPlan(g: Geometry, buffer: seq<byte>, block: seq<byte>, pos: nat, count: nat)
    requires ValidGeometry(g) && |buffer| == LOGICAL_EXTENT && |block| == g.blksiz && 0 < count
    ensures var o, n, plan := Offset(g, pos), PassLength(g, pos, count), PlanFor(g, pos, count);
      && plan.start == o / g.secLength && plan.end == (o + n - 1) / g.secLength
      && (plan.needFirst ==> plan.first < g.blksiz) && (plan.needLast ==> plan.last < g.blksiz)
      && Prepared(g, buffer, block, false, o, n) ==
           var fetched := if plan.needFirst then FetchSector(g, buffer, block, plan.first) else buffer;
           if plan.needLast then FetchSector(g, fetched, block, plan.last) else fetched
  {
    hide ValidGeometry, SectorStart, PassLength, FetchSector;
    PositiveParts(g);
    PassEnd(g, pos, count);
    SectorAlignment(g, pos, count);
  }

  lemma OffsetLater(pos: nat, count: nat, d: nat)
    requires 0 < d && pos % d + count < d
    ensures (pos + count) % d == pos % d + count
  {
    DivModEquation(pos, d);
    DivModUnique(pos + count, d, pos / d, pos % d + count);
  }

  lemma SectorStartsDiffer(g: Geometry, i: nat, j: nat)
    requires ValidGeometry(g) && i < g.blksiz && j < g.blksiz
    ensures SectorStart(g, i) != SectorStart(g, j) <==> i / g.secLength != j / g.secLength
  {
    hide ValidBlockSize, ValidExtents;
    MulDistinct(i / g.secLength, j / g.secLength, g.secLength);
  }

  lemma MulDistinct(a: nat, b: nat, c: nat)
    requires 0 < c
    ensures a * c == b * c <==> a == b
  {
    DivModUnique(a * c, c, a, 0);
    DivModUnique(b * c, c, b, 0);
  }

  lemma OffsetAlignment(g: Geometry, pos: nat)
    requires ValidGeometry(g)
    ensures pos % g.secLength == pos % g.blksiz % g.secLength
  {
    hide ValidBlockSize, ValidExtents;
    DivModEquation(g.blksiz, g.secLength);
    SectorOfBlock(g, 0, 0);
    ModOfMultiple(pos, SectorsPerBlock(g), g.secLength);
  }

  /** `struct cpmFile`. */
  class File {
    const inode: Inode
    var pos: nat

    /** `cpmOpen`. */
    constructor (inode: Inode)
      ensures this.inode == inode && pos == 0
    {
      this.inode, pos := inode, 0;
    }
  }

  lemma StrippedTwin(g: Geometry, f: Key)
    requires ValidKey(g, f)
    ensures f.user + 16 < 256 && Key(f.user + 16, Strip(f.name), Strip(f.ext)) == Twin(f)
  {}

  lemma WriteUnfolds(g: Geometry, v: V.Volume, ino: nat, pos: nat, cursor: Option<Cursor>, data: seq<byte>,
                     buffer: seq<byte>, clock: Clock)
    requires Writable(g, v, ino, cursor, buffer) && 0 < |data|
    ensures var step := WritePassAt(g, v, ino, pos, cursor, data, buffer, clock);
      if step.Full? then WriteAt(g, v, ino, pos, cursor, data, buffer, clock) == WriteResult(step.vol, 0, true, buffer)
      else
        0 < step.n <= |data| && Writable(g, step.vol, ino, step.cursor, step.buffer) &&
        WriteAt(g, v, ino, pos, cursor, data, buffer, clock) ==
          var rest := WriteAt(g, step.vol, ino, pos + step.n, step.cursor, data[step.n..], step.buffer, clock);
          rest.(got := step.n + rest.got)
  {
    hide WritePassAt, WritePass, Writable, Alike;
    AlikeItself(v);
    PassAlike(g, v, v, ino, pos, cursor, data, buffer, clock);
  }

  lemma WriteEnds(g: Geometry, v: V.Volume, ino: nat, pos: nat, cursor: Option<Cursor>, data: seq<byte>,
                  buffer: seq<byte>, clock: Clock)
    requires Writable(g, v, ino, cursor, buffer) && |data| == 0
    ensures WriteAt(g, v, ino, pos, cursor, data, buffer, clock) == WriteResult(v, 0, false, buffer)
  {}

  lemma SplitIsStripped(g: Geometry, fname: seq<byte>)
    requires SplitFilename(g, fname).Some?
    ensures var f := SplitFilename(g, fname).value;
      ValidKey(g, f) && Strip(f.name) == f.name && Strip(f.ext) == f.ext &&
        Key(f.user, Strip(f.name), Strip(f.ext)) == f
  {
    SplitIsValid(g, fname);
  }

  lemma BitExists(g: Geometry)
    requires ValidGeometry(g)
    ensures 0 < g.dirblks <= g.size <= AlvBits(g)
  {
    AlvCoversVolume(g);
  }

  /** Sectors 0 to the last one are the whole block. */
  lemma WholeBlock(g: Geometry, o: nat)
    requires ValidGeometry(g)
    ensures InSectors(g, o, 0, LastSector(g, -1)) <==> o < g.blksiz
  {
    hide ValidBlockSize, ValidExtents;
    DivModEquation(g.blksiz, g.secLength);
    var n := SectorsPerBlock(g);
    if o < g.blksiz {
      SectorOfBlock(g, 0, o);
    } else {
      QuotientMonotone(g.blksiz, o, g.secLength);
    }
  }

  method ReadWholeBlock(dev: Device, skewtab: array<nat>, b: nat, buffer: array<byte>)
    requires ValidGeometry(dev.g) && SkewTable(dev.g, skewtab[..]) && b < dev.g.size && dev.g.blksiz <= buffer.Length
    modifies buffer
    ensures buffer[..dev.g.blksiz] == BlockAt(dev.g, skewtab[..], dev.image, b)
  {
    hide ValidGeometry, Address, LastSector, InSectors;
    PositiveParts(dev.g);
    forall o: nat ensures InSectors(dev.g, o, 0, LastSector(dev.g, -1)) <==> o < dev.g.blksiz {
      WholeBlock(dev.g, o);
    }
    var r := ReadBlock(dev, skewtab, b, buffer, 0, -1);
  }

  lemma DirectoryBlockBytes(g: Geometry, disk: seq<seq<byte>>, i: nat)
    requires ValidGeometry(g) && IsDisk(g, disk) && i < DirectoryBlocks(g)
    ensures i < g.size && i * g.blksiz + g.blksiz <= 32 * g.maxdir + SlackBytes(g)
    ensures forall o: nat :: o < g.blksiz ==> BufferByte(g, disk, i * g.blksiz + o) == disk[i][o]
  {
    hide ValidBlockSize, ValidExtents;
    DirectoryFits(g);
    InDirectoryBuffer(g, i, g.blksiz - 1);
    forall o: nat | o < g.blksiz ensures BufferByte(g, disk, i * g.blksiz + o) == disk[i][o] {
      DivModUnique(i * g.blksiz + o, g.blksiz, i, o);
    }
  }

  method ParseDirectory(g: Geometry, bytes: seq<byte>) returns (dir: array<DirEntry>)
    requires 32 * g.maxdir <= |bytes|
    ensures fresh(dir) && dir.Length == g.maxdir
    ensures forall i :: 0 <= i < g.maxdir ==> dir[i] == ParseEntry(bytes[32 * i..32 * i + 32])
  {
    dir := new DirEntry[g.maxdir](_ => FreshEntry(Key(0, BLANKS8, BLANKS3)));
    for i := 0 to g.maxdir
      invariant forall j :: 0 <= j < i ==> dir[j] == ParseEntry(bytes[32 * j..32 * j + 32])
    {
      dir[i] := ParseEntry(bytes[32 * i..32 * i + 32]);
    }
  }

  lemma MountedParts(g: Geometry, disk: seq<seq<byte>>, bytes: seq<byte>, dir: seq<DirEntry>)
    requires ValidGeometry(g) && IsDisk(g, disk) && |bytes| == 32 * g.maxdir + SlackBytes(g) && |dir| == g.maxdir
    requires forall a :: 0 <= a < |bytes| ==> bytes[a] == BufferByte(g, disk, a)
    requires forall i :: 0 <= i < g.maxdir ==> dir[i] == ParseEntry(bytes[32 * i..32 * i + 32])
    ensures Persistence.Mount(g, disk) == V.Volume(dir, bytes[32 * g.maxdir..], AlvOf(g, dir), disk, false)
  {
    hide ValidGeometry, SlackBytes, AlvOf, ParseEntry, BufferByte;
    var m := Persistence.Mount(g, disk);
    forall i | 0 <= i < g.maxdir ensures m.dir[i] == dir[i] {
      assert EntryOnDisk(g, disk, i) == bytes[32 * i..32 * i + 32];
    }
    assert m.dir == dir;
    assert m.slack == bytes[32 * g.maxdir..];
  }

  /** The first blocks of the volume, as `cpmReadSuper` reads them into the directory buffer. */
  method ReadDirectory(g: Geometry, dev: Device, skewtab: array<nat>) returns (bytes: seq<byte>)
    requires ValidGeometry(g) && dev.g == g && SkewTable(g, skewtab[..])
    ensures |bytes| == 32 * g.maxdir + SlackBytes(g)
    ensures forall a :: 0 <= a < |bytes| ==> bytes[a] == BufferByte(g, DiskAt(g, skewtab[..], dev.image), a)
  {
    hide ValidGeometry, BlockAt, SectorsPerBlock, Address, DirectoryBlocks, SlackBytes, BufferByte;
    DirectoryFits(g);
    ghost var disk := DiskAt(g, skewtab[..], dev.image);
    var buffer := new byte[g.blksiz];
    bytes := [];
    for i := 0 to DirectoryBlocks(g)
      invariant |bytes| == i * g.blksiz && i * g.blksiz <= 32 * g.maxdir + SlackBytes(g)
      invariant forall a :: 0 <= a < |bytes| ==> bytes[a] == BufferByte(g, disk, a)
    {
      DirectoryBlockBytes(g, disk, i);
      ReadWholeBlock(dev, skewtab, i, buffer);
      assert buffer[..] == disk[i];
      bytes := bytes + buffer[..];
    }
    BufferSize(g);
  }

  lemma BufferSize(g: Geometry)
    requires ValidGeometry(g)
    ensures DirectoryBlocks(g) * g.blksiz == 32 * g.maxdir + SlackBytes(g)
  {}

  lemma FirstFreeIs(alv: seq<bool>, b: nat)
    requires b <= |alv| && (forall j :: 0 <= j < b ==> alv[j]) && (b < |alv| ==> !alv[b])
    ensures FirstFree(alv, 0) == b
  {}
}
