/** `cpmcp`: copying a file onto the volume and back, through `cpmWrite` and `cpmRead`. */
module Cpmcp {
  import opened Wrappers
  import opened Arithmetic
  import opened Geometry
  import opened Directory
  import opened V = Volume
  import opened Invariant
  import opened Refinement
  import opened Stamps
  import opened Runs
  import opened Blocks
  import opened FileSystem
  import opened Text
  import opened Sizes
  import opened FsckClean
  import opened Miscount
  import Fsck

  // ----- the calls of a copy -------------------------------------------------------------------------

  lemma {:induction false} WriteMounted(g: Geometry, v: V.Volume, ino: nat, pos: nat, cursor: Option<Cursor>,
                                        data: seq<byte>, buffer: seq<byte>)
    requires Writable(g, v, ino, cursor, buffer)
    ensures var r := V.Write(g, v, ino, pos, cursor, data, buffer);
      && Mounted(g, r.vol) && ino < |r.vol.dir| && Live(g, r.vol.dir[ino])
      && (r.failed ==> r.got < |data|)
    decreases |data|
  {
    hide ValidGeometry, WellSized, PointersInRange, WritePass, Live;
    if |data| > 0 {
      var step := WritePass(g, v, ino, pos, cursor, data, buffer);
      if step.Full? {
        FullKeepsMounted(g, v, ino, pos, cursor, data, buffer);
      } else {
        WriteMounted(g, step.vol, ino, pos + step.n, step.cursor, data[step.n..], step.buffer);
      }
    }
  }

  lemma FullKeepsMounted(g: Geometry, v: V.Volume, ino: nat, pos: nat, cursor: Option<Cursor>, data: seq<byte>,
                         buffer: seq<byte>)
    requires Writable(g, v, ino, cursor, buffer) && 0 < |data|
    requires WritePass(g, v, ino, pos, cursor, data, buffer).Full?
    ensures var w := WritePass(g, v, ino, pos, cursor, data, buffer).vol;
      Mounted(g, w) && ino < |w.dir| && Live(g, w.dir[ino])
  {
    hide ValidGeometry, WellSized, PointersInRange, OpenExtent, OpenBlock, V.StorePass, Live;
    if cursor.None? && OpenExtent(g, v, ino, pos).Some? {
      OpenExtentMounted(g, v, ino, pos);
    }
  }

  ghost predicate Ready(g: Geometry, v: V.Volume, ino: nat) {
    Mounted(g, v) && ino < |v.dir| && Live(g, v.dir[ino])
  }

  predicate BuffersOk(calls: seq<Chunk>) {
    forall k :: 0 <= k < |calls| ==> |calls[k].buffer| == LOGICAL_EXTENT
  }

  datatype Sending = Sending(vol: V.Volume, ok: bool)

  /** `cpmWrite` call after `cpmWrite` call, up to the first that stores less than asked. */
  ghost function Sent(g: Geometry, v: V.Volume, ino: nat, pos: nat, calls: seq<Chunk>): (r: Sending)
    requires Ready(g, v, ino) && BuffersOk(calls)
    ensures Ready(g, r.vol, ino)
    decreases |calls|
  {
    if calls == [] then Sending(v, true)
    else
      WriteMounted(g, v, ino, pos, None, calls[0].data, calls[0].buffer);
      var r := V.Write(g, v, ino, pos, None, calls[0].data, calls[0].buffer);
      if r.failed then Sending(r.vol, false) else Sent(g, r.vol, ino, pos + |calls[0].data|, calls[1..])
  }

  lemma {:induction false} SentOneMore(g: Geometry, v: V.Volume, ino: nat, pos: nat, calls: seq<Chunk>, c: Chunk)
    requires Ready(g, v, ino) && BuffersOk(calls) && |c.buffer| == LOGICAL_EXTENT
    ensures BuffersOk(calls + [c])
    ensures !Sent(g, v, ino, pos, calls).ok ==> Sent(g, v, ino, pos, calls + [c]) == Sent(g, v, ino, pos, calls)
    ensures Sent(g, v, ino, pos, calls).ok ==>
      var r := V.Write(g, Sent(g, v, ino, pos, calls).vol, ino, pos + |Concat(calls)|, None, c.data, c.buffer);
      Sent(g, v, ino, pos, calls + [c]) == Sending(r.vol, !r.failed)
    decreases |calls|
  {
    hide ValidGeometry, Mounted, Live, V.Write;
    var all := calls + [c];
    if calls == [] {
      assert all[1..] == [];
    } else {
      assert all[1..] == calls[1..] + [c];
      WriteMounted(g, v, ino, pos, None, calls[0].data, calls[0].buffer);
      var r := V.Write(g, v, ino, pos, None, calls[0].data, calls[0].buffer);
      SentOneMore(g, r.vol, ino, pos + |calls[0].data|, calls[1..], c);
    }
  }

  lemma {:induction false} ConcatOneMore(calls: seq<Chunk>, c: Chunk)
    ensures Concat(calls + [c]) == Concat(calls) + c.data
  {
    if calls == [] {
      assert ([c])[1..] == [];
    } else {
      assert (calls + [c])[1..] == calls[1..] + [c];
      ConcatOneMore(calls[1..], c);
    }
  }

  function Datas(calls: seq<Chunk>): (r: seq<seq<byte>>)
    ensures |r| == |calls|
  {
    seq(|calls|, k requires 0 <= k < |calls| => calls[k].data)
  }

  lemma {:induction false} ConcatIsFlatten(calls: seq<Chunk>)
    ensures Concat(calls) == Flatten(Datas(calls))
  {
    if calls != [] {
      ConcatIsFlatten(calls[1..]);
      assert Datas(calls)[1..] == Datas(calls[1..]);
    }
  }

  /** The copy of one file onto the volume. `calls` are the `cpmWrite` calls it made, `v` is the volume but for its
      time stamps. */
  method UnixToCpm(sb: SuperBlock, file: File, ufp: seq<byte>, text: bool, clocks: nat -> Clock, ghost v: V.Volume)
    returns (ok: bool, ghost calls: seq<Chunk>)
    requires sb.Valid() && NoMpmDates(sb.g) && StampsFit(sb.g)
    requires Ready(sb.g, v, file.inode.ino) && Alike(v, sb.Vol())
    modifies sb.dir, sb.alv, sb.dev`image, sb`dirtyDirectory, file, file.inode
    ensures sb.Valid() && BuffersOk(calls)
    ensures var r := Sent(sb.g, v, old(file.inode.ino), old(file.pos), calls); r.ok == ok && Alike(r.vol, sb.Vol())
    ensures if ok then Datas(calls) == Chunks(ufp, text) else Datas(calls) <= Chunks(ufp, text)
  {
    hide ValidGeometry, Mounted, Live, WriteAt, Chunks, AlvBits, SlackBytes, DiskAt, Sent, Datas, Concat, BuffersOk,
         SkewTable, Taken, AtEof, FileText, Encode, Alike, Ready;
    ghost var g, ino, pos := sb.g, file.inode.ino, file.pos;
    var buf := new byte[4097];
    var at, eof, n := 0, false, 0;
    ok, calls := true, [];
    NothingSent(g, v, ino, pos);
    assert ufp[0..] == ufp;
    while !eof
      invariant sb.Valid() && ok && file.inode.ino == ino && BuffersOk(calls) && file.pos == pos + |Concat(calls)|
      invariant Sent(g, v, ino, pos, calls).ok && Alike(Sent(g, v, ino, pos, calls).vol, sb.Vol())
      invariant at <= |ufp| && Datas(calls) + (if eof then [] else Chunks(ufp[at..], text)) == Chunks(ufp, text)
      decreases |ufp| - at, !eof
    {
      var j, next;
      j, next, eof := FillChunk(ufp, at, text, buf);
      ChunkDone(ufp, at, text, buf[..j], Datas(calls));
      ok, calls := WriteChunkOut(sb, file, buf[..j], clocks(n), v, pos, calls);
      at, n := next, n + 1;
      if !ok {
        break;
      }
    }
  }

  lemma ChunkDone(ufp: seq<byte>, at: nat, text: bool, data: seq<byte>, done: seq<seq<byte>>)
    requires at <= |ufp| && done + Chunks(ufp[at..], text) == Chunks(ufp, text)
    requires var next := at + Taken(ufp[at..], text, 0);
      data == if AtEof(ufp[at..], text) then FileText(ufp[at..next], text) else Encode(ufp[at..next], text)
    ensures var next, eof := at + Taken(ufp[at..], text, 0), AtEof(ufp[at..], text);
      && next <= |ufp| && done + [data] <= Chunks(ufp, text) && (!eof ==> at < next)
      && done + [data] + (if eof then [] else Chunks(ufp[next..], text)) == Chunks(ufp, text)
  {
    hide Chunks, Taken, AtEof, FileText, Encode;
    ChunksUnfold(ufp, at, text);
    var rest := if AtEof(ufp[at..], text) then [] else Chunks(ufp[at + Taken(ufp[at..], text, 0)..], text);
    assert Chunks(ufp[at..], text) == [data] + rest;
    assert done + [data] + rest == done + ([data] + rest);
  }

  /** One chunk handed to `cpmWrite`, after `calls`. */
  method WriteChunkOut(sb: SuperBlock, file: File, data: seq<byte>, clock: Clock, ghost v: V.Volume, ghost pos: nat,
                       ghost calls: seq<Chunk>)
    returns (ok: bool, ghost calls': seq<Chunk>)
    requires sb.Valid() && NoMpmDates(sb.g) && StampsFit(sb.g) && Ready(sb.g, v, file.inode.ino) && BuffersOk(calls)
    requires var r := Sent(sb.g, v, file.inode.ino, pos, calls); r.ok && Alike(r.vol, sb.Vol())
    requires file.pos == pos + |Concat(calls)|
    modifies sb.dir, sb.alv, sb.dev`image, sb`dirtyDirectory, file, file.inode
    ensures sb.Valid() && file.inode.ino == old(file.inode.ino)
    ensures BuffersOk(calls') && Datas(calls') == Datas(calls) + [data]
    ensures var r := Sent(sb.g, v, file.inode.ino, pos, calls'); r.ok == ok && Alike(r.vol, sb.Vol())
    ensures ok ==> file.pos == pos + |Concat(calls')|
  {
    hide ValidGeometry, Mounted, Live, WriteAt, AlvBits, SlackBytes, DiskAt, Sent, Datas, Concat, BuffersOk, SkewTable,
         Alike;
    ghost var w := sb.Vol();
    ReadyAlike(sb.g, Sent(sb.g, v, file.inode.ino, pos, calls).vol, w, file.inode.ino);
    var ret, junk := sb.Write(file, data, clock);
    ghost var c := Chunk(data, junk);
    OneMoreCall(sb.g, v, file.inode.ino, pos, calls, c, w, clock);
    ok, calls' := ret == |data|, calls + [c];
  }

  lemma ReadyAlike(g: Geometry, v: V.Volume, w: V.Volume, ino: nat)
    requires Ready(g, v, ino) && Alike(v, w)
    ensures Ready(g, w, ino)
  {
    hide Mounted;
    MountedAlike(g, v, w);
  }

  /** One more call, and what became of it. */
  lemma OneMoreCall(g: Geometry, v: V.Volume, ino: nat, pos: nat, calls: seq<Chunk>, c: Chunk, w: V.Volume,
                    clock: Clock)
    requires Ready(g, v, ino) && BuffersOk(calls) && |c.buffer| == LOGICAL_EXTENT && Sent(g, v, ino, pos, calls).ok
    requires Alike(Sent(g, v, ino, pos, calls).vol, w) && Ready(g, w, ino)
    ensures BuffersOk(calls + [c]) && Datas(calls + [c]) == Datas(calls) + [c.data] &&
      Concat(calls + [c]) == Concat(calls) + c.data
    ensures var r, s := WriteAt(g, w, ino, pos + |Concat(calls)|, None, c.data, c.buffer, clock),
                        Sent(g, v, ino, pos, calls + [c]);
      && s.ok == !r.failed && Alike(s.vol, r.vol) && (r.failed <==> r.got != |c.data|) && r.got <= |c.data|
  {
    hide ValidGeometry, Mounted, Live, V.Write, WriteAt, Alike;
    SentOneMore(g, v, ino, pos, calls, c);
    ConcatOneMore(calls, c);
    WriteMounted(g, Sent(g, v, ino, pos, calls).vol, ino, pos + |Concat(calls)|, None, c.data, c.buffer);
    WriteAlike(g, Sent(g, v, ino, pos, calls).vol, w, ino, pos + |Concat(calls)|, None, c.data, c.buffer, clock);
  }

  lemma NothingSent(g: Geometry, v: V.Volume, ino: nat, pos: nat)
    requires Ready(g, v, ino)
    ensures BuffersOk([]) && Datas([]) == [] && Concat([]) == []
    ensures Sent(g, v, ino, pos, []) == Sending(v, true)
  {}

  lemma ChunksUnfold(ufp: seq<byte>, at: nat, text: bool)
    requires at <= |ufp|
    ensures var s := ufp[at..];
      var next := at + Taken(s, text, 0);
      Chunks(s, text) == if AtEof(s, text) then [FileText(ufp[at..next], text)]
        else [Encode(ufp[at..next], text)] + Chunks(ufp[next..], text)
    ensures !AtEof(ufp[at..], text) ==> 0 < Taken(ufp[at..], text, 0)
  {
    hide Encode, EncodeChar, Taken;
    var s := ufp[at..];
    var next := at + Taken(s, text, 0);
    TakenFillsChunk(s, text, 0);
    assert s[..Taken(s, text, 0)] == ufp[at..next] && s[Taken(s, text, 0)..] == ufp[next..];
  }

  /** The copy of one file from the volume: what is left of it from the current position. */
  method CpmToUnix(sb: SuperBlock, file: File, text: bool) returns (out: seq<byte>)
    requires sb.Valid() && Mounted(sb.g, sb.Vol()) && file.inode.ino < sb.dir.Length && 0 <= file.inode.size
    modifies file`pos
    ensures var size := file.inode.size;
      var all := V.Read(sb.g, sb.Vol(), KeyOf(sb.dir[file.inode.ino]), size, old(file.pos), size);
      out == if text then Decode(START, all).1 else all
  {
    hide ValidGeometry, Mounted, Live, AlvBits, SlackBytes, DiskAt, Decode, V.Read, BadAt, ReadByte, DeliveredFrom;
    ghost var g, v, f, size, pos0 := sb.g, sb.Vol(), KeyOf(sb.dir[file.inode.ino]), file.inode.size, file.pos;
    ghost var all: seq<byte> := [];
    var crpending := false;
    out := [];
    DecodesToNothing();
    NothingRead(g, v, f, size, pos0);
    while true
      invariant sb.Vol() == v && file.pos == pos0 + |all|
      invariant all == V.Read(g, v, f, size, pos0, |all|)
      invariant if text then Decode(START, all) == (State(crpending, false), out) else out == all
      decreases size - file.pos
    {
      ReadOn(g, v, f, size, pos0, |all|, 4096);
      var res, buf := sb.Read(file, 4096);
      if res <= 0 {
        break;
      }
      ghost var before := all;
      all := all + buf;
      if text {
        DecodeSplits(START, before, buf);
        var more, pending, stopped := Translate(buf, crpending);
        out, crpending := out + more, pending;
        if stopped {
          NothingBehindTheEnd(g, v, f, size, pos0, all);
          return;
        }
      } else {
        out := out + buf;
      }
    }
  }

  lemma NothingRead(g: Geometry, v: V.Volume, f: Key, size: nat, pos: nat)
    requires Mounted(g, v)
    ensures V.Read(g, v, f, size, pos, 0) == []
  {}

  lemma DecodesToNothing()
    ensures Decode(START, []) == (START, [])
  {}

  /** Reading goes on where the last call stopped, and stops at the end of the file. */
  lemma ReadOn(g: Geometry, v: V.Volume, f: Key, size: nat, pos: nat, n: nat, count: nat)
    requires Mounted(g, v) && 0 < count && |V.Read(g, v, f, size, pos, n)| == n
    ensures var more := V.Read(g, v, f, size, pos + n, count);
      && V.Read(g, v, f, size, pos, n + |more|) == V.Read(g, v, f, size, pos, n) + more
      && (|more| == 0 ==> V.Read(g, v, f, size, pos, n) == V.Read(g, v, f, size, pos, size))
  {
    hide ValidGeometry, WellSized, PointersInRange, ReadByte;
  }

  /** What follows the end-of-file character is not written. */
  lemma NothingBehindTheEnd(g: Geometry, v: V.Volume, f: Key, size: nat, pos: nat, all: seq<byte>)
    requires Mounted(g, v) && all == V.Read(g, v, f, size, pos, |all|) && Decode(START, all).0.stopped
    ensures Decode(START, V.Read(g, v, f, size, pos, size)).1 == Decode(START, all).1
  {
    hide ValidGeometry, WellSized, PointersInRange, ReadByte, Decode;
    var whole := V.Read(g, v, f, size, pos, size);
    assert whole[..|all|] == all;
    assert whole == all + whole[|all|..];
    DecodeSplits(START, all, whole[|all|..]);
    StoppedIsSilent(Decode(START, all).0, whole[|all|..]);
    assert Decode(START, all).1 + [] == Decode(START, all).1;
  }

  // ----- both ways -------------------------------------------------------------------------------------

  /** A copy whose calls all succeed is a full copy. */
  lemma {:induction false} SentIsCopy(g: Geometry, v: V.Volume, ino: nat, pos: nat, calls: seq<Chunk>)
    requires Open(g, v, ino) && BuffersOk(calls) && pos + |Concat(calls)| <= MAX_FILE && Sent(g, v, ino, pos, calls).ok
    ensures CopiesFully(g, v, ino, pos, calls) && Copy(g, v, ino, pos, calls) == Sent(g, v, ino, pos, calls).vol
    decreases |calls|
  {
    hide ValidGeometry, Mounted, Live, V.Write, Consistent, KeyOf;
    if calls != [] {
      WriteMounted(g, v, ino, pos, None, calls[0].data, calls[0].buffer);
      var r := WriteChunk(g, v, ino, pos, calls[0]);
      SentIsCopy(g, r.vol, ino, pos + |calls[0].data|, calls[1..]);
    }
  }

  /** The chunks of a binary copy are full except the last, so none crosses a 16 KiB boundary. */
  lemma {:induction false} BinaryChunksFit(g: Geometry, s: seq<byte>, pos: nat, calls: seq<Chunk>)
    requires ValidGeometry(g) && Datas(calls) == Chunks(s, false) && pos % CHUNK == 0
    ensures AllCountRight(g, pos, calls)
    decreases |calls|
  {
    hide ValidGeometry, Encode, StaysInLogical, Taken;
    ChunksUnfold(s, 0, false);
    assert s[0..] == s;
    TakenFillsChunk(s, false, 0);
    var n := Taken(s, false, 0);
    BinaryIsPlain(s[..n]);
    assert s[0..n] == s[..n];
    var c := calls[0];
    assert c.data == Datas(calls)[0] == s[..n];
    AlignedChunkFits(g, pos, n);
    if !AtEof(s, false) {
      assert Datas(calls[1..]) == Datas(calls)[1..];
      BinaryChunksFit(g, s[n..], pos + n, calls[1..]);
    }
  }

  lemma AlignedChunkFits(g: Geometry, pos: nat, n: nat)
    requires ValidGeometry(g) && pos % CHUNK == 0 && n <= CHUNK
    ensures StaysInLogical(g, pos, n)
  {
    if 0 < n {
      SameLogicalExtent(g, pos, n);
    }
  }

  /** A file copied onto the volume with every call successful holds exactly what was meant to be stored,
      every other file is as before, and the listed size is the one the last call recorded. */
  lemma CopyStores(g: Geometry, v: V.Volume, f: Key, s: seq<byte>, text: bool, calls: seq<Chunk>, files: Files)
    requires Refines(g, v, files) && ValidKey(g, f) && Creat(g, v, f).Done? && |FileText(s, text)| <= MAX_FILE
    requires Open(g, Creat(g, v, f).vol, FindFreeExtent(v.dir, 0))
    requires BuffersOk(calls) && Datas(calls) == Chunks(s, text)
    requires Sent(g, Creat(g, v, f).vol, FindFreeExtent(v.dir, 0), 0, calls).ok
    ensures var w := Sent(g, Creat(g, v, f).vol, FindFreeExtent(v.dir, 0), 0, calls).vol;
      && Mounted(g, w) && Concat(calls) == FileText(s, text)
      && Holds(g, w, files[f := FileText(s, text)]) && ReadsAs(g, w, f, FileText(s, text))
      && Namei(g, w.dir, f).Some? && Namei(g, w.dir, f).value.size == CopyRecorded(g, calls)
      && (Shows(g, w, files[f := FileText(s, text)]) <==> CopySizeKept(g, calls))
      && (AllCountRight(g, 0, calls) ==> Refines(g, w, files[f := FileText(s, text)]))
  {
    hide ValidGeometry, PointersOk, NoSharing, UniqueExtents, WellSized, AlvOf, PointersInRange, Contents, Ended,
         Live, CopiesFully, Copy, AllCountRight, Sent, Chunks, FileText, ReadsAs, KeyOf, Namei, Shows, CopySizeKept,
         CopyRecorded, Concat;
    ConcatIsFlatten(calls);
    ChunksAreStored(s, text);
    CreatOpens(g, v, f);
    SentIsCopy(g, Creat(g, v, f).vol, FindFreeExtent(v.dir, 0), 0, calls);
    CopyRoundTrip(g, v, f, calls, files);
    CopyIntoNew(g, v, f, calls, files);
  }

  /** A binary copy keeps its size: what went in comes out. */
  lemma BinaryCopyRoundTrip(g: Geometry, v: V.Volume, f: Key, s: seq<byte>, calls: seq<Chunk>, files: Files)
    requires Refines(g, v, files) && ValidKey(g, f) && Creat(g, v, f).Done? && |s| <= MAX_FILE
    requires Open(g, Creat(g, v, f).vol, FindFreeExtent(v.dir, 0))
    requires BuffersOk(calls) && Datas(calls) == Chunks(s, false)
    requires Sent(g, Creat(g, v, f).vol, FindFreeExtent(v.dir, 0), 0, calls).ok
    ensures var w := Sent(g, Creat(g, v, f).vol, FindFreeExtent(v.dir, 0), 0, calls).vol;
      && Refines(g, w, files[f := s])
      && Namei(g, w.dir, f).Some? && Namei(g, w.dir, f).value.size == |s|
      && V.Read(g, w, f, |s|, 0, |s|) == s
  {
    hide ValidGeometry, Consistent, Mounted, Contents, Ended, Live, AllCountRight, Sent, Chunks, FileText, KeyOf,
         Creat, Namei, V.Read, CopySizeKept, CopyRecorded, Concat;
    HoldsValid(g, v, files);
    BinaryChunksFit(g, s, 0, calls);
    BinaryIsPlain(s);
    CreatOpens(g, v, f);
    CopyStores(g, v, f, s, false, calls, files);
    RefinementShows(g, Sent(g, Creat(g, v, f).vol, FindFreeExtent(v.dir, 0), 0, calls).vol, files[f := s]);
    assert s[0..Min(|s|, |s|)] == s;
  }

  // ----- text ---------------------------------------------------------------------------------------------

  /** What the last call of a text copy writes; it holds at least the end-of-file character. */
  function LastChunk(t: seq<byte>): (c: seq<byte>)
    ensures 0 < |c| <= |FileText(t, true)|
  {
    LastChunkStored(t);
    Chunks(t, true)[|Chunks(t, true)| - 1]
  }

  lemma {:induction false} LastChunkStored(t: seq<byte>)
    ensures var chunks := Chunks(t, true);
      0 < |chunks| && 0 < |chunks[|chunks| - 1]| <= |FileText(t, true)|
    decreases |t|
  {
    hide Encode;
    ChunksUnfold(t, 0, true);
    assert t[0..] == t;
    ChunksAreStored(t, true);
    if AtEof(t, true) {
      FlattenOne(FileText(t[..Taken(t, true, 0)], true));
    } else {
      LastChunkStored(t[Taken(t, true, 0)..]);
      ChunksAreStored(t[Taken(t, true, 0)..], true);
      FlattenFirst(Chunks(t, true)[0], Chunks(t[Taken(t, true, 0)..], true));
    }
  }

  /** The text is listed with its true size once it is copied. */
  predicate TextSizeKept(g: Geometry, t: seq<byte>)
    requires ValidGeometry(g)
  {
    SizeKept(g, |FileText(t, true)|, |LastChunk(t)|)
  }

  lemma {:induction false} LastLengthIsLast(calls: seq<Chunk>)
    requires calls != [] && calls[|calls| - 1].data != []
    ensures LastLength(calls) == |calls[|calls| - 1].data|
  {
    if |calls| > 1 {
      LastLengthIsLast(calls[1..]);
    } else {
      assert calls[1..] == [];
    }
  }

  lemma TextCalls(t: seq<byte>, calls: seq<Chunk>)
    requires Datas(calls) == Chunks(t, true)
    ensures LastLength(calls) == |LastChunk(t)|
  {
    hide Chunks, FileText, LastLength;
    LastChunkStored(t);
    assert Datas(calls)[|calls| - 1] == calls[|calls| - 1].data;
    LastLengthIsLast(calls);
  }

  /** Less than the whole file is read where the listed size says so. */
  lemma ReadsPrefix(g: Geometry, v: V.Volume, f: Key, bytes: seq<byte>, size: nat)
    requires Mounted(g, v) && ReadsAs(g, v, f, bytes) && size <= |bytes|
    ensures V.Read(g, v, f, size, 0, size) == bytes[..size]
  {
    hide Mounted, ReadByte;
    assert V.Read(g, v, f, |bytes|, 0, size) == bytes[0..Min(0 + size, |bytes|)];
    assert V.Read(g, v, f, size, 0, size) == V.Read(g, v, f, |bytes|, 0, size);
  }

  /** Any text can be copied, wherever its chunks are cut. Copied in and out again it is unchanged if and only
      if it is faithful and its size was kept, a condition on text and format alone. */
  lemma TextCopyRoundTrip(g: Geometry, v: V.Volume, f: Key, t: seq<byte>, calls: seq<Chunk>, files: Files)
    requires Refines(g, v, files) && ValidKey(g, f) && Creat(g, v, f).Done? && |FileText(t, true)| <= MAX_FILE
    requires Open(g, Creat(g, v, f).vol, FindFreeExtent(v.dir, 0))
    requires BuffersOk(calls) && Datas(calls) == Chunks(t, true)
    requires Sent(g, Creat(g, v, f).vol, FindFreeExtent(v.dir, 0), 0, calls).ok
    ensures var w := Sent(g, Creat(g, v, f).vol, FindFreeExtent(v.dir, 0), 0, calls).vol;
      && Mounted(g, w) && Namei(g, w.dir, f).Some?
      && var size := Namei(g, w.dir, f).value.size;
         && 0 <= size && (size == |FileText(t, true)| <==> TextSizeKept(g, t))
         && (Decode(START, V.Read(g, w, f, size, 0, size)).1 == t <==> Faithful(t) && TextSizeKept(g, t))
  {
    hide ValidGeometry, Consistent, Contents, Ended, Live, Mounted, AllCountRight, Sent, Chunks, FileText, KeyOf,
         Creat, Namei, V.Read, Decode, Faithful, ReadsAs, Shows, Concat, LastLength, LastEntered, SizeKept, Recorded,
         LastChunk;
    HoldsValid(g, v, files);
    CreatOpens(g, v, f);
    CopyStores(g, v, f, t, true, calls, files);
    TextCalls(t, calls);
    var w, all := Sent(g, Creat(g, v, f).vol, FindFreeExtent(v.dir, 0), 0, calls).vol, FileText(t, true);
    RecordedShort(g, |all|, |LastChunk(t)|);
    var size := Namei(g, w.dir, f).value.size;
    ReadsPrefix(g, w, f, all, size);
    if TextSizeKept(g, t) {
      assert all[..size] == all;
      TextRoundTrip(t);
    } else {
      ShortTextDiffers(t, size);
    }
  }

  // ----- a text that is listed short ----------------------------------------------------------------------

  /** A text of 16383 bytes whose only LF is its 2048th. */
  predicate OneLateLine(t: seq<byte>) {
    |t| == 16383 && forall i :: 0 <= i < |t| ==> (t[i] == LF <==> i == 2047)
  }

  /** Characters other than LF are taken one for one. */
  lemma {:induction false} TakenPlain(s: seq<byte>, k: nat, j: nat)
    requires k <= |s| && j + k <= CHUNK && LF !in s[..k]
    ensures Taken(s, true, j) == k + Taken(s[k..], true, j + k)
    ensures Encode(s[..k], true) == s[..k]
    decreases k
  {
    hide Encode;
    EncodePlain(s[..k]);
    if k > 0 {
      assert s[..k][0] == s[0] && s[..k][1..] == s[1..][..k - 1] && s[1..][k - 1..] == s[k..];
      assert forall c :: c in s[1..][..k - 1] ==> c in s[..k];
      TakenPlain(s[1..], k - 1, j + 1);
    } else {
      assert s[0..] == s;
    }
  }

  lemma {:induction false} EncodePlain(s: seq<byte>)
    requires LF !in s
    ensures Encode(s, true) == s
  {
    if s != [] {
      EncodePlain(s[1..]);
    }
  }

  /** A full chunk of characters other than LF. */
  lemma PlainChunk(s: seq<byte>)
    requires CHUNK <= |s| && LF !in s[..CHUNK]
    ensures Chunks(s, true) == [s[..CHUNK]] + Chunks(s[CHUNK..], true)
  {
    TakenPlain(s, CHUNK, 0);
  }

  /** The last chunk of characters other than LF, with the end-of-file character. */
  lemma PlainEnd(s: seq<byte>)
    requires |s| < CHUNK && LF !in s
    ensures Chunks(s, true) == [s + [SUB]]
  {
    hide Encode, Taken;
    assert s[..|s|] == s && s[|s|..] == [];
    TakenPlain(s, |s|, 0);
  }

  /** The LF that no longer fits makes the first chunk one byte longer. */
  lemma LateLineChunk(t: seq<byte>)
    requires OneLateLine(t)
    ensures Chunks(t, true) == [t[..2047] + [CR, LF]] + Chunks(t[2048..], true)
  {
    TakenPlain(t, 2047, 0);
    var rest, line: seq<byte> := t[2047..], [LF];
    assert rest[1..] == t[2048..] && rest[0] == LF;
    assert Taken(rest, true, 2047) == 1 + Taken(rest[1..], true, 2049) == 1;
    assert t[..2048] == t[..2047] + line;
    EncodeSplits(t[..2047], line, true);
    assert line[1..] == [];
    assert Encode(line, true) == [CR, LF];
  }

  /** Six chunks of 2048 follow. */
  lemma {:induction false} PlainChunks(s: seq<byte>, n: nat)
    requires |s| == n * CHUNK + 2047 && LF !in s
    ensures |Chunks(s, true)| == n + 1 && |Chunks(s, true)[n]| == CHUNK
    ensures |Flatten(Chunks(s, true)[..n])| == n * CHUNK
    decreases n
  {
    if n == 0 {
      PlainEnd(s);
    } else {
      PlainChunk(s);
      PlainChunks(s[CHUNK..], n - 1);
      assert Chunks(s, true)[..n][1..] == Chunks(s[CHUNK..], true)[..n - 1];
    }
  }

  lemma LateLineChunks(t: seq<byte>)
    requires OneLateLine(t)
    ensures |Chunks(t, true)| == 8 && |Chunks(t, true)[7]| == CHUNK
    ensures |Flatten(Chunks(t, true)[..7])| == 14337
  {
    hide Chunks, Flatten;
    LateLineChunk(t);
    PlainChunks(t[2048..], 6);
    var rest := Chunks(t[2048..], true);
    assert Chunks(t, true)[..7] == [t[..2047] + [CR, LF]] + rest[..6];
    FlattenFirst(t[..2047] + [CR, LF], rest[..6]);
  }

  lemma FlattenFirst(c: seq<byte>, rest: seq<seq<byte>>)
    ensures Flatten([c] + rest) == c + Flatten(rest)
  {
    assert ([c] + rest)[1..] == rest;
  }

  lemma LateLineLength(t: seq<byte>)
    requires OneLateLine(t)
    ensures |FileText(t, true)| == 16385 && |LastChunk(t)| == CHUNK
  {
    hide Chunks;
    LateLineChunks(t);
    ChunksAreStored(t, true);
    var chunks := Chunks(t, true);
    FlattenLast(chunks, 7);
  }

  lemma {:induction false} FlattenLast(chunks: seq<seq<byte>>, n: nat)
    requires |chunks| == n + 1
    ensures Flatten(chunks) == Flatten(chunks[..n]) + chunks[n]
    decreases n
  {
    if n == 0 {
      assert chunks == [chunks[0]];
      FlattenOne(chunks[0]);
    } else {
      FlattenLast(chunks[1..], n - 1);
      assert chunks[..n][1..] == chunks[1..][..n - 1];
    }
  }

  /** Text chunks are not aligned, so one may cross a 16 KiB boundary, and if it is the last one, nothing
      repairs the size. On a volume with two or more logical extents per entry this text is stored completely
      and then listed with a size of 1. */
  lemma TextCopyLosesSize(g: Geometry, v: V.Volume, f: Key, t: seq<byte>, calls: seq<Chunk>, files: Files)
    requires Refines(g, v, files) && ValidKey(g, f) && Creat(g, v, f).Done? && 2 <= g.extents
    requires Open(g, Creat(g, v, f).vol, FindFreeExtent(v.dir, 0))
    requires OneLateLine(t) && BuffersOk(calls) && Datas(calls) == Chunks(t, true)
    requires Sent(g, Creat(g, v, f).vol, FindFreeExtent(v.dir, 0), 0, calls).ok
    ensures var w := Sent(g, Creat(g, v, f).vol, FindFreeExtent(v.dir, 0), 0, calls).vol;
      Namei(g, w.dir, f).Some? && Namei(g, w.dir, f).value.size == 1 < |FileText(t, true)| == 16385
  {
    hide ValidGeometry, Consistent, Contents, Ended, Live, Mounted, AllCountRight, Sent, Chunks, FileText, KeyOf,
         Creat, Namei, ReadsAs, Shows, Concat, LastLength, LastEntered, LastChunk, OneLateLine;
    HoldsValid(g, v, files);
    LateLineLength(t);
    CopyStores(g, v, f, t, true, calls, files);
    TextCalls(t, calls);
    EnteredBelow(g);
  }

  lemma EnteredBelow(g: Geometry)
    requires ValidGeometry(g) && 2 <= g.extents
    ensures LastEntered(g, 14337, CHUNK) == 14337
  {
    CapacityIsLogical(g);
  }

  /** What `fsck` says about a volume a text was copied to, on a format whose pointers split evenly: nothing if and
      only if the last chunk kept the size or the last 16 KiB piece of the file needs all its blocks. */
  lemma TextCopyIsSound(g: Geometry, v: V.Volume, f: Key, t: seq<byte>, calls: seq<Chunk>, files: Files)
    requires Refines(g, v, files) && ValidKey(g, f) && Creat(g, v, f).Done? && |FileText(t, true)| <= MAX_FILE
    requires Open(g, Creat(g, v, f).vol, FindFreeExtent(v.dir, 0))
    requires BuffersOk(calls) && Datas(calls) == Chunks(t, true)
    requires Sent(g, Creat(g, v, f).vol, FindFreeExtent(v.dir, 0), 0, calls).ok
    requires ValidExtents(g.extents) && Fsck.FsckGeometry(g) && SplitsEvenly(g) && OthersSound(g, v.dir)
    requires CleanKey(g, f) && forall h :: h in files ==> CleanKey(g, h)
    ensures var w := Sent(g, Creat(g, v, f).vol, FindFreeExtent(v.dir, 0), 0, calls).vol;
      && Fsck.NoSharedBlocks(g, w.dir) && Fsck.NoDuplicateExtents(g, w.dir)
      && (AllSound(g, w.dir) <==> TextSizeKept(g, t) || LastPieceFull(g, |FileText(t, true)|))
  {
    hide ValidGeometry, Consistent, Contents, Ended, Live, Mounted, Sent, Chunks, FileText, KeyOf, Creat, CopiesFully,
         Copy, Concat, LastLength, SizeKept, LastChunk, ValidExtents, Fsck.FsckGeometry, SplitsEvenly, OthersSound,
         CleanKey, AllSound, Fsck.NoSharedBlocks, Fsck.NoDuplicateExtents, LastPieceFull;
    HoldsValid(g, v, files);
    CreatOpens(g, v, f);
    ConcatIsFlatten(calls);
    ChunksAreStored(t, true);
    TextCalls(t, calls);
    SentIsCopy(g, Creat(g, v, f).vol, FindFreeExtent(v.dir, 0), 0, calls);
    CopyIsSound(g, v, f, calls, files);
  }

  /** The text above is stored completely, and `fsck` asks to remove it. */
  lemma TextCopyMisjudged(g: Geometry, v: V.Volume, f: Key, t: seq<byte>, calls: seq<Chunk>, files: Files)
    requires Refines(g, v, files) && ValidKey(g, f) && Creat(g, v, f).Done?
    requires Open(g, Creat(g, v, f).vol, FindFreeExtent(v.dir, 0))
    requires OneLateLine(t) && BuffersOk(calls) && Datas(calls) == Chunks(t, true)
    requires Sent(g, Creat(g, v, f).vol, FindFreeExtent(v.dir, 0), 0, calls).ok
    requires ValidExtents(g.extents) && Fsck.FsckGeometry(g) && OthersSound(g, v.dir)
    requires DefaultExtents(g) && 2 <= g.extents && g.blksiz < LOGICAL_EXTENT
    requires CleanKey(g, f) && forall h :: h in files ==> CleanKey(g, h)
    ensures var w := Sent(g, Creat(g, v, f).vol, FindFreeExtent(v.dir, 0), 0, calls).vol;
      Holds(g, w, files[f := FileText(t, true)]) && !AllSound(g, w.dir)
  {
    hide ValidGeometry, Consistent, Contents, Ended, Live, Mounted, Sent, Chunks, FileText, KeyOf, Creat, Concat,
         LastChunk, ValidExtents, Fsck.FsckGeometry, OthersSound, CleanKey, AllSound, Fsck.NoSharedBlocks,
         Fsck.NoDuplicateExtents, LastPieceFull, DefaultExtents, LastEntered, OneLateLine, ReadsAs, Shows, Namei,
         AllCountRight, CopySizeKept, CopyRecorded;
    HoldsValid(g, v, files);
    CreatOpens(g, v, f);
    LateLineLength(t);
    CopyStores(g, v, f, t, true, calls, files);
    TextCopyIsSound(g, v, f, t, calls, files);
    EnteredBelow(g);
    OneByteOver(g);
  }
}
