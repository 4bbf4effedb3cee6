/** Writes that end in front of the end of their file: exactly when they leave what is behind them alone. */
module Overwrites {
  import opened Wrappers
  import opened Arithmetic
  import opened Geometry
  import opened Directory
  import opened Volume
  import opened Invariant
  import opened Refinement

  /** Where the last pass of a write of `n` bytes at `pos` starts. */
  function LastStart(g: Geometry, pos: nat, n: nat): (q: nat)
    requires ValidGeometry(g) && 0 < n
    ensures pos <= q < pos + n && Offset(g, q) + (pos + n - q) <= g.blksiz
    ensures q == pos || Offset(g, q) == 0
  {
    if Offset(g, pos) + n <= g.blksiz then pos
    else
      LastBlockStarts(g, pos, n);
      pos + n - 1 - Offset(g, pos + n - 1)
  }

  lemma LastBlockStarts(g: Geometry, pos: nat, n: nat)
    requires ValidGeometry(g) && g.blksiz < Offset(g, pos) + n
    ensures var q := pos + n - 1 - Offset(g, pos + n - 1);
      pos < q && Offset(g, q) == 0
  {
    hide ValidGeometry;
    var e := pos + n - 1;
    DivModEquation(e, g.blksiz);
    DivModUnique(e - e % g.blksiz, g.blksiz, e / g.blksiz, 0);
    if e - e % g.blksiz <= pos {
      DivModUnique(pos, g.blksiz, e / g.blksiz, pos - e / g.blksiz * g.blksiz);
    }
  }

  /** The write has filled byte `j` of its buffer with the block in front of the last: with its own data, or with
      what it fetched to start inside a sector. */
  predicate Filled(g: Geometry, pos: nat, n: nat, j: nat)
    requires ValidGeometry(g) && 0 < n && j < g.blksiz
  {
    var q := LastStart(g, pos, n);
    q != pos && (pos + g.blksiz <= q || SectorStart(g, Offset(g, pos)) <= j)
  }

  /** Byte `j` of the buffer when the last pass begins. */
  function TailByte(g: Geometry, pos: nat, data: seq<byte>, buffer: seq<byte>, bytes: seq<byte>, j: nat): byte
    requires ValidGeometry(g) && 0 < |data| && pos + |data| < |bytes| && |buffer| == LOGICAL_EXTENT && j < g.blksiz
  {
    BlockFitsBuffer(g);
    if Filled(g, pos, |data|, j) then
      BlockBefore(g, pos, |data|);
      Overwritten(bytes, pos, data)[LastStart(g, pos, |data|) - g.blksiz + j]
    else buffer[j]
  }

  lemma BlockBefore(g: Geometry, pos: nat, n: nat)
    requires ValidGeometry(g) && 0 < n && LastStart(g, pos, n) != pos
    ensures g.blksiz <= LastStart(g, pos, n)
    ensures LastStart(g, pos, n) < pos + g.blksiz ==> LastStart(g, pos, n) - g.blksiz == pos - Offset(g, pos)
  {
    hide ValidGeometry;
    var q := LastStart(g, pos, n);
    DivModEquation(q, g.blksiz);
    DivModEquation(pos, g.blksiz);
    BlocksApart(pos / g.blksiz, pos % g.blksiz, q / g.blksiz, g.blksiz);
  }

  lemma BlocksApart(a: nat, r: nat, b: nat, d: nat)
    requires r < d && a * d + r < b * d
    ensures d <= b * d && (b * d < a * d + r + d ==> b * d - d == a * d)
  {
    if b <= a {
      MulMonotone(b, a, d);
    }
    MulMonotone(a + 1, b, d);
    assert (a + 1) * d == a * d + d;
    if a + 1 < b {
      MulMonotone(a + 2, b, d);
      assert (a + 2) * d == a * d + d + d;
    }
  }

  /** The byte at `p` lies behind the write, in the part of its last block that is written back from the buffer. */
  predicate InTail(g: Geometry, pos: nat, n: nat, p: nat)
    requires ValidGeometry(g) && 0 < n
  {
    var q := LastStart(g, pos, n);
    && pos + n <= p && Offset(g, q) + (p - q) < g.blksiz
    && FromBuffer(g, Offset(g, q), pos + n - q, Offset(g, q) + (p - q))
  }

  /** What the write puts behind itself is what the file has there. */
  ghost predicate TailAgrees(g: Geometry, pos: nat, data: seq<byte>, buffer: seq<byte>, bytes: seq<byte>)
    requires ValidGeometry(g) && 0 < |data| && pos + |data| < |bytes| && |buffer| == LOGICAL_EXTENT
  {
    var q := LastStart(g, pos, |data|);
    forall p: nat :: p < |bytes| && InTail(g, pos, |data|, p) ==>
      TailByte(g, pos, data, buffer, bytes, Offset(g, q) + (p - q)) == bytes[p]
  }

  // ----- one pass ------------------------------------------------------------------------------------

  /** Inside a file a pass finds its entry and its block. */
  lemma PassFinds(g: Geometry, v: Volume, ino: nat, pos: nat, cursor: Option<Cursor>, data: seq<byte>,
                  buffer: seq<byte>,
                  files: Files) returns (c: Cursor)
    requires WriteState(g, v, ino, pos, cursor, |data|, buffer) && Writable(g, v, ino, cursor, buffer) && 0 < |data|
    requires Contents(g, v, files) && KeyOf(v.dir[ino]) in files && pos < |files[KeyOf(v.dir[ino])]|
    ensures CursorOk(g, v, ino, pos, Some(c)) && c.extent < |v.dir| && Live(g, v.dir[c.extent])
    ensures LivePtr(g, v.dir[c.extent], Slot(g, pos)) != 0 && BlockPass(g, v, c, pos, data, buffer).Stored?
    ensures WritePass(g, v, ino, pos, cursor, data, buffer) == BlockPass(g, v, c, pos, data, buffer)
  {
    hide ValidGeometry, PointersOk, NoSharing, UniqueExtents, AlvOf, WellSized, PointersInRange, KeyOf, StorePass,
         Ptr;
    var f := KeyOf(v.dir[ino]);
    PhysicalOfLogical(g, pos);
    assert Complete(g, v.dir, f, |files[f]|);
    assert HasExtent(g, v.dir, f, PhysicalExtent(g, pos));
    if cursor.Some? {
      c := cursor.value;
    } else {
      c := Cursor(FindFileExtent(g, v.dir, f, 0, pos / LOGICAL_EXTENT), pos / LOGICAL_EXTENT);
    }
    assert EntryContents(g, v, c.extent, files);
    assert ByteAt(g, v.data, LivePtr(g, v.dir[c.extent], Slot(g, pos)), Offset(g, pos), files[f][pos]);
  }

  /** The last pass puts the right bytes everywhere exactly if those it takes from the buffer are right. */
  lemma LastPassExact(g: Geometry, v: Volume, ino: nat, c: Cursor, pos: nat, data: seq<byte>, buffer: seq<byte>,
                      files: Files)
    requires Consistent(g, v) && Mounted(g, v) && ino < |v.dir| && CursorOk(g, v, ino, pos, Some(c))
    requires Live(g, v.dir[ino]) && c.extent < |v.dir| && Live(g, v.dir[c.extent]) && |buffer| == LOGICAL_EXTENT
    requires 0 < |data|
    requires Contents(g, v, files) && KeyOf(v.dir[ino]) in files && pos < |files[KeyOf(v.dir[ino])]|
    requires Offset(g, pos) + |data| <= g.blksiz && LivePtr(g, v.dir[c.extent], Slot(g, pos)) != 0
    requires BlockPass(g, v, c, pos, data, buffer).Stored?
    ensures var f, r := KeyOf(v.dir[ino]), BlockPass(g, v, c, pos, data, buffer);
      && r.n == |data|
      && (Contents(g, r.vol, files[f := Overwritten(files[f], pos, data)]) <==>
        RestAgrees(g, pos, |data|, buffer, files[f]))
  {
    hide ValidGeometry, Consistent, WellSized, PointersInRange, KeyOf, Live, CursorOk, BlockPass, LivePtr, PhysicalOf,
         FromBuffer, Offset, Contents, Slot, PhysicalExtent, Overwritten, WithEnd, RestAgrees;
    var f, r := KeyOf(v.dir[ino]), BlockPass(g, v, c, pos, data, buffer);
    BlockPassLength(g, v, c, pos, data, buffer);
    assert data[..|data|] == data;
    if RestAgrees(g, pos, |data|, buffer, files[f]) {
      BlockPassContents(g, v, ino, c, pos, data, buffer, files);
    }
    if Contents(g, r.vol, files[f := Overwritten(files[f], pos, data)]) {
      RestShown(g, v, ino, c, pos, data, buffer, files);
    }
  }

  lemma RestShown(g: Geometry, v: Volume, ino: nat, c: Cursor, pos: nat, data: seq<byte>, buffer: seq<byte>,
                  files: Files)
    requires Consistent(g, v) && Mounted(g, v) && ino < |v.dir| && CursorOk(g, v, ino, pos, Some(c))
    requires Live(g, v.dir[ino]) && c.extent < |v.dir| && Live(g, v.dir[c.extent]) && |buffer| == LOGICAL_EXTENT
    requires 0 < |data|
    requires KeyOf(v.dir[ino]) in files && pos < |files[KeyOf(v.dir[ino])]|
    requires Offset(g, pos) + |data| <= g.blksiz && LivePtr(g, v.dir[c.extent], Slot(g, pos)) != 0
    requires BlockPass(g, v, c, pos, data, buffer).Stored? && PassLength(g, pos, |data|) == |data|
    requires Contents(g, BlockPass(g, v, c, pos, data, buffer).vol,
                      files[KeyOf(v.dir[ino]) := Overwritten(files[KeyOf(v.dir[ino])], pos, data)])
    ensures RestAgrees(g, pos, |data|, buffer, files[KeyOf(v.dir[ino])])
  {
    hide ValidGeometry, Consistent, WellSized, PointersInRange, KeyOf, Live, CursorOk, BlockPass, LivePtr, PhysicalOf,
         FromBuffer, Offset, Contents, Slot, PhysicalExtent, Overwritten, WithEnd, NoSharing, PassLength;
    var f, w := KeyOf(v.dir[ino]), BlockPass(g, v, c, pos, data, buffer).vol;
    var bytes, files' := files[f], files[f := Overwritten(files[f], pos, data)];
    CursorEntry(g, v, ino, pos, c);
    BlockFitsBuffer(g);
    var b, block := BlockPassStores(g, v, ino, c, pos, data, buffer);
    forall j: nat | Offset(g, pos) + |data| <= j < g.blksiz && FromBuffer(g, Offset(g, pos), |data|, j)
                    && pos + (j - Offset(g, pos)) < |bytes|
      ensures buffer[j] == bytes[pos + (j - Offset(g, pos))]
    {
      var p := pos + (j - Offset(g, pos));
      SameBlock(g, pos, p - pos);
      ByteShown(g, w, c.extent, files', p);
      assert w.data[b] == block;
    }
  }

  /** The local buffer after a pass that fills its block to the end: the data, in front of it what was fetched to
      start inside a sector, and in front of that what was there before. */
  lemma BufferAfterPass(g: Geometry, v: Volume, c: Cursor, pos: nat, data: seq<byte>, buffer: seq<byte>, j: nat)
    requires Mounted(g, v) && c.extent < |v.dir| && Live(g, v.dir[c.extent]) && |buffer| == LOGICAL_EXTENT && 0 < |data|
    requires Offset(g, pos) + PassLength(g, pos, |data|) == g.blksiz && j < g.blksiz
    requires LivePtr(g, v.dir[c.extent], Slot(g, pos)) != 0 && BlockPass(g, v, c, pos, data, buffer).Stored?
    ensures var o, b, r := Offset(g, pos), LivePtr(g, v.dir[c.extent], Slot(g, pos)),
      BlockPass(g, v, c, pos, data, buffer).buffer;
      && b < |v.data| && |v.data[b]| == g.blksiz
      && r[j] == if o <= j then data[j - o] else if SectorStart(g, o) <= j then v.data[b][j] else buffer[j]
  {
    hide ValidGeometry, BlockPass, Offset, Slot, SectorStart, PassLength, Prepared, LivePtr, WellSized,
         PointersInRange;
    var o, n := Offset(g, pos), PassLength(g, pos, |data|);
    BlockFitsBuffer(g);
    PassBuffer(g, v, c, pos, data, buffer);
    if j < o {
      PreparedFront(g, buffer, v.data[LivePtr(g, v.dir[c.extent], Slot(g, pos))], o, n, j);
    }
  }

  lemma PassBuffer(g: Geometry, v: Volume, c: Cursor, pos: nat, data: seq<byte>, buffer: seq<byte>)
    requires Mounted(g, v) && c.extent < |v.dir| && Live(g, v.dir[c.extent]) && |buffer| == LOGICAL_EXTENT && 0 < |data|
    requires LivePtr(g, v.dir[c.extent], Slot(g, pos)) != 0 && BlockPass(g, v, c, pos, data, buffer).Stored?
    ensures var o, n, b := Offset(g, pos), PassLength(g, pos, |data|), LivePtr(g, v.dir[c.extent], Slot(g, pos));
      && b < |v.data| && |v.data[b]| == g.blksiz && o + n <= |buffer|
      && BlockPass(g, v, c, pos, data, buffer).buffer ==
        Overlay(Prepared(g, buffer, v.data[b], false, o, n), o, data[..n])
  {
    hide ValidGeometry, Ptr, Offset, Slot, WithEnd, AdvancedExtentNumber, SectorStart, PassLength, Prepared, Overlay,
         WrittenBack;
    BlockFitsBuffer(g);
    OpenBlockMounted(g, v, c.extent, Slot(g, pos));
  }

  lemma PreparedFront(g: Geometry, buffer: seq<byte>, block: seq<byte>, o: nat, n: nat, j: nat)
    requires ValidGeometry(g) && |buffer| == LOGICAL_EXTENT && |block| == g.blksiz <= LOGICAL_EXTENT
    requires 0 < n && o + n == g.blksiz && j < o
    ensures Prepared(g, buffer, block, false, o, n)[j] == if SectorStart(g, o) <= j then block[j] else buffer[j]
  {
    hide ValidGeometry, SectorStart, FetchSector;
    FetchedByte(g, buffer, block, o, j);
    SectorStartIs(g, o);
    DivModEquation(o, g.secLength);
  }

  // ----- the whole write -------------------------------------------------------------------------------

  lemma LastStartOfRest(g: Geometry, pos: nat, n: nat)
    requires ValidGeometry(g) && 0 < n && PassLength(g, pos, n) < n
    ensures var m := PassLength(g, pos, n);
      && LastStart(g, pos, n) == LastStart(g, pos + m, n - m) && pos + m <= LastStart(g, pos, n)
      && Offset(g, pos) + m == g.blksiz && Offset(g, pos + m) == 0
  {
    hide ValidGeometry, Offset;
    var m := PassLength(g, pos, n);
    NextBlockStarts(g, pos);
    if n - m <= g.blksiz {
      SameBlock(g, pos + m, n - m - 1);
    }
  }

  /** What the last pass finds in the buffer does not depend on where the passes before it are counted from. */
  lemma TailByteOfRest(g: Geometry, v: Volume, ino: nat, c: Cursor, pos: nat, data: seq<byte>, buffer: seq<byte>,
                       files: Files,
                       bytes': seq<byte>, j: nat)
    requires Mounted(g, v) && c.extent < |v.dir| && Live(g, v.dir[c.extent]) && |buffer| == LOGICAL_EXTENT && 0 < |data|
    requires LivePtr(g, v.dir[c.extent], Slot(g, pos)) != 0 && BlockPass(g, v, c, pos, data, buffer).Stored?
    requires Contents(g, v, files) && KeyOf(v.dir[c.extent]) in files && pos + |data| < |files[KeyOf(v.dir[c.extent])]|
    requires PhysicalOf(g, v.dir[c.extent]) == PhysicalExtent(g, pos)
    requires PassLength(g, pos, |data|) < |data| && j < g.blksiz
    requires bytes' == Overwritten(files[KeyOf(v.dir[c.extent])], pos, data[..PassLength(g, pos, |data|)])
    ensures var m, r := PassLength(g, pos, |data|), BlockPass(g, v, c, pos, data, buffer);
      TailByte(g, pos + m, data[m..], r.buffer, bytes', j) ==
        TailByte(g, pos, data, buffer, files[KeyOf(v.dir[c.extent])], j)
  {
    hide ValidGeometry, WellSized, PointersInRange, KeyOf, Live, BlockPass, LivePtr, PhysicalOf, Offset, Contents,
         Slot, PhysicalExtent, SectorStart, LastStart, PassLength;
    var bytes, m := files[KeyOf(v.dir[c.extent])], PassLength(g, pos, |data|);
    LastStartOfRest(g, pos, |data|);
    SameOverwrite(bytes, pos, data, m);
    var q := LastStart(g, pos, |data|);
    BlockBefore(g, pos, |data|);
    if q == pos + m {
      BufferAfterPass(g, v, c, pos, data, buffer, j);
      if j < Offset(g, pos) {
        BlockShown(g, v, c.extent, files, pos, j);
      }
    } else {
      BlockBefore(g, pos + m, |data| - m);
    }
  }

  lemma SameOverwrite(bytes: seq<byte>, pos: nat, data: seq<byte>, m: nat)
    requires m <= |data| && pos + |data| < |bytes|
    ensures Overwritten(Overwritten(bytes, pos, data[..m]), pos + m, data[m..]) == Overwritten(bytes, pos, data)
  {}

  /** The block of `pos` holds, in front of it, what the file has there. */
  lemma BlockShown(g: Geometry, v: Volume, i: nat, files: Files, pos: nat, j: nat)
    requires Mounted(g, v) && Contents(g, v, files) && i < |v.dir| && Live(g, v.dir[i]) && KeyOf(v.dir[i]) in files
    requires pos < |files[KeyOf(v.dir[i])]| && PhysicalOf(g, v.dir[i]) == PhysicalExtent(g, pos)
    requires j < Offset(g, pos) <= pos
    ensures ByteAt(g, v.data, LivePtr(g, v.dir[i], Slot(g, pos)), j, files[KeyOf(v.dir[i])][pos - Offset(g, pos) + j])
  {
    hide ValidGeometry, WellSized, PointersInRange, KeyOf, Live, LivePtr, PhysicalOf, Contents, ByteAt;
    var p := pos - Offset(g, pos) + j;
    BlockStart(g, pos);
    SameBlock(g, pos - Offset(g, pos), Offset(g, pos));
    SameBlock(g, pos - Offset(g, pos), j);
    ByteShown(g, v, i, files, p);
  }

  lemma BlockStart(g: Geometry, pos: nat)
    requires ValidGeometry(g)
    ensures Offset(g, pos) <= pos && Offset(g, pos - Offset(g, pos)) == 0
  {
    hide ValidGeometry;
    CapacityIsPositive(g);
    FloorStart(pos, g.blksiz);
  }

  lemma FloorStart(a: nat, d: nat)
    requires 0 < d
    ensures a % d <= a && (a - a % d) % d == 0
  {
    DivModEquation(a, d);
    DivModUnique(a / d * d, d, a / d, 0);
  }

  /** A write that ends in front of the end of its file always completes, and changes exactly the bytes it was given
      if and only if what it puts behind them is what the file has there. */
  lemma {:induction false} WriteExact(g: Geometry, v: Volume, ino: nat, pos: nat, cursor: Option<Cursor>,
                                      data: seq<byte>,
                                      buffer: seq<byte>, files: Files)
    requires WriteState(g, v, ino, pos, cursor, |data|, buffer) && Writable(g, v, ino, cursor, buffer) && 0 < |data|
    requires Contents(g, v, files) && KeyOf(v.dir[ino]) in files && pos + |data| < |files[KeyOf(v.dir[ino])]|
    ensures var f, r := KeyOf(v.dir[ino]), Write(g, v, ino, pos, cursor, data, buffer);
      && !r.failed && r.got == |data|
      && (Contents(g, r.vol, files[f := Overwritten(files[f], pos, data)]) <==>
        TailAgrees(g, pos, data, buffer, files[f]))
    decreases |data|
  {
    hide ValidGeometry, Consistent, CursorOk, CursorFits, WellSized, PointersInRange, KeyOf, Live, WritePass,
         BlockPass, Contents, Overwritten, PassLength, Offset, RestAgrees, TailAgrees, LivePtr, PhysicalOf, Slot,
         PhysicalExtent;
    var f, bytes, m := KeyOf(v.dir[ino]), files[KeyOf(v.dir[ino])], PassLength(g, pos, |data|);
    var c := PassFinds(g, v, ino, pos, cursor, data, buffer, files);
    var step := WritePass(g, v, ino, pos, cursor, data, buffer);
    PassLengthOf(g, v, ino, pos, cursor, data, buffer);
    if m == |data| {
      LastPassExact(g, v, ino, c, pos, data, buffer, files);
      OnePassAgrees(g, pos, data, buffer, bytes);
      WriteOnePass(g, v, ino, pos, cursor, data, buffer);
    } else {
      WritePassConsistent(g, v, ino, pos, cursor, data, buffer);
      PassKeepsRest(g, pos, |data|);
      NothingBehind(g, pos, m, buffer, bytes);
      PassContents(g, v, ino, pos, cursor, data, buffer, files);
      var files' := files[f := Overwritten(bytes, pos, data[..m])];
      WriteExact(g, step.vol, ino, pos + m, step.cursor, data[m..], step.buffer, files');
      SameOverwrite(bytes, pos, data, m);
      CursorEntry(g, v, ino, pos, c);
      TailAgreesOfRest(g, v, ino, c, pos, data, buffer, files, files'[f]);
      assert files'[f := Overwritten(bytes, pos, data)] == files[f := Overwritten(bytes, pos, data)];
    }
  }

  lemma WriteOnePass(g: Geometry, v: Volume, ino: nat, pos: nat, cursor: Option<Cursor>, data: seq<byte>,
                     buffer: seq<byte>)
    requires Writable(g, v, ino, cursor, buffer) && 0 < |data|
    requires WritePass(g, v, ino, pos, cursor, data, buffer).Stored?
    requires WritePass(g, v, ino, pos, cursor, data, buffer).n == |data|
    ensures var r := Write(g, v, ino, pos, cursor, data, buffer);
      r.vol == WritePass(g, v, ino, pos, cursor, data, buffer).vol && !r.failed && r.got == |data|
  {
    hide WritePass, Mounted;
  }

  lemma OnePassAgrees(g: Geometry, pos: nat, data: seq<byte>, buffer: seq<byte>, bytes: seq<byte>)
    requires ValidGeometry(g) && 0 < |data| && pos + |data| < |bytes| && |buffer| == LOGICAL_EXTENT
    requires Offset(g, pos) + |data| <= g.blksiz
    ensures TailAgrees(g, pos, data, buffer, bytes) <==> RestAgrees(g, pos, |data|, buffer, bytes)
  {
    hide ValidGeometry, Offset, FromBuffer;
    BlockFitsBuffer(g);
    if RestAgrees(g, pos, |data|, buffer, bytes) {
      forall p: nat | p < |bytes| && InTail(g, pos, |data|, p)
        ensures TailByte(g, pos, data, buffer, bytes, Offset(g, pos) + (p - pos)) == bytes[p]
      {
        assert buffer[Offset(g, pos) + (p - pos)] == bytes[pos + (Offset(g, pos) + (p - pos) - Offset(g, pos))];
      }
    }
    if TailAgrees(g, pos, data, buffer, bytes) {
      forall j: nat | Offset(g, pos) + |data| <= j < g.blksiz && FromBuffer(g, Offset(g, pos), |data|, j)
                      && pos + (j - Offset(g, pos)) < |bytes|
        ensures buffer[j] == bytes[pos + (j - Offset(g, pos))]
      {
        assert InTail(g, pos, |data|, pos + (j - Offset(g, pos)));
      }
    }
  }

  lemma TailAgreesOfRest(g: Geometry, v: Volume, ino: nat, c: Cursor, pos: nat, data: seq<byte>, buffer: seq<byte>,
                         files: Files,
                         bytes': seq<byte>)
    requires Mounted(g, v) && c.extent < |v.dir| && Live(g, v.dir[c.extent]) && |buffer| == LOGICAL_EXTENT && 0 < |data|
    requires LivePtr(g, v.dir[c.extent], Slot(g, pos)) != 0 && BlockPass(g, v, c, pos, data, buffer).Stored?
    requires Contents(g, v, files) && KeyOf(v.dir[c.extent]) in files && pos + |data| < |files[KeyOf(v.dir[c.extent])]|
    requires PhysicalOf(g, v.dir[c.extent]) == PhysicalExtent(g, pos) && PassLength(g, pos, |data|) < |data|
    requires bytes' == Overwritten(files[KeyOf(v.dir[c.extent])], pos, data[..PassLength(g, pos, |data|)])
    ensures var m, r := PassLength(g, pos, |data|), BlockPass(g, v, c, pos, data, buffer);
      TailAgrees(g, pos + m, data[m..], r.buffer, bytes') <==>
        TailAgrees(g, pos, data, buffer, files[KeyOf(v.dir[c.extent])])
  {
    hide ValidGeometry, WellSized, PointersInRange, KeyOf, Live, BlockPass, LivePtr, PhysicalOf, Offset, Contents,
         Slot, PhysicalExtent, SectorStart, LastStart, PassLength, TailByte, FromBuffer;
    var m, bytes, r := PassLength(g, pos, |data|), files[KeyOf(v.dir[c.extent])], BlockPass(g, v, c, pos, data, buffer);
    LastStartOfRest(g, pos, |data|);
    var q := LastStart(g, pos, |data|);
    forall p: nat | p < |bytes| && InTail(g, pos, |data|, p)
      ensures TailByte(g, pos + m, data[m..], r.buffer, bytes', Offset(g, q) + (p - q))
           == TailByte(g, pos, data, buffer, bytes, Offset(g, q) + (p - q))
      ensures bytes'[p] == bytes[p] && InTail(g, pos + m, |data[m..]|, p)
    {
      TailByteOfRest(g, v, ino, c, pos, data, buffer, files, bytes', Offset(g, q) + (p - q));
    }
    if TailAgrees(g, pos, data, buffer, bytes) {
      forall p: nat | p < |bytes'| && InTail(g, pos + m, |data[m..]|, p)
        ensures TailByte(g, pos + m, data[m..], r.buffer, bytes', Offset(g, q) + (p - q)) == bytes'[p]
      {
        assert InTail(g, pos, |data|, p);
      }
    }
  }

  // ----- whatever the buffer holds -----------------------------------------------------------------------

  /** Each byte the write puts behind itself comes from the file, and is the one the file has there. A caller can
      tell from position, data and file. */
  ghost predicate TailFromFile(g: Geometry, pos: nat, data: seq<byte>, bytes: seq<byte>)
    requires ValidGeometry(g) && 0 < |data| && pos + |data| < |bytes|
  {
    var q := LastStart(g, pos, |data|);
    forall p: nat :: p < |bytes| && InTail(g, pos, |data|, p) ==>
      && Filled(g, pos, |data|, Offset(g, q) + (p - q))
      && (BlockBefore(g, pos, |data|); Overwritten(bytes, pos, data)[p - g.blksiz] == bytes[p])
  }

  function BufferOf(x: byte): (r: seq<byte>)
    ensures |r| == LOGICAL_EXTENT && forall j :: 0 <= j < |r| ==> r[j] == x
  {
    seq<byte>(LOGICAL_EXTENT, _ => x)
  }

  /** Such a write changes exactly the bytes it was given, whatever the uninitialised buffer held, if and only if
      that is so. */
  lemma WriteKeepsTail(g: Geometry, v: Volume, ino: nat, pos: nat, data: seq<byte>, files: Files)
    requires Consistent(g, v) && Mounted(g, v) && ino < |v.dir| && Live(g, v.dir[ino]) && pos + |data| <= MAX_FILE
    requires Contents(g, v, files) && KeyOf(v.dir[ino]) in files && pos + |data| < |files[KeyOf(v.dir[ino])]|
    requires 0 < |data|
    ensures TailFromFile(g, pos, data, files[KeyOf(v.dir[ino])]) <==>
      forall buffer: seq<byte> :: |buffer| == LOGICAL_EXTENT ==>
        Contents(g, Write(g, v, ino, pos, None, data, buffer).vol,
                 files[KeyOf(v.dir[ino]) := Overwritten(files[KeyOf(v.dir[ino])], pos, data)])
  {
    hide ValidGeometry, Consistent, WellSized, PointersInRange, KeyOf, Live, Write, Contents, Overwritten, TailAgrees,
         TailFromFile, Offset;
    var f, bytes := KeyOf(v.dir[ino]), files[KeyOf(v.dir[ino])];
    forall buffer: seq<byte> | |buffer| == LOGICAL_EXTENT
      ensures Contents(g, Write(g, v, ino, pos, None, data, buffer).vol, files[f := Overwritten(bytes, pos, data)])
              <==> TailAgrees(g, pos, data, buffer, bytes)
    {
      WriteExact(g, v, ino, pos, None, data, buffer, files);
    }
    if TailFromFile(g, pos, data, bytes) {
      forall buffer: seq<byte> | |buffer| == LOGICAL_EXTENT ensures TailAgrees(g, pos, data, buffer, bytes) {
        FromFileAgrees(g, pos, data, buffer, bytes);
      }
    } else {
      var buffer := DamagingBuffer(g, pos, data, bytes);
    }
  }

  lemma FromFileAgrees(g: Geometry, pos: nat, data: seq<byte>, buffer: seq<byte>, bytes: seq<byte>)
    requires ValidGeometry(g) && 0 < |data| && pos + |data| < |bytes| && |buffer| == LOGICAL_EXTENT
    requires TailFromFile(g, pos, data, bytes)
    ensures TailAgrees(g, pos, data, buffer, bytes)
  {
    hide ValidGeometry, Offset, Filled, FromBuffer, LastStart, Overwritten;
    var q := LastStart(g, pos, |data|);
    forall p: nat | p < |bytes| && InTail(g, pos, |data|, p)
      ensures TailByte(g, pos, data, buffer, bytes, Offset(g, q) + (p - q)) == bytes[p]
    {
      TailByteAt(g, pos, data, buffer, bytes, p);
    }
  }

  /** Where the last pass takes byte `p` from. */
  lemma TailByteAt(g: Geometry, pos: nat, data: seq<byte>, buffer: seq<byte>, bytes: seq<byte>, p: nat)
    requires ValidGeometry(g) && 0 < |data| && pos + |data| < |bytes| && |buffer| == LOGICAL_EXTENT
    requires p < |bytes| && InTail(g, pos, |data|, p)
    ensures var q := LastStart(g, pos, |data|);
      var j := Offset(g, q) + (p - q);
      && j < g.blksiz <= LOGICAL_EXTENT
      && (Filled(g, pos, |data|, j) ==>
            g.blksiz <= p && TailByte(g, pos, data, buffer, bytes, j) == Overwritten(bytes, pos, data)[p - g.blksiz])
      && (!Filled(g, pos, |data|, j) ==> TailByte(g, pos, data, buffer, bytes, j) == buffer[j])
  {
    hide ValidGeometry, Offset, FromBuffer, LastStart, Overwritten, SectorStart;
    BlockFitsBuffer(g);
    if LastStart(g, pos, |data|) != pos {
      BlockBefore(g, pos, |data|);
    }
  }

  lemma DamagingBuffer(g: Geometry, pos: nat, data: seq<byte>, bytes: seq<byte>) returns (buffer: seq<byte>)
    requires ValidGeometry(g) && 0 < |data| && pos + |data| < |bytes| && !TailFromFile(g, pos, data, bytes)
    ensures |buffer| == LOGICAL_EXTENT && !TailAgrees(g, pos, data, buffer, bytes)
  {
    hide ValidGeometry, Offset, Filled, FromBuffer, LastStart, Overwritten;
    var q := LastStart(g, pos, |data|);
    if p: nat :| p < |bytes| && InTail(g, pos, |data|, p) && !Filled(g, pos, |data|, Offset(g, q) + (p - q)) {
      buffer := BufferOf(if bytes[p] == 0 then 1 else 0);
      TailByteAt(g, pos, data, buffer, bytes, p);
    } else {
      buffer := BufferOf(0);
      var p := WrongByte(g, pos, data, bytes);
      TailByteAt(g, pos, data, buffer, bytes, p);
    }
  }

  lemma WrongByte(g: Geometry, pos: nat, data: seq<byte>, bytes: seq<byte>) returns (p: nat)
    requires ValidGeometry(g) && 0 < |data| && pos + |data| < |bytes| && !TailFromFile(g, pos, data, bytes)
    requires var q := LastStart(g, pos, |data|);
      forall p: nat :: p < |bytes| && InTail(g, pos, |data|, p) ==> Filled(g, pos, |data|, Offset(g, q) + (p - q))
    ensures p < |bytes| && InTail(g, pos, |data|, p) && g.blksiz <= p &&
      Overwritten(bytes, pos, data)[p - g.blksiz] != bytes[p]
  {
    hide ValidGeometry, Offset, FromBuffer, LastStart, Overwritten, SectorStart;
    BlockBefore(g, pos, |data|);
    p :| p < |bytes| && InTail(g, pos, |data|, p) && Overwritten(bytes, pos, data)[p - g.blksiz] != bytes[p];
  }

  /** In particular it is if the sector the write ends in is fetched or covered; inside one block there is no other
      way. */
  lemma FetchedTail(g: Geometry, pos: nat, data: seq<byte>, bytes: seq<byte>)
    requires ValidGeometry(g) && 0 < |data| && pos + |data| < |bytes|
    ensures var q := LastStart(g, pos, |data|);
      var kept := KeepsRest(g, Offset(g, q), pos + |data| - q);
      && (kept ==> TailFromFile(g, pos, data, bytes))
      && (q == pos ==> (TailFromFile(g, pos, data, bytes) <==> kept))
  {
    hide ValidGeometry, Offset, KeepsRest, LastStart, SectorStart;
    var q := LastStart(g, pos, |data|);
    if q == pos && !KeepsRest(g, Offset(g, q), pos + |data| - q) {
      RestExists(g, Offset(g, pos), |data|);
      assert InTail(g, pos, |data|, pos + |data|);
    }
  }

  /** The write reaches the end of the file, or what it puts behind itself comes from there. */
  ghost predicate KeepsTail(g: Geometry, pos: nat, data: seq<byte>, bytes: seq<byte>)
    requires ValidGeometry(g)
  {
    |data| == 0 || |bytes| <= pos + |data| || TailFromFile(g, pos, data, bytes)
  }

  /** A write anywhere in a file puts exactly the stored prefix there and changes nothing else, wherever it stops, if
      it keeps its tail or stops for want of space. */
  lemma WriteStores(g: Geometry, v: Volume, ino: nat, pos: nat, cursor: Option<Cursor>, data: seq<byte>,
                    buffer: seq<byte>, files: Files)
    requires WriteState(g, v, ino, pos, cursor, |data|, buffer) && Writable(g, v, ino, cursor, buffer)
    requires Contents(g, v, files) && KeyOf(v.dir[ino]) in files && pos <= |files[KeyOf(v.dir[ino])]|
    requires Write(g, v, ino, pos, cursor, data, buffer).failed || KeepsTail(g, pos, data, files[KeyOf(v.dir[ino])])
    ensures var f, r := KeyOf(v.dir[ino]), Write(g, v, ino, pos, cursor, data, buffer);
      Contents(g, r.vol, files[f := Overwritten(files[f], pos, data[..r.got])])
  {
    hide ValidGeometry, Consistent, CursorOk, CursorFits, WellSized, PointersInRange, KeyOf, Live, WritePass,
         Contents, Overwritten, TailFromFile, TailAgrees;
    var f, bytes := KeyOf(v.dir[ino]), files[KeyOf(v.dir[ino])];
    if Write(g, v, ino, pos, cursor, data, buffer).failed || |bytes| <= pos + |data| {
      WriteContents(g, v, ino, pos, cursor, data, buffer, files);
    } else if |data| == 0 {
      OverwriteNothing(files, f, pos, data);
    } else {
      FromFileAgrees(g, pos, data, buffer, bytes);
      WriteExact(g, v, ino, pos, cursor, data, buffer, files);
      assert data[..|data|] == data;
    }
  }
}
