/** The directory on disk: 32 bytes an entry, packed into the first blocks. `cpmSync` writes it,
    `cpmReadSuper` reads it back. */
module Persistence {
  import opened Arithmetic
  import opened Geometry
  import opened Directory
  import opened Volume
  import opened Invariant
  import opened Refinement

  /** `struct PhysDirectoryEntry` byte by byte. */
  function EntryBytes(e: DirEntry): (r: seq<byte>)
    ensures |r| == 32
  {
    [e.status] + e.name + e.ext + [e.extnol, e.lrc, e.extnoh, e.blkcnt] + e.pointers
  }

  function ParseEntry(b: seq<byte>): DirEntry
    requires |b| == 32
  {
    Entry(b[0], b[1..9], b[9..12], b[12], b[13], b[14], b[15], b[16..32])
  }

  lemma EntryRoundTrip(e: DirEntry)
    ensures ParseEntry(EntryBytes(e)) == e
  {}

  lemma BytesRoundTrip(b: seq<byte>)
    requires |b| == 32
    ensures EntryBytes(ParseEntry(b)) == b
  {}

  /** Byte `a` of the directory buffer. */
  function DirectoryByte(dir: seq<DirEntry>, slack: seq<byte>, a: nat): byte
    requires a < 32 * |dir| + |slack|
  {
    if a < 32 * |dir| then EntryBytes(dir[a / 32])[a % 32] else slack[a - 32 * |dir|]
  }

  lemma InDirectoryBuffer(g: Geometry, b: nat, o: nat)
    requires ValidGeometry(g) && b < DirectoryBlocks(g) && o < g.blksiz
    ensures b * g.blksiz + o < 32 * g.maxdir + SlackBytes(g)
  {
    MulMonotone(b + 1, DirectoryBlocks(g), g.blksiz);
    assert (b + 1) * g.blksiz == b * g.blksiz + g.blksiz;
  }

  /** Block `b` of the directory as `cpmSync` writes it. */
  function DirectoryBlock(g: Geometry, dir: seq<DirEntry>, slack: seq<byte>, b: nat): (r: seq<byte>)
    requires ValidGeometry(g) && |dir| == g.maxdir && |slack| == SlackBytes(g) && b < DirectoryBlocks(g)
    ensures |r| == g.blksiz
  {
    seq<byte>(g.blksiz, o requires 0 <= o < g.blksiz =>
      InDirectoryBuffer(g, b, o); DirectoryByte(dir, slack, b * g.blksiz + o))
  }

  /** `cpmSync`. */
  function Sync(g: Geometry, v: Volume): Volume
    requires ValidGeometry(g) && WellSized(g, v)
  {
    if !v.dirty then v
    else v.(data := seq(g.size, b requires 0 <= b < g.size =>
              if b < DirectoryBlocks(g) then DirectoryBlock(g, v.dir, v.slack, b) else v.data[b]),
            dirty := false)
  }

  /** Byte `a` of the buffer `cpmReadSuper` fills from the first blocks. */
  function BufferByte(g: Geometry, data: seq<seq<byte>>, a: nat): byte
    requires ValidGeometry(g) && IsDisk(g, data) && a < 32 * g.maxdir + SlackBytes(g)
  {
    DirectoryFits(g);
    BlockOfByte(g, a);
    data[a / g.blksiz][a % g.blksiz]
  }

  ghost predicate IsDisk(g: Geometry, data: seq<seq<byte>>) {
    |data| == g.size && forall b :: 0 <= b < g.size ==> |data[b]| == g.blksiz
  }

  lemma BlockOfByte(g: Geometry, a: nat)
    requires ValidGeometry(g) && a < 32 * g.maxdir + SlackBytes(g)
    ensures a / g.blksiz < DirectoryBlocks(g)
  {
    DivModEquation(a, g.blksiz);
    if DirectoryBlocks(g) <= a / g.blksiz {
      MulMonotone(DirectoryBlocks(g), a / g.blksiz, g.blksiz);
    }
  }

  /** The directory part of `cpmReadSuper`. */
  ghost function Mount(g: Geometry, data: seq<seq<byte>>): Volume
    requires ValidGeometry(g) && IsDisk(g, data)
  {
    var dir := seq(g.maxdir, i requires 0 <= i < g.maxdir => ParseEntry(EntryOnDisk(g, data, i)));
    var slack := seq<byte>(SlackBytes(g), a requires 0 <= a < SlackBytes(g) => BufferByte(g, data, 32 * g.maxdir + a));
    Volume(dir, slack, AlvOf(g, dir), data, false)
  }

  /** The 32 bytes of entry `i`. */
  function EntryOnDisk(g: Geometry, data: seq<seq<byte>>, i: nat): (r: seq<byte>)
    requires ValidGeometry(g) && IsDisk(g, data) && i < g.maxdir
    ensures |r| == 32
  {
    seq<byte>(32, j requires 0 <= j < 32 => BufferByte(g, data, 32 * i + j))
  }

  lemma SyncIsDisk(g: Geometry, v: Volume)
    requires ValidGeometry(g) && WellSized(g, v)
    ensures IsDisk(g, v.data) && IsDisk(g, Sync(g, v).data)
  {}

  lemma SyncedByte(g: Geometry, v: Volume, a: nat)
    requires ValidGeometry(g) && WellSized(g, v) && v.dirty && a < 32 * g.maxdir + SlackBytes(g)
    requires IsDisk(g, Sync(g, v).data)
    ensures BufferByte(g, Sync(g, v).data, a) == DirectoryByte(v.dir, v.slack, a)
  {
    DirectoryFits(g);
    BlockOfByte(g, a);
    DivModEquation(a, g.blksiz);
  }

  /** A mount after a sync finds the directory that was synced, and with it the allocation vector. */
  lemma MountAfterSync(g: Geometry, v: Volume)
    requires Consistent(g, v) && v.dirty
    ensures IsDisk(g, Sync(g, v).data)
    ensures Mount(g, Sync(g, v).data) == Sync(g, v)
  {
    hide BufferByte, DirectoryByte, ParseEntry, EntryBytes, ValidGeometry, Sync, DirectoryBlock;
    var data := Sync(g, v).data;
    SyncIsDisk(g, v);
    forall i | 0 <= i < g.maxdir ensures ParseEntry(EntryOnDisk(g, data, i)) == v.dir[i] {
      EntrySynced(g, v, i);
    }
    forall a | 0 <= a < SlackBytes(g) ensures BufferByte(g, data, 32 * g.maxdir + a) == v.slack[a] {
      SlackSynced(g, v, a);
    }
    SyncKeepsCore(g, v);
    assert Mount(g, data).dir == v.dir;
    assert Mount(g, data).slack == v.slack;
  }

  lemma SyncKeepsCore(g: Geometry, v: Volume)
    requires ValidGeometry(g) && WellSized(g, v) && v.dirty
    ensures Sync(g, v).dir == v.dir && Sync(g, v).slack == v.slack && Sync(g, v).alv == v.alv && !Sync(g, v).dirty
  {}

  lemma EntrySynced(g: Geometry, v: Volume, i: nat)
    requires ValidGeometry(g) && WellSized(g, v) && v.dirty && i < g.maxdir
    requires IsDisk(g, Sync(g, v).data)
    ensures ParseEntry(EntryOnDisk(g, Sync(g, v).data, i)) == v.dir[i]
  {
    hide ValidGeometry, Sync, BufferByte, EntryBytes, ParseEntry;
    forall j | 0 <= j < 32 ensures BufferByte(g, Sync(g, v).data, 32 * i + j) == EntryBytes(v.dir[i])[j] {
      SyncedByte(g, v, 32 * i + j);
    }
    assert EntryOnDisk(g, Sync(g, v).data, i) == EntryBytes(v.dir[i]);
    EntryRoundTrip(v.dir[i]);
  }

  lemma SlackSynced(g: Geometry, v: Volume, a: nat)
    requires ValidGeometry(g) && WellSized(g, v) && v.dirty && a < SlackBytes(g)
    requires IsDisk(g, Sync(g, v).data)
    ensures BufferByte(g, Sync(g, v).data, 32 * g.maxdir + a) == v.slack[a]
  {
    hide ValidGeometry, Sync, BufferByte;
    SyncedByte(g, v, 32 * g.maxdir + a);
  }

  lemma SyncConsistent(g: Geometry, v: Volume)
    requires Consistent(g, v)
    ensures Consistent(g, Sync(g, v))
  {
    hide ValidGeometry, PointersOk, NoSharing, UniqueExtents, AlvOf, DirectoryBlock;
  }

  /** Writing the directory back disturbs no file. */
  lemma SyncRefines(g: Geometry, v: Volume, files: Files)
    requires Consistent(g, v) && Contents(g, v, files)
    ensures Consistent(g, Sync(g, v)) && Contents(g, Sync(g, v), files)
    ensures Sync(g, v).dir == v.dir
  {
    hide ValidGeometry, KeyOf, PhysicalOf, LivePtr, Live, AlvOf, NoSharing, UniqueExtents, DirectoryBlock,
         NoBlocksBehind;
    var v' := Sync(g, v);
    DirectoryFits(g);
    forall i: nat | i < |v.dir| && Live(g, v'.dir[i]) ensures EntryContents(g, v', i, files) {
      assert EntryContents(g, v, i, files);
      forall p: nat | p < |files[KeyOf(v.dir[i])]| && PhysicalExtent(g, p) == PhysicalOf(g, v.dir[i])
        ensures ByteAt(g, v'.data, LivePtr(g, v.dir[i], Slot(g, p)), Offset(g, p), files[KeyOf(v.dir[i])][p])
      {
        assert ByteAt(g, v.data, LivePtr(g, v.dir[i], Slot(g, p)), Offset(g, p), files[KeyOf(v.dir[i])][p]);
      }
    }
  }

  // ----- the bytes on disk ---------------------------------------------------------------------------

  /** Byte `j` of a directory entry, as the format lays it out. */
  lemma EntryLayout(e: DirEntry, j: nat)
    requires j < 32
    ensures EntryBytes(e)[j] ==
      if j == 0 then e.status
      else if j < 9 then e.name[j - 1]
      else if j < 12 then e.ext[j - 9]
      else if j == 12 then e.extnol
      else if j == 13 then e.lrc
      else if j == 14 then e.extnoh
      else if j == 15 then e.blkcnt
      else e.pointers[j - 16]
  {}

  /** Block pointers on disk: sixteen bytes, or on volumes of over 256 blocks eight pairs with the low byte first. */
  lemma PointerLayout(g: Geometry, e: DirEntry, k: nat)
    requires k < PointersPerEntry(g)
    ensures PointersPerEntry(g) == if g.size <= 256 then 16 else 8
    ensures var b := EntryBytes(e);
      Ptr(g, e, k) == if g.size <= 256 then b[16 + k] else b[16 + 2 * k] as int + 256 * (b[17 + 2 * k] as int)
  {
    hide EntryBytes;
    if g.size <= 256 {
      EntryLayout(e, 16 + k);
    } else {
      EntryLayout(e, 16 + 2 * k);
      EntryLayout(e, 17 + 2 * k);
    }
  }

  /** A sync of a changed directory stores entry after entry from the start of block 0 on, and writes no block behind
      the directory; a sync of an unchanged one writes nothing. */
  lemma SyncStores(g: Geometry, v: Volume, i: nat, j: nat)
    requires ValidGeometry(g) && WellSized(g, v) && i < g.maxdir && j < 32
    ensures IsDisk(g, Sync(g, v).data) && (32 * i + j) / g.blksiz < g.size
    ensures v.dirty ==>
      Sync(g, v).data[(32 * i + j) / g.blksiz][(32 * i + j) % g.blksiz] == EntryBytes(v.dir[i])[j]
    ensures forall b: nat :: b < g.size && 32 * g.maxdir <= b * g.blksiz ==> Sync(g, v).data[b] == v.data[b]
    ensures !v.dirty ==> Sync(g, v) == v
  {
    hide EntryBytes, ValidBlockSize, ValidExtents;
    SyncIsDisk(g, v);
    DirectoryFits(g);
    BlockOfByte(g, 32 * i + j);
    forall b: nat | b < g.size && 32 * g.maxdir <= b * g.blksiz ensures DirectoryBlocks(g) <= b {
      BehindDirectory(g, b);
    }
    if v.dirty {
      SyncedByte(g, v, 32 * i + j);
    }
  }

  lemma BehindDirectory(g: Geometry, b: nat)
    requires ValidGeometry(g) && 32 * g.maxdir <= b * g.blksiz
    ensures DirectoryBlocks(g) <= b
  {
    hide ValidExtents;
    assert b * g.blksiz + g.blksiz == (b + 1) * g.blksiz;
    QuotientBound(32 * g.maxdir + g.blksiz - 1, g.blksiz, b);
  }

  /** A mount reads the entries from there, whatever they hold, and takes the bitmap from what they point to. */
  lemma MountReads(g: Geometry, data: seq<seq<byte>>, i: nat, j: nat)
    requires ValidGeometry(g) && IsDisk(g, data) && i < g.maxdir && j < 32
    ensures (32 * i + j) / g.blksiz < g.size
    ensures var v := Mount(g, data);
      && |v.dir| == g.maxdir && v.data == data && !v.dirty && v.alv == AlvOf(g, v.dir)
      && EntryBytes(v.dir[i])[j] == data[(32 * i + j) / g.blksiz][(32 * i + j) % g.blksiz]
  {
    hide EntryBytes, ParseEntry, ValidGeometry, AlvOf, BufferByte, EntryOnDisk;
    ByteOnDisk(g, data, i, j);
    BytesRoundTrip(EntryOnDisk(g, data, i));
  }

  lemma ByteOnDisk(g: Geometry, data: seq<seq<byte>>, i: nat, j: nat)
    requires ValidGeometry(g) && IsDisk(g, data) && i < g.maxdir && j < 32
    ensures 0 < g.blksiz && (32 * i + j) / g.blksiz < |data| == g.size && |data[(32 * i + j) / g.blksiz]| == g.blksiz
    ensures EntryOnDisk(g, data, i)[j] == data[(32 * i + j) / g.blksiz][(32 * i + j) % g.blksiz]
  {
    hide ValidGeometry, BufferByte;
    BufferedByte(g, data, 32 * i + j);
  }

  lemma InDirectoryBlocks(g: Geometry, a: nat)
    requires ValidGeometry(g) && a < 32 * g.maxdir + SlackBytes(g)
    ensures 0 < g.blksiz && a / g.blksiz < g.size
  {
    hide ValidBlockSize, ValidExtents, SlackBytes, DirectoryBlocks;
    DirectoryFits(g);
    BlockOfByte(g, a);
  }

  lemma BufferedByte(g: Geometry, data: seq<seq<byte>>, a: nat)
    requires ValidGeometry(g) && IsDisk(g, data) && a < 32 * g.maxdir + SlackBytes(g)
    ensures 0 < g.blksiz && a / g.blksiz < |data| == g.size && |data[a / g.blksiz]| == g.blksiz
    ensures BufferByte(g, data, a) == data[a / g.blksiz][a % g.blksiz]
  {
    hide ValidGeometry, SlackBytes, DirectoryBlocks;
    InDirectoryBlocks(g, a);
  }
}
