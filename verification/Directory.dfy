/** Directory entries, the file they belong to, their block pointers and the directory scans. */
module Directory {
  import opened Geometry

  /** `struct PhysDirectoryEntry`. */
  datatype Entry = Entry(status: byte, name: seq<byte>, ext: seq<byte>, extnol: byte, lrc: byte,
                         extnoh: byte, blkcnt: byte, pointers: seq<byte>)

  const ZEROS16: seq<byte> := [0, 0, 0, 0, 0, 0, 0, 0, 0, 0, 0, 0, 0, 0, 0, 0]
  const BLANKS8: seq<byte> := [32, 32, 32, 32, 32, 32, 32, 32]
  const BLANKS3: seq<byte> := [32, 32, 32]

  type DirEntry = e: Entry | |e.name| == 8 && |e.ext| == 3 && |e.pointers| == 16
    witness Entry(0, BLANKS8, BLANKS3, 0, 0, 0, 0, ZEROS16)

  const UNUSED: byte := 0xE5

  /** A file: user number, name and extension without the attribute bits. */
  datatype Key = Key(user: byte, name: seq<byte>, ext: seq<byte>)

  function Strip(s: seq<byte>): (r: seq<byte>)
    ensures |r| == |s| && forall i :: 0 <= i < |s| ==> r[i] == s[i] % 128
  {
    seq(|s|, i requires 0 <= i < |s| => s[i] % 128)
  }

  function KeyOf(e: DirEntry): Key {
    Key(e.status, Strip(e.name), Strip(e.ext))
  }

  /** Keys as `splitFilename` produces them: padded, 7-bit, user number below 32. */
  predicate ValidKey(g: Geometry, f: Key) {
    && f.user <= MaxUser(g)
    && |f.name| == 8 && |f.ext| == 3
    && (forall i :: 0 <= i < 8 ==> f.name[i] < 128)
    && (forall i :: 0 <= i < 3 ==> f.ext[i] < 128)
  }

  function MaxUser(g: Geometry): byte {
    if g.os.hiUser then 31 else 15
  }

  const STAMP: byte := 0x21

  const LABEL: byte := 0x20

  /** The entry that may hold the stamps of another one is in the directory. */
  predicate StampsFit(g: Geometry) {
    g.os.cpm3Dates ==> g.maxdir % 4 == 0
  }

  const BLANK: byte := 32

  /** `ISFILECHAR`. */
  predicate FileChar(notFirst: bool, c: byte) {
    && (notFirst || c != BLANK) && BLANK <= c < 128
    && c != '<' as int && c != '>' as int && c != '.' as int && c != ',' as int && c != ';' as int
    && c != ':' as int && c != '=' as int && c != '?' as int && c != '*' as int
    && c != '[' as int && c != ']' as int
  }

  /** The entry belongs to a file. */
  predicate Live(g: Geometry, e: DirEntry) {
    e.status <= MaxUser(g)
  }

  lemma UnusedIsNotLive(g: Geometry, e: DirEntry)
    requires e.status == UNUSED
    ensures !Live(g, e)
  {}

  /** `EXTENT(low, high)`. */
  function ExtentNumber(e: DirEntry): (r: nat)
    ensures r < MAX_EXTENTS
  {
    e.extnol % 32 + 32 * (e.extnoh % 64)
  }

  /** `EXTENTL(extent)`. */
  function ExtentLow(extno: nat): byte {
    extno % 32
  }

  /** `EXTENTH(extent)`. */
  function ExtentHigh(extno: nat): byte {
    extno / 32 % 64
  }

  function WithExtentNumber(e: DirEntry, extno: nat): DirEntry {
    e.(extnol := ExtentLow(extno), extnoh := ExtentHigh(extno))
  }

  lemma ExtentNumberRoundTrip(e: DirEntry, extno: nat)
    requires extno < MAX_EXTENTS
    ensures ExtentNumber(WithExtentNumber(e, extno)) == extno
  {}

  /** Which physical extent of its file the entry describes. */
  function PhysicalOf(g: Geometry, e: DirEntry): nat
    requires ValidGeometry(g)
  {
    ExtentNumber(e) / g.extents
  }

  /** Block pointer `k`: one byte, or two little-endian bytes on volumes over 256 blocks. */
  function Ptr(g: Geometry, e: DirEntry, k: nat): (b: nat)
    requires k < PointersPerEntry(g)
    ensures b < 65536
  {
    if g.size <= 256 then e.pointers[k] else e.pointers[2 * k] as int + 256 * (e.pointers[2 * k + 1] as int)
  }

  /** Pointer `k` of an entry that belongs to a file, 0 for any other entry. */
  function LivePtr(g: Geometry, e: DirEntry, k: nat): nat
    requires k < PointersPerEntry(g)
  {
    if Live(g, e) then Ptr(g, e, k) else 0
  }

  function SetPtr(g: Geometry, e: DirEntry, k: nat, b: nat): DirEntry
    requires k < PointersPerEntry(g)
  {
    if g.size <= 256 then e.(pointers := e.pointers[k := b % 256])
    else e.(pointers := e.pointers[2 * k := b % 256][2 * k + 1 := b / 256 % 256])
  }

  /** Setting a pointer of a file's entry reads back, and changes nothing else. */
  lemma SetPtrFacts(g: Geometry, e: DirEntry, k: nat, b: nat)
    requires k < PointersPerEntry(g) && b < g.size <= 65536 && Live(g, e)
    ensures var r := SetPtr(g, e, k, b);
      && r == e.(pointers := r.pointers) && Live(g, r) && KeyOf(r) == KeyOf(e)
      && LivePtr(g, r, k) == b
      && forall j: nat :: j < PointersPerEntry(g) && j != k ==> LivePtr(g, r, j) == LivePtr(g, e, j)
  {}

  lemma SamePointers(g: Geometry, e: DirEntry, e': DirEntry)
    requires e.pointers == e'.pointers && Live(g, e') == Live(g, e)
    ensures forall k: nat :: k < PointersPerEntry(g) ==> LivePtr(g, e', k) == LivePtr(g, e, k)
  {}

  /** What `findFileExtent` accepts; `extno == -1` accepts every extent. */
  predicate Matches(g: Geometry, e: DirEntry, f: Key, extno: int)
    requires ValidGeometry(g) && -1 <= extno
  {
    && Live(g, e)
    && (extno == -1 || PhysicalOf(g, e) == extno / g.extents)
    && KeyOf(e) == f
  }

  lemma MatchIsLive(g: Geometry, e: DirEntry, f: Key)
    requires ValidGeometry(g)
    ensures Matches(g, e, f, -1) <==> Live(g, e) && KeyOf(e) == f
  {}

  /** `findFileExtent`: first match at or after `start`, -1 when there is none. */
  function FindFileExtent(g: Geometry, dir: seq<DirEntry>, f: Key, start: nat, extno: int): (r: int)
    requires ValidGeometry(g) && -1 <= extno
    ensures r == -1 ==> forall i :: start <= i < |dir| ==> !Matches(g, dir[i], f, extno)
    ensures r != -1 ==> start <= r < |dir| && Matches(g, dir[r], f, extno)
    ensures r != -1 ==> forall i :: start <= i < r ==> !Matches(g, dir[i], f, extno)
    decreases |dir| - start
  {
    if start >= |dir| then -1
    else if Matches(g, dir[start], f, extno) then start
    else FindFileExtent(g, dir, f, start + 1, extno)
  }

  /** `findFreeExtent`: first unused entry, -1 when the directory is full. */
  function FindFreeExtent(dir: seq<DirEntry>, start: nat): (r: int)
    ensures r == -1 ==> forall i :: start <= i < |dir| ==> dir[i].status != UNUSED
    ensures r != -1 ==> start <= r < |dir| && dir[r].status == UNUSED
    ensures r != -1 ==> forall i :: start <= i < r ==> dir[i].status != UNUSED
    decreases |dir| - start
  {
    if start >= |dir| then -1
    else if dir[start].status == UNUSED then start
    else FindFreeExtent(dir, start + 1)
  }
}
