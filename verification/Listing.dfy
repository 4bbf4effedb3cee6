/** Directory enumeration: `cpmReaddir`, called until it reports the end. */
module Listing {
  import opened Wrappers
  import opened Geometry
  import opened Directory
  import opened V = Volume
  import opened Names
  import opened FileSystem
  import Invariant

  /** Positions taken by `.`, `..`, `[passwd]` and `[label]`; the last two only exist on labelled
      volumes, which are not modelled. */
  const RESERVED_ENTRIES := 4
  const RESERVED_INODES := 3

  datatype Dirent = Dirent(ino: nat, name: seq<byte>, off: nat)

  const DOT_ENTRY: seq<byte> := [DOT]
  const DOT_DOT_ENTRY: seq<byte> := [DOT, DOT]

  /** No entry of the same file has a smaller extent number. */
  predicate IsFirst(dir: seq<DirEntry>, i: nat)
    requires i < |dir|
  {
    forall j :: 0 <= j < |dir| && KeyOf(dir[j]) == KeyOf(dir[i]) ==> ExtentNumber(dir[i]) <= ExtentNumber(dir[j])
  }

  predicate Listed(g: Geometry, dir: seq<DirEntry>, i: nat)
    requires i < |dir|
  {
    Live(g, dir[i]) && IsFirst(dir, i)
  }

  /** The next listed entry from `i` on, `|dir|` at the end. */
  function NextListed(g: Geometry, dir: seq<DirEntry>, i: nat): (r: nat)
    requires i <= |dir|
    ensures i <= r <= |dir| && (r < |dir| ==> Listed(g, dir, r))
    ensures forall j :: i <= j < r ==> !Listed(g, dir, j)
    decreases |dir| - i
  {
    if i == |dir| || Listed(g, dir, i) then i else NextListed(g, dir, i + 1)
  }

  /** What the directory lists for entry `i`. */
  function EntryFor(dir: seq<DirEntry>, i: nat, uppercase: bool): Dirent
    requires i < |dir| && dir[i].status < 100
  {
    Dirent(i + RESERVED_ENTRIES - RESERVED_INODES, PrintedName(KeyOf(dir[i]), uppercase), i + RESERVED_ENTRIES)
  }

  /** The scan for an entry of the same file with a smaller extent number. */
  method FindFirst(sb: SuperBlock, cur: nat) returns (isFirst: bool)
    requires sb.Valid() && cur < sb.dir.Length
    ensures isFirst == IsFirst(sb.dir[..], cur)
  {
    hide ValidGeometry, AlvBits, SlackBytes, ExtentNumber;
    var e := sb.dir[cur];
    var first := cur;
    for i := 0 to sb.g.maxdir
      invariant 0 <= first < sb.dir.Length
      invariant first == cur <==>
        forall j :: 0 <= j < i && KeyOf(sb.dir[j]) == KeyOf(e) ==> ExtentNumber(e) <= ExtentNumber(sb.dir[j])
    {
      if i != cur {
        var same := SuperBlock.IsMatching(e.status, e.name, e.ext, sb.dir[i].status, sb.dir[i].name, sb.dir[i].ext);
        assert same <==> KeyOf(e) == KeyOf(sb.dir[i]);
        if same && ExtentNumber(e) > ExtentNumber(sb.dir[i]) {
          first := i;
        }
      }
    }
    isFirst := first == cur;
  }

  /** One padded field up to its first blank, copied in the wanted case. */
  method PrintField(field: seq<byte>, uppercase: bool, dotted: bool) returns (text: seq<byte>)
    ensures var t := Cased(Trim(Strip(field)), uppercase);
      text == if dotted && t != [] then [DOT] + t else t
  {
    hide ToLower, Trim, Cased, Strip, Printed;
    ghost var all := Trim(Strip(field));
    var i: nat, hasext := 0, false;
    text := [];
    NothingPrinted(all, uppercase, dotted);
    while i < |field| && field[i] % 128 != BLANK
      invariant i <= |all| && hasext == (dotted && i > 0)
      invariant text == Printed(all, i, uppercase, dotted)
    {
      TrimLonger(Strip(field), i);
      PrintedMore(all, i, uppercase, dotted);
      if dotted && !hasext {
        text, hasext := text + [DOT], true;
      }
      text := text + [if uppercase then field[i] % 128 else ToLower(field[i] % 128)];
      i := i + 1;
    }
    TrimEnds(Strip(field), i);
    AllPrinted(all, uppercase, dotted);
  }

  /** The first `i` characters of a field as printed. */
  function Printed(all: seq<byte>, i: nat, uppercase: bool, dotted: bool): seq<byte>
    requires i <= |all|
  {
    (if dotted && i > 0 then [DOT] else []) + Cased(all[..i], uppercase)
  }

  lemma NothingPrinted(all: seq<byte>, uppercase: bool, dotted: bool)
    ensures Printed(all, 0, uppercase, dotted) == []
  {}

  lemma PrintedMore(all: seq<byte>, i: nat, uppercase: bool, dotted: bool)
    requires i < |all|
    ensures Printed(all, i + 1, uppercase, dotted) ==
      (if dotted && i == 0 then Printed(all, i, uppercase, dotted) + [DOT] else Printed(all, i, uppercase, dotted))
        + [if uppercase then all[i] else ToLower(all[i])]
  {
    hide ToLower;
    CasedMore(all, i, uppercase);
    assert all[..0] == [];
  }

  lemma AllPrinted(all: seq<byte>, uppercase: bool, dotted: bool)
    ensures var t := Cased(all, uppercase);
      Printed(all, |all|, uppercase, dotted) == if dotted && t != [] then [DOT] + t else t
  {
    hide ToLower;
    assert all[..|all|] == all;
  }

  lemma {:induction false} TrimEnds(s: seq<byte>, i: nat)
    requires i <= |Trim(s)| && (i == |s| || (i < |s| && s[i] == BLANK))
    ensures i == |Trim(s)|
  {}

  lemma TrimLonger(s: seq<byte>, i: nat)
    requires i <= |Trim(s)| && i < |s| && s[i] != BLANK
    ensures i < |Trim(s)| && Trim(s)[i] == s[i]
  {}

  lemma CasedMore(s: seq<byte>, i: nat, uppercase: bool)
    requires i < |s|
    ensures Cased(s[..i + 1], uppercase) == Cased(s[..i], uppercase) + [if uppercase then s[i] else ToLower(s[i])]
  {
    hide ToLower;
    assert s[..i + 1] == s[..i] + [s[i]];
  }

  /** The name of an entry the way `cpmReaddir` puts it together. */
  method PrintEntry(e: DirEntry, uppercase: bool) returns (name: seq<byte>)
    requires e.status < 100
    ensures name == PrintedName(KeyOf(e), uppercase)
  {
    hide Cased, Trim, Strip, Dotted;
    var base := PrintField(e.name, uppercase, false);
    var ext := PrintField(e.ext, uppercase, true);
    var user: seq<byte> := [ZERO + e.status / 10, ZERO + e.status % 10];
    name := user + base + ext;
    TwoFields(user, base, ext, Cased(Trim(Strip(e.ext)), uppercase));
  }

  lemma TwoFields(user: seq<byte>, base: seq<byte>, ext: seq<byte>, x: seq<byte>)
    requires ext == if x != [] then [DOT] + x else x
    ensures user + base + ext == user + Dotted(base, x)
  {
    assert user + base + ext == user + (base + ext);
  }

  /** `cpmReaddir`. */
  method Readdir(sb: SuperBlock, d: File, uppercase: bool) returns (more: bool, ent: Dirent)
    requires sb.Valid()
    modifies d`pos
    ensures old(d.pos) == 0 ==> more && ent == Dirent(sb.g.maxdir, DOT_ENTRY, 0) && d.pos == 1
    ensures old(d.pos) == 1 ==> more && ent == Dirent(sb.g.maxdir, DOT_DOT_ENTRY, 1) && d.pos == 2
    ensures 2 <= old(d.pos) < sb.g.maxdir + RESERVED_ENTRIES ==>
      var i := NextListed(sb.g, sb.dir[..], if old(d.pos) < RESERVED_ENTRIES then 0 else old(d.pos) - RESERVED_ENTRIES);
      && (more <==> i < sb.dir.Length)
      && (more ==> ent == EntryFor(sb.dir[..], i, uppercase) && d.pos == i + RESERVED_ENTRIES + 1)
      && (!more ==> d.pos == sb.g.maxdir + RESERVED_ENTRIES)
    ensures sb.g.maxdir + RESERVED_ENTRIES <= old(d.pos) ==> !more && d.pos == old(d.pos)
  {
    hide ValidGeometry, AlvBits, SlackBytes, IsFirst, PrintedName;
    ghost var start := if d.pos < RESERVED_ENTRIES then 0 else d.pos - RESERVED_ENTRIES;
    ent := Dirent(0, [], 0);
    while true
      invariant d.pos < 2 ==> d.pos == old(d.pos)
      invariant 2 <= d.pos ==> 2 <= old(d.pos) <= d.pos
      invariant sb.g.maxdir + RESERVED_ENTRIES <= old(d.pos) ==> d.pos == old(d.pos)
      invariant old(d.pos) < sb.g.maxdir + RESERVED_ENTRIES ==>
        d.pos <= sb.g.maxdir + RESERVED_ENTRIES &&
        NextListed(sb.g, sb.dir[..], if d.pos < RESERVED_ENTRIES then 0 else d.pos - RESERVED_ENTRIES)
          == NextListed(sb.g, sb.dir[..], start)
      decreases sb.g.maxdir + RESERVED_ENTRIES - d.pos
    {
      if d.pos == 0 {
        ent := Dirent(sb.g.maxdir, DOT_ENTRY, d.pos);
        d.pos := d.pos + 1;
        return true, ent;
      } else if d.pos == 1 {
        ent := Dirent(sb.g.maxdir, DOT_DOT_ENTRY, d.pos);
        d.pos := d.pos + 1;
        return true, ent;
      } else if RESERVED_ENTRIES <= d.pos < sb.g.maxdir + RESERVED_ENTRIES {
        var cur := d.pos - RESERVED_ENTRIES;
        if sb.dir[cur].status <= MaxUser(sb.g) {
          var isFirst := FindFirst(sb, cur);
          if isFirst {
            var name := PrintEntry(sb.dir[cur], uppercase);
            ent := Dirent(d.pos - RESERVED_INODES, name, d.pos);
            d.pos := d.pos + 1;
            return true, ent;
          }
        }
      } else if d.pos >= RESERVED_ENTRIES {
        return false, ent;
      }
      d.pos := d.pos + 1;
    }
  }

  // ----- a whole enumeration --------------------------------------------------------------------------

  /** The listed entries from `i` on, in order. */
  function Enumeration(g: Geometry, dir: seq<DirEntry>, i: nat): (r: seq<nat>)
    requires i <= |dir|
    ensures forall k :: 0 <= k < |r| ==> i <= r[k] < |dir|
    decreases |dir| - i
  {
    var n := NextListed(g, dir, i);
    if n == |dir| then [] else [n] + Enumeration(g, dir, n + 1)
  }

  predicate Printable(dir: seq<DirEntry>, order: seq<nat>) {
    forall k :: 0 <= k < |order| ==> order[k] < |dir| && dir[order[k]].status < 100
  }

  function Dirents(dir: seq<DirEntry>, order: seq<nat>, uppercase: bool): (r: seq<Dirent>)
    requires Printable(dir, order)
    ensures |r| == |order|
  {
    seq(|order|, k requires 0 <= k < |order| => EntryFor(dir, order[k], uppercase))
  }

  lemma {:induction false} EnumerationIsPrintable(g: Geometry, dir: seq<DirEntry>, i: nat)
    requires i <= |dir|
    ensures Printable(dir, Enumeration(g, dir, i))
    decreases |dir| - i
  {
    hide IsFirst;
    var n := NextListed(g, dir, i);
    if n < |dir| {
      EnumerationIsPrintable(g, dir, n + 1);
    }
  }

  lemma EnumerationUnfolds(g: Geometry, dir: seq<DirEntry>, i: nat)
    requires i <= |dir|
    ensures var n := NextListed(g, dir, i);
      Enumeration(g, dir, i) == if n == |dir| then [] else [n] + Enumeration(g, dir, n + 1)
  {
    hide NextListed;
  }

  lemma DirentsMore(dir: seq<DirEntry>, order: seq<nat>, n: nat, uppercase: bool)
    requires Printable(dir, order) && n < |dir| && dir[n].status < 100
    ensures Printable(dir, order + [n])
    ensures Dirents(dir, order + [n], uppercase) == Dirents(dir, order, uppercase) + [EntryFor(dir, n, uppercase)]
  {
    hide PrintedName;
  }

  /** `cpmOpendir` and the loop of `cpmglob` that reads the directory to its end. */
  method ListAll(sb: SuperBlock, root: Inode, uppercase: bool) returns (entries: seq<Dirent>)
    requires sb.Valid()
    ensures Printable(sb.dir[..], Enumeration(sb.g, sb.dir[..], 0))
    ensures entries ==
      [Dirent(sb.g.maxdir, DOT_ENTRY, 0), Dirent(sb.g.maxdir, DOT_DOT_ENTRY, 1)]
        + Dirents(sb.dir[..], Enumeration(sb.g, sb.dir[..], 0), uppercase)
  {
    hide ValidGeometry, AlvBits, SlackBytes, NextListed, Enumeration, Dirents;
    var d := new File(root);
    EnumerationIsPrintable(sb.g, sb.dir[..], 0);
    var more, dot := Readdir(sb, d, uppercase);
    var more', dotDot := Readdir(sb, d, uppercase);
    var files := ListFiles(sb, d, uppercase);
    entries := [dot, dotDot] + files;
  }

  /** The rest of that loop, behind `.` and `..`. */
  method ListFiles(sb: SuperBlock, d: File, uppercase: bool) returns (entries: seq<Dirent>)
    requires sb.Valid() && d.pos == 2
    requires Printable(sb.dir[..], Enumeration(sb.g, sb.dir[..], 0))
    modifies d`pos
    ensures entries == Dirents(sb.dir[..], Enumeration(sb.g, sb.dir[..], 0), uppercase)
  {
    hide ValidGeometry, AlvBits, SlackBytes, NextListed, Enumeration, Dirents, EntryFor, Printable, Listed;
    ghost var dir := sb.dir[..];
    ghost var done: seq<nat>, i: nat := [], 0;
    entries := [];
    NothingListed(dir, uppercase);
    while true
      invariant sb.Valid() && i <= |dir| && 2 <= d.pos <= sb.g.maxdir + RESERVED_ENTRIES
      invariant i == if d.pos < RESERVED_ENTRIES then 0 else d.pos - RESERVED_ENTRIES
      invariant done + Enumeration(sb.g, dir, i) == Enumeration(sb.g, dir, 0)
      invariant Printable(dir, done) && entries == Dirents(dir, done, uppercase)
      decreases sb.g.maxdir + RESERVED_ENTRIES - d.pos
    {
      EnumerationStep(sb.g, dir, done, i, uppercase);
      var more, ent := Readdir(sb, d, uppercase);
      if !more {
        break;
      }
      ghost var n := NextListed(sb.g, dir, i);
      done, i, entries := done + [n], n + 1, entries + [ent];
    }
  }

  /** One more entry moves from what is to come to what is done. */
  lemma EnumerationStep(g: Geometry, dir: seq<DirEntry>, done: seq<nat>, i: nat, uppercase: bool)
    requires i <= |dir| && Printable(dir, done)
    ensures var n := NextListed(g, dir, i);
      if n == |dir| then done + Enumeration(g, dir, i) == done
      else
        && dir[n].status < 100 && Printable(dir, done + [n])
        && done + [n] + Enumeration(g, dir, n + 1) == done + Enumeration(g, dir, i)
        && Dirents(dir, done + [n], uppercase) == Dirents(dir, done, uppercase) + [EntryFor(dir, n, uppercase)]
  {
    hide NextListed, Enumeration, Dirents, EntryFor, Printable, Listed;
    EnumerationUnfolds(g, dir, i);
    var n := NextListed(g, dir, i);
    if n < |dir| {
      ListedIsLive(g, dir, n);
      DirentsMore(dir, done, n, uppercase);
      assert done + [n] + Enumeration(g, dir, n + 1) == done + ([n] + Enumeration(g, dir, n + 1));
    }
  }

  lemma ListedIsLive(g: Geometry, dir: seq<DirEntry>, n: nat)
    requires n < |dir| && Listed(g, dir, n)
    ensures dir[n].status < 100
  {}

  lemma NothingListed(dir: seq<DirEntry>, uppercase: bool)
    ensures Printable(dir, []) && Dirents(dir, [], uppercase) == []
  {}

  /** The enumeration goes up, and has exactly the listed entries. */
  lemma {:induction false} EnumerationIsComplete(g: Geometry, dir: seq<DirEntry>, i: nat)
    requires i <= |dir|
    ensures forall a, b :: 0 <= a < b < |Enumeration(g, dir, i)| ==>
      Enumeration(g, dir, i)[a] < Enumeration(g, dir, i)[b]
    ensures forall j: nat :: j in Enumeration(g, dir, i) <==> i <= j < |dir| && Listed(g, dir, j)
    decreases |dir| - i
  {
    hide Listed;
    var n := NextListed(g, dir, i);
    if n < |dir| {
      EnumerationIsComplete(g, dir, n + 1);
      var rest := Enumeration(g, dir, n + 1);
      assert forall j: nat :: j in Enumeration(g, dir, i) <==> j == n || j in rest;
    }
  }

  /** Without two entries for one extent, a file is listed at the entry `cpmNamei` resolves it to, and
      nowhere else. */
  lemma ListedOnce(g: Geometry, dir: seq<DirEntry>, i: nat)
    requires ValidGeometry(g) && Invariant.UniqueExtents(g, dir) && i < |dir| && Live(g, dir[i])
    ensures Listed(g, dir, i) <==> i == LowestEntry(g, dir, KeyOf(dir[i]), |dir|)
  {
    hide ValidGeometry, KeyOf, ExtentNumber, Live;
    var f := KeyOf(dir[i]);
    assert Matches(g, dir[i], f, -1);
    var low := LowestEntry(g, dir, f, |dir|);
    assert Matches(g, dir[low], f, -1);
    forall j | 0 <= j < |dir| && KeyOf(dir[j]) == f ensures Matches(g, dir[j], f, -1) {
      SameStatus(g, dir[i], dir[j]);
    }
    assert i != low ==> PhysicalOf(g, dir[i]) != PhysicalOf(g, dir[low]);
  }

  lemma SameStatus(g: Geometry, e: DirEntry, e': DirEntry)
    requires KeyOf(e) == KeyOf(e')
    ensures Live(g, e) == Live(g, e')
  {}

  /** Among the entries in `order`, entry `i` is the only one of file `f`, and it is there once. */
  predicate OnlyAt(dir: seq<DirEntry>, order: seq<nat>, f: Key, i: nat) {
    && i in order
    && (forall k, l :: 0 <= k < l < |order| ==> order[k] != order[l])
    && forall k :: 0 <= k < |order| && order[k] < |dir| && KeyOf(dir[order[k]]) == f ==> order[k] == i
  }

  /** Every file of the directory is listed exactly once, where its inode is. */
  lemma EachFileOnce(g: Geometry, dir: seq<DirEntry>, f: Key)
    requires ValidGeometry(g) && Invariant.UniqueExtents(g, dir) && Namei(g, dir, f).Some?
    ensures OnlyAt(dir, Enumeration(g, dir, 0), f, Namei(g, dir, f).value.ino)
  {
    hide ValidGeometry, Listed, KeyOf, ExtentNumber, Live, EntryEnd;
    var order, ino := Enumeration(g, dir, 0), Namei(g, dir, f).value.ino;
    EnumerationIsComplete(g, dir, 0);
    assert Matches(g, dir[ino], f, -1);
    ListedOnce(g, dir, ino);
    forall k | 0 <= k < |order| && KeyOf(dir[order[k]]) == f ensures order[k] == ino {
      assert order[k] in order;
      SameStatus(g, dir[ino], dir[order[k]]);
      ListedOnce(g, dir, order[k]);
    }
  }

  /** A listed legal name leads back, through the parser and the lookup, to the entry it was read
      from; the inode number reported beside it is one more than that. */
  lemma ListedNameResolves(g: Geometry, dir: seq<DirEntry>, i: nat, uppercase: bool)
    requires ValidGeometry(g) && Invariant.UniqueExtents(g, dir) && i in Enumeration(g, dir, 0)
    requires LegalName(g, KeyOf(dir[i])) && dir[i].status < 100
    ensures var ent := EntryFor(dir, i, uppercase);
      && SplitFilename(g, ent.name) == Some(KeyOf(dir[i]))
      && Namei(g, dir, KeyOf(dir[i])).Some? && Namei(g, dir, KeyOf(dir[i])).value.ino == i
      && ent.ino == i + 1 && ent.off == i + 4
  {
    hide ValidGeometry, SplitFilename, PrintedName, LegalName, ExtentNumber, EntryEnd;
    EnumerationIsComplete(g, dir, 0);
    PrintedNameParses(g, KeyOf(dir[i]), uppercase);
    ListedOnce(g, dir, i);
    assert Matches(g, dir[i], KeyOf(dir[i]), -1);
  }
}
