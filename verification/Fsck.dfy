/** `fsck.cpm`: what phase 1 accepts, how it repairs, and what phase 2 reports. The user's answers
    are an oracle over the entry and the question asked about it. */
module Fsck {
  import opened Arithmetic
  import opened Geometry
  import opened Directory

  datatype Question =
    | RemoveForName(i: nat) | RemoveForExt(i: nat) | RemoveForLowBits | RemoveForHighBits
    | ClearByteCount | RemoveForBlock(k: nat) | RemoveForRecordCount
    | StampOnCreation | StampOnAccess | SetPassword
    | ClearForName(i: nat) | ClearForExt(i: nat) | ClearForStatus

  type Answers = (nat, Question) -> bool

  /** A file name character that is not lower case, without its attribute bit. */
  predicate NameChar(notFirst: bool, c: byte) {
    FileChar(notFirst, c) && !('a' as int <= c <= 'z' as int)
  }

  predicate SoundName(name: seq<byte>) {
    forall i :: 0 <= i < |name| ==> NameChar(i != 0, name[i] % 128)
  }

  predicate SoundExt(ext: seq<byte>) {
    forall i :: 0 <= i < |ext| ==> NameChar(true, ext[i] % 128)
  }

  /** Highest status `fsck` takes for a file. */
  function FileLimit(g: Geometry): byte {
    if g.os == CPMFS_P2DOS then 31 else 15
  }

  predicate IsFile(g: Geometry, e: DirEntry) {
    e.status <= FileLimit(g)
  }

  predicate SoundPointers(g: Geometry, e: DirEntry) {
    forall k :: 0 <= k < PointersPerEntry(g) && Ptr(g, e, k) != 0 ==> g.dirblks <= Ptr(g, e, k) < g.size
  }

  /** Where pointer `k` starts among the 16 pointer bytes. */
  function PointerByte(g: Geometry, k: nat): nat {
    if g.size > 256 then 2 * k else k
  }

  /** Nonzero pointers among slots `k..end`. */
  function CountPointers(g: Geometry, e: DirEntry, k: nat, end: nat): nat
    requires k <= end <= PointersPerEntry(g)
    decreases end - k
  {
    if k == end then 0 else (if Ptr(g, e, k) != 0 then 1 else 0) + CountPointers(g, e, k + 1, end)
  }

  function SlotsPerLogical(g: Geometry): nat
    requires FsckGeometry(g)
  {
    PointersPerEntry(g) / g.extents
  }

  /** First slot of the logical extent the entry's number names; the slot count is split evenly. */
  function FirstSlot(g: Geometry, e: DirEntry): (k: nat)
    requires FsckGeometry(g)
  {
    e.extnol % g.extents * SlotsPerLogical(g)
  }

  /** What the arithmetic of phase 1 needs: the 16 pointer bytes split evenly into logical extents
      of whole pointers, and a positive block size. */
  predicate FsckGeometry(g: Geometry) {
    && ValidExtents(g.extents) && (g.size > 256 ==> g.extents != 16)
    && 0 < g.blksiz && 0 < g.size <= 65536
  }

  predicate SoundRecordCount(g: Geometry, e: DirEntry)
    requires FsckGeometry(g)
  {
    LastLogicalExtent(g, e);
    (e.blkcnt * 128 + g.blksiz - 1) / g.blksiz
      == CountPointers(g, e, FirstSlot(g, e), FirstSlot(g, e) + SlotsPerLogical(g))
  }

  lemma LastLogicalExtent(g: Geometry, e: DirEntry)
    requires FsckGeometry(g)
    ensures FirstSlot(g, e) + SlotsPerLogical(g) <= PointersPerEntry(g)
    ensures e.extnol % g.extents * 16 / g.extents == PointerByte(g, FirstSlot(g, e))
    ensures (e.extnol % g.extents + 1) * 16 / g.extents == PointerByte(g, FirstSlot(g, e) + SlotsPerLogical(g))
  {}

  /** Exclusive or, bit by bit. */
  function Xor(a: nat, b: nat): nat
    decreases a + b
  {
    if a == 0 && b == 0 then 0
    else (if a % 2 != b % 2 then 1 else 0) + 2 * Xor(a / 2, b / 2)
  }

  lemma {:induction false} XorBound(a: nat, b: nat, n: nat)
    requires a < Power2(n) && b < Power2(n)
    ensures Xor(a, b) < Power2(n)
    decreases n
  {
    if n > 0 {
      XorBound(a / 2, b / 2, n - 1);
    }
  }

  function Power2(n: nat): nat {
    if n == 0 then 1 else 2 * Power2(n - 1)
  }

  lemma {:induction false} XorTwice(a: nat, b: nat)
    ensures Xor(Xor(a, b), b) == a
    decreases a + b
  {
    if a != 0 || b != 0 {
      XorTwice(a / 2, b / 2);
    }
  }

  function XorBytes(a: byte, b: byte): (r: byte)
    ensures r == Xor(a, b)
  {
    assert Power2(8) == 256;
    XorBound(a, b, 8);
    Xor(a, b)
  }

  /** The password `fsck` proposes, its checksum used as key, and its bytes stored back to front. */
  const PASSWORD: seq<byte> := [71, 69, 72, 69, 73, 77, 32, 32]
  const PASSWORD_KEY: byte := 239

  function Stored(text: seq<byte>, key: byte): (r: seq<byte>)
    requires |text| == 8
    ensures |r| == 8
    ensures forall i :: 0 <= i < 8 ==> r[i] == Xor(text[7 - i], key)
  {
    seq<byte>(8, i requires 0 <= i < 8 => XorBytes(text[7 - i], key))
  }

  /** The character `pwdCheck` decodes at position `i`. */
  function DecodedChar(e: DirEntry, i: nat): nat
    requires i < 8
  {
    Xor(e.pointers[7 - i], e.lrc)
  }

  predicate SoundPassword(e: DirEntry) {
    forall i :: 0 <= i < 8 ==> 32 <= DecodedChar(e, i) < 128
  }

  function WithPassword(e: DirEntry): DirEntry {
    e.(pointers := Stored(PASSWORD, PASSWORD_KEY) + e.pointers[8..], lrc := PASSWORD_KEY)
  }

  /** The password written as a repair is `GEHEIM`, padded, stored back to front under a key that is the sum of its
      characters, so it passes the check that asked for it. */
  lemma RewrittenPassword(e: DirEntry)
    ensures SoundPassword(WithPassword(e))
    ensures forall i :: 0 <= i < 8 ==> DecodedChar(WithPassword(e), i) == "GEHEIM  "[i] as int
    ensures forall i :: 0 <= i < 8 ==> Xor(WithPassword(e).pointers[i], WithPassword(e).lrc) == "  MIEHEG"[i] as int
    ensures WithPassword(e).lrc ==
      ('G' as int + 'E' as int + 'H' as int + 'E' as int + 'I' as int + 'M' as int + ' ' as int + ' ' as int) % 256
  {
    hide Xor;
    var e' := WithPassword(e);
    forall i | 0 <= i < 8 ensures Xor(e'.pointers[7 - i], e'.lrc) == PASSWORD[i] {
      XorTwice(PASSWORD[i], PASSWORD_KEY);
    }
    forall i | 0 <= i < 8 ensures DecodedChar(e', i) == "GEHEIM  "[i] as int && 32 <= DecodedChar(e', i) < 128 {}
    forall i | 0 <= i < 8 ensures Xor(e'.pointers[i], e'.lrc) == "  MIEHEG"[i] as int {
      assert Xor(e'.pointers[7 - (7 - i)], e'.lrc) == PASSWORD[7 - i];
    }
  }

  predicate Bit(b: byte, mask: nat)
    requires 0 < mask
  {
    b / mask % 2 == 1
  }

  predicate SoundFile(g: Geometry, e: DirEntry)
    requires FsckGeometry(g)
  {
    && SoundName(e.name) && SoundExt(e.ext) && e.extnol <= 0x1f && e.extnoh <= 0x3f && e.lrc <= 128
    && SoundPointers(g, e) && SoundRecordCount(g, e)
  }

  predicate SoundLabel(g: Geometry, e: DirEntry) {
    && (g.os == CPMFS_DR3 ==> !(Bit(e.extnol, 0x40) && Bit(e.extnol, 0x10)))
    && (Bit(e.extnol, 0x80) ==> SoundPassword(e))
  }

  predicate SoundXfcb(e: DirEntry) {
    && SoundName(e.name) && SoundExt(e.ext)
    && (Bit(e.extnol, 0x80) || Bit(e.extnol, 0x40) || Bit(e.extnol, 0x20) ==> SoundPassword(e))
  }

  datatype Kind = FileKind | StampKind | LabelKind | XfcbKind | OtherKind

  /** Which branch of phase 1 looks at an entry. */
  function KindOf(g: Geometry, e: DirEntry): Kind {
    if IsFile(g, e) then FileKind
    else if (g.os == CPMFS_P2DOS || g.os == CPMFS_DR3) && e.status == 0x21 then StampKind
    else if (g.os == CPMFS_DR3 || g.os == CPMFS_MPM) && e.status == 0x20 then LabelKind
    else if g.os.hasXfcbs && 16 <= e.status <= 31 then XfcbKind
    else OtherKind
  }

  /** An entry phase 1 has nothing to ask about. */
  predicate Sound(g: Geometry, e: DirEntry)
    requires FsckGeometry(g)
  {
    match KindOf(g, e)
    case FileKind => SoundFile(g, e)
    case StampKind => true
    case LabelKind => SoundLabel(g, e)
    case XfcbKind => SoundXfcb(e)
    case OtherKind => e.status == UNUSED
  }

  /** `ret`: the MODIFIED and BROKEN bits. */
  datatype Verdict = Verdict(modified: bool, broken: bool)

  const OK := Verdict(false, false)

  function Join(a: Verdict, b: Verdict): Verdict {
    Verdict(a.modified || b.modified, a.broken || b.broken)
  }

  // ----- what there is to ask, and what the answers do -------------------------------------------------

  predicate BadChar(chars: seq<byte>, isExt: bool, i: nat) {
    i < |chars| && !NameChar(isExt || i != 0, chars[i] % 128)
  }

  predicate BadBlock(g: Geometry, e: DirEntry, k: nat) {
    k < PointersPerEntry(g) && Ptr(g, e, k) != 0 && !(g.dirblks <= Ptr(g, e, k) < g.size)
  }

  /** The label's two date flags exclude each other on CP/M 3. */
  predicate DateConflict(g: Geometry, e: DirEntry) {
    g.os == CPMFS_DR3 && Bit(e.extnol, 0x40) && Bit(e.extnol, 0x10)
  }

  /** The entry has the defect the question is about. */
  predicate Defect(g: Geometry, e: DirEntry, q: Question)
    requires FsckGeometry(g)
  {
    match (KindOf(g, e), q)
    case (FileKind, RemoveForName(i)) => BadChar(e.name, false, i)
    case (FileKind, RemoveForExt(i)) => BadChar(e.ext, true, i)
    case (FileKind, RemoveForLowBits) => e.extnol > 0x1f
    case (FileKind, RemoveForHighBits) => e.extnoh > 0x3f
    case (FileKind, ClearByteCount) => e.lrc > 128
    case (FileKind, RemoveForBlock(k)) => BadBlock(g, e, k)
    case (FileKind, RemoveForRecordCount) => !SoundRecordCount(g, e)
    case (LabelKind, StampOnCreation) => DateConflict(g, e)
    case (LabelKind, StampOnAccess) => DateConflict(g, e)
    case (LabelKind, SetPassword) => Bit(e.extnol, 0x80) && !SoundPassword(e)
    case (XfcbKind, ClearForName(i)) => BadChar(e.name, false, i)
    case (XfcbKind, ClearForExt(i)) => BadChar(e.ext, true, i)
    case (XfcbKind, SetPassword) =>
      (Bit(e.extnol, 0x80) || Bit(e.extnol, 0x40) || Bit(e.extnol, 0x20)) && !SoundPassword(e)
    case (OtherKind, ClearForStatus) => e.status != UNUSED
    case _ => false
  }

  /** Answering yes gives the entry up; otherwise it is repaired in place. */
  predicate GivesUp(q: Question) {
    !q.ClearByteCount? && !q.StampOnCreation? && !q.StampOnAccess? && !q.SetPassword?
  }

  /** The order of the questions about one entry. */
  function Rank(q: Question): nat {
    match q
    case RemoveForName(i) => i
    case RemoveForExt(i) => 8 + i
    case RemoveForLowBits => 11
    case RemoveForHighBits => 12
    case ClearByteCount => 13
    case RemoveForBlock(k) => 14 + k
    case RemoveForRecordCount => 30
    case StampOnCreation => 0
    case StampOnAccess => 1
    case ClearForName(i) => i
    case ClearForExt(i) => 8 + i
    case SetPassword => 11
    case ClearForStatus => 0
  }

  /** The question is asked: its defect is there, no earlier answer gave the entry up, and access dates are only
      offered to who does not want creation dates. */
  ghost predicate Asked(g: Geometry, x: nat, e: DirEntry, ask: Answers, q: Question)
    requires FsckGeometry(g)
  {
    && Defect(g, e, q)
    && (forall r :: GivesUp(r) && Rank(r) < Rank(q) && Defect(g, e, r) ==> !ask(x, r))
    && (q.StampOnAccess? ==> !ask(x, StampOnCreation))
  }

  ghost predicate Granted(g: Geometry, x: nat, e: DirEntry, ask: Answers, q: Question)
    requires FsckGeometry(g)
  {
    Asked(g, x, e, ask, q) && ask(x, q)
  }

  /** Declined for good: who declines creation dates is asked again. */
  ghost predicate Declined(g: Geometry, x: nat, e: DirEntry, ask: Answers, q: Question)
    requires FsckGeometry(g)
  {
    Asked(g, x, e, ask, q) && !ask(x, q) && !q.StampOnCreation?
  }

  ghost predicate GivenUp(g: Geometry, x: nat, e: DirEntry, ask: Answers)
    requires FsckGeometry(g)
  {
    exists q :: GivesUp(q) && Defect(g, e, q) && ask(x, q)
  }

  /** The entry is left with a defect nobody wanted repaired. */
  ghost predicate LeftBroken(g: Geometry, x: nat, e: DirEntry, ask: Answers)
    requires FsckGeometry(g)
  {
    exists q :: Declined(g, x, e, ask, q)
  }

  /** Of the flag byte, only the date flag that was chosen to go goes. */
  ghost predicate FlagsKept(g: Geometry, x: nat, e: DirEntry, e': DirEntry, ask: Answers)
    requires FsckGeometry(g)
  {
    && (forall m :: m in {1, 2, 4, 8, 0x20, 0x80} ==> Bit(e'.extnol, m) == Bit(e.extnol, m))
    && Bit(e'.extnol, 0x40) == (Bit(e.extnol, 0x40) && !Granted(g, x, e, ask, StampOnCreation))
    && Bit(e'.extnol, 0x10) == (Bit(e.extnol, 0x10) && !Granted(g, x, e, ask, StampOnAccess))
  }

  /** Every repair that was agreed to is made, and nothing else is changed. */
  ghost predicate Repaired(g: Geometry, x: nat, e: DirEntry, e': DirEntry, ask: Answers)
    requires FsckGeometry(g)
  {
    && e' == e.(status := e'.status, lrc := e'.lrc, extnol := e'.extnol, pointers := e'.pointers)
    && e'.status == (if GivenUp(g, x, e, ask) then UNUSED else e.status)
    && FlagsKept(g, x, e, e', ask)
    && (if Granted(g, x, e, ask, SetPassword) then
          e'.lrc == PASSWORD_KEY && e'.pointers[..8] == Stored(PASSWORD, PASSWORD_KEY) &&
          e'.pointers[8..] == e.pointers[8..]
        else
          e'.lrc == (if Granted(g, x, e, ask, ClearByteCount) then 0 else e.lrc) && e'.pointers == e.pointers)
  }

  /** An answer to one of the questions ranked in front of `rank` gave the entry up. */
  ghost predicate GivenUpBefore(g: Geometry, x: nat, e: DirEntry, ask: Answers, rank: nat)
    requires FsckGeometry(g)
  {
    exists q :: GivesUp(q) && Rank(q) < rank && Defect(g, e, q) && ask(x, q)
  }

  ghost predicate DeclinedBefore(g: Geometry, x: nat, e: DirEntry, ask: Answers, rank: nat)
    requires FsckGeometry(g)
  {
    exists q :: Rank(q) < rank && Declined(g, x, e, ask, q)
  }

  lemma NothingBefore(g: Geometry, x: nat, e: DirEntry, ask: Answers)
    requires FsckGeometry(g)
    ensures !GivenUpBefore(g, x, e, ask, 0) && !DeclinedBefore(g, x, e, ask, 0)
  {}

  lemma WhenAsked(g: Geometry, x: nat, e: DirEntry, ask: Answers, q: Question)
    requires FsckGeometry(g) && !q.StampOnAccess?
    ensures Asked(g, x, e, ask, q) <==> Defect(g, e, q) && !GivenUpBefore(g, x, e, ask, Rank(q))
  {
    hide FsckGeometry, Defect, Rank, GivesUp;
  }

  /** One more question, if its defect is there. */
  lemma NextQuestion(g: Geometry, x: nat, e: DirEntry, ask: Answers, q: Question)
    requires FsckGeometry(g) && !q.StampOnAccess? && !q.StampOnCreation?
    requires forall r :: Rank(r) == Rank(q) && Defect(g, e, r) ==> r == q
    requires !GivenUpBefore(g, x, e, ask, Rank(q))
    ensures GivenUpBefore(g, x, e, ask, Rank(q) + 1) <==> GivesUp(q) && Defect(g, e, q) && ask(x, q)
    ensures DeclinedBefore(g, x, e, ask, Rank(q) + 1) <==>
      DeclinedBefore(g, x, e, ask, Rank(q)) || (Defect(g, e, q) && !ask(x, q))
  {
    hide FsckGeometry, Defect;
    if DeclinedBefore(g, x, e, ask, Rank(q) + 1) && !DeclinedBefore(g, x, e, ask, Rank(q)) {
      var r :| Rank(r) < Rank(q) + 1 && Declined(g, x, e, ask, r);
      assert r == q;
    }
    if Defect(g, e, q) && !ask(x, q) {
      assert Declined(g, x, e, ask, q);
    }
  }

  /** Once the entry is given up, nothing more is asked. */
  lemma NoMoreQuestions(g: Geometry, x: nat, e: DirEntry, ask: Answers, rank: nat, later: nat)
    requires FsckGeometry(g) && rank <= later && GivenUpBefore(g, x, e, ask, rank)
    ensures GivenUpBefore(g, x, e, ask, later)
    ensures DeclinedBefore(g, x, e, ask, later) <==> DeclinedBefore(g, x, e, ask, rank)
  {
    hide FsckGeometry, Defect;
    var r :| GivesUp(r) && Rank(r) < rank && Defect(g, e, r) && ask(x, r);
    if DeclinedBefore(g, x, e, ask, later) {
      var q :| Rank(q) < later && Declined(g, x, e, ask, q);
      assert Rank(q) < rank;
    }
  }

  lemma NoDefectBetween(g: Geometry, x: nat, e: DirEntry, ask: Answers, rank: nat, later: nat)
    requires FsckGeometry(g) && rank <= later && forall q :: rank <= Rank(q) < later ==> !Defect(g, e, q)
    ensures GivenUpBefore(g, x, e, ask, later) <==> GivenUpBefore(g, x, e, ask, rank)
    ensures DeclinedBefore(g, x, e, ask, later) <==> DeclinedBefore(g, x, e, ask, rank)
  {
    hide FsckGeometry, Defect;
  }

  /** All questions were considered. */
  lemma AllConsidered(g: Geometry, x: nat, e: DirEntry, ask: Answers, rank: nat)
    requires FsckGeometry(g) && forall q :: Defect(g, e, q) ==> Rank(q) < rank
    ensures GivenUpBefore(g, x, e, ask, rank) <==> GivenUp(g, x, e, ask)
    ensures DeclinedBefore(g, x, e, ask, rank) <==> LeftBroken(g, x, e, ask)
  {
    hide FsckGeometry, Defect;
  }

  /** `question` asks about the characters of a field, one rank after the other. */
  ghost predicate AsksAbout(g: Geometry, e: DirEntry, chars: seq<byte>, isExt: bool, question: nat -> Question,
                            rank: nat)
    requires FsckGeometry(g)
  {
    forall i: nat :: i < |chars| ==>
      && Rank(question(i)) == rank + i && GivesUp(question(i))
      && (Defect(g, e, question(i)) <==> !NameChar(isExt || i != 0, chars[i] % 128))
      && forall r :: Rank(r) == rank + i && Defect(g, e, r) ==> r == question(i)
  }

  /** The loop over the characters of a name or an extension: stops at the first one given up. */
  method CheckChars(g: Geometry, x: nat, e: DirEntry, ask: Answers, chars: seq<byte>, isExt: bool,
                    question: nat -> Question, ghost rank: nat)
    returns (removed: bool, broken: bool)
    requires FsckGeometry(g) && AsksAbout(g, e, chars, isExt, question, rank) && !GivenUpBefore(g, x, e, ask, rank)
    ensures !removed && !broken <==> forall i :: 0 <= i < |chars| ==> NameChar(isExt || i != 0, chars[i] % 128)
    ensures removed <==> GivenUpBefore(g, x, e, ask, rank + |chars|)
    ensures DeclinedBefore(g, x, e, ask, rank + |chars|) <==> DeclinedBefore(g, x, e, ask, rank) || broken
  {
    hide FsckGeometry, Defect, NameChar, GivesUp, GivenUpBefore, DeclinedBefore;
    removed, broken := false, false;
    for i := 0 to |chars|
      invariant !removed && !GivenUpBefore(g, x, e, ask, rank + i)
      invariant !broken <==> forall j :: 0 <= j < i ==> NameChar(isExt || j != 0, chars[j] % 128)
      invariant DeclinedBefore(g, x, e, ask, rank + i) <==> DeclinedBefore(g, x, e, ask, rank) || broken
    {
      GivesUpIsNoStamp(question(i));
      NextQuestion(g, x, e, ask, question(i));
      if !NameChar(isExt || i != 0, chars[i] % 128) {
        if ask(x, question(i)) {
          NoMoreQuestions(g, x, e, ask, rank + i + 1, rank + |chars|);
          removed := true;
          return;
        }
        broken := true;
      }
    }
  }

  lemma GivesUpIsNoStamp(q: Question)
    ensures GivesUp(q) ==> !q.StampOnAccess? && !q.StampOnCreation?
  {}

  /** The loop over the block pointers. */
  method CheckBlocks(g: Geometry, x: nat, e: DirEntry, ask: Answers) returns (removed: bool, broken: bool)
    requires FsckGeometry(g) && KindOf(g, e) == FileKind && !GivenUpBefore(g, x, e, ask, 14)
    ensures !removed && !broken <==> SoundPointers(g, e)
    ensures removed <==> GivenUpBefore(g, x, e, ask, 30)
    ensures DeclinedBefore(g, x, e, ask, 30) <==> DeclinedBefore(g, x, e, ask, 14) || broken
  {
    hide FsckGeometry, GivenUpBefore, DeclinedBefore, SoundRecordCount, KindOf;
    removed, broken := false, false;
    var i, k := 0, 0;
    while i < 16
      invariant i == PointerByte(g, k) && 0 <= k <= PointersPerEntry(g)
      invariant !removed && !GivenUpBefore(g, x, e, ask, 14 + k)
      invariant !broken <==> forall k' :: 0 <= k' < k && Ptr(g, e, k') != 0 ==> g.dirblks <= Ptr(g, e, k') < g.size
      invariant DeclinedBefore(g, x, e, ask, 14 + k) <==> DeclinedBefore(g, x, e, ask, 14) || broken
    {
      var block: int := e.pointers[i];
      if g.size > 256 {
        i := i + 1;
        block := block + 256 * (e.pointers[i] as int);
      }
      assert block == Ptr(g, e, k);
      NextQuestion(g, x, e, ask, RemoveForBlock(k));
      if block > 0 && (block < g.dirblks || block >= g.size) {
        if ask(x, RemoveForBlock(k)) {
          NoMoreQuestions(g, x, e, ask, 14 + k + 1, 30);
          removed := true;
          return;
        }
        broken := true;
      }
      i, k := i + 1, k + 1;
    }
    NoDefectBetween(g, x, e, ask, 14 + k, 30);
  }

  /** The pointers in use in the logical extent the entry ends in. */
  method CountUsed(g: Geometry, e: DirEntry) returns (used: nat)
    requires FsckGeometry(g)
    ensures FirstSlot(g, e) + SlotsPerLogical(g) <= PointersPerEntry(g)
    ensures used == CountPointers(g, e, FirstSlot(g, e), FirstSlot(g, e) + SlotsPerLogical(g))
  {
    hide FirstSlot, SlotsPerLogical;
    LastLogicalExtent(g, e);
    var i := e.extnol % g.extents * 16 / g.extents;
    var max := (e.extnol % g.extents + 1) * 16 / g.extents;
    ghost var k: nat, end: nat := FirstSlot(g, e), FirstSlot(g, e) + SlotsPerLogical(g);
    used := 0;
    while i < max
      invariant i == PointerByte(g, k) && FirstSlot(g, e) <= k <= end
      invariant used + CountPointers(g, e, k, end) == CountPointers(g, e, FirstSlot(g, e), end)
    {
      if e.pointers[i] != 0 || (g.size > 256 && e.pointers[i + 1] != 0) {
        used := used + 1;
      }
      if g.size > 256 {
        i := i + 1;
      }
      i := i + 1;
      k := k + 1;
    }
  }

  ghost predicate SaysYes(ask: Answers, x: nat) {
    forall q :: ask(x, q)
  }

  ghost predicate SaysNo(ask: Answers, x: nat) {
    forall q :: !ask(x, q)
  }

  function Removed(e: DirEntry): DirEntry {
    e.(status := UNUSED)
  }

  predicate SoundIdentity(e: DirEntry) {
    SoundName(e.name) && SoundExt(e.ext) && e.extnol <= 0x1f && e.extnoh <= 0x3f
  }

  predicate SoundSpace(g: Geometry, e: DirEntry)
    requires FsckGeometry(g)
  {
    e.lrc <= 128 && SoundPointers(g, e) && SoundRecordCount(g, e)
  }

  /** Name, extension and extent number of a file; any failure may remove the entry. */
  method CheckIdentity(g: Geometry, x: nat, e: DirEntry, ask: Answers) returns (removed: bool, broken: bool)
    requires FsckGeometry(g) && KindOf(g, e) == FileKind
    ensures !removed && !broken <==> SoundIdentity(e)
    ensures removed <==> GivenUpBefore(g, x, e, ask, 13)
    ensures DeclinedBefore(g, x, e, ask, 13) <==> broken
  {
    hide FsckGeometry, GivenUpBefore, DeclinedBefore, SoundRecordCount, KindOf, NameChar;
    NothingBefore(g, x, e, ask);
    removed, broken := CheckChars(g, x, e, ask, e.name, false, (i: nat) => RemoveForName(i), 0);
    if removed {
      NoMoreQuestions(g, x, e, ask, 8, 13);
      return;
    }
    var badExt;
    removed, badExt := CheckChars(g, x, e, ask, e.ext, true, (i: nat) => RemoveForExt(i), 8);
    broken := broken || badExt;
    if removed {
      NoMoreQuestions(g, x, e, ask, 11, 13);
      return;
    }
    NextQuestion(g, x, e, ask, RemoveForLowBits);
    if e.extnol > 0x1f {
      if ask(x, RemoveForLowBits) {
        NoMoreQuestions(g, x, e, ask, 12, 13);
        return true, broken;
      }
      broken := true;
    }
    NextQuestion(g, x, e, ask, RemoveForHighBits);
    if e.extnoh > 0x3f {
      if ask(x, RemoveForHighBits) {
        return true, broken;
      }
      broken := true;
    }
  }

  lemma ByteCountIrrelevant(g: Geometry, e: DirEntry)
    requires FsckGeometry(g)
    ensures SoundPointers(g, e.(lrc := 0)) == SoundPointers(g, e)
    ensures SoundRecordCount(g, e.(lrc := 0)) == SoundRecordCount(g, e)
  {
    hide FsckGeometry, ValidExtents, SlotsPerLogical;
    LastLogicalExtent(g, e);
    SamePointerCount(g, e, e.(lrc := 0), FirstSlot(g, e), FirstSlot(g, e) + SlotsPerLogical(g));
    SamePointerValues(g, e, e.(lrc := 0));
  }

  lemma SamePointerValues(g: Geometry, e: DirEntry, e': DirEntry)
    requires e.pointers == e'.pointers
    ensures forall k: nat :: k < PointersPerEntry(g) ==> Ptr(g, e', k) == Ptr(g, e, k)
  {}

  lemma {:induction false} SamePointerCount(g: Geometry, e: DirEntry, e': DirEntry, k: nat, end: nat)
    requires e.pointers == e'.pointers && k <= end <= PointersPerEntry(g)
    ensures CountPointers(g, e', k, end) == CountPointers(g, e, k, end)
    decreases end - k
  {
    if k < end {
      SamePointerCount(g, e, e', k + 1, end);
    }
  }

  /** Byte count, block pointers and record count of a file. */
  method CheckSpace(g: Geometry, x: nat, e: DirEntry, ask: Answers) returns (e': DirEntry, ret: Verdict)
    requires FsckGeometry(g) && KindOf(g, e) == FileKind && !GivenUpBefore(g, x, e, ask, 13)
    ensures ret == OK <==> SoundSpace(g, e)
    ensures ret.modified <==> e' != e
    ensures !ret.broken ==> e'.status == UNUSED || (e'.status == e.status && SoundSpace(g, e'))
    ensures e' == e.(status := if GivenUpBefore(g, x, e, ask, 31) then UNUSED else e.status,
                     lrc := if e.lrc > 128 && ask(x, ClearByteCount) then 0 else e.lrc)
    ensures DeclinedBefore(g, x, e, ask, 31) <==> DeclinedBefore(g, x, e, ask, 13) || ret.broken
  {
    hide FsckGeometry, SoundRecordCount, SoundPointers, ValidExtents, GivenUpBefore, DeclinedBefore;
    ByteCountIrrelevant(g, e);
    e', ret := e, OK;
    NextQuestion(g, x, e, ask, ClearByteCount);
    if e.lrc > 128 {
      if ask(x, ClearByteCount) {
        e', ret := e.(lrc := 0), Verdict(true, false);
      } else {
        ret := Verdict(false, true);
      }
    }
    var removed, broken := CheckBlocks(g, x, e, ask);
    ret := Join(ret, Verdict(false, broken));
    if removed {
      NoMoreQuestions(g, x, e, ask, 30, 31);
      return Removed(e'), Join(ret, Verdict(true, false));
    }
    NextQuestion(g, x, e, ask, RemoveForRecordCount);
    var bad := BadRecordCount(g, e');
    if bad {
      if ask(x, RemoveForRecordCount) {
        return Removed(e'), Join(ret, Verdict(true, false));
      }
      ret := Join(ret, Verdict(false, true));
    }
  }

  method BadRecordCount(g: Geometry, e: DirEntry) returns (bad: bool)
    requires FsckGeometry(g)
    ensures bad <==> !SoundRecordCount(g, e)
  {
    var used := CountUsed(g, e);
    var recordsInBlocks := (e.blkcnt * 128 + g.blksiz - 1) / g.blksiz;
    bad := recordsInBlocks != used;
  }

  /** The file branch. */
  method CheckFile(g: Geometry, x: nat, e: DirEntry, ask: Answers) returns (e': DirEntry, ret: Verdict)
    requires FsckGeometry(g) && KindOf(g, e) == FileKind
    ensures ret == OK <==> SoundFile(g, e)
    ensures ret.modified <==> e' != e
    ensures !ret.broken ==> Sound(g, e')
    ensures Repaired(g, x, e, e', ask) && (ret.broken <==> LeftBroken(g, x, e, ask))
  {
    hide FsckGeometry, SoundRecordCount, SoundPointers, ValidExtents, GivenUpBefore, DeclinedBefore, GivenUp,
         LeftBroken;
    FileQuestions(g, x, e, ask);
    AllConsidered(g, x, e, ask, 31);
    var removed, broken := CheckIdentity(g, x, e, ask);
    if removed {
      NoMoreQuestions(g, x, e, ask, 13, 31);
      return Removed(e), Verdict(true, broken);
    }
    e', ret := CheckSpace(g, x, e, ask);
    ret := Join(ret, Verdict(false, broken));
  }

  lemma FileQuestions(g: Geometry, x: nat, e: DirEntry, ask: Answers)
    requires FsckGeometry(g) && KindOf(g, e) == FileKind
    ensures forall q :: Defect(g, e, q) ==> Rank(q) < 31
    ensures Granted(g, x, e, ask, ClearByteCount) <==>
      !GivenUpBefore(g, x, e, ask, 13) && e.lrc > 128 && ask(x, ClearByteCount)
    ensures !Granted(g, x, e, ask, SetPassword) && !Granted(g, x, e, ask, StampOnCreation)
    ensures !Granted(g, x, e, ask, StampOnAccess)
  {
    hide FsckGeometry, SoundRecordCount, KindOf, NameChar;
    WhenAsked(g, x, e, ask, ClearByteCount);
    forall q | Defect(g, e, q) ensures Rank(q) < 31 {
      match q {
        case RemoveForName(i) => assert BadChar(e.name, false, i);
        case RemoveForExt(i) => assert BadChar(e.ext, true, i);
        case RemoveForBlock(k) => assert BadBlock(g, e, k);
        case _ =>
      }
    }
  }

  /** `pwdCheck`, without its message. */
  method PwdCheck(e: DirEntry) returns (ok: bool)
    ensures ok <==> SoundPassword(e)
  {
    hide Xor;
    for i := 0 to 8
      invariant forall j :: 0 <= j < i ==> 32 <= DecodedChar(e, j) < 128
    {
      var c := DecodedChar(e, i);
      if c < 32 || c >= 128 {
        return false;
      }
    }
    ok := true;
  }

  /** Ask for the password to be replaced when the flags want one and it is not printable. */
  method CheckPassword(x: nat, e: DirEntry, wanted: bool, ask: Answers) returns (e': DirEntry, ret: Verdict)
    ensures ret == OK <==> (wanted ==> SoundPassword(e))
    ensures ret.modified <==> e' != e
    ensures !ret.broken ==> (wanted ==> SoundPassword(e'))
    ensures ret.broken <==> wanted && !SoundPassword(e) && !ask(x, SetPassword)
    ensures e' == if wanted && !SoundPassword(e) && ask(x, SetPassword) then WithPassword(e) else e
  {
    hide SoundPassword;
    e', ret := e, OK;
    var ok := PwdCheck(e);
    if wanted && !ok {
      if ask(x, SetPassword) {
        RewrittenPassword(e);
        e', ret := WithPassword(e), Verdict(true, false);
      } else {
        ret := Verdict(false, true);
      }
    }
  }

  /** The label's date flags: which of the two to keep. */
  method CheckDates(g: Geometry, x: nat, e: DirEntry, ask: Answers) returns (e': DirEntry, ret: Verdict)
    requires FsckGeometry(g) && KindOf(g, e) == LabelKind
    ensures ret == OK <==> !DateConflict(g, e)
    ensures ret.modified <==> e' != e
    ensures !ret.broken ==> !DateConflict(g, e')
    ensures e' == e.(extnol := e'.extnol) && FlagsKept(g, x, e, e', ask)
    ensures ret.broken <==> DateConflict(g, e) && !ask(x, StampOnCreation) && !ask(x, StampOnAccess)
  {
    hide FsckGeometry, Bit, Granted;
    e', ret := e, OK;
    LabelQuestions(g, x, e, ask);
    if DateConflict(g, e) {
      if ask(x, StampOnCreation) {
        FlagCleared(e.extnol, 0x40);
        e', ret := e.(extnol := e.extnol - 0x40), Verdict(true, false);
      } else if ask(x, StampOnAccess) {
        FlagCleared(e.extnol, 0x10);
        e', ret := e.(extnol := e.extnol - 0x10), Verdict(true, false);
      } else {
        ret := Verdict(false, true);
      }
    }
  }

  method CheckLabel(g: Geometry, x: nat, e: DirEntry, ask: Answers) returns (e': DirEntry, ret: Verdict)
    requires FsckGeometry(g) && KindOf(g, e) == LabelKind
    ensures ret == OK <==> SoundLabel(g, e)
    ensures ret.modified <==> e' != e
    ensures !ret.broken ==> e'.status == e.status && SoundLabel(g, e')
    ensures Repaired(g, x, e, e', ask) && (ret.broken <==> LeftBroken(g, x, e, ask))
  {
    hide FsckGeometry, SoundPassword, WithPassword, Bit, Granted, GivenUp, LeftBroken, Stored;
    LabelQuestions(g, x, e, ask);
    var f, first := CheckDates(g, x, e, ask);
    assert Bit(f.extnol, 0x80) == Bit(e.extnol, 0x80);
    var second;
    e', second := CheckPassword(x, f, Bit(f.extnol, 0x80), ask);
    PasswordKeepsRest(f);
    SameFlagsSamePassword(e, f);
    ret := Join(first, second);
  }

  lemma LabelQuestions(g: Geometry, x: nat, e: DirEntry, ask: Answers)
    requires FsckGeometry(g) && KindOf(g, e) == LabelKind
    ensures Granted(g, x, e, ask, StampOnCreation) <==> DateConflict(g, e) && ask(x, StampOnCreation)
    ensures Granted(g, x, e, ask, StampOnAccess) <==>
      DateConflict(g, e) && !ask(x, StampOnCreation) && ask(x, StampOnAccess)
    ensures Granted(g, x, e, ask, SetPassword) <==>
      Bit(e.extnol, 0x80) && !SoundPassword(e) && ask(x, SetPassword)
    ensures !Granted(g, x, e, ask, ClearByteCount) && !GivenUp(g, x, e, ask)
    ensures LeftBroken(g, x, e, ask) <==>
      (DateConflict(g, e) && !ask(x, StampOnCreation) && !ask(x, StampOnAccess)) ||
      (Bit(e.extnol, 0x80) && !SoundPassword(e) && !ask(x, SetPassword))
  {
    hide FsckGeometry, SoundRecordCount, KindOf, NameChar, Bit, SoundPassword;
    if DateConflict(g, e) && !ask(x, StampOnCreation) && !ask(x, StampOnAccess) {
      assert Declined(g, x, e, ask, StampOnAccess);
    }
    if Bit(e.extnol, 0x80) && !SoundPassword(e) && !ask(x, SetPassword) {
      assert Declined(g, x, e, ask, SetPassword);
    }
  }

  /** The new password changes nothing but the first eight pointer bytes and the checksum. */
  lemma PasswordKeepsRest(e: DirEntry)
    ensures var r := WithPassword(e);
      && r == e.(lrc := PASSWORD_KEY, pointers := r.pointers)
      && r.pointers[..8] == Stored(PASSWORD, PASSWORD_KEY) && r.pointers[8..] == e.pointers[8..]
  {}

  lemma FlagCleared(a: byte, m: byte)
    requires m in {0x10, 0x40} && Bit(a, m)
    ensures m <= a && !Bit(a - m, m)
    ensures forall n :: n in {1, 2, 4, 8, 0x10, 0x20, 0x40, 0x80} && n != m ==> Bit(a - m, n) == Bit(a, n)
  {
    hide Bit;
    ThisFlag(a, m);
    forall n: byte | n in {1, 2, 4, 8, 0x10, 0x20, 0x40, 0x80} && n != m ensures Bit(a - m, n) == Bit(a, n) {
      if n < m {
        LowerFlag(a, m, n, if m == 0x10 then 8 / n else 32 / n);
      } else {
        UpperFlag(a, m, n, if m == 0x10 then n / 32 else 1);
      }
    }
  }

  lemma ThisFlag(a: byte, m: byte)
    requires 0 < m && Bit(a, m)
    ensures m <= a && !Bit(a - m, m)
  {
    DivModEquation(a, m);
    OneLess(a, m, a / m, a % m);
  }

  lemma OneLess(a: nat, m: nat, q: nat, r: nat)
    requires 0 < q && r < m && a == q * m + r
    ensures m <= a && (a - m) / m == q - 1
  {
    assert (q - 1) * m == q * m - m;
    MulMonotone(1, q, m);
    DivModUnique(a - m, m, q - 1, r);
  }

  lemma UpperFlag(a: byte, m: byte, n: byte, k: nat)
    requires 0 < m <= a && Bit(a, m) && n == 2 * k * m && 0 < n
    ensures Bit(a - m, n) == Bit(a, n)
  {
    DivModEquation(a, n);
    RemainderHasFlag(a, m, n, k, a / n, a % n);
    UpperQuotient(a, m, n, a / n, a % n);
  }

  lemma UpperQuotient(a: nat, m: nat, n: nat, q: nat, r: nat)
    requires a == q * n + r && m <= r < n
    ensures (a - m) / n == q
  {
    DivModUnique(a - m, n, q, r - m);
  }

  lemma RemainderHasFlag(a: nat, m: nat, n: nat, k: nat, q: nat, r: nat)
    requires 0 < m && a / m % 2 == 1 && n == 2 * k * m && a == q * n + r
    ensures m <= r
  {
    if r < m {
      var x := q * k;
      assert q * n == 2 * x * m by {
        assert q * (2 * k * m) == 2 * (q * k) * m;
      }
      DivModUnique(a, m, 2 * x, r);
    }
  }

  lemma LowerFlag(a: byte, m: byte, n: byte, k: nat)
    requires 0 < n && m == 2 * k * n && m <= a
    ensures Bit(a - m, n) == Bit(a, n)
  {
    DivModEquation(a, n);
    var q, r := a / n, a % n;
    assert (q + 1) * n == q * n + n;
    if q < 2 * k {
      MulMonotone(q + 1, 2 * k, n);
    }
    assert q * n == (q - 2 * k) * n + 2 * k * n;
    DivModUnique(a - m, n, q - 2 * k, r);
  }

  lemma SameFlagsSamePassword(e: DirEntry, f: DirEntry)
    requires e.pointers == f.pointers && e.lrc == f.lrc
    ensures SoundPassword(e) == SoundPassword(f)
  {
    hide Xor;
    assert forall i :: 0 <= i < 8 ==> DecodedChar(f, i) == DecodedChar(e, i);
  }

  method CheckXfcbName(g: Geometry, x: nat, e: DirEntry, ask: Answers) returns (removed: bool, broken: bool)
    requires FsckGeometry(g) && KindOf(g, e) == XfcbKind
    ensures !removed && !broken <==> SoundName(e.name) && SoundExt(e.ext)
    ensures removed <==> GivenUpBefore(g, x, e, ask, 11)
    ensures DeclinedBefore(g, x, e, ask, 11) <==> broken
  {
    hide FsckGeometry, GivenUpBefore, DeclinedBefore, SoundRecordCount, NameChar, Bit;
    NothingBefore(g, x, e, ask);
    removed, broken := CheckChars(g, x, e, ask, e.name, false, (i: nat) => ClearForName(i), 0);
    if removed {
      NoMoreQuestions(g, x, e, ask, 8, 11);
      return;
    }
    var badExt;
    removed, badExt := CheckChars(g, x, e, ask, e.ext, true, (i: nat) => ClearForExt(i), 8);
    broken := broken || badExt;
  }

  method CheckXfcb(g: Geometry, x: nat, e: DirEntry, ask: Answers) returns (e': DirEntry, ret: Verdict)
    requires FsckGeometry(g) && KindOf(g, e) == XfcbKind
    ensures ret == OK <==> SoundXfcb(e)
    ensures ret.modified <==> e' != e
    ensures !ret.broken ==> e'.status == UNUSED || (e'.status == e.status && SoundXfcb(e'))
    ensures Repaired(g, x, e, e', ask) && (ret.broken <==> LeftBroken(g, x, e, ask))
  {
    hide FsckGeometry, SoundPassword, WithPassword, GivenUpBefore, DeclinedBefore, GivenUp, LeftBroken,
         SoundRecordCount, NameChar, Bit, Granted, Stored, SoundName, SoundExt;
    XfcbQuestions(g, x, e, ask);
    AllConsidered(g, x, e, ask, 12);
    var removed, broken := CheckXfcbName(g, x, e, ask);
    if removed {
      NoMoreQuestions(g, x, e, ask, 11, 12);
      return Removed(e), Verdict(true, broken);
    }
    NextQuestion(g, x, e, ask, SetPassword);
    e', ret := CheckPassword(x, e, Bit(e.extnol, 0x80) || Bit(e.extnol, 0x40) || Bit(e.extnol, 0x20), ask);
    PasswordKeepsRest(e);
    ret := Join(ret, Verdict(false, broken));
  }

  lemma XfcbQuestions(g: Geometry, x: nat, e: DirEntry, ask: Answers)
    requires FsckGeometry(g) && KindOf(g, e) == XfcbKind
    ensures forall q :: Defect(g, e, q) ==> Rank(q) < 12
    ensures Granted(g, x, e, ask, SetPassword) <==>
      !GivenUpBefore(g, x, e, ask, 11) && Defect(g, e, SetPassword) && ask(x, SetPassword)
    ensures !Granted(g, x, e, ask, ClearByteCount) && !Granted(g, x, e, ask, StampOnCreation)
    ensures !Granted(g, x, e, ask, StampOnAccess)
  {
    hide FsckGeometry, SoundRecordCount, KindOf, NameChar, SoundPassword, Bit;
    WhenAsked(g, x, e, ask, SetPassword);
    forall q | Defect(g, e, q) ensures Rank(q) < 12 {
      match q {
        case ClearForName(i) => assert BadChar(e.name, false, i);
        case ClearForExt(i) => assert BadChar(e.ext, true, i);
        case _ =>
      }
    }
  }

  /** One round of phase 1. */
  method CheckEntry(g: Geometry, x: nat, e: DirEntry, ask: Answers) returns (e': DirEntry, ret: Verdict)
    requires FsckGeometry(g)
    ensures ret == OK <==> Sound(g, e)
    ensures ret.modified <==> e' != e
    ensures !ret.broken ==> Sound(g, e')
    ensures Repaired(g, x, e, e', ask) && (ret.broken <==> LeftBroken(g, x, e, ask))
  {
    hide FsckGeometry, SoundFile, SoundPassword, SoundName, SoundExt, Repaired, LeftBroken;
    match KindOf(g, e) {
      case FileKind => e', ret := CheckFile(g, x, e, ask);
      case StampKind =>
        e', ret := e, OK;
        NothingToAsk(g, x, e, ask);
      case LabelKind => e', ret := CheckLabel(g, x, e, ask);
      case XfcbKind => e', ret := CheckXfcb(g, x, e, ask);
      case OtherKind =>
        e', ret := e, OK;
        StatusQuestion(g, x, e, ask);
        if e.status != UNUSED {
          if ask(x, ClearForStatus) {
            e', ret := Removed(e), Verdict(true, false);
          } else {
            ret := Verdict(false, true);
          }
        }
    }
  }

  lemma NothingToAsk(g: Geometry, x: nat, e: DirEntry, ask: Answers)
    requires FsckGeometry(g) && forall q :: !Defect(g, e, q)
    ensures Repaired(g, x, e, e, ask) && !LeftBroken(g, x, e, ask)
  {
    hide FsckGeometry, Defect;
  }

  lemma StatusQuestion(g: Geometry, x: nat, e: DirEntry, ask: Answers)
    requires FsckGeometry(g) && KindOf(g, e) == OtherKind
    ensures Repaired(g, x, e, if e.status != UNUSED && ask(x, ClearForStatus) then Removed(e) else e, ask)
    ensures LeftBroken(g, x, e, ask) <==> e.status != UNUSED && !ask(x, ClearForStatus)
  {
    hide FsckGeometry, KindOf;
    if e.status != UNUSED && !ask(x, ClearForStatus) {
      assert Declined(g, x, e, ask, ClearForStatus);
    }
    assert Defect(g, e, ClearForStatus) <==> e.status != UNUSED;
  }

  /** Phase 1 over the directory, in place. */
  method Phase1(g: Geometry, dir: array<DirEntry>, ask: Answers) returns (ret: Verdict)
    requires FsckGeometry(g)
    modifies dir
    ensures ret == OK <==> forall x :: 0 <= x < dir.Length ==> Sound(g, old(dir[x]))
    ensures ret.modified <==> dir[..] != old(dir[..])
    ensures !ret.broken ==> forall x :: 0 <= x < dir.Length ==> Sound(g, dir[x])
    ensures forall x: nat :: x < dir.Length ==> Repaired(g, x, old(dir[x]), dir[x], ask)
    ensures ret.broken <==> exists x: nat :: x < dir.Length && LeftBroken(g, x, old(dir[x]), ask)
  {
    hide FsckGeometry, Sound, Repaired, LeftBroken;
    ret := OK;
    for x := 0 to dir.Length
      invariant ret == OK <==> forall y :: 0 <= y < x ==> Sound(g, old(dir[y]))
      invariant ret.modified <==> dir[..x] != old(dir[..x])
      invariant !ret.broken ==> forall y :: 0 <= y < x ==> Sound(g, dir[y])
      invariant forall y: nat :: y < x ==> Repaired(g, y, old(dir[y]), dir[y], ask)
      invariant ret.broken <==> exists y: nat :: y < x && LeftBroken(g, y, old(dir[y]), ask)
      invariant forall y :: x <= y < dir.Length ==> dir[y] == old(dir[y])
    {
      var e, v := CheckEntry(g, x, dir[x], ask);
      ghost var before := dir[..x];
      dir[x] := e;
      ret := Join(ret, v);
      assert dir[..x + 1] == before + [e];
      assert old(dir[..x + 1]) == old(dir[..x]) + [old(dir[x])];
    }
    assert dir[..dir.Length] == dir[..];
    assert old(dir[..dir.Length]) == old(dir[..]);
  }

  /** Who answers yes to everything leaves nothing broken, who answers no to everything changes nothing. */
  lemma YesAndNo(g: Geometry, x: nat, e: DirEntry, e': DirEntry, ask: Answers)
    requires FsckGeometry(g) && Repaired(g, x, e, e', ask)
    ensures SaysYes(ask, x) ==> !LeftBroken(g, x, e, ask)
    ensures SaysNo(ask, x) ==> e' == e
  {
    hide FsckGeometry, Defect, Stored, Bit;
    if SaysNo(ask, x) {
      SameBits(e.extnol, e'.extnol);
    }
  }

  lemma SameBits(a: byte, b: byte)
    requires forall m :: m in {1, 2, 4, 8, 0x10, 0x20, 0x40, 0x80} ==> Bit(a, m) == Bit(b, m)
    ensures a == b
  {
    assert Bit(a, 1) == Bit(b, 1) && Bit(a, 2) == Bit(b, 2) && Bit(a, 4) == Bit(b, 4) && Bit(a, 8) == Bit(b, 8);
    assert Bit(a, 0x10) == Bit(b, 0x10) && Bit(a, 0x20) == Bit(b, 0x20);
    assert Bit(a, 0x40) == Bit(b, 0x40) && Bit(a, 0x80) == Bit(b, 0x80);
    assert a / 128 == b / 128;
    BitAbove(a, b, 64);
    BitAbove(a, b, 32);
    BitAbove(a, b, 16);
    BitAbove(a, b, 8);
    BitAbove(a, b, 4);
    BitAbove(a, b, 2);
    BitAbove(a, b, 1);
  }

  lemma BitAbove(a: byte, b: byte, m: nat)
    requires m in {1, 2, 4, 8, 16, 32, 64} && a / (2 * m) == b / (2 * m) && Bit(a, m) == Bit(b, m)
    ensures a / m == b / m
  {
    HalfAndBit(a, m);
    HalfAndBit(b, m);
  }

  lemma HalfAndBit(a: byte, m: nat)
    requires m in {1, 2, 4, 8, 16, 32, 64}
    ensures a / m == 2 * (a / (2 * m)) + if Bit(a, m) then 1 else 0
  {}

  /** Answering yes to everything repairs the directory in one pass: a second pass, whatever the
      answers would be, has nothing to ask, changes nothing and reports OK. */
  method RepairTwice(g: Geometry, dir: array<DirEntry>, yes: Answers, later: Answers)
    returns (first: Verdict, second: Verdict, ghost repaired: seq<DirEntry>)
    requires FsckGeometry(g) && forall x: nat :: SaysYes(yes, x)
    modifies dir
    ensures !first.broken && second == OK && dir[..] == repaired
    ensures first.modified <==> repaired != old(dir[..])
  {
    first := Phase1(g, dir, yes);
    ghost var before := old(dir[..]);
    forall x: nat | x < dir.Length ensures !LeftBroken(g, x, before[x], yes) {
      YesAndNo(g, x, before[x], dir[x], yes);
    }
    repaired := dir[..];
    second := Phase1(g, dir, later);
  }

  // ----- phase 2 ----------------------------------------------------------------------------------

  /** Slot `k` of entry `x` and slot `l` of entry `y` are two owners of one block. */
  predicate SharedBlock(g: Geometry, dir: seq<DirEntry>, x: nat, k: nat, y: nat, l: nat)
    requires x < |dir| && y < |dir| && k < PointersPerEntry(g) && l < PointersPerEntry(g)
  {
    && IsFile(g, dir[x]) && IsFile(g, dir[y]) && (x != y || k != l)
    && Ptr(g, dir[x], k) != 0 && Ptr(g, dir[x], k) == Ptr(g, dir[y], l)
  }

  ghost predicate NoSharedBlocks(g: Geometry, dir: seq<DirEntry>) {
    forall x: nat, k: nat, y: nat, l: nat ::
      x < |dir| && k < PointersPerEntry(g) && y < |dir| && l < PointersPerEntry(g) ==>
        !SharedBlock(g, dir, x, k, y, l)
  }

  /** Two entries for the same extent of the same file. */
  predicate DuplicateExtent(g: Geometry, dir: seq<DirEntry>, x: nat, y: nat)
    requires x < |dir| && y < |dir|
  {
    && IsFile(g, dir[x]) && IsFile(g, dir[y]) && x != y
    && ExtentNumber(dir[x]) == ExtentNumber(dir[y]) && KeyOf(dir[x]) == KeyOf(dir[y])
  }

  ghost predicate NoDuplicateExtents(g: Geometry, dir: seq<DirEntry>) {
    forall x: nat, y: nat :: x < |dir| && y < |dir| ==> !DuplicateExtent(g, dir, x, y)
  }

  /** Does entry `y` own the block of slot `k` of entry `x` as well? */
  method SharesBlockWith(g: Geometry, dir: seq<DirEntry>, x: nat, k: nat, y: nat) returns (broken: bool)
    requires x < |dir| && y < |dir| && k < PointersPerEntry(g) && IsFile(g, dir[x])
    ensures broken <==> exists l: nat :: l < PointersPerEntry(g) && SharedBlock(g, dir, x, k, y, l)
  {
    broken := false;
    var block := Ptr(g, dir[x], k);
    if IsFile(g, dir[y]) {
      var j, l := 0, 0;
      while j < 16
        invariant j == PointerByte(g, l) && 0 <= l <= PointersPerEntry(g)
        invariant broken <==> exists l': nat :: l' < l && SharedBlock(g, dir, x, k, y, l')
      {
        var block2: int := dir[y].pointers[j];
        if g.size > 256 {
          j := j + 1;
          block2 := block2 + 256 * (dir[y].pointers[j] as int);
        }
        assert block2 == Ptr(g, dir[y], l);
        if block != 0 && block2 != 0 && block == block2 && !(x == y && k == l) {
          assert SharedBlock(g, dir, x, k, y, l);
          broken := true;
        }
        j, l := j + 1, l + 1;
      }
    }
  }

  method CheckSharing(g: Geometry, dir: seq<DirEntry>) returns (broken: bool)
    ensures !broken <==> NoSharedBlocks(g, dir)
  {
    hide SharedBlock;
    broken := false;
    for x := 0 to |dir|
      invariant !broken <==> forall x': nat, k: nat, y: nat, l: nat ::
        x' < x && k < PointersPerEntry(g) && y < |dir| && l < PointersPerEntry(g) ==> !SharedBlock(g, dir, x', k, y, l)
    {
      if IsFile(g, dir[x]) {
        var b := CheckEntrySharing(g, dir, x);
        broken := broken || b;
      } else {
        NoFileNoSharing(g, dir, x);
      }
    }
  }

  lemma NoFileNoSharing(g: Geometry, dir: seq<DirEntry>, x: nat)
    requires x < |dir| && !IsFile(g, dir[x])
    ensures forall k: nat, y: nat, l: nat ::
      k < PointersPerEntry(g) && y < |dir| && l < PointersPerEntry(g) ==> !SharedBlock(g, dir, x, k, y, l)
  {}

  method CheckEntrySharing(g: Geometry, dir: seq<DirEntry>, x: nat) returns (broken: bool)
    requires x < |dir| && IsFile(g, dir[x])
    ensures !broken <==> forall k: nat, y: nat, l: nat ::
      k < PointersPerEntry(g) && y < |dir| && l < PointersPerEntry(g) ==> !SharedBlock(g, dir, x, k, y, l)
  {
    hide SharedBlock;
    broken := false;
    for k := 0 to PointersPerEntry(g)
      invariant !broken <==> forall k': nat, y: nat, l: nat ::
        k' < k && y < |dir| && l < PointersPerEntry(g) ==> !SharedBlock(g, dir, x, k', y, l)
    {
      for y := 0 to |dir|
        invariant !broken <==>
          && (forall k': nat, y: nat, l: nat ::
                k' < k && y < |dir| && l < PointersPerEntry(g) ==> !SharedBlock(g, dir, x, k', y, l))
          && (forall y': nat, l: nat :: y' < y && l < PointersPerEntry(g) ==> !SharedBlock(g, dir, x, k, y', l))
      {
        var b := SharesBlockWith(g, dir, x, k, y);
        broken := broken || b;
      }
    }
  }

  method CheckDuplicates(g: Geometry, dir: seq<DirEntry>) returns (broken: bool)
    ensures !broken <==> NoDuplicateExtents(g, dir)
  {
    broken := false;
    for x := 0 to |dir|
      invariant !broken <==> forall x': nat, y: nat :: x' < x && y < |dir| ==> !DuplicateExtent(g, dir, x', y)
    {
      for y := 0 to |dir|
        invariant !broken <==>
          && (forall x': nat, y: nat :: x' < x && y < |dir| ==> !DuplicateExtent(g, dir, x', y))
          && (forall y': nat :: y' < y ==> !DuplicateExtent(g, dir, x, y'))
      {
        if DuplicateExtent(g, dir, x, y) {
          broken := true;
        }
      }
    }
  }

  /** Phase 2 reports BROKEN exactly when two slots share a block or an extent has two entries. */
  method Phase2(g: Geometry, dir: seq<DirEntry>) returns (broken: bool)
    ensures broken <==> !NoSharedBlocks(g, dir) || !NoDuplicateExtents(g, dir)
  {
    var sharing := CheckSharing(g, dir);
    var duplicates := CheckDuplicates(g, dir);
    broken := sharing || duplicates;
  }

  /** `fsck`: both phases, the second over what the first left. */
  method Fsck(g: Geometry, dir: array<DirEntry>, ask: Answers) returns (ret: Verdict)
    requires FsckGeometry(g)
    modifies dir
    ensures ret == OK <==>
      && (forall x :: 0 <= x < dir.Length ==> Sound(g, old(dir[x])))
      && NoSharedBlocks(g, old(dir[..])) && NoDuplicateExtents(g, old(dir[..]))
    ensures ret.modified <==> dir[..] != old(dir[..])
    ensures forall x: nat :: x < dir.Length ==> Repaired(g, x, old(dir[x]), dir[x], ask)
    ensures ret.broken <==>
      || (exists x: nat :: x < dir.Length && LeftBroken(g, x, old(dir[x]), ask))
      || !NoSharedBlocks(g, dir[..]) || !NoDuplicateExtents(g, dir[..])
  {
    hide FsckGeometry, Sound, NoSharedBlocks, NoDuplicateExtents, Repaired, LeftBroken;
    ret := Phase1(g, dir, ask);
    var broken := Phase2(g, dir[..]);
    ret := Join(ret, Verdict(false, broken));
  }
}
