/** File names: what `splitFilename` accepts, and the names `cpmReaddir` prints. Names are the bytes
    of a C string. */
module Names {
  import opened Wrappers
  import opened Geometry
  import opened Directory
  import Fsck

  const DOT: byte := 46
  const ZERO: byte := 48

  predicate IsDigit(c: byte) {
    ZERO <= c <= ZERO + 9
  }

  function ToUpper(c: byte): byte {
    if 'a' as int <= c <= 'z' as int then c - 32 else c
  }

  function ToLower(c: byte): byte {
    if 'A' as int <= c <= 'Z' as int then c + 32 else c
  }

  /** Length of the base name in `s`: up to a dot, at most eight characters. */
  function BaseLength(s: seq<byte>, i: nat): (n: nat)
    requires i <= |s| && i <= 8
    ensures i <= n <= |s| && n <= 8
    ensures forall j :: i <= j < n ==> s[j] != DOT
    ensures n < 8 && n < |s| ==> s[n] == DOT
    decreases 8 - i
  {
    if i < 8 && i < |s| && s[i] != DOT then BaseLength(s, i + 1) else i
  }

  /** Length of the extension behind the dot at `n`, 0 without a dot. */
  function ExtLength(s: seq<byte>, n: nat): (m: nat)
    requires n <= |s|
    ensures m <= 3 && (0 < m ==> n + 1 + m <= |s|)
  {
    if n == |s| || s[n] != DOT then 0
    else if |s| - (n + 1) < 3 then |s| - (n + 1) else 3
  }

  function Upper(s: seq<byte>): (r: seq<byte>)
    ensures |r| == |s| && forall i :: 0 <= i < |s| ==> r[i] == ToUpper(s[i])
  {
    seq<byte>(|s|, i requires 0 <= i < |s| => ToUpper(s[i]))
  }

  function Blanks(n: nat): (r: seq<byte>)
    ensures |r| == n && forall i :: 0 <= i < n ==> r[i] == BLANK
  {
    seq<byte>(n, _ => BLANK)
  }

  predicate FileChars(s: seq<byte>, isExt: bool) {
    forall i :: 0 <= i < |s| ==> FileChar(isExt || i != 0, s[i])
  }

  /** `splitFilename`: user number, then name and extension in upper case, padded with blanks. */
  function SplitFilename(g: Geometry, full: seq<byte>): (r: Option<Key>)
    ensures r.Some? ==> |r.value.name| == 8 && |r.value.ext| == 3
  {
    if |full| < 3 || !IsDigit(full[0]) || !IsDigit(full[1]) then None
    else
      var user: int := 10 * (full[0] - ZERO) + (full[1] - ZERO);
      var s := full[2..];
      var n := BaseLength(s, 0);
      var m := ExtLength(s, n);
      if user > MaxUser(g) || !FileChars(s[..n], false) then None
      else if n < |s| && s[n] == DOT && (!FileChars(s[n + 1..][..m], true) || n + m == 0) then None
      else
        var ext := if m == 0 then [] else s[n + 1..][..m];
        Some(Key(user, Upper(s[..n]) + Blanks(8 - n), Upper(ext) + Blanks(3 - m)))
  }

  lemma OneMoreChar(s: seq<byte>, from: nat, i: nat, isExt: bool)
    requires from <= i < |s|
    ensures FileChars(s[from..i + 1], isExt) <==> FileChars(s[from..i], isExt) && FileChar(isExt || i != from, s[i])
    ensures Upper(s[from..i + 1]) == Upper(s[from..i]) + [ToUpper(s[i])]
  {
    hide FileChar, ToUpper;
    assert s[from..i + 1] == s[from..i] + [s[i]];
    assert forall k :: 0 <= k < i - from ==> s[from..i + 1][k] == s[from..i][k];
    assert s[from..i + 1][i - from] == s[i];
  }

  lemma FewerChars(s: seq<byte>, from: nat, i: nat, j: nat, isExt: bool)
    requires from <= i <= j <= |s| && FileChars(s[from..j], isExt)
    ensures FileChars(s[from..i], isExt)
  {
    hide FileChar;
    assert forall k :: 0 <= k < i - from ==> s[from..i][k] == s[from..j][k];
  }

  /** The loop over the base name. */
  method ParseBase(s: seq<byte>) returns (ok: bool, n: nat, name: seq<byte>)
    ensures ok <==> FileChars(s[..BaseLength(s, 0)], false)
    ensures ok ==> n == BaseLength(s, 0) && name == Upper(s[..n])
  {
    hide FileChar, ToUpper, FileChars;
    ok, n, name := true, 0, [];
    assert s[0..0] == [];
    NoChars();
    while n < 8 && n < |s| && s[n] != DOT
      invariant n <= 8 && n <= |s| && BaseLength(s, n) == BaseLength(s, 0)
      invariant FileChars(s[0..n], false) && name == Upper(s[0..n])
    {
      OneMoreChar(s, 0, n, false);
      if !FileChar(n != 0, s[n]) {
        if FileChars(s[0..BaseLength(s, 0)], false) {
          FewerChars(s, 0, n + 1, BaseLength(s, 0), false);
        }
        return false, n, name;
      }
      name := name + [ToUpper(s[n])];
      n := n + 1;
    }
  }

  /** The loop over the extension behind the dot at `n`. */
  method ParseExt(s: seq<byte>, n: nat) returns (ok: bool, j: nat, ext: seq<byte>)
    requires n < |s| && s[n] == DOT
    ensures ok <==> FileChars(s[n + 1..n + 1 + ExtLength(s, n)], true)
    ensures ok ==> j == ExtLength(s, n) && ext == Upper(s[n + 1..n + 1 + j])
  {
    hide FileChar, ToUpper, FileChars;
    ok, j, ext := true, 0, [];
    assert s[n + 1..n + 1] == [];
    NoChars();
    var i := n + 1;
    while j < 3 && i < |s|
      invariant j <= ExtLength(s, n) && i == n + 1 + j && i <= |s|
      invariant FileChars(s[n + 1..i], true) && ext == Upper(s[n + 1..i])
    {
      OneMoreChar(s, n + 1, i, true);
      if !FileChar(true, s[i]) {
        if FileChars(s[n + 1..n + 1 + ExtLength(s, n)], true) {
          FewerChars(s, n + 1, i + 1, n + 1 + ExtLength(s, n), true);
        }
        return false, j, ext;
      }
      ext := ext + [ToUpper(s[i])];
      i, j := i + 1, j + 1;
    }
  }

  /** `splitFilename` as it runs. */
  method ParseFilename(g: Geometry, full: seq<byte>) returns (r: Option<Key>)
    ensures r == SplitFilename(g, full)
  {
    hide FileChar, ToUpper, FileChars, Upper, Blanks, BaseLength;
    if |full| < 3 || !IsDigit(full[0]) || !IsDigit(full[1]) {
      return None;
    }
    var user: int := 10 * (full[0] - ZERO) + (full[1] - ZERO);
    var s := full[2..];
    if user > MaxUser(g) {
      return None;
    }
    var ok, n, name := ParseBase(s);
    if !ok {
      return None;
    }
    var j, ext: seq<byte> := 0, [];
    if n < |s| && s[n] == DOT {
      ok, j, ext := ParseExt(s, n);
      assert s[n + 1..][..ExtLength(s, n)] == s[n + 1..n + 1 + ExtLength(s, n)];
      if !ok || n + j == 0 {
        return None;
      }
    }
    r := Some(Key(user, name + Blanks(8 - |name|), ext + Blanks(3 - |ext|)));
  }

  /** The characters of names are the printable ones and DEL without eleven, and none starts with a blank. */
  lemma FileCharacters(c: byte)
    ensures FileChar(true, c) <==> 32 <= c < 128 && forall k :: 0 <= k < 11 ==> c != "<>.,;:=?*[]"[k] as int
    ensures FileChar(false, c) <==> c != 32 && FileChar(true, c)
  {
    assert "<>.,;:=?*[]"[0] == '<' && "<>.,;:=?*[]"[1] == '>' && "<>.,;:=?*[]"[2] == '.' && "<>.,;:=?*[]"[3] == ',';
    assert "<>.,;:=?*[]"[4] == ';' && "<>.,;:=?*[]"[5] == ':' && "<>.,;:=?*[]"[6] == '=' && "<>.,;:=?*[]"[7] == '?';
    assert "<>.,;:=?*[]"[8] == '*' && "<>.,;:=?*[]"[9] == '[' && "<>.,;:=?*[]"[10] == ']';
  }

  /** The first dot behind the user number is at `d`, or there is none and the name ends there. */
  ghost predicate FirstDot(full: seq<byte>, d: nat) {
    2 <= d <= |full| && (forall i :: 2 <= i < d ==> full[i] != DOT) && (d < |full| ==> full[d] == DOT)
  }

  /** Where the characters that count as the base name end. */
  function BaseEnd(d: nat): nat {
    if d < 10 then d else 10
  }

  /** Where those that count as the extension end; only a dot right behind the base name starts one. */
  function ExtEnd(full: seq<byte>, d: nat): nat {
    if d <= 10 then (if d + 4 < |full| then d + 4 else |full|) else 0
  }

  /** Two digits, a user number, and something behind it that is not a lone dot, all of whose characters that count are
      file characters. */
  ghost predicate Acceptable(g: Geometry, full: seq<byte>, d: nat)
    requires FirstDot(full, d)
  {
    && IsDigit(full[0]) && IsDigit(full[1]) && 10 * (full[0] - ZERO) + (full[1] - ZERO) <= MaxUser(g)
    && 2 < |full| && full[2..] != [DOT]
    && (forall i :: 2 <= i < BaseEnd(d) ==> FileChar(i != 2, full[i]))
    && (forall i :: d < i < ExtEnd(full, d) ==> FileChar(true, full[i]))
  }

  /** Exactly which names are accepted, and the file they name: eight characters of the base name count, three of the
      extension, and the rest is ignored. */
  lemma SplitExactly(g: Geometry, full: seq<byte>, d: nat)
    requires FirstDot(full, d)
    ensures SplitFilename(g, full).Some? <==> Acceptable(g, full, d)
    ensures SplitFilename(g, full).Some? ==>
      var f := SplitFilename(g, full).value;
      && f.user == 10 * (full[0] - ZERO) + (full[1] - ZERO)
      && (forall i :: 0 <= i < 8 ==> f.name[i] == if i + 2 < BaseEnd(d) then ToUpper(full[i + 2]) else BLANK)
      && forall i :: 0 <= i < 3 ==> f.ext[i] == if d + 1 + i < ExtEnd(full, d) then ToUpper(full[d + 1 + i]) else BLANK
  {
    hide FileChar, ToUpper, IsDigit, BaseLength, FileChars;
    var s, n := full[2..], BaseEnd(d) - 2;
    assert forall i :: 0 <= i < |s| ==> s[i] == full[i + 2];
    BaseLengthTo(s, n, 0);
    CountedChars(full, 2, n, false);
    CountedExt(full, d);
  }

  lemma CountedExt(full: seq<byte>, d: nat)
    requires FirstDot(full, d)
    ensures var s, n := full[2..], BaseEnd(d) - 2;
      var m := ExtLength(s, n);
      if n < |s| && s[n] == DOT then
        && d == n + 2 && ExtEnd(full, d) == d + 1 + m && (n + m == 0 <==> s == [DOT])
        && (FileChars(s[n + 1..][..m], true) <==> forall i :: d < i < ExtEnd(full, d) ==> FileChar(true, full[i]))
      else ExtEnd(full, d) <= d + 1 && s != [DOT] && m == 0
  {
    hide FileChar, FileChars;
    var s, n := full[2..], BaseEnd(d) - 2;
    var m := ExtLength(s, n);
    assert forall i :: 0 <= i < |s| ==> s[i] == full[i + 2];
    assert s == [DOT] ==> s[0] == full[2] == DOT;
    if n < |s| && s[n] == DOT {
      assert s[n + 1..][..m] == full[d + 1..][..m];
      CountedChars(full, d + 1, m, true);
    }
  }

  lemma {:induction false} BaseLengthTo(s: seq<byte>, n: nat, i: nat)
    requires i <= n <= |s| && n <= 8 && (n == 8 || n == |s| || s[n] == DOT)
    requires forall j :: 0 <= j < n ==> s[j] != DOT
    ensures BaseLength(s, i) == n
    decreases n - i
  {
    if i < n {
      BaseLengthTo(s, n, i + 1);
    }
  }

  lemma CountedChars(full: seq<byte>, from: nat, n: nat, isExt: bool)
    requires from + n <= |full|
    ensures FileChars(full[from..][..n], isExt) <==>
      forall i :: from <= i < from + n ==> FileChar(isExt || i != from, full[i])
  {
    hide FileChar;
    var t := full[from..][..n];
    assert forall i :: 0 <= i < n ==> t[i] == full[from + i];
    forall i | from <= i < from + n ensures t[i - from] == full[i] {}
  }

  lemma UpperIsSound(notFirst: bool, c: byte)
    requires FileChar(notFirst, c)
    ensures Fsck.NameChar(notFirst, ToUpper(c) % 128) && ToUpper(c) < 128
  {}

  lemma PaddedIsSound(s: seq<byte>, isExt: bool, pad: nat)
    requires FileChars(s, isExt)
    ensures forall i :: 0 <= i < |s| + pad ==> (Upper(s) + Blanks(pad))[i] < 128
    ensures forall i :: 0 <= i < |s| + pad && (i < |s| || isExt || i != 0) ==>
      Fsck.NameChar(isExt || i != 0, (Upper(s) + Blanks(pad))[i] % 128)
  {
    hide FileChar, ToUpper, Fsck.NameChar;
    forall i | 0 <= i < |s| ensures Fsck.NameChar(isExt || i != 0, ToUpper(s[i]) % 128) && ToUpper(s[i]) < 128 {
      UpperIsSound(isExt || i != 0, s[i]);
    }
    BlankIsSound();
  }

  lemma BlankIsSound()
    ensures Fsck.NameChar(true, BLANK % 128) && !Fsck.NameChar(false, BLANK % 128)
  {}

  /** What comes out is a valid key, and one `fsck` accepts unless the base name is blank. */
  lemma SplitIsValid(g: Geometry, full: seq<byte>)
    requires SplitFilename(g, full).Some?
    ensures ValidKey(g, SplitFilename(g, full).value)
    ensures var f := SplitFilename(g, full).value;
      Fsck.SoundExt(f.ext) && (Fsck.SoundName(f.name) <==> f.name[0] != BLANK)
  {
    hide FileChar, ToUpper, Fsck.NameChar, FileChars;
    var f, s := SplitFilename(g, full).value, full[2..];
    var n := BaseLength(s, 0);
    var m := ExtLength(s, n);
    NoChars();
    PaddedIsSound(s[..n], false, 8 - n);
    PaddedIsSound(if m == 0 then [] else s[n + 1..][..m], true, 3 - m);
    BlankIsSound();
    if n > 0 {
      FirstNotBlank(s[..n]);
    }
  }

  lemma NoChars()
    ensures FileChars([], true) && FileChars([], false) && Upper([]) == []
  {}

  lemma FirstNotBlank(s: seq<byte>)
    requires 0 < |s| && FileChars(s, false)
    ensures Upper(s)[0] != BLANK
  {}

  // ----- printing -------------------------------------------------------------------------------------

  /** The part of a padded field before its first blank. */
  function Trim(s: seq<byte>): (t: seq<byte>)
    ensures t <= s && BLANK !in t && (|t| < |s| ==> s[|t|] == BLANK)
  {
    if |s| == 0 || s[0] == BLANK then [] else [s[0]] + Trim(s[1..])
  }

  function Cased(s: seq<byte>, uppercase: bool): (r: seq<byte>)
    ensures |r| == |s| && forall i :: 0 <= i < |s| ==> r[i] == if uppercase then s[i] else ToLower(s[i])
  {
    seq<byte>(|s|, i requires 0 <= i < |s| => if uppercase then s[i] else ToLower(s[i]))
  }

  /** The name `cpmReaddir` prints for a file. */
  function PrintedName(f: Key, uppercase: bool): seq<byte>
    requires f.user < 100
  {
    var base, ext := Cased(Trim(f.name), uppercase), Cased(Trim(f.ext), uppercase);
    [ZERO + f.user / 10, ZERO + f.user % 10] + Dotted(base, ext)
  }

  function Dotted(base: seq<byte>, ext: seq<byte>): seq<byte> {
    if ext == [] then base else base + [DOT] + ext
  }

  /** How a name is printed, whatever it holds: two digits, the base name up to its first blank, and a dot and the
      extension up to its first blank unless that is empty; capital letters only if asked for. */
  lemma PrintedLayout(f: Key, uppercase: bool, b: nat, x: nat)
    requires f.user < 100 && b <= |f.name| && x <= |f.ext|
    requires BLANK !in f.name[..b] && (b < |f.name| ==> f.name[b] == BLANK)
    requires BLANK !in f.ext[..x] && (x < |f.ext| ==> f.ext[x] == BLANK)
    ensures var r := PrintedName(f, uppercase);
      && |r| == (if x == 0 then 2 + b else 3 + b + x)
      && r[0] == ZERO + f.user / 10 && r[1] == ZERO + f.user % 10
      && (forall i :: 0 <= i < b ==> r[2 + i] == PrintedChar(f.name[i], uppercase))
      && (0 < x ==> r[2 + b] == DOT && forall i :: 0 <= i < x ==> r[3 + b + i] == PrintedChar(f.ext[i], uppercase))
  {
    hide ToLower;
    TrimIs(f.name, b);
    TrimIs(f.ext, x);
    PrintedCase();
  }

  function PrintedChar(c: byte, uppercase: bool): byte {
    if !uppercase && 65 <= c <= 90 then c + 32 else c
  }

  lemma PrintedCase()
    ensures forall c: byte :: ToLower(c) == PrintedChar(c, false)
  {}

  lemma {:induction false} TrimIs(s: seq<byte>, n: nat)
    requires n <= |s| && BLANK !in s[..n] && (n < |s| ==> s[n] == BLANK)
    ensures Trim(s) == s[..n]
  {
    if n > 0 {
      assert s[..n][0] == s[0] && s[1..][..n - 1] == s[..n][1..];
      TrimIs(s[1..], n - 1);
    }
  }

  /** A field of file characters, none in lower case, padded with blanks at the end only. */
  predicate LegalField(s: seq<byte>) {
    && s == Trim(s) + Blanks(|s| - |Trim(s)|)
    && forall i :: 0 <= i < |Trim(s)| ==> FileChar(false, s[i]) && ToUpper(s[i]) == s[i]
  }

  predicate LegalName(g: Geometry, f: Key) {
    && f.user <= MaxUser(g) && |f.name| == 8 && |f.ext| == 3
    && LegalField(f.name) && LegalField(f.ext) && (f.name[0] != BLANK || f.ext[0] != BLANK)
  }

  lemma CasedUpper(s: seq<byte>, uppercase: bool)
    requires forall i :: 0 <= i < |s| ==> FileChar(false, s[i]) && ToUpper(s[i]) == s[i]
    ensures Upper(Cased(s, uppercase)) == s && FileChars(Cased(s, uppercase), true)
    ensures FileChars(Cased(s, uppercase), false) && DOT !in Cased(s, uppercase)
  {
    forall i | 0 <= i < |s|
      ensures ToUpper(Cased(s, uppercase)[i]) == s[i] && FileChar(false, Cased(s, uppercase)[i])
    {}
  }

  lemma {:induction false} BaseLengthIs(s: seq<byte>, n: nat, i: nat)
    requires i <= n <= |s| && n <= 8 && DOT !in s[..n] && (n == 8 || n == |s| || s[n] == DOT)
    ensures BaseLength(s, i) == n
    decreases n - i
  {
    if i < n {
      assert s[..n][i] == s[i];
      BaseLengthIs(s, n, i + 1);
    }
  }

  lemma DottedParts(base: seq<byte>, ext: seq<byte>)
    requires |base| <= 8 && |ext| <= 3 && DOT !in base
    ensures var s := Dotted(base, ext);
      && BaseLength(s, 0) == |base| && ExtLength(s, |base|) == |ext|
      && s[..|base|] == base && (ext != [] ==> s[|base| + 1..][..|ext|] == ext)
      && (|base| < |s| <==> ext != []) && (|base| < |s| ==> s[|base|] == DOT)
  {
    var s := Dotted(base, ext);
    assert s[..|base|] == base;
    BaseLengthIs(s, |base|, 0);
  }

  /** Digits, base name and extension put together come apart again. */
  lemma SplitDotted(g: Geometry, user: byte, tens: byte, ones: byte, base: seq<byte>, ext: seq<byte>)
    requires IsDigit(tens) && IsDigit(ones) && 10 * (tens - ZERO) + (ones - ZERO) == user <= MaxUser(g)
    requires |base| <= 8 && |ext| <= 3 && DOT !in base && 0 < |base| + |ext|
    requires FileChars(base, false) && FileChars(ext, true)
    ensures SplitFilename(g, [tens, ones] + Dotted(base, ext))
         == Some(Key(user, Upper(base) + Blanks(8 - |base|), Upper(ext) + Blanks(3 - |ext|)))
  {
    hide FileChars, Upper, Blanks, Dotted, BaseLength, ExtLength, IsDigit;
    DottedParts(base, ext);
    var full := [tens, ones] + Dotted(base, ext);
    assert full[2..] == Dotted(base, ext);
    NoChars();
  }

  /** A listed name parses back to the file it names, in either case mode. */
  lemma PrintedNameParses(g: Geometry, f: Key, uppercase: bool)
    requires LegalName(g, f)
    ensures SplitFilename(g, PrintedName(f, uppercase)) == Some(f)
  {
    hide FileChar, ToUpper, ToLower, FileChars, SplitFilename, Dotted, IsDigit;
    CasedUpper(Trim(f.name), uppercase);
    CasedUpper(Trim(f.ext), uppercase);
    UserDigits(f.user);
    SplitDotted(g, f.user, ZERO + f.user / 10, ZERO + f.user % 10, Cased(Trim(f.name), uppercase),
      Cased(Trim(f.ext), uppercase));
  }

  lemma UserDigits(user: byte)
    requires user < 100
    ensures IsDigit(ZERO + user / 10) && IsDigit(ZERO + user % 10)
    ensures 10 * ((ZERO + user / 10) - ZERO) + ((ZERO + user % 10) - ZERO) == user
  {}
}
