/** Wildcards: `recmatch`, `match`, and the expansion in `cpmglob`. Strings are the bytes in front of
    the terminating NUL. */
module Glob {
  import opened Geometry
  import opened Names
  import opened Listing

  const STAR: byte := 42
  const QUESTION: byte := 63
  const COLON: byte := 58

  // ----- what a pattern means ---------------------------------------------------------------------

  predicate SameChar(c: byte, d: byte) {
    ToLower(c) == ToLower(d)
  }

  /** `*` stands for any string, `?` for any character, everything else for itself in either case. */
  ghost predicate Means(a: seq<byte>, p: seq<byte>) {
    if p == [] then a == []
    else if p[0] == STAR then exists k :: 0 <= k <= |a| && Means(a[k..], p[1..])
    else a != [] && (p[0] == QUESTION || SameChar(a[0], p[0])) && Means(a[1..], p[1..])
  }

  ghost predicate MeansSplit(a: seq<byte>, p: seq<byte>, q: seq<byte>, k: nat) {
    k <= |a| && Means(a[..k], p) && Means(a[k..], q)
  }

  /** Two patterns in a row mean the strings of the first followed by those of the second. */
  lemma {:induction false} MeansConcat(a: seq<byte>, p: seq<byte>, q: seq<byte>)
    ensures Means(a, p + q) <==> exists k: nat :: MeansSplit(a, p, q, k)
    decreases |p|
  {
    hide SameChar;
    if p == [] {
      assert p + q == q && a[..0] == [] && a[0..] == a;
      if Means(a, q) {
        assert MeansSplit(a, p, q, 0);
      }
    } else {
      assert (p + q)[1..] == p[1..] + q;
      if p[0] == STAR {
        StarConcat(a, p, q);
      } else if a != [] {
        MeansConcat(a[1..], p[1..], q);
        CharConcat(a, p, q);
      }
    }
  }

  lemma StarConcat(a: seq<byte>, p: seq<byte>, q: seq<byte>)
    requires p != [] && p[0] == STAR
    ensures Means(a, p + q) <==> exists k: nat :: MeansSplit(a, p, q, k)
    decreases |p|, 0
  {
    hide SameChar;
    assert (p + q)[1..] == p[1..] + q;
    if Means(a, p + q) {
      var l :| 0 <= l <= |a| && Means(a[l..], p[1..] + q);
      MeansConcat(a[l..], p[1..], q);
      var k: nat :| MeansSplit(a[l..], p[1..], q, k);
      assert a[..l + k][l..] == a[l..][..k] && a[l + k..] == a[l..][k..];
      assert MeansSplit(a, p, q, l + k);
    }
    if k: nat :| MeansSplit(a, p, q, k) {
      var l :| 0 <= l <= k && Means(a[..k][l..], p[1..]);
      assert a[..k][l..] == a[l..][..k - l] && a[k..] == a[l..][k - l..];
      assert MeansSplit(a[l..], p[1..], q, k - l);
      MeansConcat(a[l..], p[1..], q);
    }
  }

  lemma CharConcat(a: seq<byte>, p: seq<byte>, q: seq<byte>)
    requires p != [] && p[0] != STAR && a != []
    ensures (exists k: nat :: MeansSplit(a, p, q, k)) <==>
      (p[0] == QUESTION || SameChar(a[0], p[0])) && exists k: nat :: MeansSplit(a[1..], p[1..], q, k)
  {
    hide SameChar;
    if k: nat :| MeansSplit(a, p, q, k) {
      assert a[..k][1..] == a[1..][..k - 1] && a[k..] == a[1..][k - 1..];
      assert MeansSplit(a[1..], p[1..], q, k - 1);
    }
    if (p[0] == QUESTION || SameChar(a[0], p[0])) && exists k: nat :: MeansSplit(a[1..], p[1..], q, k) {
      var k: nat :| MeansSplit(a[1..], p[1..], q, k);
      assert a[..k + 1][1..] == a[1..][..k] && a[k + 1..] == a[1..][k..];
      assert MeansSplit(a, p, q, k + 1);
    }
  }

  /** One character of a pattern: anything, any one character, or that letter in either case. */
  lemma MeansOne(a: seq<byte>, c: byte)
    ensures Means(a, [STAR])
    ensures Means(a, [QUESTION]) <==> |a| == 1
    ensures c != STAR && c != QUESTION ==>
      (Means(a, [c]) <==>
       |a| == 1 && (a[0] == c || (97 <= a[0] <= 122 && c == a[0] - 32) || (97 <= c <= 122 && a[0] == c - 32)))
  {
    var p, s: seq<byte> := [c], [STAR];
    assert p[1..] == [] && s[1..] == [];
    assert Means(a[|a|..], s[1..]);
    if a != [] {
      assert a[1..] == [] <==> |a| == 1;
    }
  }

  /** The `*` at `i` is the first of the pattern or stands behind another one. */
  predicate BareStar(p: seq<byte>, i: nat) {
    i < |p| && p[i] == STAR && (i == 0 || p[i - 1] == STAR)
  }

  ghost predicate HasBareStar(p: seq<byte>) {
    exists i: nat :: BareStar(p, i)
  }

  /** The special case: a bare `*` meets a dot, and whatever follows both is ignored. */
  ghost predicate Shortcut(a: seq<byte>, p: seq<byte>, i: nat, k: nat) {
    BareStar(p, i) && k < |a| && a[k] == DOT && Means(a[..k], p[..i])
  }

  ghost predicate HasShortcut(a: seq<byte>, p: seq<byte>) {
    exists i: nat, k: nat :: Shortcut(a, p, i, k)
  }

  /** A shortcut that is not at the very start of the pattern. */
  ghost predicate HasLateShortcut(a: seq<byte>, p: seq<byte>) {
    exists i: nat, k: nat :: 0 < i && Shortcut(a, p, i, k)
  }

  ghost predicate Accepts(a: seq<byte>, p: seq<byte>) {
    Means(a, p) || HasShortcut(a, p)
  }

  ghost predicate AcceptsFrom(a: seq<byte>, p: seq<byte>, l: nat) {
    l <= |a| && Accepts(a[l..], p)
  }

  // ----- what recmatch computes -------------------------------------------------------------------

  /** `recmatch` from inside its loop; `first` as there. */
  predicate Rec(a: seq<byte>, p: seq<byte>, first: bool)
    decreases |p|, |a|, 0
  {
    if p == [] then a == []
    else if p[0] == STAR then (first && a != [] && a[0] == DOT) || Suffix(a, p[1..])
    else a != [] && (p[0] == QUESTION || SameChar(a[0], p[0])) && Rec(a[1..], p[1..], false)
  }

  /** The loop behind a `*`: some suffix of `a` matches `q`. */
  predicate Suffix(a: seq<byte>, q: seq<byte>)
    decreases |q|, |a|, 1
  {
    if a == [] then Rec(a, q, false) else Rec(a, q, true) || Suffix(a[1..], q)
  }

  /** `recmatch`. */
  method RecMatch(a: seq<byte>, pattern: seq<byte>) returns (r: bool)
    ensures r == Rec(a, pattern, true)
    decreases |pattern|
  {
    var first, i, j := true, 0, 0;
    while i < |pattern|
      invariant i <= |pattern| && j <= |a|
      invariant Rec(a, pattern, true) == Rec(a[j..], pattern[i..], first)
    {
      if pattern[i] == STAR {
        if j < |a| && a[j] == DOT && first {
          return true;
        }
        i := i + 1;
        assert Rec(a, pattern, true) == Suffix(a[j..], pattern[i..]);
        while j < |a|
          invariant j <= |a| && Rec(a, pattern, true) == Suffix(a[j..], pattern[i..])
        {
          var found := RecMatch(a[j..], pattern[i..]);
          if found {
            return true;
          }
          j := j + 1;
        }
      } else if pattern[i] == QUESTION {
        if j == |a| {
          return false;
        }
        i, j := i + 1, j + 1;
      } else {
        if j == |a| || !SameChar(a[j], pattern[i]) {
          return false;
        }
        i, j := i + 1, j + 1;
      }
      first := false;
    }
    r := j == |a|;
  }

  // ----- the two agree ------------------------------------------------------------------------------

  /** `recmatch` accepts what the pattern means, and the names that take a shortcut. */
  lemma {:induction false} RecIsMeans(a: seq<byte>, p: seq<byte>)
    ensures Rec(a, p, true) <==> Accepts(a, p)
    ensures Rec(a, p, false) <==> Means(a, p) || HasLateShortcut(a, p)
    decreases |p|, |a|, 0
  {
    hide SameChar, HasShortcut, HasLateShortcut, AcceptsFrom, Suffix;
    if p == [] {
      NoPatternNoShortcut(a);
    } else if p[0] == STAR {
      SuffixIsMeans(a, p[1..]);
      StarSplits(a, p);
      StartShortcut(a, p);
    } else if a != [] {
      RecIsMeans(a[1..], p[1..]);
      CharShortcut(a, p);
    } else {
      CharNeedsChar(p);
    }
  }

  lemma {:induction false} SuffixIsMeans(a: seq<byte>, q: seq<byte>)
    ensures Suffix(a, q) <==> exists l: nat :: AcceptsFrom(a, q, l)
    decreases |q|, |a|, 1
  {
    hide SameChar, HasShortcut, HasLateShortcut, Means, Rec;
    RecIsMeans(a, q);
    assert a[0..] == a;
    if a == [] {
      NoShortcutForEmpty(q);
      assert AcceptsFrom(a, q, 0) <==> Means(a, q);
    } else {
      SuffixIsMeans(a[1..], q);
      assert AcceptsFrom(a, q, 0) <==> Accepts(a, q);
      forall l: nat ensures AcceptsFrom(a[1..], q, l) <==> AcceptsFrom(a, q, l + 1) {
        if l <= |a| - 1 {
          assert a[1..][l..] == a[l + 1..];
        }
      }
      forall l: nat | AcceptsFrom(a, q, l) && l != 0 ensures AcceptsFrom(a[1..], q, l - 1) {
        assert AcceptsFrom(a[1..], q, l - 1) <==> AcceptsFrom(a, q, l - 1 + 1);
      }
    }
  }

  lemma NoPatternNoShortcut(a: seq<byte>)
    ensures !HasShortcut(a, []) && !HasLateShortcut(a, [])
  {}

  lemma NoShortcutForEmpty(q: seq<byte>)
    ensures !HasShortcut([], q) && !HasLateShortcut([], q)
  {}

  /** A leading `*` takes the shortcut at a leading dot, or there is a later shortcut. */
  lemma StartShortcut(a: seq<byte>, p: seq<byte>)
    requires p != [] && p[0] == STAR
    ensures HasShortcut(a, p) <==> (a != [] && a[0] == DOT) || HasLateShortcut(a, p)
  {
    if a != [] && a[0] == DOT {
      assert a[..0] == [] && p[..0] == [];
      assert Shortcut(a, p, 0, 0);
    }
    if HasShortcut(a, p) && !HasLateShortcut(a, p) {
      var i: nat, k: nat :| Shortcut(a, p, i, k);
      assert p[..0] == [] && a[..k] == [];
    }
  }

  /** Behind a `*`, some suffix of the name meets the rest of the pattern. */
  lemma StarSplits(a: seq<byte>, p: seq<byte>)
    requires p != [] && p[0] == STAR
    ensures (exists l: nat :: AcceptsFrom(a, p[1..], l)) <==> Means(a, p) || HasLateShortcut(a, p)
  {
    hide Accepts, SameChar;
    var q := p[1..];
    forall l: nat | AcceptsFrom(a, q, l) ensures Means(a, p) || HasLateShortcut(a, p) {
      StarAbsorbs(a, p, l);
    }
    if Means(a, p) {
      var l :| 0 <= l <= |a| && Means(a[l..], q);
      AcceptsMeaning(a, q, l);
    }
    if HasLateShortcut(a, p) {
      var i: nat, k: nat :| 0 < i && Shortcut(a, p, i, k);
      StarReleases(a, p, i, k);
    }
  }

  lemma AcceptsMeaning(a: seq<byte>, q: seq<byte>, l: nat)
    requires l <= |a| && Means(a[l..], q)
    ensures AcceptsFrom(a, q, l)
  {
    hide Means, HasShortcut;
  }

  lemma StarAbsorbs(a: seq<byte>, p: seq<byte>, l: nat)
    requires p != [] && p[0] == STAR && AcceptsFrom(a, p[1..], l)
    ensures Means(a, p) || HasLateShortcut(a, p)
  {
    hide SameChar;
    var q := p[1..];
    if !Means(a[l..], q) {
      var i: nat, k: nat :| Shortcut(a[l..], q, i, k);
      assert p[..i + 1][1..] == q[..i] && p[..i + 1][0] == STAR;
      assert a[..l + k][l..] == a[l..][..k];
      assert Means(a[..l + k], p[..i + 1]);
      assert Shortcut(a, p, i + 1, l + k);
    }
  }

  lemma StarReleases(a: seq<byte>, p: seq<byte>, i: nat, k: nat)
    requires p != [] && p[0] == STAR && 0 < i && Shortcut(a, p, i, k)
    ensures exists l: nat :: AcceptsFrom(a, p[1..], l)
  {
    hide SameChar;
    var q := p[1..];
    assert p[..i][1..] == q[..i - 1] && p[..i][0] == STAR;
    var l :| 0 <= l <= k && Means(a[..k][l..], q[..i - 1]);
    assert a[..k][l..] == a[l..][..k - l];
    assert Shortcut(a[l..], q, i - 1, k - l);
    assert AcceptsFrom(a, q, l);
  }

  /** One ordinary character takes nothing away from a later shortcut. */
  lemma CharShortcut(a: seq<byte>, p: seq<byte>)
    requires p != [] && p[0] != STAR && a != []
    ensures HasShortcut(a, p) <==> (p[0] == QUESTION || SameChar(a[0], p[0])) && HasLateShortcut(a[1..], p[1..])
    ensures HasLateShortcut(a, p) <==> HasShortcut(a, p)
  {
    hide SameChar;
    if HasShortcut(a, p) {
      var i: nat, k: nat :| Shortcut(a, p, i, k);
      assert 0 < i && a[..k] != [];
      assert a[..k][1..] == a[1..][..k - 1] && p[..i][1..] == p[1..][..i - 1];
      assert Shortcut(a[1..], p[1..], i - 1, k - 1);
    }
    if (p[0] == QUESTION || SameChar(a[0], p[0])) && HasLateShortcut(a[1..], p[1..]) {
      var i: nat, k: nat :| 0 < i && Shortcut(a[1..], p[1..], i, k);
      assert a[..k + 1][1..] == a[1..][..k] && p[..i + 1][1..] == p[1..][..i];
      assert Shortcut(a, p, i + 1, k + 1);
    }
  }

  lemma CharNeedsChar(p: seq<byte>)
    requires p != [] && p[0] != STAR
    ensures !HasShortcut([], p) && !HasLateShortcut([], p)
  {}

  /** Without a bare `*`, matching is exactly what the pattern means. */
  lemma RecIsExact(a: seq<byte>, p: seq<byte>)
    requires !HasBareStar(p)
    ensures Rec(a, p, true) <==> Means(a, p)
  {
    hide Rec, Means;
    RecIsMeans(a, p);
  }

  // ----- match and cpmglob ---------------------------------------------------------------------------

  /** The pattern `match` hands on: two characters for the user number, then the rest. */
  function FullPattern(pattern: seq<byte>): (r: seq<byte>) {
    if |pattern| >= 2 && IsDigit(pattern[0]) && pattern[1] == COLON then [ZERO, pattern[0]] + pattern[2..]
    else if |pattern| >= 3 && IsDigit(pattern[0]) && IsDigit(pattern[1]) && pattern[2] == COLON
    then [pattern[0], pattern[1]] + pattern[3..]
    else [QUESTION, QUESTION] + pattern
  }

  predicate Matched(a: seq<byte>, pattern: seq<byte>) {
    Rec(a, FullPattern(pattern), true)
  }

  /** `match`. */
  method Match(a: seq<byte>, pattern: seq<byte>) returns (r: bool)
    ensures r == Matched(a, pattern)
    ensures !HasDoubleStar(pattern) ==> (r <==> Selects(a, pattern))
  {
    var user, rest := -1, pattern;
    if |pattern| >= 2 && IsDigit(pattern[0]) && pattern[1] == COLON {
      user, rest := pattern[0] - ZERO, pattern[2..];
    } else if |pattern| >= 3 && IsDigit(pattern[0]) && IsDigit(pattern[1]) && pattern[2] == COLON {
      user, rest := 10 * (pattern[0] - ZERO) + (pattern[1] - ZERO), pattern[3..];
    }
    var pat: seq<byte> := if user == -1 then [QUESTION, QUESTION] + rest
      else [ZERO + user / 10, ZERO + user % 10] + rest;
    assert pat == FullPattern(pattern);
    r := RecMatch(a, pat);
    if !HasDoubleStar(pattern) {
      MatchIsExact(a, pattern);
    }
  }

  /** Two stars in a row somewhere behind the user number. */
  ghost predicate HasDoubleStar(p: seq<byte>) {
    exists i :: 0 < i < |p| && p[i] == STAR && p[i - 1] == STAR
  }

  /** A pattern that names no user number. */
  predicate AnyUser(pattern: seq<byte>) {
    && !(|pattern| >= 2 && IsDigit(pattern[0]) && pattern[1] == COLON)
    && !(|pattern| >= 3 && IsDigit(pattern[0]) && IsDigit(pattern[1]) && pattern[2] == COLON)
  }

  /** What a pattern means for a listed name, which starts with two digits of user number. */
  ghost predicate Selects(name: seq<byte>, pattern: seq<byte>) {
    && |name| >= 2
    && if AnyUser(pattern) then Means(name[2..], pattern)
       else if pattern[1] == COLON then name[0] == ZERO && name[1] == pattern[0] && Means(name[2..], pattern[2..])
       else name[..2] == pattern[..2] && Means(name[2..], pattern[3..])
  }

  /** The two characters in front of the rest are matched on their own, and the rest can no longer be the start. */
  lemma MatchSplits(a: seq<byte>, c: byte, d: byte, rest: seq<byte>)
    requires c != STAR && d != STAR
    ensures Rec(a, [c, d] + rest, true) <==>
      && |a| >= 2 && (c == QUESTION || SameChar(a[0], c)) && (d == QUESTION || SameChar(a[1], d))
      && (Means(a[2..], rest) || HasLateShortcut(a[2..], rest))
  {
    hide Means, HasLateShortcut, SameChar;
    var full := [c, d] + rest;
    assert full[1..] == [d] + rest && full[1..][1..] == rest;
    if |a| >= 2 {
      assert a[1..][1..] == a[2..];
      RecIsMeans(a[2..], rest);
    }
  }

  lemma NoLateShortcut(a: seq<byte>, p: seq<byte>)
    requires !HasDoubleStar(p)
    ensures !HasLateShortcut(a, p)
  {
    hide Means;
  }

  lemma DigitOnly(c: byte, d: byte)
    requires IsDigit(d)
    ensures SameChar(c, d) <==> c == d
    ensures d != STAR && d != QUESTION
  {}

  /** One digit, a colon and a pattern without adjacent stars: the files of that user whose name the pattern means. */
  lemma OneDigitUser(a: seq<byte>, u: nat, p: seq<byte>)
    requires u < 10 && !HasDoubleStar(p)
    ensures Matched(a, [ZERO + u, COLON] + p) <==>
      |a| >= 2 && a[0] == ZERO && a[1] == ZERO + u && Means(a[2..], p)
  {
    hide Rec, Means, HasDoubleStar, HasLateShortcut, SameChar;
    assert ([ZERO + u, COLON] + p)[2..] == p;
    DigitUser(a, ZERO, ZERO + u, p);
  }

  /** The same for two digits. */
  lemma TwoDigitUser(a: seq<byte>, u: nat, p: seq<byte>)
    requires u < 100 && !HasDoubleStar(p)
    ensures Matched(a, [ZERO + u / 10, ZERO + u % 10, COLON] + p) <==>
      |a| >= 2 && a[0] == ZERO + u / 10 && a[1] == ZERO + u % 10 && Means(a[2..], p)
  {
    hide Rec, Means, HasDoubleStar, HasLateShortcut, SameChar;
    assert ([ZERO + u / 10, ZERO + u % 10, COLON] + p)[3..] == p;
    DigitUser(a, ZERO + u / 10, ZERO + u % 10, p);
  }

  /** Without a user number, the files of all users. */
  lemma NoUser(a: seq<byte>, p: seq<byte>)
    requires AnyUser(p) && !HasDoubleStar(p)
    ensures Matched(a, p) <==> |a| >= 2 && Means(a[2..], p)
  {
    hide Rec, Means, HasDoubleStar, HasLateShortcut, SameChar;
    MatchSplits(a, QUESTION, QUESTION, p);
    if |a| >= 2 {
      NoLateShortcut(a[2..], p);
    }
  }

  lemma DigitUser(a: seq<byte>, c: byte, d: byte, p: seq<byte>)
    requires IsDigit(c) && IsDigit(d) && !HasDoubleStar(p)
    ensures Rec(a, [c, d] + p, true) <==> |a| >= 2 && a[0] == c && a[1] == d && Means(a[2..], p)
  {
    hide Rec, Means, HasDoubleStar, HasLateShortcut, SameChar;
    if |a| >= 2 {
      DigitOnly(a[0], c);
      DigitOnly(a[1], d);
      NoLateShortcut(a[2..], p);
    }
    MatchSplits(a, c, d, p);
  }

  /** The pattern never starts with `*`, so only adjacent stars can go wrong. */
  lemma MatchIsExact(a: seq<byte>, pattern: seq<byte>)
    requires !HasDoubleStar(pattern)
    ensures Matched(a, pattern) <==> Selects(a, pattern)
  {
    hide Rec, Means, HasDoubleStar, Matched;
    if AnyUser(pattern) {
      NoUser(a, pattern);
    } else if pattern[1] == COLON {
      RestHasNone(pattern, 2);
      assert pattern == [ZERO + (pattern[0] - ZERO), COLON] + pattern[2..];
      OneDigitUser(a, pattern[0] - ZERO, pattern[2..]);
    } else {
      RestHasNone(pattern, 3);
      var u := 10 * (pattern[0] - ZERO) + (pattern[1] - ZERO);
      assert pattern == [ZERO + u / 10, ZERO + u % 10, COLON] + pattern[3..];
      TwoDigitUser(a, u, pattern[3..]);
    }
  }

  lemma RestHasNone(p: seq<byte>, n: nat)
    requires n <= |p| && !HasDoubleStar(p)
    ensures !HasDoubleStar(p[n..])
  {
    forall i | 0 < i < |p| - n ensures !(p[n..][i] == STAR && p[n..][i - 1] == STAR) {
      assert p[n..][i] == p[n + i] && p[n..][i - 1] == p[n + i - 1];
    }
  }

  /** With adjacent stars it does go wrong: `**q` accepts `00a.b`. */
  lemma DoubleStarGoesWrong()
    ensures var a: seq<byte>, p: seq<byte> := [ZERO, ZERO, 97, DOT, 98], [STAR, STAR, 113];
      Rec(a, FullPattern(p), true) && !Means(a, FullPattern(p))
  {
    hide Rec;
    var a: seq<byte>, p: seq<byte> := [ZERO, ZERO, 97, DOT, 98], [STAR, STAR, 113];
    var full := FullPattern(p);
    assert full == [QUESTION, QUESTION, STAR, STAR, 113];
    RecIsMeans(a, full);
    assert Shortcut(a, full, 3, 3) by {
      assert full[..3] == [QUESTION, QUESTION, STAR] && a[..3] == [ZERO, ZERO, 97];
      StarTakesOne();
    }
    if Means(a, full) {
      LastCharacter(a, full);
    }
  }

  lemma StarTakesOne()
    ensures Means([ZERO, ZERO, 97], [QUESTION, QUESTION, STAR])
  {
    var last: seq<byte>, star: seq<byte> := [97], [STAR];
    assert last[1..] == [] && star[1..] == [];
    assert Means(last, star);
    var last2: seq<byte>, star2: seq<byte> := [ZERO, 97], [QUESTION, STAR];
    assert last2[1..] == last && star2[1..] == star;
    var last3: seq<byte>, star3: seq<byte> := [ZERO, ZERO, 97], [QUESTION, QUESTION, STAR];
    assert last3[1..] == last2 && star3[1..] == star2;
  }

  /** A pattern ending in an ordinary character needs a name ending in it. */
  lemma {:induction false} LastCharacter(a: seq<byte>, p: seq<byte>)
    requires p != [] && p[|p| - 1] != STAR && p[|p| - 1] != QUESTION && Means(a, p)
    ensures a != [] && SameChar(a[|a| - 1], p[|p| - 1])
    decreases |p|
  {
    hide SameChar;
    if |p| > 1 {
      if p[0] == STAR {
        var k :| 0 <= k <= |a| && Means(a[k..], p[1..]);
        LastCharacter(a[k..], p[1..]);
      } else {
        LastCharacter(a[1..], p[1..]);
      }
    } else {
      assert a[1..] == [];
    }
  }

  /** The names among the first `n` entries that match. */
  function Expansion(entries: seq<Dirent>, n: nat, pattern: seq<byte>): (r: seq<seq<byte>>)
    requires n <= |entries|
  {
    if n == 0 then []
    else
      Expansion(entries, n - 1, pattern) +
      if Matched(entries[n - 1].name, pattern) then [entries[n - 1].name] else []
  }

  /** The expansions of the first `n` patterns, one behind the other. */
  function Expansions(entries: seq<Dirent>, patterns: seq<seq<byte>>, n: nat): (r: seq<seq<byte>>)
    requires n <= |patterns|
  {
    if n == 0 then [] else Expansions(entries, patterns, n - 1) + Expansion(entries, |entries|, patterns[n - 1])
  }

  /** The second half of `cpmglob`: pattern by pattern, entry by entry. */
  method Cpmglob(entries: seq<Dirent>, argv: seq<seq<byte>>, optin: nat) returns (gargv: seq<seq<byte>>)
    requires optin <= |argv|
    ensures gargv == Expansions(entries, argv[optin..], |argv| - optin)
  {
    hide Expansion, Matched;
    gargv := [];
    for i := optin to |argv|
      invariant gargv == Expansions(entries, argv[optin..], i - optin)
    {
      var more := Expand(entries, argv[i]);
      assert argv[optin..][i - optin] == argv[i];
      gargv := gargv + more;
    }
  }

  /** The inner loop, for one pattern. */
  method Expand(entries: seq<Dirent>, pattern: seq<byte>) returns (names: seq<seq<byte>>)
    ensures names == Expansion(entries, |entries|, pattern)
  {
    hide Matched, Selects, HasDoubleStar;
    names := [];
    for j := 0 to |entries|
      invariant names == Expansion(entries, j, pattern)
    {
      var found := Match(entries[j].name, pattern);
      if found {
        names := names + [entries[j].name];
      }
    }
  }

  /** The expansion of one pattern is the listed names it selects, in the order of the listing and as often. */
  lemma {:induction false} ExpansionIsExact(entries: seq<Dirent>, n: nat, pattern: seq<byte>) returns (from: seq<nat>)
    requires n <= |entries|
    ensures |from| == |Expansion(entries, n, pattern)|
    ensures forall k :: 0 <= k < |from| ==>
      from[k] < n && Expansion(entries, n, pattern)[k] == entries[from[k]].name
    ensures forall k, l :: 0 <= k < l < |from| ==> from[k] < from[l]
    ensures forall j: nat :: j < n ==> (j in from <==> Matched(entries[j].name, pattern))
    ensures !HasDoubleStar(pattern) ==>
      forall j: nat :: j < n ==> (j in from <==> Selects(entries[j].name, pattern))
  {
    hide Matched, Selects, HasDoubleStar;
    from := [];
    if n > 0 {
      from := ExpansionIsExact(entries, n - 1, pattern);
      if Matched(entries[n - 1].name, pattern) {
        from := from + [n - 1];
      }
      if !HasDoubleStar(pattern) {
        MatchIsExact(entries[n - 1].name, pattern);
      }
    }
  }

  /** Pattern `from[k].0` selected entry `from[k].1` as the `k`-th argument. */
  ghost predicate Picked(entries: seq<Dirent>, patterns: seq<seq<byte>>, n: nat, from: seq<(nat, nat)>)
    requires n <= |patterns|
  {
    var r := Expansions(entries, patterns, n);
    && |from| == |r|
    && (forall k :: 0 <= k < |from| ==>
          from[k].0 < n && from[k].1 < |entries| && r[k] == entries[from[k].1].name)
    && (forall k, l :: 0 <= k < l < |from| ==>
          from[k].0 < from[l].0 || (from[k].0 == from[l].0 && from[k].1 < from[l].1))
    && (forall i: nat, j: nat :: i < n && j < |entries| ==>
          ((i, j) in from <==> Matched(entries[j].name, patterns[i])))
  }

  /** All patterns are expanded, one after the other, each through the whole listing: every pair of pattern and name
      that match gives one argument, and no other does. */
  lemma {:induction false} ExpansionsAreExact(entries: seq<Dirent>, patterns: seq<seq<byte>>, n: nat)
    returns (from: seq<(nat, nat)>)
    requires n <= |patterns|
    ensures Picked(entries, patterns, n, from)
  {
    hide Matched, Selects, HasDoubleStar, Expansion;
    from := [];
    if n > 0 {
      var front := ExpansionsAreExact(entries, patterns, n - 1);
      var more := ExpansionIsExact(entries, |entries|, patterns[n - 1]);
      var back: seq<(nat, nat)> := seq(|more|, k requires 0 <= k < |more| => (n - 1, more[k]));
      from := front + back;
      forall i: nat, j: nat | i < n && j < |entries|
        ensures (i, j) in from <==> Matched(entries[j].name, patterns[i])
      {
        PairIn(back, more, n - 1, i, j);
      }
    }
  }

  lemma PairIn(back: seq<(nat, nat)>, more: seq<nat>, n: nat, i: nat, j: nat)
    requires |back| == |more| && forall k :: 0 <= k < |more| ==> back[k] == (n, more[k])
    ensures (i, j) in back <==> i == n && j in more
  {
    if i == n && j in more {
      var k :| 0 <= k < |more| && more[k] == j;
      assert back[k] == (i, j);
    }
  }
}
