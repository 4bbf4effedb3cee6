/** The sector skew table `cpmReadSuper` builds: it terminates, is a permutation, and has a closed form. */
module Skew {
  import opened Arithmetic

  // ----- greatest common divisor -----------------------------------------------------------------

  function Gcd(a: nat, b: nat): (d: nat)
    requires 0 < a || 0 < b
    ensures 0 < d
    decreases b
  {
    if b == 0 then a else Gcd(b, a % b)
  }

  ghost predicate Divides(d: nat, a: nat) {
    exists k: nat :: a == k * d
  }

  lemma {:induction false} GcdDivides(a: nat, b: nat)
    requires 0 < a || 0 < b
    ensures Divides(Gcd(a, b), a) && Divides(Gcd(a, b), b)
    decreases b
  {
    hide Divides;
    if b == 0 {
      DividesSelf(a);
    } else {
      GcdDivides(b, a % b);
      DivModEquation(a, b);
      DividesCombination(Gcd(a, b), b, a % b, a / b, a);
    }
  }

  lemma DividesSelf(a: nat)
    ensures Divides(a, a) && Divides(a, 0)
  {
    assert a == 1 * a && 0 == 0 * a;
  }

  lemma DividesCombination(d: nat, b: nat, r: nat, q: nat, a: nat)
    requires Divides(d, b) && Divides(d, r) && a == q * b + r
    ensures Divides(d, a)
  {
    var k: nat, l: nat :| b == k * d && r == l * d;
    assert a == (q * k + l) * d;
  }

  /** Bezout: the divisor is an integer combination. */
  lemma {:induction false} Bezout(a: nat, b: nat) returns (x: int, y: int)
    requires 0 < a || 0 < b
    ensures Gcd(a, b) == x * a + y * b
    decreases b
  {
    if b == 0 {
      x, y := 1, 0;
    } else {
      var u, w := Bezout(b, a % b);
      DivModEquation(a, b);
      x, y := w, u - w * (a / b);
      assert u * b + w * (a % b) == w * a + (u - w * (a / b)) * b;
    }
  }

  // ----- the closed form ---------------------------------------------------------------------------

  /** Steps of `skew` sectors before the walk returns to a sector it has been to. */
  function Round(skew: nat, sectrk: nat): (m: nat)
    requires 0 < sectrk
  {
    sectrk / Gcd(skew, sectrk)
  }

  /** Entry `i`: walk by `skew`, and move on by one sector after every full round. */
  function SkewEntry(skew: nat, sectrk: nat, i: nat): (r: nat)
    requires 0 < sectrk && 0 < Round(skew, sectrk)
    ensures r < sectrk
  {
    (i * skew + i / Round(skew, sectrk)) % sectrk
  }

  lemma RoundFacts(skew: nat, sectrk: nat) returns (d: nat, m: nat, e: nat)
    requires 0 < sectrk
    ensures d == Gcd(skew, sectrk) && m == Round(skew, sectrk)
    ensures 0 < d && 0 < m && sectrk == d * m && skew == d * e && m * skew == e * sectrk
  {
    hide Gcd;
    d, m := Gcd(skew, sectrk), Round(skew, sectrk);
    GcdDivides(skew, sectrk);
    var l: nat :| sectrk == l * d;
    e :| skew == e * d;
    DivModUnique(sectrk, d, l, 0);
    MulSwap(m, e, d);
  }

  lemma MulSwap(m: nat, e: nat, d: nat)
    ensures m * (e * d) == e * (m * d) && m * d == d * m && e * d == d * e
  {}

  /** A walk of `t` steps that ends where it started is a whole number of rounds. */
  lemma ReturnsOnlyAfterRounds(skew: nat, sectrk: nat, t: int, k: int) returns (z: int)
    requires 0 < sectrk && t * skew == k * sectrk
    ensures t == z * Round(skew, sectrk)
  {
    hide Gcd, Round;
    var d, m, e := RoundFacts(skew, sectrk);
    var x, y := Bezout(skew, sectrk);
    z := x * k + y * t;
    Combination(x, y, t, k, skew, sectrk);
    assert z * (d * m) == (z * m) * d;
    CancelFactor(t, z * m, d);
  }

  lemma Combination(x: int, y: int, t: int, k: int, a: nat, b: nat)
    requires t * a == k * b
    ensures t * (x * a + y * b) == (x * k + y * t) * b
  {
    assert t * (x * a + y * b) == x * (t * a) + (y * t) * b;
  }

  lemma CancelFactor(a: int, b: int, d: nat)
    requires 0 < d && a * d == b * d
    ensures a == b
  {
    assert (a - b) * d == 0;
  }

  lemma SmallMultiple(z: int, m: nat, t: int)
    requires t == z * m && -(m as int) < t < m
    ensures t == 0
  {
    assert (-z) * m == -(z * m);
    if z >= 1 {
      MulMonotone(1, z, m);
    } else if z <= -1 {
      MulMonotone(1, -z, m);
    }
  }

  lemma ShortWalk(skew: nat, sectrk: nat, t: int, k: int)
    requires 0 < sectrk && t * skew == k * sectrk && -(Round(skew, sectrk) as int) < t < Round(skew, sectrk)
    ensures t == 0
  {
    hide Gcd, Round;
    var z := ReturnsOnlyAfterRounds(skew, sectrk, t, k);
    SmallMultiple(z, Round(skew, sectrk), t);
  }

  /** No sector is listed twice. */
  lemma SkewEntriesDistinct(skew: nat, sectrk: nat, i: nat, j: nat)
    requires 0 < sectrk && 0 < Round(skew, sectrk) && i < sectrk && j < sectrk
    requires SkewEntry(skew, sectrk, i) == SkewEntry(skew, sectrk, j)
    ensures i == j
  {
    hide Gcd, Round, SkewEntry;
    var k := EntryDifference(skew, sectrk, i, j);
    SameRound(skew, sectrk, i, j, k);
    CloseInRow(i, j, Round(skew, sectrk));
    ShortWalk(skew, sectrk, i - j, k);
  }

  lemma SameRound(skew: nat, sectrk: nat, i: nat, j: nat, k: int)
    requires 0 < sectrk && 0 < Round(skew, sectrk) && i < sectrk && j < sectrk
    requires (i * skew + i / Round(skew, sectrk)) - (j * skew + j / Round(skew, sectrk)) == k * sectrk
    ensures i / Round(skew, sectrk) == j / Round(skew, sectrk) && (i - j) * skew == k * sectrk
  {
    hide Gcd, Round;
    var d, m, e := RoundFacts(skew, sectrk);
    RowBelow(i, d, m);
    RowBelow(j, d, m);
    SameRow(skew, sectrk, i, j, i / m, j / m, d, m, e, k);
  }

  lemma EntryDifference(skew: nat, sectrk: nat, i: nat, j: nat) returns (k: int)
    requires 0 < sectrk && 0 < Round(skew, sectrk)
    requires SkewEntry(skew, sectrk, i) == SkewEntry(skew, sectrk, j)
    ensures (i * skew + i / Round(skew, sectrk)) - (j * skew + j / Round(skew, sectrk)) == k * sectrk
  {
    hide Gcd, Round;
    k := EqualRemainders(i * skew + i / Round(skew, sectrk), j * skew + j / Round(skew, sectrk), sectrk);
  }

  lemma EqualRemainders(a: nat, b: nat, s: nat) returns (k: int)
    requires 0 < s && a % s == b % s
    ensures a - b == k * s
  {
    DivModEquation(a, s);
    DivModEquation(b, s);
    k := a / s - b / s;
  }

  lemma CloseInRow(i: nat, j: nat, m: nat)
    requires 0 < m && i / m == j / m
    ensures -(m as int) < i - j < m
  {
    DivModEquation(i, m);
    DivModEquation(j, m);
  }

  /** Different rounds start in different residues of the common divisor. */
  lemma SameRow(skew: nat, sectrk: nat, i: nat, j: nat, p: nat, q: nat, d: nat, m: nat, e: nat, k: int)
    requires 0 < d && p < d && q < d && skew == d * e && sectrk == d * m
    requires (i * skew + p) - (j * skew + q) == k * sectrk
    ensures p == q && (i - j) * skew == k * sectrk
  {
    assert (i - j) * skew == i * skew - j * skew;
    assert (k * m - (i - j) * e) * d == k * (d * m) - (i - j) * (d * e);
    SmallMultiple(k * m - (i - j) * e, d, p - q);
  }

  lemma RowBelow(i: nat, d: nat, m: nat)
    requires 0 < m && 0 < d && i < d * m
    ensures i / m < d
  {
    assert (d - 1) * m + m == d * m;
    QuotientBound(i, m, d - 1);
  }

  // ----- the construction ---------------------------------------------------------------------------

  lemma AddToRemainder(a: nat, b: nat, s: nat)
    requires 0 < s
    ensures (a % s + b) % s == (a + b) % s
  {
    DivModEquation(a, s);
    DivModEquation(a % s + b, s);
    assert a + b == (a / s + (a % s + b) / s) * s + (a % s + b) % s by {
      assert (a / s + (a % s + b) / s) * s == a / s * s + (a % s + b) / s * s;
    }
    DivModUnique(a + b, s, a / s + (a % s + b) / s, (a % s + b) % s);
  }

  lemma DropMultiple(a: nat, k: nat, s: nat)
    requires 0 < s
    ensures (a + k * s) % s == a % s
  {
    DivModEquation(a, s);
    assert a + k * s == (a / s + k) * s + a % s;
    DivModUnique(a + k * s, s, a / s + k, a % s);
  }

  lemma NextQuotient(i: nat, m: nat)
    requires 0 < m
    ensures (i + 1) % m != 0 ==> (i + 1) / m == i / m
    ensures (i + 1) % m == 0 ==> m <= i + 1 && (i + 1) / m == i / m + 1 && (i + 1 - m) / m == i / m
  {
    DivModEquation(i, m);
    var q, r := i / m, i % m;
    if r + 1 < m {
      DivModUnique(i + 1, m, q, r + 1);
    } else {
      assert (q + 1) * m == q * m + m;
      DivModUnique(i + 1, m, q + 1, 0);
      DivModUnique(i + 1 - m, m, q, 0);
      MulMonotone(0, q, m);
    }
  }

  /** The walk from entry `i` lands on entry `i + 1`, or on a sector of the round just finished
      whose successor is entry `i + 1`. */
  lemma NextCandidate(skew: nat, sectrk: nat, i: nat)
    requires 0 < sectrk && 0 < Round(skew, sectrk)
    ensures var c, m := (SkewEntry(skew, sectrk, i) + skew) % sectrk, Round(skew, sectrk);
      if (i + 1) % m != 0 then c == SkewEntry(skew, sectrk, i + 1)
      else m <= i + 1 && c == SkewEntry(skew, sectrk, i + 1 - m) && (c + 1) % sectrk == SkewEntry(skew, sectrk, i + 1)
  {
    hide Gcd, Round, SkewEntry;
    var m := Round(skew, sectrk);
    NextQuotient(i, m);
    WalkValue(skew, sectrk, i);
    EntryValue(skew, sectrk, i + 1);
    if (i + 1) % m == 0 {
      EntryValue(skew, sectrk, i + 1 - m);
      RoundReturns(skew, sectrk, i + 1, i / m);
      AddToRemainder((i + 1) * skew + i / m, 1, sectrk);
    }
  }

  lemma EntryValue(skew: nat, sectrk: nat, i: nat)
    requires 0 < sectrk && 0 < Round(skew, sectrk)
    ensures SkewEntry(skew, sectrk, i) == (i * skew + i / Round(skew, sectrk)) % sectrk
  {}

  lemma WalkValue(skew: nat, sectrk: nat, i: nat)
    requires 0 < sectrk && 0 < Round(skew, sectrk)
    ensures (SkewEntry(skew, sectrk, i) + skew) % sectrk == ((i + 1) * skew + i / Round(skew, sectrk)) % sectrk
  {
    hide Gcd, Round;
    var q := i / Round(skew, sectrk);
    AddToRemainder(i * skew + q, skew, sectrk);
    assert i * skew + q + skew == (i + 1) * skew + q;
  }

  lemma RoundReturns(skew: nat, sectrk: nat, i: nat, q: nat)
    requires 0 < sectrk && Round(skew, sectrk) <= i
    ensures (i * skew + q) % sectrk == ((i - Round(skew, sectrk)) * skew + q) % sectrk
  {
    hide Gcd, Round;
    var d, m, e := RoundFacts(skew, sectrk);
    assert i * skew == (i - m) * skew + m * skew;
    DropMultiple((i - m) * skew + q, e, sectrk);
  }

  /** The sector the walk proposes for entry `i`. */
  ghost predicate Proposes(skew: nat, sectrk: nat, i: nat, j: nat)
    requires 0 < sectrk && 0 < Round(skew, sectrk)
  {
    j == SkewEntry(skew, sectrk, i) ||
    (Round(skew, sectrk) <= i && j == SkewEntry(skew, sectrk, i - Round(skew, sectrk)) &&
     (j + 1) % sectrk == SkewEntry(skew, sectrk, i))
  }

  /** First index below `i` that holds `j`, or `i`. */
  method FindSector(tab: array<nat>, i: nat, j: nat) returns (k: nat)
    requires i <= tab.Length
    ensures k <= i && (k < i ==> tab[k] == j) && forall l :: 0 <= l < k ==> tab[l] != j
  {
    k := 0;
    while k < i && tab[k] != j
      invariant k <= i && forall l :: 0 <= l < k ==> tab[l] != j
    {
      k := k + 1;
    }
  }

  /** Move on from the proposed sector until one is found that is not in the table yet. */
  method NextFreeSector(tab: array<nat>, i: nat, first: nat, sectrk: nat, ghost skew: nat) returns (j: nat)
    requires 0 < sectrk && 0 < Round(skew, sectrk) && i < sectrk && i <= tab.Length
    requires Proposes(skew, sectrk, i, first)
    requires forall k :: 0 <= k < i ==> tab[k] == SkewEntry(skew, sectrk, k)
    ensures j == SkewEntry(skew, sectrk, i)
  {
    hide Gcd, Round, SkewEntry;
    j := first;
    while true
      invariant Proposes(skew, sectrk, i, j)
      decreases j != SkewEntry(skew, sectrk, i)
    {
      var k := FindSector(tab, i, j);
      if k == i {
        break;
      }
      if j == SkewEntry(skew, sectrk, i) {
        SkewEntriesDistinct(skew, sectrk, k, i);
      }
      j := (j + 1) % sectrk;
    }
    assert Round(skew, sectrk) <= i ==>
      tab[i - Round(skew, sectrk)] == SkewEntry(skew, sectrk, i - Round(skew, sectrk));
  }

  /** The table as `cpmReadSuper` fills it, for every sector count and every skew. */
  method BuildSkewTable(sectrk: nat, skew: nat) returns (tab: array<nat>)
    requires 0 < sectrk
    ensures fresh(tab) && tab.Length == sectrk && 0 < Round(skew, sectrk)
    ensures forall i :: 0 <= i < sectrk ==> tab[i] == SkewEntry(skew, sectrk, i)
    ensures IsPermutation(tab[..])
  {
    hide Gcd, Round, SkewEntry, IsPermutation;
    ghost var d, m, e := RoundFacts(skew, sectrk);
    tab := new nat[sectrk];
    var i: nat, j: nat := 0, 0;
    FirstEntry(skew, sectrk);
    while i < sectrk
      invariant i <= sectrk && (i < sectrk ==> Proposes(skew, sectrk, i, j))
      invariant forall k :: 0 <= k < i ==> tab[k] == SkewEntry(skew, sectrk, k)
    {
      j := NextFreeSector(tab, i, j, sectrk, skew);
      tab[i] := j;
      NextCandidate(skew, sectrk, i);
      i, j := i + 1, (j + skew) % sectrk;
    }
    SkewIsPermutation(skew, sectrk, tab[..]);
  }

  lemma FirstEntry(skew: nat, sectrk: nat)
    requires 0 < sectrk && 0 < Round(skew, sectrk)
    ensures SkewEntry(skew, sectrk, 0) == 0
  {
    hide Gcd, Round;
    DivModUnique(0, Round(skew, sectrk), 0, 0);
    DivModUnique(0, sectrk, 0, 0);
  }

  ghost predicate IsPermutation(tab: seq<nat>) {
    && (forall i :: 0 <= i < |tab| ==> tab[i] < |tab|)
    && (forall i, j :: 0 <= i < j < |tab| ==> tab[i] != tab[j])
  }

  lemma SkewIsPermutation(skew: nat, sectrk: nat, tab: seq<nat>)
    requires 0 < sectrk && 0 < Round(skew, sectrk) && |tab| == sectrk
    requires forall i :: 0 <= i < sectrk ==> tab[i] == SkewEntry(skew, sectrk, i)
    ensures IsPermutation(tab)
  {
    hide Gcd, Round, SkewEntry;
    forall i, j | 0 <= i < j < sectrk ensures tab[i] != tab[j] {
      if tab[i] == tab[j] {
        SkewEntriesDistinct(skew, sectrk, i, j);
      }
    }
  }

  const XEROX820: seq<nat> := [0, 6, 12, 18, 24, 4, 10, 16, 22, 2, 8, 14, 20, 1, 7, 13, 19, 25, 5, 11, 17, 23, 3, 9,
    15, 21]

  lemma RoundOf6And26()
    ensures Round(6, 26) == 13
  {
    assert Gcd(6, 2) == 2;
    assert Gcd(6, 26) == Gcd(26, 6) == Gcd(6, 2);
  }

  lemma ListedFirstHalf(i: nat)
    requires i < 13
    ensures (i * 6 + i / 13) % 26 == XEROX820[i]
  {}

  lemma ListedSecondHalf(i: nat)
    requires 13 <= i < 26
    ensures (i * 6 + i / 13) % 26 == XEROX820[i]
  {}

  /** The closed form gives the table `diskdefs` lists beside a skew of 6 for 26 sectors. */
  lemma ListedTable(i: nat)
    requires i < 26
    ensures Round(6, 26) == 13 && SkewEntry(6, 26, i) == XEROX820[i]
  {
    hide Gcd, Round, SkewEntry;
    RoundOf6And26();
    EntryValue(6, 26, i);
    if i < 13 {
      ListedFirstHalf(i);
    } else {
      ListedSecondHalf(i);
    }
  }
}
