/** `getopt` for short options: the in-place exchange of argument segments, and the scan that leaves the
    options in front of the other arguments. */
module Getopt {
  import opened Wrappers

  // ----- exchange ----------------------------------------------------------------------------------------

  /** Two adjacent segments traded, each in its own order. */
  function Rotated<T>(s: seq<T>, bottom: nat, middle: nat, top: nat): (r: seq<T>)
    requires bottom <= middle <= top <= |s|
    ensures |r| == |s|
  {
    s[..bottom] + s[middle..top] + s[bottom..middle] + s[top..]
  }

  lemma RotatedKeepsElements<T>(s: seq<T>, bottom: nat, middle: nat, top: nat)
    requires bottom <= middle <= top <= |s|
    ensures multiset(Rotated(s, bottom, middle, top)) == multiset(s)
  {
    assert s == s[..bottom] + s[bottom..middle] + s[middle..top] + s[top..];
  }

  /** The inner loops of `exchange`: two ranges of one length trade places. */
  method SwapRanges<T>(argv: array<T>, p: nat, q: nat, len: nat)
    requires p + len <= q && q + len <= argv.Length
    modifies argv
    ensures argv[..] == Swapped(old(argv[..]), p, q, len)
  {
    hide Swapped;
    for i := 0 to len
      invariant forall k :: 0 <= k < argv.Length ==> argv[k] == SwappedAt(old(argv[..]), p, q, i, k)
    {
      var tem := argv[p + i];
      argv[p + i] := argv[q + i];
      argv[q + i] := tem;
    }
    SwappedIs(old(argv[..]), argv[..], p, q, len);
  }

  /** Element `k` with the first `i` places of the two ranges traded. */
  function SwappedAt<T>(s: seq<T>, p: nat, q: nat, i: nat, k: nat): T
    requires p + i <= q && q + i <= |s| && k < |s|
  {
    if p <= k < p + i then s[k - p + q] else if q <= k < q + i then s[k - q + p] else s[k]
  }

  lemma SwappedIs<T>(s: seq<T>, t: seq<T>, p: nat, q: nat, len: nat)
    requires p + len <= q && q + len <= |s| == |t|
    requires forall k :: 0 <= k < |s| ==> t[k] == SwappedAt(s, p, q, len, k)
    ensures t == Swapped(s, p, q, len)
  {
    forall k | 0 <= k < |s| ensures t[k] == Swapped(s, p, q, len)[k] {
      ElementSwapped(s, p, q, len, k);
    }
  }

  lemma ElementSwapped<T>(s: seq<T>, p: nat, q: nat, len: nat, k: nat)
    requires p + len <= q && q + len <= |s| && k < |s|
    ensures Swapped(s, p, q, len)[k] == SwappedAt(s, p, q, len, k)
  {}

  function Swapped<T>(s: seq<T>, p: nat, q: nat, len: nat): (r: seq<T>)
    requires p + len <= q && q + len <= |s|
    ensures |r| == |s|
  {
    s[..p] + s[q..q + len] + s[p + len..q] + s[p..p + len] + s[q + len..]
  }

  /** The shorter bottom segment goes to the end of the top segment; what is left is a smaller exchange. */
  lemma SwapBottom<T>(s: seq<T>, bottom: nat, middle: nat, top: nat)
    requires bottom <= middle <= top <= |s| && middle - bottom < top - middle
    ensures var len := middle - bottom;
      Rotated(Swapped(s, bottom, top - len, len), bottom, middle, top - len) == Rotated(s, bottom, middle, top)
  {
    hide Rotated, Swapped;
    var len := middle - bottom;
    var a, p, q, r, d := s[..bottom], s[bottom..middle], s[middle..top - len], s[top - len..top], s[top..];
    assert s == a + p + q + r + d;
    assert a + r + q + p + d == a + r + q + (p + d);
    assert a + p + (q + r) + d == a + p + q + r + d;
    assert a + q + r + (p + d) == a + (q + r) + p + d;
    SwappedParts(a, p, q, r, d);
    RotatedParts(a, r, q, p + d);
    RotatedParts(a, p, q + r, d);
  }

  lemma RotatedParts<T>(a: seq<T>, x: seq<T>, y: seq<T>, d: seq<T>)
    ensures Rotated(a + x + y + d, |a|, |a| + |x|, |a| + |x| + |y|) == a + y + x + d
  {}

  lemma SwappedParts<T>(a: seq<T>, p: seq<T>, q: seq<T>, r: seq<T>, d: seq<T>)
    requires |p| == |r|
    ensures Swapped(a + p + q + r + d, |a|, |a| + |p| + |q|, |p|) == a + r + q + p + d
  {}

  lemma SwapTop<T>(s: seq<T>, bottom: nat, middle: nat, top: nat)
    requires bottom <= middle <= top <= |s| && top - middle <= middle - bottom
    ensures var len := top - middle;
      Rotated(Swapped(s, bottom, middle, len), bottom + len, middle, top) == Rotated(s, bottom, middle, top)
  {
    hide Rotated, Swapped;
    var len := top - middle;
    var a, p, q, r, d := s[..bottom], s[bottom..bottom + len], s[bottom + len..middle], s[middle..top], s[top..];
    assert s == a + p + q + r + d;
    assert a + (p + q) + r + d == a + p + q + r + d;
    assert a + r + (p + q) + d == a + r + p + q + d;
    SwappedParts(a, p, q, r, d);
    RotatedParts(a + r, q, p, d);
    RotatedParts(a, p + q, r, d);
  }

  lemma EmptySegment<T>(s: seq<T>, bottom: nat, middle: nat, top: nat)
    requires bottom <= middle <= top <= |s| && (bottom == middle || middle == top)
    ensures Rotated(s, bottom, middle, top) == s
  {}

  /** The loop of `exchange`. */
  method Exchange<T>(argv: array<T>, firstNonopt: nat, lastNonopt: nat, optind: nat)
    requires firstNonopt <= lastNonopt <= optind <= argv.Length
    modifies argv
    ensures argv[..] == Rotated(old(argv[..]), firstNonopt, lastNonopt, optind)
  {
    hide Rotated, Swapped;
    var bottom: nat, middle: nat, top: nat := firstNonopt, lastNonopt, optind;
    while top > middle && middle > bottom
      invariant bottom <= middle <= top <= argv.Length
      invariant Rotated(argv[..], bottom, middle, top) == Rotated(old(argv[..]), firstNonopt, lastNonopt, optind)
      decreases top - bottom
    {
      if top - middle > middle - bottom {
        var len := middle - bottom;
        SwapBottom(argv[..], bottom, middle, top);
        SwapRanges(argv, bottom, top - len, len);
        top := top - len;
      } else {
        var len := top - middle;
        SwapTop(argv[..], bottom, middle, top);
        SwapRanges(argv, bottom, middle, len);
        bottom := bottom + len;
      }
    }
    EmptySegment(argv[..], bottom, middle, top);
  }

  // ----- what a scan means -------------------------------------------------------------------------------

  /** What one call reports: an option character and its argument. */
  datatype Result = Result(c: char, optarg: Option<string>)

  datatype Kind = Unknown | Plain | Required | Optional

  /** `NONOPTION_P`. */
  predicate NonOption(s: string) {
    |s| < 2 || s[0] != '-'
  }

  /** `strchr`: the part of `s` from its first `c` on, empty if there is none. */
  function From(s: string, c: char): (r: string)
    ensures |r| <= |s| && (r != [] ==> r[0] == c)
    ensures r == [] <==> c !in s
  {
    if s == [] then [] else if s[0] == c then s else From(s[1..], c)
  }

  function KindOf(optstring: string, c: char): Kind {
    var temp := From(optstring, c);
    if temp == [] || c == ':' then Unknown
    else if |temp| < 2 || temp[1] != ':' then Plain
    else if |temp| >= 3 && temp[2] == ':' then Optional
    else Required
  }

  function Missing(optstring: string): char {
    if optstring != [] && optstring[0] == ':' then ':' else '?'
  }

  /** The options in the rest `text` of an element: what is reported for them, and whether the next
      element `next` is used up as an argument. */
  function ElementResults(optstring: string, text: string, next: Option<string>): (r: (seq<Result>, bool))
    ensures text != [] ==> r.0 != []
    ensures r.1 ==> next.Some?
  {
    if text == [] then ([], false)
    else
      var c, rest := text[0], text[1..];
      match KindOf(optstring, c)
      case Unknown => var more := ElementResults(optstring, rest, next); ([Result('?', None)] + more.0, more.1)
      case Plain => var more := ElementResults(optstring, rest, next); ([Result(c, None)] + more.0, more.1)
      case Optional => ([Result(c, if rest != [] then Some(rest) else None)], false)
      case Required =>
        if rest != [] then ([Result(c, Some(rest))], false)
        else if next.None? then ([Result(Missing(optstring), None)], false)
        else ([Result(c, next)], true)
  }

  /** Options with their arguments, other arguments, and reports, each in the order of the command line. */
  datatype Parts = Parts(options: seq<string>, others: seq<string>, results: seq<Result>)

  function NextOf(args: seq<string>, i: nat): Option<string> {
    if i + 1 < |args| then Some(args[i + 1]) else None
  }

  /** The parts of the command line from element `i` on. `permute` tells whether options may follow other
      arguments. */
  function Walk(optstring: string, permute: bool, args: seq<string>, i: nat): (r: Parts)
    decreases |args| - i
  {
    if i >= |args| then Parts([], [], [])
    else if args[i] == "--" then Parts([args[i]], args[i + 1..], [])
    else if NonOption(args[i]) then
      if !permute then Parts([], args[i..], [])
      else var w := Walk(optstring, permute, args, i + 1); w.(others := [args[i]] + w.others)
    else InElement(optstring, permute, args, i, args[i][1..])
  }

  /** The parts from the middle of element `i` on, where `text` is left of it. */
  function InElement(optstring: string, permute: bool, args: seq<string>, i: nat, text: string): (r: Parts)
    requires i < |args|
    decreases |args| - i, 0
  {
    var (results, usesNext) := ElementResults(optstring, text, NextOf(args, i));
    var width: nat := if usesNext then 2 else 1;
    var w := Walk(optstring, permute, args, i + width);
    Parts(args[i..i + width] + w.options, w.others, results + w.results)
  }

  /** Nothing is lost and nothing is added. */
  lemma {:induction false} WalkKeepsArguments(optstring: string, permute: bool, args: seq<string>, i: nat)
    requires i <= |args|
    ensures var w := Walk(optstring, permute, args, i);
      multiset(w.options + w.others) == multiset(args[i..])
    decreases |args| - i
  {
    hide Walk, InElement, ElementResults;
    if i == |args| {
      WalkAtEnd(optstring, permute, args);
    } else if args[i] == "--" {
      WalkAtDashes(optstring, permute, args, i);
      assert args[i..] == [args[i]] + args[i + 1..];
    } else if NonOption(args[i]) {
      if permute {
        WalkKeepsArguments(optstring, permute, args, i + 1);
        var w := Walk(optstring, permute, args, i + 1);
        WalkSkips(optstring, args, i);
        OneMoreOther(w.options, args[i], w.others, args[i + 1..]);
        assert args[i..] == [args[i]] + args[i + 1..];
      } else {
        WalkStops(optstring, args, i);
        assert [] + args[i..] == args[i..];
      }
    } else {
      WalkInElement(optstring, permute, args, i);
      var width := ElementParts(optstring, permute, args, i, args[i][1..]);
      WalkKeepsArguments(optstring, permute, args, i + width);
      var w := Walk(optstring, permute, args, i + width);
      MoreOptions(args[i..i + width], w.options, w.others, args[i + width..]);
      assert args[i..] == args[i..i + width] + args[i + width..];
    }
  }

  lemma ElementParts(optstring: string, permute: bool, args: seq<string>, i: nat, text: string) returns (width: nat)
    requires i < |args|
    ensures 1 <= width <= 2 && i + width <= |args|
    ensures var e, w := InElement(optstring, permute, args, i, text), Walk(optstring, permute, args, i + width);
      e.options == args[i..i + width] + w.options && e.others == w.others
  {
    hide Walk, ElementResults;
    width := if ElementResults(optstring, text, NextOf(args, i)).1 then 2 else 1;
  }

  lemma OneMoreOther(options: seq<string>, other: string, others: seq<string>, rest: seq<string>)
    requires multiset(options + others) == multiset(rest)
    ensures multiset(options + ([other] + others)) == multiset([other] + rest)
  {
    assert multiset(options + ([other] + others)) == multiset(options) + multiset([other]) + multiset(others);
  }

  lemma MoreOptions(more: seq<string>, options: seq<string>, others: seq<string>, rest: seq<string>)
    requires multiset(options + others) == multiset(rest)
    ensures multiset(more + options + others) == multiset(more + rest)
  {
    assert more + options + others == more + (options + others);
  }

  // ----- the scanner ----------------------------------------------------------------------------------------

  /** Option strings with no mode character in front and no `W;`. */
  predicate Simple(optstring: string) {
    && (optstring != [] ==> optstring[0] != '-' && optstring[0] != '+')
    && (var w := From(optstring, 'W'); |w| < 2 || w[1] != ';')
  }

  /** What is left to do from element `optind` on, possibly in the middle of it. */
  function Rest(optstring: string, permute: bool, args: seq<string>, optind: nat, nextchar: string): Parts
    requires nextchar != [] ==> optind < |args|
  {
    if nextchar == [] then Walk(optstring, permute, args, optind)
      else InElement(optstring, permute, args, optind, nextchar)
  }

  /** Options done stand around the other arguments done: with `r` still to do they make up the whole `w`. */
  predicate Balanced(w: Parts, r: Parts, now: seq<string>, first: nat, last: nat, i: nat)
    requires 1 <= first <= last <= i <= |now|
  {
    && w.options == now[1..first] + now[last..i] + r.options
    && w.others == now[first..last] + r.others
  }

  /** `struct _getopt_data`, and the arguments it is about. */
  class Getopt {
    const argv: array<string>
    const optstring: string
    const permute: bool  // PERMUTE, or else REQUIRE_ORDER
    ghost const args: seq<string>  // the command line as it was given
    var optind: nat
    var firstNonopt: nat
    var lastNonopt: nat
    var nextchar: string  // what is left of the current element, empty in front of the next one

    ghost predicate Valid()
      reads this, argv
    {
      && argv.Length == |args| >= 1 && argv[0] == args[0] && Simple(optstring)
      && 1 <= firstNonopt <= lastNonopt <= optind <= argv.Length
      && argv[optind..] == args[optind..]
      && (nextchar != [] ==> optind < argv.Length)
      && (!permute ==> firstNonopt == lastNonopt)
      && Balanced(Whole(), ToDo(), argv[..], firstNonopt, lastNonopt, optind)
    }

    ghost function Whole(): Parts {
      Walk(optstring, permute, args, 1)
    }

    ghost function ToDo(): Parts
      requires nextchar != [] ==> optind < |args|
      reads this`optind, this`nextchar
    {
      Rest(optstring, permute, args, optind, nextchar)
    }

    /** The scan is over: options in front, everything else behind them, `optind` between the two. */
    ghost predicate Finished()
      reads this, argv
    {
      && argv.Length == |args| >= 1 && argv[..] == [args[0]] + Whole().options + Whole().others
      && optind == 1 + |Whole().options|
    }

    /** The state before the first call. */
    constructor (argv: array<string>, optstring: string, permute: bool)
      requires 1 <= argv.Length && Simple(optstring)
      ensures Valid() && this.argv == argv && this.optstring == optstring && this.permute == permute
      ensures args == argv[..] && optind == 1 && nextchar == []
    {
      this.argv, this.optstring, this.permute, this.args := argv, optstring, permute, argv[..];
      optind, firstNonopt, lastNonopt, nextchar := 1, 1, 1, [];
    }

    /** Options that followed other arguments move in front of them, and further other arguments are
        skipped. */
    method Permute()
      requires Valid() && nextchar == [] && permute
      modifies argv, this`optind, this`firstNonopt, this`lastNonopt
      ensures Valid() && lastNonopt == optind && (optind < argv.Length ==> !NonOption(argv[optind]))
      ensures ToDo().results == old(ToDo().results)
    {
      hide Walk, NonOption, Simple, Balanced, Rotated;
      if firstNonopt != lastNonopt && lastNonopt != optind {
        RotatedBalance(Whole(), ToDo(), argv[..], firstNonopt, lastNonopt, optind);
        Exchange(argv, firstNonopt, lastNonopt, optind);
        firstNonopt := firstNonopt + (optind - lastNonopt);
        lastNonopt := optind;
      } else if lastNonopt != optind {
        NoOthersBalance(Whole(), ToDo(), argv[..], firstNonopt, optind);
        firstNonopt := optind;
      }
      while optind < argv.Length && NonOption(argv[optind])
        invariant 1 <= firstNonopt <= optind <= argv.Length && argv.Length == |args| && argv[0] == args[0] &&
          nextchar == []
        invariant argv[optind..] == args[optind..] && ToDo().results == old(ToDo().results)
        invariant Balanced(Whole(), ToDo(), argv[..], firstNonopt, optind, optind)
        decreases argv.Length - optind
      {
        assert argv[optind] == argv[optind..][0];
        OtherBalance(optstring, args, Whole(), argv[..], firstNonopt, optind);
        assert argv[optind + 1..] == argv[optind..][1..];
        optind := optind + 1;
      }
      lastNonopt := optind;
    }

    /** `--`: skipped like an option, and everything behind it is left alone. */
    method EndOfOptions()
      requires Valid() && nextchar == [] && optind < argv.Length && argv[optind] == "--"
      requires permute ==> lastNonopt == optind
      modifies argv, this`optind, this`firstNonopt, this`lastNonopt
      ensures Finished()
    {
      hide Simple, Balanced, Rotated, Walk, InElement, ElementResults;
      assert argv[optind] == argv[optind..][0];
      DashesBalance(optstring, permute, args, Whole(), argv[..], firstNonopt, lastNonopt, optind);
      optind := optind + 1;
      if firstNonopt != lastNonopt && lastNonopt != optind {
        RotatedBalance(Whole(), Parts([], args[optind..], []), argv[..], firstNonopt, lastNonopt, optind);
        Exchange(argv, firstNonopt, lastNonopt, optind);
        firstNonopt := firstNonopt + (optind - lastNonopt);
        lastNonopt := optind;
        DoneBalance(Whole(), args, argv[..], firstNonopt, optind);
      } else if firstNonopt == lastNonopt {
        NoOthersBalance(Whole(), Parts([], args[optind..], []), argv[..], firstNonopt, optind);
        firstNonopt := optind;
        DoneBalance(Whole(), args, argv[..], firstNonopt, optind);
      }
      lastNonopt := argv.Length;
      optind := argv.Length;
      if firstNonopt != lastNonopt {
        optind := firstNonopt;
      }
    }

    /** One call. -1 is `None`. */
    method Next() returns (r: Option<Result>)
      requires Valid()
      modifies argv, this
      ensures old(ToDo().results) == [] ==> r == None && Finished()
      ensures old(ToDo().results) != [] ==>
        r == Some(old(ToDo().results)[0]) && Valid() && ToDo().results == old(ToDo().results)[1..]
    {
      hide Simple, Balanced, Rotated, Walk, ElementResults;
      if nextchar == [] {
        if permute {
          Permute();
        }
        if optind != argv.Length && argv[optind] == "--" {
          assert argv[optind] == argv[optind..][0];
          WalkAtDashes(optstring, permute, args, optind);
          EndOfOptions();
          return None;
        }
        if optind == argv.Length {
          WalkAtEnd(optstring, permute, args);
          EndBalance(Whole(), args, argv[..], firstNonopt, lastNonopt);
          if firstNonopt != lastNonopt {
            optind := firstNonopt;
          }
          return None;
        }
        assert argv[optind] == argv[optind..][0];
        if NonOption(argv[optind]) {
          WalkStops(optstring, args, optind);
          StopBalance(Whole(), args, argv[..], firstNonopt, optind);
          return None;
        }
        WalkInElement(optstring, permute, args, optind);
        nextchar := argv[optind][1..];
      }
      r := ShortOption();
    }

    /** The next character of the current element. */
    method ShortOption() returns (r: Option<Result>)
      requires Valid() && nextchar != []
      modifies this`optind, this`nextchar
      ensures Valid() && old(ToDo().results) != []
      ensures r == Some(old(ToDo().results)[0]) && ToDo().results == old(ToDo().results)[1..]
    {
      hide Balanced, Walk, ElementResults, InElement, Simple, Rest, Missing, CharStep, From;
      ghost var i, text := optind, nextchar;
      ghost var step := CharStep(optstring, args, i, text);
      CharStepIsFirst(optstring, permute, args, i, text);
      CharStepCases(optstring, args, i, text);
      AdvanceBalance(Whole(), ToDo(), Rest(optstring, permute, args, step.optind, step.nextchar), args, argv[..],
                     firstNonopt, lastNonopt, i, step.optind);
      var c := nextchar[0];
      var temp := From(optstring, c);
      nextchar := nextchar[1..];
      if nextchar == [] {
        optind := optind + 1;
      }
      var optarg := None;
      if temp == [] || c == ':' {
        return Some(Result('?', None));
      }
      if |temp| > 1 && temp[1] == ':' {
        if |temp| > 2 && temp[2] == ':' {
          if nextchar != [] {
            optarg := Some(nextchar);
            optind := optind + 1;
          }
        } else {
          if nextchar != [] {
            optarg := Some(nextchar);
            optind := optind + 1;
          } else if optind == argv.Length {
            c := Missing(optstring);
          } else {
            assert argv[optind] == argv[i..][1] == args[i..][1];
            optarg := Some(argv[optind]);
            optind := optind + 1;
          }
        }
        nextchar := [];
      }
      r := Some(Result(c, optarg));
    }
  }

  datatype Step = Step(result: Result, optind: nat, nextchar: string)

  /** One option character of element `i`: what is reported, and where the scan goes on. */
  function CharStep(optstring: string, args: seq<string>, i: nat, text: string): Step
    requires text != [] && i < |args|
  {
    var c, rest := text[0], text[1..];
    match KindOf(optstring, c)
    case Unknown => Step(Result('?', None), if rest == [] then i + 1 else i, rest)
    case Plain => Step(Result(c, None), if rest == [] then i + 1 else i, rest)
    case Optional => Step(Result(c, if rest != [] then Some(rest) else None), i + 1, [])
    case Required =>
      if rest != [] then Step(Result(c, Some(rest)), i + 1, [])
      else if i + 1 == |args| then Step(Result(Missing(optstring), None), i + 1, [])
      else Step(Result(c, Some(args[i + 1])), i + 2, [])
  }

  /** The same, by what stands in the option string. */
  lemma CharStepCases(optstring: string, args: seq<string>, i: nat, text: string)
    requires text != [] && i < |args|
    ensures var c, rest, temp := text[0], text[1..], From(optstring, text[0]);
      CharStep(optstring, args, i, text) ==
        if temp == [] || c == ':' then Step(Result('?', None), if rest == [] then i + 1 else i, rest)
        else if |temp| < 2 || temp[1] != ':' then Step(Result(c, None), if rest == [] then i + 1 else i, rest)
        else if |temp| >= 3 && temp[2] == ':' then Step(Result(c, if rest != [] then Some(rest) else None), i + 1, [])
        else if rest != [] then Step(Result(c, Some(rest)), i + 1, [])
        else if i + 1 == |args| then Step(Result(Missing(optstring), None), i + 1, [])
        else Step(Result(c, Some(args[i + 1])), i + 2, [])
  {
    hide From, Missing;
  }

  /** The step yields the first report, and leaves the rest to do. */
  lemma CharStepIsFirst(optstring: string, permute: bool, args: seq<string>, i: nat, text: string)
    requires text != [] && i < |args|
    ensures var step := CharStep(optstring, args, i, text);
      && i <= step.optind <= |args| && (step.nextchar != [] ==> step.optind < |args|)
      && var r, r' := Rest(optstring, permute, args, i, text),
        Rest(optstring, permute, args, step.optind, step.nextchar);
         r.results == [step.result] + r'.results && r.others == r'.others &&
           r.options == args[i..step.optind] + r'.options
  {
    hide Walk, KindOf, Missing;
    var c, rest := text[0], text[1..];
    var more := ElementResults(optstring, rest, NextOf(args, i));
    assert rest == [] ==> more == ([], false);
    assert args[i..i] == [];
    var w := Walk(optstring, permute, args, i + if more.1 then 2 else 1);
    assert forall x: Result :: [x] + more.0 + w.results == [x] + (more.0 + w.results);
    assert rest == [] ==> more.0 + w.results == w.results;
  }

  /** Elements that were used up join the options. */
  lemma AdvanceBalance(w: Parts, r: Parts, r': Parts, args: seq<string>, now: seq<string>, first: nat, last: nat,
                       i: nat, i': nat)
    requires 1 <= first <= last <= i <= i' <= |now| == |args| && now[i..] == args[i..]
    requires Balanced(w, r, now, first, last, i) && r.options == args[i..i'] + r'.options && r.others == r'.others
    ensures Balanced(w, r', now, first, last, i') && now[i'..] == args[i'..]
  {
    assert args[i..i'] == args[i..][..i' - i] == now[i..][..i' - i] == now[i..i'];
    assert now[last..i'] == now[last..i] + now[i..i'];
    assert args[i'..] == args[i..][i' - i..] == now[i..][i' - i..] == now[i'..];
  }

  // ----- what each step does to the balance -------------------------------------------------------------------

  lemma RotatedBalance(w: Parts, r: Parts, now: seq<string>, first: nat, last: nat, i: nat)
    requires 1 <= first <= last <= i <= |now| && Balanced(w, r, now, first, last, i)
    ensures var now' := Rotated(now, first, last, i);
      && Balanced(w, r, now', first + (i - last), i, i) && now'[0] == now[0] && now'[i..] == now[i..]
  {
    var now' := Rotated(now, first, last, i);
    assert now'[1..first + (i - last)] == now[1..first] + now[last..i];
    assert now'[first + (i - last)..i] == now[first..last];
    assert now'[i..i] == [];
    assert now'[1..first + (i - last)] + [] == now'[1..first + (i - last)];
  }

  lemma NoOthersBalance(w: Parts, r: Parts, now: seq<string>, first: nat, i: nat)
    requires 1 <= first <= i <= |now| && Balanced(w, r, now, first, first, i)
    ensures Balanced(w, r, now, i, i, i)
  {
    assert now[1..i] + now[i..i] == now[1..first] + now[first..i];
    assert now[i..i] == now[first..first];
  }

  lemma OtherBalance(optstring: string, args: seq<string>, w: Parts, now: seq<string>, first: nat, i: nat)
    requires 1 <= first <= i < |now| == |args| && now[i] == args[i] && NonOption(args[i])
    requires Balanced(w, Walk(optstring, true, args, i), now, first, i, i)
    ensures Balanced(w, Walk(optstring, true, args, i + 1), now, first, i + 1, i + 1)
    ensures Walk(optstring, true, args, i).results == Walk(optstring, true, args, i + 1).results
  {
    var r := Walk(optstring, true, args, i + 1);
    assert now[first..i + 1] == now[first..i] + [args[i]];
    assert now[first..i] + ([args[i]] + r.others) == now[first..i + 1] + r.others;
    assert now[i + 1..i + 1] == now[i..i] == [];
  }

  lemma DashesBalance(optstring: string, permute: bool, args: seq<string>, w: Parts, now: seq<string>, first: nat,
                      last: nat, i: nat)
    requires 1 <= first <= last <= i < |now| == |args| && now[i] == args[i] == "--"
    requires Balanced(w, Walk(optstring, permute, args, i), now, first, last, i)
    ensures Balanced(w, Parts([], args[i + 1..], []), now, first, last, i + 1)
  {
    assert now[last..i + 1] == now[last..i] + ["--"];
    assert now[1..first] + now[last..i] + ["--"] == now[1..first] + now[last..i + 1] + [];
  }

  /** Options and the rest, with nothing in between. */
  lemma DoneBalance(w: Parts, args: seq<string>, now: seq<string>, first: nat, i: nat)
    requires 1 <= first <= i <= |now| == |args| && now[0] == args[0] && now[i..] == args[i..]
    requires Balanced(w, Parts([], args[i..], []), now, first, i, i)
    ensures now == [args[0]] + w.options + w.others && first == 1 + |w.options|
  {
    assert now == [now[0]] + now[1..first] + (now[first..i] + now[i..]);
    assert now[1..first] + now[i..i] + [] == now[1..first];
  }

  lemma EndBalance(w: Parts, args: seq<string>, now: seq<string>, first: nat, last: nat)
    requires 1 <= first <= last <= |now| == |args| && now[0] == args[0] && (last == |now| || first == last)
    requires Balanced(w, Parts([], [], []), now, first, last, |now|)
    ensures now == [args[0]] + w.options + w.others
    ensures 1 + |w.options| == if first != last then first else |now|
  {
    if first == last {
      assert now == [now[0]] + (now[1..first] + now[last..|now|]);
      assert now[1..first] + now[last..|now|] + [] == now[1..first] + now[last..|now|];
    } else {
      assert now == [now[0]] + now[1..first] + now[first..last];
      assert now[1..first] + now[last..|now|] + [] == now[1..first];
    }
    assert now[first..last] + [] == now[first..last];
  }

  lemma StopBalance(w: Parts, args: seq<string>, now: seq<string>, first: nat, i: nat)
    requires 1 <= first <= i <= |now| == |args| && now[0] == args[0] && now[i..] == args[i..]
    requires Balanced(w, Parts([], args[i..], []), now, first, first, i)
    ensures now == [args[0]] + w.options + w.others && i == 1 + |w.options|
  {
    NoOthersBalance(w, Parts([], args[i..], []), now, first, i);
    DoneBalance(w, args, now, i, i);
  }

  lemma WalkAtDashes(optstring: string, permute: bool, args: seq<string>, i: nat)
    requires i < |args| && args[i] == "--"
    ensures Walk(optstring, permute, args, i) == Parts([args[i]], args[i + 1..], [])
  {}

  lemma WalkSkips(optstring: string, args: seq<string>, i: nat)
    requires i < |args| && NonOption(args[i])
    ensures Walk(optstring, true, args, i) ==
      var w := Walk(optstring, true, args, i + 1); w.(others := [args[i]] + w.others)
  {}

  lemma WalkAtEnd(optstring: string, permute: bool, args: seq<string>)
    ensures Walk(optstring, permute, args, |args|) == Parts([], [], [])
  {}

  lemma WalkStops(optstring: string, args: seq<string>, i: nat)
    requires i < |args| && NonOption(args[i])
    ensures Walk(optstring, false, args, i) == Parts([], args[i..], [])
  {}

  lemma WalkInElement(optstring: string, permute: bool, args: seq<string>, i: nat)
    requires i < |args| && args[i] != "--" && !NonOption(args[i])
    ensures Walk(optstring, permute, args, i) == InElement(optstring, permute, args, i, args[i][1..])
  {}

  // ----- a whole scan -------------------------------------------------------------------------------------------

  /** The loop every program runs: one call after the other, up to -1. The reports are those of the
      command line read from left to right. With PERMUTE, the options with their arguments come to stand
      first and the other arguments last, each in their order, and `optind` is where the latter begin; no
      argument is lost. */
  method Scan(argv: array<string>, optstring: string, permute: bool) returns (results: seq<Result>, optind: nat)
    requires 1 <= argv.Length && Simple(optstring)
    modifies argv
    ensures var w := Walk(optstring, permute, old(argv[..]), 1);
      && results == w.results
      && argv[..] == [old(argv[0])] + w.options + w.others
      && optind == 1 + |w.options|
    ensures multiset(argv[..]) == multiset(old(argv[..]))
  {
    hide Walk, Simple, Rest, Balanced;
    ghost var args := argv[..];
    var d := new Getopt(argv, optstring, permute);
    results := [];
    ghost var todo := d.ToDo().results;
    WalkKeepsArguments(optstring, permute, args, 1);
    StartOfScan(optstring, permute, args);
    while true
      invariant d.Valid() && d.argv == argv && d.args == args && d.optstring == optstring && d.permute == permute &&
        fresh(d)
      invariant todo == d.ToDo().results && results + todo == Walk(optstring, permute, args, 1).results
      decreases |todo|
    {
      var r := d.Next();
      if r == None {
        break;
      }
      results, todo := results + [r.value], todo[1..];
    }
    optind := d.optind;
    assert args == [args[0]] + args[1..];
    ghost var w := Walk(optstring, permute, args, 1);
    assert [args[0]] + w.options + w.others == [args[0]] + (w.options + w.others);
  }

  lemma StartOfScan(optstring: string, permute: bool, args: seq<string>)
    ensures Rest(optstring, permute, args, 1, []) == Walk(optstring, permute, args, 1)
  {}
}
