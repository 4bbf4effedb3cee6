/** Command lines put together from options and other arguments, and what a scan reads out of them again. */
module CommandLine {
  import opened Wrappers
  import opened Getopt

  // ----- the option string -----------------------------------------------------------------------------

  /** An option is what the characters behind its first occurrence say: nothing, one colon, or two. */
  lemma KindOfMeans(before: string, c: char, behind: string)
    requires c !in before
    ensures var optstring := before + [c] + behind;
      && (c == ':' ==> KindOf(optstring, c) == Unknown)
      && (c != ':' && (behind == "" || behind[0] != ':') ==> KindOf(optstring, c) == Plain)
      && (c != ':' && behind != "" && behind[0] == ':' ==>
            KindOf(optstring, c) == if |behind| > 1 && behind[1] == ':' then Optional else Required)
  {
    FromFirst(before, c, behind);
  }

  lemma {:induction false} FromFirst(before: string, c: char, behind: string)
    requires c !in before
    ensures From(before + [c] + behind, c) == [c] + behind
  {
    if before != "" {
      FromFirst(before[1..], c, behind);
      assert (before + [c] + behind)[1..] == before[1..] + [c] + behind;
    }
  }

  lemma NotListed(optstring: string, c: char)
    requires c !in optstring
    ensures KindOf(optstring, c) == Unknown
  {}

  // ----- command lines ----------------------------------------------------------------------------------

  /** One argument that is no option, or one element of options: letters without an argument, then perhaps one with
      its argument behind it, with none, or with the next element. */
  datatype Word =
    | Other(text: string)
    | Letters(letters: string)
    | Attached(letters: string, c: char, value: string)
    | Bare(letters: string, c: char)
    | Separate(letters: string, c: char, value: string)

  function Elements(w: Word): (r: seq<string>)
    ensures 1 <= |r| <= 2
  {
    match w
    case Other(text) => [text]
    case Letters(letters) => ["-" + letters]
    case Attached(letters, c, value) => ["-" + letters + [c] + value]
    case Bare(letters, c) => ["-" + letters + [c]]
    case Separate(letters, c, value) => ["-" + letters + [c], value]
  }

  predicate TakesNone(optstring: string, letters: string) {
    forall k :: 0 <= k < |letters| ==>
      KindOf(optstring, letters[k]) == Plain || KindOf(optstring, letters[k]) == Unknown
  }

  predicate Fits(optstring: string, w: Word) {
    && (w.Other? ==> w.text == "" || w.text == "-" || w.text[0] != '-')
    && (w.Letters? ==> w.letters != "") && Elements(w)[0] != "--"
    && (!w.Other? ==> TakesNone(optstring, w.letters))
    && (w.Attached? ==> w.value != "" && KindOf(optstring, w.c) in {Required, Optional})
    && (w.Bare? ==> KindOf(optstring, w.c) == Optional)
    && (w.Separate? ==> KindOf(optstring, w.c) == Required)
  }

  /** What does not start with a dash, and a dash alone, is no option; nothing else is. */
  lemma OnlyOthers(optstring: string, w: Word)
    requires Fits(optstring, w)
    ensures NonOption(Elements(w)[0]) <==> w.Other?
  {
    hide KindOf, TakesNone;
  }

  /** What is reported for letters: themselves, or a question mark for those that are no options. */
  function Named(optstring: string, letters: string): (r: seq<Result>)
    ensures |r| == |letters|
  {
    seq(|letters|, k requires 0 <= k < |letters| =>
      Result(if KindOf(optstring, letters[k]) == Plain then letters[k] else '?', None))
  }

  function Reports(optstring: string, w: Word): seq<Result> {
    match w
    case Other(text) => []
    case Letters(letters) => Named(optstring, letters)
    case Attached(letters, c, value) => Named(optstring, letters) + [Result(c, Some(value))]
    case Bare(letters, c) => Named(optstring, letters) + [Result(c, None)]
    case Separate(letters, c, value) => Named(optstring, letters) + [Result(c, Some(value))]
  }

  function Line(words: seq<Word>): seq<string> {
    if words == [] then [] else Elements(words[0]) + Line(words[1..])
  }

  /** The words of a line, taken apart: options with their arguments, other arguments, reports. */
  function PartsOf(optstring: string, words: seq<Word>): Parts {
    if words == [] then Parts([], [], [])
    else
      var w, r := words[0], PartsOf(optstring, words[1..]);
      Parts((if w.Other? then [] else Elements(w)) + r.options, (if w.Other? then [w.text] else []) + r.others,
            Reports(optstring, w) + r.results)
  }

  function Together(a: Parts, b: Parts): Parts {
    Parts(a.options + b.options, a.others + b.others, a.results + b.results)
  }

  // ----- a scan reads them back -------------------------------------------------------------------------

  lemma OneLetter(optstring: string, x: char, text: string, next: Option<string>)
    requires KindOf(optstring, x) == Plain || KindOf(optstring, x) == Unknown
    ensures ElementResults(optstring, [x] + text, next) ==
      ([Result(if KindOf(optstring, x) == Plain then x else '?', None)] + ElementResults(optstring, text, next).0,
       ElementResults(optstring, text, next).1)
  {
    hide KindOf;
    assert ([x] + text)[1..] == text;
  }

  lemma {:induction false} LettersFirst(optstring: string, letters: string, text: string, next: Option<string>)
    requires TakesNone(optstring, letters)
    ensures ElementResults(optstring, letters + text, next) ==
      (Named(optstring, letters) + ElementResults(optstring, text, next).0, ElementResults(optstring, text, next).1)
  {
    hide KindOf, ElementResults;
    var shown := ElementResults(optstring, text, next).0;
    if letters == "" {
      assert letters + text == text && Named(optstring, letters) + shown == shown;
    } else {
      var x, more := letters[0], letters[1..];
      assert letters + text == [x] + (more + text);
      assert forall k :: 0 <= k < |more| ==> more[k] == letters[k + 1];
      LettersFirst(optstring, more, text, next);
      OneLetter(optstring, x, more + text, next);
      var first := Result(if KindOf(optstring, x) == Plain then x else '?', None);
      assert Named(optstring, letters) == [first] + Named(optstring, more);
      assert [first] + (Named(optstring, more) + shown) == [first] + Named(optstring, more) + shown;
    }
  }

  /** One word at the place the scan has reached. */
  lemma WordRead(optstring: string, permute: bool, args: seq<string>, i: nat, w: Word)
    requires Fits(optstring, w) && (w.Other? ==> permute)
    requires i + |Elements(w)| <= |args| && args[i..i + |Elements(w)|] == Elements(w)
    ensures Walk(optstring, permute, args, i) ==
      Together(PartsOf(optstring, [w]), Walk(optstring, permute, args, i + |Elements(w)|))
  {
    hide Walk, KindOf, TakesNone, ElementResults, Reports, PartsOf, NonOption;
    OnlyOthers(optstring, w);
    var n := |Elements(w)|;
    OneWord(optstring, w);
    assert args[i] == args[i..i + n][0] == Elements(w)[0];
    if w.Other? {
      WalkSkips(optstring, args, i);
      var rest := Walk(optstring, permute, args, i + 1);
      assert Together(Parts([], [w.text], []), rest) == rest.(others := [w.text] + rest.others);
    } else {
      if w.Separate? {
        assert args[i + 1] == args[i..i + n][1];
      }
      ElementRead(optstring, w, NextOf(args, i));
      ElementWalked(optstring, permute, args, i, Reports(optstring, w), w.Separate?);
    }
  }

  lemma ElementWalked(optstring: string, permute: bool, args: seq<string>, i: nat, results: seq<Result>, usesNext: bool)
    requires i < |args| && args[i] != "--" && !NonOption(args[i])
    requires ElementResults(optstring, args[i][1..], NextOf(args, i)) == (results, usesNext)
    ensures var n := i + if usesNext then 2 else 1;
      n <= |args| &&
      Walk(optstring, permute, args, i) == Together(Parts(args[i..n], [], results), Walk(optstring, permute, args, n))
  {
    hide Walk, ElementResults;
    WalkInElement(optstring, permute, args, i);
  }

  lemma OneWord(optstring: string, w: Word)
    ensures PartsOf(optstring, [w]) ==
      Parts(if w.Other? then [] else Elements(w), if w.Other? then [w.text] else [], Reports(optstring, w))
    ensures w.Other? ==> Reports(optstring, w) == []
  {
    assert [w][1..] == [];
  }

  lemma ElementRead(optstring: string, w: Word, next: Option<string>)
    requires Fits(optstring, w) && !w.Other? && (w.Separate? ==> next == Some(w.value))
    ensures ElementResults(optstring, Elements(w)[0][1..], next) == (Reports(optstring, w), w.Separate?)
  {
    hide KindOf, TakesNone, NonOption, Named;
    var text := Elements(w)[0][1..];
    match w {
      case Letters(letters) =>
        LettersFirst(optstring, letters, "", next);
        assert text == letters + "";
        assert Named(optstring, letters) + [] == Named(optstring, letters);
      case Attached(letters, c, value) =>
        LettersFirst(optstring, letters, [c] + value, next);
        assert text == letters + ([c] + value) && ([c] + value)[1..] == value;
      case Bare(letters, c) =>
        LettersFirst(optstring, letters, [c], next);
        assert text == letters + [c];
      case Separate(letters, c, value) =>
        LettersFirst(optstring, letters, [c], next);
        assert text == letters + [c];
    }
  }

  lemma PartsOfFirst(optstring: string, words: seq<Word>)
    ensures if words == [] then PartsOf(optstring, words) == Parts([], [], [])
      else PartsOf(optstring, words) == Together(PartsOf(optstring, [words[0]]), PartsOf(optstring, words[1..]))
  {
    hide Reports, Elements;
    if words != [] {
      OneWord(optstring, words[0]);
    }
  }

  /** A scan takes any line of words apart again: each word is read as what it was put together from. */
  lemma {:induction false} LineRead(optstring: string, permute: bool, args: seq<string>, i: nat, words: seq<Word>)
    requires forall k :: 0 <= k < |words| ==> Fits(optstring, words[k]) && (words[k].Other? ==> permute)
    requires i + |Line(words)| <= |args| && args[i..i + |Line(words)|] == Line(words)
    ensures Walk(optstring, permute, args, i) ==
      Together(PartsOf(optstring, words), Walk(optstring, permute, args, i + |Line(words)|))
    decreases |words|
  {
    hide Walk, Fits, Elements, PartsOf;
    PartsOfFirst(optstring, words);
    if words == [] {
      assert Together(Parts([], [], []), Walk(optstring, permute, args, i)) == Walk(optstring, permute, args, i);
    } else {
      var w, rest := words[0], words[1..];
      var n, m := |Elements(w)|, |Line(rest)|;
      assert args[i..i + n] == args[i..i + (n + m)][..n] == Elements(w);
      assert args[i + n..i + n + m] == args[i..i + (n + m)][n..] == Line(rest);
      WordRead(optstring, permute, args, i, w);
      LineRead(optstring, permute, args, i + n, rest);
      var a, b, c := PartsOf(optstring, [w]), PartsOf(optstring, rest),
                     Walk(optstring, permute, args, i + |Line(words)|);
      TogetherAssociates(a, b, c);
    }
  }

  lemma TogetherAssociates(a: Parts, b: Parts, c: Parts)
    ensures Together(a, Together(b, c)) == Together(Together(a, b), c)
  {}

  /** A whole command line, up to its end or up to `--` and arguments that are all taken as they are. */
  lemma CommandLineRead(optstring: string, name: string, words: seq<Word>, dashes: bool, others: seq<string>)
    requires forall k :: 0 <= k < |words| ==> Fits(optstring, words[k])
    requires !dashes ==> others == []
    ensures var tail := if dashes then ["--"] + others else [];
      var p := PartsOf(optstring, words);
      Walk(optstring, true, [name] + Line(words) + tail, 1) ==
        Parts(p.options + if dashes then ["--"] else [], p.others + others, p.results)
  {
    hide Walk, Fits, PartsOf, Line;
    var tail := if dashes then ["--"] + others else [];
    var args, n := [name] + Line(words) + tail, 1 + |Line(words)|;
    assert args[1..n] == Line(words);
    LineRead(optstring, true, args, 1, words);
    if dashes {
      WalkAtDashes(optstring, true, args, n);
      assert args[n + 1..] == others;
    } else {
      WalkAtEnd(optstring, true, args);
    }
  }

  /** Without permutation, everything from the first other argument on stays as it is. */
  lemma OrderedLineRead(optstring: string, name: string, words: seq<Word>, other: string, others: seq<string>)
    requires forall k :: 0 <= k < |words| ==> Fits(optstring, words[k]) && !words[k].Other?
    requires other == "" || other == "-" || other[0] != '-'
    ensures var p := PartsOf(optstring, words);
      Walk(optstring, false, [name] + Line(words) + ([other] + others), 1) ==
        Parts(p.options, p.others + ([other] + others), p.results)
  {
    hide Walk, Fits, PartsOf, Line;
    var args, n := [name] + Line(words) + ([other] + others), 1 + |Line(words)|;
    assert args[1..n] == Line(words);
    LineRead(optstring, false, args, 1, words);
    WalkStops(optstring, args, n);
    assert args[n..] == [other] + others;
  }

  /** A line that ends in an option whose argument is missing reports that: with a colon if the option string starts
      with one, otherwise with a question mark. */
  lemma MissingRead(optstring: string, permute: bool, args: seq<string>, letters: string, c: char)
    requires TakesNone(optstring, letters) && KindOf(optstring, c) == Required
    requires args != [] && args[|args| - 1] == "-" + letters + [c] != "--"
    ensures Walk(optstring, permute, args, |args| - 1) ==
      Parts([args[|args| - 1]], [],
            Named(optstring, letters) + [Result(if optstring[..1] == ":" then ':' else '?', None)])
  {
    hide Walk, KindOf, TakesNone, Named;
    var i := |args| - 1;
    WalkInElement(optstring, permute, args, i);
    WalkAtEnd(optstring, permute, args);
    LettersFirst(optstring, letters, [c], None);
    assert args[i][1..] == letters + [c];
    assert args[i..i + 1] == [args[i]];
    RequiredIsListed(optstring, c);
  }

  lemma RequiredIsListed(optstring: string, c: char)
    requires KindOf(optstring, c) == Required
    ensures optstring != "" && optstring[..1] == [optstring[0]]
  {}

  // ----- every command line is one of these ---------------------------------------------------------------

  /** Where the first option with an argument stands. */
  function Taking(optstring: string, text: string): (k: nat)
    ensures k <= |text| && TakesNone(optstring, text[..k])
    ensures k < |text| ==> KindOf(optstring, text[k]) in {Required, Optional}
  {
    if text == "" || KindOf(optstring, text[0]) in {Required, Optional} then 0
    else
      var k := 1 + Taking(optstring, text[1..]);
      assert forall l :: 0 < l < k ==> text[..k][l] == text[1..][..k - 1][l - 1];
      k
  }

  /** The last element of the line is an option that lacks its argument. */
  ghost predicate Lacking(optstring: string, e: string) {
    exists letters: string, c: char ::
      TakesNone(optstring, letters) && KindOf(optstring, c) == Required && e == "-" + letters + [c]
  }

  lemma ElementIsWord(optstring: string, e: string, next: Option<string>) returns (w: Option<Word>)
    requires e != "--" && !NonOption(e)
    ensures w.None? ==> next.None? && Lacking(optstring, e)
    ensures w.Some? ==> Fits(optstring, w.value) && !w.value.Other?
    ensures w.Some? ==> Elements(w.value) == [e] || (next.Some? && Elements(w.value) == [e, next.value])
  {
    hide KindOf, TakesNone;
    var text := e[1..];
    var k := Taking(optstring, text);
    var letters := text[..k];
    assert e == "-" + text;
    if k == |text| {
      w := Some(Letters(text));
      assert letters == text && Elements(w.value) == [e];
    } else {
      var c, value := text[k], text[k + 1..];
      assert text == letters + [c] + value;
      ElementSplits(e, text, letters, c, value);
      if value != "" {
        w := Some(Attached(letters, c, value));
      } else if KindOf(optstring, c) == Optional {
        w := Some(Bare(letters, c));
      } else if next.Some? {
        w := Some(Separate(letters, c, next.value));
      } else {
        w := None;
      }
    }
  }

  lemma ElementSplits(e: string, text: string, letters: string, c: char, value: string)
    requires e == "-" + text && text == letters + [c] + value
    ensures e == "-" + letters + [c] + value
    ensures value == "" ==> e == "-" + letters + [c]
  {}

  /** Up to `--`, to its end, or to a last option without its argument, every command line is a line of words. */
  lemma {:induction false} EveryLine(optstring: string, args: seq<string>, i: nat) returns (words: seq<Word>, end: nat)
    requires i <= |args|
    ensures i <= end <= |args| && args[i..end] == Line(words)
    ensures forall k :: 0 <= k < |words| ==> Fits(optstring, words[k])
    ensures end == |args| || args[end] == "--" || (end == |args| - 1 && Lacking(optstring, args[end]))
    decreases |args| - i
  {
    hide Lacking, KindOf, TakesNone;
    words, end := [], i;
    if i < |args| && args[i] != "--" {
      var w: Option<Word>;
      if NonOption(args[i]) {
        w := Some(Other(args[i]));
      } else {
        w := ElementIsWord(optstring, args[i], NextOf(args, i));
      }
      if w.Some? {
        var n := |Elements(w.value)|;
        assert args[i..i + n] == Elements(w.value);
        var more;
        more, end := EveryLine(optstring, args, i + n);
        words := [w.value] + more;
        assert words[1..] == more && args[i..end] == args[i..i + n] + args[i + n..end];
      }
    }
  }
}
