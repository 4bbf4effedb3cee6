/** The text translation of `cpmcp`: line ends and the end-of-file character, in chunks. */
module Text {
  import opened Geometry

  const LF: byte := 10
  const CR: byte := 13
  const SUB: byte := 26

  /** `sizeof(buf) / 2` in the copy to CP/M. */
  const CHUNK := 2048

  // ----- to CP/M --------------------------------------------------------------------------------------

  function EncodeChar(c: byte, text: bool): (r: seq<byte>)
    ensures 1 <= |r| <= 2
  {
    if text && c == LF then [CR, c] else [c]
  }

  function Encode(s: seq<byte>, text: bool): seq<byte> {
    if s == [] then [] else EncodeChar(s[0], text) + Encode(s[1..], text)
  }

  /** What ends up in the CP/M file. */
  function FileText(s: seq<byte>, text: bool): seq<byte> {
    Encode(s, text) + if text then [SUB] else []
  }

  /** How many characters of `s` the loop takes with `j` bytes in the buffer. */
  function Taken(s: seq<byte>, text: bool, j: nat): (n: nat)
    ensures n <= |s|
    decreases |s|
  {
    if CHUNK <= j || s == [] then 0 else 1 + Taken(s[1..], text, j + |EncodeChar(s[0], text)|)
  }

  /** The loop ended because the input did. */
  predicate AtEof(s: seq<byte>, text: bool) {
    |Encode(s[..Taken(s, text, 0)], text)| < CHUNK
  }

  lemma {:induction false} TakenFillsChunk(s: seq<byte>, text: bool, j: nat)
    ensures var n := Taken(s, text, j);
      && (j + |Encode(s[..n], text)| < CHUNK ==> n == |s|)
      && (j <= CHUNK + 1 ==> j + |Encode(s[..n], text)| <= CHUNK + 1)
      && (CHUNK <= j + |Encode(s[..n], text)| && j < CHUNK ==> 0 < n)
      && (!text && j <= CHUNK ==> j + |Encode(s[..n], text)| <= CHUNK)
  {
    var n := Taken(s, text, j);
    if n > 0 {
      TakenFillsChunk(s[1..], text, j + |EncodeChar(s[0], text)|);
      assert s[..n][1..] == s[1..][..n - 1];
    }
  }

  /** The buffers handed to `cpmWrite`, one after the other. */
  function Chunks(s: seq<byte>, text: bool): seq<seq<byte>>
    decreases |s|
  {
    TakenFillsChunk(s, text, 0);
    var n := Taken(s, text, 0);
    if AtEof(s, text) then [FileText(s[..n], text)]
    else [Encode(s[..n], text)] + Chunks(s[n..], text)
  }

  function Flatten(chunks: seq<seq<byte>>): seq<byte> {
    if chunks == [] then [] else chunks[0] + Flatten(chunks[1..])
  }

  lemma {:induction false} EncodeSplits(s: seq<byte>, t: seq<byte>, text: bool)
    ensures Encode(s + t, text) == Encode(s, text) + Encode(t, text)
  {
    hide EncodeChar;
    if s == [] {
      assert s + t == t;
    } else {
      EncodeSplits(s[1..], t, text);
      assert (s + t)[1..] == s[1..] + t && (s + t)[0] == s[0];
      Associative(EncodeChar(s[0], text), Encode(s[1..], text), Encode(t, text));
    }
  }

  lemma Associative(a: seq<byte>, b: seq<byte>, c: seq<byte>)
    ensures a + (b + c) == a + b + c
  {}

  /** Where the chunks are cut makes no difference to the file. */
  lemma {:induction false} ChunksAreStored(s: seq<byte>, text: bool)
    ensures Flatten(Chunks(s, text)) == FileText(s, text)
    decreases |s|
  {
    hide Encode, Taken, EncodeChar;
    TakenFillsChunk(s, text, 0);
    var n := Taken(s, text, 0);
    if AtEof(s, text) {
      assert s[..n] == s;
      FlattenOne(FileText(s, text));
    } else {
      ChunksAreStored(s[n..], text);
      EncodeSplits(s[..n], s[n..], text);
      assert s == s[..n] + s[n..];
      assert Chunks(s, text)[1..] == Chunks(s[n..], text);
    }
  }

  lemma FlattenOne(c: seq<byte>)
    ensures Flatten([c]) == c
  {
    assert [c][1..] == [];
  }

  /** Binary text is not changed. */
  lemma {:induction false} BinaryIsPlain(s: seq<byte>)
    ensures Encode(s, false) == s && FileText(s, false) == s
  {
    if s != [] {
      BinaryIsPlain(s[1..]);
    }
  }

  lemma {:induction false} EncodedLength(t: seq<byte>)
    ensures |Encode(t, true)| == |t| + multiset(t)[LF]
  {
    if t != [] {
      EncodedLength(t[1..]);
      assert t == [t[0]] + t[1..];
      assert multiset(t) == multiset([t[0]]) + multiset(t[1..]);
    }
  }

  lemma EncodeOne(c: byte)
    ensures Encode([c], true) == if c == LF then [CR, LF] else [c]
  {
    assert [c][1..] == [];
  }

  /** A stored text is the text with a CR in front of every LF, and one end-of-file character behind it: character `i`
      comes behind as many CRs as there are LFs in front of it. */
  lemma StoredText(t: seq<byte>, i: nat)
    requires i < |t|
    ensures var stored, at := FileText(t, true), i + multiset(t[..i])[LF];
      && |stored| == |t| + multiset(t)[LF] + 1 && stored[|stored| - 1] == SUB && at + 1 < |stored|
      && stored[at] == (if t[i] == LF then CR else t[i])
      && (t[i] == LF ==> stored[at + 1] == LF)
  {
    hide Encode;
    var c: seq<byte> := [t[i]];
    EncodedLength(t);
    EncodedLength(t[..i]);
    EncodeOne(t[i]);
    EncodeSplits(t[..i], c + t[i + 1..], true);
    EncodeSplits(c, t[i + 1..], true);
    assert t == t[..i] + (c + t[i + 1..]);
    var stored := FileText(t, true);
    assert stored[|Encode(t[..i], true)|] == Encode(c, true)[0];
    if t[i] == LF {
      assert stored[|Encode(t[..i], true)| + 1] == Encode(c, true)[1];
    }
  }

  /** The inner loop of the copy to CP/M, from input position `at`, into a buffer of 4097 bytes. The
      result is how much of the buffer is filled and the input position reached. */
  method FillChunk(ufp: seq<byte>, at: nat, text: bool, buf: array<byte>) returns (j: nat, next: nat, eof: bool)
    requires at <= |ufp| && buf.Length == 4097
    modifies buf
    ensures next == at + Taken(ufp[at..], text, 0) && eof == AtEof(ufp[at..], text)
    ensures j <= buf.Length
    ensures buf[..j] == if eof then FileText(ufp[at..next], text) else Encode(ufp[at..next], text)
  {
    hide Encode, AtEof, Taken;
    ghost var s := ufp[at..];
    j, next, eof := 0, at, false;
    assert ufp[at..next] == [];
    StartOfChunk(s, text);
    while j < CHUNK
      invariant at <= next <= |ufp| && j <= CHUNK + 1 && !eof
      invariant buf[..j] == Encode(ufp[at..next], text)
      invariant next - at + Taken(ufp[next..], text, j) == Taken(s, text, 0)
      decreases |ufp| - next
    {
      TakeOne(ufp, at, next, text, j);
      if next == |ufp| {
        eof := true;
        break;
      }
      var c := ufp[next];
      if text && c == LF {
        buf[j] := CR;
        j := j + 1;
      }
      buf[j] := c;
      j := j + 1;
      next := next + 1;
    }
    EndOfChunk(ufp, at, next, text, j);
    if text && eof {
      buf[j] := SUB;
      j := j + 1;
    }
  }

  lemma StartOfChunk(s: seq<byte>, text: bool)
    ensures Encode([], text) == []
  {}

  lemma TakeOne(ufp: seq<byte>, at: nat, next: nat, text: bool, j: nat)
    requires at <= next <= |ufp| && j < CHUNK
    ensures next == |ufp| ==> Taken(ufp[next..], text, j) == 0
    ensures next < |ufp| ==>
      Taken(ufp[next..], text, j) == 1 + Taken(ufp[next + 1..], text, j + |EncodeChar(ufp[next], text)|)
    ensures next < |ufp| ==>
      Encode(ufp[at..next + 1], text) == Encode(ufp[at..next], text) + EncodeChar(ufp[next], text)
  {
    if next < |ufp| {
      assert ufp[next..][1..] == ufp[next + 1..];
      assert ufp[at..next + 1] == ufp[at..next] + [ufp[next]];
      EncodeSplits(ufp[at..next], [ufp[next]], text);
      var last: seq<byte> := [ufp[next]];
      assert last[1..] == [];
      assert Encode(last, text) == EncodeChar(ufp[next], text) + Encode([], text);
    }
  }

  lemma EndOfChunk(ufp: seq<byte>, at: nat, next: nat, text: bool, j: nat)
    requires at <= next <= |ufp| && j == |Encode(ufp[at..next], text)|
    requires next - at + Taken(ufp[next..], text, j) == Taken(ufp[at..], text, 0)
    requires CHUNK <= j || next == |ufp|
    ensures next == at + Taken(ufp[at..], text, 0)
    ensures AtEof(ufp[at..], text) <==> j < CHUNK
  {
    assert ufp[at..][..next - at] == ufp[at..next];
  }

  // ----- to Unix ---------------------------------------------------------------------------------------

  /** `crpending`, and whether the end-of-file character was met. */
  datatype State = State(crpending: bool, stopped: bool)

  const START := State(false, false)

  /** The state after one character, and what is written for it. */
  function Next(st: State, c: byte): (State, seq<byte>) {
    if st.stopped || c == SUB then (st.(stopped := true), [])
    else if st.crpending then (State(c == CR, false), if c == LF then [LF] else [CR])
    else if c == CR then (State(true, false), [])
    else (st, [c])
  }

  function Decode(st: State, s: seq<byte>): (State, seq<byte>)
    decreases |s|
  {
    if s == [] then (st, [])
    else
      var (st', out) := Next(st, s[0]);
      var (end, rest) := Decode(st', s[1..]);
      (end, out + rest)
  }

  /** Where the chunks are cut makes no difference to the output. */
  lemma {:induction false} DecodeSplits(st: State, s: seq<byte>, t: seq<byte>)
    ensures var (mid, first) := Decode(st, s);
      var (end, second) := Decode(mid, t);
      Decode(st, s + t) == (end, first + second)
    decreases |s|
  {
    hide Next;
    if s == [] {
      assert s + t == t;
      assert [] + Decode(st, t).1 == Decode(st, t).1;
    } else {
      var (st', out) := Next(st, s[0]);
      DecodeSplits(st', s[1..], t);
      assert (s + t)[1..] == s[1..] + t;
      var (mid, first) := Decode(st', s[1..]);
      assert out + (first + Decode(mid, t).1) == out + first + Decode(mid, t).1;
    }
  }

  lemma {:induction false} StoppedIsSilent(st: State, s: seq<byte>)
    requires st.stopped
    ensures Decode(st, s) == (st, [])
    decreases |s|
  {
    if s != [] {
      StoppedIsSilent(st, s[1..]);
      assert Next(st, s[0]).1 + [] == [];
    }
  }

  /** The inner loop of the copy to Unix over one buffer. */
  method Translate(buf: seq<byte>, crpending: bool) returns (out: seq<byte>, pending: bool, stopped: bool)
    ensures var (st, text) := Decode(State(crpending, false), buf);
      st.stopped == stopped && (!stopped ==> st.crpending == pending) && out == text
  {
    hide Decode;
    out, pending, stopped := [], crpending, false;
    NothingDecoded(State(crpending, false));
    assert buf[..0] == [];
    for j := 0 to |buf|
      invariant Decode(State(crpending, false), buf[..j]).0 == State(pending, false)
      invariant Decode(State(crpending, false), buf[..j]).1 == out
    {
      assert out + [] == out;
      OneMoreDecoded(State(crpending, false), buf, j);
      if buf[j] == SUB {
        SilentEnd(State(crpending, false), buf, j);
        return out, pending, true;
      }
      if pending {
        if buf[j] == LF {
          out, pending := out + [LF], false;
        } else {
          out := out + [CR];
        }
        pending := buf[j] == CR;
      } else {
        if buf[j] == CR {
          pending := true;
        } else {
          out := out + [buf[j]];
        }
      }
    }
    assert buf[..|buf|] == buf;
  }

  lemma NothingDecoded(st: State)
    ensures Decode(st, []) == (st, [])
  {}

  lemma OneMoreDecoded(st: State, buf: seq<byte>, j: nat)
    requires j < |buf|
    ensures var (mid, out) := Decode(st, buf[..j]);
      Decode(st, buf[..j + 1]) == (Next(mid, buf[j]).0, out + Next(mid, buf[j]).1)
  {
    var last: seq<byte> := [buf[j]];
    assert buf[..j + 1] == buf[..j] + last;
    DecodeSplits(st, buf[..j], last);
    assert last[1..] == [];
    var (mid, out) := Decode(st, buf[..j]);
    var c := Next(mid, buf[j]).1;
    assert c + [] == c;
    assert Decode(mid, last) == (Next(mid, buf[j]).0, c);
  }

  lemma SilentEnd(st: State, buf: seq<byte>, j: nat)
    requires j < |buf| && buf[j] == SUB
    ensures Decode(st, buf).0.stopped && Decode(st, buf).1 == Decode(st, buf[..j]).1
  {
    OneMoreDecoded(st, buf, j);
    DecodeSplits(st, buf[..j + 1], buf[j + 1..]);
    assert buf == buf[..j + 1] + buf[j + 1..];
    StoppedIsSilent(Decode(st, buf[..j + 1]).0, buf[j + 1..]);
    var out := Decode(st, buf[..j]).1;
    assert out + [] + [] == out;
  }

  // ----- the output, position by position ------------------------------------------------------------------

  /** Something is written for the character at `i`: it is no CR, or stands behind one. */
  predicate Emits(s: seq<byte>, i: nat)
    requires i < |s|
  {
    s[i] != CR || (0 < i && s[i - 1] == CR)
  }

  /** What that is: behind a CR an LF as it is and anything else as that CR; otherwise the character itself. */
  function Emitted(s: seq<byte>, i: nat): byte
    requires i < |s|
  {
    if 0 < i && s[i - 1] == CR && s[i] != LF then CR else s[i]
  }

  /** `from` lists the positions in front of `end` for which something is written, and `out` is that. */
  ghost predicate Written(s: seq<byte>, end: nat, from: seq<nat>, out: seq<byte>)
    requires end <= |s|
  {
    && |out| == |from|
    && (forall k :: 0 <= k < |from| ==> from[k] < end && out[k] == Emitted(s, from[k]))
    && (forall k, l :: 0 <= k < l < |from| ==> from[k] < from[l])
    && (forall i: nat :: i < end ==> (i in from <==> Emits(s, i)))
  }

  lemma {:induction false} DecodedInFront(s: seq<byte>, n: nat) returns (from: seq<nat>)
    requires n <= |s| && SUB !in s[..n]
    ensures Decode(START, s[..n]).0 == State(0 < n && s[n - 1] == CR, false)
    ensures Written(s, n, from, Decode(START, s[..n]).1)
  {
    hide Decode;
    from := [];
    if n == 0 {
      NothingDecoded(START);
      assert s[..0] == [];
    } else {
      assert s[..n - 1] == s[..n][..n - 1] && s[n - 1] == s[..n][n - 1];
      from := DecodedInFront(s, n - 1);
      OneMoreDecoded(START, s, n - 1);
      if Emits(s, n - 1) {
        from := from + [n - 1];
      }
    }
  }

  /** The copy to Unix of any file: up to the first end-of-file character, each CR LF becomes LF, each other CR takes
      the place of the character behind it, and everything else is written as it is. */
  lemma DecodeByPosition(s: seq<byte>, end: nat) returns (from: seq<nat>)
    requires end <= |s| && SUB !in s[..end] && (end < |s| ==> s[end] == SUB)
    ensures Written(s, end, from, Decode(START, s).1)
  {
    hide Decode, Written;
    from := DecodedInFront(s, end);
    if end < |s| {
      SilentEnd(START, s, end);
    } else {
      assert s[..end] == s;
    }
  }

  /** A file without CR and end-of-file character is copied as it is. */
  lemma {:induction false} PlainDecodes(s: seq<byte>)
    requires SUB !in s && CR !in s
    ensures Decode(START, s) == (START, s)
    decreases |s|
  {
    hide Decode;
    if s == [] {
      NothingDecoded(START);
    } else {
      var n := |s| - 1;
      PlainDecodes(s[..n]);
      OneMoreDecoded(START, s, n);
      assert s[..n + 1] == s && s == s[..n] + [s[n]];
    }
  }

  // ----- there and back ----------------------------------------------------------------------------------

  /** No end-of-file character, and every run of CRs goes on to an LF. */
  predicate Faithful(t: seq<byte>) {
    SUB !in t && forall i :: 0 <= i < |t| && t[i] == CR ==> i + 1 < |t| && (t[i + 1] == CR || t[i + 1] == LF)
  }

  /** The same from inside a run of CRs. */
  predicate FaithfulFrom(t: seq<byte>, crpending: bool) {
    Faithful(t) && (crpending ==> t != [] && (t[0] == CR || t[0] == LF))
  }

  function Owed(crpending: bool): seq<byte> {
    if crpending then [CR] else []
  }

  lemma FaithfulTail(t: seq<byte>)
    requires t != []
    ensures Faithful(t) <==> t[0] != SUB && FaithfulFrom(t[1..], t[0] == CR)
  {
    assert t == [t[0]] + t[1..];
    if t[0] != SUB && FaithfulFrom(t[1..], t[0] == CR) {
      forall i | 0 <= i < |t| && t[i] == CR ensures i + 1 < |t| && (t[i + 1] == CR || t[i + 1] == LF) {
        if i > 0 {
          assert t[1..][i - 1] == t[i];
        }
      }
    }
    if Faithful(t) {
      forall i | 0 <= i < |t| - 1 && t[1..][i] == CR
        ensures i + 1 < |t| - 1 && (t[1..][i + 1] == CR || t[1..][i + 1] == LF)
      {
        assert t[i + 1] == CR;
      }
    }
  }

  /** Decoding what encoding stored gives a faithful text back, with a pending CR in front, and
      strictly less than that for any other text. */
  lemma {:induction false} DecodeEncode(t: seq<byte>, crpending: bool)
    ensures FaithfulFrom(t, crpending) ==> Decode(State(crpending, false), FileText(t, true)).1 == Owed(crpending) + t
    ensures !FaithfulFrom(t, crpending) ==>
      |Decode(State(crpending, false), FileText(t, true)).1| < |Owed(crpending)| + |t|
    decreases |t|
  {
    hide Faithful, Decode, FileText;
    if t == [] {
      EmptyText(crpending);
    } else {
      FaithfulTail(t);
      DecodeFirst(t, crpending);
      if t[0] != SUB {
        DecodeEncode(t[1..], t[0] == CR);
        var c: seq<byte> := [t[0]];
        assert t == c + t[1..];
        Associative(Owed(crpending), c, t[1..]);
      }
    }
  }

  lemma EmptyText(crpending: bool)
    ensures Faithful([])
    ensures Decode(State(crpending, false), FileText([], true)).1 == []
  {
    var sub: seq<byte> := [SUB];
    assert FileText([], true) == sub && sub[1..] == [];
  }

  /** The first character of a text, encoded and decoded. */
  lemma DecodeFirst(t: seq<byte>, crpending: bool)
    requires t != []
    ensures var all := Decode(State(crpending, false), FileText(t, true)).1;
      if t[0] == SUB then all == []
      else if crpending && t[0] != LF && t[0] != CR
        then all == [CR] + Decode(State(false, false), FileText(t[1..], true)).1
      else all == (if t[0] == CR then Owed(crpending) else Owed(crpending) + [t[0]])
                  + Decode(State(t[0] == CR, false), FileText(t[1..], true)).1
  {
    hide FileText, Decode;
    var rest, st := FileText(t[1..], true), State(crpending, false);
    StoredFirst(t);
    if t[0] == LF {
      var crlf: seq<byte> := [CR, LF];
      assert crlf + rest == [CR] + ([LF] + rest);
      DecodeOne(st, CR, [LF] + rest);
      DecodeOne(State(true, false), LF, rest);
    } else {
      DecodeOne(st, t[0], rest);
      if t[0] == SUB {
        StoppedIsSilent(Next(st, SUB).0, rest);
      }
    }
  }

  lemma StoredFirst(t: seq<byte>)
    requires t != []
    ensures FileText(t, true) == EncodeChar(t[0], true) + FileText(t[1..], true)
  {
    hide EncodeChar;
  }

  lemma DecodeOne(st: State, c: byte, rest: seq<byte>)
    ensures Decode(st, [c] + rest).1 == Next(st, c).1 + Decode(Next(st, c).0, rest).1
  {
    hide Next;
    assert ([c] + rest)[1..] == rest;
  }

  /** Text copied to CP/M and back is unchanged exactly if it holds no end-of-file character and every
      run of CRs is followed by LF. */
  lemma TextRoundTrip(t: seq<byte>)
    ensures Decode(START, FileText(t, true)).1 == t <==> Faithful(t)
  {
    hide Decode, Faithful;
    DecodeEncode(t, false);
    assert Owed(false) + t == t;
  }

  // ----- a stored text cut short --------------------------------------------------------------------------

  lemma {:induction false} EncodesNoSub(t: seq<byte>)
    requires SUB !in t
    ensures SUB !in Encode(t, true)
  {
    if t != [] {
      EncodesNoSub(t[1..]);
    }
  }

  lemma {:induction false} GoesOn(st: State, s: seq<byte>)
    requires !st.stopped && SUB !in s
    ensures !Decode(st, s).0.stopped
    decreases |s|
  {
    if s != [] {
      GoesOn(Next(st, s[0]).0, s[1..]);
    }
  }

  /** Of two characters at least one is written, the second perhaps as the CR that was pending. */
  lemma TwoShow(st: State, s: seq<byte>)
    requires !st.stopped && 2 <= |s| && s[0] != SUB && s[1] != SUB
    ensures Decode(st, s).1 != []
  {
    assert s == [s[0]] + s[1..] && s[1..] == [s[1]] + s[2..];
    DecodeOne(st, s[0], s[1..]);
    DecodeOne(Next(st, s[0]).0, s[1], s[2..]);
  }

  /** A text whose stored form is cut short by more than its end does not come back. */
  lemma ShortTextDiffers(t: seq<byte>, n: nat)
    requires n + 3 <= |FileText(t, true)|
    ensures Decode(START, FileText(t, true)[..n]).1 != t
  {
    hide Decode, Encode, Next;
    var all := FileText(t, true);
    var (mid, shown) := Decode(START, all[..n]);
    DecodeSplits(START, all[..n], all[n..]);
    assert all == all[..n] + all[n..];
    DecodeEncode(t, false);
    if Faithful(t) {
      EncodesNoSub(t);
      assert all[..n] == Encode(t, true)[..n];
      GoesOn(START, all[..n]);
      TwoShow(mid, all[n..]);
    }
  }
}
