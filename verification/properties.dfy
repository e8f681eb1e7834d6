/**
  What the tokenizer promises, stated over the model in confu.dfy: the shape
  of TrimQuote's result, how a fragment opens and closes a quote, what
  happens to an unterminated quote, and how line breaks and plain input
  are tokenized.
*/
module ConfuProperties {
  import opened Strings
  import opened Confu

  /** s holds none of the three quote markers. */
  predicate HasNoMarker(s: string) {
    DQ !in s && SQ !in s && BQ !in s
  }

  // ---------------------------------------------------------------------
  // TrimQuote
  // ---------------------------------------------------------------------

  /** TrimQuote's loop, written out for the three markers in their order. */
  lemma StripMarkersInOrder(v: string)
    ensures StripMarkers(v, Markers) == StripMarker(StripMarker(StripMarker(v, DQ), SQ), BQ)
  {
    assert Markers[..2] == [DQ, SQ];
    assert [DQ, SQ][..1] == [DQ];
    assert [DQ][..0] == [];
    calc {
      StripMarkers(v, Markers);
      StripMarker(StripMarkers(v, [DQ, SQ]), BQ);
      StripMarker(StripMarker(StripMarkers(v, [DQ]), SQ), BQ);
      StripMarker(StripMarker(StripMarker(StripMarkers(v, []), DQ), SQ), BQ);
    }
  }

  /** One turn of the loop keeps a contiguous run of its input. */
  lemma StripMarkerIsSlice(w: string, q: char) returns (c: nat, d: nat)
    ensures c <= d <= |w| && StripMarker(w, q) == w[c..d]
  {
    if |w| >= 2 && w[0] == q && w[|w| - 1] == q {
      c, d := 1, |w| - 1;
      assert [q] + w[c..d] + [q] == w;
    } else if w == [q] {
      c, d := 0, 0;
    } else {
      c, d := 0, |w|;
    }
  }

  /** A run of a run of v is a run of v. */
  lemma SliceOfSlice(v: string, a: nat, b: nat, c: nat, d: nat)
    requires a <= b <= |v| && c <= d <= b - a
    ensures v[a..b][c..d] == v[a + c..a + d]
  {
    assert forall k :: 0 <= k < d - c ==> v[a..b][c..d][k] == v[a + c..a + d][k];
  }

  /** One turn applied to a run of v leaves a run of v. */
  lemma StripMarkerOfSlice(v: string, a: nat, b: nat, q: char) returns (a': nat, b': nat)
    requires a <= b <= |v|
    ensures a <= a' <= b' <= b && StripMarker(v[a..b], q) == v[a'..b']
  {
    var w := v[a..b];
    var c, d := StripMarkerIsSlice(w, q);
    SliceOfSlice(v, a, b, c, d);
    a', b' := a + c, a + d;
    assert StripMarker(w, q) == w[c..d] == v[a'..b'];
  }

  /** Each turn of the loop keeps a contiguous run of its input, here the run v[lo..hi]. */
  lemma {:induction false} StripMarkersIsSlice(v: string, lo: nat, hi: nat, qs: seq<char>) returns (a: nat, b: nat)
    requires lo <= hi <= |v|
    ensures lo <= a <= b <= hi && StripMarkers(v[lo..hi], qs) == v[a..b]
    decreases |qs|
  {
    if qs == [] {
      a, b := lo, hi;
    } else {
      var a', b' := StripMarkersIsSlice(v, lo, hi, qs[..|qs| - 1]);
      a, b := StripMarkerOfSlice(v, a', b', qs[|qs| - 1]);
    }
  }

  /** TrimQuote returns a contiguous run of its input, never a longer string. */
  lemma UnquotedIsSlice(s: string) returns (i: nat, j: nat)
    ensures i <= j <= |s| && Unquoted(s) == s[i..j]
  {
    var i', j' := TrimSpaceIsSlice(s);
    i, j := StripMarkersIsSlice(s, i', j', Markers);
  }

  /** A lone marker, with or without white space around it, unquotes to the empty string. */
  lemma UnquotedLoneMarker(s: string, q: char)
    requires q in Markers
    requires TrimSpace(s) == [q]
    ensures Unquoted(s) == []
  {
    StripMarkersInOrder([q]);
  }

  /** A marker does not survive the turn that strips it unless it is in the text. */
  lemma StripMarkerKeepsPlain(v: string, q: char)
    requires q !in v
    ensures StripMarker(v, q) == v
  {
  }

  /** Marker-free text is only trimmed. */
  lemma UnquotedOfPlain(s: string)
    requires HasNoMarker(s)
    ensures Unquoted(s) == TrimSpace(s)
  {
    var i, j := TrimSpaceIsSlice(s);
    var t := TrimSpace(s);
    assert HasNoMarker(t) by {
      forall k | 0 <= k < |t|
        ensures t[k] != DQ && t[k] != SQ && t[k] != BQ
      {
        assert t[k] == s[i + k];
      }
    }
    StripMarkersInOrder(t);
  }

  /** The turn for q removes one q from each end of a text wrapped in q. */
  lemma StripPair(q: char, t: string)
    ensures StripMarker([q] + t + [q], q) == t
  {
    var v := [q] + t + [q];
    assert [q] + StripMarker(v, q) + [q] == v;
    assert StripMarker(v, q) == v[1..|v| - 1];
    assert v[1..|v| - 1] == t;
  }

  /** One pair of markers around trimmed, marker-free text is removed, whichever marker it is. */
  lemma UnquotedQuoted(q: char, t: string)
    requires q in Markers
    requires HasNoMarker(t)
    requires t == [] || (!IsSpace(t[0]) && !IsSpace(t[|t| - 1]))
    ensures Unquoted([q] + t + [q]) == t
  {
    var v := [q] + t + [q];
    assert v[0] == q && v[|v| - 1] == q;
    TrimSpaceOfTrimmed(v);
    StripMarkersInOrder(v);
    StripPair(q, t);
    if q == DQ {
      StripMarkerKeepsPlain(t, SQ);
      StripMarkerKeepsPlain(t, BQ);
    } else if q == SQ {
      assert StripMarker(v, DQ) == v;
      StripMarkerKeepsPlain(t, BQ);
    } else {
      assert StripMarker(v, DQ) == v;
      assert StripMarker(v, SQ) == v;
    }
  }

  // ---------------------------------------------------------------------
  // Opening and closing a quote
  // ---------------------------------------------------------------------

  /** A fragment opens a quote with q exactly when it does not end with q and
      either starts with q or starts with a dash and holds q somewhere. */
  lemma OpensIff(v: string, q: char)
    ensures EnteringHelper(v, q) <==>
      v != [] && v[|v| - 1] != q && (v[0] == q || (v[0] == Dash && q in v))
  {
    if v != [] && v[0] == q {
      assert q in v;
    }
  }

  /** A fragment that starts and ends with the same marker opens no quote. */
  lemma SelfQuotedNeverOpens(v: string, q: char)
    requires q in Markers
    requires v != [] && v[0] == q && v[|v| - 1] == q
    ensures Entering(v) == NoQuote
  {
  }

  /** Outside a quote, a fragment like '/some/path' is emitted with its markers stripped. */
  lemma SelfQuotedOutsideQuote(m: Machine, v: string, q: char)
    requires q in Markers
    requires v != [] && v[0] == q && v[|v| - 1] == q
    requires m.inQ == NoQuote
    ensures Step(m, v) == Machine(AppendIt(m.result, v), m.buffer, NoQuote)
  {
    SelfQuotedNeverOpens(v, q);
  }

  /** Inside any quote, a fragment like '/some/path' is added to the buffer and closes nothing. */
  lemma SelfQuotedInsideQuote(m: Machine, v: string, q: char)
    requires q in Markers
    requires v != [] && v[0] == q && v[|v| - 1] == q
    requires m.inQ.Quoted?
    ensures Step(m, v) == Machine(m.result, m.buffer + [Space] + v, m.inQ)
  {
  }

  /** Inside a quote opened with q, a fragment closes it exactly when it ends
      with q and does not start with q; the closing fragment completes the
      buffer as one token, any other fragment is added to the buffer. */
  lemma StepInQuote(m: Machine, v: string)
    requires m.inQ.Quoted?
    ensures var q := m.inQ.marker;
      Step(m, v).inQ == NoQuote <==> v != [] && v[|v| - 1] == q && v[0] != q
    ensures Step(m, v).inQ == NoQuote ==>
      Step(m, v) == Machine(AppendIt(m.result, m.buffer + [Space] + v), [], NoQuote)
    ensures Step(m, v).inQ != NoQuote ==>
      Step(m, v) == Machine(m.result, m.buffer + [Space] + v, m.inQ)
  {
  }

  /** A fragment that ends with a marker other than the open one does not close the quote. */
  lemma OtherMarkerDoesNotClose(m: Machine, v: string)
    requires m.inQ.Quoted?
    requires v != [] && v[|v| - 1] in Markers && v[|v| - 1] != m.inQ.marker
    ensures Step(m, v).inQ == m.inQ
  {
    StepInQuote(m, v);
  }

  /** Outside a quote, a fragment that opens one starts a buffer holding a space and the fragment. */
  lemma StepOutsideQuote(m: Machine, v: string)
    requires Valid(m) && m.inQ == NoQuote
    ensures Step(m, v).inQ == Entering(v)
    ensures Entering(v).Quoted? ==> Step(m, v) == Machine(m.result, [Space] + v, Entering(v))
    ensures Entering(v) == NoQuote ==> Step(m, v) == Machine(AppendIt(m.result, v), [], NoQuote)
  {
    assert m.buffer + [Space] + v == [Space] + v;
  }

  /** A fragment that does not start with a marker keeps every quote in it,
      as --comment="done" does. */
  lemma UnquotedKeepsInnerQuotes(s: string)
    requires s != [] && !IsSpace(s[0]) && !IsSpace(s[|s| - 1])
    requires s[0] !in Markers
    ensures Unquoted(s) == s
  {
    TrimSpaceOfTrimmed(s);
    StripMarkersInOrder(s);
  }

  // ---------------------------------------------------------------------
  // Quoted values
  // ---------------------------------------------------------------------

  /** Outside a quote, a fragment that opens none is a token of its own. */
  lemma ScanSingle(v: string, rest: seq<string>)
    requires Entering(v) == NoQuote
    ensures Scan([v] + rest) == AppendIt([], v) + Scan(rest)
  {
    ScanEmits([v] + rest);
    assert ([v] + rest)[1..] == rest;
  }

  /** The fragments of a quoted value of several words: the opening marker
      comes after head (empty, or an option such as --name=) in front of the
      first word, the closing marker after the last word. */
  function QuotedGroup(head: string, q: char, words: seq<string>): (r: seq<string>)
    requires |words| >= 2
    ensures |r| == |words|
  {
    [head + [q] + words[0]] + words[1..|words| - 1] + [words[|words| - 1] + [q]]
  }

  /** Text that can start or end a quoted value: not empty, without a marker,
      without white space at either end. */
  predicate Word(w: string) {
    w != [] && HasNoMarker(w) && !IsSpace(w[0]) && !IsSpace(w[|w| - 1])
  }

  /** The fragment the quote opens with: the marker and the first word after head. */
  lemma OpensQuotedGroup(head: string, q: char, w: string)
    requires q in Markers
    requires head == [] || (head[0] == Dash && HasNoMarker(head))
    requires Word(w)
    ensures Entering(head + [q] + w) == Quoted(q)
  {
    var v := head + [q] + w;
    assert v[|v| - 1] == w[|w| - 1];
    assert v[|head|] == q;
    assert v[0] == q || v[0] == Dash;
    forall p | p in Markers && p != q
      ensures p !in v
    {
    }
    OpensIff(v, DQ);
    OpensIff(v, SQ);
    OpensIff(v, BQ);
  }

  /** The first fragment that closes q, found by looking at every one before it. */
  lemma {:induction false} FirstExitIs(frags: seq<string>, q: char, k: nat)
    requires k < |frags|
    requires forall j :: 0 <= j < k ==> !ExitingHelper(frags[j], q)
    requires ExitingHelper(frags[k], q)
    ensures FirstExit(frags, q) == k
    decreases k
  {
    if k > 0 {
      FirstExitIs(frags[1..], q, k - 1);
    }
  }

  /** The fragments of a quoted value inside the fragment list. */
  lemma QuotedGroupCloses(head: string, q: char, words: seq<string>, rest: seq<string>)
    requires q in Markers
    requires |words| >= 2
    requires forall i :: 0 <= i < |words| ==> HasNoMarker(words[i])
    requires Word(words[|words| - 1])
    ensures var frags := QuotedGroup(head, q, words) + rest;
      FirstExit(frags[1..], q) == |words| - 2
  {
    var n := |words|;
    var frags := QuotedGroup(head, q, words) + rest;
    var tail := frags[1..];
    forall j | 0 <= j < n - 2
      ensures !ExitingHelper(tail[j], q)
    {
      assert tail[j] == words[j + 1];
    }
    assert tail[n - 2] == words[n - 1] + [q];
    FirstExitIs(tail, q, n - 2);
  }

  /** The token a quoted value becomes: the words joined with single spaces,
      and, when the quote opened after an option, the option and both markers. */
  function ValueToken(head: string, q: char, words: seq<string>): string {
    if head == [] then Join(words, [Space]) else head + [q] + Join(words, [Space]) + [q]
  }

  /** The words joined with single spaces start with the first word's first
      character, end with the last word's last character, and hold no marker. */
  lemma JoinedWords(words: seq<string>)
    requires |words| >= 2
    requires forall i :: 0 <= i < |words| ==> HasNoMarker(words[i])
    requires Word(words[0]) && Word(words[|words| - 1])
    ensures Word(Join(words, [Space]))
  {
    JoinStarts(words, [Space]);
    JoinEnds(words, [Space]);
    JoinAvoids(words, [Space], DQ);
    JoinAvoids(words, [Space], SQ);
    JoinAvoids(words, [Space], BQ);
  }

  /** Joining and unquoting the fragments of a quoted value gives its token. */
  lemma ValueUnquoted(head: string, q: char, words: seq<string>)
    requires q in Markers
    requires head == [] || (head[0] == Dash && HasNoMarker(head))
    requires |words| >= 2
    requires forall i :: 0 <= i < |words| ==> HasNoMarker(words[i])
    requires Word(words[0]) && Word(words[|words| - 1])
    ensures Unquoted(Join(QuotedGroup(head, q, words), [Space])) == ValueToken(head, q, words) != []
  {
    var joined := Join(words, [Space]);
    JoinWrapped(words, head + [q], [q], [Space]);
    JoinedWords(words);
    if head == [] {
      assert head + [q] + joined + [q] == [q] + joined + [q];
      UnquotedQuoted(q, joined);
    } else {
      UnquotedKeepsInnerQuotes(head + [q] + joined + [q]);
    }
  }

  /** A quoted value of several words is one token: the words joined with
      single spaces, without the markers when the marker opens the fragment,
      with them when it follows an option such as --name=. */
  lemma ScanQuotedValue(head: string, q: char, words: seq<string>, rest: seq<string>)
    requires q in Markers
    requires head == [] || (head[0] == Dash && HasNoMarker(head))
    requires |words| >= 2
    requires forall i :: 0 <= i < |words| ==> HasNoMarker(words[i])
    requires Word(words[0]) && Word(words[|words| - 1])
    ensures Scan(QuotedGroup(head, q, words) + rest) == [ValueToken(head, q, words)] + Scan(rest)
  {
    var n := |words|;
    var group := QuotedGroup(head, q, words);
    var frags := group + rest;
    OpensQuotedGroup(head, q, words[0]);
    QuotedGroupCloses(head, q, words, rest);
    ScanGroups(frags, q, n - 1);
    assert frags[..n] == group;
    assert frags[n..] == rest;
    ValueUnquoted(head, q, words);
  }

  // ---------------------------------------------------------------------
  // Unterminated quotes
  // ---------------------------------------------------------------------

  /** A quote that opens at the front and is never closed yields no token at all. */
  lemma ScanDropsOpenQuote(frags: seq<string>, q: char)
    requires frags != [] && Entering(frags[0]) == Quoted(q)
    requires forall j :: 1 <= j < |frags| ==> !ExitingHelper(frags[j], q)
    ensures Scan(frags) == []
  {
    var rest := frags[1..];
    forall j | 0 <= j < |rest|
      ensures !ExitingHelper(rest[j], q)
    {
      assert rest[j] == frags[j + 1];
    }
    assert GroupLength(frags) == 0;
  }

  // ---------------------------------------------------------------------
  // Lines
  // ---------------------------------------------------------------------

  /** Searching past a prefix that lacks c. */
  lemma {:induction false} IndexOfAfter(x: string, y: string, c: char)
    requires c !in x
    ensures IndexOf(x + y, c) == |x| + IndexOf(y, c)
    decreases |x|
  {
    if x == [] {
      assert x + y == y;
    } else {
      assert (x + y)[0] == x[0];
      assert (x + y)[1..] == x[1..] + y;
      IndexOfAfter(x[1..], y, c);
    }
  }

  /** Input without a line feed is one line, and sanitizing leaves it as it is. */
  lemma SanitizeOneLine(s: string)
    requires '\n' !in s
    ensures s != [] ==> Lines(s) == [s]
    ensures Join(Lines(s), [Space]) == s
  {
    if s != [] {
      ReadLineEndsAtLineFeed(s);
      assert s[|s|..] == [];
    }
  }

  /** The first line of a text that has a line break after x is x. */
  lemma ReadFirstLine(x: string, nl: string, rest: string)
    requires nl == "\n" || nl == "\r\n"
    requires '\n' !in x
    requires nl == "\n" ==> x == [] || x[|x| - 1] != '\r'
    ensures ReadLine(x + nl + rest) == Line(x, |x| + |nl|)
  {
    var s := x + nl + rest;
    assert s == x + (nl + rest);
    IndexOfAfter(x, nl + rest, '\n');
    if nl == "\n" {
      assert IndexOf(nl + rest, '\n') == 0;
      assert s[..|x|] == x;
    } else {
      assert (nl + rest)[1..] == "\n" + rest;
      assert IndexOf(nl + rest, '\n') == 1;
      assert s[..|x| + 1] == x + "\r";
      assert (x + "\r")[..|x|] == x;
    }
  }

  /** Lines undoes the joining of lines with a line feed or a carriage return
      and line feed, as long as no line holds a line feed, the last line is not
      empty and, with a bare line feed, no earlier line ends with a carriage
      return (which would be taken for part of the separator). */
  lemma {:induction false} LinesOfJoin(lines: seq<string>, nl: string)
    requires nl == "\n" || nl == "\r\n"
    requires forall i :: 0 <= i < |lines| ==> '\n' !in lines[i]
    requires nl == "\n" ==> forall i :: 0 <= i < |lines| - 1 ==> lines[i] == [] || lines[i][|lines[i]| - 1] != '\r'
    requires lines == [] || lines[|lines| - 1] != []
    ensures Lines(Join(lines, nl)) == lines
    decreases |lines|
  {
    if |lines| == 1 {
      SanitizeOneLine(lines[0]);
    } else if |lines| > 1 {
      var x := lines[0];
      var rest := Join(lines[1..], nl);
      ReadFirstLine(x, nl, rest);
      LinesUnfold(x + nl + rest);
      assert (x + nl + rest)[|x| + |nl|..] == rest;
      LinesOfJoin(lines[1..], nl);
      assert [x] + lines[1..] == lines;
    }
  }

  /** Each line is followed by its own line break, a line feed or a carriage
      return and line feed, and no line holds a line feed; a line followed by
      a bare line feed does not end with a carriage return (which would be
      taken for part of the break). */
  predicate LineBreaks(lines: seq<string>, breaks: seq<string>) {
    && |breaks| == |lines|
    && forall i :: 0 <= i < |lines| ==>
      && (breaks[i] == "\n" || breaks[i] == "\r\n")
      && '\n' !in lines[i]
      && (breaks[i] == "\n" ==> lines[i] == [] || lines[i][|lines[i]| - 1] != '\r')
  }

  /** The text of lines, each followed by its own line break. */
  function LineText(lines: seq<string>, breaks: seq<string>): string
    requires |breaks| == |lines|
    decreases |lines|
  {
    if lines == [] then [] else lines[0] + breaks[0] + LineText(lines[1..], breaks[1..])
  }

  /** A terminated line is read off the front of whatever follows it. */
  lemma LinesOfTerminated(x: string, nl: string, after: string)
    requires nl == "\n" || nl == "\r\n"
    requires '\n' !in x
    requires nl == "\n" ==> x == [] || x[|x| - 1] != '\r'
    ensures Lines(x + nl + after) == [x] + Lines(after)
  {
    ReadFirstLine(x, nl, after);
    LinesUnfold(x + nl + after);
    assert (x + nl + after)[|x| + |nl|..] == after;
  }

  /** The lines after the first keep their breaks. */
  lemma LineBreaksTail(lines: seq<string>, breaks: seq<string>)
    requires LineBreaks(lines, breaks) && lines != []
    ensures LineBreaks(lines[1..], breaks[1..])
  {
    forall i | 0 <= i < |lines| - 1
      ensures lines[1..][i] == lines[i + 1] && breaks[1..][i] == breaks[i + 1]
    {
    }
  }

  /** A non-empty list is its head before its tail, whatever follows it. */
  lemma ConsTail<T>(xs: seq<T>, ys: seq<T>)
    requires xs != []
    ensures [xs[0]] + (xs[1..] + ys) == xs + ys
  {
    assert xs == [xs[0]] + xs[1..];
  }

  /** The lines of a text made of terminated lines, whatever follows them,
      are those lines and then the lines of what follows. */
  lemma {:induction false} LinesOfLineText(lines: seq<string>, breaks: seq<string>, rest: string)
    requires LineBreaks(lines, breaks)
    ensures Lines(LineText(lines, breaks) + rest) == lines + Lines(rest)
    decreases |lines|
  {
    if lines == [] {
      assert LineText(lines, breaks) + rest == rest;
    } else {
      var after := LineText(lines[1..], breaks[1..]) + rest;
      assert LineText(lines, breaks) + rest == lines[0] + breaks[0] + after;
      LinesOfTerminated(lines[0], breaks[0], after);
      LineBreaksTail(lines, breaks);
      LinesOfLineText(lines[1..], breaks[1..], rest);
      ConsTail(lines, Lines(rest));
    }
  }

  /** A multi-line input, with any mix of line feeds and carriage return and
      line feed pairs, is read as the one-line input that has a single space
      between its lines: a break that ends the input adds nothing, and an
      unterminated last line is the last line. */
  lemma MultiLineAsOneLine(lines: seq<string>, breaks: seq<string>, last: string)
    requires LineBreaks(lines, breaks)
    requires '\n' !in last
    ensures last == [] ==> Fragments(LineText(lines, breaks)) == Split(Join(lines, [Space]), Space)
    ensures last == [] ==> Tokens(LineText(lines, breaks)) == Tokens(Join(lines, [Space]))
    ensures last != [] ==> Fragments(LineText(lines, breaks) + last) == Split(Join(lines + [last], [Space]), Space)
    ensures last != [] ==> Tokens(LineText(lines, breaks) + last) == Tokens(Join(lines + [last], [Space]))
  {
    LinesOfLineText(lines, breaks, last);
    if last == [] {
      assert LineText(lines, breaks) + last == LineText(lines, breaks);
      assert lines + [] == lines;
      JoinAvoids(lines, [Space], '\n');
      SanitizeOneLine(Join(lines, [Space]));
    } else {
      SanitizeOneLine(last);
      var all := lines + [last];
      assert forall i :: 0 <= i < |all| ==> '\n' !in all[i] by {
        forall i | 0 <= i < |all|
          ensures '\n' !in all[i]
        {
          if i < |lines| { assert all[i] == lines[i]; }
        }
      }
      JoinAvoids(all, [Space], '\n');
      SanitizeOneLine(Join(all, [Space]));
    }
  }

  /** A line break at the end of one-line input changes nothing. */
  lemma TrailingLineBreak(s: string, nl: string)
    requires nl == "\n" || nl == "\r\n"
    requires '\n' !in s
    requires nl == "\n" ==> s == [] || s[|s| - 1] != '\r'
    ensures Tokens(s + nl) == Tokens(s)
  {
    assert LineBreaks([s], [nl]);
    assert LineText([s], [nl]) == s + nl by {
      assert LineText([s][1..], [nl][1..]) == [];
    }
    MultiLineAsOneLine([s], [nl], []);
  }

  // ---------------------------------------------------------------------
  // Input without quotes
  // ---------------------------------------------------------------------

  /** The trimmed fragments, empty ones dropped, in order. */
  function Words(frags: seq<string>): (r: seq<string>)
    ensures |r| <= |frags|
    decreases |frags|
  {
    if frags == [] then []
    else
      var w := TrimSpace(frags[0]);
      (if w == [] then [] else [w]) + Words(frags[1..])
  }

  /** A fragment without a marker opens no quote. */
  lemma PlainOpensNothing(v: string)
    requires HasNoMarker(v)
    ensures Entering(v) == NoQuote
  {
    OpensIff(v, DQ);
    OpensIff(v, SQ);
    OpensIff(v, BQ);
  }

  /** Without markers no fragment opens a quote, and every fragment is a token of its own. */
  lemma {:induction false} ScanPlain(frags: seq<string>)
    requires forall i :: 0 <= i < |frags| ==> HasNoMarker(frags[i])
    ensures Scan(frags) == Words(frags)
    decreases |frags|
  {
    if frags != [] {
      var v := frags[0];
      PlainOpensNothing(v);
      ScanEmits(frags);
      UnquotedOfPlain(v);
      ScanPlain(frags[1..]);
    }
  }

  /** One-line input made of fragments joined with single spaces is read
      fragment list first: its tokens are those of the group-by-group reading. */
  lemma TokensOfJoin(frags: seq<string>)
    requires |frags| >= 1
    requires forall i :: 0 <= i < |frags| ==> Space !in frags[i] && '\n' !in frags[i]
    ensures Tokens(Join(frags, [Space])) == Scan(frags)
  {
    JoinAvoids(frags, [Space], '\n');
    SanitizeOneLine(Join(frags, [Space]));
    SplitJoin(frags, Space);
  }

  /** The fragments of a text inherit the text's lack of markers. */
  lemma SplitKeepsPlain(s: string, sep: char)
    requires HasNoMarker(s)
    ensures forall i :: 0 <= i < |Split(s, sep)| ==> HasNoMarker(Split(s, sep)[i])
  {
    SplitAvoids(s, sep, DQ);
    SplitAvoids(s, sep, SQ);
    SplitAvoids(s, sep, BQ);
  }

  /** One-line input without quote markers yields the trimmed, non-empty
      pieces between the spaces, in order. */
  lemma PlainTokens(s: string)
    requires '\n' !in s
    requires HasNoMarker(s)
    ensures Tokens(s) == Words(Split(s, Space))
  {
    SanitizeOneLine(s);
    SplitKeepsPlain(s, Space);
    ScanPlain(Split(s, Space));
  }
}
