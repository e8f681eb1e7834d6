/**
  The quote-aware argument tokenizer of confu: a free-form, possibly
  multi-line configuration text becomes the argument list a flag parser
  expects. Line breaks are replaced by single spaces, the line is split on
  the space character, and a small state machine glues the fragments of a
  quoted value back into one token.
*/
module Confu {
  import opened Strings

  const Space: char := ' '
  const Dash: char := '-'
  const DQ: char := '"'
  const SQ: char := '\''
  const BQ: char := '`'

  /** The quote markers, in the order both TrimQuote and Entering try them. */
  const Markers: seq<char> := [DQ, SQ, BQ]

  /** Which quote, if any, the scan is inside (weAreInQ). */
  datatype Quote = NoQuote | Quoted(marker: char)

  // ---------------------------------------------------------------------
  // Quote transitions
  // ---------------------------------------------------------------------

  /** enteringHelper: does fragment v open a quote with marker q? */
  function EnteringHelper(v: string, q: char): (r: bool)
    ensures r ==> q in v && v[|v| - 1] != q
    ensures r ==> v[0] == q || v[0] == Dash
    ensures HasPrefix(v, [q]) && !HasSuffix(v, [q]) ==> r
  {
    || (HasPrefix(v, [q]) && !HasSuffix(v, [q]))
    || (HasPrefix(v, [Dash]) && Contains(v, q) && !HasSuffix(v, [q]))
  }

  /** entering: the first marker, in the order of Markers, that v opens. */
  function Entering(v: string): (r: Quote)
    ensures r.Quoted? ==> r.marker in Markers && EnteringHelper(v, r.marker)
  {
    if EnteringHelper(v, DQ) then Quoted(DQ)
    else if EnteringHelper(v, SQ) then Quoted(SQ)
    else if EnteringHelper(v, BQ) then Quoted(BQ)
    else NoQuote
  }

  /** Entering opens a quote exactly when some marker does, and then with the
      first such marker in the order of Markers. */
  lemma EnteringPicksFirst(v: string)
    ensures Entering(v) == NoQuote <==> forall i :: 0 <= i < |Markers| ==> !EnteringHelper(v, Markers[i])
    ensures forall i, j :: 0 <= i < j < |Markers| && Entering(v) == Quoted(Markers[j]) ==> !EnteringHelper(v, Markers[i])
  {
    assert Markers[0] == DQ && Markers[1] == SQ && Markers[2] == BQ;
  }

  /** exitingHelper: does fragment v close a quote opened with marker q? */
  function ExitingHelper(v: string, q: char): (r: bool)
    ensures r <==> v != [] && v[|v| - 1] == q && v[0] != q
  {
    !HasPrefix(v, [q]) && HasSuffix(v, [q])
  }

  /** exiting: only an open quote can be closed. */
  function Exiting(v: string, q: Quote): (r: bool)
    ensures r <==> q.Quoted? && v != [] && v[|v| - 1] == q.marker && v[0] != q.marker
  {
    if q == NoQuote then false else ExitingHelper(v, q.marker)
  }

  // ---------------------------------------------------------------------
  // TrimQuote and appendIt
  // ---------------------------------------------------------------------

  /** One turn of TrimQuote's loop: drop one q from each end of v when v starts and ends with q. */
  function StripMarker(v: string, q: char): (r: string)
    ensures |v| >= 2 && v[0] == q && v[|v| - 1] == q ==> [q] + r + [q] == v
    ensures v == [q] ==> r == []
    ensures !(v != [] && v[0] == q && v[|v| - 1] == q) ==> r == v
  {
    if HasPrefix(v, [q]) && HasSuffix(v, [q]) then TrimSuffix(TrimPrefix(v, [q]), [q]) else v
  }

  /** The turns of TrimQuote's loop for the markers qs, in order. */
  function StripMarkers(v: string, qs: seq<char>): (r: string)
    ensures |r| <= |v|
    decreases |qs|
  {
    if qs == [] then v else StripMarker(StripMarkers(v, qs[..|qs| - 1]), qs[|qs| - 1])
  }

  /** The value TrimQuote returns: the trimmed text, with each marker pair it is wrapped in removed. */
  function Unquoted(s: string): (r: string)
    ensures |r| <= |s|
  {
    StripMarkers(TrimSpace(s), Markers)
  }

  /** TrimQuote: trim the white space, then for each marker in turn drop a surrounding pair. */
  method TrimQuote(s: string) returns (vstr: string)
    ensures vstr == Unquoted(s)
    ensures |vstr| <= |s|
  {
    vstr := TrimSpace(s);
    var qlist := Markers;
    for i := 0 to |qlist|
      invariant vstr == StripMarkers(TrimSpace(s), qlist[..i])
    {
      var vq := [qlist[i]];
      assert qlist[..i + 1][..i] == qlist[..i];
      if HasPrefix(vstr, vq) && HasSuffix(vstr, vq) {
        vstr := TrimPrefix(vstr, vq);
        vstr := TrimSuffix(vstr, vq);
      }
    }
    assert qlist[..|qlist|] == Markers;
  }

  /** appendIt: add the unquoted s to slist, unless it is empty. */
  function AppendIt(slist: seq<string>, s: string): (r: seq<string>)
    ensures |slist| <= |r| <= |slist| + 1 && r[..|slist|] == slist
    ensures |r| == |slist| + 1 <==> Unquoted(s) != []
    ensures |r| == |slist| + 1 ==> r[|slist|] == Unquoted(s)
  {
    var vstr := Unquoted(s);
    if |vstr| == 0 then slist else slist + [vstr]
  }

  // ---------------------------------------------------------------------
  // sanitizeLines
  // ---------------------------------------------------------------------

  /** What one call of bufio.Reader.ReadLine yields on the unread input. */
  datatype LineRead = Eof | Line(text: string, consumed: nat)

  /** ReadLine on the unread input rest: the line up to the next line feed,
      without the line feed and one carriage return before it; a last line
      with no line feed is returned whole. */
  function ReadLine(rest: string): (r: LineRead)
    ensures r.Eof? <==> rest == []
    ensures r.Line? ==> 0 < r.consumed <= |rest| && '\n' !in r.text
  {
    if rest == [] then Eof
    else
      var k := IndexOf(rest, '\n');
      if k == |rest| then Line(rest, k)
      else
        var line := rest[..k];
        if |line| > 0 && line[|line| - 1] == '\r' then
          Line(line[..|line| - 1], k + 1)
        else Line(line, k + 1)
  }

  /** A line ends at the first line feed, which it does not contain, and loses
      one carriage return before it; a last line without a line feed is the
      whole rest of the input. */
  lemma ReadLineEndsAtLineFeed(rest: string)
    requires rest != []
    ensures var r := ReadLine(rest);
      && ('\n' !in rest ==> r.text == rest && r.consumed == |rest|)
      && ('\n' in rest ==>
        && rest[r.consumed - 1] == '\n'
        && '\n' !in rest[..r.consumed - 1]
        && (rest[..r.consumed - 1] == r.text + "\r" || rest[..r.consumed - 1] == r.text)
        && (rest[..r.consumed - 1] == r.text ==> r.text == [] || r.text[|r.text| - 1] != '\r'))
  {
    var k := IndexOf(rest, '\n');
    var line := rest[..k];
    if k < |rest| && |line| > 0 && line[|line| - 1] == '\r' {
      assert line == line[..|line| - 1] + "\r";
    }
  }

  /** The lines ReadLine yields, one after the other, until the end of the input. */
  function Lines(s: string): (r: seq<string>)
    ensures forall i :: 0 <= i < |r| ==> '\n' !in r[i]
    ensures |r| <= |s|
    decreases |s|
  {
    match ReadLine(s)
    case Eof => []
    case Line(text, n) => [text] + Lines(s[n..])
  }

  /** Lines reads one line, then the lines of what follows it. */
  lemma LinesUnfold(s: string)
    requires s != []
    ensures Lines(s) == [ReadLine(s).text] + Lines(s[ReadLine(s).consumed..])
  {
  }

  /** No line feed survives the joining of the lines. */
  lemma SanitizedHasNoLineFeed(s: string)
    ensures '\n' !in Join(Lines(s), [Space])
  {
    JoinAvoids(Lines(s), [Space], '\n');
  }

  /** sanitizeLines: read the input line by line and join the lines with single spaces. */
  method SanitizeLines(s: string) returns (r: string)
    ensures r == Join(Lines(s), [Space])
    ensures '\n' !in r
  {
    var lines: seq<string> := [];
    var unread := s;
    while true
      invariant lines + Lines(unread) == Lines(s)
      decreases |unread|
    {
      var line := ReadLine(unread);
      if line.Eof? {
        break;
      }
      LinesUnfold(unread);
      assert (lines + [line.text]) + Lines(unread[line.consumed..]) == lines + Lines(unread);
      lines := lines + [line.text];
      unread := unread[line.consumed..];
    }
    assert lines + [] == lines;
    r := Join(lines, [Space]);
    SanitizedHasNoLineFeed(s);
  }

  // ---------------------------------------------------------------------
  // Tokenize: the state machine
  // ---------------------------------------------------------------------

  /** The variables of Tokenize's loop: result, buffer and weAreInQ. */
  datatype Machine = Machine(result: seq<string>, buffer: string, inQ: Quote)

  const Initial: Machine := Machine([], [], NoQuote)

  /** What holds of the loop variables between two fragments. */
  ghost predicate Valid(m: Machine) {
    && (m.inQ == NoQuote ==> m.buffer == [])
    && (m.inQ.Quoted? ==> m.inQ.marker in Markers && m.buffer != [] && m.buffer[0] == Space)
    && forall i :: 0 <= i < |m.result| ==> m.result[i] != []
  }

  /** One turn of Tokenize's loop on fragment v: it emits at most one token,
      keeps the tokens already emitted, and keeps the loop invariant. */
  function Step(m: Machine, v: string): (r: Machine)
    ensures |m.result| <= |r.result| <= |m.result| + 1 && r.result[..|m.result|] == m.result
    ensures Valid(m) ==> Valid(r)
  {
    var eq := Entering(v);
    if m.inQ == NoQuote && eq != NoQuote then
      Machine(m.result, m.buffer + [Space] + v, eq)
    else if m.inQ != NoQuote && Exiting(v, m.inQ) then
      Machine(AppendIt(m.result, m.buffer + [Space] + v), [], NoQuote)
    else if m.inQ != NoQuote then
      Machine(m.result, m.buffer + [Space] + v, m.inQ)
    else
      Machine(AppendIt(m.result, v), m.buffer, m.inQ)
  }

  /** The loop run over the fragments frags, starting from m: tokens once
      emitted are never taken back, and the loop invariant holds after any
      number of turns. */
  function Run(m: Machine, frags: seq<string>): (r: Machine)
    ensures |m.result| <= |r.result| && r.result[..|m.result|] == m.result
    ensures Valid(m) ==> Valid(r)
    decreases |frags|
  {
    if frags == [] then m
    else
      var m' := Step(m, frags[0]);
      var r := Run(m', frags[1..]);
      assert r.result[..|m'.result|][..|m.result|] == r.result[..|m.result|];
      r
  }

  /** The fragments Tokenize walks over: the sanitized text split on the space
      character. They join back to that text, and none holds a space or a line feed. */
  function Fragments(s: string): (r: seq<string>)
    ensures |r| >= 1 && Join(r, [Space]) == Join(Lines(s), [Space])
    ensures forall i :: 0 <= i < |r| ==> Space !in r[i] && '\n' !in r[i]
  {
    SanitizedHasNoLineFeed(s);
    SplitAvoids(Join(Lines(s), [Space]), Space, '\n');
    Split(Join(Lines(s), [Space]), Space)
  }

  // ---------------------------------------------------------------------
  // Tokenize: reference definition, group by group
  // ---------------------------------------------------------------------

  /** The index of the first fragment that closes a quote opened with q, or |frags| if none does. */
  function FirstExit(frags: seq<string>, q: char): (k: nat)
    ensures k <= |frags|
    ensures forall j :: 0 <= j < k ==> !ExitingHelper(frags[j], q)
    ensures k < |frags| ==> ExitingHelper(frags[k], q)
    decreases |frags|
  {
    if frags == [] then 0 else if ExitingHelper(frags[0], q) then 0 else 1 + FirstExit(frags[1..], q)
  }

  /** How many fragments the token at the front of frags spans: one for a
      fragment that opens no quote; for one that opens a quote, every fragment
      up to the first that closes it; none when the quote is never closed. */
  function GroupLength(frags: seq<string>): (n: nat)
    requires frags != []
    ensures n <= |frags|
    ensures Entering(frags[0]) == NoQuote ==> n == 1
    ensures Entering(frags[0]).Quoted? && n > 0 ==> n >= 2 && ExitingHelper(frags[n - 1], Entering(frags[0]).marker)
  {
    match Entering(frags[0])
    case NoQuote => 1
    case Quoted(q) =>
      var k := 1 + FirstExit(frags[1..], q);
      if k == |frags| then 0 else k + 1
  }

  /** The tokens of a fragment list, read from the front, one group at a time:
      the fragments of a group, joined with single spaces, unquoted, are one
      token, dropped when empty; a quote still open at the end yields nothing. */
  function Scan(frags: seq<string>): (r: seq<string>)
    ensures |r| <= |frags|
    ensures forall i :: 0 <= i < |r| ==> r[i] != []
    decreases |frags|
  {
    if frags == [] then []
    else
      var n := GroupLength(frags);
      if n == 0 then []
      else AppendIt([], Join(frags[..n], [Space])) + Scan(frags[n..])
  }

  /** What Tokenize returns for the input s. */
  function Tokens(s: string): (r: seq<string>)
    ensures forall i :: 0 <= i < |r| ==> r[i] != []
  {
    Scan(Fragments(s))
  }

  /** Appending a token to a list is appending the one-token list. */
  lemma AppendItAppends(slist: seq<string>, s: string)
    ensures AppendIt(slist, s) == slist + AppendIt([], s)
  {
  }

  /** The space that starts a quote buffer never reaches the token. */
  lemma AppendItLeadingSpace(slist: seq<string>, s: string)
    ensures AppendIt(slist, [Space] + s) == slist + AppendIt([], s)
  {
    TrimSpaceSkipsLeadingSpace(Space, s);
  }

  /** Concatenation regroups freely; named so that calc steps can cite it. */
  lemma ConcatAssoc<T>(a: seq<T>, b: seq<T>, c: seq<T>)
    ensures (a + b) + c == a + (b + c)
  {
  }

  /** Outside a quote, a fragment that opens none is emitted on its own. */
  lemma StepEmits(m: Machine, v: string)
    requires m.inQ == NoQuote && Entering(v) == NoQuote
    ensures Step(m, v) == Machine(AppendIt(m.result, v), m.buffer, NoQuote)
  {
  }

  /** Outside a quote, a fragment that opens one starts the buffer. */
  lemma StepOpens(m: Machine, v: string)
    requires m.inQ == NoQuote && Entering(v).Quoted?
    ensures Step(m, v) == Machine(m.result, m.buffer + [Space] + v, Entering(v))
  {
  }

  /** Inside a quote, the fragment that closes it completes the buffer as one token. */
  lemma StepCloses(m: Machine, v: string)
    requires m.inQ.Quoted? && ExitingHelper(v, m.inQ.marker)
    ensures Step(m, v) == Machine(AppendIt(m.result, m.buffer + [Space] + v), [], NoQuote)
  {
  }

  /** Inside a quote, any other fragment is added to the buffer. */
  lemma StepContinues(m: Machine, v: string)
    requires m.inQ.Quoted? && !ExitingHelper(v, m.inQ.marker)
    ensures Step(m, v) == Machine(m.result, m.buffer + [Space] + v, m.inQ)
  {
  }

  /** The joined text of a group of at least two fragments. */
  lemma JoinGroup(frags: seq<string>, k: nat)
    requires 1 <= k < |frags|
    ensures Join(frags[..k + 1], [Space]) == frags[0] + [Space] + Join(frags[1..][..k], [Space])
  {
    assert frags[..k + 1][1..] == frags[1..][..k];
  }

  /** Adding frags[0] and then the fragments up to frags[k] to a buffer adds their joined text. */
  lemma BufferGroup(b: string, frags: seq<string>, k: nat)
    requires 1 <= k < |frags|
    ensures b + [Space] + frags[0] + [Space] + Join(frags[1..][..k], [Space]) == b + [Space] + Join(frags[..k + 1], [Space])
  {
    var v := frags[0];
    var rest := Join(frags[1..][..k], [Space]);
    calc {
      b + [Space] + v + [Space] + rest;
      { ConcatAssoc(b + [Space], v, [Space]); }
      ((b + [Space]) + (v + [Space])) + rest;
      { ConcatAssoc(b + [Space], v + [Space], rest); }
      (b + [Space]) + (v + [Space] + rest);
      { JoinGroup(frags, k); }
      b + [Space] + Join(frags[..k + 1], [Space]);
    }
  }

  /** The buffer of a quote opened by frags[0], once the fragments up to frags[k] are added. */
  lemma OpenedGroup(frags: seq<string>, k: nat)
    requires 1 <= k < |frags|
    ensures [Space] + frags[0] + [Space] + Join(frags[1..][..k], [Space]) == [Space] + Join(frags[..k + 1], [Space])
  {
    BufferGroup([], frags, k);
    assert [] + [Space] == [Space];
  }

  /** Inside a quote, the fragments are added to the buffer up to the first that
      closes the quote, which completes the buffer as one token. */
  lemma {:induction false} RunInQuote(m: Machine, frags: seq<string>, k: nat)
    requires m.inQ.Quoted?
    requires k == FirstExit(frags, m.inQ.marker) && k < |frags|
    ensures Run(m, frags) == Run(Machine(AppendIt(m.result, m.buffer + [Space] + Join(frags[..k + 1], [Space])), [], NoQuote), frags[k + 1..])
    decreases |frags|
  {
    var v := frags[0];
    var q := m.inQ.marker;
    if ExitingHelper(v, q) {
      RunInQuoteCloses(m, frags);
    } else {
      RunInQuoteContinues(m, frags, k);
    }
  }

  lemma RunInQuoteCloses(m: Machine, frags: seq<string>)
    requires m.inQ.Quoted?
    requires frags != [] && ExitingHelper(frags[0], m.inQ.marker)
    ensures Run(m, frags) == Run(Machine(AppendIt(m.result, m.buffer + [Space] + Join(frags[..1], [Space])), [], NoQuote), frags[1..])
  {
    var v := frags[0];
    StepCloses(m, v);
    assert frags[..1] == [v];
  }

  lemma {:induction false} RunInQuoteContinues(m: Machine, frags: seq<string>, k: nat)
    requires m.inQ.Quoted?
    requires frags != [] && !ExitingHelper(frags[0], m.inQ.marker)
    requires k == FirstExit(frags, m.inQ.marker) && k < |frags|
    ensures Run(m, frags) == Run(Machine(AppendIt(m.result, m.buffer + [Space] + Join(frags[..k + 1], [Space])), [], NoQuote), frags[k + 1..])
    decreases |frags|, 0
  {
    var v := frags[0];
    var q := m.inQ.marker;
    var m' := Machine(m.result, m.buffer + [Space] + v, m.inQ);
    var k' := FirstExit(frags[1..], q);
    assert k == k' + 1;
    var tail := frags[k + 1..];
    assert frags[1..][k' + 1..] == tail;
    var buf := m.buffer + [Space] + Join(frags[..k + 1], [Space]);
    var grown := m'.buffer + [Space] + Join(frags[1..][..k], [Space]);
    BufferGroup(m.buffer, frags, k);
    assert grown == buf;
    var closed := Machine(AppendIt(m.result, buf), [], NoQuote);
    RunInQuote(m', frags[1..], k');
    assert Machine(AppendIt(m'.result, grown), [], NoQuote) == closed;
    assert Run(m', frags[1..]) == Run(closed, tail);
    StepContinues(m, v);
    assert Run(m, frags) == Run(m', frags[1..]);
  }

  /** A quote that no fragment closes swallows the rest of the input: nothing more is emitted. */
  lemma {:induction false} RunInOpenQuote(m: Machine, frags: seq<string>)
    requires m.inQ.Quoted?
    requires FirstExit(frags, m.inQ.marker) == |frags|
    ensures Run(m, frags).result == m.result
    decreases |frags|
  {
    if frags != [] {
      var v := frags[0];
      StepContinues(m, v);
      RunInOpenQuote(Machine(m.result, m.buffer + [Space] + v, m.inQ), frags[1..]);
    }
  }

  /** Scan on a list whose first fragment opens no quote. */
  lemma ScanEmits(frags: seq<string>)
    requires frags != [] && Entering(frags[0]) == NoQuote
    ensures Scan(frags) == AppendIt([], frags[0]) + Scan(frags[1..])
  {
    assert frags[..1] == [frags[0]];
  }

  /** Scan on a list whose first fragment opens a quote that a later fragment closes. */
  lemma ScanGroups(frags: seq<string>, q: char, k: nat)
    requires frags != [] && Entering(frags[0]) == Quoted(q)
    requires k == 1 + FirstExit(frags[1..], q) && k < |frags|
    ensures Scan(frags) == AppendIt([], Join(frags[..k + 1], [Space])) + Scan(frags[k + 1..])
  {
    assert GroupLength(frags) == k + 1;
  }

  /** The state machine, started outside any quote, emits exactly the tokens of
      the group-by-group reading. */
  lemma {:induction false} RunIsScan(m: Machine, frags: seq<string>)
    requires m.inQ == NoQuote && m.buffer == []
    ensures Run(m, frags).result == m.result + Scan(frags)
    decreases |frags|, 2
  {
    if frags != [] {
      match Entering(frags[0])
      case NoQuote => RunIsScanEmit(m, frags);
      case Quoted(q) => RunIsScanGroup(m, frags, q);
    }
  }

  /** RunIsScan when the first fragment opens no quote. */
  lemma {:induction false} RunIsScanEmit(m: Machine, frags: seq<string>)
    requires m.inQ == NoQuote && m.buffer == []
    requires frags != [] && Entering(frags[0]) == NoQuote
    ensures Run(m, frags).result == m.result + Scan(frags)
    decreases |frags|, 0
  {
    var v := frags[0];
    var m' := Machine(AppendIt(m.result, v), [], NoQuote);
    calc {
      Run(m, frags).result;
      { StepEmits(m, v); }
      Run(m', frags[1..]).result;
      { RunIsScan(m', frags[1..]); }
      AppendIt(m.result, v) + Scan(frags[1..]);
      { AppendItAppends(m.result, v); }
      (m.result + AppendIt([], v)) + Scan(frags[1..]);
      { ConcatAssoc(m.result, AppendIt([], v), Scan(frags[1..])); }
      m.result + (AppendIt([], v) + Scan(frags[1..]));
      { ScanEmits(frags); }
      m.result + Scan(frags);
    }
  }

  /** RunIsScan when the first fragment opens a quote. */
  lemma {:induction false} RunIsScanGroup(m: Machine, frags: seq<string>, q: char)
    requires m.inQ == NoQuote && m.buffer == []
    requires frags != [] && Entering(frags[0]) == Quoted(q)
    ensures Run(m, frags).result == m.result + Scan(frags)
    decreases |frags|, 1
  {
    var v := frags[0];
    var m' := Machine(m.result, [Space] + v, Quoted(q));
    assert Run(m, frags) == Run(m', frags[1..]) by {
      StepOpens(m, v);
      assert m.buffer + [Space] + v == [Space] + v;
    }
    var k' := FirstExit(frags[1..], q);
    if k' + 1 == |frags| {
      RunInOpenQuote(m', frags[1..]);
    } else {
      RunIsScanCloses(m, frags, q, k');
    }
  }

  /** RunIsScan when the first fragment opens a quote that the fragment k' + 1 closes. */
  lemma {:induction false} RunIsScanCloses(m: Machine, frags: seq<string>, q: char, k': nat)
    requires m.inQ == NoQuote && m.buffer == []
    requires frags != [] && Entering(frags[0]) == Quoted(q)
    requires k' == FirstExit(frags[1..], q) && k' + 1 < |frags|
    ensures Run(m, frags).result == m.result + Scan(frags)
    decreases |frags|, 0
  {
    var v := frags[0];
    var m' := Machine(m.result, [Space] + v, Quoted(q));
    assert Run(m, frags) == Run(m', frags[1..]) by {
      StepOpens(m, v);
      assert m.buffer + [Space] + v == [Space] + v;
    }
    var joined := Join(frags[..k' + 2], [Space]);
    var tail := frags[k' + 2..];
    var m'' := Machine(AppendIt(m.result, [Space] + joined), [], NoQuote);
    assert Run(m', frags[1..]) == Run(m'', tail) by {
      RunInQuote(m', frags[1..], k');
      assert frags[1..][k' + 1..] == tail;
      OpenedGroup(frags, k' + 1);
    }
    calc {
      Run(m, frags).result;
      Run(m'', tail).result;
      { RunIsScan(m'', tail); }
      AppendIt(m.result, [Space] + joined) + Scan(tail);
      { AppendItLeadingSpace(m.result, joined); }
      (m.result + AppendIt([], joined)) + Scan(tail);
      { ConcatAssoc(m.result, AppendIt([], joined), Scan(tail)); }
      m.result + (AppendIt([], joined) + Scan(tail));
      { ScanGroups(frags, q, k' + 1); }
      m.result + Scan(frags);
    }
  }

  /** Tokenize: sanitize the lines, split on the space character and walk the
      fragments, gluing quoted spans back together. */
  method Tokenize(stringArgs: string) returns (result: seq<string>)
    ensures result == Tokens(stringArgs)
    ensures forall i :: 0 <= i < |result| ==> result[i] != []
  {
    var args := SanitizeLines(stringArgs);

    result := [];
    var buffer: string := [];
    var weAreInQ := NoQuote;

    var sl := Split(args, Space);

    for i := 0 to |sl|
      invariant Run(Machine(result, buffer, weAreInQ), sl[i..]) == Run(Initial, sl)
    {
      var v := sl[i];
      assert sl[i..][1..] == sl[i + 1..];
      var eq := Entering(v);
      if weAreInQ == NoQuote && eq != NoQuote {
        weAreInQ := eq;
        buffer := buffer + [Space] + v;
        continue;
      }

      if weAreInQ != NoQuote && Exiting(v, weAreInQ) {
        buffer := buffer + [Space] + v;
        result := AppendIt(result, buffer);
        buffer := [];
        weAreInQ := NoQuote;
        continue;
      }

      if weAreInQ != NoQuote {
        buffer := buffer + [Space] + v;
        continue;
      }

      result := AppendIt(result, v);
    }
    RunIsScan(Initial, sl);
  }
}
