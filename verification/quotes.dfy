/**
  The inputs of TestQuotes and TestQuotesWithUnicode: options whose values
  are quoted with each of the three markers, both as a separate argument
  (`--str1 "VAL FOR 1"`) and attached to the option (`--str4="VAL FOR 1"`).
*/
module QuoteExamples {
  import opened Strings
  import opened Confu
  import opened ConfuProperties
  import opened ConfuExamples

  /** The words a quoted test value is made of: at least two plain words. */
  predicate QuotedWords(ws: seq<string>) {
    |ws| >= 2 && forall i :: 0 <= i < |ws| ==> PlainWord(ws[i])
  }

  /** A quoted value: the words joined with single spaces, between two q markers. */
  function QuotedText(q: char, ws: seq<string>): string {
    [q] + Join(ws, [Space]) + [q]
  }

  /** No fragment holds a space or a line feed. */
  predicate Unbroken(frags: seq<string>) {
    forall i :: 0 <= i < |frags| ==> Space !in frags[i] && '\n' !in frags[i]
  }

  lemma UnbrokenAppend(a: seq<string>, b: seq<string>)
    requires Unbroken(a) && Unbroken(b)
    ensures Unbroken(a + b)
  {
    forall i | 0 <= i < |a + b|
      ensures Space !in (a + b)[i] && '\n' !in (a + b)[i]
    {
      if i >= |a| {
        assert (a + b)[i] == b[i - |a|];
      }
    }
  }

  lemma UnbrokenGroup(head: string, q: char, ws: seq<string>)
    requires q in Markers && Space !in head && '\n' !in head
    requires QuotedWords(ws)
    ensures Unbroken(QuotedGroup(head, q, ws))
  {
    var g := QuotedGroup(head, q, ws);
    forall i | 0 <= i < |g|
      ensures Space !in g[i] && '\n' !in g[i]
    {
      if i == 0 {
        assert g[0] == head + [q] + ws[0];
      } else if i == |g| - 1 {
        assert g[i] == ws[i] + [q];
      } else {
        assert g[i] == ws[i];
      }
    }
  }

  /** Quoted test words meet what ScanQuotedValue asks of the words of a quoted value. */
  lemma QuotedWordsAreWords(ws: seq<string>)
    requires QuotedWords(ws)
    ensures |ws| >= 2
    ensures forall i :: 0 <= i < |ws| ==> HasNoMarker(ws[i])
    ensures Word(ws[0]) && Word(ws[|ws| - 1])
  {
  }

  lemma AttachedText(option: string, q: char, ws: seq<string>)
    ensures option + [q] + Join(ws, [Space]) + [q] == option + QuotedText(q, ws)
  {
  }

  /** An option followed by a quoted value as a separate argument: the
      option, then the words joined with single spaces, without the markers. */
  lemma ScanOptionQuoted(option: string, q: char, ws: seq<string>, rest: seq<string>)
    requires q in Markers && PlainWord(option) && QuotedWords(ws)
    ensures Scan([option] + (QuotedGroup([], q, ws) + rest)) == [option, Join(ws, [Space])] + Scan(rest)
  {
    ScanPlainWord(option, QuotedGroup([], q, ws) + rest);
    QuotedWordsAreWords(ws);
    ScanQuotedValue([], q, ws, rest);
    assert [option] + ([Join(ws, [Space])] + Scan(rest)) == [option, Join(ws, [Space])] + Scan(rest);
  }

  /** An option with a quoted value attached: one token, markers kept. */
  lemma ScanAssignedQuoted(option: string, q: char, ws: seq<string>, rest: seq<string>)
    requires q in Markers && option != [] && option[0] == Dash && HasNoMarker(option)
    requires QuotedWords(ws)
    ensures Scan(QuotedGroup(option, q, ws) + rest) == [option + QuotedText(q, ws)] + Scan(rest)
  {
    QuotedWordsAreWords(ws);
    ScanQuotedValue(option, q, ws, rest);
    AttachedText(option, q, ws);
  }

  /** The fragments of TestQuotes' input: `--str1 %v --str2 %v --str3 %v
      --str4=%v --str5=%v --str6=%v` with the three values quoted with `"`,
      `'` and the back quote, split on the spaces. */
  function QuotesFragments(w1: seq<string>, w2: seq<string>, w3: seq<string>): seq<string>
    requires |w1| >= 2 && |w2| >= 2 && |w3| >= 2
  {
    ["--str1"] + (QuotedGroup([], DQ, w1) + (["--str2"] + (QuotedGroup([], SQ, w2) +
    (["--str3"] + (QuotedGroup([], BQ, w3) +
    (QuotedGroup("--str4=", DQ, w1) + (QuotedGroup("--str5=", SQ, w2) + QuotedGroup("--str6=", BQ, w3))))))))
  }

  /** The arguments TestQuotes' input is made of, before they are joined with spaces. */
  function QuotesArguments(w1: seq<string>, w2: seq<string>, w3: seq<string>): seq<string> {
    ["--str1", QuotedText(DQ, w1), "--str2", QuotedText(SQ, w2), "--str3", QuotedText(BQ, w3),
     "--str4=" + QuotedText(DQ, w1), "--str5=" + QuotedText(SQ, w2), "--str6=" + QuotedText(BQ, w3)]
  }

  /** The tokens TestQuotes expects: separate values unquoted, attached values with their markers. */
  function QuotesTokens(w1: seq<string>, w2: seq<string>, w3: seq<string>): seq<string> {
    ["--str1", Join(w1, [Space]), "--str2", Join(w2, [Space]), "--str3", Join(w3, [Space]),
     "--str4=" + QuotedText(DQ, w1), "--str5=" + QuotedText(SQ, w2), "--str6=" + QuotedText(BQ, w3)]
  }

  lemma AttachedOption(option: string)
    requires option == "--str4=" || option == "--str5=" || option == "--str6="
    ensures option[0] == Dash && HasNoMarker(option) && Space !in option && '\n' !in option
  {
  }

  lemma QuoteOptions()
    ensures PlainWord("--str1") && PlainWord("--str2") && PlainWord("--str3")
    ensures "--str4="[0] == Dash && HasNoMarker("--str4=") && Space !in "--str4=" && '\n' !in "--str4="
    ensures "--str5="[0] == Dash && HasNoMarker("--str5=") && Space !in "--str5=" && '\n' !in "--str5="
    ensures "--str6="[0] == Dash && HasNoMarker("--str6=") && Space !in "--str6=" && '\n' !in "--str6="
  {
    AttachedOption("--str4=");
    AttachedOption("--str5=");
    AttachedOption("--str6=");
  }

  /** The nine tokens of TestQuotes, emitted group by group, form the list of the nine
      (kept apart so that QuotesScan does not carry this list equality). */
  lemma NineTokens(a: string, b: string, c: string, d: string, e: string, f: string, g: string, h: string, i: string)
    ensures [a, b] + ([c, d] + ([e, f] + ([g] + ([h] + ([i] + []))))) == [a, b, c, d, e, f, g, h, i]
  {
  }

  /** The group-by-group reading of TestQuotes' fragments. */
  lemma QuotesScan(w1: seq<string>, w2: seq<string>, w3: seq<string>)
    requires QuotedWords(w1) && QuotedWords(w2) && QuotedWords(w3)
    ensures Scan(QuotesFragments(w1, w2, w3)) == QuotesTokens(w1, w2, w3)
  {
    QuoteOptions();
    var g6 := QuotedGroup("--str6=", BQ, w3);
    var g5 := QuotedGroup("--str5=", SQ, w2);
    var g4 := QuotedGroup("--str4=", DQ, w1);
    var r3 := g4 + (g5 + g6);
    var r2 := ["--str3"] + (QuotedGroup([], BQ, w3) + r3);
    var r1 := ["--str2"] + (QuotedGroup([], SQ, w2) + r2);
    assert g6 + [] == g6;
    ScanAssignedQuoted("--str6=", BQ, w3, []);
    ScanAssignedQuoted("--str5=", SQ, w2, g6);
    ScanAssignedQuoted("--str4=", DQ, w1, g5 + g6);
    ScanOptionQuoted("--str3", BQ, w3, r3);
    ScanOptionQuoted("--str2", SQ, w2, r2);
    ScanOptionQuoted("--str1", DQ, w1, r1);
    NineTokens("--str1", Join(w1, [Space]), "--str2", Join(w2, [Space]), "--str3", Join(w3, [Space]),
      "--str4=" + QuotedText(DQ, w1), "--str5=" + QuotedText(SQ, w2), "--str6=" + QuotedText(BQ, w3));
  }

  lemma JoinConsBoth(x: string, frags: seq<string>, args: seq<string>)
    requires frags != [] && args != [] && Join(frags, [Space]) == Join(args, [Space])
    ensures Join([x] + frags, [Space]) == Join([x] + args, [Space])
  {
    JoinAppend([x], frags, [Space]);
    JoinAppend([x], args, [Space]);
  }

  /** The fragments of a quoted value join back into the value. */
  lemma JoinQuotedGroup(head: string, q: char, ws: seq<string>)
    requires |ws| >= 2
    ensures Join(QuotedGroup(head, q, ws), [Space]) == head + QuotedText(q, ws)
  {
    JoinWrapped(ws, head + [q], [q], [Space]);
    AttachedText(head, q, ws);
  }

  lemma JoinGroupBoth(head: string, q: char, ws: seq<string>, frags: seq<string>, args: seq<string>)
    requires |ws| >= 2
    requires frags != [] && args != [] && Join(frags, [Space]) == Join(args, [Space])
    ensures Join(QuotedGroup(head, q, ws) + frags, [Space]) == Join([head + QuotedText(q, ws)] + args, [Space])
  {
    JoinAppend(QuotedGroup(head, q, ws), frags, [Space]);
    JoinQuotedGroup(head, q, ws);
    JoinAppend([head + QuotedText(q, ws)], args, [Space]);
  }

  /** The nine arguments of TestQuotes, taken group by group, form the list of the nine
      (kept apart so that QuotesInput does not carry this list equality). */
  lemma NineArguments(a: string, b: string, c: string, d: string, e: string, f: string, g: string, h: string, i: string)
    ensures [a] + ([[] + b] + ([c] + ([[] + d] + ([e] + ([[] + f] + ([g] + ([h] + [i])))))))
         == [a, b, c, d, e, f, g, h, i]
  {
    assert [] + b == b && [] + d == d && [] + f == f;
  }

  /** TestQuotes' fragments joined with single spaces are its arguments joined with single spaces. */
  lemma QuotesInput(w1: seq<string>, w2: seq<string>, w3: seq<string>)
    requires |w1| >= 2 && |w2| >= 2 && |w3| >= 2
    ensures Join(QuotesFragments(w1, w2, w3), [Space]) == Join(QuotesArguments(w1, w2, w3), [Space])
  {
    var g6 := QuotedGroup("--str6=", BQ, w3);
    var g5 := QuotedGroup("--str5=", SQ, w2);
    var g4 := QuotedGroup("--str4=", DQ, w1);
    var a9 := ["--str6=" + QuotedText(BQ, w3)];
    var a8 := ["--str5=" + QuotedText(SQ, w2)] + a9;
    var a7 := ["--str4=" + QuotedText(DQ, w1)] + a8;
    var a6 := [[] + QuotedText(BQ, w3)] + a7;
    var a5 := ["--str3"] + a6;
    var a4 := [[] + QuotedText(SQ, w2)] + a5;
    var a3 := ["--str2"] + a4;
    var a2 := [[] + QuotedText(DQ, w1)] + a3;
    var a1 := ["--str1"] + a2;
    JoinQuotedGroup("--str6=", BQ, w3);
    JoinGroupBoth("--str5=", SQ, w2, g6, a9);
    JoinGroupBoth("--str4=", DQ, w1, g5 + g6, a8);
    JoinGroupBoth([], BQ, w3, g4 + (g5 + g6), a7);
    var f5 := QuotedGroup([], BQ, w3) + (g4 + (g5 + g6));
    JoinConsBoth("--str3", f5, a6);
    JoinGroupBoth([], SQ, w2, ["--str3"] + f5, a5);
    var f3 := QuotedGroup([], SQ, w2) + (["--str3"] + f5);
    JoinConsBoth("--str2", f3, a4);
    JoinGroupBoth([], DQ, w1, ["--str2"] + f3, a3);
    JoinConsBoth("--str1", QuotedGroup([], DQ, w1) + (["--str2"] + f3), a2);
    NineArguments("--str1", QuotedText(DQ, w1), "--str2", QuotedText(SQ, w2), "--str3", QuotedText(BQ, w3),
      "--str4=" + QuotedText(DQ, w1), "--str5=" + QuotedText(SQ, w2), "--str6=" + QuotedText(BQ, w3));
  }

  /** No fragment of TestQuotes' input holds a space or a line feed. */
  lemma QuotesUnbroken(w1: seq<string>, w2: seq<string>, w3: seq<string>)
    requires QuotedWords(w1) && QuotedWords(w2) && QuotedWords(w3)
    ensures Unbroken(QuotesFragments(w1, w2, w3))
  {
    QuoteOptions();
    var g6 := QuotedGroup("--str6=", BQ, w3);
    var g5 := QuotedGroup("--str5=", SQ, w2);
    var g4 := QuotedGroup("--str4=", DQ, w1);
    var g3 := QuotedGroup([], BQ, w3);
    var g2 := QuotedGroup([], SQ, w2);
    var g1 := QuotedGroup([], DQ, w1);
    UnbrokenGroup("--str6=", BQ, w3);
    UnbrokenGroup("--str5=", SQ, w2);
    UnbrokenGroup("--str4=", DQ, w1);
    UnbrokenGroup([], BQ, w3);
    UnbrokenGroup([], SQ, w2);
    UnbrokenGroup([], DQ, w1);
    UnbrokenAppend(g5, g6);
    UnbrokenAppend(g4, g5 + g6);
    UnbrokenAppend(g3, g4 + (g5 + g6));
    UnbrokenAppend(["--str3"], g3 + (g4 + (g5 + g6)));
    UnbrokenAppend(g2, ["--str3"] + (g3 + (g4 + (g5 + g6))));
    UnbrokenAppend(["--str2"], g2 + (["--str3"] + (g3 + (g4 + (g5 + g6)))));
    UnbrokenAppend(g1, ["--str2"] + (g2 + (["--str3"] + (g3 + (g4 + (g5 + g6))))));
    UnbrokenAppend(["--str1"], g1 + (["--str2"] + (g2 + (["--str3"] + (g3 + (g4 + (g5 + g6)))))));
  }

  /** TestQuotes and TestQuotesWithUnicode: a value quoted with any of the
      three markers is one argument, whether it follows its option or is
      attached to it with `=`. */
  lemma Quotes(w1: seq<string>, w2: seq<string>, w3: seq<string>)
    requires QuotedWords(w1) && QuotedWords(w2) && QuotedWords(w3)
    ensures Tokens(Join(QuotesArguments(w1, w2, w3), [Space])) == QuotesTokens(w1, w2, w3)
  {
    QuotesInput(w1, w2, w3);
    QuotesUnbroken(w1, w2, w3);
    TokensOfJoin(QuotesFragments(w1, w2, w3));
    QuotesScan(w1, w2, w3);
  }

  /** What TestQuotes compares: TrimQuote of the quoted value and of the
      token read for it agree, and both are the words joined with single spaces. */
  lemma QuoteValue(q: char, ws: seq<string>)
    requires q in Markers && QuotedWords(ws)
    ensures Unquoted(QuotedText(q, ws)) == Unquoted(Join(ws, [Space])) == Join(ws, [Space])
  {
    QuotedWordsAreWords(ws);
    var joined := Join(ws, [Space]);
    JoinedWords(ws);
    UnquotedQuoted(q, joined);
    UnquotedOfPlain(joined);
    TrimSpaceOfTrimmed(joined);
  }

  lemma TestWords(n: string)
    requires PlainWord(n)
    ensures QuotedWords(["VAL", "FOR", n])
  {
    assert PlainWord("VAL") && PlainWord("FOR");
  }

  /** TestQuotes with the values it substitutes. */
  lemma QuotesTest()
    ensures var w1, w2, w3 := ["VAL", "FOR", "1"], ["VAL", "FOR", "2"], ["VAL", "FOR", "3"];
      Tokens(Join(QuotesArguments(w1, w2, w3), [Space])) == QuotesTokens(w1, w2, w3)
  {
    assert PlainWord("1") && PlainWord("2") && PlainWord("3");
    TestWords("1");
    TestWords("2");
    TestWords("3");
    Quotes(["VAL", "FOR", "1"], ["VAL", "FOR", "2"], ["VAL", "FOR", "3"]);
  }

  lemma UnicodeTestWords()
    ensures QuotedWords(["تست", "۱"]) && QuotedWords(["تست", "۲"]) && QuotedWords(["تست", "۳"])
  {
  }

  /** TestQuotesWithUnicode with the values it substitutes. */
  lemma QuotesUnicodeTest()
    ensures var w1, w2, w3 := ["تست", "۱"], ["تست", "۲"], ["تست", "۳"];
      Tokens(Join(QuotesArguments(w1, w2, w3), [Space])) == QuotesTokens(w1, w2, w3)
  {
    UnicodeTestWords();
    Quotes(["تست", "۱"], ["تست", "۲"], ["تست", "۳"]);
  }
}
