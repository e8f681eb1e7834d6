/**
  The inputs of the package's tests and of Tokenize's documentation, with the
  tokens the model gives for them. The tests build their input with
  fmt.Sprintf; here the values they substitute are parameters, and each
  lemma is stated for every value of the kind the test uses.
*/
module ConfuExamples {
  import opened Strings
  import opened Confu
  import opened ConfuProperties

  /** A value that is one token on its own: no white space at either end, no
      space, no line feed and no quote marker. */
  predicate PlainWord(w: string) {
    && w != [] && !IsSpace(w[0]) && !IsSpace(w[|w| - 1])
    && Space !in w && '\n' !in w && HasNoMarker(w)
  }

  /** Trimming plain words keeps them all. */
  lemma {:induction false} WordsOfWords(frags: seq<string>)
    requires forall i :: 0 <= i < |frags| ==> PlainWord(frags[i])
    ensures Words(frags) == frags
    decreases |frags|
  {
    if frags != [] {
      TrimSpaceOfTrimmed(frags[0]);
      WordsOfWords(frags[1..]);
    }
  }

  /** Plain words joined with single spaces come back as they were. */
  lemma {:induction false} PlainWords(frags: seq<string>)
    requires |frags| >= 1
    requires forall i :: 0 <= i < |frags| ==> PlainWord(frags[i])
    ensures Tokens(Join(frags, [Space])) == frags
  {
    var s := Join(frags, [Space]);
    SplitJoin(frags, Space);
    JoinAvoids(frags, [Space], '\n');
    JoinAvoids(frags, [Space], DQ);
    JoinAvoids(frags, [Space], SQ);
    JoinAvoids(frags, [Space], BQ);
    PlainTokens(s);
    WordsOfWords(frags);
  }

  lemma CommonText(str: string, num: string)
    ensures Join(["--bool", "-s", str, "--int", num], [Space]) == "--bool -s " + str + " --int " + num
  {
    JoinFive("--bool", "-s", str, "--int", num);
    assert "--bool" + [Space] + "-s" + [Space] == "--bool -s ";
    assert [Space] + "--int" + [Space] == " --int ";
  }

  /** TestCommon: `--bool -s %v --int %v` with a string and a number. */
  lemma Common(str: string, num: string)
    requires PlainWord(str) && PlainWord(num)
    ensures Tokens("--bool -s " + str + " --int " + num) == ["--bool", "-s", str, "--int", num]
  {
    CommonText(str, num);
    PlainWords(["--bool", "-s", str, "--int", num]);
  }

  /** TestCommon with the values it substitutes. */
  lemma CommonTest()
    ensures Tokens("--bool -s txt --int 10") == ["--bool", "-s", "txt", "--int", "10"]
  {
    assert PlainWord("txt");
    assert PlainWord("10");
    assert "--bool -s " + "txt" + " --int " + "10" == "--bool -s txt --int 10";
    Common("txt", "10");
  }

  /** Five texts joined with single spaces. */
  lemma JoinFive(a: string, b: string, c: string, d: string, e: string)
    ensures Join([a, b, c, d, e], [Space]) == a + [Space] + b + [Space] + c + [Space] + d + [Space] + e
  {
    JoinAppend([d], [e], [Space]);
    assert [d] + [e] == [d, e];
    JoinAppend([c], [d, e], [Space]);
    assert [c] + [d, e] == [c, d, e];
    JoinAppend([b], [c, d, e], [Space]);
    assert [b] + [c, d, e] == [b, c, d, e];
    JoinAppend([a], [b, c, d, e], [Space]);
    assert [a] + [b, c, d, e] == [a, b, c, d, e];
  }

  /** The indentation TestParam's input puts in front of some of its options. */
  const Tabs: string := "\t\t"

  /** White space that is neither a space nor a line break. */
  predicate Indentation(indent: string) {
    forall k :: 0 <= k < |indent| ==> IsSpace(indent[k]) && indent[k] != Space && indent[k] != '\n' && indent[k] != '\r'
  }

  lemma TabsIndentation()
    ensures Indentation(Tabs)
  {
  }

  /** Indentation in front of a word is trimmed away. */
  lemma {:induction false} TrimIndent(indent: string, w: string)
    requires Indentation(indent)
    requires w != [] && !IsSpace(w[0]) && !IsSpace(w[|w| - 1])
    ensures TrimSpace(indent + w) == w
    decreases |indent|
  {
    if indent == [] {
      assert indent + w == w;
      TrimSpaceOfTrimmed(w);
    } else {
      assert indent + w == [indent[0]] + (indent[1..] + w);
      TrimSpaceSkipsLeadingSpace(indent[0], indent[1..] + w);
      TrimIndent(indent[1..], w);
    }
  }

  /** The three lines of TestParam's input. */
  function ParamLines(indent: string, str: string, num: string, param: string, nparam: string): seq<string> {
    ["--bool -strarg " + str + " " + indent + "--intarg " + num, indent + "-strparam=" + param, indent + "-intparam=" + nparam]
  }

  /** The fragments of TestParam's input once its lines are joined with spaces. */
  function ParamFragments(indent: string, str: string, num: string, param: string, nparam: string): seq<string> {
    ["--bool", "-strarg", str, indent + "--intarg", num, indent + "-strparam=" + param, indent + "-intparam=" + nparam]
  }

  lemma ParamText(indent: string, str: string, num: string, param: string, nparam: string)
    ensures Join(ParamLines(indent, str, num, param, nparam), "\n")
         == "--bool -strarg " + str + " " + indent + "--intarg " + num
            + "\n" + indent + "-strparam=" + param + "\n" + indent + "-intparam=" + nparam
  {
    var lines := ParamLines(indent, str, num, param, nparam);
    JoinAppend([lines[0]], lines[1..], "\n");
    JoinAppend([lines[1]], lines[2..], "\n");
    assert [lines[0]] + lines[1..] == lines;
    assert [lines[1]] + lines[2..] == lines[1..];
  }

  lemma ParamSplit(indent: string, str: string, num: string, param: string, nparam: string)
    ensures Join(ParamLines(indent, str, num, param, nparam), [Space])
         == Join(ParamFragments(indent, str, num, param, nparam), [Space])
  {
    var f := ParamFragments(indent, str, num, param, nparam);
    var lines := ParamLines(indent, str, num, param, nparam);
    assert [lines[0]] + lines[1..] == lines;
    JoinAppend([lines[0]], lines[1..], [Space]);
    assert f[..5] + f[5..] == f;
    JoinAppend(f[..5], f[5..], [Space]);
    assert Join(f[5..], [Space]) == Join(lines[1..], [Space]) by {
      assert f[5..] == lines[1..];
    }
    assert Join(f[..5], [Space]) == lines[0] by {
      assert f[..5] == ["--bool", "-strarg", str, indent + "--intarg", num];
      JoinFive("--bool", "-strarg", str, indent + "--intarg", num);
      assert "--bool" + [Space] + "-strarg" + [Space] == "--bool -strarg ";
      assert [Space] + (indent + "--intarg") + [Space] == " " + indent + "--intarg ";
    }
  }

  /** The lines of TestParam's input are lines: no line feed inside, no carriage return at the end. */
  lemma ParamLinesShape(indent: string, str: string, num: string, param: string, nparam: string)
    requires Indentation(indent)
    requires PlainWord(str) && PlainWord(num) && PlainWord(param) && PlainWord(nparam)
    ensures var lines := ParamLines(indent, str, num, param, nparam);
      forall i :: 0 <= i < |lines| ==> '\n' !in lines[i] && lines[i] != [] && lines[i][|lines[i]| - 1] != '\r'
  {
  }

  /** The fragments of TestParam's input hold no space, no line feed and no marker. */
  lemma ParamFragmentsShape(indent: string, str: string, num: string, param: string, nparam: string)
    requires Indentation(indent)
    requires PlainWord(str) && PlainWord(num) && PlainWord(param) && PlainWord(nparam)
    ensures var f := ParamFragments(indent, str, num, param, nparam);
      forall i :: 0 <= i < |f| ==> Space !in f[i] && '\n' !in f[i] && HasNoMarker(f[i])
  {
  }

  /** Fragments whose trimmed forms are all non-empty give those trimmed forms. */
  lemma {:induction false} WordsOfTrimmed(frags: seq<string>, words: seq<string>)
    requires |frags| == |words|
    requires forall i :: 0 <= i < |frags| ==> words[i] != [] && TrimSpace(frags[i]) == words[i]
    ensures Words(frags) == words
    decreases |frags|
  {
    if frags != [] {
      WordsOfTrimmed(frags[1..], words[1..]);
      assert [words[0]] + words[1..] == words;
    }
  }

  /** An option with its value attached, or a plain word, is left alone by trimming. */
  lemma TrimOption(option: string, value: string)
    requires option != [] && option[0] == Dash
    requires PlainWord(value)
    ensures TrimSpace(option + value) == option + value
  {
    var w := option + value;
    assert w[0] == Dash && w[|w| - 1] == value[|value| - 1];
    TrimSpaceOfTrimmed(w);
  }

  /** The tokens TestParam expects. */
  function ParamTokens(str: string, num: string, param: string, nparam: string): seq<string> {
    ["--bool", "-strarg", str, "--intarg", num, "-strparam=" + param, "-intparam=" + nparam]
  }

  /** An indented option with its value attached trims to the option and the value. */
  lemma TrimIndentedOption(indent: string, option: string, value: string)
    requires Indentation(indent)
    requires option != [] && option[0] == Dash
    requires PlainWord(value)
    ensures TrimSpace(indent + option + value) == option + value
  {
    var w := option + value;
    assert w[0] == Dash && w[|w| - 1] == value[|value| - 1];
    assert indent + option + value == indent + w;
    TrimIndent(indent, w);
  }

  /** Each fragment of TestParam's input trims to the token it stands for. */
  lemma ParamTrimmed(indent: string, str: string, num: string, param: string, nparam: string)
    requires Indentation(indent)
    requires PlainWord(str) && PlainWord(num) && PlainWord(param) && PlainWord(nparam)
    ensures TrimSpace("--bool") == "--bool" && TrimSpace("-strarg") == "-strarg"
    ensures TrimSpace(str) == str && TrimSpace(num) == num
    ensures TrimSpace(indent + "--intarg") == "--intarg"
    ensures TrimSpace(indent + "-strparam=" + param) == "-strparam=" + param
    ensures TrimSpace(indent + "-intparam=" + nparam) == "-intparam=" + nparam
  {
    TrimSpaceOfTrimmed("--bool");
    TrimSpaceOfTrimmed("-strarg");
    TrimSpaceOfTrimmed(str);
    TrimSpaceOfTrimmed(num);
    TrimIndent(indent, "--intarg");
    TrimIndentedOption(indent, "-strparam=", param);
    TrimIndentedOption(indent, "-intparam=", nparam);
  }

  /** Trimming the fragments of TestParam's input removes the indentation. */
  lemma ParamWords(indent: string, str: string, num: string, param: string, nparam: string)
    requires Indentation(indent)
    requires PlainWord(str) && PlainWord(num) && PlainWord(param) && PlainWord(nparam)
    ensures Words(ParamFragments(indent, str, num, param, nparam)) == ParamTokens(str, num, param, nparam)
  {
    ParamTrimmed(indent, str, num, param, nparam);
    var f := ParamFragments(indent, str, num, param, nparam);
    var words := ParamTokens(str, num, param, nparam);
    forall i | 0 <= i < |f|
      ensures words[i] != [] && TrimSpace(f[i]) == words[i]
    {
    }
    WordsOfTrimmed(ParamFragments(indent, str, num, param, nparam), ParamTokens(str, num, param, nparam));
  }

  /** TestParam: `--bool -strarg %v`, two tabs, `--intarg %v`, then two
      indented lines `-strparam=%v` and `-intparam=%v`. */
  lemma Param(str: string, num: string, param: string, nparam: string)
    requires PlainWord(str) && PlainWord(num) && PlainWord(param) && PlainWord(nparam)
    ensures Tokens("--bool -strarg " + str + " " + Tabs + "--intarg " + num
                   + "\n" + Tabs + "-strparam=" + param + "\n" + Tabs + "-intparam=" + nparam)
         == ["--bool", "-strarg", str, "--intarg", num, "-strparam=" + param, "-intparam=" + nparam]
  {
    var lines := ParamLines(Tabs, str, num, param, nparam);
    var f := ParamFragments(Tabs, str, num, param, nparam);
    TabsIndentation();
    ParamText(Tabs, str, num, param, nparam);
    ParamLinesShape(Tabs, str, num, param, nparam);
    LinesOfJoin(lines, "\n");
    JoinAvoids(lines, [Space], '\n');
    SanitizeOneLine(Join(lines, [Space]));
    ParamSplit(Tabs, str, num, param, nparam);
    ParamFragmentsShape(Tabs, str, num, param, nparam);
    TokensOfJoin(f);
    ScanPlain(f);
    ParamWords(Tabs, str, num, param, nparam);
  }

  // ---------------------------------------------------------------------
  // The example in Tokenize's documentation
  // ---------------------------------------------------------------------

  /** A plain word, appended on its own, is a token of its own. */
  lemma PlainToken(w: string)
    requires PlainWord(w)
    ensures AppendIt([], w) == [w]
  {
    UnquotedOfPlain(w);
    TrimSpaceOfTrimmed(w);
  }

  /** A plain word at the head of the fragments is the first token. */
  lemma ScanPlainWord(w: string, rest: seq<string>)
    requires PlainWord(w)
    ensures Scan([w] + rest) == [w] + Scan(rest)
  {
    PlainOpensNothing(w);
    ScanSingle(w, rest);
    PlainToken(w);
  }

  /** The empty fragment between two spaces yields nothing. */
  lemma ScanEmptyFragment(rest: seq<string>)
    ensures Scan([[]] + rest) == Scan(rest)
  {
    ScanSingle([], rest);
  }

  /** A value wrapped in one marker, as '/some/path', is one token without the markers. */
  lemma ScanSelfQuoted(q: char, t: string, rest: seq<string>)
    requires q in Markers && Word(t)
    ensures Scan([[q] + t + [q]] + rest) == [t] + Scan(rest)
  {
    SelfQuotedNeverOpens([q] + t + [q], q);
    ScanSingle([q] + t + [q], rest);
    UnquotedQuoted(q, t);
  }

  /** An option with a quoted word attached opens no quote: it ends with its marker and holds no other. */
  lemma AttachedQuotesOpenNothing(option: string, q: char, t: string)
    requires option != [] && option[0] == Dash && HasNoMarker(option)
    requires q in Markers && Word(t)
    ensures Entering(option + [q] + t + [q]) == NoQuote
  {
    var v := option + [q] + t + [q];
    assert v[|v| - 1] == q;
    forall p | p in Markers && p != q
      ensures p !in v
    {
    }
    OpensIff(v, DQ);
    OpensIff(v, SQ);
    OpensIff(v, BQ);
  }

  /** An option with a quoted one-word value attached, as --comment="done",
      is one token that keeps its markers. */
  lemma ScanAttachedQuotes(option: string, q: char, t: string, rest: seq<string>)
    requires option != [] && option[0] == Dash && HasNoMarker(option)
    requires q in Markers && Word(t)
    ensures Scan([option + [q] + t + [q]] + rest) == [option + [q] + t + [q]] + Scan(rest)
  {
    var v := option + [q] + t + [q];
    AttachedQuotesOpenNothing(option, q, t);
    ScanSingle(v, rest);
    assert v[0] == Dash && v[|v| - 1] == q;
    UnquotedKeepsInnerQuotes(v);
  }

  /** The fragments of the documented input `--tag --comment="done" --port=8081  --path '/some/path'`,
      with its words as parameters: a flag, an option with a quoted value
      attached, an option with its value attached, an empty fragment left by
      the two spaces, an option, and its value wrapped in single quotes. */
  function DocFragments(tag: string, comment: string, done: string, port: string, path: string, where: string): seq<string> {
    [tag] + ([comment + [DQ] + done + [DQ]] + ([port] + ([[]] + ([path] + [[SQ] + where + [SQ]]))))
  }

  /** The tokens of the documented input, read group by group: the attached
      quoted value keeps its markers, the separate one loses them, and the
      empty fragment between the two spaces yields nothing. */
  lemma DocScan(tag: string, comment: string, done: string, port: string, path: string, where: string)
    requires PlainWord(tag) && PlainWord(port) && PlainWord(path)
    requires comment != [] && comment[0] == Dash && HasNoMarker(comment)
    requires Word(done) && Word(where)
    ensures Scan(DocFragments(tag, comment, done, port, path, where))
         == [tag, comment + [DQ] + done + [DQ], port, path, where]
  {
    var f6 := [[SQ] + where + [SQ]];
    var f5 := [path] + f6;
    var f4 := [[]] + f5;
    var f3 := [port] + f4;
    var f2 := [comment + [DQ] + done + [DQ]] + f3;
    var f1 := [tag] + f2;
    assert f6 == f6 + [];
    ScanSelfQuoted(SQ, where, []);
    ScanPlainWord(path, f6);
    ScanEmptyFragment(f5);
    ScanPlainWord(port, f4);
    ScanAttachedQuotes(comment, DQ, done, f3);
    ScanPlainWord(tag, f2);
    FiveTokens(tag, comment + [DQ] + done + [DQ], port, path, where);
  }

  /** Five tokens emitted one after the other form the list of the five. */
  lemma FiveTokens(a: string, b: string, c: string, d: string, e: string)
    ensures [a] + ([b] + ([c] + ([d] + ([e] + [])))) == [a, b, c, d, e]
  {
  }

  /** No fragment of the documented input holds a space or a line break. */
  lemma DocUnbroken(tag: string, comment: string, done: string, port: string, path: string, where: string)
    requires PlainWord(tag) && PlainWord(comment) && PlainWord(done)
    requires PlainWord(port) && PlainWord(path) && PlainWord(where)
    ensures forall i :: 0 <= i < |DocFragments(tag, comment, done, port, path, where)| ==>
      Space !in DocFragments(tag, comment, done, port, path, where)[i] &&
      '\n' !in DocFragments(tag, comment, done, port, path, where)[i]
  {
  }

  /** Tokenize on the documented input, its arguments joined by single spaces
      (the two spaces before --path leave the empty fragment). */
  lemma Doc(tag: string, comment: string, done: string, port: string, path: string, where: string)
    requires PlainWord(tag) && PlainWord(comment) && PlainWord(done)
    requires PlainWord(port) && PlainWord(path) && PlainWord(where)
    requires comment[0] == Dash
    ensures Tokens(Join(DocFragments(tag, comment, done, port, path, where), [Space]))
         == [tag, comment + [DQ] + done + [DQ], port, path, where]
  {
    DocUnbroken(tag, comment, done, port, path, where);
    TokensOfJoin(DocFragments(tag, comment, done, port, path, where));
    DocScan(tag, comment, done, port, path, where);
  }

  // The words of the documented input, one lemma each: proved together, the
  // six literal facts exceed the solver's resource limit.

  lemma TagWord()
    ensures PlainWord("--tag")
  {
  }

  lemma CommentWord()
    ensures PlainWord("--comment=")
  {
  }

  lemma DoneWord()
    ensures PlainWord("done")
  {
  }

  lemma PortWord()
    ensures PlainWord("--port=8081")
  {
  }

  lemma PathWord()
    ensures PlainWord("--path")
  {
  }

  lemma WhereWord()
    ensures PlainWord("/some/path")
  {
  }

  lemma CommentToken()
    ensures "--comment=" + [DQ] + "done" + [DQ] == "--comment=\"done\""
  {
  }

  /** The documented input itself. */
  lemma DocExample()
    ensures Tokens(Join(DocFragments("--tag", "--comment=", "done", "--port=8081", "--path", "/some/path"), [Space]))
         == ["--tag", "--comment=\"done\"", "--port=8081", "--path", "/some/path"]
  {
    TagWord();
    CommentWord();
    DoneWord();
    PortWord();
    PathWord();
    WhereWord();
    Doc("--tag", "--comment=", "done", "--port=8081", "--path", "/some/path");
    CommentToken();
  }
}
