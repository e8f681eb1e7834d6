/**
  The part of Go's `strings` and `unicode` packages that the tokenizer calls,
  stated over Dafny strings (sequences of Unicode scalar values).
*/
module Strings {

  /** unicode.IsSpace: the characters with the Unicode White_Space property. */
  predicate IsSpace(c: char) {
    || c == '\t' || c == '\n' || c == '\U{0B}' || c == '\U{0C}' || c == '\r' || c == ' '
    || c == '\U{85}' || c == '\U{A0}' || c == '\U{1680}'
    || ('\U{2000}' <= c <= '\U{200A}')
    || c == '\U{2028}' || c == '\U{2029}' || c == '\U{202F}' || c == '\U{205F}' || c == '\U{3000}'
  }

  /** strings.HasPrefix. */
  predicate HasPrefix(s: string, prefix: string) {
    |prefix| <= |s| && s[..|prefix|] == prefix
  }

  /** strings.HasSuffix. */
  predicate HasSuffix(s: string, suffix: string) {
    |suffix| <= |s| && s[|s| - |suffix|..] == suffix
  }

  /** strings.Contains, for the one-character needles the tokenizer uses. */
  predicate Contains(s: string, c: char) {
    c in s
  }

  /** strings.TrimPrefix. */
  function TrimPrefix(s: string, prefix: string): (r: string)
    ensures HasPrefix(s, prefix) ==> prefix + r == s
    ensures !HasPrefix(s, prefix) ==> r == s
  {
    if HasPrefix(s, prefix) then s[|prefix|..] else s
  }

  /** strings.TrimSuffix. */
  function TrimSuffix(s: string, suffix: string): (r: string)
    ensures HasSuffix(s, suffix) ==> r + suffix == s
    ensures !HasSuffix(s, suffix) ==> r == s
  {
    if HasSuffix(s, suffix) then s[..|s| - |suffix|] else s
  }

  /** A text starts with what is put in front of it and ends with what is put
      after it, and trimming that prefix or suffix gives back the rest. */
  lemma AffixesOfConcat(prefix: string, mid: string, suffix: string)
    ensures HasPrefix(prefix + mid, prefix) && TrimPrefix(prefix + mid, prefix) == mid
    ensures HasSuffix(mid + suffix, suffix) && TrimSuffix(mid + suffix, suffix) == mid
  {
  }

  /** The number of white-space characters s starts with. */
  function LeadingSpaces(s: string): (n: nat)
    ensures n <= |s|
    ensures forall k :: 0 <= k < n ==> IsSpace(s[k])
    ensures n < |s| ==> !IsSpace(s[n])
    decreases |s|
  {
    if s != [] && IsSpace(s[0]) then 1 + LeadingSpaces(s[1..]) else 0
  }

  /** The number of white-space characters s ends with. */
  function TrailingSpaces(s: string): (n: nat)
    ensures n <= |s|
    ensures forall k :: |s| - n <= k < |s| ==> IsSpace(s[k])
    ensures n < |s| ==> !IsSpace(s[|s| - n - 1])
    decreases |s|
  {
    if s != [] && IsSpace(s[|s| - 1]) then 1 + TrailingSpaces(s[..|s| - 1]) else 0
  }

  /** strings.TrimSpace: the text between the leading and the trailing white space. */
  function TrimSpace(s: string): (r: string)
    ensures |r| <= |s|
    ensures r == [] || (!IsSpace(r[0]) && !IsSpace(r[|r| - 1]))
  {
    var i := LeadingSpaces(s);
    s[i..|s| - TrailingSpaces(s[i..])]
  }

  /** TrimSpace keeps a contiguous run of its input and drops only white space around it. */
  lemma TrimSpaceIsSlice(s: string) returns (i: nat, j: nat)
    ensures i <= j <= |s| && TrimSpace(s) == s[i..j]
    ensures forall k :: 0 <= k < i ==> IsSpace(s[k])
    ensures forall k :: j <= k < |s| ==> IsSpace(s[k])
  {
    i := LeadingSpaces(s);
    var t := s[i..];
    j := |s| - TrailingSpaces(t);
    forall k | j <= k < |s|
      ensures IsSpace(s[k])
    {
      assert s[k] == t[k - i];
    }
  }

  /** Leading white space never reaches TrimSpace's result. */
  lemma TrimSpaceSkipsLeadingSpace(c: char, s: string)
    requires IsSpace(c)
    ensures TrimSpace([c] + s) == TrimSpace(s)
  {
    var cs := [c] + s;
    assert cs[1..] == s;
    var i := LeadingSpaces(s);
    assert LeadingSpaces(cs) == i + 1;
    assert cs[i + 1..] == s[i..];
  }

  /** Text without white space at either end is left alone by TrimSpace. */
  lemma TrimSpaceOfTrimmed(s: string)
    requires s == [] || (!IsSpace(s[0]) && !IsSpace(s[|s| - 1]))
    ensures TrimSpace(s) == s
  {
    assert s[0..] == s;
  }

  /** The index of the first c in s, or |s| where Go's strings.IndexByte answers -1. */
  function IndexOf(s: string, c: char): (k: nat)
    ensures k <= |s|
    ensures forall i :: 0 <= i < k ==> s[i] != c
    ensures k < |s| ==> s[k] == c
    decreases |s|
  {
    if s == [] then 0 else if s[0] == c then 0 else 1 + IndexOf(s[1..], c)
  }

  /** strings.Join. */
  function Join(elems: seq<string>, sep: string): string
    decreases |elems|
  {
    if |elems| == 0 then []
    else if |elems| == 1 then elems[0]
    else elems[0] + sep + Join(elems[1..], sep)
  }

  /** Joining one more element adds the separator and the element at the end. */
  lemma {:induction false} JoinSnoc(elems: seq<string>, last: string, sep: string)
    requires |elems| >= 1
    ensures Join(elems + [last], sep) == Join(elems, sep) + sep + last
    decreases |elems|
  {
    if |elems| > 1 {
      assert (elems + [last])[1..] == elems[1..] + [last];
      JoinSnoc(elems[1..], last, sep);
    }
  }

  /** Joining two non-empty lists one after the other puts the separator between the two joined texts. */
  lemma {:induction false} JoinAppend(a: seq<string>, b: seq<string>, sep: string)
    requires a != [] && b != []
    ensures Join(a + b, sep) == Join(a, sep) + sep + Join(b, sep)
    decreases |a|
  {
    if |a| > 1 {
      assert (a + b)[1..] == a[1..] + b;
      JoinAppend(a[1..], b, sep);
    } else {
      assert (a + b)[1..] == b;
    }
  }

  /** Joined text starts where its first element starts. */
  lemma JoinStarts(elems: seq<string>, sep: string)
    requires |elems| >= 1 && elems[0] != []
    ensures Join(elems, sep) != [] && Join(elems, sep)[0] == elems[0][0]
  {
  }

  /** Joined text ends where its last element ends. */
  lemma JoinEnds(elems: seq<string>, sep: string)
    requires |elems| >= 1 && elems[|elems| - 1] != []
    ensures var j := Join(elems, sep); j != [] && j[|j| - 1] == elems[|elems| - 1][|elems[|elems| - 1]| - 1]
  {
    var n := |elems|;
    if n > 1 {
      JoinSnoc(elems[..n - 1], elems[n - 1], sep);
      assert elems[..n - 1] + [elems[n - 1]] == elems;
    }
  }

  /** Text added to the first and to the last element ends up at the two ends of the joined text. */
  lemma JoinWrapped(elems: seq<string>, before: string, after: string, sep: string)
    requires |elems| >= 2
    ensures Join([before + elems[0]] + elems[1..|elems| - 1] + [elems[|elems| - 1] + after], sep)
         == before + Join(elems, sep) + after
  {
    var n := |elems|;
    var first := elems[0];
    var mid := elems[1..n - 1];
    var last := elems[n - 1];
    var group := [before + first] + mid + [last + after];
    var inner := Join(mid + [last], sep);
    assert Join(mid + [last + after], sep) == inner + after by {
      if mid != [] {
        JoinSnoc(mid, last + after, sep);
        JoinSnoc(mid, last, sep);
      }
    }
    assert group[1..] == mid + [last + after];
    assert elems[1..] == mid + [last];
    calc {
      Join(group, sep);
      (before + first) + sep + (inner + after);
      before + (first + sep + inner) + after;
      before + Join(elems, sep) + after;
    }
  }

  /** strings.Split with a one-character separator: the pieces between the separators, in order. */
  function Split(s: string, sep: char): (r: seq<string>)
    ensures |r| >= 1
    ensures forall i :: 0 <= i < |r| ==> sep !in r[i]
    ensures Join(r, [sep]) == s
    decreases |s|
  {
    if s == [] then [[]]
    else
      var rest := Split(s[1..], sep);
      if s[0] == sep then
        assert Join([[]] + rest, [sep]) == [sep] + Join(rest, [sep]) by {
          assert ([[]] + rest)[1..] == rest;
        }
        [[]] + rest
      else
        var r := [[s[0]] + rest[0]] + rest[1..];
        assert Join(r, [sep]) == [s[0]] + Join(rest, [sep]) by {
          if |rest| > 1 {
            assert r[1..] == rest[1..];
          }
        }
        r
  }

  /** A separator-free piece splits to itself. */
  lemma {:induction false} SplitWithoutSeparator(p: string, sep: char)
    requires sep !in p
    ensures Split(p, sep) == [p]
    decreases |p|
  {
    if p != [] {
      SplitWithoutSeparator(p[1..], sep);
      assert [p[0]] + p[1..] == p;
    }
  }

  /** Splitting stops at the first separator. */
  lemma {:induction false} SplitAtFirstSeparator(p: string, sep: char, rest: string)
    requires sep !in p
    ensures Split(p + [sep] + rest, sep) == [p] + Split(rest, sep)
    decreases |p|
  {
    var s := p + [sep] + rest;
    if p == [] {
      assert s[1..] == rest;
    } else {
      assert s[1..] == p[1..] + [sep] + rest;
      SplitAtFirstSeparator(p[1..], sep, rest);
      assert [p[0]] + p[1..] == p;
    }
  }

  /** Split undoes Join when no piece holds the separator. */
  lemma {:induction false} SplitJoin(parts: seq<string>, sep: char)
    requires |parts| >= 1
    requires forall i :: 0 <= i < |parts| ==> sep !in parts[i]
    ensures Split(Join(parts, [sep]), sep) == parts
    decreases |parts|
  {
    if |parts| == 1 {
      SplitWithoutSeparator(parts[0], sep);
    } else {
      SplitAtFirstSeparator(parts[0], sep, Join(parts[1..], [sep]));
      SplitJoin(parts[1..], sep);
      assert [parts[0]] + parts[1..] == parts;
    }
  }

  /** A character that is not in the text is in none of its pieces. */
  lemma SplitAvoids(s: string, sep: char, c: char)
    requires c !in s
    ensures forall i :: 0 <= i < |Split(s, sep)| ==> c !in Split(s, sep)[i]
  {
    var parts := Split(s, sep);
    forall i | 0 <= i < |parts|
      ensures c !in parts[i]
    {
      if c in parts[i] {
        JoinKeeps(parts, [sep], i, c);
      }
    }
  }

  /** Join adds no character that is neither in a piece nor in the separator. */
  lemma {:induction false} JoinAvoids(elems: seq<string>, sep: string, c: char)
    requires c !in sep
    requires forall i :: 0 <= i < |elems| ==> c !in elems[i]
    ensures c !in Join(elems, sep)
    decreases |elems|
  {
    if |elems| > 1 {
      JoinAvoids(elems[1..], sep, c);
    }
  }

  /** Every character of a piece occurs in the joined text. */
  lemma {:induction false} JoinKeeps(elems: seq<string>, sep: string, i: nat, c: char)
    requires i < |elems| && c in elems[i]
    ensures c in Join(elems, sep)
    decreases |elems|
  {
    if |elems| > 1 && i > 0 {
      JoinKeeps(elems[1..], sep, i - 1, c);
    }
  }
}
