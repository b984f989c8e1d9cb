/**
  Text primitives with the meaning the editor relies on: the .NET string
  operations `Replace`, `Contains`, `StartsWith`, `EndsWith` and `Split(char)`,
  plus the "layout-blind" view of a text that the reformatter must preserve.
*/
module Strings {

  /** The full-width semicolon U+FF1B that the reformatter turns into ';'. */
  const FullWidthSemicolon: char := '\U{FF1B}'

  predicate StartsWith(s: string, prefix: string) {
    |prefix| <= |s| && s[..|prefix|] == prefix
  }

  predicate EndsWith(s: string, suffix: string) {
    |suffix| <= |s| && s[|s| - |suffix|..] == suffix
  }

  /** Ordinal substring search, as `String.Contains(string)`. */
  predicate Contains(s: string, pat: string)
    decreases |s|
  {
    StartsWith(s, pat) || (s != [] && Contains(s[1..], pat))
  }

  /**
    `String.Replace(string, string)`: every occurrence of `pat`, found left to
    right and without overlap, is replaced by `rep`.  `pat` is never empty.
  */
  function Replace(s: string, pat: string, rep: string): (r: string)
    requires pat != []
    ensures !Contains(s, pat) ==> r == s
    decreases |s|
  {
    if |s| < |pat| then s
    else if s[..|pat|] == pat then rep + Replace(s[|pat|..], pat, rep)
    else [s[0]] + Replace(s[1..], pat, rep)
  }

  /** Number of occurrences of the character `c` in `s`. */
  function Count(s: string, c: char): nat
  {
    if s == [] then 0 else (if s[0] == c then 1 else 0) + Count(s[1..], c)
  }

  /**
    `String.Split(char)`: the pieces between the occurrences of `c`; there is
    always at least one piece, and none of them contains `c`.
  */
  function Split(s: string, c: char): (r: seq<string>)
    ensures |r| == Count(s, c) + 1
    ensures forall k :: 0 <= k < |r| ==> c !in r[k]
  {
    if s == [] then [[]]
    else
      var rest := Split(s[1..], c);
      if s[0] == c then [[]] + rest
      else [[s[0]] + rest[0]] + rest[1..]
  }

  /** `String.Join(c, pieces)`: the inverse of `Split`. */
  function Join(pieces: seq<string>, c: char): string
  {
    if pieces == [] then []
    else if |pieces| == 1 then pieces[0]
    else pieces[0] + [c] + Join(pieces[1..], c)
  }

  function Last(s: string): char
    requires s != []
  {
    s[|s| - 1]
  }

  /** A string of `n` tab characters. */
  function Tabs(n: nat): (r: string)
    ensures |r| == n
  {
    seq(n, _ => '\t')
  }

  predicate AllTabs(s: string) {
    forall k :: 0 <= k < |s| ==> s[k] == '\t'
  }

  /** Characters the reformatter is free to insert, drop or move. */
  predicate IsLayout(ch: char) {
    ch == ' ' || ch == '\t' || ch == '\r' || ch == '\n'
  }

  /**
    The text with all layout characters erased and the full-width semicolon
    read as ';': two texts with the same `Erase` differ only in layout.
  */
  function Erase(s: string): (r: string)
    ensures |r| <= |s|
  {
    if s == [] then []
    else
      (if IsLayout(s[0]) then [] else [if s[0] == FullWidthSemicolon then ';' else s[0]])
      + Erase(s[1..])
  }

  // ---------------------------------------------------------------------
  // Lemmas about Replace

  lemma {:induction false} ReplaceShrinks(s: string, pat: string, rep: string)
    requires pat != [] && |rep| <= |pat|
    ensures |Replace(s, pat, rep)| <= |s|
    ensures Contains(s, pat) && |rep| < |pat| ==> |Replace(s, pat, rep)| < |s|
    decreases |s|
  {
    if |s| < |pat| {
      assert !StartsWith(s, pat);
      if s != [] { NotContainsShort(s[1..], pat); }
    } else if s[..|pat|] == pat {
      ReplaceShrinks(s[|pat|..], pat, rep);
    } else {
      ReplaceShrinks(s[1..], pat, rep);
    }
  }

  lemma {:induction false} NotContainsShort(s: string, pat: string)
    requires |s| < |pat|
    ensures !Contains(s, pat)
    decreases |s|
  {
    if s != [] { NotContainsShort(s[1..], pat); }
  }

  lemma {:induction false} ReplaceKeepsLength(s: string, pat: string, rep: string)
    requires pat != [] && |rep| == |pat|
    ensures |Replace(s, pat, rep)| == |s|
    decreases |s|
  {
    if |s| < |pat| {
    } else if s[..|pat|] == pat {
      ReplaceKeepsLength(s[|pat|..], pat, rep);
    } else {
      ReplaceKeepsLength(s[1..], pat, rep);
    }
  }

  /** A character found in neither the text nor the replacement is not in the result. */
  lemma {:induction false} ReplaceAvoids(s: string, pat: string, rep: string, c: char)
    requires pat != [] && c !in s && c !in rep
    ensures c !in Replace(s, pat, rep)
    decreases |s|
  {
    if |s| < |pat| {
    } else if s[..|pat|] == pat {
      ReplaceAvoids(s[|pat|..], pat, rep, c);
    } else {
      ReplaceAvoids(s[1..], pat, rep, c);
    }
  }

  /** Replacing a pattern whose first character does not occur changes nothing. */
  lemma {:induction false} ReplaceAbsent(s: string, pat: string, rep: string)
    requires pat != [] && pat[0] !in s
    ensures Replace(s, pat, rep) == s
    decreases |s|
  {
    if |s| < |pat| {
    } else {
      assert s[0] in s;
      assert s[..|pat|] != pat;
      ReplaceAbsent(s[1..], pat, rep);
    }
  }

  /**
    Replacing `pat` by a marker `rep` whose first character the text does not
    contain, and then the marker back by `pat`, restores the text.
  */
  lemma {:induction false} ReplaceRoundTrip(s: string, pat: string, rep: string)
    requires pat != [] && rep != [] && rep[0] !in s
    ensures Replace(Replace(s, pat, rep), rep, pat) == s
    decreases |s|
  {
    if |s| < |pat| {
      ReplaceAbsent(s, rep, pat);
    } else if s[..|pat|] == pat {
      var tail := Replace(s[|pat|..], pat, rep);
      ReplaceRoundTrip(s[|pat|..], pat, rep);
      assert (rep + tail)[..|rep|] == rep;
      assert (rep + tail)[|rep|..] == tail;
      assert s == pat + s[|pat|..];
    } else {
      var tail := Replace(s[1..], pat, rep);
      var z := [s[0]] + tail;
      ReplaceRoundTrip(s[1..], pat, rep);
      assert s[0] in s;
      if |z| < |rep| {
        ReplaceAbsent(tail, rep, pat);
      } else {
        assert z[..|rep|][0] == s[0];
        assert z[1..] == tail;
      }
      assert s == [s[0]] + s[1..];
    }
  }

  // ---------------------------------------------------------------------
  // Lemmas about Erase

  /** The replaced text starts with the text's first character or with the replacement's. */
  lemma ReplaceHead(s: string, pat: string, rep: string)
    requires pat != [] && rep != [] && s != []
    ensures var r := Replace(s, pat, rep);
      r != [] && (r[0] == s[0] || r[0] == rep[0])
  {
  }

  /** Cutting an extended text within the original cuts the original. */
  lemma PrefixOfAppend(a: string, b: string, k: nat)
    requires k <= |a|
    ensures (a + b)[..k] == a[..k]
  {
  }

  /** Cutting an extended text past the original keeps all of the original. */
  lemma PrefixPastAppend(a: string, b: string, k: nat)
    requires k <= |b|
    ensures (a + b)[..|a| + k] == a + b[..k]
  {
  }

  /** A prefix of a text is a prefix of any extension of it. */
  lemma StartsWithAppend(s: string, t: string, prefix: string)
    requires StartsWith(s, prefix)
    ensures StartsWith(s + t, prefix)
  {
    assert (s + t)[..|prefix|] == s[..|prefix|];
  }

  /** Concatenation regroups; stated once so that callers need not rebuild it index by index. */
  lemma AppendAssoc(a: string, b: string, c: string)
    ensures a + b + c == a + (b + c)
  {
  }

  lemma {:induction false} EraseAppend(a: string, b: string)
    ensures Erase(a + b) == Erase(a) + Erase(b)
    decreases |a|
  {
    if a == [] {
      assert a + b == b;
    } else {
      assert (a + b)[1..] == a[1..] + b;
      EraseAppend(a[1..], b);
    }
  }

  /** A replacement that erases to the same text as its pattern changes only layout. */
  lemma {:induction false} EraseReplace(s: string, pat: string, rep: string)
    requires pat != [] && Erase(pat) == Erase(rep)
    ensures Erase(Replace(s, pat, rep)) == Erase(s)
    decreases |s|
  {
    if |s| < |pat| {
    } else if s[..|pat|] == pat {
      EraseReplace(s[|pat|..], pat, rep);
      EraseAppend(rep, Replace(s[|pat|..], pat, rep));
      assert s == pat + s[|pat|..];
      EraseAppend(pat, s[|pat|..]);
    } else {
      EraseReplace(s[1..], pat, rep);
      EraseAppend([s[0]], Replace(s[1..], pat, rep));
      assert s == [s[0]] + s[1..];
      EraseAppend([s[0]], s[1..]);
    }
  }

  lemma EraseTabs(s: string)
    requires AllTabs(s)
    ensures Erase(s) == []
  {
    if s != [] {
      EraseTabs(s[1..]);
    }
  }

  /** Erasing keeps every character that is neither layout nor the full-width semicolon. */
  lemma {:induction false} EraseKeeps(s: string, c: char)
    requires !IsLayout(c) && c != FullWidthSemicolon && c != ';'
    ensures c in s <==> c in Erase(s)
    decreases |s|
  {
    if s != [] {
      EraseKeeps(s[1..], c);
      assert c in s <==> s[0] == c || c in s[1..];
    }
  }

  // ---------------------------------------------------------------------
  // Lemmas about Split and Join

  /** Joining the pieces of a split gives the text back. */
  lemma {:induction false} JoinSplit(s: string, c: char)
    ensures Join(Split(s, c), c) == s
    decreases |s|
  {
    if s != [] {
      JoinSplit(s[1..], c);
      var rest := Split(s[1..], c);
      if s[0] == c {
        assert Split(s, c)[1..] == rest;
      } else {
        var r := Split(s, c);
        if |rest| == 1 {
        } else {
          assert r[1..] == rest[1..];
          assert Join(rest, c) == rest[0] + [c] + Join(rest[1..], c);
        }
      }
    }
  }

  /** The first piece of a split is a prefix of the text. */
  lemma {:induction false} SplitFirstIsPrefix(s: string, c: char)
    ensures StartsWith(s, Split(s, c)[0])
    decreases |s|
  {
    if s != [] {
      SplitFirstIsPrefix(s[1..], c);
    }
  }

  /** The pieces of `left + right` when `left` splits into `sa` and `right` into `sb`. */
  function Fuse(sa: seq<string>, sb: seq<string>): seq<string>
    requires sa != [] && sb != []
  {
    sa[..|sa| - 1] + [sa[|sa| - 1] + sb[0]] + sb[1..]
  }

  /**
    Splitting a concatenation: the last piece of the left part and the first
    piece of the right part fuse into one.
  */
  lemma {:induction false} SplitAppend(a: string, b: string, c: char)
    ensures Split(a + b, c) == Fuse(Split(a, c), Split(b, c))
    decreases |a|
  {
    if a == [] {
      assert a + b == b;
      var sb := Split(b, c);
      assert [] + sb[0] == sb[0];
      assert Fuse([[]], sb) == [sb[0]] + sb[1..] == sb;
    } else {
      assert (a + b)[1..] == a[1..] + b;
      SplitAppend(a[1..], b, c);
      if a[0] == c {
        SplitAppendSeparator(Split(a[1..], c), Split(b, c));
      } else {
        SplitAppendOther(a[0], Split(a[1..], c), Split(b, c));
      }
    }
  }

  lemma SplitAppendSeparator(sa: seq<string>, sb: seq<string>)
    requires sa != [] && sb != []
    ensures [[]] + Fuse(sa, sb) == Fuse([[]] + sa, sb)
  {
    assert ([[]] + sa)[..|sa|] == [[]] + sa[..|sa| - 1];
  }

  lemma SplitAppendOther(x: char, sa: seq<string>, sb: seq<string>)
    requires sa != [] && sb != []
    ensures var r := Fuse(sa, sb); [[x] + r[0]] + r[1..] == Fuse([[x] + sa[0]] + sa[1..], sb)
  {
    var r := Fuse(sa, sb);
    if |sa| == 1 {
      assert r == [sa[0] + sb[0]] + sb[1..];
      assert [x] + (sa[0] + sb[0]) == [x] + sa[0] + sb[0];
    } else {
      assert r[0] == sa[0];
      assert r[1..] == sa[1..|sa| - 1] + [sa[|sa| - 1] + sb[0]] + sb[1..];
      var sa2 := [[x] + sa[0]] + sa[1..];
      assert sa2[..|sa2| - 1] == [[x] + sa[0]] + sa[1..|sa| - 1];
    }
  }

  /** Pieces that do not contain the separator come back from a split of their join. */
  lemma {:induction false} SplitJoin(pieces: seq<string>, c: char)
    requires pieces != []
    requires forall k :: 0 <= k < |pieces| ==> c !in pieces[k]
    ensures Split(Join(pieces, c), c) == pieces
    decreases |pieces|
  {
    SplitFree(pieces[0], c);
    if |pieces| > 1 {
      var rest := Join(pieces[1..], c);
      SplitJoin(pieces[1..], c);
      SplitJoinCons(pieces[0], rest, c);
      assert Join(pieces, c) == pieces[0] + ([c] + rest);
      assert [pieces[0]] + pieces[1..] == pieces;
    }
  }

  /** A separator-free piece, the separator and a rest split as that piece before the pieces of the rest. */
  lemma SplitJoinCons(p: string, rest: string, c: char)
    requires c !in p
    ensures Split(p + ([c] + rest), c) == [p] + Split(rest, c)
  {
    SplitFree(p, c);
    assert Split([c] + rest, c) == [[]] + Split(rest, c) by {
      assert ([c] + rest)[1..] == rest;
    }
    SplitAppend(p, [c] + rest, c);
    assert p + [] == p;
    assert Fuse([p], [[]] + Split(rest, c)) == [p] + Split(rest, c);
  }

  /** Appending text without the separator only extends the last piece. */
  lemma SplitAppendFree(a: string, g: string, c: char)
    requires c !in g
    ensures var sa := Split(a, c);
      Split(a + g, c) == sa[..|sa| - 1] + [sa[|sa| - 1] + g]
  {
    SplitAppend(a, g, c);
    SplitFree(g, c);
  }

  /** Appending a separator-free text to a text that ends in an empty piece makes it that piece. */
  lemma SplitFillsLast(a: string, g: string, c: char)
    requires c !in g && Split(a, c)[|Split(a, c)| - 1] == []
    ensures var sa := Split(a, c);
      Split(a + g, c) == sa[..|sa| - 1] + [g]
  {
    SplitAppendFree(a, g, c);
    assert [] + g == g;
  }

  /** Appending a separator-free text between two separators adds it as a piece of its own, then an empty piece. */
  lemma SplitAppendEnclosed(a: string, s: string, c: char)
    requires c !in s
    ensures Split(a + [c] + s + [c], c) == Split(a, c) + [s, []]
  {
    var sa := Split(a, c);
    SplitEnclosed(s, c);
    assert a + [c] + s + [c] == a + ([c] + (s + [c]));
    SplitAppend(a, [c] + (s + [c]), c);
    var n := |sa| - 1;
    assert sa[n] + [] == sa[n];
    assert sa[..n] + [sa[n]] == sa;
    assert Fuse(sa, [[], s, []]) == sa[..n] + [sa[n] + []] + [s, []];
  }

  /** A separator-free text between two separators splits into itself between two empty pieces. */
  lemma SplitEnclosed(s: string, c: char)
    requires c !in s
    ensures Split([c] + (s + [c]), c) == [[], s, []]
  {
    SplitAppend(s, [c], c);
    SplitFree(s, c);
    assert Split([c], c) == [[], []];
    assert s + [] == s;
    assert Fuse([s], [[], []]) == [s + [], []];
    assert Split(s + [c], c) == [s, []];
  }

  /** The last piece is the text after the last separator: a suffix, preceded by `c` unless it is the whole text. */
  lemma {:induction false} SplitLast(s: string, c: char)
    ensures var parts := Split(s, c); var last := parts[|parts| - 1];
      && EndsWith(s, last)
      && (|last| < |s| ==> s[|s| - |last| - 1] == c)
    decreases |s|
  {
    if s != [] {
      var rest := Split(s[1..], c);
      SplitLast(s[1..], c);
      if s[0] != c && |rest| == 1 {
        assert c !in s[1..] by {
          if c in s[1..] {
            var k :| 0 <= k < |s[1..]| && s[1..][k] == c;
            CountPositive(s[1..], c, k);
          }
        }
        SplitFree(s[1..], c);
        assert [s[0]] + s[1..] == s;
        assert Split(s, c) == [s];
      } else {
        var last := rest[|rest| - 1];
        assert Split(s, c)[|Split(s, c)| - 1] == last;
        assert s[|s| - |last|..] == s[1..][|s[1..]| - |last|..];
        if |last| == |s| - 1 && s[0] != c {
          assert last == s[1..];
          CountFree(s[1..], c);
        }
      }
    }
  }

  lemma {:induction false} CountPositive(s: string, c: char, k: nat)
    requires k < |s| && s[k] == c
    ensures Count(s, c) > 0
    decreases k
  {
    if k > 0 {
      CountPositive(s[1..], c, k - 1);
    }
  }

  /** Replacing a character by text without it leaves none of it. */
  lemma {:induction false} ReplaceRemoves(s: string, c: char, rep: string)
    requires c !in rep
    ensures c !in Replace(s, [c], rep)
    decreases |s|
  {
    if s != [] {
      ReplaceRemoves(s[1..], c, rep);
      assert s[..1] == [c] <==> s[0] == c;
    }
  }

  /** Deleting one character keeps every other character that was there, and adds none. */
  lemma {:induction false} DeleteKeeps(s: string, d: char, c: char)
    requires c != d
    ensures c in Replace(s, [d], []) <==> c in s
    decreases |s|
  {
    if s != [] {
      DeleteKeeps(s[1..], d, c);
      assert s[..1] == [d] <==> s[0] == d;
      assert c in s <==> c == s[0] || c in s[1..];
    }
  }

  /** A text without the separator splits into itself. */
  lemma {:induction false} SplitFree(s: string, c: char)
    requires c !in s
    ensures Split(s, c) == [s]
    decreases |s|
  {
    if s != [] {
      assert s[0] in s;
      assert forall x :: x in s[1..] ==> x in s;
      SplitFree(s[1..], c);
      assert s == [s[0]] + s[1..];
    }
  }

  lemma {:induction false} JoinAppend(pieces: seq<string>, last: string, c: char)
    requires pieces != []
    ensures Join(pieces + [last], c) == Join(pieces, c) + [c] + last
    decreases |pieces|
  {
    if |pieces| == 1 {
    } else {
      assert (pieces + [last])[1..] == pieces[1..] + [last];
      JoinAppend(pieces[1..], last, c);
    }
  }

  // ---------------------------------------------------------------------
  // Lemmas about Count

  lemma {:induction false} CountAppend(a: string, b: string, c: char)
    ensures Count(a + b, c) == Count(a, c) + Count(b, c)
    decreases |a|
  {
    if a == [] {
      assert a + b == b;
    } else {
      assert (a + b)[1..] == a[1..] + b;
      CountAppend(a[1..], b, c);
    }
  }

  /** Replacing a single character changes the length by its count times the growth. */
  lemma {:induction false} ReplaceCharLength(s: string, c: char, rep: string)
    ensures |Replace(s, [c], rep)| + Count(s, c) == |s| + Count(s, c) * |rep|
    decreases |s|
  {
    if s != [] {
      ReplaceCharLength(s[1..], c, rep);
      ReplaceCharHead(s, c, rep);
      var n := Count(s[1..], c);
      if s[0] == c {
        assert Count(s, c) == n + 1;
        MulSucc(n, |rep|);
      } else {
        assert Count(s, c) == n;
      }
    }
  }

  lemma MulSucc(n: nat, m: nat)
    ensures (n + 1) * m == n * m + m
  {
  }

  /** Replacing a character handles the first character, then the rest. */
  lemma ReplaceCharHead(s: string, c: char, rep: string)
    requires s != []
    ensures Replace(s, [c], rep) == (if s[0] == c then rep else [s[0]]) + Replace(s[1..], [c], rep)
  {
    if s[0] == c {
      assert s[..1] == [c];
    } else {
      assert s[..1] != [c];
    }
  }

  /** Replacing one character by text free of another keeps the count of that other. */
  lemma {:induction false} ReplaceCharCount(s: string, c: char, rep: string, d: char)
    requires c != d && d !in rep
    ensures Count(Replace(s, [c], rep), d) == Count(s, d)
    decreases |s|
  {
    if s != [] {
      ReplaceCharCount(s[1..], c, rep, d);
      if s[0] == c {
        assert s[..1] == [c];
        CountAppend(rep, Replace(s[1..], [c], rep), d);
        CountFree(rep, d);
      } else {
        assert s[..1] != [c];
        CountAppend([s[0]], Replace(s[1..], [c], rep), d);
      }
    }
  }

  lemma CountFree(s: string, c: char)
    requires c !in s
    ensures Count(s, c) == 0
  {
    if s != [] { CountFree(s[1..], c); }
  }
}
