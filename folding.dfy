/**
  The brace folding strategy of the editor: one pass over the text with a
  stack of opening-brace offsets, producing a fold for every matched brace
  pair whose braces are on different lines, sorted by start offset.
*/
module Folding {
  import opened Strings

  /** A foldable region: from the opening brace up to and including the closing one. */
  datatype NewFolding = NewFolding(startOffset: int, endOffset: int)

  /** The locals of the pass: open-brace offsets, start of the current line, folds so far. */
  datatype ScanState = ScanState(startOffsets: seq<int>, lastNewLineOffset: int, foldings: seq<NewFolding>)

  /** One character of the pass, at offset `i`. */
  function ScanStep(st: ScanState, i: int, c: char, open: char, close: char): ScanState {
    if c == open then
      st.(startOffsets := st.startOffsets + [i])
    else if c == close && |st.startOffsets| > 0 then
      var startOffset := st.startOffsets[|st.startOffsets| - 1];
      var rest := st.startOffsets[..|st.startOffsets| - 1];
      if startOffset < st.lastNewLineOffset then
        ScanState(rest, st.lastNewLineOffset, st.foldings + [NewFolding(startOffset, i + 1)])
      else
        ScanState(rest, st.lastNewLineOffset, st.foldings)
    else if c == '\n' || c == '\r' then
      st.(lastNewLineOffset := i + 1)
    else
      st
  }

  /** The state of the pass after the first `n` characters. */
  function Scan(text: string, n: nat, open: char, close: char): ScanState
    requires n <= |text|
  {
    if n == 0 then ScanState([], 0, [])
    else ScanStep(Scan(text, n - 1, open, close), n - 1, text[n - 1], open, close)
  }

  predicate IsLineBreak(c: char) {
    c == '\n' || c == '\r'
  }

  /** The opening braces less the closing braces of `text[p..n]`. */
  function Balance(text: string, p: int, n: int, open: char, close: char): int
    requires 0 <= p && n <= |text|
    decreases n - p
  {
    if n <= p then 0
    else
      Balance(text, p, n - 1, open, close)
        + (if text[n - 1] == open then 1 else 0) - (if text[n - 1] == close then 1 else 0)
  }

  /** The least balance of a prefix of `text[p..n]`, the empty prefix included. */
  function MinBalance(text: string, p: int, n: int, open: char, close: char): int
    requires 0 <= p && n <= |text|
    decreases n - p
  {
    if n <= p then 0
    else
      var m := MinBalance(text, p, n - 1, open, close);
      var b := Balance(text, p, n, open, close);
      if b < m then b else m
  }

  /** No prefix of `text[p..n]` closes more braces than it opens. */
  predicate NeverBelow(text: string, p: int, n: int, open: char, close: char)
    requires 0 <= p && n <= |text|
  {
    MinBalance(text, p, n, open, close) >= 0
  }

  /** `Balance` counts the braces of the slice. */
  lemma {:induction false} BalanceCounts(text: string, p: int, n: int, open: char, close: char)
    requires 0 <= p <= n <= |text|
    ensures Balance(text, p, n, open, close) == Count(text[p..n], open) - Count(text[p..n], close)
    decreases n - p
  {
    if n == p {
      assert text[p..n] == [];
    } else {
      BalanceCounts(text, p, n - 1, open, close);
      assert text[p..n] == text[p..n - 1] + [text[n - 1]];
      CountAppend(text[p..n - 1], [text[n - 1]], open);
      CountAppend(text[p..n - 1], [text[n - 1]], close);
      assert [text[n - 1]][1..] == [];
    }
  }

  /** `NeverBelow` says what its name says: every prefix of the slice opens at least as many braces as it closes. */
  lemma {:induction false} NeverBelowPrefixes(text: string, p: int, n: int, open: char, close: char)
    requires 0 <= p <= n <= |text|
    ensures NeverBelow(text, p, n, open, close) <==> forall m :: p <= m <= n ==> Balance(text, p, m, open, close) >= 0
    decreases n - p
  {
    if n > p {
      NeverBelowPrefixes(text, p, n - 1, open, close);
      assert NeverBelow(text, p, n, open, close) <==>
        NeverBelow(text, p, n - 1, open, close) && Balance(text, p, n, open, close) >= 0;
      if forall m :: p <= m <= n ==> Balance(text, p, m, open, close) >= 0 {
        assert forall m :: p <= m <= n - 1 ==> Balance(text, p, m, open, close) >= 0;
      }
    }
  }

  /**
    `text[s]` is an opening brace and `text[e - 1]` the closing brace that
    matches it: the text strictly between them is balanced.
  */
  ghost predicate Matched(text: string, open: char, close: char, s: int, e: int) {
    && 0 <= s < e - 1 && e <= |text|
    && text[s] == open && text[e - 1] == close
    && NeverBelow(text, s + 1, e - 1, open, close) && Balance(text, s + 1, e - 1, open, close) == 0
  }

  /** A line break lies strictly between the first and the last character of the region. */
  ghost predicate SpansLines(text: string, f: NewFolding) {
    && 0 <= f.startOffset < f.endOffset <= |text|
    && exists k :: f.startOffset < k < f.endOffset - 1 && IsLineBreak(text[k])
  }

  /** A fold of `text`: a matched brace pair whose braces are on different lines. */
  ghost predicate IsFold(text: string, open: char, close: char, f: NewFolding) {
    Matched(text, open, close, f.startOffset, f.endOffset) && SpansLines(text, f)
  }

  /** Two regions are nested one in the other or do not overlap. */
  predicate NestedOrDisjoint(a: NewFolding, b: NewFolding) {
    || a.endOffset <= b.startOffset || b.endOffset <= a.startOffset
    || (a.startOffset <= b.startOffset && b.endOffset <= a.endOffset)
    || (b.startOffset <= a.startOffset && a.endOffset <= b.endOffset)
  }

  predicate SortedByStart(fs: seq<NewFolding>) {
    forall a, b :: 0 <= a < b < |fs| ==> fs[a].startOffset <= fs[b].startOffset
  }

  /** `List.Sort` by start offset, as an insertion sort. */
  function SortByStart(fs: seq<NewFolding>): (r: seq<NewFolding>)
    ensures SortedByStart(r) && multiset(r) == multiset(fs)
  {
    if fs == [] then []
    else
      var r := InsertByStart(SortByStart(fs[..|fs| - 1]), fs[|fs| - 1]);
      assert fs == fs[..|fs| - 1] + [fs[|fs| - 1]];
      r
  }

  function InsertByStart(sorted: seq<NewFolding>, f: NewFolding): (r: seq<NewFolding>)
    requires SortedByStart(sorted)
    ensures SortedByStart(r) && multiset(r) == multiset(sorted) + multiset{f}
  {
    if sorted == [] || f.startOffset <= sorted[0].startOffset then [f] + sorted
    else
      var rest := InsertByStart(sorted[1..], f);
      assert sorted == [sorted[0]] + sorted[1..];
      HeadBelowRest(sorted, f, rest);
      [sorted[0]] + rest
  }

  /** The first fold of a sorted list starts no later than the folds after it or a later-starting fold. */
  lemma HeadBelowRest(sorted: seq<NewFolding>, f: NewFolding, rest: seq<NewFolding>)
    requires SortedByStart(sorted) && sorted != [] && sorted[0].startOffset < f.startOffset
    requires multiset(rest) == multiset(sorted[1..]) + multiset{f}
    ensures forall x :: x in rest ==> sorted[0].startOffset <= x.startOffset
  {
    forall x | x in rest
      ensures sorted[0].startOffset <= x.startOffset
    {
      assert x in multiset(rest);
      if x != f {
        assert x in multiset(sorted[1..]);
        var j :| 0 <= j < |sorted[1..]| && sorted[1..][j] == x;
        assert sorted[j + 1] == x;
      }
    }
  }

  /** What holds of the pass after `n` characters. */
  ghost predicate ScanInvariant(text: string, n: nat, open: char, close: char, st: ScanState)
    requires n <= |text|
  {
    var stack := st.startOffsets;
    && (forall j :: 0 <= j < |stack| ==> 0 <= stack[j] < n && text[stack[j]] == open)
    && (forall a, b :: 0 <= a < b < |stack| ==> stack[a] < stack[b])
    && 0 <= st.lastNewLineOffset <= n
    && (st.lastNewLineOffset > 0 ==>
          IsLineBreak(text[st.lastNewLineOffset - 1]) && text[st.lastNewLineOffset - 1] != open)
    && (forall f :: f in st.foldings ==>
          SpansLines(text, f) && text[f.startOffset] == open && f.endOffset <= n)
    && (forall f, j :: f in st.foldings && 0 <= j < |stack| ==>
          stack[j] < f.startOffset || f.endOffset <= stack[j])
    && (forall a, b :: 0 <= a < b < |st.foldings| ==>
          NestedOrDisjoint(st.foldings[a], st.foldings[b])
          && st.foldings[a].startOffset != st.foldings[b].startOffset)
  }

  /** The pass has used no more braces than it has seen. */
  ghost predicate BraceCounts(text: string, n: nat, open: char, close: char, st: ScanState)
    requires n <= |text|
  {
    && |st.foldings| + |st.startOffsets| <= Count(text[..n], open)
    && |st.foldings| <= Count(text[..n], close)
  }

  lemma ScanStepKeepsCounts(text: string, n: nat, open: char, close: char, st: ScanState)
    requires n < |text| && BraceCounts(text, n, open, close, st)
    ensures BraceCounts(text, n + 1, open, close, ScanStep(st, n, text[n], open, close))
  {
    assert text[..n + 1] == text[..n] + [text[n]];
    CountAppend(text[..n], [text[n]], open);
    CountAppend(text[..n], [text[n]], close);
  }

  lemma ScanStepKeepsInvariant(text: string, n: nat, open: char, close: char, st: ScanState)
    requires n < |text| && ScanInvariant(text, n, open, close, st)
    ensures ScanInvariant(text, n + 1, open, close, ScanStep(st, n, text[n], open, close))
  {
    var c := text[n];
    if c == open {
      OpenKeepsInvariant(text, n, open, close, st);
    } else if c == close && |st.startOffsets| > 0 {
      CloseKeepsInvariant(text, n, open, close, st);
    } else if IsLineBreak(c) {
      BreakKeepsInvariant(text, n, open, close, st);
    } else {
      OtherKeepsInvariant(text, n, open, close, st);
    }
  }

  /** An opening brace is pushed. */
  lemma OpenKeepsInvariant(text: string, n: nat, open: char, close: char, st: ScanState)
    requires n < |text| && text[n] == open && ScanInvariant(text, n, open, close, st)
    ensures ScanInvariant(text, n + 1, open, close, ScanStep(st, n, text[n], open, close))
  {
  }

  /** A closing brace pops the innermost open brace and folds the pair when a line break lies between. */
  lemma CloseKeepsInvariant(text: string, n: nat, open: char, close: char, st: ScanState)
    requires n < |text| && text[n] != open && text[n] == close && |st.startOffsets| > 0
    requires ScanInvariant(text, n, open, close, st)
    ensures ScanInvariant(text, n + 1, open, close, ScanStep(st, n, text[n], open, close))
  {
    var stack := st.startOffsets;
    var s := stack[|stack| - 1];
    if s < st.lastNewLineOffset {
      var f := NewFolding(s, n + 1);
      var k := st.lastNewLineOffset - 1;
      assert s < k < n && IsLineBreak(text[k]);
      assert SpansLines(text, f);
      var fs := st.foldings + [f];
      forall a, b | 0 <= a < b < |fs|
        ensures NestedOrDisjoint(fs[a], fs[b]) && fs[a].startOffset != fs[b].startOffset
      {
        if b == |fs| - 1 {
          assert fs[a] in st.foldings;
        }
      }
    }
  }

  /** A line break moves the start of the current line. */
  lemma BreakKeepsInvariant(text: string, n: nat, open: char, close: char, st: ScanState)
    requires n < |text| && text[n] != open && !(text[n] == close && |st.startOffsets| > 0)
    requires IsLineBreak(text[n]) && ScanInvariant(text, n, open, close, st)
    ensures ScanInvariant(text, n + 1, open, close, ScanStep(st, n, text[n], open, close))
  {
  }

  /** Any other character changes nothing. */
  lemma OtherKeepsInvariant(text: string, n: nat, open: char, close: char, st: ScanState)
    requires n < |text| && text[n] != open && !(text[n] == close && |st.startOffsets| > 0)
    requires !IsLineBreak(text[n]) && ScanInvariant(text, n, open, close, st)
    ensures ScanInvariant(text, n + 1, open, close, ScanStep(st, n, text[n], open, close))
  {
  }

  lemma {:induction false} ScanHasInvariant(text: string, n: nat, open: char, close: char)
    requires n <= |text|
    ensures ScanInvariant(text, n, open, close, Scan(text, n, open, close))
    ensures BraceCounts(text, n, open, close, Scan(text, n, open, close))
  {
    if n > 0 {
      ScanHasInvariant(text, n - 1, open, close);
      ScanStepKeepsInvariant(text, n - 1, open, close, Scan(text, n - 1, open, close));
      ScanStepKeepsCounts(text, n - 1, open, close, Scan(text, n - 1, open, close));
    }
  }

  // ---------------------------------------------------------------------
  // The stack pairs every closing brace with the innermost opening brace
  // still open, so the folds are exactly the matched pairs over a line break.

  /**
    From each stacked opening brace to position `n` the text never closes
    more than it opens, and stays open by as many braces as lie above that
    brace on the stack.
  */
  ghost predicate StackBalanced(text: string, n: nat, open: char, close: char, stack: seq<int>)
    requires n <= |text|
  {
    forall j :: 0 <= j < |stack| ==>
      && 0 <= stack[j] < n && text[stack[j]] == open
      && NeverBelow(text, stack[j] + 1, n, open, close)
      && Balance(text, stack[j] + 1, n, open, close) == |stack| - 1 - j
  }

  /** Every opening brace before `n` that is not closed yet is on the stack. */
  ghost predicate StackComplete(text: string, n: nat, open: char, close: char, stack: seq<int>)
    requires n <= |text|
  {
    forall p :: 0 <= p < n && text[p] == open && NeverBelow(text, p + 1, n, open, close) ==> p in stack
  }

  ghost predicate FoldsMatched(text: string, open: char, close: char, folds: seq<NewFolding>) {
    forall f :: f in folds ==> Matched(text, open, close, f.startOffset, f.endOffset)
  }

  /** What the pass knows about its stack and its folds, beyond `ScanInvariant`. */
  ghost predicate PairsInvariant(text: string, n: nat, open: char, close: char, st: ScanState)
    requires n <= |text|
  {
    && StackBalanced(text, n, open, close, st.startOffsets)
    && StackComplete(text, n, open, close, st.startOffsets)
    && FoldsMatched(text, open, close, st.foldings)
  }

  /** A stretch of text grown by one character. */
  lemma ExtendStretch(text: string, p: nat, n: nat, open: char, close: char)
    requires p <= n < |text|
    ensures Balance(text, p, n + 1, open, close) == Balance(text, p, n, open, close)
      + (if text[n] == open then 1 else 0) - (if text[n] == close then 1 else 0)
    ensures NeverBelow(text, p, n + 1, open, close) <==>
      NeverBelow(text, p, n, open, close) && Balance(text, p, n + 1, open, close) >= 0
  {
  }

  /** An opening brace is pushed: every stretch from a stacked brace opens one more. */
  lemma PushBalanced(text: string, n: nat, open: char, close: char, stack: seq<int>)
    requires n < |text| && open != close && text[n] == open && StackBalanced(text, n, open, close, stack)
    ensures StackBalanced(text, n + 1, open, close, stack + [n])
  {
    var stack' := stack + [n];
    forall j | 0 <= j < |stack|
      ensures NeverBelow(text, stack'[j] + 1, n + 1, open, close)
      ensures Balance(text, stack'[j] + 1, n + 1, open, close) == |stack'| - 1 - j
    {
      ExtendStretch(text, stack[j] + 1, n, open, close);
    }
  }

  lemma PushComplete(text: string, n: nat, open: char, close: char, stack: seq<int>)
    requires n < |text| && text[n] == open && StackComplete(text, n, open, close, stack)
    ensures StackComplete(text, n + 1, open, close, stack + [n])
  {
    forall p | 0 <= p < n + 1 && text[p] == open && NeverBelow(text, p + 1, n + 1, open, close)
      ensures p in stack + [n]
    {
      if p < n {
        ExtendStretch(text, p + 1, n, open, close);
      }
    }
  }

  /** A closing brace pops the innermost open brace, which it matches. */
  lemma PopBalanced(text: string, n: nat, open: char, close: char, stack: seq<int>)
    requires n < |text| && open != close && text[n] == close && |stack| > 0
    requires StackBalanced(text, n, open, close, stack)
    ensures StackBalanced(text, n + 1, open, close, stack[..|stack| - 1])
    ensures Matched(text, open, close, stack[|stack| - 1], n + 1)
  {
    var k := |stack| - 1;
    var stack' := stack[..k];
    forall j | 0 <= j < k
      ensures NeverBelow(text, stack'[j] + 1, n + 1, open, close)
      ensures Balance(text, stack'[j] + 1, n + 1, open, close) == |stack'| - 1 - j
    {
      ExtendStretch(text, stack[j] + 1, n, open, close);
    }
  }

  lemma PopComplete(text: string, n: nat, open: char, close: char, stack: seq<int>)
    requires n < |text| && open != close && text[n] == close && |stack| > 0
    requires StackBalanced(text, n, open, close, stack) && StackComplete(text, n, open, close, stack)
    ensures StackComplete(text, n + 1, open, close, stack[..|stack| - 1])
  {
    var k := |stack| - 1;
    forall p | 0 <= p < n + 1 && text[p] == open && NeverBelow(text, p + 1, n + 1, open, close)
      ensures p in stack[..k]
    {
      ExtendStretch(text, p + 1, n, open, close);
      var j :| 0 <= j < |stack| && stack[j] == p;
      assert j < k;
      assert stack[..k][j] == p;
    }
  }

  /** Any other character, or a closing brace with nothing open, leaves the stack as it is. */
  lemma KeepBalanced(text: string, n: nat, open: char, close: char, stack: seq<int>)
    requires n < |text| && text[n] != open && !(text[n] == close && |stack| > 0)
    requires StackBalanced(text, n, open, close, stack)
    ensures StackBalanced(text, n + 1, open, close, stack)
  {
    forall j | 0 <= j < |stack|
      ensures NeverBelow(text, stack[j] + 1, n + 1, open, close)
      ensures Balance(text, stack[j] + 1, n + 1, open, close) == |stack| - 1 - j
    {
      ExtendStretch(text, stack[j] + 1, n, open, close);
    }
  }

  lemma KeepComplete(text: string, n: nat, open: char, close: char, stack: seq<int>)
    requires n < |text| && text[n] != open
    requires StackComplete(text, n, open, close, stack)
    ensures StackComplete(text, n + 1, open, close, stack)
  {
    forall p | 0 <= p < n + 1 && text[p] == open && NeverBelow(text, p + 1, n + 1, open, close)
      ensures p in stack
    {
      ExtendStretch(text, p + 1, n, open, close);
    }
  }

  lemma {:induction false} ScanPairs(text: string, n: nat, open: char, close: char)
    requires n <= |text| && open != close
    ensures PairsInvariant(text, n, open, close, Scan(text, n, open, close))
  {
    if n > 0 {
      ScanPairs(text, n - 1, open, close);
      var st := Scan(text, n - 1, open, close);
      PairsStep(text, n - 1, open, close, st);
    }
  }

  lemma PairsStep(text: string, n: nat, open: char, close: char, st: ScanState)
    requires n < |text| && open != close && PairsInvariant(text, n, open, close, st)
    ensures PairsInvariant(text, n + 1, open, close, ScanStep(st, n, text[n], open, close))
  {
    var stack := st.startOffsets;
    var c := text[n];
    var next := ScanStep(st, n, c, open, close);
    if c == open {
      assert next.startOffsets == stack + [n] && next.foldings == st.foldings;
      PushBalanced(text, n, open, close, stack);
      PushComplete(text, n, open, close, stack);
    } else if c == close && |stack| > 0 {
      var k := |stack| - 1;
      assert next.startOffsets == stack[..k];
      assert next.foldings == st.foldings || next.foldings == st.foldings + [NewFolding(stack[k], n + 1)];
      PopBalanced(text, n, open, close, stack);
      PopComplete(text, n, open, close, stack);
    } else {
      assert next.startOffsets == stack && next.foldings == st.foldings;
      KeepBalanced(text, n, open, close, stack);
      KeepComplete(text, n, open, close, stack);
    }
  }

  /** Every line break the pass has seen lies before the start of the current line. */
  ghost predicate BreaksSeen(text: string, n: nat, st: ScanState)
    requires n <= |text|
  {
    forall k :: 0 <= k < n && IsLineBreak(text[k]) ==> k < st.lastNewLineOffset
  }

  lemma {:induction false} ScanSeesBreaks(text: string, n: nat, open: char, close: char)
    requires n <= |text| && !IsLineBreak(open) && !IsLineBreak(close)
    ensures BreaksSeen(text, n, Scan(text, n, open, close))
  {
    if n > 0 {
      ScanSeesBreaks(text, n - 1, open, close);
    }
  }

  /** Folds are only ever added. */
  lemma {:induction false} FoldingsGrow(text: string, n: nat, m: nat, open: char, close: char)
    requires n <= m <= |text|
    ensures forall f :: f in Scan(text, n, open, close).foldings ==> f in Scan(text, m, open, close).foldings
    decreases m
  {
    if n < m {
      FoldingsGrow(text, n, m - 1, open, close);
    }
  }

  /** With the same character for both braces every brace is pushed and nothing is folded. */
  lemma {:induction false} SameBracesFoldNothing(text: string, n: nat, open: char, close: char)
    requires n <= |text| && open == close
    ensures Scan(text, n, open, close).foldings == []
  {
    if n > 0 {
      SameBracesFoldNothing(text, n - 1, open, close);
    }
  }

  /** Every fold of the pass is a matched brace pair over a line break. */
  lemma FoldedPairIsMatched(text: string, open: char, close: char, f: NewFolding)
    requires f in Scan(text, |text|, open, close).foldings
    ensures IsFold(text, open, close, f)
  {
    if open == close {
      SameBracesFoldNothing(text, |text|, open, close);
      assert false;
    }
    ScanHasInvariant(text, |text|, open, close);
    ScanPairs(text, |text|, open, close);
  }

  /** An opening brace whose stretch to `n` is balanced is the innermost one open. */
  lemma TopOfStack(text: string, n: nat, open: char, close: char, stack: seq<int>, s: int)
    requires n <= |text| && StackBalanced(text, n, open, close, stack) && StackComplete(text, n, open, close, stack)
    requires 0 <= s < n && text[s] == open
    requires NeverBelow(text, s + 1, n, open, close) && Balance(text, s + 1, n, open, close) == 0
    ensures |stack| > 0 && stack[|stack| - 1] == s
  {
    assert s in stack;
    var j :| 0 <= j < |stack| && stack[j] == s;
    assert j == |stack| - 1;
  }

  /** Just before its closing brace, the opening brace of a matched pair is the innermost one open. */
  lemma MatchedOnTop(text: string, open: char, close: char, s: int, e: int)
    requires open != close && Matched(text, open, close, s, e)
    ensures var stack := Scan(text, e - 1, open, close).startOffsets;
      |stack| > 0 && stack[|stack| - 1] == s
  {
    var n: nat := e - 1;
    ScanPairs(text, n, open, close);
    TopOfStack(text, n, open, close, Scan(text, n, open, close).startOffsets, s);
  }

  /** A closing brace that pops an opening brace from an earlier line adds that fold. */
  lemma PopFolds(text: string, s: int, n: nat, open: char, close: char)
    requires n < |text| && text[n] == close && open != close
    requires var st := Scan(text, n, open, close);
      |st.startOffsets| > 0 && st.startOffsets[|st.startOffsets| - 1] == s && s < st.lastNewLineOffset
    ensures NewFolding(s, n + 1) in Scan(text, n + 1, open, close).foldings
  {
  }

  /** Every matched brace pair over a line break is folded, when the braces are two characters other than line breaks. */
  lemma MatchedPairIsFolded(text: string, open: char, close: char, f: NewFolding)
    requires open != close && !IsLineBreak(open) && !IsLineBreak(close)
    requires IsFold(text, open, close, f)
    ensures f in Scan(text, |text|, open, close).foldings
  {
    var s := f.startOffset;
    var n: nat := f.endOffset - 1;
    MatchedOnTop(text, open, close, s, n + 1);
    ScanSeesBreaks(text, n, open, close);
    var k :| s < k < n && IsLineBreak(text[k]);
    assert s < Scan(text, n, open, close).lastNewLineOffset;
    PopFolds(text, s, n, open, close);
    assert f == NewFolding(s, n + 1);
    FoldingsGrow(text, n + 1, |text|, open, close);
  }

  /** The pass folds exactly the matched brace pairs whose braces are on different lines. */
  lemma ScanFoldsMatchedPairs(text: string, open: char, close: char, f: NewFolding)
    requires open != close && !IsLineBreak(open) && !IsLineBreak(close)
    ensures f in Scan(text, |text|, open, close).foldings <==> IsFold(text, open, close, f)
  {
    if f in Scan(text, |text|, open, close).foldings {
      FoldedPairIsMatched(text, open, close, f);
    }
    if IsFold(text, open, close, f) {
      MatchedPairIsFolded(text, open, close, f);
    }
  }

  /** Reordering the folds keeps what holds of each fold and of each pair. */
  lemma SortingKeepsFolds(text: string, open: char, close: char, found: seq<NewFolding>, sorted: seq<NewFolding>)
    requires multiset(sorted) == multiset(found)
    requires forall f :: f in found ==> IsFold(text, open, close, f)
    requires forall a, b :: 0 <= a < b < |found| ==> NestedOrDisjoint(found[a], found[b])
    ensures forall f :: f in sorted ==> IsFold(text, open, close, f)
    ensures forall a, b :: 0 <= a < |sorted| && 0 <= b < |sorted| ==> NestedOrDisjoint(sorted[a], sorted[b])
  {
    forall f | f in sorted
      ensures f in found
    {
      assert f in multiset(sorted);
    }
    forall a, b | 0 <= a < |sorted| && 0 <= b < |sorted|
      ensures NestedOrDisjoint(sorted[a], sorted[b])
    {
      var fa, fb := sorted[a], sorted[b];
      assert fa in multiset(sorted) && fb in multiset(sorted);
      var i :| 0 <= i < |found| && found[i] == fa;
      var j :| 0 <= j < |found| && found[j] == fb;
      if i < j {
        assert NestedOrDisjoint(found[i], found[j]);
      } else if j < i {
        assert NestedOrDisjoint(found[j], found[i]);
      }
    }
  }

  /** Every fold uses up one opening and one closing brace: unmatched braces give nothing. */
  lemma FoldsUseBraces(text: string, open: char, close: char)
    ensures var folds := Scan(text, |text|, open, close).foldings;
      |folds| <= Count(text, open) && |folds| <= Count(text, close)
  {
    ScanHasInvariant(text, |text|, open, close);
    assert text[..|text|] == text;
  }

  class BraceFoldingStrategy {
    var openingBrace: char
    var closingBrace: char

    constructor ()
      ensures openingBrace == '{' && closingBrace == '}'
    {
      openingBrace := '{';
      closingBrace := '}';
    }

    /** The folds of `text`, sorted by start; every fold spans a line break and any two nest or are disjoint. */
    method CreateNewFoldings(text: string) returns (newFoldings: seq<NewFolding>)
      ensures multiset(newFoldings) == multiset(Scan(text, |text|, openingBrace, closingBrace).foldings)
      ensures SortedByStart(newFoldings)
      ensures forall f :: f in newFoldings ==> IsFold(text, openingBrace, closingBrace, f)
      ensures openingBrace != closingBrace && !IsLineBreak(openingBrace) && !IsLineBreak(closingBrace) ==>
                forall f :: IsFold(text, openingBrace, closingBrace, f) ==> f in newFoldings
      ensures forall a, b :: 0 <= a < |newFoldings| && 0 <= b < |newFoldings| ==>
                NestedOrDisjoint(newFoldings[a], newFoldings[b])
      ensures |newFoldings| <= Count(text, openingBrace) && |newFoldings| <= Count(text, closingBrace)
    {
      newFoldings := [];
      var startOffsets: seq<int> := [];
      var lastNewLineOffset := 0;
      var open := openingBrace;
      var close := closingBrace;
      for i := 0 to |text|
        invariant ScanState(startOffsets, lastNewLineOffset, newFoldings) == Scan(text, i, open, close)
      {
        var c := text[i];
        if c == open {
          startOffsets := startOffsets + [i];
        } else if c == close && |startOffsets| > 0 {
          var startOffset := startOffsets[|startOffsets| - 1];
          startOffsets := startOffsets[..|startOffsets| - 1];
          if startOffset < lastNewLineOffset {
            newFoldings := newFoldings + [NewFolding(startOffset, i + 1)];
          }
        } else if c == '\n' || c == '\r' {
          lastNewLineOffset := i + 1;
        }
      }
      ScanHasInvariant(text, |text|, open, close);
      ghost var found := newFoldings;
      forall f | f in found
        ensures IsFold(text, open, close, f)
      {
        FoldedPairIsMatched(text, open, close, f);
      }
      newFoldings := SortByStart(newFoldings);
      SortingKeepsFolds(text, open, close, found, newFoldings);
      FoldsUseBraces(text, open, close);
      assert |newFoldings| == |multiset(newFoldings)| == |multiset(found)| == |found|;
      if open != close && !IsLineBreak(open) && !IsLineBreak(close) {
        forall f | IsFold(text, open, close, f)
          ensures f in newFoldings
        {
          MatchedPairIsFolded(text, open, close, f);
          assert f in multiset(found);
        }
      }
    }

    /** The overload the folding manager calls: the same folds, and never an error offset. */
    method CreateNewFoldingsWithError(text: string) returns (newFoldings: seq<NewFolding>, firstErrorOffset: int)
      ensures firstErrorOffset == -1
      ensures multiset(newFoldings) == multiset(Scan(text, |text|, openingBrace, closingBrace).foldings)
      ensures SortedByStart(newFoldings)
      ensures forall f :: f in newFoldings ==> IsFold(text, openingBrace, closingBrace, f)
      ensures openingBrace != closingBrace && !IsLineBreak(openingBrace) && !IsLineBreak(closingBrace) ==>
                forall f :: IsFold(text, openingBrace, closingBrace, f) ==> f in newFoldings
    {
      firstErrorOffset := -1;
      newFoldings := CreateNewFoldings(text);
    }
  }
}
