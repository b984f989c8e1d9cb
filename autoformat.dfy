/**
  The whole-buffer reformatter `AutoFormat` as a function of the text and the
  caret: escaped backslashes and escaped quotes are hidden behind control
  characters, the text is cut at the quotes, literal segments are copied
  through and the others go through `Format`, while the caret is carried into
  the coordinates of the output.
*/
module AutoFormatting {
  import opened Strings
  import opened Formatter

  /** A backslash, hidden as U+0001 (`tempkey`). */
  const HiddenBackslash: string := "\U{1}"
  /** Two backslashes, hidden as U+0002 U+0002 (`tempkey2`). */
  const HiddenBackslashPair: string := "\U{2}\U{2}"
  /** A backslash before a quote, hidden as U+0003 U+0003 (`tempkey3`). */
  const HiddenEscapedQuote: string := "\U{3}\U{3}"

  /** The three substitutions made before the text is cut at its quotes. */
  function Protect(text: string): string {
    var t := Replace(text, "\\", HiddenBackslash);
    var t := Replace(t, HiddenBackslash + HiddenBackslash, HiddenBackslashPair);
    Replace(t, HiddenBackslash + "\"", HiddenEscapedQuote)
  }

  /** The three substitutions that undo `Protect` on the formatted text. */
  function Restore(text: string): string {
    var t := Replace(text, HiddenEscapedQuote, HiddenBackslash + "\"");
    var t := Replace(t, HiddenBackslashPair, HiddenBackslash + HiddenBackslash);
    Replace(t, HiddenBackslash, "\\")
  }

  predicate HasNoSentinels(text: string) {
    '\U{1}' !in text && '\U{2}' !in text && '\U{3}' !in text
  }

  /** Hiding the escapes keeps every offset of the text where it was. */
  lemma ProtectKeepsLength(text: string)
    ensures |Protect(text)| == |text|
  {
    var t1 := Replace(text, "\\", HiddenBackslash);
    ReplaceKeepsLength(text, "\\", HiddenBackslash);
    var t2 := Replace(t1, HiddenBackslash + HiddenBackslash, HiddenBackslashPair);
    ReplaceKeepsLength(t1, HiddenBackslash + HiddenBackslash, HiddenBackslashPair);
    ReplaceKeepsLength(t2, HiddenBackslash + "\"", HiddenEscapedQuote);
  }

  /** Restoring the escapes keeps every offset of the text where it was. */
  lemma RestoreKeepsLength(text: string)
    ensures |Restore(text)| == |text|
  {
    var t1 := Replace(text, HiddenEscapedQuote, HiddenBackslash + "\"");
    ReplaceKeepsLength(text, HiddenEscapedQuote, HiddenBackslash + "\"");
    var t2 := Replace(t1, HiddenBackslashPair, HiddenBackslash + HiddenBackslash);
    ReplaceKeepsLength(t1, HiddenBackslashPair, HiddenBackslash + HiddenBackslash);
    ReplaceKeepsLength(t2, HiddenBackslash, "\\");
  }

  /** Restoring after protecting gives back any text that holds none of the three sentinels. */
  lemma RestoreProtect(text: string)
    requires HasNoSentinels(text)
    ensures Restore(Protect(text)) == text
  {
    var t1 := Replace(text, "\\", HiddenBackslash);
    ReplaceAvoids(text, "\\", HiddenBackslash, '\U{2}');
    ReplaceAvoids(text, "\\", HiddenBackslash, '\U{3}');
    var t2 := Replace(t1, HiddenBackslash + HiddenBackslash, HiddenBackslashPair);
    ReplaceAvoids(t1, HiddenBackslash + HiddenBackslash, HiddenBackslashPair, '\U{3}');
    var t3 := Replace(t2, HiddenBackslash + "\"", HiddenEscapedQuote);
    ReplaceRoundTrip(t2, HiddenBackslash + "\"", HiddenEscapedQuote);
    ReplaceRoundTrip(t1, HiddenBackslash + HiddenBackslash, HiddenBackslashPair);
    ReplaceRoundTrip(text, "\\", HiddenBackslash);
  }

  /** Every backslash of the text is hidden, so none is left to escape a quote. */
  lemma ProtectHidesBackslashes(text: string)
    ensures '\\' !in Protect(text)
  {
    var t1 := Replace(text, "\\", HiddenBackslash);
    ReplaceRemoves(text, '\\', HiddenBackslash);
    var t2 := Replace(t1, HiddenBackslash + HiddenBackslash, HiddenBackslashPair);
    ReplaceAvoids(t1, HiddenBackslash + HiddenBackslash, HiddenBackslashPair, '\\');
    ReplaceAvoids(t2, HiddenBackslash + "\"", HiddenEscapedQuote, '\\');
  }

  // ---------------------------------------------------------------------
  // The pass over the quote-separated segments

  /** The running state of the pass: output so far, caret (in output coordinates) and indent tracker. */
  datatype Pass = Pass(result: string, index: int, parse: string)

  /** The text and caret that AutoFormat leaves in the editor. */
  datatype Buffer = Buffer(text: string, caret: int)

  /** One iteration of the segment loop; segment `i` is a literal when `i` is odd. */
  function SegmentStep(st: Pass, i: nat, s: string): Pass
  {
    if i % 2 == 1 then
      Pass(st.result + "\"" + s + "\"", st.index, st.parse)
    else if |st.result| + |s| <= st.index then
      AheadStep(st, s)
    else if |st.result| < st.index then
      CaretStep(st, s)
    else
      BehindStep(st, s)
  }

  /** A code segment that ends at or before the caret: the caret moves by the change in length. */
  function AheadStep(st: Pass, s: string): Pass
    requires |st.result| + |s| <= st.index
  {
    var f := FormatSpec(s, st.parse);
    Pass(st.result + f.result, st.index + |f.result| - |s|, f.parse)
  }

  /** The code segment that holds the caret is formatted in two halves, cut at the caret. */
  function CaretStep(st: Pass, s: string): Pass
    requires |st.result| < st.index < |st.result| + |s|
  {
    var k := st.index - |st.result|;
    var f1 := FormatSpec(s[..k], st.parse);
    Splice(st, s, k, f1, FormatSpec(s[k..], f1.parse))
  }

  /** A code segment after the caret: the caret stays where it is. */
  function BehindStep(st: Pass, s: string): Pass
    requires st.index <= |st.result|
  {
    var f := FormatSpec(s, st.parse);
    Pass(st.result + f.result, st.index, f.parse)
  }

  /**
    The code segment `s` that holds the caret, `k` characters into it, was
    formatted as `before` and `after` the caret. A blank line or a `;` line end
    just before the caret loses its line break when `after` starts on a new
    line, so that the caret does not end up a line lower.
  */
  function Splice(st: Pass, s: string, k: int, before: Emitted, after: Emitted): Pass
    requires 0 <= k <= |s|
  {
    var index := st.index + |before.result| - k;
    var trim := if EndsWith(before.result, "\n\n") && StartsWith(s[k..], "\n") then true
                else EndsWith(before.result, ";\n") && StartsWith(s[k..], "\n");
    var head := if trim then before.result[..|before.result| - 1] else before.result;
    Pass(st.result + head + after.result, if trim then index - 1 else index, after.parse)
  }

  /** The segment loop from segment `i` on, as a left fold. */
  function FormatSegments(strs: seq<string>, i: nat, st: Pass): Pass
    requires i <= |strs|
    decreases |strs| - i
  {
    if i == |strs| then st
    else FormatSegments(strs, i + 1, SegmentStep(st, i, strs[i]))
  }

  /** The segment that holds the caret takes the caret step. */
  lemma SplitStep(st: Pass, i: nat, s: string)
    requires i % 2 == 0 && |st.result| < st.index < |st.result| + |s|
    ensures SegmentStep(st, i, s) == CaretStep(st, s)
  {
  }

  /** A code segment that ends at or before the caret takes the step ahead of it. */
  lemma AheadOfCaret(st: Pass, i: nat, s: string)
    requires i % 2 == 0 && |st.result| + |s| <= st.index
    ensures SegmentStep(st, i, s) == AheadStep(st, s)
  {
  }

  /** A code segment that starts at or after the caret, and ends past it, takes the step behind it. */
  lemma BehindCaret(st: Pass, i: nat, s: string)
    requires i % 2 == 0 && st.index <= |st.result| && st.index < |st.result| + |s|
    ensures SegmentStep(st, i, s) == BehindStep(st, s)
  {
  }

  /** The pass over an already protected text, starting with an empty output and tracker. */
  function FormatProtected(text: string, caret: int): Pass {
    FormatSegments(Split(text, '"'), 0, Pass([], caret, []))
  }

  /** What AutoFormat writes back to the editor. */
  function AutoFormatSpec(text: string, caret: int): Buffer {
    var st := FormatProtected(Protect(text), caret);
    Buffer(Restore(st.result), st.index)
  }

  // ---------------------------------------------------------------------
  // The input as the pass sees it

  /** Segment `i` as it stands in the input: literals with their two quotes. */
  function Piece(strs: seq<string>, i: nat): string
    requires i < |strs|
  {
    if i % 2 == 1 then "\"" + strs[i] + "\"" else strs[i]
  }

  /** The input consumed by the first `i` segments. */
  function Consumed(strs: seq<string>, i: nat): string
    requires i <= |strs|
  {
    if i == 0 then [] else Consumed(strs, i - 1) + Piece(strs, i - 1)
  }

  lemma {:induction false} ConsumedIsJoin(strs: seq<string>, i: nat)
    requires 1 <= i <= |strs|
    ensures Consumed(strs, i) == Join(strs[..i], '"') + (if i % 2 == 0 then "\"" else "")
  {
    if i == 1 {
      assert strs[..1] == [strs[0]];
    } else {
      ConsumedIsJoin(strs, i - 1);
      var prev := Join(strs[..i - 1], '"');
      var x := strs[i - 1];
      JoinPrefix(strs, i);
      assert Consumed(strs, i) == Consumed(strs, i - 1) + Piece(strs, i - 1);
      Parity(i - 1);
      if i % 2 == 0 {
        assert Piece(strs, i - 1) == "\"" + x + "\"";
        Enclose(prev, x);
      } else {
        assert Piece(strs, i - 1) == x;
        Enclose(prev, x);
      }
    }
  }

  lemma JoinPrefix(strs: seq<string>, i: nat)
    requires 2 <= i <= |strs|
    ensures Join(strs[..i], '"') == Join(strs[..i - 1], '"') + "\"" + strs[i - 1]
  {
    assert strs[..i] == strs[..i - 1] + [strs[i - 1]];
    JoinAppend(strs[..i - 1], strs[i - 1], '"');
  }

  lemma Enclose(prev: string, x: string)
    ensures (prev + "") + ("\"" + x + "\"") == prev + "\"" + x + "\""
    ensures prev + "\"" + x == prev + "\"" + x + ""
  {
  }

  lemma {:induction false} ConsumedGrows(strs: seq<string>, i: nat, j: nat)
    requires i <= j <= |strs|
    ensures |Consumed(strs, i)| <= |Consumed(strs, j)|
    ensures Consumed(strs, j)[..|Consumed(strs, i)|] == Consumed(strs, i)
    decreases j
  {
    if i < j {
      ConsumedGrows(strs, i, j - 1);
    }
  }

  /**
    The input the pass consumes is the text itself, with a closing quote added
    when the last literal is left open (an odd number of quotes).
  */
  lemma ConsumedAll(text: string)
    ensures Consumed(Split(text, '"'), Count(text, '"') + 1)
         == text + (if Count(text, '"') % 2 == 1 then "\"" else "")
  {
    var strs := Split(text, '"');
    var n := |strs|;
    ConsumedIsJoin(strs, n);
    assert strs[..n] == strs;
    JoinSplit(text, '"');
    assert Consumed(strs, n) == text + (if n % 2 == 0 then "\"" else "");
    var quotes := Count(text, '"');
    assert n == quotes + 1;
    Parity(quotes);
  }

  lemma Parity(q: nat)
    ensures ((q + 1) % 2 == 0) == (q % 2 == 1)
  {
  }

  // ---------------------------------------------------------------------
  // The caret stays on the same text

  /**
    After some input `done` has been consumed: the output so far differs from
    it only in layout, and either the caret still lies ahead (at the same
    distance past the output as past `done`) or it has been placed on the
    output where the same non-layout text precedes it as precedes `caret` in
    the input.
  */
  ghost predicate Tracks(st: Pass, done: string, caret: int) {
    Erase(st.result) == Erase(done) && AllTabs(st.parse)
    && (CaretAhead(st, done, caret) || CaretPlaced(st, done, caret))
  }

  /** The caret lies past the input consumed so far. */
  ghost predicate CaretAhead(st: Pass, done: string, caret: int) {
    caret >= |done| && st.index - |st.result| == caret - |done|
  }

  /** The caret has been placed on the output, after the same non-layout text as in the input. */
  ghost predicate CaretPlaced(st: Pass, done: string, caret: int) {
    0 <= st.index <= |st.result| && 0 <= caret <= |done|
    && Erase(st.result[..st.index]) == Erase(done[..caret])
  }

  /** A literal segment is copied, and a caret inside it lands on the same character. */
  lemma LiteralStepTracks(st: Pass, i: nat, s: string, done: string, caret: int)
    requires i % 2 == 1 && Tracks(st, done, caret)
    ensures Tracks(SegmentStep(st, i, s), done + ("\"" + s + "\""), caret)
  {
    var piece := "\"" + s + "\"";
    var next := SegmentStep(st, i, s);
    assert next.result == st.result + piece;
    EraseAppend(st.result, piece);
    EraseAppend(done, piece);
    if caret >= |done| && st.index - |st.result| == caret - |done| {
      if caret < |done| + |piece| {
        var k := caret - |done|;
        assert next.result[..next.index] == st.result + piece[..k];
        assert (done + piece)[..caret] == done + piece[..k];
        EraseAppend(st.result, piece[..k]);
        EraseAppend(done, piece[..k]);
      }
    } else {
      assert next.result[..next.index] == st.result[..st.index];
      assert (done + piece)[..caret] == done[..caret];
    }
  }

  /** A code segment that ends before the caret moves it by the change in the segment's length. */
  lemma AheadStepTracks(st: Pass, i: nat, s: string, done: string, caret: int)
    requires i % 2 == 0 && |st.result| + |s| <= st.index && Tracks(st, done, caret)
    ensures Tracks(SegmentStep(st, i, s), done + s, caret)
  {
    var f := FormatSpec(s, st.parse);
    FormatChangesOnlyLayout(s, st.parse);
    var next := Pass(st.result + f.result, st.index + |f.result| - |s|, f.parse);
    assert SegmentStep(st, i, s) == next;
    EraseAppend(st.result, f.result);
    EraseAppend(done, s);
    if CaretAhead(st, done, caret) {
      assert CaretAhead(next, done + s, caret);
    } else {
      assert s == [] && st.index == |st.result|;
      FormatEmpty(st.parse);
      assert next.result == st.result && done + s == done;
      assert CaretPlaced(next, done + s, caret);
    }
  }

  lemma EraseSplice(result: string, head: string, tail: string, done: string, s: string, k: nat)
    requires k <= |s| && Erase(result) == Erase(done)
    requires Erase(head) == Erase(s[..k]) && Erase(tail) == Erase(s[k..])
    ensures Erase(result + head) == Erase(done + s[..k])
    ensures Erase(result + head + tail) == Erase(done + s)
  {
    EraseAppend(result, head);
    EraseAppend(done, s[..k]);
    EraseAppend(result + head, tail);
    assert s[..k] + s[k..] == s;
    AppendAssoc(done, s[..k], s[k..]);
    EraseAppend(done + s[..k], s[k..]);
  }

  /** The output of the segment that holds the caret: the caret goes between the two halves. */
  lemma SpliceTracks(st: Pass, s: string, k: int, head: string, tail: Emitted, done: string, caret: int)
    requires 0 < k < |s| && caret == |done| + k && Erase(st.result) == Erase(done)
    requires Erase(head) == Erase(s[..k]) && Erase(tail.result) == Erase(s[k..])
    ensures Erase(st.result + head + tail.result) == Erase(done + s)
    ensures CaretPlaced(Pass(st.result + head + tail.result, |st.result| + |head|, tail.parse), done + s, caret)
  {
    EraseSplice(st.result, head, tail.result, done, s, k);
    CutBetween(st.result + head, tail.result, done, s, k);
  }

  /** Cutting both texts where the first half ends leaves the two first halves. */
  lemma CutBetween(pre: string, tail: string, done: string, s: string, k: nat)
    requires k <= |s| && Erase(pre) == Erase(done + s[..k])
    ensures Erase((pre + tail)[..|pre|]) == Erase((done + s)[..|done| + k])
  {
    PrefixOfAppend(pre, tail, |pre|);
    assert pre[..|pre|] == pre;
    PrefixPastAppend(done, s, k);
  }

  /** A code segment that holds the caret is formatted in two halves, the caret between them. */
  lemma SplitStepTracks(st: Pass, i: nat, s: string, done: string, caret: int)
    requires i % 2 == 0 && |st.result| < st.index < |st.result| + |s| && Tracks(st, done, caret)
    ensures Tracks(SegmentStep(st, i, s), done + s, caret)
  {
    var k := st.index - |st.result|;
    var f1 := FormatSpec(s[..k], st.parse);
    var f2 := FormatSpec(s[k..], f1.parse);
    FormatChangesOnlyLayout(s[..k], st.parse);
    FormatChangesOnlyLayout(s[k..], f1.parse);
    SplitStep(st, i, s);
    SpliceKeepsLayout(st, s, k, f1, f2, done, caret);
  }

  /**
    Where the caret lands in the segment that holds it: right after the
    formatted text before it (less a suppressed line break), right before the
    formatted text after it.
  */
  lemma SpliceCaretBetweenHalves(st: Pass, s: string, k: int, before: Emitted, after: Emitted)
    requires 0 < k < |s| && st.index == |st.result| + k
    ensures var next := Splice(st, s, k, before, after);
      && |st.result| <= next.index <= |next.result|
      && next.result[next.index..] == after.result
      && (next.result[|st.result|..next.index] == before.result
          || next.result[|st.result|..next.index] + "\n" == before.result)
  {
    var trim := if EndsWith(before.result, "\n\n") && StartsWith(s[k..], "\n") then true
                else EndsWith(before.result, ";\n") && StartsWith(s[k..], "\n");
    var head := if trim then before.result[..|before.result| - 1] else before.result;
    if trim {
      assert before.result[|before.result| - 1] == '\n';
      assert head + "\n" == before.result;
    }
    var next := Splice(st, s, k, before, after);
    assert next == Pass(st.result + head + after.result, |st.result| + |head|, after.parse);
    assert next.result[|st.result|..next.index] == head;
    assert next.result[next.index..] == after.result;
  }

  lemma SpliceKeepsLayout(st: Pass, s: string, k: int, before: Emitted, after: Emitted, done: string, caret: int)
    requires 0 < k < |s| && st.index == |st.result| + k && Tracks(st, done, caret)
    requires Erase(before.result) == Erase(s[..k])
    requires Erase(after.result) == Erase(s[k..]) && AllTabs(after.parse)
    ensures Tracks(Splice(st, s, k, before, after), done + s, caret)
  {
    var trim := if EndsWith(before.result, "\n\n") && StartsWith(s[k..], "\n") then true
                else EndsWith(before.result, ";\n") && StartsWith(s[k..], "\n");
    var head := if trim then before.result[..|before.result| - 1] else before.result;
    if trim {
      assert before.result[|before.result| - 2..] == "\n\n" || before.result[|before.result| - 2..] == ";\n";
      assert Last(before.result) == '\n';
      DropFinalBreak(before.result);
    }
    assert Splice(st, s, k, before, after) == Pass(st.result + head + after.result, |st.result| + |head|, after.parse);
    assert !CaretPlaced(st, done, caret);
    SpliceTracks(st, s, k, head, after, done, caret);
  }

  /** A code segment after the caret leaves it where it is. */
  lemma BehindStepTracks(st: Pass, i: nat, s: string, done: string, caret: int)
    requires i % 2 == 0 && st.index <= |st.result| && Tracks(st, done, caret)
    ensures Tracks(SegmentStep(st, i, s), done + s, caret)
  {
    var f := FormatSpec(s, st.parse);
    FormatChangesOnlyLayout(s, st.parse);
    if s == [] {
      FormatEmpty(st.parse);
    }
    assert SegmentStep(st, i, s) == Pass(st.result + f.result, st.index, f.parse);
    EraseAppend(st.result, f.result);
    EraseAppend(done, s);
    if caret >= |done| && st.index - |st.result| == caret - |done| {
      assert st.index == |st.result| && caret == |done|;
      assert st.result[..st.index] == st.result && done[..caret] == done;
    }
    PrefixOfAppend(st.result, f.result, st.index);
    PrefixOfAppend(done, s, caret);
  }

  lemma SegmentStepTracks(strs: seq<string>, i: nat, st: Pass, caret: int)
    requires i < |strs| && Tracks(st, Consumed(strs, i), caret)
    ensures Tracks(SegmentStep(st, i, strs[i]), Consumed(strs, i + 1), caret)
  {
    var s := strs[i];
    if i % 2 == 1 {
      LiteralStepTracks(st, i, s, Consumed(strs, i), caret);
    } else if |st.result| + |s| <= st.index {
      AheadStepTracks(st, i, s, Consumed(strs, i), caret);
    } else if |st.result| < st.index {
      SplitStepTracks(st, i, s, Consumed(strs, i), caret);
    } else {
      BehindStepTracks(st, i, s, Consumed(strs, i), caret);
    }
  }

  lemma {:induction false} SegmentsTrack(strs: seq<string>, i: nat, st: Pass, caret: int)
    requires i <= |strs| && Tracks(st, Consumed(strs, i), caret)
    ensures Tracks(FormatSegments(strs, i, st), Consumed(strs, |strs|), caret)
    decreases |strs| - i
  {
    if i < |strs| {
      var next := SegmentStep(st, i, strs[i]);
      SegmentStepTracks(strs, i, st, caret);
      SegmentsTrack(strs, i + 1, next, caret);
      assert FormatSegments(strs, i, st) == FormatSegments(strs, i + 1, next);
    }
  }

  /**
    The pass changes only layout, apart from the closing quote it adds to an
    open literal, and it puts the caret inside the output, after exactly the
    non-layout text that preceded it in the input.
  */
  lemma FormatProtectedKeepsCaret(text: string, caret: int)
    requires 0 <= caret <= |text|
    ensures var st := FormatProtected(text, caret);
      && Erase(st.result) == Erase(text + (if Count(text, '"') % 2 == 1 then "\"" else ""))
      && 0 <= st.index <= |st.result|
      && Erase(st.result[..st.index]) == Erase(text[..caret])
  {
    var strs := Split(text, '"');
    var done := Consumed(strs, |strs|);
    assert Tracks(Pass([], caret, []), Consumed(strs, 0), caret);
    SegmentsTrack(strs, 0, Pass([], caret, []), caret);
    var st := FormatProtected(text, caret);
    assert Tracks(st, done, caret);
    ConsumedAll(text);
    var closing := if Count(text, '"') % 2 == 1 then "\"" else "";
    assert done == text + closing;
    assert done[..caret] == text[..caret];
    TracksAtEnd(st, done, |text|, caret);
  }

  /** Once all input is consumed, the caret has been placed. */
  lemma TracksAtEnd(st: Pass, done: string, n: nat, caret: int)
    requires Tracks(st, done, caret) && 0 <= caret <= n <= |done|
    ensures 0 <= st.index <= |st.result| && Erase(st.result[..st.index]) == Erase(done[..caret])
  {
    if caret >= |done| && st.index - |st.result| == caret - |done| {
      assert st.result[..st.index] == st.result;
      assert done[..caret] == done;
    }
  }

  // ---------------------------------------------------------------------
  // Literals are copied, code is only re-laid out

  /**
    After `i` segments the output, cut at its quotes, holds one piece per
    segment (and an empty piece after a closed literal): every literal piece
    is the literal itself and every code piece differs from its segment only in
    layout.
  */
  ghost predicate SegmentsKept(strs: seq<string>, i: nat, result: string)
    requires i <= |strs|
  {
    var parts := Split(result, '"');
    (if i % 2 == 0 then |parts| == i + 1 && parts[i] == [] else |parts| == i)
    && forall j :: 0 <= j < i ==>
         if j % 2 == 1 then parts[j] == strs[j] else Erase(parts[j]) == Erase(strs[j])
  }

  /** What a code segment adds to the output differs from the segment only in layout. */
  lemma CodeStepAppends(st: Pass, i: nat, s: string)
    requires i % 2 == 0 && AllTabs(st.parse)
    ensures var next := SegmentStep(st, i, s);
      && |st.result| <= |next.result| && next.result[..|st.result|] == st.result
      && Erase(next.result[|st.result|..]) == Erase(s) && AllTabs(next.parse)
  {
    if |st.result| + |s| <= st.index || st.index <= |st.result| {
      WholeStepAppends(st, i, s);
    } else {
      SplitStepAppends(st, i, s);
    }
  }

  lemma SplitStepAppends(st: Pass, i: nat, s: string)
    requires i % 2 == 0 && AllTabs(st.parse) && |st.result| < st.index < |st.result| + |s|
    ensures var next := SegmentStep(st, i, s);
      && |st.result| <= |next.result| && next.result[..|st.result|] == st.result
      && Erase(next.result[|st.result|..]) == Erase(s) && AllTabs(next.parse)
  {
    var k := st.index - |st.result|;
    var f1 := FormatSpec(s[..k], st.parse);
    var f2 := FormatSpec(s[k..], f1.parse);
    FormatChangesOnlyLayout(s[..k], st.parse);
    FormatChangesOnlyLayout(s[k..], f1.parse);
    SplitStep(st, i, s);
    SpliceAppends(st, s, k, f1, f2);
  }

  lemma WholeStepAppends(st: Pass, i: nat, s: string)
    requires i % 2 == 0 && AllTabs(st.parse)
    requires |st.result| + |s| <= st.index || st.index <= |st.result|
    ensures var next := SegmentStep(st, i, s);
      && |st.result| <= |next.result| && next.result[..|st.result|] == st.result
      && Erase(next.result[|st.result|..]) == Erase(s) && AllTabs(next.parse)
  {
    var f := FormatSpec(s, st.parse);
    FormatChangesOnlyLayout(s, st.parse);
    assert SegmentStep(st, i, s) == Pass(SegmentStep(st, i, s).result, SegmentStep(st, i, s).index, f.parse);
    assert SegmentStep(st, i, s).result == st.result + f.result;
    assert (st.result + f.result)[|st.result|..] == f.result;
  }

  lemma AppendedLayout(prev: string, head: string, tail: string, s: string, k: nat)
    requires k <= |s| && Erase(head) == Erase(s[..k]) && Erase(tail) == Erase(s[k..])
    ensures (prev + head + tail)[..|prev|] == prev
    ensures Erase((prev + head + tail)[|prev|..]) == Erase(s)
  {
    assert (prev + head + tail)[|prev|..] == head + tail;
    EraseAppend(head, tail);
    EraseSplit(s, k);
  }

  lemma EraseSplit(s: string, k: nat)
    requires k <= |s|
    ensures Erase(s) == Erase(s[..k]) + Erase(s[k..])
  {
    assert s == s[..k] + s[k..];
    EraseAppend(s[..k], s[k..]);
  }

  lemma SpliceAppends(st: Pass, s: string, k: int, before: Emitted, after: Emitted)
    requires 0 < k < |s|
    requires Erase(before.result) == Erase(s[..k])
    requires Erase(after.result) == Erase(s[k..]) && AllTabs(after.parse)
    ensures var next := Splice(st, s, k, before, after);
      && |st.result| <= |next.result| && next.result[..|st.result|] == st.result
      && Erase(next.result[|st.result|..]) == Erase(s) && AllTabs(next.parse)
  {
    var trim := if EndsWith(before.result, "\n\n") && StartsWith(s[k..], "\n") then true
                else EndsWith(before.result, ";\n") && StartsWith(s[k..], "\n");
    var head := if trim then before.result[..|before.result| - 1] else before.result;
    if trim {
      assert before.result[|before.result| - 2..] == "\n\n" || before.result[|before.result| - 2..] == ";\n";
      assert Last(before.result) == '\n';
      DropFinalBreak(before.result);
    }
    assert Splice(st, s, k, before, after).result == st.result + head + after.result;
    AppendedLayout(st.result, head, after.result, s, k);
  }

  /** Appending quote-free text that differs from code segment `i` only in layout. */
  lemma CodeStepKeeps(strs: seq<string>, i: nat, prev: string, next: string)
    requires i < |strs| && i % 2 == 0 && '"' !in strs[i] && SegmentsKept(strs, i, prev)
    requires |prev| <= |next| && next[..|prev|] == prev && Erase(next[|prev|..]) == Erase(strs[i])
    ensures SegmentsKept(strs, i + 1, next)
  {
    var g := next[|prev|..];
    assert next == prev + g;
    EraseKeeps(strs[i], '"');
    EraseKeeps(g, '"');
    KeptAppend(strs, i, prev, g);
  }

  /** Appending a quote-free text to an output that ends in an empty code piece fills that piece. */
  lemma KeptAppend(strs: seq<string>, i: nat, prev: string, g: string)
    requires i < |strs| && i % 2 == 0 && '"' !in g && SegmentsKept(strs, i, prev)
    requires Erase(g) == Erase(strs[i])
    ensures SegmentsKept(strs, i + 1, prev + g)
  {
    var parts := Split(prev, '"');
    var grown := Split(prev + g, '"');
    SplitFillsLast(prev, g, '"');
    assert (i + 1) % 2 == 1;
    assert |grown| == i + 1 && grown[i] == g;
    forall j | 0 <= j < i + 1
      ensures if j % 2 == 1 then grown[j] == strs[j] else Erase(grown[j]) == Erase(strs[j])
    {
      if j < i {
        assert grown[j] == parts[j];
      }
    }
  }

  /** Appending literal `i` with its quotes. */
  lemma LiteralStepKeeps(strs: seq<string>, i: nat, prev: string)
    requires i < |strs| && i % 2 == 1 && '"' !in strs[i] && SegmentsKept(strs, i, prev)
    ensures SegmentsKept(strs, i + 1, prev + "\"" + strs[i] + "\"")
  {
    SplitAppendEnclosed(prev, strs[i], '"');
  }

  lemma SegmentStepKeeps(strs: seq<string>, i: nat, st: Pass)
    requires forall k :: 0 <= k < |strs| ==> '"' !in strs[k]
    requires i < |strs| && AllTabs(st.parse) && SegmentsKept(strs, i, st.result)
    ensures AllTabs(SegmentStep(st, i, strs[i]).parse)
    ensures SegmentsKept(strs, i + 1, SegmentStep(st, i, strs[i]).result)
  {
    if i % 2 == 1 {
      LiteralStepKeeps(strs, i, st.result);
    } else {
      CodeStepAppends(st, i, strs[i]);
      CodeStepKeeps(strs, i, st.result, SegmentStep(st, i, strs[i]).result);
    }
  }

  lemma {:induction false} SegmentsKeep(strs: seq<string>, i: nat, st: Pass)
    requires forall k :: 0 <= k < |strs| ==> '"' !in strs[k]
    requires i <= |strs| && AllTabs(st.parse) && SegmentsKept(strs, i, st.result)
    ensures SegmentsKept(strs, |strs|, FormatSegments(strs, i, st).result)
    decreases |strs| - i
  {
    if i < |strs| {
      var next := SegmentStep(st, i, strs[i]);
      SegmentStepKeeps(strs, i, st);
      SegmentsKeep(strs, i + 1, next);
      assert FormatSegments(strs, i, st) == FormatSegments(strs, i + 1, next);
    }
  }

  /**
    The pass copies every string literal verbatim and changes the code between
    literals only in layout; the output always holds an even number of quotes,
    one more than the input when the input leaves its last literal open.
  */
  lemma FormatProtectedKeepsLiterals(text: string, caret: int)
    ensures var parts := Split(FormatProtected(text, caret).result, '"');
      var strs := Split(text, '"');
      && |parts| == |strs| + (if Count(text, '"') % 2 == 1 then 1 else 0)
      && (forall j :: 0 <= j < |strs| && j % 2 == 1 ==> parts[j] == strs[j])
      && (forall j :: 0 <= j < |strs| && j % 2 == 0 ==> Erase(parts[j]) == Erase(strs[j]))
    ensures Count(FormatProtected(text, caret).result, '"') % 2 == 0
  {
    FormatProtectedKept(text, caret);
    Parity(Count(text, '"'));
    Parity(Count(FormatProtected(text, caret).result, '"'));
  }

  /** The whole pass keeps every segment. */
  lemma FormatProtectedKept(text: string, caret: int)
    ensures var strs := Split(text, '"');
      SegmentsKept(strs, |strs|, FormatProtected(text, caret).result)
  {
    var strs := Split(text, '"');
    assert Split([], '"') == [[]];
    SegmentsKeep(strs, 0, Pass([], caret, []));
  }

  // ---------------------------------------------------------------------
  // What AutoFormat leaves in the editor

  /** The caret AutoFormat writes back always lies within the new text. */
  lemma AutoFormatCaretInBounds(text: string, caret: int)
    requires 0 <= caret <= |text|
    ensures 0 <= AutoFormatSpec(text, caret).caret <= |AutoFormatSpec(text, caret).text|
  {
    ProtectKeepsLength(text);
    FormatProtectedKeepsCaret(Protect(text), caret);
    RestoreKeepsLength(FormatProtected(Protect(text), caret).result);
  }

  lemma ProtectWithoutBackslashes(text: string)
    requires '\\' !in text && HasNoSentinels(text)
    ensures Protect(text) == text
  {
    ReplaceAbsent(text, "\\", HiddenBackslash);
    ReplaceAbsent(text, HiddenBackslash + HiddenBackslash, HiddenBackslashPair);
    ReplaceAbsent(text, HiddenBackslash + "\"", HiddenEscapedQuote);
  }

  lemma RestoreWithoutSentinels(text: string)
    requires HasNoSentinels(text)
    ensures Restore(text) == text
  {
    ReplaceAbsent(text, HiddenEscapedQuote, HiddenBackslash + "\"");
    ReplaceAbsent(text, HiddenBackslashPair, HiddenBackslash + HiddenBackslash);
    ReplaceAbsent(text, HiddenBackslash, "\\");
  }

  /** Layout-only changes cannot bring in a sentinel. */
  lemma LayoutKeepsNoSentinels(a: string, b: string)
    requires Erase(a) == Erase(b) && HasNoSentinels(b)
    ensures HasNoSentinels(a)
  {
    EraseKeeps(a, '\U{1}');
    EraseKeeps(b, '\U{1}');
    EraseKeeps(a, '\U{2}');
    EraseKeeps(b, '\U{2}');
    EraseKeeps(a, '\U{3}');
    EraseKeeps(b, '\U{3}');
  }

  /**
    On a text without backslashes: AutoFormat copies every string literal
    verbatim, changes the code between literals only in layout, closes a
    literal left open at the end, and puts the caret after exactly the
    non-layout text that preceded it.
  */
  lemma AutoFormatKeepsMeaning(text: string, caret: int)
    requires '\\' !in text && HasNoSentinels(text) && 0 <= caret <= |text|
    ensures var out := AutoFormatSpec(text, caret);
      var parts := Split(out.text, '"');
      var strs := Split(text, '"');
      && |parts| == |strs| + (if Count(text, '"') % 2 == 1 then 1 else 0)
      && (forall j :: 0 <= j < |strs| && j % 2 == 1 ==> parts[j] == strs[j])
      && (forall j :: 0 <= j < |strs| && j % 2 == 0 ==> Erase(parts[j]) == Erase(strs[j]))
      && Count(out.text, '"') % 2 == 0
      && 0 <= out.caret <= |out.text|
      && Erase(out.text[..out.caret]) == Erase(text[..caret])
  {
    ProtectWithoutBackslashes(text);
    var st := FormatProtected(text, caret);
    FormatProtectedKeepsLiterals(text, caret);
    FormatProtectedKeepsCaret(text, caret);
    var closing := if Count(text, '"') % 2 == 1 then "\"" else "";
    assert HasNoSentinels(text + closing);
    LayoutKeepsNoSentinels(st.result, text + closing);
    RestoreWithoutSentinels(st.result);
  }
}
