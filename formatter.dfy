/**
  The line-level reformatter `Format` of the schema editor: it normalises the
  layout of one piece of text that lies outside string literals and re-indents
  it line by line with a tab-string depth tracker that the caller threads from
  one piece to the next.
*/
module Formatter {
  import opened Strings

  /** `while (text.Contains(pat)) text = text.Replace(pat, rep);` for a shorter `rep`. */
  function Collapse(s: string, pat: string, rep: string): (r: string)
    requires pat != [] && |rep| < |pat|
    ensures !Contains(r, pat)
    decreases |s|
  {
    if Contains(s, pat) then
      ReplaceShrinks(s, pat, rep);
      Collapse(Replace(s, pat, rep), pat, rep)
    else s
  }

  /** The number of normalisation passes. */
  const NormalizePasses: nat := 12

  /** A normalisation pass: one `Replace`, or a `Replace` repeated while the pattern still occurs. */
  datatype Rewrite = ReplaceAll(pat: string, rep: string) | CollapseAll(pat: string, rep: string)

  /**
    Normalisation pass `step`, numbered in the order the editor runs them:
    drop carriage returns and tabs, put every brace on a line of its own, pad
    comment markers and `=` with spaces, read a full-width semicolon as ';',
    collapse blank lines, runs of spaces and spaces at the start of a line,
    glue " ;" and end each closing brace line with an extra line break.
    Every pass trades layout for layout only.
  */
  function NormalizeRewrite(step: nat): (r: Rewrite)
    requires step < NormalizePasses
    ensures r.pat != [] && (r.CollapseAll? ==> |r.rep| < |r.pat|)
  {
    match step
    case 0 => ReplaceAll("\r", "")
    case 1 => ReplaceAll("\t", "")
    case 2 => ReplaceAll("{", "\n{\n")
    case 3 => ReplaceAll("}", "\n}\n")
    case 4 => ReplaceAll("//", " // ")
    case 5 => ReplaceAll("=", " = ")
    case 6 => ReplaceAll([FullWidthSemicolon], ";")
    case 7 => CollapseAll("\n\n", "\n")
    case 8 => CollapseAll("  ", " ")
    case 9 => CollapseAll("\n ", "\n")
    case 10 => ReplaceAll(" ;", ";")
    case _ => ReplaceAll("}", "}\n")
  }

  function Rewritten(t: string, r: Rewrite): string
    requires r.pat != [] && (r.CollapseAll? ==> |r.rep| < |r.pat|)
  {
    match r
    case ReplaceAll(pat, rep) => Replace(t, pat, rep)
    case CollapseAll(pat, rep) => Collapse(t, pat, rep)
  }

  /**
    The passes from `step` on, applied in order. Naming `t` in the decreases
    clause keeps the verifier from running all the passes on every mention
    of `Normalize`; `NormalizeIsPasses` lists them when a proof needs them.
  */
  function NormalizeFrom(t: string, step: nat): string
    requires step <= NormalizePasses
    decreases NormalizePasses - step, t
  {
    if step == NormalizePasses then t else NormalizeFrom(Rewritten(t, NormalizeRewrite(step)), step + 1)
  }

  /** The normalisation that runs before the text is cut into lines. */
  function Normalize(text: string): string
  {
    NormalizeFrom(text, 0)
  }

  /** The passes written out one after the other. */
  lemma NormalizeIsPasses(text: string)
    ensures var t1 := Replace(text, "\r", "");
      var t2 := Replace(t1, "\t", "");
      var t3 := Replace(t2, "{", "\n{\n");
      var t4 := Replace(t3, "}", "\n}\n");
      var t5 := Replace(t4, "//", " // ");
      var t6 := Replace(t5, "=", " = ");
      var t7 := Replace(t6, [FullWidthSemicolon], ";");
      var t8 := Collapse(t7, "\n\n", "\n");
      var t9 := Collapse(t8, "  ", " ");
      var t10 := Collapse(t9, "\n ", "\n");
      var t11 := Replace(t10, " ;", ";");
      Normalize(text) == Replace(t11, "}", "}\n")
  {
    var t1 := Replace(text, "\r", "");
    assert NormalizeFrom(text, 0) == NormalizeFrom(t1, 1);
    var t2 := Replace(t1, "\t", "");
    assert NormalizeFrom(t1, 1) == NormalizeFrom(t2, 2);
    var t3 := Replace(t2, "{", "\n{\n");
    assert NormalizeFrom(t2, 2) == NormalizeFrom(t3, 3);
    var t4 := Replace(t3, "}", "\n}\n");
    assert NormalizeFrom(t3, 3) == NormalizeFrom(t4, 4);
    var t5 := Replace(t4, "//", " // ");
    assert NormalizeFrom(t4, 4) == NormalizeFrom(t5, 5);
    var t6 := Replace(t5, "=", " = ");
    assert NormalizeFrom(t5, 5) == NormalizeFrom(t6, 6);
    var t7 := Replace(t6, [FullWidthSemicolon], ";");
    assert NormalizeFrom(t6, 6) == NormalizeFrom(t7, 7);
    var t8 := Collapse(t7, "\n\n", "\n");
    assert NormalizeFrom(t7, 7) == NormalizeFrom(t8, 8);
    var t9 := Collapse(t8, "  ", " ");
    assert NormalizeFrom(t8, 8) == NormalizeFrom(t9, 9);
    var t10 := Collapse(t9, "\n ", "\n");
    assert NormalizeFrom(t9, 9) == NormalizeFrom(t10, 10);
    var t11 := Replace(t10, " ;", ";");
    assert NormalizeFrom(t10, 10) == NormalizeFrom(t11, 11);
    var t12 := Replace(t11, "}", "}\n");
    assert NormalizeFrom(t11, 11) == NormalizeFrom(t12, 12) == t12;
  }

  /** The text produced so far and the current indent tracker. */
  datatype Emitted = Emitted(result: string, parse: string)

  /** A line that starts with `//` inside a block is appended to the previous output line. */
  predicate JoinsPrevious(parse: string, line: string) {
    parse != [] && StartsWith(line, "//")
  }

  /** The very first output line is never indented. */
  function Indent(result: string, parse: string): string {
    if result == [] then [] else parse
  }

  /** One iteration of the line loop. */
  function EmitLine(acc: Emitted, line: string): (r: Emitted)
    requires acc.result != [] || !JoinsPrevious(acc.parse, line)
    ensures r.result != [] && Last(r.result) == '\n'
  {
    if line == "{" then
      Emitted(acc.result + Indent(acc.result, acc.parse) + line + "\n", acc.parse + "\t")
    else if line == "}" then
      var len := if |acc.parse| - 1 < 0 then 0 else |acc.parse| - 1;
      var parse := acc.parse[..len];
      Emitted(acc.result + Indent(acc.result, parse) + line + "\n", parse)
    else if JoinsPrevious(acc.parse, line) then
      Emitted(acc.result[..|acc.result| - 1] + " " + line + "\n", acc.parse)
    else
      Emitted(acc.result + Indent(acc.result, acc.parse) + line + "\n", acc.parse)
  }

  /** The whole line loop, as a left fold over the lines. */
  function EmitLines(lines: seq<string>, acc: Emitted): (r: Emitted)
    requires acc.result != [] || lines == [] || !JoinsPrevious(acc.parse, lines[0])
    ensures lines != [] ==> r.result != [] && Last(r.result) == '\n'
    ensures lines == [] ==> r == acc
    decreases |lines|
  {
    if lines == [] then acc
    else EmitLines(lines[1..], EmitLine(acc, lines[0]))
  }

  /**
    What `Format(text, ref parse)` returns and leaves in `parse`: the
    normalised lines, re-indented, with the final line break dropped.
  */
  function FormatSpec(text: string, parse: string): (r: Emitted)
  {
    var lines := Split(Normalize(text), '\n');
    FirstLineIsNotComment(text);
    var e := EmitLines(lines, Emitted([], parse));
    Emitted(e.result[..|e.result| - 1], e.parse)
  }

  /** `Format(text, ref parse)`, step by step as the editor runs it. */
  method Format(text: string, parse: string) returns (result: string, newParse: string)
    ensures Emitted(result, newParse) == FormatSpec(text, parse)
  {
    var t := NormalizeText(text);
    var lines := Split(t, '\n');
    FirstLineIsNotComment(text);
    result, newParse := IndentLines(lines, parse);
    result := result[..|result| - 1];
  }

  /** The normalisation statements of `Format`, the three collapses written as loops. */
  method NormalizeText(text: string) returns (t: string)
    ensures t == Normalize(text)
  {
    t := Replace(text, "\r", "");
    t := Replace(t, "\t", "");
    t := Replace(t, "{", "\n{\n");
    t := Replace(t, "}", "\n}\n");
    t := Replace(t, "//", " // ");
    t := Replace(t, "=", " = ");
    t := Replace(t, [FullWidthSemicolon], ";");
    ghost var before := t;
    while Contains(t, "\n\n")
      invariant Collapse(t, "\n\n", "\n") == Collapse(before, "\n\n", "\n")
      decreases |t|
    {
      ReplaceShrinks(t, "\n\n", "\n");
      t := Replace(t, "\n\n", "\n");
    }
    before := t;
    while Contains(t, "  ")
      invariant Collapse(t, "  ", " ") == Collapse(before, "  ", " ")
      decreases |t|
    {
      ReplaceShrinks(t, "  ", " ");
      t := Replace(t, "  ", " ");
    }
    before := t;
    while Contains(t, "\n ")
      invariant Collapse(t, "\n ", "\n") == Collapse(before, "\n ", "\n")
      decreases |t|
    {
      ReplaceShrinks(t, "\n ", "\n");
      t := Replace(t, "\n ", "\n");
    }
    t := Replace(t, " ;", ";");
    t := Replace(t, "}", "}\n");
    NormalizeIsPasses(text);
  }

  /** The line loop of `Format`: every line is re-indented with the tracker threaded through. */
  method IndentLines(lines: seq<string>, parse: string) returns (result: string, newParse: string)
    requires lines == [] || !JoinsPrevious(parse, lines[0])
    ensures Emitted(result, newParse) == EmitLines(lines, Emitted([], parse))
  {
    result := "";
    newParse := parse;
    for i := 0 to |lines|
      invariant i == 0 ==> result == [] && newParse == parse
      invariant i > 0 ==> result != []
      invariant EmitLines(lines[i..], Emitted(result, newParse)) == EmitLines(lines, Emitted([], parse))
    {
      assert lines[i..][1..] == lines[i + 1..];
      result, newParse := IndentLine(result, newParse, lines[i]);
    }
  }

  /** One iteration of the line loop of `Format`. */
  method IndentLine(result: string, parse: string, line: string) returns (result': string, parse': string)
    requires result != [] || !JoinsPrevious(parse, line)
    ensures Emitted(result', parse') == EmitLine(Emitted(result, parse), line)
  {
    result', parse' := result, parse;
    if line == "{" {
      result' := result' + (if result' == [] then "" else parse') + line + "\n";
      parse' := parse' + "\t";
    } else if line == "}" {
      var len := |parse'| - 1;
      if len < 0 {
        len := 0;
      }
      parse' := parse'[..len];
      result' := result' + (if result' == [] then "" else parse') + line + "\n";
    } else if |parse'| != 0 && StartsWith(line, "//") {
      result' := result'[..|result'| - 1];
      result' := result' + " " + line + "\n";
    } else {
      result' := result' + (if result' == [] then "" else parse') + line + "\n";
    }
  }

  /** Formatting an empty piece gives nothing and leaves the tracker as it was. */
  lemma FormatEmpty(parse: string)
    ensures FormatSpec([], parse) == Emitted([], parse)
  {
    NormalizeEmpty(0);
    assert Split([], '\n') == [[]];
    assert EmitLines([[]], Emitted([], parse)) == Emitted("\n", parse);
  }

  lemma {:induction false} NormalizeEmpty(step: nat)
    requires step <= NormalizePasses
    ensures NormalizeFrom([], step) == []
    decreases NormalizePasses - step
  {
    if step < NormalizePasses {
      var r := NormalizeRewrite(step);
      assert Rewritten([], r) == [] by {
        if r.CollapseAll? {
          assert !Contains([], r.pat);
        }
      }
      NormalizeEmpty(step + 1);
    }
  }

  // ---------------------------------------------------------------------
  // The first line is never a comment (so the trim at a joined comment
  // always has a previous line to trim)

  predicate StartsWithComment(s: string) {
    StartsWith(s, "//")
  }

  /** A replacement that neither looks for nor writes a leading '/' cannot create a leading "//". */
  lemma ReplaceKeepsNoComment(s: string, pat: string, rep: string)
    requires pat != [] && pat[0] != '/' && rep != [] && rep[0] != '/'
    requires !StartsWithComment(s)
    ensures !StartsWithComment(Replace(s, pat, rep))
  {
    var r := Replace(s, pat, rep);
    if |s| < |pat| {
      assert r == s;
    } else if s[..|pat|] == pat {
      assert r[0] == rep[0];
    } else if s[0] == '/' {
      assert r == [s[0]] + Replace(s[1..], pat, rep);
      var t := s[1..];
      if t != [] {
        assert s[..2] == [s[0], t[0]];
        ReplaceHead(t, pat, rep);
        assert r[1] == Replace(t, pat, rep)[0];
      } else {
        assert Replace(t, pat, rep) == t;
      }
    } else {
      assert r[0] == s[0];
    }
  }

  lemma {:induction false} CollapseKeepsNoComment(s: string, pat: string, rep: string)
    requires pat != [] && |rep| < |pat| && pat[0] != '/' && rep != [] && rep[0] != '/'
    requires !StartsWithComment(s)
    ensures !StartsWithComment(Collapse(s, pat, rep))
    decreases |s|
  {
    if Contains(s, pat) {
      ReplaceShrinks(s, pat, rep);
      ReplaceKeepsNoComment(s, pat, rep);
      CollapseKeepsNoComment(Replace(s, pat, rep), pat, rep);
    }
  }

  /** After the comment markers are padded, no text starts with "//". */
  lemma CommentMarkersArePadded(s: string)
    ensures !StartsWithComment(Replace(s, "//", " // "))
  {
    var r := Replace(s, "//", " // ");
    if |s| < 2 {
      assert r == s;
    } else if s[..2] == "//" {
      assert r[0] == ' ';
    } else if s[0] == '/' {
      assert r == [s[0]] + Replace(s[1..], "//", " // ");
      var t := s[1..];
      assert s[..2] == [s[0], t[0]];
      ReplaceHead(t, "//", " // ");
      assert r[1] == Replace(t, "//", " // ")[0];
    } else {
      assert r[0] == s[0];
    }
  }

  /**
    The first line of a normalised text never starts with "//", so the first
    output line is never appended to a non-existent previous line.
  */
  lemma FirstLineIsNotComment(text: string)
    ensures !StartsWithComment(Split(Normalize(text), '\n')[0])
  {
    NormalizeIsPasses(text);
    var t1 := Replace(text, "\r", "");
    var t2 := Replace(t1, "\t", "");
    var t3 := Replace(t2, "{", "\n{\n");
    var t4 := Replace(t3, "}", "\n}\n");
    var t5 := Replace(t4, "//", " // ");
    CommentMarkersArePadded(t4);
    var t6 := Replace(t5, "=", " = ");
    ReplaceKeepsNoComment(t5, "=", " = ");
    var t7 := Replace(t6, [FullWidthSemicolon], ";");
    ReplaceKeepsNoComment(t6, [FullWidthSemicolon], ";");
    var t8 := Collapse(t7, "\n\n", "\n");
    CollapseKeepsNoComment(t7, "\n\n", "\n");
    var t9 := Collapse(t8, "  ", " ");
    CollapseKeepsNoComment(t8, "  ", " ");
    var t10 := Collapse(t9, "\n ", "\n");
    CollapseKeepsNoComment(t9, "\n ", "\n");
    var t11 := Replace(t10, " ;", ";");
    ReplaceKeepsNoComment(t10, " ;", ";");
    var t12 := Replace(t11, "}", "}\n");
    ReplaceKeepsNoComment(t11, "}", "}\n");
    SplitFirstIsPrefix(t12, '\n');
  }

  // ---------------------------------------------------------------------
  // Characters that the normalisation never introduces

  lemma {:induction false} CollapseAvoids(s: string, pat: string, rep: string, c: char)
    requires pat != [] && |rep| < |pat| && c !in s && c !in rep
    ensures c !in Collapse(s, pat, rep)
    decreases |s|
  {
    if Contains(s, pat) {
      ReplaceShrinks(s, pat, rep);
      ReplaceAvoids(s, pat, rep, c);
      CollapseAvoids(Replace(s, pat, rep), pat, rep, c);
    }
  }

  /**
    A character that is not among those the passes insert (line break,
    braces, space, '/', '=', ';') is in the normalised text only if it was in
    the text after carriage returns and tabs were dropped.
  */
  lemma NormalizeAvoids(text: string, c: char)
    requires c !in "\n{} /=;"
    requires c !in Replace(Replace(text, "\r", ""), "\t", "")
    ensures c !in Normalize(text)
  {
    NormalizeIsPasses(text);
    var t2 := Replace(Replace(text, "\r", ""), "\t", "");
    var t3 := Replace(t2, "{", "\n{\n");
    ReplaceAvoids(t2, "{", "\n{\n", c);
    var t4 := Replace(t3, "}", "\n}\n");
    ReplaceAvoids(t3, "}", "\n}\n", c);
    var t5 := Replace(t4, "//", " // ");
    ReplaceAvoids(t4, "//", " // ", c);
    var t6 := Replace(t5, "=", " = ");
    ReplaceAvoids(t5, "=", " = ", c);
    var t7 := Replace(t6, [FullWidthSemicolon], ";");
    ReplaceAvoids(t6, [FullWidthSemicolon], ";", c);
    var t8 := Collapse(t7, "\n\n", "\n");
    CollapseAvoids(t7, "\n\n", "\n", c);
    var t9 := Collapse(t8, "  ", " ");
    CollapseAvoids(t8, "  ", " ", c);
    var t10 := Collapse(t9, "\n ", "\n");
    CollapseAvoids(t9, "\n ", "\n", c);
    var t11 := Replace(t10, " ;", ";");
    ReplaceAvoids(t10, " ;", ";", c);
    ReplaceAvoids(t11, "}", "}\n", c);
  }

  /** The normalised text holds no carriage return and no tab. */
  lemma NormalizedHasNoTabs(text: string)
    ensures '\r' !in Normalize(text) && '\t' !in Normalize(text)
  {
    var t1 := Replace(text, "\r", "");
    ReplaceRemoves(text, '\r', "");
    ReplaceAvoids(t1, "\t", "", '\r');
    ReplaceRemoves(t1, '\t', "");
    NormalizeAvoids(text, '\r');
    NormalizeAvoids(text, '\t');
  }

  // ---------------------------------------------------------------------
  // Format changes only layout

  /** Every normalisation pass trades layout for layout. */
  lemma RewriteIsLayout(step: nat)
    requires step < NormalizePasses
    ensures var r := NormalizeRewrite(step); Erase(r.pat) == Erase(r.rep)
  {
    if step < 6 {
      EarlyRewriteIsLayout(step);
    } else {
      LateRewriteIsLayout(step);
    }
  }

  /** The passes that drop characters or pad them with layout. */
  lemma EarlyRewriteIsLayout(step: nat)
    requires step < 6
    ensures var r := NormalizeRewrite(step); Erase(r.pat) == Erase(r.rep)
  {
    match step
    case 0 => assert Erase("\r") == [];
    case 1 => assert Erase("\t") == [];
    case 2 => assert Erase("\n{\n") == "{";
    case 3 => assert Erase("\n}\n") == "}";
    case 4 => assert Erase(" // ") == "//";
    case _ => assert Erase(" = ") == "=";
  }

  /** The passes that map the full-width semicolon or shorten runs of layout. */
  lemma LateRewriteIsLayout(step: nat)
    requires 6 <= step < NormalizePasses
    ensures var r := NormalizeRewrite(step); Erase(r.pat) == Erase(r.rep)
  {
    match step
    case 6 => assert Erase([FullWidthSemicolon]) == ";";
    case 7 => assert Erase("\n\n") == [] == Erase("\n");
    case 8 => assert Erase("  ") == [] == Erase(" ");
    case 9 => assert Erase("\n ") == [] == Erase("\n");
    case 10 => assert Erase(" ;") == ";";
    case _ => assert Erase("}\n") == "}";
  }

  /** A pass that trades layout for layout changes only layout. */
  lemma RewriteChangesOnlyLayout(t: string, r: Rewrite)
    requires r.pat != [] && (r.CollapseAll? ==> |r.rep| < |r.pat|) && Erase(r.pat) == Erase(r.rep)
    ensures Erase(Rewritten(t, r)) == Erase(t)
  {
    match r
    case ReplaceAll(pat, rep) => EraseReplace(t, pat, rep);
    case CollapseAll(pat, rep) => EraseCollapse(t, pat, rep);
  }

  /** Normalisation pass `step` changes only layout. */
  lemma PassChangesOnlyLayout(t: string, step: nat)
    requires step < NormalizePasses
    ensures Erase(Rewritten(t, NormalizeRewrite(step))) == Erase(t)
  {
    RewriteIsLayout(step);
    RewriteChangesOnlyLayout(t, NormalizeRewrite(step));
  }

  /** Passes `step` to the end change only layout, given that the later ones do. */
  lemma PassThenRest(t: string, step: nat)
    requires step < NormalizePasses
    requires Erase(NormalizeFrom(Rewritten(t, NormalizeRewrite(step)), step + 1)) == Erase(Rewritten(t, NormalizeRewrite(step)))
    ensures Erase(NormalizeFrom(t, step)) == Erase(t)
  {
    PassChangesOnlyLayout(t, step);
  }

  /** The normalisation changes only layout. */
  lemma NormalizeChangesOnlyLayout(text: string)
    ensures Erase(Normalize(text)) == Erase(text)
  {
    var t1 := Rewritten(text, NormalizeRewrite(0));
    var t2 := Rewritten(t1, NormalizeRewrite(1));
    var t3 := Rewritten(t2, NormalizeRewrite(2));
    var t4 := Rewritten(t3, NormalizeRewrite(3));
    var t5 := Rewritten(t4, NormalizeRewrite(4));
    var t6 := Rewritten(t5, NormalizeRewrite(5));
    var t7 := Rewritten(t6, NormalizeRewrite(6));
    var t8 := Rewritten(t7, NormalizeRewrite(7));
    var t9 := Rewritten(t8, NormalizeRewrite(8));
    var t10 := Rewritten(t9, NormalizeRewrite(9));
    var t11 := Rewritten(t10, NormalizeRewrite(10));
    var t12 := Rewritten(t11, NormalizeRewrite(11));
    assert NormalizeFrom(t12, 12) == t12;
    PassThenRest(t11, 11);
    PassThenRest(t10, 10);
    PassThenRest(t9, 9);
    PassThenRest(t8, 8);
    PassThenRest(t7, 7);
    PassThenRest(t6, 6);
    PassThenRest(t5, 5);
    PassThenRest(t4, 4);
    PassThenRest(t3, 3);
    PassThenRest(t2, 2);
    PassThenRest(t1, 1);
    PassThenRest(text, 0);
  }

  lemma {:induction false} EraseCollapse(s: string, pat: string, rep: string)
    requires pat != [] && |rep| < |pat| && Erase(pat) == Erase(rep)
    ensures Erase(Collapse(s, pat, rep)) == Erase(s)
    decreases |s|
  {
    if Contains(s, pat) {
      ReplaceShrinks(s, pat, rep);
      EraseReplace(s, pat, rep);
      EraseCollapse(Replace(s, pat, rep), pat, rep);
    }
  }

  /** Appending an indented line adds only that line's non-layout text. */
  lemma EraseIndentedLine(prefix: string, indent: string, line: string)
    requires AllTabs(indent)
    ensures Erase(prefix + indent + line + "\n") == Erase(prefix) + Erase(line)
  {
    EraseTabs(indent);
    EraseAppend(prefix, indent);
    EraseAppend(prefix + indent, line);
    EraseAppend(prefix + indent + line, "\n");
  }

  /** Replacing a final line break by " " + line + line break adds only that line's text. */
  lemma EraseJoinedComment(prefix: string, line: string)
    requires prefix != [] && Last(prefix) == '\n'
    ensures Erase(prefix[..|prefix| - 1] + " " + line + "\n") == Erase(prefix) + Erase(line)
  {
    var head := prefix[..|prefix| - 1];
    assert prefix == head + "\n";
    EraseAppend(head, "\n");
    EraseAppend(head, " ");
    EraseAppend(head + " ", line);
    EraseAppend(head + " " + line, "\n");
  }

  /** One emitted line adds the line's own non-layout text and keeps the tracker made of tabs. */
  lemma EmitLineChangesOnlyLayout(acc: Emitted, line: string)
    requires acc.result != [] || !JoinsPrevious(acc.parse, line)
    requires acc.result != [] ==> Last(acc.result) == '\n'
    requires AllTabs(acc.parse)
    ensures Erase(EmitLine(acc, line).result) == Erase(acc.result) + Erase(line)
    ensures AllTabs(EmitLine(acc, line).parse)
  {
    if line == "{" {
      EraseIndentedLine(acc.result, Indent(acc.result, acc.parse), line);
    } else if line == "}" {
      var parse := EmitLine(acc, line).parse;
      EraseIndentedLine(acc.result, Indent(acc.result, parse), line);
    } else if JoinsPrevious(acc.parse, line) {
      EraseJoinedComment(acc.result, line);
    } else {
      EraseIndentedLine(acc.result, Indent(acc.result, acc.parse), line);
    }
  }

  /** The line loop adds exactly the non-layout text of the lines it is given. */
  lemma {:induction false} EmitLinesChangesOnlyLayout(lines: seq<string>, acc: Emitted)
    requires acc.result != [] || lines == [] || !JoinsPrevious(acc.parse, lines[0])
    requires acc.result != [] ==> Last(acc.result) == '\n'
    requires AllTabs(acc.parse)
    ensures Erase(EmitLines(lines, acc).result) == Erase(acc.result) + Erase(Join(lines, '\n'))
    ensures AllTabs(EmitLines(lines, acc).parse)
    decreases |lines|
  {
    if lines != [] {
      var next := EmitLine(acc, lines[0]);
      EmitLineChangesOnlyLayout(acc, lines[0]);
      EmitLinesChangesOnlyLayout(lines[1..], next);
      EraseJoinFirst(lines);
      AppendAssoc(Erase(acc.result), Erase(lines[0]), Erase(Join(lines[1..], '\n')));
    }
  }

  /** Joining lines adds only line breaks: the first line's text, then the rest's. */
  lemma EraseJoinFirst(lines: seq<string>)
    requires lines != []
    ensures Erase(Join(lines, '\n')) == Erase(lines[0]) + Erase(Join(lines[1..], '\n'))
  {
    var rest := Join(lines[1..], '\n');
    if |lines| > 1 {
      assert Join(lines, '\n') == lines[0] + "\n" + rest;
      EraseAppend(lines[0], "\n");
      EraseAppend(lines[0] + "\n", rest);
    } else {
      assert Join(lines, '\n') == lines[0] && rest == [];
    }
  }

  /**
    Format changes only layout: erasing spaces, tabs and line breaks from its
    input and from its output (and reading a full-width semicolon as ';')
    gives the same text.
  */
  lemma FormatChangesOnlyLayout(text: string, parse: string)
    requires AllTabs(parse)
    ensures Erase(FormatSpec(text, parse).result) == Erase(text)
    ensures AllTabs(FormatSpec(text, parse).parse)
  {
    var normal := Normalize(text);
    var lines := Split(normal, '\n');
    FirstLineIsNotComment(text);
    var e := EmitLines(lines, Emitted([], parse));
    assert FormatSpec(text, parse) == Emitted(e.result[..|e.result| - 1], e.parse);
    EmitLinesChangesOnlyLayout(lines, Emitted([], parse));
    JoinSplit(normal, '\n');
    NormalizeChangesOnlyLayout(text);
    DropFinalBreak(e.result);
  }

  lemma DropFinalBreak(s: string)
    requires s != [] && Last(s) == '\n'
    ensures Erase(s[..|s| - 1]) == Erase(s)
  {
    assert s == s[..|s| - 1] + "\n";
    EraseAppend(s[..|s| - 1], "\n");
  }

  // ---------------------------------------------------------------------
  // The indent tracker

  /** Nesting depth after the lines: +1 after a "{" line, -1 (never below 0) at a "}" line. */
  function Depth(lines: seq<string>, depth: nat): nat
    decreases |lines|
  {
    if lines == [] then depth
    else
      var next := if lines[0] == "{" then depth + 1
                  else if lines[0] == "}" then (if depth == 0 then 0 else depth - 1)
                  else depth;
      Depth(lines[1..], next)
  }

  lemma AllTabsIsTabs(s: string)
    requires AllTabs(s)
    ensures s == Tabs(|s|)
  {
  }

  /** The tracker is always the tab string of the current nesting depth. */
  lemma {:induction false} EmitLinesTracksDepth(lines: seq<string>, acc: Emitted)
    requires acc.result != [] || lines == [] || !JoinsPrevious(acc.parse, lines[0])
    requires AllTabs(acc.parse)
    ensures EmitLines(lines, acc).parse == Tabs(Depth(lines, |acc.parse|))
    decreases |lines|
  {
    if lines == [] {
      AllTabsIsTabs(acc.parse);
    } else {
      var next := EmitLine(acc, lines[0]);
      assert AllTabs(next.parse);
      assert |next.parse| == if lines[0] == "{" then |acc.parse| + 1
                             else if lines[0] == "}" then (if |acc.parse| == 0 then 0 else |acc.parse| - 1)
                             else |acc.parse|;
      EmitLinesTracksDepth(lines[1..], next);
    }
  }

  /**
    Every output line after the first, unless it is a comment joined to the
    line before, starts with one tab per enclosing block: the depth after the
    line when it closes a block, the depth before it otherwise.
  */
  lemma EmitLineIndent(acc: Emitted, line: string)
    requires AllTabs(acc.parse) && acc.result != [] && !JoinsPrevious(acc.parse, line)
    ensures var depth := if line == "}" then Depth([line], |acc.parse|) else |acc.parse|;
      EmitLine(acc, line).result == acc.result + Tabs(depth) + line + "\n"
  {
    AllTabsIsTabs(acc.parse);
    if line == "}" && acc.parse != [] {
      var shorter := acc.parse[..|acc.parse| - 1];
      assert AllTabs(shorter);
      AllTabsIsTabs(shorter);
    }
  }

  /**
    After Format the tracker holds exactly one tab per still-open "{" line,
    counted from the incoming depth and never going below zero.
  */
  lemma FormatTracksDepth(text: string, parse: string)
    requires AllTabs(parse)
    ensures FormatSpec(text, parse).parse == Tabs(Depth(Split(Normalize(text), '\n'), |parse|))
  {
    FirstLineIsNotComment(text);
    EmitLinesTracksDepth(Split(Normalize(text), '\n'), Emitted([], parse));
  }

  lemma {:induction false} DepthWithoutBraceLines(lines: seq<string>, depth: nat)
    requires forall k :: 0 <= k < |lines| ==> '{' !in lines[k] && '}' !in lines[k]
    ensures Depth(lines, depth) == depth
    decreases |lines|
  {
    if lines != [] {
      assert '{' in "{" && '}' in "}";
      DepthWithoutBraceLines(lines[1..], depth);
    }
  }

  lemma {:induction false} SplitAvoids(s: string, sep: char, c: char)
    requires c !in s
    ensures forall k :: 0 <= k < |Split(s, sep)| ==> c !in Split(s, sep)[k]
    decreases |s|
  {
    if s != [] {
      assert forall x :: x in s[1..] ==> x in s;
      SplitAvoids(s[1..], sep, c);
      assert s[0] in s;
    }
  }

  /** Without braces in the text the normalised text has none either. */
  lemma NormalizeWithoutBraces(text: string)
    requires '{' !in text && '}' !in text
    ensures '{' !in Normalize(text) && '}' !in Normalize(text)
  {
    NormalizeIsPasses(text);
    var t1 := Replace(text, "\r", "");
    ReplaceAvoids(text, "\r", "", '{');
    ReplaceAvoids(text, "\r", "", '}');
    var t2 := Replace(t1, "\t", "");
    ReplaceAvoids(t1, "\t", "", '{');
    ReplaceAvoids(t1, "\t", "", '}');
    var t3 := Replace(t2, "{", "\n{\n");
    ReplaceAbsent(t2, "{", "\n{\n");
    var t4 := Replace(t3, "}", "\n}\n");
    ReplaceAbsent(t3, "}", "\n}\n");
    var t5 := Replace(t4, "//", " // ");
    var t6 := Replace(t5, "=", " = ");
    var t7 := Replace(t6, [FullWidthSemicolon], ";");
    var t8 := Collapse(t7, "\n\n", "\n");
    var t9 := Collapse(t8, "  ", " ");
    var t10 := Collapse(t9, "\n ", "\n");
    var t11 := Replace(t10, " ;", ";");
    forall c | c == '{' || c == '}'
      ensures c !in t11
    {
      ReplaceAvoids(t4, "//", " // ", c);
      ReplaceAvoids(t5, "=", " = ", c);
      ReplaceAvoids(t6, [FullWidthSemicolon], ";", c);
      CollapseAvoids(t7, "\n\n", "\n", c);
      CollapseAvoids(t8, "  ", " ", c);
      CollapseAvoids(t9, "\n ", "\n", c);
      ReplaceAvoids(t10, " ;", ";", c);
    }
    ReplaceAbsent(t11, "}", "}\n");
  }

  /** Braces alone drive the tracker: a text without braces leaves it unchanged. */
  lemma FormatWithoutBracesKeepsDepth(text: string, parse: string)
    requires AllTabs(parse)
    requires '{' !in text && '}' !in text
    ensures FormatSpec(text, parse).parse == parse
  {
    NormalizeWithoutBraces(text);
    SplitAvoids(Normalize(text), '\n', '{');
    SplitAvoids(Normalize(text), '\n', '}');
    DepthWithoutBraceLines(Split(Normalize(text), '\n'), |parse|);
    FormatTracksDepth(text, parse);
    AllTabsIsTabs(parse);
  }
}
