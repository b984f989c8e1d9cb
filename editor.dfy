/**
  The text editor as the window sees it: its text and caret offset, the
  quantities derived from the line the caret is on, insertion at the caret,
  the whole-buffer reformat, and the reaction to a typed character.
*/
module Editing {
  import opened Strings
  import opened Formatter
  import opened AutoFormatting
  import opened Completion

  /**
    The brace depth before the caret, counted over the whole prefix
    (literals and comments included) and never below zero.
  */
  function BraceDepth(prefix: string): nat {
    var depth := Count(prefix, '{') - Count(prefix, '}');
    if depth < 0 then 0 else depth
  }

  /**
    One iteration of the segment loop of `AutoFormat`: a literal (odd `i`) is
    put back between its quotes; a code segment is formatted, the caret
    following the change in length when the segment lies before it.
  */
  method FormatSegment(result: string, index: int, parse: string, i: nat, s: string)
    returns (result': string, index': int, parse': string)
    ensures Pass(result', index', parse') == SegmentStep(Pass(result, index, parse), i, s)
  {
    ghost var st := Pass(result, index, parse);
    result', index', parse' := result, index, parse;
    if i % 2 == 1 {
      result' := result + "\"" + s + "\"";
    } else if |result| + |s| <= index {
      AheadOfCaret(st, i, s);
      var formatstr, p := Format(s, parse);
      parse' := p;
      index' := index + |formatstr| - |s|;
      result' := result + formatstr;
    } else if |result| < index {
      SplitStep(st, i, s);
      result', index', parse' := FormatAtCaret(result, index, parse, s);
    } else {
      BehindCaret(st, i, s);
      var formatstr, p := Format(s, parse);
      parse' := p;
      result' := result + formatstr;
    }
  }

  /**
    The code segment that holds the caret: the halves before and after the
    caret are formatted one after the other, and a blank line or `;` line end
    just before the caret gives up its line break when the second half starts
    on a new line.
  */
  method FormatAtCaret(result: string, index: int, parse: string, s: string)
    returns (result': string, index': int, parse': string)
    requires |result| < index < |result| + |s|
    ensures Pass(result', index', parse') == CaretStep(Pass(result, index, parse), s)
  {
    ghost var k := index - |result|;
    var str1 := s[..index - |result|];
    var str2 := s[index - |result|..];
    var formatstr, p := Format(str1, parse);
    ghost var before := Emitted(formatstr, p);
    index' := index + |formatstr| - |str1|;
    if EndsWith(formatstr, "\n\n") && StartsWith(str2, "\n") {
      formatstr := formatstr[..|formatstr| - 1];
      index' := index' - 1;
    } else if EndsWith(formatstr, ";\n") && StartsWith(str2, "\n") {
      formatstr := formatstr[..|formatstr| - 1];
      index' := index' - 1;
    }
    result' := result + formatstr;
    var rest, p2 := Format(str2, p);
    parse' := p2;
    result' := result' + rest;
    assert Pass(result', index', parse') == Splice(Pass(result, index, parse), s, k, before, Emitted(rest, p2));
  }

  class Editor {
    var text: string
    var caret: nat

    ghost predicate Valid()
      reads this
    {
      caret <= |text|
    }

    constructor (text: string, caret: nat)
      requires caret <= |text|
      ensures Valid() && this.text == text && this.caret == caret
    {
      this.text := text;
      this.caret := caret;
    }

    /** The text between the last line break before the caret and the caret. */
    function CurrentLineText(): (line: string)
      reads this
      requires Valid()
      ensures '\n' !in line
      ensures EndsWith(text[..caret], line)
      ensures |line| < caret ==> text[caret - |line| - 1] == '\n'
    {
      var parts := Split(text[..caret], '\n');
      SplitLast(text[..caret], '\n');
      parts[|parts| - 1]
    }

    /** The current line without its tabs and spaces. */
    function CurrentLineContent(): (content: string)
      reads this
      requires Valid()
      ensures content == Unspaced(CurrentLineText())
      ensures ' ' !in content && '\t' !in content && '\n' !in content
      ensures forall ch :: ch != ' ' && ch != '\t' ==> Count(content, ch) == Count(CurrentLineText(), ch)
    {
      var line := CurrentLineText();
      CountFree(line, '\n');
      var content := Stripped(line);
      assert '\n' !in content by {
        if '\n' in content {
          var k :| 0 <= k < |content| && content[k] == '\n';
          CountPositive(content, '\n', k);
        }
      }
      content
    }

    /**
      The indent for the caret's line: one tab per brace left open before the
      caret, computed from the change in length when every `{` is doubled and
      every `}` dropped.
    */
    method CurrentLineParse() returns (parse: string)
      requires Valid()
      ensures parse == Tabs(BraceDepth(text[..caret]))
    {
      var str := text[..caret];
      var len := |Replace(Replace(str, "{", "{{"), "}", "")| - |str|;
      BraceLengthIsDepth(str);
      parse := "";
      var i := 0;
      while i < len
        invariant 0 <= i && (if len > 0 then i <= len else i == 0)
        invariant parse == Tabs(i)
      {
        parse := parse + "\t";
        i := i + 1;
      }
    }

    /** Inserts `s` at the caret and moves the caret past it. */
    method CurrentWrite(s: string)
      requires Valid()
      modifies this
      ensures Valid()
      ensures text == old(text)[..old(caret)] + s + old(text)[old(caret)..]
      ensures caret == old(caret) + |s|
      ensures text[..caret] == old(text)[..old(caret)] + s && text[caret..] == old(text)[old(caret)..]
      ensures '\n' !in s ==> CurrentLineText() == old(CurrentLineText()) + s
    {
      var index := caret;
      var str1 := text[..index];
      var str2 := text[index..];
      text := str1 + s + str2;
      caret := index + |s|;
      assert text[..caret] == str1 + s;
      if '\n' !in s {
        SplitAppendFree(str1, s, '\n');
      }
    }

    /**
      Reformats the whole buffer and carries the caret along; the outcome is
      `AutoFormatSpec`, whose properties are proved in `AutoFormatting`.
    */
    method AutoFormat()
      requires Valid()
      modifies this
      ensures Valid()
      ensures Buffer(text, caret) == AutoFormatSpec(old(text), old(caret))
    {
      var index: int := caret;
      var start := caret;
      var t := text;
      var original := text;
      var tempkey := HiddenBackslash;
      var tempkey2 := HiddenBackslashPair;
      var tempkey3 := HiddenEscapedQuote;
      t := Replace(t, "\\", tempkey);
      t := Replace(t, tempkey + tempkey, tempkey2);
      t := Replace(t, tempkey + "\"", tempkey3);
      assert t == Protect(original);
      var result := "";
      var strs := Split(t, '"');
      var parse := "";
      for i := 0 to |strs|
        invariant FormatSegments(strs, i, Pass(result, index, parse)) == FormatProtected(t, start)
      {
        result, index, parse := FormatSegment(result, index, parse, i, strs[i]);
      }
      result := Replace(result, tempkey3, tempkey + "\"");
      result := Replace(result, tempkey2, tempkey + tempkey);
      result := Replace(result, tempkey, "\\");
      AutoFormatCaretInBounds(original, start);
      text := result;
      caret := index;
    }

    /**
      The reaction to `typed`, decided on the line and indent before the
      caret: offer a completion list, insert the missing indent after a line
      break and offer the field types, or reformat the buffer. The list offered
      is returned; no list is an empty one.
    */
    method TextEntered(typed: string) returns (offer: seq<string>)
      requires Valid()
      modifies this
      ensures Valid()
      ensures var r := React(typed, old(CurrentLineText()), Tabs(BraceDepth(old(text)[..old(caret)])));
        match r
        case Nothing => offer == [] && text == old(text) && caret == old(caret)
        case Offer(words) => offer == words && text == old(text) && caret == old(caret)
        case IndentThenOffer(indent, words) =>
          && offer == words
          && text == old(text)[..old(caret)] + indent + old(text)[old(caret)..]
          && caret == old(caret) + |indent|
          && CurrentLineText() == old(CurrentLineText()) + indent
        case Reformat => offer == [] && Buffer(text, caret) == AutoFormatSpec(old(text), old(caret))
    {
      if typed == "\n" {
        offer := BreakLine();
        return;
      }
      offer := [];
      ghost var r := React(typed, CurrentLineText(), Tabs(BraceDepth(text[..caret])));
      match typed {
        case "=" =>
          if CurrentLineContent() == "syntax=" {
            offer := SyntaxWords;
          }
        case " " =>
          if CurrentLineContent() == "repeated" {
            offer := RepeatedWords;
          }
        case "{" =>
          assert r == Reformat;
          AutoFormat();
        case ";" =>
          assert r == Reformat;
          AutoFormat();
        case "}" =>
          assert r == Reformat;
          AutoFormat();
        case _ =>
      }
    }

    /**
      The line-break case of `TextEntered`: outside every brace the top-level
      words are offered; inside, the tabs missing from the line before the
      caret are inserted and the field types offered.
    */
    method BreakLine() returns (offer: seq<string>)
      requires Valid()
      modifies this
      ensures Valid()
      ensures var line, parse := old(CurrentLineText()), Tabs(BraceDepth(old(text)[..old(caret)]));
        if parse == [] then offer == TopLevelWords && text == old(text) && caret == old(caret)
        else if |line| < |parse| then
          && offer == FieldWords
          && text == old(text)[..old(caret)] + parse[|line|..] + old(text)[old(caret)..]
          && caret == old(caret) + |parse| - |line|
          && CurrentLineText() == line + parse[|line|..]
        else offer == FieldWords && text == old(text) && caret == old(caret)
    {
      var line := CurrentLineText();
      var parse := CurrentLineParse();
      if |parse| == 0 {
        offer := TopLevelWords;
      } else {
        if |line| < |parse| {
          var indent := parse[|line|..];
          NoBreakInTabs(BraceDepth(text[..caret]), |line|);
          CurrentWrite(indent);
        }
        offer := FieldWords;
      }
    }
  }

  /** An indent made of tabs holds no line break, so inserting it keeps the caret on its line. */
  lemma NoBreakInTabs(n: nat, k: nat)
    requires k <= n
    ensures '\n' !in Tabs(n)[k..]
  {
  }

  /** Doubling every `{` and dropping every `}` changes the length by the brace balance. */
  lemma BraceLengthIsDepth(str: string)
    ensures var len := |Replace(Replace(str, "{", "{{"), "}", "")| - |str|;
      len == Count(str, '{') - Count(str, '}')
  {
    var doubled := Replace(str, "{", "{{");
    ReplaceCharLength(str, '{', "{{");
    ReplaceCharCount(str, '{', "{{", '}');
    ReplaceCharLength(doubled, '}', "");
  }
}
