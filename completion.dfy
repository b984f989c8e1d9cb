/**
  What the editor does after a character has been typed: the choice among
  the fixed completion lists, the automatic indent after a line break and
  the reformatting triggers.
*/
module Completion {
  import opened Strings

  /** Offered on a new line outside every brace. */
  const TopLevelWords: seq<string> := ["syntax", "message", "package"]
  /** Offered on a new line inside a brace: the field types and `repeated`. */
  const FieldWords: seq<string> := ["int32", "int64", "float", "string", "bytes", "repeated"]
  /** Offered after `syntax=`. */
  const SyntaxWords: seq<string> := ["\"proto3\";", "\"proto2\";"]
  /** Offered after `repeated `: the field types. */
  const RepeatedWords: seq<string> := ["int32", "int64", "float", "string", "bytes"]

  /** The editor's reaction to one typed text. */
  datatype Reaction =
    | Nothing
    | Offer(words: seq<string>)
    | IndentThenOffer(indent: string, words: seq<string>)
    | Reformat

  /** The characters of `line` other than spaces and tabs, in order. */
  function Unspaced(line: string): string {
    if line == [] then []
    else (if line[0] == ' ' || line[0] == '\t' then [] else [line[0]]) + Unspaced(line[1..])
  }

  /** Deleting the tabs and then the spaces keeps every other character, in order. */
  lemma {:induction false} RemoveBlanks(line: string)
    ensures Replace(Replace(line, "\t", ""), " ", "") == Unspaced(line)
  {
    if line != [] {
      var x, rest := line[0], line[1..];
      RemoveBlanks(rest);
      assert "\t" == ['\t'] && " " == [' '];
      ReplaceCharHead(line, '\t', "");
      var noTabs := Replace(line, "\t", "");
      assert Unspaced(line) == (if x == ' ' || x == '\t' then [] else [x]) + Unspaced(rest);
      if x == '\t' {
        assert noTabs == Replace(rest, "\t", "");
      } else {
        assert noTabs == [x] + Replace(rest, "\t", "");
        ReplaceCharHead(noTabs, ' ', "");
        assert noTabs[0] == x && noTabs[1..] == Replace(rest, "\t", "");
        assert Replace(noTabs, " ", "") == (if x == ' ' then [] else [x]) + Unspaced(rest);
      }
    }
  }

  /** The line with its tabs and spaces removed (`CurrentLineContent`). */
  function Stripped(line: string): (r: string)
    ensures r == Unspaced(line)
    ensures ' ' !in r && '\t' !in r
    ensures |r| == |line| - Count(line, ' ') - Count(line, '\t')
    ensures forall ch :: ch != ' ' && ch != '\t' ==> Count(r, ch) == Count(line, ch)
  {
    var noTabs := Replace(line, "\t", "");
    RemoveBlanks(line);
    ReplaceRemoves(line, '\t', "");
    ReplaceCharLength(line, '\t', "");
    ReplaceCharLength(noTabs, ' ', "");
    ReplaceCharCount(line, '\t', "", ' ');
    ReplaceRemoves(noTabs, ' ', "");
    ReplaceAvoids(noTabs, " ", "", '\t');
    assert forall ch :: ch != ' ' && ch != '\t' ==> Count(Replace(noTabs, " ", ""), ch) == Count(line, ch) by {
      forall ch | ch != ' ' && ch != '\t'
        ensures Count(Replace(noTabs, " ", ""), ch) == Count(line, ch)
      {
        ReplaceCharCount(line, '\t', "", ch);
        ReplaceCharCount(noTabs, ' ', "", ch);
      }
    }
    Replace(noTabs, " ", "")
  }

  /**
    The switch on the typed text. `line` is the current line up to the caret
    and `parse` the tabs of the brace depth before the caret.
  */
  function React(typed: string, line: string, parse: string): (r: Reaction)
    ensures r.Reformat? <==> typed == "{" || typed == ";" || typed == "}"
    ensures typed == "\n" ==> (r.Offer? || r.IndentThenOffer?)
    ensures r.Offer? && r.words == TopLevelWords <==> typed == "\n" && parse == []
    ensures r.IndentThenOffer? <==> typed == "\n" && |line| < |parse|
    ensures r.Offer? && r.words == FieldWords <==> typed == "\n" && parse != [] && |line| >= |parse|
    ensures r.IndentThenOffer? ==> |line| + |r.indent| == |parse| && r.words == FieldWords
    ensures r.IndentThenOffer? && AllTabs(line) && AllTabs(parse) ==> line + r.indent == parse
    ensures r.Offer? && r.words == SyntaxWords <==> typed == "=" && Stripped(line) == "syntax="
    ensures r.Offer? && r.words == RepeatedWords <==> typed == " " && Stripped(line) == "repeated"
    ensures r.Nothing? <==>
      || (typed !in ["\n", "=", " ", "{", ";", "}"])
      || (typed == "=" && Stripped(line) != "syntax=")
      || (typed == " " && Stripped(line) != "repeated")
  {
    if typed == "\n" then
      if |parse| == 0 then Offer(TopLevelWords)
      else if |line| < |parse| then IndentThenOffer(parse[|line|..], FieldWords)
      else Offer(FieldWords)
    else if typed == "=" then
      if Stripped(line) == "syntax=" then Offer(SyntaxWords) else Nothing
    else if typed == " " then
      if Stripped(line) == "repeated" then Offer(RepeatedWords) else Nothing
    else if typed == "{" || typed == ";" || typed == "}" then Reformat
    else Nothing
  }
}
