/**
  The opcode generator: from the lines of a `.proto` file it derives the base
  opcode, the namespace and the message entities, and renders a C# file that
  declares a partial class per message and one `ushort` constant per message,
  numbered consecutively after the base.
*/
module Opcodes {
  import opened Strings

  datatype Option<T> = None | Some(value: T)

  /** The namespace used when no `package` statement is found. */
  const DefaultNamespace: string := "Secode.Network"

  /** The characters .NET regular expressions match with `\s` (and `Char.IsWhiteSpace` accepts). */
  predicate IsWs(c: char) {
    || '\t' <= c <= '\r' || c == ' ' || c == '\U{85}' || c == '\U{A0}' || c == '\U{1680}'
    || '\U{2000}' <= c <= '\U{200A}' || c == '\U{2028}' || c == '\U{2029}' || c == '\U{202F}'
    || c == '\U{205F}' || c == '\U{3000}'
  }

  /** `string.IsNullOrWhiteSpace`. */
  predicate IsBlank(s: string) {
    forall k :: 0 <= k < |s| ==> IsWs(s[k])
  }

  predicate IsDigit(c: char) {
    '0' <= c <= '9'
  }

  predicate AllDigits(s: string) {
    forall k :: 0 <= k < |s| ==> IsDigit(s[k])
  }

  function DigitValue(c: char): nat
    requires IsDigit(c)
  {
    (c as int) - ('0' as int)
  }

  function Digit(d: nat): (c: char)
    requires d < 10
    ensures IsDigit(c) && DigitValue(c) == d
  {
    ('0' as int + d) as char
  }

  /** `int.Parse` on a string of decimal digits. */
  function ParseDecimal(s: string): nat
    requires AllDigits(s)
  {
    if s == [] then 0 else ParseDecimal(s[..|s| - 1]) * 10 + DigitValue(s[|s| - 1])
  }

  /** The decimal text of a number, as string concatenation writes an `int`. */
  function DecimalString(n: nat): (r: string)
    ensures r != [] && AllDigits(r)
    ensures r[0] == '0' ==> n == 0
  {
    if n < 10 then [Digit(n)] else DecimalString(n / 10) + [Digit(n % 10)]
  }

  /** Reading back the decimal text of a number gives the number. */
  lemma {:induction false} ParseDecimalString(n: nat)
    ensures ParseDecimal(DecimalString(n)) == n
  {
    if n >= 10 {
      ParseDecimalString(n / 10);
      var s := DecimalString(n);
      assert s[..|s| - 1] == DecimalString(n / 10);
    }
  }

  // ---------------------------------------------------------------------
  // Header discovery

  /**
    The value of a line that is an opcode base: with every `/` and space
    deleted it is a non-empty run of digits.
  */
  function IndexLineValue(line: string): (r: Option<nat>)
    ensures r.Some? <==> IsIndexLine(line)
  {
    var temp := Replace(Replace(line, "/", ""), " ", "");
    IndexLineShape(line);
    if |temp| > 0 && AllDigits(temp) then Some(ParseDecimal(temp)) else None
  }

  /** Some character is not `/` or a space, and every such character is a digit. */
  predicate IsIndexLine(line: string) {
    && (exists k :: 0 <= k < |line| && line[k] != '/' && line[k] != ' ')
    && (forall k :: 0 <= k < |line| ==> line[k] == '/' || line[k] == ' ' || IsDigit(line[k]))
  }

  lemma IndexLineShape(line: string)
    ensures var temp := Replace(Replace(line, "/", ""), " ", "");
      |temp| > 0 && AllDigits(temp) <==> IsIndexLine(line)
  {
    var noSlash := Replace(line, "/", "");
    var temp := Replace(noSlash, " ", "");
    ReplaceRemoves(line, '/', "");
    ReplaceRemoves(noSlash, ' ', "");
    ReplaceAvoids(noSlash, " ", "", '/');
    forall c | c != '/' && c != ' '
      ensures c in temp <==> c in line
    {
      DeleteKeeps(line, '/', c);
      DeleteKeeps(noSlash, ' ', c);
    }
    if |temp| > 0 {
      assert temp[0] in line;
    }
    if exists k :: 0 <= k < |line| && line[k] != '/' && line[k] != ' ' {
      var k :| 0 <= k < |line| && line[k] != '/' && line[k] != ' ';
      assert line[k] in temp;
    }
    if AllDigits(temp) {
      forall k | 0 <= k < |line| && line[k] != '/' && line[k] != ' '
        ensures IsDigit(line[k])
      {
        assert line[k] in temp;
      }
    }
    if forall k :: 0 <= k < |line| ==> line[k] == '/' || line[k] == ' ' || IsDigit(line[k]) {
      forall k | 0 <= k < |temp|
        ensures IsDigit(temp[k])
      {
        assert temp[k] in line;
      }
    }
  }

  /** The base opcode: the value of the first base line, or 0 when there is none. */
  function BaseIndex(lines: seq<string>): (r: nat)
    ensures (forall k :: 0 <= k < |lines| ==> IndexLineValue(lines[k]).None?) ==> r == 0
    ensures forall k :: 0 <= k < |lines| && IndexLineValue(lines[k]).Some?
              && (forall j :: 0 <= j < k ==> IndexLineValue(lines[j]).None?)
              ==> r == IndexLineValue(lines[k]).value
  {
    if lines == [] then 0
    else match IndexLineValue(lines[0])
      case Some(v) => v
      case None =>
        var r := BaseIndex(lines[1..]);
        assert forall k :: 1 <= k < |lines| ==> lines[1..][k - 1] == lines[k];
        r
  }

  predicate OccursAt(s: string, pat: string, j: nat) {
    j + |pat| <= |s| && s[j..j + |pat|] == pat
  }

  /** The first offset at which `pat` occurs in `s` (`String.IndexOf`). */
  function IndexOf(s: string, pat: string): (r: Option<nat>)
    ensures r.Some? ==> OccursAt(s, pat, r.value)
    ensures r.Some? ==> forall j: nat :: j < r.value ==> !OccursAt(s, pat, j)
    ensures r.None? ==> forall j: nat :: !OccursAt(s, pat, j)
    decreases |s|
  {
    if |s| < |pat| then None
    else if s[..|pat|] == pat then Some(0)
    else
      match IndexOf(s[1..], pat)
      case Some(i) =>
        OccursShift(s, pat);
        Some(i + 1)
      case None =>
        OccursShift(s, pat);
        None
  }

  lemma OccursShift(s: string, pat: string)
    requires s != []
    ensures OccursAt(s, pat, 0) <==> StartsWith(s, pat)
    ensures forall j: nat :: j >= 1 ==> (OccursAt(s, pat, j) <==> OccursAt(s[1..], pat, j - 1))
  {
    assert |pat| <= |s| ==> s[0..|pat|] == s[..|pat|];
    forall j: nat | j >= 1
      ensures OccursAt(s, pat, j) <==> OccursAt(s[1..], pat, j - 1)
    {
      if j + |pat| <= |s| {
        SliceOfTail(s, j, |pat|);
      }
    }
  }

  /** A slice of the text without its first character is the slice one further on. */
  lemma SliceOfTail(s: string, j: nat, m: nat)
    requires 1 <= j && j + m <= |s|
    ensures s[1..][j - 1..j - 1 + m] == s[j..j + m]
  {
  }

  /** The regular expression `package (.*?);` matches `line` at offset `p` with `name` as its group. */
  predicate PackageAt(line: string, p: nat, name: string) {
    && p + 8 + |name| < |line|
    && line[p..p + 8] == "package "
    && line[p + 8..p + 8 + |name|] == name
    && line[p + 8 + |name|] == ';'
  }

  /** The group of the first match of `package (.*?);` in the line. */
  function PackageName(line: string): (r: Option<string>)
  {
    match IndexOf(line, "package ")
    case None => None
    case Some(p) =>
      var rest := line[p + 8..];
      match IndexOf(rest, ";")
      case None => None
      case Some(q) => Some(rest[..q])
  }

  /**
    `PackageName` is the regular expression's first match: the leftmost match,
    and at that offset the shortest group; and there is none when the
    expression does not match anywhere.
  */
  lemma PackageNameIsFirstMatch(line: string)
    ensures PackageName(line).Some? ==>
      exists p: nat :: PackageAt(line, p, PackageName(line).value)
        && (forall p': nat, name :: p' < p ==> !PackageAt(line, p', name))
        && (forall name :: |name| < |PackageName(line).value| ==> !PackageAt(line, p, name))
    ensures PackageName(line).None? ==> forall p: nat, name :: !PackageAt(line, p, name)
  {
    match IndexOf(line, "package ")
    case None =>
      forall p: nat, name | PackageAt(line, p, name)
        ensures false
      {
        assert OccursAt(line, "package ", p);
      }
    case Some(p) =>
      forall p': nat, name | p' < p && PackageAt(line, p', name)
        ensures false
      {
        assert OccursAt(line, "package ", p');
      }
      match IndexOf(line[p + 8..], ";")
      case None =>
        NoTerminator(line, p);
      case Some(q) =>
        ShortestGroup(line, p, q);
  }

  lemma NoTerminator(line: string, p: nat)
    requires OccursAt(line, "package ", p) && IndexOf(line[p + 8..], ";").None?
    requires forall j: nat :: j < p ==> !OccursAt(line, "package ", j)
    ensures forall p': nat, name :: !PackageAt(line, p', name)
  {
    var rest := line[p + 8..];
    forall p': nat, name | PackageAt(line, p', name)
      ensures false
    {
      assert OccursAt(line, "package ", p');
      var j := p' + 8 + |name| - (p + 8);
      assert rest[j..j + 1] == [line[p' + 8 + |name|]];
      assert OccursAt(rest, ";", j);
    }
  }

  lemma ShortestGroup(line: string, p: nat, q: nat)
    requires OccursAt(line, "package ", p) && IndexOf(line[p + 8..], ";") == Some(q)
    ensures PackageAt(line, p, line[p + 8..][..q])
    ensures forall name :: |name| < q ==> !PackageAt(line, p, name)
  {
    var rest := line[p + 8..];
    assert OccursAt(rest, ";", q);
    assert line[p + 8..p + 8 + q] == rest[..q];
    forall name | |name| < q
      ensures !PackageAt(line, p, name)
    {
      GroupEndsAtTerminator(line, p, name);
    }
  }

  /** A package match at `p` ends at a `;` of the text after the keyword. */
  lemma GroupEndsAtTerminator(line: string, p: nat, name: string)
    ensures PackageAt(line, p, name) ==> OccursAt(line[p + 8..], ";", |name|)
  {
    if PackageAt(line, p, name) {
      var rest := line[p + 8..];
      assert rest[|name|] == line[p + 8 + |name|];
      assert rest[|name|..|name| + 1] == [rest[|name|]];
    }
  }

  /** The namespace: the group of the first line that matches `package (.*?);`, or the default. */
  function Namespace(lines: seq<string>): (r: string)
    ensures (forall k :: 0 <= k < |lines| ==> PackageName(lines[k]).None?) ==> r == DefaultNamespace
    ensures forall k :: 0 <= k < |lines| && PackageName(lines[k]).Some?
              && (forall j :: 0 <= j < k ==> PackageName(lines[j]).None?)
              ==> r == PackageName(lines[k]).value
  {
    if lines == [] then DefaultNamespace
    else match PackageName(lines[0])
      case Some(name) => name
      case None =>
        var r := Namespace(lines[1..]);
        assert forall k :: 1 <= k < |lines| ==> lines[1..][k - 1] == lines[k];
        r
  }

  // ---------------------------------------------------------------------
  // Message entities

  /** A message declared in the file: its class name and the supertype named in its trailing comment. */
  datatype Entity = Entity(name: string, supertype: string)

  // The end of the whitespace run that starts at `i` (a greedy `\s*`).
  function SkipWs(line: string, i: nat): (r: nat)
    requires i <= |line|
    ensures i <= r <= |line|
    ensures forall k :: i <= k < r ==> IsWs(line[k])
    ensures r == |line| || !IsWs(line[r])
    decreases |line| - i
  {
    if i < |line| && IsWs(line[i]) then SkipWs(line, i + 1) else i
  }

  /** The text without its trailing whitespace (what a lazy group before `\s*` captures). */
  function TrimEndWs(s: string): (r: string)
    ensures |r| <= |s| && s[..|r|] == r
    ensures IsBlank(s[|r|..])
    ensures r == [] || !IsWs(r[|r| - 1])
  {
    if s != [] && IsWs(s[|s| - 1]) then
      var r := TrimEndWs(s[..|s| - 1]);
      assert s[|r|..] == s[..|s| - 1][|r|..] + [s[|s| - 1]];
      r
    else s
  }

  /** The line starts with `message` and a whitespace character (`^message\s+`). */
  predicate IsMessageLine(line: string) {
    |line| > 7 && line[..7] == "message" && IsWs(line[7])
  }

  // The groups of the first match of `^message\s+(.*?)\s*//\s*(.*?)$`.
  function MatchWithComment(line: string): Option<Entity> {
    if !IsMessageLine(line) then None
    else
      var q := SkipWs(line, 7);
      match IndexOf(line[q..], "//")
      case None => None
      case Some(f) => Some(Entity(TrimEndWs(line[q..q + f]), line[SkipWs(line, q + f + 2)..]))
  }

  // Group 1 of the first match of `^message\s+(.*?)\s*$`; the missing group 2 reads as empty.
  function MatchPlain(line: string): Option<Entity> {
    if !IsMessageLine(line) then None
    else Some(Entity(TrimEndWs(line[SkipWs(line, 7)..]), ""))
  }

  /**
    The entity a line declares: the first pattern if it matches, else the
    second. Only lines that start with `message` and whitespace declare one
    (an indented, nested message does not); names and supertypes come out
    without surrounding whitespace.
  */
  function ParseEntity(line: string): (r: Option<Entity>)
    ensures r.Some? <==> IsMessageLine(line)
    ensures r.Some? ==> r.value.name == [] || (!IsWs(r.value.name[0]) && !IsWs(r.value.name[|r.value.name| - 1]))
    ensures r.Some? ==> r.value.supertype == [] || !IsWs(r.value.supertype[0])
  {
    match MatchWithComment(line)
    case Some(e) => Some(e)
    case None => MatchPlain(line)
  }

  /** A supertype is named exactly when the comment text is not blank. */
  lemma SupertypeNamedWhenNotBlank(line: string)
    requires ParseEntity(line).Some?
    ensures IsBlank(ParseEntity(line).value.supertype) <==> ParseEntity(line).value.supertype == []
  {
    var t := ParseEntity(line).value.supertype;
    if t != [] {
      assert !IsWs(t[0]);
    }
  }

  /** A declaration as one would write it: `message Name` or `message Name // Supertype`. */
  function MessageLine(e: Entity): string {
    if e.supertype == [] then "message " + e.name else "message " + e.name + " // " + e.supertype
  }

  predicate IsPlainName(name: string) {
    && name != []
    && (forall k :: 0 <= k < |name| ==> !IsWs(name[k]))
    && IndexOf(name, "//").None?
  }

  /** Parsing a written declaration gives back the entity. */
  lemma ParseMessageLine(e: Entity)
    requires IsPlainName(e.name) && (e.supertype == [] || !IsWs(e.supertype[0]))
    ensures ParseEntity(MessageLine(e)) == Some(e)
  {
    var line := MessageLine(e);
    NameStart(e.name, line[8..]);
    if e.supertype == [] {
      PlainLineParses(e.name);
    } else {
      CommentLineParses(e.name, e.supertype);
    }
  }

  /** After `message ` the name starts at offset 8. */
  lemma NameStart(name: string, tail: string)
    requires IsPlainName(name) && StartsWith(tail, name)
    ensures IsMessageLine("message " + tail)
    ensures SkipWs("message " + tail, 7) == 8
  {
    var line := "message " + tail;
    assert line[..7] == "message" && line[7] == ' ';
    assert line[8] == name[0];
    assert SkipWs(line, 8) == 8;
  }

  lemma PlainLineParses(name: string)
    requires IsPlainName(name)
    ensures ParseEntity("message " + name) == Some(Entity(name, ""))
  {
    var line := "message " + name;
    NameStart(name, name);
    assert line[8..] == name;
    assert TrimEndWs(name) == name;
    assert MatchWithComment(line) == None;
  }

  lemma CommentLineParses(name: string, supertype: string)
    requires IsPlainName(name) && supertype != [] && !IsWs(supertype[0])
    ensures ParseEntity("message " + name + " // " + supertype) == Some(Entity(name, supertype))
  {
    CommentLineMatches(name, supertype);
  }

  lemma CommentLineMatches(name: string, supertype: string)
    requires IsPlainName(name) && supertype != [] && !IsWs(supertype[0])
    ensures MatchWithComment("message " + name + " // " + supertype) == Some(Entity(name, supertype))
  {
    var rest := name + " // " + supertype;
    var line := "message " + rest;
    assert line == "message " + name + " // " + supertype;
    assert line[..8] == "message " && line[8..] == rest;
    CommentMatchAt(line, name, supertype);
  }

  /** The first pattern on a line that reads `message `, the name, ` // ` and the supertype. */
  lemma CommentMatchAt(line: string, name: string, supertype: string)
    requires IsPlainName(name) && supertype != [] && !IsWs(supertype[0])
    requires |line| >= 8 && line[..8] == "message " && line[8..] == name + " // " + supertype
    ensures MatchWithComment(line) == Some(Entity(name, supertype))
  {
    var rest := line[8..];
    var n := |name|;
    assert line == "message " + rest;
    NameStart(name, rest);
    FirstComment(name, supertype);
    CommentPieces(name, supertype);
    assert line[8..8 + n + 1] == rest[..n + 1];
    assert line[8 + n + 3] == rest[n + 3] && line[8 + n + 4..] == rest[n + 4..];
    TrimOneSpace(name);
    CommentTextStart(line, 8 + n + 3, supertype);
  }

  lemma CommentPieces(name: string, supertype: string)
    ensures var rest := name + " // " + supertype; var n := |name|;
      rest[..n + 1] == name + " " && rest[n + 3] == ' ' && rest[n + 4..] == supertype
  {
  }

  /** A trailing space is trimmed off a name without whitespace at its end. */
  lemma TrimOneSpace(name: string)
    requires name != [] && !IsWs(name[|name| - 1])
    ensures TrimEndWs(name + " ") == name
  {
    assert (name + " ")[..|name|] == name;
  }

  /** After `//` and one space the comment text starts at its first non-blank character. */
  lemma CommentTextStart(line: string, i: nat, supertype: string)
    requires i + 2 <= |line| && line[i] == ' ' && line[i + 1..] == supertype
    requires supertype != [] && !IsWs(supertype[0])
    ensures SkipWs(line, i) == i + 1 && line[SkipWs(line, i)..] == supertype
  {
    assert line[i + 1] == supertype[0];
    assert SkipWs(line, i + 1) == i + 1;
  }

  /** The comment marker after a plain name is the first `//` of the rest of the line. */
  lemma FirstComment(name: string, supertype: string)
    requires IsPlainName(name)
    ensures IndexOf(name + " // " + supertype, "//") == Some(|name| + 1)
  {
    var rest := name + " // " + supertype;
    var n := |name|;
    assert rest[n + 1..n + 3] == "//";
    assert OccursAt(rest, "//", n + 1);
    forall j: nat | j < n + 1
      ensures !OccursAt(rest, "//", j)
    {
      NoMarkerBefore(name, supertype, j);
    }
  }

  /** No `//` starts inside a plain name or at its last character. */
  lemma NoMarkerBefore(name: string, supertype: string, j: nat)
    requires IsPlainName(name) && j < |name| + 1
    ensures !OccursAt(name + " // " + supertype, "//", j)
  {
    var rest := name + " // " + supertype;
    if j + 2 <= |name| {
      assert rest[j..j + 2] == name[j..j + 2];
      assert !OccursAt(name, "//", j);
    } else if j + 1 == |name| {
      assert rest[j..j + 2][1] == rest[j + 1] == ' ';
    } else {
      assert rest[j..j + 2][0] == rest[j] == ' ';
    }
  }

  /** The entities of the file's lines, in file order. */
  function Entities(lines: seq<string>): (r: seq<Entity>)
    ensures |r| <= |lines|
  {
    if lines == [] then []
    else Entities(lines[..|lines| - 1]) + Declared(lines[|lines| - 1])
  }

  /** The entity a single line declares, if any. */
  function Declared(line: string): (r: seq<Entity>)
    ensures |r| <= 1
  {
    match ParseEntity(line)
    case Some(e) => [e]
    case None => []
  }

  /** Entities of two runs of lines follow each other in order. */
  lemma {:induction false} EntitiesAppend(a: seq<string>, b: seq<string>)
    ensures Entities(a + b) == Entities(a) + Entities(b)
    decreases |b|
  {
    if b == [] {
      assert a + b == a;
    } else {
      var init, x := b[..|b| - 1], b[|b| - 1];
      assert b == init + [x];
      assert a + b == (a + init) + [x];
      EntitiesAppend(a, init);
      EntitiesSnoc(a + init, x);
      EntitiesSnoc(init, x);
      Regroup(Entities(a), Entities(init), Declared(x));
    }
  }

  lemma Regroup(a: seq<Entity>, b: seq<Entity>, c: seq<Entity>)
    ensures a + b + c == a + (b + c)
  {
  }

  lemma EntitiesSnoc(lines: seq<string>, x: string)
    ensures Entities(lines + [x]) == Entities(lines) + Declared(x)
  {
    assert (lines + [x])[..|lines|] == lines;
  }

  /** One entity per line that starts with `message` and whitespace. */
  lemma {:induction false} EntitiesAreMessageLines(lines: seq<string>)
    ensures |Entities(lines)| == |MessageLines(lines)|
    ensures forall k :: 0 <= k < |Entities(lines)| ==> ParseEntity(MessageLines(lines)[k]) == Some(Entities(lines)[k])
  {
    if lines != [] {
      EntitiesAreMessageLines(lines[..|lines| - 1]);
    }
  }

  /** The lines that declare a message, in file order. */
  function MessageLines(lines: seq<string>): (r: seq<string>)
    ensures forall k :: 0 <= k < |r| ==> IsMessageLine(r[k])
  {
    if lines == [] then []
    else
      var init := MessageLines(lines[..|lines| - 1]);
      if IsMessageLine(lines[|lines| - 1]) then init + [lines[|lines| - 1]] else init
  }

  // ---------------------------------------------------------------------
  // Rendering

  /** The opcode class is named after the message file, `Message` replaced by `Opcode`. */
  function OpcodeClassName(option: string): (r: string)
    ensures !Contains(option, "Message") ==> r == option
  {
    Replace(option, "Message", "Opcode")
  }

  /**
    A message file `XMessage` gets the opcode class `XOpcode` when `X` does
    not itself hold `Message`: no occurrence can straddle `X` and the suffix,
    since no proper suffix of `Message` starts it again.
  */
  lemma {:induction false} OpcodeClassOfMessageFile(stem: string)
    requires !Contains(stem, "Message")
    ensures OpcodeClassName(stem + "Message") == stem + "Opcode"
    decreases |stem|
  {
    var s := stem + "Message";
    if stem == [] {
      assert s[..7] == "Message" && s[7..] == [];
    } else {
      NotMessageAtStart(stem);
      assert s[1..] == stem[1..] + "Message";
      OpcodeClassOfMessageFile(stem[1..]);
      assert [stem[0]] + stem[1..] == stem;
    }
  }

  /** A non-empty stem free of `Message`, followed by `Message`, does not start with `Message`. */
  lemma NotMessageAtStart(stem: string)
    requires stem != [] && !Contains(stem, "Message")
    ensures (stem + "Message")[..7] != "Message"
  {
    var s := stem + "Message";
    if |stem| < 7 {
      assert s[|stem|] == 'M';
      assert "Message"[|stem|] != 'M';
      assert s[..7][|stem|] != "Message"[|stem|];
    } else {
      assert s[..7] == stem[..7];
    }
  }

  /** The opening of a namespace block. */
  function NamespaceOpen(ns: string, nl: string): string {
    "namespace " + ns + nl + "{" + nl
  }

  /** The message attribute and the partial class declared for one message. */
  function Wrapper(e: Entity, cls: string, nl: string): string {
    "    [Message(" + cls + "." + e.name + ")]" + nl
    + (if !IsBlank(e.supertype) then "    public partial class " + e.name + " : " + e.supertype + " { }"
       else "    public partial class " + e.name + " { }")
    + nl + nl
  }

  /** The wrapper classes of the messages, in order. */
  function Wrappers(es: seq<Entity>, cls: string, nl: string): string {
    if es == [] then [] else Wrappers(es[..|es| - 1], cls, nl) + Wrapper(es[|es| - 1], cls, nl)
  }

  /** The declaration of the constant holding the opcode `value` of the message `name`. */
  function ConstantDecl(name: string, value: nat): string {
    "        public const ushort " + name + " = " + DecimalString(value) + ";"
  }

  /** That declaration on a line of its own. */
  function Constant(name: string, value: nat, nl: string): string {
    ConstantDecl(name, value) + nl
  }

  /** The constants of the messages, the k-th (from 1) numbered `base + k`. */
  function Constants(es: seq<Entity>, base: nat, nl: string): string {
    if es == [] then [] else Constants(es[..|es| - 1], base, nl) + Constant(es[|es| - 1].name, base + |es|, nl)
  }

  /** The generated C# file for a namespace, an opcode class and the two blocks. */
  function Render(ns: string, cls: string, wrappers: string, constants: string, nl: string): string {
    "namespace " + ns + nl + "{" + nl + wrappers + "}" + nl
    + ("namespace " + ns) + nl + "{" + nl + ("    public static partial class " + cls) + nl + "    {" + nl
    + constants + "    }" + nl + "}" + nl
  }

  /** The file opens with the namespace line and `{`, and closes the class and the namespace. */
  lemma RenderFrame(ns: string, cls: string, wrappers: string, constants: string, nl: string)
    ensures StartsWith(Render(ns, cls, wrappers, constants, nl), NamespaceOpen(ns, nl))
    ensures EndsWith(Render(ns, cls, wrappers, constants, nl), "    }" + nl + "}" + nl)
  {
    var open := NamespaceOpen(ns, nl);
    var s := open;
    StartsWithAppend(s, wrappers, open);
    s := s + wrappers;
    StartsWithAppend(s, "}", open);
    s := s + "}";
    StartsWithAppend(s, nl, open);
    s := s + nl;
    StartsWithAppend(s, "namespace " + ns, open);
    s := s + ("namespace " + ns);
    StartsWithAppend(s, nl, open);
    s := s + nl;
    StartsWithAppend(s, "{", open);
    s := s + "{";
    StartsWithAppend(s, nl, open);
    s := s + nl;
    StartsWithAppend(s, "    public static partial class " + cls, open);
    s := s + ("    public static partial class " + cls);
    StartsWithAppend(s, nl, open);
    s := s + nl;
    StartsWithAppend(s, "    {", open);
    s := s + "    {";
    StartsWithAppend(s, nl, open);
    s := s + nl;
    StartsWithAppend(s, constants, open);
    s := s + constants;
    var r := s + "    }" + nl + "}" + nl;
    assert r == Render(ns, cls, wrappers, constants, nl);
    StartsWithAppend(s, "    }", open);
    StartsWithAppend(s + "    }", nl, open);
    StartsWithAppend(s + "    }" + nl, "}", open);
    StartsWithAppend(s + "    }" + nl + "}", nl, open);
    AppendAssoc(s, "    }", nl);
    AppendAssoc(s, "    }" + nl, "}");
    AppendAssoc(s, "    }" + nl + "}", nl);
    var close := "    }" + nl + "}" + nl;
    assert r == s + close;
    assert r[|s|..] == close;
  }

  /** The file generated from the lines of a `.proto` file. */
  function OpcodeFile(lines: seq<string>, option: string, nl: string): string {
    var es := Entities(lines);
    var cls := OpcodeClassName(option);
    Render(Namespace(lines), cls, Wrappers(es, cls, nl), Constants(es, BaseIndex(lines), nl), nl)
  }

  lemma WrappersSnoc(es: seq<Entity>, e: Entity, cls: string, nl: string)
    ensures Wrappers(es + [e], cls, nl) == Wrappers(es, cls, nl) + Wrapper(e, cls, nl)
  {
    assert (es + [e])[..|es|] == es;
  }

  lemma ConstantsSnoc(es: seq<Entity>, e: Entity, base: nat, nl: string)
    ensures Constants(es + [e], base, nl) == Constants(es, base, nl) + Constant(e.name, base + |es| + 1, nl)
  {
    assert (es + [e])[..|es|] == es;
  }

  /** The wrappers of a prefix of the messages start the wrapper block. */
  lemma {:induction false} WrappersPrefix(es: seq<Entity>, k: nat, cls: string, nl: string)
    requires k <= |es|
    ensures StartsWith(Wrappers(es, cls, nl), Wrappers(es[..k], cls, nl))
    decreases |es|
  {
    if k < |es| {
      var init := es[..|es| - 1];
      WrappersPrefix(init, k, cls, nl);
      assert init[..k] == es[..k];
      assert es == init + [es[|es| - 1]];
      WrappersSnoc(init, es[|es| - 1], cls, nl);
    } else {
      assert es[..k] == es;
    }
  }

  /** The constants of a prefix of the messages start the constant block. */
  lemma {:induction false} ConstantsPrefix(es: seq<Entity>, k: nat, base: nat, nl: string)
    requires k <= |es|
    ensures StartsWith(Constants(es, base, nl), Constants(es[..k], base, nl))
    decreases |es|
  {
    if k < |es| {
      var init := es[..|es| - 1];
      ConstantsPrefix(init, k, base, nl);
      assert init[..k] == es[..k];
      assert es == init + [es[|es| - 1]];
      ConstantsSnoc(init, es[|es| - 1], base, nl);
    } else {
      assert es[..k] == es;
    }
  }

  /**
    The wrapper block and the constant block list the messages in the same
    order: after the entries of the first k messages, both continue with the
    (k+1)-th, whose constant is `base + k + 1`.
  */
  lemma MessagesInOrder(es: seq<Entity>, k: nat, cls: string, base: nat, nl: string)
    requires k < |es|
    ensures StartsWith(Wrappers(es, cls, nl), Wrappers(es[..k], cls, nl) + Wrapper(es[k], cls, nl))
    ensures StartsWith(Constants(es, base, nl), Constants(es[..k], base, nl) + Constant(es[k].name, base + k + 1, nl))
  {
    WrapperInOrder(es, k, cls, nl);
    ConstantInOrder(es, k, base, nl);
  }

  lemma WrapperInOrder(es: seq<Entity>, k: nat, cls: string, nl: string)
    requires k < |es|
    ensures StartsWith(Wrappers(es, cls, nl), Wrappers(es[..k], cls, nl) + Wrapper(es[k], cls, nl))
  {
    WrappersPrefix(es, k + 1, cls, nl);
    assert es[..k + 1] == es[..k] + [es[k]];
    WrappersSnoc(es[..k], es[k], cls, nl);
  }

  lemma ConstantInOrder(es: seq<Entity>, k: nat, base: nat, nl: string)
    requires k < |es|
    ensures StartsWith(Constants(es, base, nl), Constants(es[..k], base, nl) + Constant(es[k].name, base + k + 1, nl))
  {
    ConstantsPrefix(es, k + 1, base, nl);
    assert es[..k + 1] == es[..k] + [es[k]];
    ConstantsSnoc(es[..k], es[k], base, nl);
  }

  /** The value written into a constant reads back as the number it was given. */
  lemma ConstantValue(name: string, value: nat, nl: string)
    ensures var d := DecimalString(value);
      Constant(name, value, nl) == "        public const ushort " + name + " = " + d + ";" + nl
      && ParseDecimal(d) == value
  {
    ParseDecimalString(value);
  }

  /**
    The class declared for a message line extends a supertype exactly when the
    line's comment names one: text after `//` that is not all whitespace.
  */
  lemma DeclaredWrapper(line: string, cls: string, nl: string)
    requires ParseEntity(line).Some?
    ensures var e := ParseEntity(line).value;
      var decl := "    [Message(" + cls + "." + e.name + ")]" + nl;
      Wrapper(e, cls, nl) == decl
        + (if e.supertype != [] then "    public partial class " + e.name + " : " + e.supertype + " { }"
           else "    public partial class " + e.name + " { }")
        + nl + nl
  {
    SupertypeNamedWhenNotBlank(line);
  }

  /** One more line adds its wrapper, if it declares a message. */
  lemma WrappersStep(lines: seq<string>, k: nat, cls: string, nl: string)
    requires k < |lines|
    ensures var w := Wrappers(Entities(lines[..k]), cls, nl);
      Wrappers(Entities(lines[..k + 1]), cls, nl)
        == match ParseEntity(lines[k]) case Some(e) => w + Wrapper(e, cls, nl) case None => w
  {
    assert lines[..k + 1] == lines[..k] + [lines[k]];
    EntitiesSnoc(lines[..k], lines[k]);
    match ParseEntity(lines[k])
    case Some(e) =>
      WrappersSnoc(Entities(lines[..k]), e, cls, nl);
    case None =>
      assert Entities(lines[..k + 1]) == Entities(lines[..k]);
  }

  /** A line that declares nothing adds no constant. */
  lemma SkippedLine(lines: seq<string>, k: nat)
    requires k < |lines| && ParseEntity(lines[k]).None?
    ensures Entities(lines[..k + 1]) == Entities(lines[..k])
  {
    assert lines[..k + 1] == lines[..k] + [lines[k]];
    EntitiesSnoc(lines[..k], lines[k]);
  }

  /** A line that declares `e` adds it after the entities before it. */
  lemma DeclaringLine(lines: seq<string>, k: nat, e: Entity)
    requires k < |lines| && ParseEntity(lines[k]) == Some(e)
    ensures Entities(lines[..k + 1]) == Entities(lines[..k]) + [e]
  {
    assert lines[..k + 1] == lines[..k] + [lines[k]];
    EntitiesSnoc(lines[..k], lines[k]);
  }

  /** A name without `/` contains no comment marker. */
  lemma {:induction false} NoSlashNoComment(name: string)
    requires '/' !in name
    ensures IndexOf(name, "//").None?
    decreases |name|
  {
    if |name| >= 2 {
      assert name[0] in name;
      assert name[..2] != "//" by {
        assert name[..2][0] == name[0];
      }
      assert forall c :: c in name[1..] ==> c in name;
      NoSlashNoComment(name[1..]);
    }
  }

  /** A line holding just the decimal text of a number is a base line with that value. */
  lemma DecimalIndexLine(n: nat)
    ensures IndexLineValue(DecimalString(n)) == Some(n)
  {
    var d := DecimalString(n);
    assert '/' !in d && ' ' !in d by {
      forall k | 0 <= k < |d| ensures d[k] != '/' && d[k] != ' ' {
        assert IsDigit(d[k]);
      }
    }
    ReplaceAbsent(d, "/", "");
    ReplaceAbsent(d, " ", "");
    ParseDecimalString(n);
  }

  lemma EntitiesOfThree(a: string, b: string, c: string)
    ensures Entities([a, b, c]) == Declared(a) + Declared(b) + Declared(c)
  {
    assert [] + [a] == [a];
    EntitiesSnoc([], a);
    EmptyFirst(Declared(a));
    assert [a] + [b] == [a, b];
    EntitiesSnoc([a], b);
    assert [a, b] + [c] == [a, b, c];
    EntitiesSnoc([a, b], c);
  }

  lemma EmptyFirst(x: seq<Entity>)
    ensures [] + x == x
  {
  }

  lemma ConstantsOfTwo(e1: Entity, e2: Entity, n: nat, nl: string)
    ensures Constants([e1, e2], n, nl) == Constant(e1.name, n + 1, nl) + Constant(e2.name, n + 2, nl)
  {
    ConstantsSnoc([], e1, n, nl);
    ConstantsSnoc([e1], e2, n, nl);
    assert [] + [e1] == [e1] && [e1] + [e2] == [e1, e2];
  }

  lemma DeclarationsOfExample(n: nat, first: string, second: string, supertype: string)
    requires IsPlainName(first) && IsPlainName(second) && supertype != [] && !IsWs(supertype[0])
    ensures Entities([DecimalString(n), "message " + first, "message " + second + " // " + supertype])
         == [Entity(first, ""), Entity(second, supertype)]
  {
    var d := DecimalString(n);
    var plain, commented := "message " + first, "message " + second + " // " + supertype;
    DigitLineDeclaresNothing(d);
    PlainLineParses(first);
    DeclaredOf(plain, Entity(first, ""));
    CommentLineParses(second, supertype);
    DeclaredOf(commented, Entity(second, supertype));
    EntitiesOfThree(d, plain, commented);
    assert [] + [Entity(first, "")] + [Entity(second, supertype)] == [Entity(first, ""), Entity(second, supertype)];
  }

  /** A line starting with a digit declares no message. */
  lemma DigitLineDeclaresNothing(line: string)
    requires line != [] && IsDigit(line[0])
    ensures Declared(line) == []
  {
  }

  /** A line that parses to `e` declares exactly `e`. */
  lemma DeclaredOf(line: string, e: Entity)
    requires ParseEntity(line) == Some(e)
    ensures Declared(line) == [e]
  {
  }

  /**
    The numbering at work: below a base line `n`, a plain declaration and one
    naming a supertype after `//` become the constants `n + 1` and `n + 2`,
    and only the second wrapper extends a supertype.
  */
  lemma NumberingExample(n: nat, first: string, second: string, supertype: string, nl: string)
    requires IsPlainName(first) && IsPlainName(second) && supertype != [] && !IsWs(supertype[0])
    ensures var lines := [DecimalString(n), "message " + first, "message " + second + " // " + supertype];
      var es := Entities(lines);
      && BaseIndex(lines) == n
      && es == [Entity(first, ""), Entity(second, supertype)]
      && Constants(es, BaseIndex(lines), nl) == Constant(first, n + 1, nl) + Constant(second, n + 2, nl)
      && IsBlank(es[0].supertype) && !IsBlank(es[1].supertype)
  {
    var lines := [DecimalString(n), "message " + first, "message " + second + " // " + supertype];
    DecimalIndexLine(n);
    assert IndexLineValue(lines[0]).Some?;
    DeclarationsOfExample(n, first, second, supertype);
    ConstantsOfTwo(Entity(first, ""), Entity(second, supertype), n, nl);
  }

  // ---------------------------------------------------------------------
  // The generator, region by region

  /** Scans for the first base line; its value is the base index, else 0. */
  method FindBaseIndex(lines: seq<string>) returns (index: nat)
    ensures index == BaseIndex(lines)
  {
    index := 0;
    var n := 0;
    while n < |lines|
      invariant n <= |lines|
      invariant forall j :: 0 <= j < n ==> IndexLineValue(lines[j]).None?
      invariant index == 0
    {
      var temp := Replace(Replace(lines[n], "/", ""), " ", "");
      if |temp| > 0 && AllDigits(temp) {
        index := ParseDecimal(temp);
        assert IndexLineValue(lines[n]) == Some(index);
        return;
      }
      n := n + 1;
    }
  }

  /** Scans for the first `package` statement; its name is the namespace, else the default. */
  method FindNamespace(lines: seq<string>) returns (nameSpace: string)
    ensures nameSpace == Namespace(lines)
  {
    nameSpace := DefaultNamespace;
    var n := 0;
    while n < |lines|
      invariant n <= |lines|
      invariant forall j :: 0 <= j < n ==> PackageName(lines[j]).None?
      invariant nameSpace == DefaultNamespace
    {
      var mc := PackageName(lines[n]);
      if mc.Some? {
        nameSpace := mc.value;
        return;
      }
      n := n + 1;
    }
  }

  /** Appends the wrapper class of every message line, in file order. */
  method AppendWrappers(text: string, lines: seq<string>, opcodeClass: string, newLine: string)
    returns (opcodeText: string)
    ensures opcodeText == text + Wrappers(Entities(lines), opcodeClass, newLine)
  {
    opcodeText := text;
    for k := 0 to |lines|
      invariant opcodeText == text + Wrappers(Entities(lines[..k]), opcodeClass, newLine)
    {
      var mc := ParseEntity(lines[k]);
      WrappersStep(lines, k, opcodeClass, newLine);
      if mc.None? {
        continue;
      }
      AppendAssoc(text, Wrappers(Entities(lines[..k]), opcodeClass, newLine), Wrapper(mc.value, opcodeClass, newLine));
      opcodeText := AppendWrapper(opcodeText, mc.value, opcodeClass, newLine);
    }
    assert lines[..|lines|] == lines;
  }

  /** Appends the attribute and the partial class of one message. */
  method AppendWrapper(text: string, e: Entity, opcodeClass: string, newLine: string)
    returns (opcodeText: string)
    ensures opcodeText == text + Wrapper(e, opcodeClass, newLine)
  {
    var msgclass := e.name;
    var typeclass := e.supertype;
    opcodeText := text;
    opcodeText := opcodeText + ("    [Message(" + opcodeClass + "." + msgclass + ")]");
    opcodeText := opcodeText + newLine;
    if !IsBlank(typeclass) {
      opcodeText := opcodeText + ("    public partial class " + msgclass + " : " + typeclass + " { }");
    } else {
      opcodeText := opcodeText + ("    public partial class " + msgclass + " { }");
    }
    opcodeText := opcodeText + newLine;
    opcodeText := opcodeText + newLine;
  }

  /** Appends the declaration of one constant and a line break. */
  method AppendConstant(text: string, msgclass: string, index: nat, newLine: string)
    returns (opcodeText: string)
    ensures opcodeText == text + Constant(msgclass, index, newLine)
  {
    opcodeText := text + ConstantDecl(msgclass, index);
    opcodeText := opcodeText + newLine;
  }

  /** Appends one constant per message line, counting up from the base index. */
  method AppendConstants(text: string, lines: seq<string>, base: nat, newLine: string)
    returns (opcodeText: string, index: nat)
    ensures opcodeText == text + Constants(Entities(lines), base, newLine)
    ensures index == base + |Entities(lines)|
  {
    opcodeText := text;
    index := base;
    ghost var es: seq<Entity> := [];
    for k := 0 to |lines|
      invariant es == Entities(lines[..k])
      invariant index == base + |es|
      invariant opcodeText == text + Constants(es, base, newLine)
    {
      var mc := ParseEntity(lines[k]);
      if mc.None? {
        SkippedLine(lines, k);
        continue;
      }
      DeclaringLine(lines, k, mc.value);
      ConstantsSnoc(es, mc.value, base, newLine);
      AppendAssoc(text, Constants(es, base, newLine), Constant(mc.value.name, index + 1, newLine));
      index := index + 1;
      opcodeText := AppendConstant(opcodeText, mc.value.name, index, newLine);
      es := es + [mc.value];
    }
    assert lines[..|lines|] == lines;
  }

  /**
    Generates the opcode file for the lines of the message file `currentOption`:
    the base index and the namespace are the first matches in the file, then
    the text is appended region by region.
  */
  method GenerateOpcode(lines: seq<string>, currentOption: string, newLine: string) returns (opcodeText: string)
    ensures opcodeText == OpcodeFile(lines, currentOption, newLine)
  {
    var index := FindBaseIndex(lines);
    var nameSpace := FindNamespace(lines);
    var opcodeClass := Replace(currentOption, "Message", "Opcode");

    opcodeText := "";
    opcodeText := opcodeText + ("namespace " + nameSpace);
    assert opcodeText == "namespace " + nameSpace;
    opcodeText := opcodeText + newLine;
    opcodeText := opcodeText + "{";
    opcodeText := opcodeText + newLine;
    opcodeText := AppendWrappers(opcodeText, lines, opcodeClass, newLine);
    ghost var wrappers := Wrappers(Entities(lines), opcodeClass, newLine);

    opcodeText := opcodeText + "}";
    opcodeText := opcodeText + newLine;
    opcodeText := opcodeText + ("namespace " + nameSpace);
    opcodeText := opcodeText + newLine;
    opcodeText := opcodeText + "{";
    opcodeText := opcodeText + newLine;
    opcodeText := opcodeText + ("    public static partial class " + opcodeClass);
    opcodeText := opcodeText + newLine;
    opcodeText := opcodeText + "    {";
    opcodeText := opcodeText + newLine;
    opcodeText, index := AppendConstants(opcodeText, lines, index, newLine);
    ghost var constants := Constants(Entities(lines), BaseIndex(lines), newLine);

    opcodeText := opcodeText + "    }";
    opcodeText := opcodeText + newLine;
    opcodeText := opcodeText + "}";
    opcodeText := opcodeText + newLine;
    assert opcodeText == Render(nameSpace, opcodeClass, wrappers, constants, newLine);
  }
}
