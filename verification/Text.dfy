/** Text as the line tools see it: `split("\n")`, `join("\n")` and `trim()`. */
module Text {

  /** `text.split("\n")`: always at least one line, and no line holds a newline. */
  function Split(text: string): (lines: seq<string>)
    ensures lines != []
  {
    if text == "" then [""]
    else
      var rest := Split(text[1..]);
      if text[0] == '\n' then [""] + rest else [[text[0]] + rest[0]] + rest[1..]
  }

  /** The lines of a document; an empty document has none. */
  function SplitLines(text: string): seq<string> {
    if text == "" then [] else Split(text)
  }

  /** `lines.join("\n")`. */
  function Join(lines: seq<string>): string {
    if lines == [] then ""
    else if |lines| == 1 then lines[0]
    else lines[0] + "\n" + Join(lines[1..])
  }

  lemma {:induction false} JoinSplit(text: string)
    ensures Join(Split(text)) == text
  {
    if text == "" {
    } else {
      JoinSplit(text[1..]);
      var rest := Split(text[1..]);
      assert text == [text[0]] + text[1..];
      if text[0] == '\n' {
        assert ([""] + rest)[1..] == rest;
      } else {
        var lines := [[text[0]] + rest[0]] + rest[1..];
        assert lines[1..] == rest[1..];
      }
    }
  }

  /** Splitting loses nothing: joining the lines gives the document back. */
  lemma {:induction false} JoinSplitLines(text: string)
    ensures Join(SplitLines(text)) == text
  {
    JoinSplit(text);
  }

  // ----- whitespace

  /** What `trim()` and `\s` both count as white space. */
  predicate IsSpace(c: char) {
    || c == '\t' || c == '\n' || c == '\U{000b}' || c == '\U{000c}' || c == '\r' || c == ' '
    || c == '\U{00a0}' || c == '\U{1680}' || '\U{2000}' <= c <= '\U{200a}'
    || c == '\U{2028}' || c == '\U{2029}' || c == '\U{202f}' || c == '\U{205f}' || c == '\U{3000}' || c == '\U{feff}'
  }

  function TrimStart(s: string): string {
    if s != "" && IsSpace(s[0]) then TrimStart(s[1..]) else s
  }

  function TrimEnd(s: string): string {
    if s != "" && IsSpace(s[|s| - 1]) then TrimEnd(s[..|s| - 1]) else s
  }

  function Trim(s: string): string {
    TrimEnd(TrimStart(s))
  }

  /** Neither end of `s` is white space. */
  predicate NoSpaceAtEnds(s: string) {
    s != "" ==> !IsSpace(s[0]) && !IsSpace(s[|s| - 1])
  }

  lemma {:induction false} TrimEndKeepsStart(s: string)
    ensures TrimEnd(s) <= s
    ensures TrimEnd(s) != "" ==> !IsSpace(TrimEnd(s)[|TrimEnd(s)| - 1])
    decreases |s|
  {
    if s != "" && IsSpace(s[|s| - 1]) {
      TrimEndKeepsStart(s[..|s| - 1]);
    }
  }

  lemma {:induction false} TrimStartStarts(s: string)
    ensures TrimStart(s) != "" ==> !IsSpace(TrimStart(s)[0])
    decreases |s|
  {
    if s != "" && IsSpace(s[0]) {
      TrimStartStarts(s[1..]);
    }
  }

  /** Trimming leaves no white space at either end, and a text without any there is left alone. */
  lemma {:induction false} TrimIsExact(s: string)
    ensures NoSpaceAtEnds(Trim(s))
    ensures Trim(s) == s <==> NoSpaceAtEnds(s)
  {
    TrimStartStarts(s);
    TrimEndKeepsStart(TrimStart(s));
    hide IsSpace;
  }

  predicate AllSpace(s: string) {
    forall i :: 0 <= i < |s| ==> IsSpace(s[i])
  }

  lemma {:induction false} TrimStartDrops(a: string, s: string)
    requires AllSpace(a)
    ensures TrimStart(a + s) == TrimStart(s)
    decreases |a|
  {
    if a == "" {
      assert a + s == s;
    } else {
      assert (a + s)[1..] == a[1..] + s;
      TrimStartDrops(a[1..], s);
    }
  }

  lemma {:induction false} TrimEndDrops(s: string, b: string)
    requires AllSpace(b)
    ensures TrimEnd(s + b) == TrimEnd(s)
    decreases |b|
  {
    if b == "" {
      assert s + b == s;
    } else {
      assert (s + b)[..|s + b| - 1] == s + b[..|b| - 1];
      TrimEndDrops(s, b[..|b| - 1]);
    }
  }

  lemma {:induction false} TrimEndTakesSpace(s: string)
    ensures TrimEnd(s) <= s && AllSpace(s[|TrimEnd(s)|..])
    decreases |s|
  {
    if s != "" && IsSpace(s[|s| - 1]) {
      var init := s[..|s| - 1];
      TrimEndTakesSpace(init);
      assert s[|TrimEnd(s)|..] == init[|TrimEnd(init)|..] + [s[|s| - 1]];
    }
  }

  lemma {:induction false} TrimStartTakesSpace(s: string) returns (a: string)
    ensures s == a + TrimStart(s) && AllSpace(a)
    decreases |s|
  {
    a := "";
    if s != "" && IsSpace(s[0]) {
      var rest := TrimStartTakesSpace(s[1..]);
      a := [s[0]] + rest;
    }
  }

  /** Trimming takes white space away from both ends and nothing else. */
  lemma {:induction false} TrimTakesSpace(s: string) returns (a: string, b: string)
    ensures s == a + Trim(s) + b && AllSpace(a) && AllSpace(b)
  {
    hide IsSpace;
    a := TrimStartTakesSpace(s);
    TrimEndTakesSpace(TrimStart(s));
    b := TrimStart(s)[|Trim(s)|..];
  }

  /** The only text without white space at its ends that white space can surround to give `a + t + b`. */
  lemma {:induction false} TrimIsUnique(a: string, t: string, b: string)
    requires AllSpace(a) && AllSpace(b) && NoSpaceAtEnds(t)
    ensures Trim(a + t + b) == t
  {
    assert a + t + b == a + (t + b);
    TrimStartDrops(a, t + b);
    if t == "" {
      TrimStartDrops(b, "");
      assert b + "" == t + b;
    } else {
      TrimEndDrops(t, b);
    }
  }

  /** White space around a text does not change what it trims to. */
  lemma {:induction false} TrimIgnoresPadding(a: string, s: string, b: string)
    requires AllSpace(a) && AllSpace(b)
    ensures Trim(a + s + b) == Trim(s)
  {
    hide IsSpace, Trim;
    var a', b' := TrimTakesSpace(s);
    TrimIsExact(s);
    TrimIsUnique(a + a', Trim(s), b' + b);
    assert a + s + b == (a + a') + Trim(s) + (b' + b);
  }

  /** How many characters are not white space. */
  function Ink(s: string): nat {
    if s == "" then 0 else (if IsSpace(s[0]) then 0 else 1) + Ink(s[1..])
  }

  lemma {:induction false} InkAdds(s: string, t: string)
    ensures Ink(s + t) == Ink(s) + Ink(t)
    decreases |s|
  {
    if s == "" {
      assert s + t == t;
    } else {
      assert (s + t)[1..] == s[1..] + t;
      InkAdds(s[1..], t);
    }
  }

  lemma {:induction false} SpaceHasNoInk(s: string)
    requires AllSpace(s)
    ensures Ink(s) == 0
    decreases |s|
  {
    if s != "" {
      SpaceHasNoInk(s[1..]);
    }
  }

  lemma {:induction false} TrimKeepsInk(s: string)
    ensures Ink(Trim(s)) == Ink(s)
  {
    hide IsSpace, Trim, Ink;
    var a, b := TrimTakesSpace(s);
    SpaceHasNoInk(a);
    SpaceHasNoInk(b);
    InkAdds(a + Trim(s), b);
    InkAdds(a, Trim(s));
  }

  lemma {:induction false} MoreInkDiffers(s: string, t: string)
    requires Ink(s) != Ink(t)
    ensures Trim(s) != Trim(t)
  {
    TrimKeepsInk(s);
    TrimKeepsInk(t);
  }

  lemma {:induction false} TrimEndPasses(s: string, t: string)
    requires t != "" && !IsSpace(t[0])
    ensures TrimEnd(s + t) == s + TrimEnd(t)
    decreases |t|
  {
    if IsSpace(t[|t| - 1]) {
      var init := t[..|t| - 1];
      assert (s + t)[..|s + t| - 1] == s + init;
      TrimEndPasses(s, init);
    }
  }

  /** Two beginnings before one text, when the text and the second beginning start with no white space. */
  lemma {:induction false} TrimKeepsBeginning(s: string, u: string, t: string)
    requires t != "" && !IsSpace(t[0]) && u != "" && !IsSpace(u[0])
    ensures Trim(s + t) == Trim(u + t) <==> TrimStart(s) == u
  {
    hide IsSpace, TrimEnd;
    var a := TrimStartTakesSpace(s);
    var x := TrimStart(s);
    TrimStartStarts(s);
    TrimStartDrops(a, x + t);
    assert s + t == a + (x + t);
    assert TrimStart(u + t) == u + t;
    assert x == "" ==> x + t == t;
    assert TrimStart(x + t) == x + t;
    TrimEndPasses(x, t);
    TrimEndPasses(u, t);
    assert x + TrimEnd(t) == u + TrimEnd(t) ==> x == u by {
      assert (x + TrimEnd(t))[..|x|] == x && (u + TrimEnd(t))[..|u|] == u;
    }
  }

  // ----- lines

  lemma {:induction false} SplitHasNoBreaks(text: string)
    ensures forall line :: line in Split(text) ==> '\n' !in line
  {
    if text != "" {
      SplitHasNoBreaks(text[1..]);
      var rest := Split(text[1..]);
      forall line | line in Split(text)
        ensures '\n' !in line
      {
        assert line in rest || line == "" || line == [text[0]] + rest[0];
        assert rest[0] in rest;
      }
    }
  }

  lemma {:induction false} SplitChar(c: char, text: string)
    requires c != '\n'
    ensures Split([c] + text) == [[c] + Split(text)[0]] + Split(text)[1..]
  {
    assert ([c] + text)[1..] == text;
  }

  lemma {:induction false} SplitBreak(text: string)
    ensures Split("\n" + text) == [""] + Split(text)
  {
    assert ("\n" + text)[1..] == text;
  }

  lemma {:induction false} SplitBegins(line: string, text: string)
    requires '\n' !in line
    ensures Split(line + text) == [line + Split(text)[0]] + Split(text)[1..]
    decreases |line|
  {
    if line == "" {
      assert line + text == text && line + Split(text)[0] == Split(text)[0];
      assert [Split(text)[0]] + Split(text)[1..] == Split(text);
    } else {
      SplitBegins(line[1..], text);
      SplitChar(line[0], line[1..] + text);
      assert line + text == [line[0]] + (line[1..] + text);
      assert [line[0]] + (line[1..] + Split(text)[0]) == line + Split(text)[0];
    }
  }

  lemma {:induction false} SplitJoin(lines: seq<string>)
    requires lines != [] && forall line :: line in lines ==> '\n' !in line
    ensures Split(Join(lines)) == lines
    decreases |lines|
  {
    if |lines| == 1 {
      SplitBegins(lines[0], "");
      assert lines[0] + "" == lines[0];
    } else {
      var rest := Join(lines[1..]);
      SplitJoin(lines[1..]);
      SplitBreak(rest);
      SplitBegins(lines[0], "\n" + rest);
      assert Join(lines) == lines[0] + ("\n" + rest);
      hide Split, Join;
      assert ([""] + lines[1..])[1..] == lines[1..] && lines[0] + "" == lines[0];
      assert [lines[0]] + lines[1..] == lines;
    }
  }

  /** The lines of a text are the one list of texts without line breaks that joins to it; an empty text has none. */
  lemma {:induction false} LinesAreExact(text: string, lines: seq<string>)
    ensures lines == SplitLines(text) <==>
              Join(lines) == text && lines != [""] && forall line :: line in lines ==> '\n' !in line
  {
    JoinSplitLines(text);
    SplitHasNoBreaks(text);
    if Join(lines) == text && lines != [] && forall line :: line in lines ==> '\n' !in line {
      SplitJoin(lines);
      assert Split("") == [""];
    }
    if text != "" {
      SplitOfText(text);
    }
  }

  lemma {:induction false} SplitOfText(text: string)
    requires text != ""
    ensures Split(text) != [""]
  {
    JoinSplit(text);
  }

  // ----- which characters are white space

  /** Section 12.2 of ECMA-262: tab, vertical tab, form feed, the byte-order mark and the space separators. */
  const WHITE_SPACE := "\t\U{000b}\U{000c}\U{feff} \U{00a0}\U{1680}\U{202f}\U{205f}\U{3000}"

  /** Section 12.3 of ECMA-262: line feed, carriage return, line and paragraph separator. */
  const LINE_TERMINATORS := "\n\r\U{2028}\U{2029}"

  lemma {:induction false} WhiteSpaceIs(c: char)
    ensures IsSpace(c) <==> c in WHITE_SPACE || '\U{2000}' <= c <= '\U{200a}' || c in LINE_TERMINATORS
  {
    var w, t := WHITE_SPACE, LINE_TERMINATORS;
    assert w[0] == '\t' && w[1] == '\U{000b}' && w[2] == '\U{000c}' && w[3] == '\U{feff}' && w[4] == ' ';
    assert w[5] == '\U{00a0}' && w[6] == '\U{1680}' && w[7] == '\U{202f}' && w[8] == '\U{205f}' && w[9] == '\U{3000}';
    assert t[0] == '\n' && t[1] == '\r' && t[2] == '\U{2028}' && t[3] == '\U{2029}';
  }
}
