/** Rewriting a spec's body, and reading it back. */
module Spec {
  import opened Options
  import opened Text
  import opened Frontmatter

  /** What a rewrite falls back on when the file has no block of its own. */
  datatype Fallback = Fallback(id: string, title: string)

  // ----- `JSON.stringify` on a string

  function HexDigit(n: nat): char
    requires n < 16
  {
    if n < 10 then '0' + n as char else 'a' + (n - 10) as char
  }

  function JsonChar(c: char): string {
    if c == '"' then "\\\""
    else if c == '\\' then "\\\\"
    else if c == '\n' then "\\n"
    else if c == '\r' then "\\r"
    else if c == '\t' then "\\t"
    else if c == '\U{0008}' then "\\b"
    else if c == '\U{000c}' then "\\f"
    else if c < ' ' then "\\u00" + [HexDigit(c as nat / 16), HexDigit(c as nat % 16)]
    else [c]
  }

  function JsonChars(s: string): (json: string)
    ensures '\n' !in json
  {
    if s == "" then "" else JsonChar(s[0]) + JsonChars(s[1..])
  }

  function JsonString(s: string): string {
    "\"" + JsonChars(s) + "\""
  }

  // ----- the rewrite

  function IdLine(id: string): string {
    "id: " + id + "\n"
  }

  function TitleLine(title: string): string {
    "title: " + JsonString(title) + "\n"
  }

  function SynthesizedBlock(fallback: Fallback): string {
    "---\n" + IdLine(fallback.id) + TitleLine(fallback.title) + "---\n"
  }

  /** How many leading characters are white space. */
  function LeadingSpace(s: string): (k: nat)
    ensures k <= |s| && forall j :: 0 <= j < k ==> IsSpace(s[j])
  {
    if s == "" || !IsSpace(s[0]) then 0 else 1 + LeadingSpace(s[1..])
  }

  /** Drop everything through the last newline among the first `k` characters. */
  function AfterNewline(s: string, k: nat): string
    requires k <= |s|
  {
    if k == 0 then s else if s[k - 1] == '\n' then s[k..] else AfterNewline(s, k - 1)
  }

  /** `body.replace(/^\s*\n/, "").replace(/\s+$/, "")` */
  function TrimBody(body: string): string {
    TrimEnd(AfterNewline(body, LeadingSpace(body)))
  }

  function RewriteSpecBody(raw: string, body: string, fallback: Fallback): string {
    var block := match FrontmatterBlock(raw) case Some(b) => b case None => SynthesizedBlock(fallback);
    block + "\n" + TrimBody(body) + "\n"
  }

  /** The text after the block, trimmed. */
  function BodyText(raw: string): string {
    Trim(Content(raw))
  }

  /** Whether the YAML library loads a text; it throws on the others. */
  type YamlLoader = string -> bool

  datatype Reading = Body(text: string) | YamlError

  /** Reading loads the YAML of the block on the way. */
  function SpecBody(loads: YamlLoader, raw: string): Reading {
    match Yaml(raw)
    case None => Body(BodyText(raw))
    case Some(yaml) => if loads(yaml) then Body(BodyText(raw)) else YamlError
  }

  // ----- the body comes back

  lemma {:induction false} AfterNewlineDropsSpace(s: string, k: nat)
    requires k <= |s| && AllSpace(s[..k])
    ensures Trim(AfterNewline(s, k)) == Trim(s)
  {
    if k > 0 {
      if s[k - 1] == '\n' {
        TrimIgnoresPadding(s[..k], s[k..], "");
        assert s[..k] + s[k..] + "" == s;
      } else {
        assert s[..k - 1] == s[..k][..k - 1];
        AfterNewlineDropsSpace(s, k - 1);
      }
    }
  }

  /** Tidying a body changes only the white space around it. */
  lemma {:induction false} TidiedBody(body: string)
    ensures Trim(TrimBody(body)) == Trim(body)
  {
    hide IsSpace, Trim;
    var s := AfterNewline(body, LeadingSpace(body));
    AfterNewlineDropsSpace(body, LeadingSpace(body));
    TrimEndTakesSpace(s);
    TrimIgnoresPadding("", TrimEnd(s), s[|TrimEnd(s)|..]);
    assert "" + TrimEnd(s) + s[|TrimEnd(s)|..] == s;
  }

  lemma {:induction false} NewlinesAround(body: string)
    ensures Trim("\n" + TrimBody(body) + "\n") == Trim(body)
    ensures Trim(TrimBody(body) + "\n") == Trim(body)
  {
    NewlineIsSpace();
    hide IsSpace, Trim, TrimBody;
    TidiedBody(body);
    TrimIgnoresPadding("\n", TrimBody(body), "\n");
    TrimIgnoresPadding("", TrimBody(body), "\n");
    assert "" + TrimBody(body) + "\n" == TrimBody(body) + "\n";
  }

  lemma {:induction false} NewlineIsSpace()
    ensures AllSpace("\n") && AllSpace("")
  {
  }

  /** A block that ends its last line is found again in front of any text. */
  lemma {:induction false} BlockInFront(raw: string, text: string)
    requires FrontmatterBlock(raw).Some? && EndsLine(FrontmatterBlock(raw).value)
    ensures FrontmatterBlock(FrontmatterBlock(raw).value + text) == FrontmatterBlock(raw)
    ensures Content(FrontmatterBlock(raw).value + text) == text
    ensures Yaml(FrontmatterBlock(raw).value + text) == Yaml(raw)
  {
    hide Marker, LineEnd, CloseAt, FindClose, IsDelimiter, FirstDelimiter, OpeningLine, Delimiters;
    var b := Delimiters(raw).value;
    BlockIsFirst(raw);
    var head, rest := raw[..b.bodyStart], raw[b.bodyStart..];
    var m, e := b.marker - b.bodyStart, b.end - b.bodyStart;
    assert raw[..b.end] == head + rest[..e];
    assert rest == rest[..e] + rest[e..];
    FirstOfFirst(rest[..e], rest[e..], m);
    FirstOfFirst(rest[..e], text, m);
    Opened(head, rest[..e] + text);
    assert raw[..b.end] + text == head + (rest[..e] + text);
    assert (raw[..b.end] + text)[..b.end] == raw[..b.end];
    assert (raw[..b.end] + text)[b.end..] == text;
    assert (raw[..b.end] + text)[..b.marker] == raw[..b.marker];
    SameYaml(raw, raw[..b.end] + text);
  }

  lemma {:induction false} LineEndAtEnd(s: string, j: nat, text: string)
    requires j <= |s| && LineEnd(s, j) == Some(|s|) && !EndsLine(s)
    ensures LineEnd(s + "\n" + text, j) == Some(|s| + 1)
    decreases |s| - j
  {
    var t := s + "\n" + text;
    if j == |s| {
      assert t[j] == '\n';
    } else {
      assert t[j] == s[j];
      LineEndAtEnd(s, j + 1, text);
    }
  }

  lemma {:induction false} MarkerAtEnd(s: string, m: nat, text: string)
    requires Marker(s, m) == Some(|s|) && !EndsLine(s)
    ensures Marker(s + "\n" + text, m) == Some(|s| + 1)
  {
    hide LineEnd;
    LineEndAtEnd(s, m + 3, text);
    assert (s + "\n" + text)[m..m + 3] == s[m..m + 3];
  }

  /** A closing line that the file ends on still closes, newline included, once text follows it. */
  lemma {:induction false} LastLineStillCloses(rest: string, m: nat, text: string)
    requires FirstDelimiter(rest, m) && Marker(rest, m) == Some(|rest|) && !EndsLine(rest)
    ensures FirstDelimiter(rest + "\n" + text, m) && Marker(rest + "\n" + text, m) == Some(|rest| + 1)
  {
    MarkerAtEnd(rest, m, text);
    var t := rest + "\n" + text;
    assert IsDelimiter(t, m) by {
      hide Marker;
    }
    hide Marker;
    forall k: nat | k < m
      ensures !IsDelimiter(t, k)
    {
      var u := rest[..m];
      DelimitersOfParts(u, rest[m..], k);
      assert u + rest[m..] == rest;
      DelimitersOfParts(u, rest[m..] + "\n" + text, k);
      assert u + (rest[m..] + "\n" + text) == t;
    }
  }

  lemma {:induction false} UnendedBlock(raw: string)
    requires FrontmatterBlock(raw).Some? && !EndsLine(FrontmatterBlock(raw).value)
    ensures FrontmatterBlock(raw).value == raw
    ensures var b := Delimiters(raw).value;
            b.end == |raw| && !EndsLine(raw[b.bodyStart..])
  {
    hide LineEnd, CloseAt, FindClose, IsDelimiter, OpeningLine, Delimiters;
    var b := Delimiters(raw).value;
    BlockIsFirst(raw);
    var rest := raw[b.bodyStart..];
    LineEndIsNewline(rest, b.marker - b.bodyStart + 3);
    assert raw[..b.end][b.end - 1] == rest[b.end - b.bodyStart - 1];
  }

  lemma {:induction false} UnendedBlockInFront(raw: string, text: string)
    requires FrontmatterBlock(raw).Some? && !EndsLine(FrontmatterBlock(raw).value)
    ensures FrontmatterBlock(raw + "\n" + text) == Some(raw + "\n") && Content(raw + "\n" + text) == text
    ensures Yaml(raw + "\n" + text) == Yaml(raw)
  {
    hide Marker, LineEnd, CloseAt, FindClose, IsDelimiter, FirstDelimiter, OpeningLine, Delimiters;
    var b := Delimiters(raw).value;
    BlockIsFirst(raw);
    UnendedBlock(raw);
    var head, rest := raw[..b.bodyStart], raw[b.bodyStart..];
    LastLineStillCloses(rest, b.marker - b.bodyStart, text);
    Opened(head, rest + "\n" + text);
    var t := raw + "\n" + text;
    assert t == head + (rest + "\n" + text);
    assert t[..|raw| + 1] == raw + "\n" && t[|raw| + 1..] == text;
    assert t[..b.marker] == raw[..b.marker];
    SameYaml(raw, t);
  }

  /** Rewriting a file that has a block keeps the block, byte for byte unless the file ended on its closing line. */
  lemma {:induction false} RewriteKeepsBlock(raw: string, body: string, fallback: Fallback)
    requires FrontmatterBlock(raw).Some?
    ensures var block, result := FrontmatterBlock(raw).value, RewriteSpecBody(raw, body, fallback);
            && FrontmatterBlock(result) == Some(if EndsLine(block) then block else block + "\n")
            && Content(result) == (if EndsLine(block) then "\n" else "") + TrimBody(body) + "\n"
            && BodyText(result) == Trim(body) && Yaml(result) == Yaml(raw)
  {
    hide Delimiters, Content, FrontmatterBlock, TrimBody, Trim, Yaml;
    var block, text := FrontmatterBlock(raw).value, TrimBody(body) + "\n";
    NewlinesAround(body);
    if EndsLine(block) {
      BlockInFront(raw, "\n" + text);
      assert block + "\n" + TrimBody(body) + "\n" == block + ("\n" + text);
      assert "\n" + TrimBody(body) + "\n" == "\n" + text;
    } else {
      UnendedBlockInFront(raw, text);
      UnendedBlock(raw);
      assert block + "\n" + TrimBody(body) + "\n" == raw + "\n" + text;
      assert "" + TrimBody(body) + "\n" == text;
    }
  }

  // ----- a synthesized block

  /** The `id:` line, read on its own, already closes a block. */
  predicate ClosesEarly(id: string) {
    FindClose(IdLine(id), 0).Some?
  }

  lemma {:induction false} ClosesEarlyIsLine(id: string)
    ensures ClosesEarly(id) <==> !NoDelimiter(IdLine(id))
    ensures EndsLine(IdLine(id))
  {
    hide CloseAt, FindClose, Marker, IsDelimiter;
    ScanFindsFirstLine(IdLine(id), 0);
  }

  /** An id on one line never closes early. */
  lemma {:induction false} OneLineIdIsSafe(id: string)
    requires '\n' !in id
    ensures !ClosesEarly(id)
  {
    hide FindClose, Marker, IsDelimiter, NoDelimiter;
    var line := IdLine(id);
    assert line[..|line| - 1] == "id: " + id;
    PlainLine(line);
    ClosesEarlyIsLine(id);
  }

  lemma {:induction false} TitleLineIsPlain(title: string)
    ensures EndsLine(TitleLine(title)) && NoDelimiter(TitleLine(title))
  {
    hide Marker, IsDelimiter, NoDelimiter, JsonChars;
    var line := TitleLine(title);
    assert line[..|line| - 1] == "title: " + JsonString(title);
    PlainLine(line);
  }

  lemma {:induction false} DashesOpen()
    ensures IsOpening("---\n")
  {
    assert "---\n"[..3] == "---";
  }

  lemma {:induction false} DashesClose(text: string)
    ensures FirstDelimiter("---\n" + text, 0) && Marker("---\n" + text, 0) == Some(4)
  {
    var s := "---\n" + text;
    assert s[0..3] == "---" && s[3] == '\n';
  }

  /** Lines that close nothing, then dashes: the block ends with the dashes. */
  lemma {:induction false} BlockOfLines(lines: string, text: string)
    requires EndsLine(lines) && NoDelimiter(lines)
    ensures var block := "---\n" + lines + "---\n";
            && FrontmatterBlock(block + text) == Some(block) && Content(block + text) == text
            && Yaml(block + text) == Some(lines[..MatchStart(lines, |lines|)])
  {
    DashesOpen();
    DashesClose(text);
    hide Marker, LineEnd, CloseAt, FindClose, IsDelimiter, FirstDelimiter, OpeningLine, Delimiters, NoDelimiter,
      IsOpening;
    FirstOfSecond(lines, "---\n" + text, 0);
    Opened("---\n", lines + ("---\n" + text));
    var block := "---\n" + lines + "---\n";
    assert block + text == "---\n" + (lines + ("---\n" + text));
    assert (block + text)[..|block|] == block && (block + text)[|block|..] == text;
    YamlIsAbove(block + text);
    var rest := lines + ("---\n" + text);
    assert (block + text)[4..] == rest;
    assert MatchStart(rest, |lines|) == MatchStart(lines, |lines|);
    assert rest[..MatchStart(lines, |lines|)] == lines[..MatchStart(lines, |lines|)];
  }

  /** The two lines of a synthesized block, without the break that ends them. */
  function SynthesizedYaml(fallback: Fallback): string {
    "id: " + fallback.id + "\n" + "title: " + JsonString(fallback.title)
  }

  lemma {:induction false} SynthesizedLines(fallback: Fallback)
    ensures var lines := IdLine(fallback.id) + TitleLine(fallback.title);
            lines[..MatchStart(lines, |lines|)] == SynthesizedYaml(fallback)
  {
    hide JsonChars;
    var lines := IdLine(fallback.id) + TitleLine(fallback.title);
    assert lines == SynthesizedYaml(fallback) + "\n";
    assert lines[|lines| - 2] == '"';
  }

  /** Rewriting a file without a block gives it one, read back whole, with the body after it. */
  lemma {:induction false} RewriteAddsBlock(raw: string, body: string, fallback: Fallback)
    requires FrontmatterBlock(raw).None? && !ClosesEarly(fallback.id)
    ensures var result := RewriteSpecBody(raw, body, fallback);
            && FrontmatterBlock(result) == Some(SynthesizedBlock(fallback))
            && Content(result) == "\n" + TrimBody(body) + "\n"
            && BodyText(result) == Trim(body) && Yaml(result) == Some(SynthesizedYaml(fallback))
  {
    hide Delimiters, Content, FrontmatterBlock, TrimBody, Trim, NoDelimiter, ClosesEarly, IdLine, TitleLine, Yaml;
    SynthesizedLines(fallback);
    var lines := IdLine(fallback.id) + TitleLine(fallback.title);
    ClosesEarlyIsLine(fallback.id);
    TitleLineIsPlain(fallback.title);
    NoneInEither(IdLine(fallback.id), TitleLine(fallback.title));
    var text := "\n" + TrimBody(body) + "\n";
    NewlinesAround(body);
    BlockOfLines(lines, text);
    var block := SynthesizedBlock(fallback);
    assert block == "---\n" + lines + "---\n";
    assert block + "\n" + TrimBody(body) + "\n" == block + text;
  }

  /** What such an id leaves of its own line after the line that closes. */
  function Leftover(id: string): string {
    match FindClose(IdLine(id), 0)
    case None => ""
    case Some(c) => IdLine(id)[c.end..]
  }

  /** A line with a closing line inside, put below an opening line and lines that close nothing, ends the block. */
  lemma {:induction false} LineCuts(head: string, a: string, line: string, v: string, m: nat, end: nat)
    requires IsOpening(head) && (a == "" || EndsLine(a)) && NoDelimiter(a) && EndsLine(line)
    requires FirstDelimiter(line, m) && m < |line| && Marker(line, m) == Some(end) && end <= |line|
    ensures Content(head + (a + (line + v))) == line[end..] + v
  {
    hide Marker, LineEnd, IsDelimiter, FirstDelimiter, OpeningLine, IsOpening, EndsLine, NoDelimiter, Delimiters;
    FirstOfFirst(line, v, m);
    if a == "" {
      assert a + (line + v) == line + v;
    } else {
      FirstOfSecond(a, line + v, m);
    }
    Opened(head, a + (line + v));
    PastLine(head, a, line, v, end);
  }

  lemma {:induction false} PastLine(head: string, a: string, line: string, v: string, end: nat)
    requires end <= |line|
    ensures (head + (a + (line + v)))[|head| + (|a| + end)..] == line[end..] + v
  {
    assert head + (a + (line + v)) == head + a + line + v;
  }

  /** An id that closes early ends the block there, and everything after it is content. */
  lemma {:induction false} EarlyIdCuts(head: string, a: string, id: string, tail: string)
    requires ClosesEarly(id) && IsOpening(head) && (a == "" || EndsLine(a)) && NoDelimiter(a)
    ensures Content(head + (a + (IdLine(id) + tail))) == Leftover(id) + tail
  {
    hide Content, Marker, CloseAt, FindClose, IsDelimiter, FirstDelimiter, IdLine, IsOpening, EndsLine, NoDelimiter;
    ClosesEarlyIsLine(id);
    ScanFindsFirstLine(IdLine(id), 0);
    var c := FindClose(IdLine(id), 0).value;
    LineCuts(head, a, IdLine(id), tail, c.marker, c.end);
  }

  lemma {:induction false} EarlyCloseSplits(id: string, tail: string)
    requires ClosesEarly(id)
    ensures Content("---\n" + (IdLine(id) + tail)) == Leftover(id) + tail
  {
    hide Content, ClosesEarly, IdLine, Leftover;
    DashesOpen();
    EarlyIdCuts("---\n", "", id, tail);
    assert "" + (IdLine(id) + tail) == IdLine(id) + tail;
  }

  lemma {:induction false} InkAfter(s: string, tail: string)
    ensures Ink(s + tail) >= Ink(tail)
  {
    InkAdds(s, tail);
  }

  lemma {:induction false} InkMeansText(s: string)
    requires Ink(s) > 0
    ensures Trim(s) != Trim("")
  {
    hide Ink, Trim;
    TrimKeepsInk(s);
    TrimKeepsInk("");
    NoInkInNothing();
  }

  /** An id that closes early leaves the title among the body. */
  lemma {:induction false} EarlyCloseLeaksTitle(raw: string, fallback: Fallback)
    requires FrontmatterBlock(raw).None? && ClosesEarly(fallback.id)
    ensures BodyText(RewriteSpecBody(raw, "", fallback)) != Trim("")
  {
    hide Content, FrontmatterBlock, ClosesEarly, IdLine, TitleLine, TrimBody, Trim, Ink, Leftover;
    var id, dashes := IdLine(fallback.id), "---\n" + "\n" + TrimBody("") + "\n";
    var tail := TitleLine(fallback.title) + dashes;
    EarlyCloseSplits(fallback.id, tail);
    var result := RewriteSpecBody(raw, "", fallback);
    assert result == "---\n" + (id + tail);
    TailHasInk(fallback.title, dashes);
    InkAfter(Leftover(fallback.id), tail);
    InkMeansText(Content(result));
  }

  lemma {:induction false} NoInkInNothing()
    ensures Ink("") == 0
  {
  }

  lemma {:induction false} TailHasInk(title: string, tail: string)
    ensures Ink(TitleLine(title) + tail) > 0
  {
    var s := TitleLine(title) + tail;
    assert s[0] == 't';
  }

  /** The YAML that reading a rewritten file will load. */
  ghost predicate YamlLoads(loads: YamlLoader, raw: string, fallback: Fallback) {
    match Yaml(raw)
    case Some(yaml) => loads(yaml)
    case None => loads(SynthesizedYaml(fallback))
  }

  lemma {:induction false} BlockHasYaml(raw: string)
    ensures FrontmatterBlock(raw).Some? <==> Yaml(raw).Some?
  {
    hide Yaml;
    YamlIsAbove(raw);
  }

  /**
   * What is written is what is read, for every body, exactly when the YAML of the block loads and, in a file without
   * a block, the fallback id does not close the new one early.
   */
  lemma {:induction false} RoundTripExactly(loads: YamlLoader, raw: string, fallback: Fallback)
    ensures (forall body :: SpecBody(loads, RewriteSpecBody(raw, body, fallback)) == Body(Trim(body))) <==>
              YamlLoads(loads, raw, fallback) && (FrontmatterBlock(raw).Some? || !ClosesEarly(fallback.id))
  {
    hide BodyText, RewriteSpecBody, Trim, FrontmatterBlock, ClosesEarly, Yaml, SynthesizedYaml;
    BlockHasYaml(raw);
    if FrontmatterBlock(raw).Some? || !ClosesEarly(fallback.id) {
      forall body
        ensures SpecBody(loads, RewriteSpecBody(raw, body, fallback))
                == if YamlLoads(loads, raw, fallback) then Body(Trim(body)) else YamlError
      {
        if FrontmatterBlock(raw).Some? {
          RewriteKeepsBlock(raw, body, fallback);
        } else {
          RewriteAddsBlock(raw, body, fallback);
        }
      }
      if !YamlLoads(loads, raw, fallback) {
        assert SpecBody(loads, RewriteSpecBody(raw, "", fallback)) == YamlError;
      }
    } else {
      EarlyCloseLeaksTitle(raw, fallback);
      assert SpecBody(loads, RewriteSpecBody(raw, "", fallback)) != Body(Trim(""));
    }
  }

  /** A block and what comes after it are the whole file. */
  lemma {:induction false} BlockAndContent(raw: string)
    ensures FrontmatterBlock(raw).None? ==> Content(raw) == raw
    ensures FrontmatterBlock(raw).Some? ==> |FrontmatterBlock(raw).value| + |Content(raw)| == |raw|
  {
    hide Delimiters;
  }

  lemma {:induction false} LeftoverIsShorter(id: string)
    ensures |Leftover(id)| <= |IdLine(id)|
  {
    hide FindClose;
  }

  /** An id that closes early leaves the file with a block that is shorter than the one it was given. */
  lemma {:induction false} EarlyBlockIsShorter(raw: string, body: string, fallback: Fallback)
    requires FrontmatterBlock(raw).None? && ClosesEarly(fallback.id)
    ensures var block := FrontmatterBlock(RewriteSpecBody(raw, body, fallback));
            block.Some? && |block.value| < |SynthesizedBlock(fallback)|
  {
    hide Content, FrontmatterBlock, ClosesEarly, IdLine, TitleLine, TrimBody, Leftover;
    var tail := TitleLine(fallback.title) + ("---\n" + "\n" + TrimBody(body) + "\n");
    var result := RewriteSpecBody(raw, body, fallback);
    assert result == "---\n" + (IdLine(fallback.id) + tail);
    EarlyCloseSplits(fallback.id, tail);
    LeftoverIsShorter(fallback.id);
    BlockAndContent(result);
  }

  /** The block stands on lines of its own, and a new one is not closed by its id. */
  predicate BlockIsStable(raw: string, fallback: Fallback) {
    match FrontmatterBlock(raw)
    case Some(block) => EndsLine(block)
    case None => !ClosesEarly(fallback.id)
  }

  /** Whatever the bodies, the second rewrite gives what it would have given alone exactly when the block is stable. */
  lemma {:induction false} LastRewriteWins(raw: string, first: string, second: string, fallback: Fallback)
    ensures var before, alone := RewriteSpecBody(raw, first, fallback), RewriteSpecBody(raw, second, fallback);
            RewriteSpecBody(before, second, fallback) == alone <==> BlockIsStable(raw, fallback)
  {
    hide BodyText, TrimBody, FrontmatterBlock, ClosesEarly, SynthesizedBlock, Yaml, EndsLine;
    if FrontmatterBlock(raw).Some? {
      RewriteKeepsBlock(raw, first, fallback);
    } else if ClosesEarly(fallback.id) {
      EarlyBlockIsShorter(raw, first, fallback);
    } else {
      RewriteAddsBlock(raw, first, fallback);
    }
    RewriteLength(raw, second, fallback);
    RewriteLength(RewriteSpecBody(raw, first, fallback), second, fallback);
  }

  lemma {:induction false} RewriteLength(raw: string, body: string, fallback: Fallback)
    ensures |RewriteSpecBody(raw, body, fallback)| == |TrimBody(body)| + 2 +
              match FrontmatterBlock(raw) case Some(block) => |block| case None => |SynthesizedBlock(fallback)|
  {
    hide FrontmatterBlock, SynthesizedBlock, TrimBody;
  }

  lemma {:induction false} TwoLineIdCloses()
    ensures ClosesEarly("x\n---") && Leftover("x\n---") == ""
  {
    var first, line := "id: x\n", IdLine("x\n---");
    PlainLine(first);
    DashesClose("");
    assert line == first + ("---\n" + "");
    ClosesEarlyIsLine("x\n---");
    hide FindClose, CloseAt, Marker, IsDelimiter, NoDelimiter;
    FirstOfSecond(first, "---\n" + "", 0);
    ScanFindsFirstLine(line, 0);
    var c := FindClose(line, 0).value;
    assert c.marker == 6;
    assert line[c.end..] == "";
  }

  lemma {:induction false} OneLetterTitle()
    ensures TitleLine("t") == "title: \"t\"\n"
  {
    assert JsonChars("t") == JsonChar('t') + JsonChars("") == "t";
  }

  lemma {:induction false} OneWordBody(raw: string, fallback: Fallback)
    requires raw == ""
    ensures RewriteSpecBody(raw, "text", fallback) == SynthesizedBlock(fallback) + "\ntext\n"
  {
    hide SynthesizedBlock;
    assert TrimBody("text") == "text";
    assert SynthesizedBlock(fallback) + "\n" + "text" + "\n" == SynthesizedBlock(fallback) + "\ntext\n";
  }

  /** A fallback id of two lines, the second of them dashes: the title line lands in the body. */
  lemma {:induction false} TwoLineIdLeaks()
    ensures BodyText(RewriteSpecBody("", "text", Fallback("x\n---", "t"))) == "title: \"t\"\n---\n\ntext"
  {
    hide Leftover, ClosesEarly, Content, RewriteSpecBody, TitleLine, IdLine, Trim, IsSpace;
    var fallback, text := Fallback("x\n---", "t"), "title: \"t\"\n---\n\ntext";
    TwoLineIdCloses();
    EarlyCloseSplits(fallback.id, text + "\n");
    OneLetterTitle();
    OneWordBody("", fallback);
    assert TitleLine("t") + "---\n" + "\ntext\n" == text + "\n";
    assert SynthesizedBlock(fallback) + "\ntext\n" == "---\n" + (IdLine(fallback.id) + (text + "\n"));
    assert "" + (text + "\n") == text + "\n";
    NewlineIsSpace();
    TextHasEnds();
    TrimIsUnique("", text, "\n");
    assert "" + text + "\n" == text + "\n";
  }

  lemma {:induction false} TextHasEnds()
    ensures NoSpaceAtEnds("title: \"t\"\n---\n\ntext")
  {
  }

  // ----- exactly what tidying a body does

  /** No line break stands before the first character that is not white space. */
  ghost predicate StartsOnItsLine(s: string) {
    forall i :: 0 <= i < |s| && s[i] == '\n' ==> !AllSpace(s[..i])
  }

  lemma {:induction false} AfterNewlineIs(s: string, k: nat) returns (a: string)
    requires k <= |s|
    ensures s == a + AfterNewline(s, k) && |a| <= k && (a != "" ==> EndsLine(a))
    ensures forall i :: |a| <= i < k ==> s[i] != '\n'
    decreases k
  {
    if k == 0 {
      a := "";
    } else if s[k - 1] == '\n' {
      a := s[..k];
    } else {
      a := AfterNewlineIs(s, k - 1);
    }
  }

  lemma {:induction false} TidiedParts(body: string) returns (a: string, b: string)
    ensures body == a + TrimBody(body) + b && AllSpace(a) && AllSpace(b) && (a != "" ==> EndsLine(a))
    ensures TrimBody(body) != "" ==> !IsSpace(TrimBody(body)[|TrimBody(body)| - 1])
    ensures |a| <= LeadingSpace(body) && forall i :: |a| <= i < LeadingSpace(body) ==> body[i] != '\n'
  {
    hide IsSpace, TrimEnd, AfterNewline, EndsLine;
    a := AfterNewlineIs(body, LeadingSpace(body));
    var s := AfterNewline(body, LeadingSpace(body));
    forall j | 0 <= j < |a|
      ensures IsSpace(a[j])
    {
      assert a[j] == body[j];
    }
    hide LeadingSpace;
    TrimEndTakesSpace(s);
    TrimEndKeepsStart(s);
    b := s[|TrimEnd(s)|..];
    assert s == TrimEnd(s) + b;
  }

  /**
    * A tidied body is the body without whole blank lines before it and without white space after it: the indentation of
    * its first line stays.
    */
  lemma {:induction false} TidiedExactly(body: string) returns (a: string, b: string)
    ensures body == a + TrimBody(body) + b && AllSpace(a) && AllSpace(b) && (a != "" ==> EndsLine(a))
    ensures TrimBody(body) != "" ==> !IsSpace(TrimBody(body)[|TrimBody(body)| - 1])
    ensures StartsOnItsLine(TrimBody(body))
  {
    hide IsSpace, TrimBody, LeadingSpace, EndsLine;
    a, b := TidiedParts(body);
    var t := TrimBody(body);
    forall i | 0 <= i < |t| && t[i] == '\n'
      ensures !AllSpace(t[..i])
    {
      assert t[i] == body[|a| + i];
      if AllSpace(t[..i]) {
        assert body[..|a| + i] == a + t[..i];
        BreakIsSpace();
        AllSpaceIsLeading(body, |a| + i);
      }
    }
  }

  lemma {:induction false} BreakIsSpace()
    ensures IsSpace('\n')
  {
  }

  lemma {:induction false} LeadingSpaceIsAll(s: string)
    ensures LeadingSpace(s) < |s| ==> !IsSpace(s[LeadingSpace(s)])
  {
    hide IsSpace;
    if s != "" && IsSpace(s[0]) {
      LeadingSpaceIsAll(s[1..]);
    }
  }

  lemma {:induction false} AllSpaceIsLeading(s: string, n: nat)
    requires n < |s| && AllSpace(s[..n]) && IsSpace(s[n])
    ensures n < LeadingSpace(s)
  {
    LeadingSpaceIsAll(s);
    hide IsSpace;
    forall j | 0 <= j < n
      ensures IsSpace(s[j])
    {
      assert s[..n][j] == s[j];
    }
  }

  // ----- the title line is JSON

  function HexValue(c: char): Option<nat> {
    if '0' <= c <= '9' then Some(c as nat - '0' as nat)
    else if 'a' <= c <= 'f' then Some(c as nat - 'a' as nat + 10)
    else None
  }

  /** One character of a JSON string (section 7 of RFC 8259) and how much of the text it takes; escapes to U+00FF. */
  function ReadJsonChar(s: string): Option<(char, nat)> {
    if s == "" || s[0] == '"' || s[0] < ' ' then None
    else if s[0] != '\\' then Some((s[0], 1))
    else if |s| < 2 then None
    else if s[1] == '"' || s[1] == '\\' || s[1] == '/' then Some((s[1], 2))
    else if s[1] == 'b' then Some(('\U{0008}', 2))
    else if s[1] == 'f' then Some(('\U{000c}', 2))
    else if s[1] == 'n' then Some(('\n', 2))
    else if s[1] == 'r' then Some(('\r', 2))
    else if s[1] == 't' then Some(('\t', 2))
    else if s[1] == 'u' && |s| >= 6 && s[2] == '0' && s[3] == '0' then
      match (HexValue(s[4]), HexValue(s[5]))
      case (Some(high), Some(low)) => Some(((16 * high + low) as char, 6))
      case _ => None
    else None
  }

  /** The characters through the closing quote, which has to be the last one. */
  function ReadJsonChars(s: string): Option<string>
    decreases |s|
  {
    if s == "\"" then Some("")
    else
      match ReadJsonChar(s)
      case None => None
      case Some((c, n)) =>
        if n == 0 || n > |s| then None
        else
          match ReadJsonChars(s[n..])
          case None => None
          case Some(more) => Some([c] + more)
  }

  function ReadJson(s: string): Option<string> {
    if s == "" || s[0] != '"' then None else ReadJsonChars(s[1..])
  }

  lemma {:induction false} JsonCharIsRead(c: char, rest: string)
    ensures ReadJsonChar(JsonChar(c) + rest) == Some((c, |JsonChar(c)|)) && JsonChar(c) != "\""
  {
    if c < ' ' && |JsonChar(c)| == 6 {
      var n := c as nat;
      assert JsonChar(c)[4] == HexDigit(n / 16) && JsonChar(c)[5] == HexDigit(n % 16);
      assert HexValue(HexDigit(n / 16)) == Some(n / 16) && HexValue(HexDigit(n % 16)) == Some(n % 16);
      assert 16 * (n / 16) + n % 16 == n;
    }
  }

  lemma {:induction false} JsonCharsAreRead(s: string)
    ensures ReadJsonChars(JsonChars(s) + "\"") == Some(s)
    decreases |s|
  {
    if s == "" {
      assert JsonChars(s) + "\"" == "\"";
    } else {
      var rest := JsonChars(s[1..]) + "\"";
      JsonCharsAreRead(s[1..]);
      JsonCharIsRead(s[0], rest);
      var all, n := JsonChar(s[0]) + rest, |JsonChar(s[0])|;
      assert JsonChars(s) + "\"" == all && all[n..] == rest;
      hide JsonChar, ReadJsonChar, JsonChars;
      assert all != "\"" by {
        assert |rest| >= 1 && n >= 1;
      }
      assert [s[0]] + s[1..] == s;
    }
  }

  lemma {:induction false} OneCharacter(c: char)
    ensures JsonString([c]) == "\"" + JsonChar(c) + "\""
  {
    var s := [c];
    assert s[1..] == "" && JsonChars(s) == JsonChar(c) + JsonChars("");
  }

  /** Whatever the title, the line after the id is one line with the title as a JSON string, read back as it was. */
  lemma {:induction false} TitleIsReadBack(title: string)
    ensures TitleLine(title) == "title: " + JsonString(title) + "\n" && '\n' !in JsonString(title)
    ensures ReadJson(JsonString(title)) == Some(title)
    ensures JsonString("\n") == "\"\\n\"" && JsonString("\t") == "\"\\t\""
    ensures JsonString("\U{0008}") == "\"\\b\"" && JsonString("\U{000c}") == "\"\\f\""
  {
    OneCharacter('\n');
    OneCharacter('\t');
    OneCharacter('\U{0008}');
    OneCharacter('\U{000c}');
    hide JsonChars, ReadJsonChars;
    JsonCharsAreRead(title);
    assert JsonString(title)[1..] == JsonChars(title) + "\"";
  }
}
