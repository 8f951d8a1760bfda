/** The `---` block at the top of a spec file: the delimiter scan that parsing and rewriting share. */
module Frontmatter {
  import opened Options

  // ----- the two patterns

  /** `[ \t]*(?:\r?\n|$)` at `j`: where the match ends. */
  function LineEnd(s: string, j: nat): (e: Option<nat>)
    requires j <= |s|
    ensures e.Some? ==> j <= e.value <= |s|
    decreases |s| - j
  {
    if j == |s| then Some(j)
    else if s[j] == ' ' || s[j] == '\t' then LineEnd(s, j + 1)
    else if s[j] == '\n' then Some(j + 1)
    else if s[j] == '\r' && j + 1 < |s| && s[j + 1] == '\n' then Some(j + 2)
    else None
  }

  /** `^---[ \t]*(?:\r?\n|$)`: where the opening line ends. */
  function OpeningLine(raw: string): (e: Option<nat>)
    ensures e.Some? ==> 3 <= e.value <= |raw|
  {
    if "---" <= raw then LineEnd(raw, 3) else None
  }

  /** `(---|\.\.\.)[ \t]*(?:\r?\n|$)` at `m` */
  function Marker(s: string, m: nat): (e: Option<nat>)
    ensures e.Some? ==> m + 3 <= e.value <= |s|
  {
    if m + 3 <= |s| && (s[m..m + 3] == "---" || s[m..m + 3] == "...") then LineEnd(s, m + 3) else None
  }

  /** A match of the closing pattern: where it begins, where its dashes or dots start, and where it ends. */
  datatype Close = Close(index: nat, marker: nat, end: nat)

  function MarkerClose(s: string, i: nat, m: nat): (c: Option<Close>)
    ensures c.Some? <==> Marker(s, m).Some?
    ensures c.Some? ==> c.value.index == i && c.value.marker == m && Marker(s, m) == Some(c.value.end)
  {
    match Marker(s, m)
    case None => None
    case Some(end) => Some(Close(i, m, end))
  }

  /** `(?:^|\r?\n)(---|\.\.\.)[ \t]*(?:\r?\n|$)` at `i` */
  function CloseAt(s: string, i: nat): (c: Option<Close>)
    ensures c.Some? ==> c.value.index <= c.value.marker && c.value.marker + 3 <= c.value.end <= |s|
  {
    if i == 0 && Marker(s, 0).Some? then MarkerClose(s, i, 0)
    else if i < |s| && s[i] == '\n' then MarkerClose(s, i, i + 1)
    else if i + 1 < |s| && s[i] == '\r' && s[i + 1] == '\n' then MarkerClose(s, i, i + 2)
    else None
  }

  /** The leftmost match at or after `i`. */
  function FindClose(s: string, i: nat): (c: Option<Close>)
    requires i <= |s|
    ensures c.Some? ==> c.value.index <= c.value.marker && c.value.marker + 3 <= c.value.end <= |s|
    decreases |s| - i
  {
    match CloseAt(s, i)
    case Some(c) => Some(c)
    case None => if i == |s| then None else FindClose(s, i + 1)
  }

  // ----- the same scan, seen as lines

  /** `m` starts a line that closes a block. */
  predicate IsDelimiter(s: string, m: nat) {
    m <= |s| && (m == 0 || s[m - 1] == '\n') && Marker(s, m).Some?
  }

  ghost predicate NoDelimiter(s: string) {
    forall m: nat :: !IsDelimiter(s, m)
  }

  ghost predicate FirstDelimiter(s: string, m: nat) {
    IsDelimiter(s, m) && forall k: nat :: k < m ==> !IsDelimiter(s, k)
  }

  /** Where a match that closes on line `m` begins. */
  function MatchStart(s: string, m: nat): (i: nat)
    requires m <= |s|
  {
    if m == 0 then 0 else if m >= 2 && s[m - 2] == '\r' then m - 2 else m - 1
  }

  lemma {:induction false} CloseAtIsLine(s: string, i: nat)
    requires i <= |s|
    requires forall m: nat :: IsDelimiter(s, m) ==> i <= MatchStart(s, m)
    ensures CloseAt(s, i).Some? ==>
              FirstDelimiter(s, CloseAt(s, i).value.marker)
              && CloseAt(s, i).value.index == MatchStart(s, CloseAt(s, i).value.marker)
              && Marker(s, CloseAt(s, i).value.marker) == Some(CloseAt(s, i).value.end)
    ensures CloseAt(s, i).None? ==> forall m: nat :: IsDelimiter(s, m) ==> i < MatchStart(s, m)
  {
    hide Marker;
  }

  /** The leftmost match of the closing pattern is the first delimiter line, and there is none when no line is one. */
  lemma {:induction false} ScanFindsFirstLine(s: string, i: nat)
    requires i <= |s|
    requires forall m: nat :: IsDelimiter(s, m) ==> i <= MatchStart(s, m)
    ensures FindClose(s, i).None? ==> NoDelimiter(s)
    ensures FindClose(s, i).Some? ==>
              FirstDelimiter(s, FindClose(s, i).value.marker)
              && FindClose(s, i).value.index == MatchStart(s, FindClose(s, i).value.marker)
              && Marker(s, FindClose(s, i).value.marker) == Some(FindClose(s, i).value.end)
    decreases |s| - i
  {
    CloseAtIsLine(s, i);
    hide CloseAt, IsDelimiter, FirstDelimiter, Marker;
    if CloseAt(s, i).None? && i < |s| {
      ScanFindsFirstLine(s, i + 1);
    }
  }

  // ----- delimiters of texts put together

  predicate EndsLine(s: string) {
    s != "" && s[|s| - 1] == '\n'
  }

  lemma {:induction false} LineEndStays(u: string, v: string, j: nat)
    requires EndsLine(u) && j < |u|
    ensures LineEnd(u + v, j) == LineEnd(u, j)
    decreases |u| - j
  {
    if u[j] == ' ' || u[j] == '\t' {
      LineEndStays(u, v, j + 1);
    }
  }

  lemma {:induction false} LineEndShifts(u: string, v: string, j: nat)
    requires j <= |v|
    ensures LineEnd(v, j).None? ==> LineEnd(u + v, |u| + j).None?
    ensures LineEnd(v, j).Some? ==> LineEnd(u + v, |u| + j) == Some(|u| + LineEnd(v, j).value)
    decreases |v| - j
  {
    if j < |v| && (v[j] == ' ' || v[j] == '\t') {
      LineEndShifts(u, v, j + 1);
    }
  }

  lemma {:induction false} MarkerStays(u: string, v: string, m: nat)
    requires EndsLine(u) && m < |u|
    ensures Marker(u + v, m) == Marker(u, m)
  {
    hide LineEnd;
    var s := u + v;
    if m + 3 < |u| {
      LineEndStays(u, v, m + 3);
      assert s[m..m + 3] == u[m..m + 3];
    } else {
      assert s[|u| - 1] == '\n';
      if m + 3 <= |s| {
        assert s[m..m + 3][|u| - 1 - m] == '\n';
      }
      if m + 3 == |u| {
        assert u[m..m + 3][2] == '\n';
      }
    }
  }

  lemma {:induction false} MarkerShifts(u: string, v: string, m: nat)
    ensures Marker(v, m).None? ==> Marker(u + v, |u| + m).None?
    ensures Marker(v, m).Some? ==> Marker(u + v, |u| + m) == Some(|u| + Marker(v, m).value)
  {
    hide LineEnd;
    if m + 3 <= |v| {
      assert (u + v)[|u| + m..|u| + m + 3] == v[m..m + 3];
      LineEndShifts(u, v, m + 3);
    }
  }

  /** Lines of `u + v` are lines of `u` or of `v`, when `u` ends its last line. */
  lemma {:induction false} DelimitersOfParts(u: string, v: string, m: nat)
    requires EndsLine(u)
    ensures m < |u| ==> (IsDelimiter(u + v, m) <==> IsDelimiter(u, m)) && Marker(u + v, m) == Marker(u, m)
    ensures m >= |u| ==> (IsDelimiter(u + v, m) <==> IsDelimiter(v, m - |u|))
    ensures m >= |u| && IsDelimiter(v, m - |u|) ==> Marker(u + v, m) == Some(|u| + Marker(v, m - |u|).value)
  {
    hide Marker;
    if m < |u| {
      MarkerStays(u, v, m);
    } else {
      MarkerShifts(u, v, m - |u|);
    }
  }

  /** Nothing in the first part closes, so the first delimiter of the second part is the first of all. */
  lemma {:induction false} FirstOfSecond(u: string, v: string, m: nat)
    requires EndsLine(u) && NoDelimiter(u) && FirstDelimiter(v, m)
    ensures FirstDelimiter(u + v, |u| + m) && Marker(u + v, |u| + m) == Some(|u| + Marker(v, m).value)
  {
    hide Marker, IsDelimiter;
    DelimitersOfParts(u, v, |u| + m);
    forall k: nat | k < |u| + m
      ensures !IsDelimiter(u + v, k)
    {
      DelimitersOfParts(u, v, k);
    }
  }

  lemma {:induction false} FirstOfFirst(u: string, v: string, m: nat)
    requires EndsLine(u)
    ensures m < |u| ==> (FirstDelimiter(u + v, m) <==> FirstDelimiter(u, m)) && Marker(u + v, m) == Marker(u, m)
  {
    hide Marker, IsDelimiter;
    DelimitersOfParts(u, v, m);
    forall k: nat | k < |u|
      ensures IsDelimiter(u + v, k) <==> IsDelimiter(u, k)
    {
      DelimitersOfParts(u, v, k);
    }
  }

  lemma {:induction false} NoneInEither(u: string, v: string)
    requires EndsLine(u)
    ensures NoDelimiter(u + v) <==> NoDelimiter(u) && NoDelimiter(v)
  {
    hide Marker;
    forall k: nat
      ensures k < |u| ==> (IsDelimiter(u + v, k) <==> IsDelimiter(u, k))
    {
      DelimitersOfParts(u, v, k);
    }
    forall k: nat
      ensures IsDelimiter(v, k) <==> IsDelimiter(u + v, |u| + k)
    {
      DelimitersOfParts(u, v, |u| + k);
    }
    LastLineIsEmpty(u);
    forall k: nat
      ensures k >= |u| ==> (IsDelimiter(u + v, k) <==> IsDelimiter(v, k - |u|))
    {
      DelimitersOfParts(u, v, k);
    }
    hide IsDelimiter;
  }

  lemma {:induction false} LastLineIsEmpty(u: string)
    ensures forall k: nat :: k >= |u| ==> !IsDelimiter(u, k)
  {
  }

  /** A single line that starts with something else closes nothing. */
  lemma {:induction false} PlainLine(line: string)
    requires EndsLine(line) && '\n' !in line[..|line| - 1]
    requires line[0] != '-' && line[0] != '.'
    ensures NoDelimiter(line)
  {
    hide LineEnd;
    forall m: nat
      ensures !IsDelimiter(line, m)
    {
      if 0 < m < |line| {
        assert line[m - 1] == line[..|line| - 1][m - 1];
      }
      if m == 0 && |line| >= 3 {
        assert line[0..3][0] == line[0];
      }
    }
  }

  // ----- a whole file

  /** Offsets into the file: past the opening line, of the closing line, and past it. */
  datatype Block = Block(bodyStart: nat, marker: nat, end: nat)

  function Delimiters(raw: string): (block: Option<Block>)
    ensures block.Some? ==> OpeningLine(raw) == Some(block.value.bodyStart)
    ensures block.Some? ==>
              3 <= block.value.bodyStart <= block.value.marker && block.value.marker + 3 <= block.value.end <= |raw|
  {
    match OpeningLine(raw)
    case None => None
    case Some(bodyStart) =>
      match FindClose(raw[bodyStart..], 0)
      case None => None
      case Some(c) => Some(Block(bodyStart, bodyStart + c.marker, bodyStart + c.end))
  }

  /** The literal block, opening line through closing line. */
  function FrontmatterBlock(raw: string): Option<string> {
    match Delimiters(raw)
    case None => None
    case Some(block) => Some(raw[..block.end])
  }

  /** The text after the block, or all of it when there is none. */
  function Content(raw: string): string {
    match Delimiters(raw)
    case None => raw
    case Some(block) => raw[block.end..]
  }

  /** What the YAML library gets: the text between the delimiters, without the line break before the second. */
  function Yaml(raw: string): Option<string> {
    match OpeningLine(raw)
    case None => None
    case Some(bodyStart) =>
      var rest := raw[bodyStart..];
      match FindClose(rest, 0)
      case None => None
      case Some(c) => Some(rest[..c.index])
  }

  /** `head` is an opening line and nothing else. */
  ghost predicate IsOpening(head: string) {
    EndsLine(head) && OpeningLine(head) == Some(|head|)
  }

  lemma {:induction false} OpeningStays(u: string, v: string)
    requires EndsLine(u) && |u| > 3
    ensures OpeningLine(u + v) == OpeningLine(u)
  {
    hide LineEnd;
    LineEndStays(u, v, 3);
    assert (u + v)[..3] == u[..3];
  }

  lemma {:induction false} LineEndIsNewline(s: string, j: nat)
    requires j <= |s|
    ensures LineEnd(s, j).Some? && LineEnd(s, j).value < |s| ==>
              j < LineEnd(s, j).value && s[LineEnd(s, j).value - 1] == '\n'
    decreases |s| - j
  {
    if j < |s| && (s[j] == ' ' || s[j] == '\t') {
      LineEndIsNewline(s, j + 1);
    }
  }

  /** A file with an opening line splits there. */
  lemma {:induction false} SplitOpening(raw: string)
    requires OpeningLine(raw).Some? && OpeningLine(raw).value < |raw|
    ensures IsOpening(raw[..OpeningLine(raw).value])
  {
    var e := OpeningLine(raw).value;
    LineEndIsNewline(raw, 3);
    hide LineEnd;
    assert raw == raw[..e] + raw[e..];
    OpeningStays(raw[..e], raw[e..]);
  }

  /** The scan over an opening line and what follows it. */
  lemma {:induction false} Opened(head: string, rest: string)
    requires IsOpening(head)
    ensures NoDelimiter(rest) ==> Delimiters(head + rest) == None
    ensures forall m: nat :: FirstDelimiter(rest, m) ==>
              Delimiters(head + rest) == Some(Block(|head|, |head| + m, |head| + Marker(rest, m).value))
  {
    hide Marker, LineEnd, CloseAt, FindClose, IsDelimiter;
    assert |head| > 3 by {
      DashesAreNoNewline(head);
    }
    OpeningStays(head, rest);
    hide OpeningLine;
    assert (head + rest)[|head|..] == rest;
    ScanFindsFirstLine(rest, 0);
    if FindClose(rest, 0).Some? {
      forall m: nat | FirstDelimiter(rest, m)
        ensures m == FindClose(rest, 0).value.marker
      {
        FirstIsUnique(rest, m, FindClose(rest, 0).value.marker);
      }
    }
  }

  lemma {:induction false} DashesAreNoNewline(head: string)
    requires IsOpening(head)
    ensures |head| > 3
  {
    hide LineEnd;
    assert head[..3] == "---";
    assert head[2] == '-';
  }

  lemma {:induction false} FirstIsUnique(s: string, m: nat, n: nat)
    requires FirstDelimiter(s, m) && FirstDelimiter(s, n)
    ensures m == n
  {
    hide IsDelimiter;
  }

  /** A block is an opening line and the text up to the end of the first delimiter line after it. */
  lemma {:induction false} BlockIsFirst(raw: string)
    requires Delimiters(raw).Some?
    ensures var b := Delimiters(raw).value;
            && IsOpening(raw[..b.bodyStart])
            && FirstDelimiter(raw[b.bodyStart..], b.marker - b.bodyStart)
            && Marker(raw[b.bodyStart..], b.marker - b.bodyStart) == Some(b.end - b.bodyStart)
  {
    hide Marker, LineEnd, CloseAt, FindClose, IsDelimiter, FirstDelimiter, OpeningLine;
    ScanFindsFirstLine(raw[Delimiters(raw).value.bodyStart..], 0);
    SplitOpening(raw);
  }

  lemma {:induction false} YamlIsAbove(raw: string)
    ensures Delimiters(raw).None? <==> Yaml(raw).None?
    ensures Delimiters(raw).Some? ==>
              var b := Delimiters(raw).value;
              var rest := raw[b.bodyStart..];
              Yaml(raw) == Some(rest[..MatchStart(rest, b.marker - b.bodyStart)])
  {
    hide Marker, LineEnd, CloseAt, FindClose, IsDelimiter, FirstDelimiter, OpeningLine;
    if OpeningLine(raw).Some? {
      ScanFindsFirstLine(raw[OpeningLine(raw).value..], 0);
    }
  }

  /** Files that agree up to the same closing line have the same YAML. */
  lemma {:induction false} SameYaml(raw: string, other: string)
    requires Delimiters(raw).Some? && Delimiters(other).Some?
    requires Delimiters(raw).value.bodyStart == Delimiters(other).value.bodyStart
    requires Delimiters(raw).value.marker == Delimiters(other).value.marker
    requires raw[..Delimiters(raw).value.marker] == other[..Delimiters(raw).value.marker]
    ensures Yaml(other) == Yaml(raw)
  {
    hide Delimiters, Yaml;
    YamlIsAbove(raw);
    YamlIsAbove(other);
    var b := Delimiters(raw).value;
    var m, r, s := b.marker - b.bodyStart, raw[b.bodyStart..], other[b.bodyStart..];
    assert r[..m] == raw[..b.marker][b.bodyStart..] == other[..b.marker][b.bodyStart..] == s[..m];
    assert forall k :: 0 <= k < m ==> r[k] == r[..m][k] == s[..m][k] == s[k];
    var i := MatchStart(r, m);
    assert r[..i] == r[..m][..i] == s[..m][..i] == s[..i];
  }

  // ----- the lines themselves

  ghost predicate Blanks(s: string, j: nat, b: nat) {
    j <= b <= |s| && forall i :: j <= i < b ==> s[i] == ' ' || s[i] == '\t'
  }

  /** A line break, or the end of the text. */
  ghost predicate Breaks(s: string, b: nat, e: nat) {
    || (e == b + 1 <= |s| && s[b] == '\n')
    || (e == b + 2 <= |s| && s[b] == '\r' && s[b + 1] == '\n')
    || e == b == |s|
  }

  /** From `j` on there are only spaces and tabs up to a line break that ends at `e`, or up to the end of the text. */
  ghost predicate RestOfLine(s: string, j: nat, e: nat) {
    exists b: nat :: Blanks(s, j, b) && Breaks(s, b, e)
  }

  lemma {:induction false} LineEndIs(s: string, j: nat)
    requires j <= |s|
    ensures forall e: nat :: LineEnd(s, j) == Some(e) <==> RestOfLine(s, j, e)
    decreases |s| - j
  {
    if j < |s| && (s[j] == ' ' || s[j] == '\t') {
      LineEndIs(s, j + 1);
      forall e: nat
        ensures RestOfLine(s, j, e) <==> RestOfLine(s, j + 1, e)
      {
        BlankMore(s, j, e);
      }
    } else {
      forall e: nat
        ensures LineEnd(s, j) == Some(e) <==> RestOfLine(s, j, e)
      {
        assert Blanks(s, j, j);
        assert RestOfLine(s, j, e) <==> Breaks(s, j, e);
      }
    }
  }

  lemma {:induction false} BlankMore(s: string, j: nat, e: nat)
    requires j < |s| && (s[j] == ' ' || s[j] == '\t')
    ensures RestOfLine(s, j, e) <==> RestOfLine(s, j + 1, e)
  {
    if b: nat :| Blanks(s, j, b) && Breaks(s, b, e) {
      assert b > j && Blanks(s, j + 1, b);
    }
    if b: nat :| Blanks(s, j + 1, b) && Breaks(s, b, e) {
      assert Blanks(s, j, b);
    }
  }

  /** A file opens with dashes and nothing else on the line; a block is closed by a line of dashes or of dots. */
  lemma {:induction false} DelimiterLines(s: string, m: nat, e: nat)
    ensures OpeningLine(s) == Some(e) <==> 3 <= |s| && s[..3] == "---" && RestOfLine(s, 3, e)
    ensures IsDelimiter(s, m) && Marker(s, m) == Some(e) <==>
              && m + 3 <= |s| && (m == 0 || s[m - 1] == '\n') && (s[m..m + 3] == "---" || s[m..m + 3] == "...")
              && RestOfLine(s, m + 3, e)
  {
    hide LineEnd, RestOfLine;
    if 3 <= |s| {
      LineEndIs(s, 3);
    }
    if m + 3 <= |s| {
      LineEndIs(s, m + 3);
    }
  }
}
