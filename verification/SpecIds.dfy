/** Giving an imported spec a stable id. */
module SpecIds {
  import opened Options
  import opened Text
  import opened Frontmatter
  import opened Spec

  const MARK := "\n---"

  predicate MarkAt(raw: string, k: nat) {
    k + 4 <= |raw| && raw[k..k + 4] == MARK
  }

  /** `raw.indexOf("\n---", from)` */
  function IndexOfMark(raw: string, from: nat): (end: Option<nat>)
    ensures end.Some? ==> from <= end.value && MarkAt(raw, end.value)
    ensures forall k: nat :: from <= k && MarkAt(raw, k) ==> end.Some? && end.value <= k
    decreases |raw| - from
  {
    if from + 4 > |raw| then None
    else if MarkAt(raw, from) then Some(from)
    else IndexOfMark(raw, from + 1)
  }

  function InjectSpecId(raw: string, id: string): string {
    if "---" <= raw && IndexOfMark(raw, 3).Some? then
      var end := IndexOfMark(raw, 3).value;
      raw[..end] + "\nid: " + id + raw[end..]
    else "---\n" + "id: " + id + "\n---\n\n" + raw
  }

  /** Where the line with the id goes: above the first line of dashes, if the file opens with dashes and has one. */
  function InsertionPoint(raw: string): Option<nat> {
    if "---" <= raw then IndexOfMark(raw, 3) else None
  }

  // ----- the two branches

  lemma {:induction false} BlockAhead(raw: string, id: string)
    requires !("---" <= raw && IndexOfMark(raw, 3).Some?)
    ensures InjectSpecId(raw, id) == "---\n" + IdLine(id) + "---\n" + ("\n" + raw)
  {
    hide IndexOfMark;
    assert "\n---\n\n" == "\n" + "---\n" + "\n";
  }

  /** The new block in front of a file. */
  lemma {:induction false} NewBlock(raw: string, id: string)
    requires !("---" <= raw && IndexOfMark(raw, 3).Some?) && !ClosesEarly(id)
    ensures FrontmatterBlock(InjectSpecId(raw, id)) == Some("---\n" + IdLine(id) + "---\n")
    ensures BodyText(InjectSpecId(raw, id)) == Trim(raw)
  {
    hide IndexOfMark, ClosesEarly, FrontmatterBlock, Content, Trim, NoDelimiter, IsSpace, Yaml, InjectSpecId, IdLine;
    ClosesEarlyIsLine(id);
    BlockOfLines(IdLine(id), "\n" + raw);
    BlockAhead(raw, id);
    NewlineIsSpace();
    TrimIgnoresPadding("\n", raw, "");
    assert "\n" + raw + "" == "\n" + raw;
  }

  /** The id line goes in whole, between the line it follows and the line with the dashes. */
  lemma {:induction false} InsertedLine(raw: string, id: string)
    requires "---" <= raw && IndexOfMark(raw, 3).Some?
    ensures var end := IndexOfMark(raw, 3).value;
            && EndsLine(raw[..end + 1]) && |raw[..end + 1]| > 3
            && raw == raw[..end + 1] + raw[end + 1..]
            && InjectSpecId(raw, id) == raw[..end + 1] + (IdLine(id) + raw[end + 1..])
  {
    var end := IndexOfMark(raw, 3).value;
    assert raw[end] == raw[end..end + 4][0] == '\n';
    assert raw[end..] == "\n" + raw[end + 1..];
    assert raw[..end + 1] == raw[..end] + "\n";
    assert raw[..end] + "\nid: " + id + raw[end..] == raw[..end + 1] + (IdLine(id) + raw[end + 1..]);
  }

  lemma {:induction false} InkOfIdLine(id: string)
    ensures Ink(IdLine(id)) > 0
  {
    assert IdLine(id)[0] == 'i';
  }

  lemma {:induction false} InkOfInsertion(u: string, id: string, v: string)
    ensures Ink(u + (IdLine(id) + v)) > Ink(u + v)
  {
    hide Ink, IdLine;
    InkOfIdLine(id);
    InkAdds(u, v);
    InkAdds(IdLine(id), v);
    InkAdds(u, IdLine(id) + v);
  }

  /** A line added to a file without a block: there is still none, so the line shows in the body. */
  lemma {:induction false} NoOpeningAfter(u: string, v: string, w: string)
    requires EndsLine(u) && |u| > 3 && OpeningLine(u + v).None?
    ensures OpeningLine(u + w).None?
  {
    hide LineEnd, OpeningLine;
    OpeningStays(u, v);
    OpeningStays(u, w);
  }

  /** The part of a file up to the insertion is an opening line and whole lines after it. */
  lemma {:induction false} OpeningWithin(u: string, v: string)
    requires EndsLine(u) && |u| > 3 && OpeningLine(u + v).Some?
    requires v != "" || OpeningLine(u + v).value < |u + v|
    ensures var e := OpeningLine(u + v).value;
            e <= |u| && IsOpening(u[..e]) && (u[e..] == "" || EndsLine(u[e..]))
  {
    hide LineEnd;
    OpeningStays(u, v);
    SplitOpening(u + v);
    var e := OpeningLine(u + v).value;
    assert (u + v)[..e] == u[..e];
  }

  /** Delimiters of `a + v` after `line` has gone in between. */
  lemma {:induction false} DelimiterMoves(a: string, line: string, v: string, m: nat)
    requires a == "" || EndsLine(a)
    requires EndsLine(line) && NoDelimiter(line)
    ensures FirstDelimiter(a + v, m) && m < |a| ==>
              FirstDelimiter(a + (line + v), m) && Marker(a + (line + v), m) == Marker(a + v, m)
              && Marker(a + v, m).Some? && Marker(a + v, m).value <= |a|
    ensures FirstDelimiter(a + v, m) && m >= |a| ==>
              FirstDelimiter(a + (line + v), m + |line|) && Marker(a + v, m).Some?
              && Marker(a + (line + v), m + |line|) == Some(Marker(a + v, m).value + |line|)
    ensures NoDelimiter(a + v) ==> NoDelimiter(a + (line + v))
  {
    hide LineEnd, Marker, IsDelimiter, FirstDelimiter, NoDelimiter;
    if a == "" {
      assert a + v == v && a + (line + v) == line + v;
      NoneInEither(line, v);
      SecondMoves(line, v, m);
    } else {
      FirstOfFirst(a, v, m);
      FirstOfFirst(a, line + v, m);
      NoneInEither(a, v);
      NoneInEither(line, v);
      NoneInEither(a, line + v);
      MarkerEndsWithin(a, v, m);
      if m >= |a| && FirstDelimiter(a + v, m) {
        FirstSplits(a, v, m);
        SecondMoves(line, v, m - |a|);
        SecondMoves(a, v, m - |a|);
        SecondMoves(a, line + v, m - |a| + |line|);
      }
    }
  }

  lemma {:induction false} MarkerEndsWithin(a: string, v: string, m: nat)
    requires EndsLine(a)
    ensures FirstDelimiter(a + v, m) && m < |a| ==> Marker(a + v, m).Some? && Marker(a + v, m).value <= |a|
  {
    hide LineEnd;
    if m < |a| {
      MarkerStays(a, v, m);
    }
  }

  lemma {:induction false} FirstSplits(a: string, v: string, m: nat)
    requires EndsLine(a) && m >= |a| && FirstDelimiter(a + v, m)
    ensures NoDelimiter(a) && FirstDelimiter(v, m - |a|)
  {
    hide Marker, IsDelimiter;
    DelimitersOfParts(a, v, m);
    forall k: nat
      ensures !IsDelimiter(a, k)
    {
      DelimitersOfParts(a, v, k);
      LastLineIsEmpty(a);
    }
    forall k: nat | k < m - |a|
      ensures !IsDelimiter(v, k)
    {
      DelimitersOfParts(a, v, |a| + k);
    }
  }

  lemma {:induction false} SecondMoves(u: string, v: string, m: nat)
    requires EndsLine(u) && NoDelimiter(u)
    ensures FirstDelimiter(v, m) ==>
              FirstDelimiter(u + v, |u| + m) && Marker(v, m).Some?
              && Marker(u + v, |u| + m) == Some(|u| + Marker(v, m).value)
  {
    hide LineEnd;
    if FirstDelimiter(v, m) {
      FirstOfSecond(u, v, m);
    }
  }

  // ----- when the body is left alone

  /** A line that goes in above the closing line joins the block, and the text after the block is untouched. */
  lemma {:induction false} InsertedAboveClose(raw: string, id: string)
    requires "---" <= raw && IndexOfMark(raw, 3).Some? && !ClosesEarly(id)
    requires Delimiters(raw).Some? && IndexOfMark(raw, 3).value < Delimiters(raw).value.marker
    ensures var cut, block := IndexOfMark(raw, 3).value + 1, FrontmatterBlock(raw).value;
            FrontmatterBlock(InjectSpecId(raw, id)) == Some(block[..cut] + IdLine(id) + block[cut..])
    ensures Content(InjectSpecId(raw, id)) == Content(raw)
  {
    hide IndexOfMark, InjectSpecId, Delimiters, FirstDelimiter, IsDelimiter, Marker, LineEnd, OpeningLine, IsOpening,
      ClosesEarly, IdLine, EndsLine, NoDelimiter;
    var b, cut, line := Delimiters(raw).value, IndexOfMark(raw, 3).value + 1, IdLine(id);
    var u, v := raw[..cut], raw[cut..];
    InsertedLine(raw, id);
    BlockIsFirst(raw);
    HeadOfBlock(u, v);
    var head, a := u[..b.bodyStart], u[b.bodyStart..];
    assert raw == head + (a + v) && raw[b.bodyStart..] == a + v && raw[..b.bodyStart] == head;
    ClosesEarlyIsLine(id);
    DelimiterMoves(a, line, v, b.marker - b.bodyStart);
    Opened(head, a + (line + v));
    var result := InjectSpecId(raw, id);
    assert result == head + (a + (line + v)) && result == u + (line + v);
    assert Delimiters(result) == Some(Block(|head|, b.marker + |line|, b.end + |line|));
    PastInsertion(u, line, v, b.end);
  }

  lemma {:induction false} PastInsertion(u: string, line: string, v: string, end: nat)
    requires |u| <= end <= |u + v|
    ensures (u + (line + v))[..end + |line|] == (u + v)[..end][..|u|] + line + (u + v)[..end][|u|..]
    ensures (u + (line + v))[end + |line|..] == (u + v)[end..]
  {
    assert (u + v)[..end] == u + v[..end - |u|];
    assert (u + v)[..end][..|u|] == u && (u + v)[..end][|u|..] == v[..end - |u|];
  }

  lemma {:induction false} HeadOfBlock(u: string, v: string)
    requires EndsLine(u) && |u| > 3 && Delimiters(u + v).Some?
    ensures var e := Delimiters(u + v).value.bodyStart;
            e <= |u| && IsOpening(u[..e]) && (u[e..] == "" || EndsLine(u[e..]))
  {
    hide LineEnd, OpeningLine, IsOpening, FindClose;
    OpeningWithin(u, v);
  }

  /** A delimiter above the insertion is the first one still. */
  lemma {:induction false} FirstStays(a: string, v: string, w: string, m: nat)
    requires (a == "" || EndsLine(a)) && FirstDelimiter(a + v, m) && m < |a|
    ensures FirstDelimiter(a + w, m) && Marker(a + w, m) == Marker(a + v, m)
    ensures Marker(a + v, m).Some? && Marker(a + v, m).value <= |a|
  {
    hide LineEnd, Marker, IsDelimiter, FirstDelimiter;
    FirstOfFirst(a, v, m);
    FirstOfFirst(a, w, m);
    MarkerEndsWithin(a, v, m);
  }

  /** A line that goes in below the closing line shows in the body. */
  lemma {:induction false} InsertedBelowClose(raw: string, id: string)
    requires "---" <= raw && IndexOfMark(raw, 3).Some?
    requires Delimiters(raw).Some? && IndexOfMark(raw, 3).value >= Delimiters(raw).value.marker
    ensures BodyText(InjectSpecId(raw, id)) != BodyText(raw)
  {
    hide IndexOfMark, InjectSpecId, Delimiters, FirstDelimiter, IsDelimiter, Marker, LineEnd, OpeningLine, IsOpening,
      ClosesEarly, IdLine, EndsLine, NoDelimiter, Trim, Ink;
    var b, cut, line := Delimiters(raw).value, IndexOfMark(raw, 3).value + 1, IdLine(id);
    var u, v := raw[..cut], raw[cut..];
    InsertedLine(raw, id);
    BlockIsFirst(raw);
    HeadOfBlock(u, v);
    var head, a := u[..b.bodyStart], u[b.bodyStart..];
    assert raw == head + (a + v) && raw[b.bodyStart..] == a + v && raw[..b.bodyStart] == head;
    FirstStays(a, v, line + v, b.marker - b.bodyStart);
    Opened(head, a + (line + v));
    var result := InjectSpecId(raw, id);
    assert result == head + (a + (line + v)) && result == u + (line + v);
    assert Delimiters(result) == Some(b);
    assert Content(raw) == u[b.end..] + v;
    assert Content(result) == u[b.end..] + (line + v);
    InkOfInsertion(u[b.end..], id, v);
    MoreInkDiffers(Content(raw), Content(result));
  }

  /** Without a block to join, the line shows in the body too. */
  lemma {:induction false} InsertedWithoutBlock(raw: string, id: string)
    requires "---" <= raw && IndexOfMark(raw, 3).Some? && Delimiters(raw).None?
    requires !ClosesEarly(id) || OpeningLine(raw).None?
    ensures Delimiters(InjectSpecId(raw, id)).None?
    ensures BodyText(InjectSpecId(raw, id)) != BodyText(raw)
  {
    hide IndexOfMark, InjectSpecId, ClosesEarly, IdLine, EndsLine, Trim, Ink, OpeningLine, Delimiters;
    StillNoBlock(raw, id);
    var cut := IndexOfMark(raw, 3).value + 1;
    InsertedLine(raw, id);
    InkOfInsertion(raw[..cut], id, raw[cut..]);
    MoreInkDiffers(raw, InjectSpecId(raw, id));
  }

  lemma {:induction false} StillNoBlock(raw: string, id: string)
    requires "---" <= raw && IndexOfMark(raw, 3).Some? && Delimiters(raw).None?
    requires !ClosesEarly(id) || OpeningLine(raw).None?
    ensures Delimiters(InjectSpecId(raw, id)).None?
  {
    hide IndexOfMark, InjectSpecId, FirstDelimiter, IsDelimiter, Marker, LineEnd, IsOpening, ClosesEarly, IdLine,
      EndsLine, NoDelimiter, FindClose, OpeningLine;
    var cut, line := IndexOfMark(raw, 3).value + 1, IdLine(id);
    var u, v := raw[..cut], raw[cut..];
    InsertedLine(raw, id);
    if OpeningLine(raw).None? {
      NoOpeningAfter(u, v, line + v);
    } else {
      OpeningWithin(u, v);
      var e := OpeningLine(raw).value;
      var head, a := u[..e], u[e..];
      assert raw[e..] == a + v;
      ScanFindsFirstLine(raw[e..], 0);
      ClosesEarlyIsLine(id);
      DelimiterMoves(a, line, v, 0);
      Opened(head, a + (line + v));
      assert InjectSpecId(raw, id) == head + (a + (line + v));
    }
  }

  /** A new block in front of an old one pushes the old one into the body. */
  lemma {:induction false} OldBlockShows(raw: string)
    requires Delimiters(raw).Some?
    ensures Trim(raw) != BodyText(raw)
  {
    hide Trim, Delimiters, LineEnd, FindClose;
    var b := Delimiters(raw).value;
    BlockIsFirst(raw);
    assert raw == raw[..b.end] + raw[b.end..];
    InkAdds(raw[..b.end], raw[b.end..]);
    assert raw[..b.end][0] == raw[..b.bodyStart][..3][0] == '-';
    assert Ink(raw[..b.end]) > 0;
    MoreInkDiffers(raw, raw[b.end..]);
  }

  // ----- ids that close a block themselves

  lemma {:induction false} InkOfContent(raw: string)
    ensures Ink(Content(raw)) <= Ink(raw)
  {
    hide Delimiters, Ink;
    if Delimiters(raw).Some? {
      var b := Delimiters(raw).value;
      assert raw == raw[..b.end] + raw[b.end..];
      InkAfter(raw[..b.end], raw[b.end..]);
    }
  }

  lemma {:induction false} InkOfDashes(text: string)
    ensures Ink("---" + text) > Ink(text)
  {
    assert "---"[0] == '-';
    assert Ink("---") > 0;
    InkAdds("---", text);
  }

  /** Such an id in a new block leaves the rest of the block in the body. */
  lemma {:induction false} EarlyNewBlock(raw: string, id: string)
    requires !("---" <= raw && IndexOfMark(raw, 3).Some?) && ClosesEarly(id)
    ensures BodyText(InjectSpecId(raw, id)) != BodyText(raw)
  {
    hide IndexOfMark, ClosesEarly, Content, Trim, Ink, IdLine, Leftover;
    var after := "\n\n" + raw;
    var tail := "---" + after;
    EarlyCloseSplits(id, tail);
    var result := InjectSpecId(raw, id);
    assert result == "---\n" + (IdLine(id) + tail) by {
      LineOfId(id);
    }
    InkAfter(Leftover(id), tail);
    InkOfDashes(after);
    InkAfter("\n\n", raw);
    InkOfContent(raw);
    MoreInkDiffers(Content(result), Content(raw));
  }

  lemma {:induction false} LineOfId(id: string)
    ensures IdLine(id) == "id: " + id + "\n"
  {
  }

  /** What is above the insertion, when no line of it closes a block. */
  lemma {:induction false} Above(raw: string) returns (head: string, a: string)
    requires InsertionPoint(raw).Some? && OpeningLine(raw).Some?
    requires Delimiters(raw).Some? ==> InsertionPoint(raw).value < Delimiters(raw).value.marker
    ensures raw[..InsertionPoint(raw).value + 1] == head + a
    ensures IsOpening(head) && (a == "" || EndsLine(a)) && NoDelimiter(a)
  {
    hide IndexOfMark, FirstDelimiter, IsDelimiter, Marker, LineEnd, OpeningLine, IsOpening, EndsLine, NoDelimiter,
      InjectSpecId, FindClose;
    var cut := IndexOfMark(raw, 3).value + 1;
    var u, v := raw[..cut], raw[cut..];
    InsertedLine(raw, "");
    OpeningWithin(u, v);
    var e := OpeningLine(raw).value;
    head, a := u[..e], u[e..];
    assert raw[e..] == a + v;
    ScanFindsFirstLine(raw[e..], 0);
    if a == "" {
      NothingCloses();
    } else if Delimiters(raw).Some? {
      FirstSplits(a, v, Delimiters(raw).value.marker - e);
    } else {
      NoneInEither(a, v);
    }
  }

  lemma {:induction false} NothingCloses()
    ensures NoDelimiter("")
  {
  }

  /** Such an id put below an opening line cuts the block short: what was below the insertion is content. */
  lemma {:induction false} CutShort(raw: string, id: string)
    requires InsertionPoint(raw).Some? && OpeningLine(raw).Some? && ClosesEarly(id)
    requires Delimiters(raw).Some? ==> InsertionPoint(raw).value < Delimiters(raw).value.marker
    ensures Content(InjectSpecId(raw, id)) == Leftover(id) + raw[InsertionPoint(raw).value + 1..]
  {
    hide IndexOfMark, OpeningLine, Delimiters, IsOpening, EndsLine, NoDelimiter, ClosesEarly, Leftover, IdLine,
      InjectSpecId, Content;
    var head, a := Above(raw);
    InsertedLine(raw, id);
    var v := raw[InsertionPoint(raw).value + 1..];
    assert head + a + (IdLine(id) + v) == head + (a + (IdLine(id) + v));
    EarlyIdCuts(head, a, id, v);
  }

  lemma {:induction false} EarlyAboveClose(raw: string, id: string)
    requires InsertionPoint(raw).Some? && Delimiters(raw).Some? && ClosesEarly(id)
    requires InsertionPoint(raw).value < Delimiters(raw).value.marker
    ensures BodyText(InjectSpecId(raw, id)) != BodyText(raw)
  {
    hide IndexOfMark, InjectSpecId, ClosesEarly, IdLine, Trim, Ink, OpeningLine, Leftover, Delimiters, FindClose;
    CutShort(raw, id);
    var b, cut := Delimiters(raw).value, InsertionPoint(raw).value + 1;
    var v := raw[cut..];
    assert Content(raw) == v[b.end - cut..];
    InkAfter(Leftover(id), v);
    DashesBeforeContent(raw, b.end - cut);
    MoreInkDiffers(Content(InjectSpecId(raw, id)), Content(raw));
  }

  /** In an opened file that nothing closed, the body stays only if the id repeats what is above it. */
  lemma {:induction false} EarlyWithoutBlock(raw: string, id: string)
    requires InsertionPoint(raw).Some? && OpeningLine(raw).Some? && Delimiters(raw).None? && ClosesEarly(id)
    ensures BodyText(InjectSpecId(raw, id)) == BodyText(raw) <==>
              TrimStart(Leftover(id)) == raw[..InsertionPoint(raw).value + 1]
  {
    CutShort(raw, id);
    hide IndexOfMark, InjectSpecId, ClosesEarly, IdLine, Trim, TrimStart, OpeningLine, Leftover;
    var cut := InsertionPoint(raw).value + 1;
    var u, v := raw[..cut], raw[cut..];
    assert raw == u + v;
    assert v[..3] == raw[cut - 1..cut + 3][1..] == "---";
    assert u[..3] == raw[..3];
    assert u[0] == u[..3][0] == '-' && v[0] == v[..3][0] == '-';
    TrimKeepsBeginning(Leftover(id), u, v);
  }

  /** Between the inserted line and the old content stands the line of dashes. */
  lemma {:induction false} DashesBeforeContent(raw: string, k: nat)
    requires "---" <= raw && IndexOfMark(raw, 3).Some? && 3 <= k <= |raw| - IndexOfMark(raw, 3).value - 1
    ensures var v := raw[IndexOfMark(raw, 3).value + 1..]; Ink(v) > Ink(v[k..])
  {
    hide Ink;
    var end := IndexOfMark(raw, 3).value;
    var v := raw[end + 1..];
    assert v[..3] == raw[end..end + 4][1..] == "---";
    assert v == v[..3] + v[3..] && v[3..] == v[3..k] + v[k..];
    InkOfDashes(v[3..]);
    InkAfter(v[3..k], v[k..]);
  }

  /** The file has no block and gets a new one, or the id goes in above the line that closes its block. */
  predicate JoinsBlock(raw: string) {
    match InsertionPoint(raw)
    case None => Delimiters(raw).None?
    case Some(end) => Delimiters(raw).Some? && end < Delimiters(raw).value.marker
  }

  /**
   * An id that closes nothing itself leaves the body alone exactly when its line joins the block; one that does, only
   * by repeating the whole text above it in a file that was opened and never closed.
   */
  predicate KeepsBody(raw: string, id: string) {
    if ClosesEarly(id)
    then InsertionPoint(raw).Some? && OpeningLine(raw).Some? && Delimiters(raw).None?
         && TrimStart(Leftover(id)) == raw[..InsertionPoint(raw).value + 1]
    else JoinsBlock(raw)
  }

  lemma {:induction false} BodyIsKeptExactly(raw: string, id: string)
    ensures BodyText(InjectSpecId(raw, id)) == BodyText(raw) <==> KeepsBody(raw, id)
  {
    hide IndexOfMark, InjectSpecId, ClosesEarly, Trim, FindClose, LineEnd, Leftover, TrimStart;
    if InsertionPoint(raw).Some? {
      hide OpeningLine, Delimiters;
      if Delimiters(raw).None? {
        if ClosesEarly(id) && OpeningLine(raw).Some? {
          EarlyWithoutBlock(raw, id);
        } else {
          InsertedWithoutBlock(raw, id);
        }
      } else if InsertionPoint(raw).value >= Delimiters(raw).value.marker {
        InsertedBelowClose(raw, id);
      } else if ClosesEarly(id) {
        EarlyAboveClose(raw, id);
      } else {
        InsertedAboveClose(raw, id);
      }
    } else if ClosesEarly(id) {
      EarlyNewBlock(raw, id);
    } else {
      NewBlock(raw, id);
      if Delimiters(raw).Some? {
        OldBlockShows(raw);
      }
    }
  }

  /** Read through the YAML library, a file that loads reads the same exactly when it also loads with the id. */
  lemma {:induction false} ReadingIsKeptExactly(loads: YamlLoader, raw: string, id: string)
    requires SpecBody(loads, raw).Body?
    ensures SpecBody(loads, InjectSpecId(raw, id)) == SpecBody(loads, raw) <==>
              KeepsBody(raw, id) && SpecBody(loads, InjectSpecId(raw, id)).Body?
  {
    hide BodyText, InjectSpecId, KeepsBody, Yaml;
    BodyIsKeptExactly(raw, id);
  }

  /** A file that does not open with dashes always keeps its body. */
  lemma {:induction false} PlainFileKeepsBody(raw: string, id: string)
    requires !("---" <= raw) && '\n' !in id
    ensures FrontmatterBlock(InjectSpecId(raw, id)) == Some("---\n" + IdLine(id) + "---\n")
    ensures BodyText(InjectSpecId(raw, id)) == BodyText(raw)
  {
    OneLineIdIsSafe(id);
    hide ClosesEarly, FindClose, LineEnd, IndexOfMark, IdLine, InjectSpecId;
    NewBlock(raw, id);
    BodyIsKeptExactly(raw, id);
  }

  /** A block closed by dashes: a line of dashes starts at or above its closing line. */
  lemma {:induction false} ClosingDashesAreMarked(raw: string)
    requires Delimiters(raw).Some? && raw[Delimiters(raw).value.marker] == '-'
    ensures "---" <= raw && Delimiters(raw).value.marker >= 4 && MarkAt(raw, Delimiters(raw).value.marker - 1)
  {
    hide FindClose, LineEnd, OpeningLine, Delimiters, Marker;
    var b := Delimiters(raw).value;
    BlockIsFirst(raw);
    var rest, m := raw[b.bodyStart..], b.marker - b.bodyStart;
    MarkerIsThree(rest, m);
    SliceOfRest(raw, b.bodyStart, m, 3);
    assert rest[m] == raw[b.marker];
    assert raw[b.marker - 1] == '\n' by {
      if m == 0 {
        assert raw[..b.bodyStart][b.bodyStart - 1] == raw[b.marker - 1];
      } else {
        assert rest[m - 1] == raw[b.marker - 1];
      }
    }
    assert b.marker >= 4 by {
      DashesAreNoNewline(raw[..b.bodyStart]);
    }
    assert raw[b.marker - 1..b.marker + 3] == ['\n'] + raw[b.marker..b.marker + 3];
    OpeningDashes(raw);
  }

  lemma {:induction false} SliceOfRest(s: string, from: nat, m: nat, n: nat)
    requires from + m + n <= |s|
    ensures s[from..][m..m + n] == s[from + m..from + m + n]
  {
  }

  lemma {:induction false} MarkerIsThree(s: string, m: nat)
    requires Marker(s, m).Some?
    ensures s[m..m + 3] == if s[m] == '-' then "---" else "..."
  {
    hide LineEnd;
    assert s[m..m + 3][0] == s[m];
  }

  lemma {:induction false} OpeningDashes(raw: string)
    requires OpeningLine(raw).Some?
    ensures "---" <= raw
  {
    hide LineEnd;
    assert raw[..3] == "---";
  }

  /** A block closed by dashes, with an id on one line, always keeps the body. */
  lemma {:induction false} DashedBlockKeepsBody(raw: string, id: string)
    requires Delimiters(raw).Some? && raw[Delimiters(raw).value.marker] == '-' && '\n' !in id
    ensures BodyText(InjectSpecId(raw, id)) == BodyText(raw)
  {
    OneLineIdIsSafe(id);
    ClosingDashesAreMarked(raw);
    hide ClosesEarly, FindClose, LineEnd, Delimiters, InjectSpecId, MarkAt, BodyText, OpeningLine;
    BodyIsKeptExactly(raw, id);
  }

  const DOTTED := "---\na\n...\nb\n---\n"

  /** A line of dots below lines that close nothing is where a block ends. */
  lemma {:induction false} DotsClose(lines: string, text: string)
    requires EndsLine(lines) && NoDelimiter(lines)
    ensures Delimiters("---\n" + (lines + ("...\n" + text))) == Some(Block(4, 4 + |lines|, 8 + |lines|))
  {
    var close := "...\n" + text;
    assert close[0..3] == "..." && close[3] == '\n';
    assert FirstDelimiter(close, 0) && Marker(close, 0) == Some(4);
    DashesOpen();
    hide Marker, FirstDelimiter, NoDelimiter, Delimiters, IsOpening, EndsLine;
    FirstOfSecond(lines, close, 0);
    Opened("---\n", lines + close);
  }

  lemma {:induction false} DottedBlock()
    ensures Delimiters(DOTTED) == Some(Block(4, 6, 10))
  {
    PlainLine("a\n");
    hide NoDelimiter, Delimiters;
    DotsClose("a\n", "b\n---\n");
    assert DOTTED == "---\n" + ("a\n" + ("...\n" + "b\n---\n"));
  }

  lemma {:induction false} DottedMark()
    ensures InsertionPoint(DOTTED) == Some(11)
  {
    assert DOTTED[..3] == "---" && DOTTED[11..15] == MARK;
    FirstMarkIs(DOTTED, 3, 11);
  }

  lemma {:induction false} FirstMarkIs(raw: string, from: nat, k: nat)
    requires from <= k && MarkAt(raw, k) && forall j :: from <= j < k ==> !(raw[j] == '\n' && raw[j + 1] == '-')
    ensures IndexOfMark(raw, from) == Some(k)
  {
    assert MARK[0] == '\n' && MARK[1] == '-';
    var end := IndexOfMark(raw, from).value;
    assert raw[end] == raw[end..end + 4][0] && raw[end + 1] == raw[end..end + 4][1];
  }

  /** A block closed by dots, with dashes further down: the id goes in below the block and shows in the body. */
  lemma {:induction false} DotsMissTheId(id: string)
    requires '\n' !in id
    ensures InjectSpecId(DOTTED, id) == "---\na\n...\nb" + "\nid: " + id + "\n---\n"
    ensures BodyText(InjectSpecId(DOTTED, id)) != BodyText(DOTTED)
  {
    OneLineIdIsSafe(id);
    DottedBlock();
    DottedMark();
    assert DOTTED[..11] == "---\na\n...\nb" && DOTTED[11..] == "\n---\n";
    hide BodyText, ClosesEarly, IndexOfMark, Delimiters;
    BodyIsKeptExactly(DOTTED, id);
  }
}
