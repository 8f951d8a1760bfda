/** What an import row means, said in names rather than in comparison keys. */
module TagSpelling {
  import opened Options
  import opened Text
  import opened Csv
  import opened Tags
  import opened TagImport
  import opened TagReplay

  // ----- when two spellings name one tag

  /** Tidied, the two names have one length and agree in every character up to case. */
  ghost predicate SameName(fold: CaseFold, a: string, b: string) {
    var s, t := NormalizeTagName(a), NormalizeTagName(b);
    |s| == |t| && forall i :: 0 <= i < |s| ==> fold(s[i]) == fold(t[i])
  }

  lemma {:induction false} SameKeyIsSameName(fold: CaseFold, a: string, b: string)
    ensures TagKey(fold, a) == TagKey(fold, b) <==> SameName(fold, a, b)
  {
    hide NormalizeTagName;
    var s, t := NormalizeTagName(a), NormalizeTagName(b);
    if TagKey(fold, a) == TagKey(fold, b) {
      assert |s| == |TagKey(fold, a)| == |t|;
      forall i | 0 <= i < |s|
        ensures fold(s[i]) == fold(t[i])
      {
        assert TagKey(fold, a)[i] == TagKey(fold, b)[i];
      }
    }
  }

  ghost predicate Blank(s: string) {
    forall i :: 0 <= i < |s| ==> IsSpace(s[i])
  }

  /** A name is refused when it is blank, when it is longer than 64 characters tidied, or for a comma. */
  lemma {:induction false} NameFaults(name: string)
    ensures NormalizeTagName(name) == "" <==> Blank(name)
    ensures TagNameError(name) ==
            if Blank(name) then Some(NameRequired)
            else if |NormalizeTagName(name)| > 64 then Some(NameTooLong)
            else if ',' in name then Some(NameHasComma)
            else None
  {
    BlankIsEmpty(name);
    CommaStays(name);
  }

  lemma {:induction false} BlankIsEmpty(name: string)
    ensures NormalizeTagName(name) == "" <==> Blank(name)
  {
    hide IsSpace, Trim;
    var a, b := TrimTakesSpace(name);
    TrimIsExact(name);
    var t := Trim(name);
    if t == "" {
      assert name == a + b;
    } else {
      assert name[|a|] == t[0];
      CollapseIsTidy(t);
    }
  }

  lemma {:induction false} CollapseKeeps(s: string, c: char)
    requires !IsSpace(c)
    ensures c in Collapse(s) <==> c in s
    decreases |s|
  {
    SpaceIsSpace();
    hide IsSpace;
    if s != "" {
      assert s == [s[0]] + s[1..];
      CollapseKeeps(s[1..], c);
    }
  }

  lemma {:induction false} CommaStays(name: string)
    ensures ',' in NormalizeTagName(name) <==> ',' in name
  {
    assert !IsSpace(',');
    hide IsSpace, Trim;
    CollapseKeeps(Trim(name), ',');
    var a, b := TrimTakesSpace(name);
    assert ',' !in a && ',' !in b;
  }

  // ----- the tag a cell names

  ghost predicate OneNameEach(fold: CaseFold, reg: seq<Tag>) {
    forall i, j :: 0 <= i < j < |reg| ==> !SameName(fold, reg[i].name, reg[j].name)
  }

  /** Tag `i` is the one the cell names. */
  ghost predicate Names(fold: CaseFold, reg: seq<Tag>, cell: string, i: nat) {
    i < |reg| && SameName(fold, reg[i].name, cell)
  }

  lemma {:induction false} FindsNamed(fold: CaseFold, reg: seq<Tag>, cell: string)
    requires OneNameEach(fold, reg)
    ensures var i := Find(fold, reg, TagKey(fold, cell));
            && (i < |reg| ==> Names(fold, reg, cell, i))
            && (forall j: nat :: Names(fold, reg, cell, j) ==> j == i)
  {
    hide TagKey, SameName, NormalizeTagName;
    var i := Find(fold, reg, TagKey(fold, cell));
    forall j: nat | j < |reg|
      ensures KeyAt(fold, reg, j) == TagKey(fold, cell) <==> Names(fold, reg, cell, j)
    {
      SameKeyIsSameName(fold, reg[j].name, cell);
    }
    if i < |reg| {
      forall j: nat | Names(fold, reg, cell, j)
        ensures j == i
      {
        SameKeyIsSameName(fold, reg[i].name, reg[j].name);
        SameKeyIsSameName(fold, reg[j].name, reg[i].name);
      }
    }
  }

  // ----- what a row does

  /**
    * A row whose second cell is blank or missing: an unusable name is refused, a name that is there, however it is
    * spelled, changes nothing and is answered with the stored spelling, and any other is created as tidied.
    */
  lemma {:induction false} OneColumnRow(fold: CaseFold, reg: seq<Tag>, used: set<string>, line: nat, cells: seq<string>)
    requires OneNameEach(fold, reg) && cells != [] && (|cells| == 1 || Blank(cells[1]))
    ensures var action := ReadRow(fold, reg, used, line, cells);
            && (TagNameError(cells[0]).Some? ==>
                  action == Error(line, JoinCells(cells), BadName(TagNameError(cells[0]).value)))
            && (forall i: nat :: TagNameError(cells[0]).None? && Names(fold, reg, cells[0], i) ==>
                  action == Unchanged(line, reg[i].name))
            && (TagNameError(cells[0]).None? && (forall i: nat :: !Names(fold, reg, cells[0], i)) ==>
                  action == Create(line, NormalizeTagName(cells[0])))
  {
    var from, to := NormalizeTagName(cells[0]), NormalizeTagName(Cell(cells, 1));
    EmptyCell(cells);
    NormalizeIdempotent(fold, cells[0]);
    FindsNamed(fold, reg, cells[0]);
    hide TagKey, NormalizeTagName, TagNameError, JoinCells, Names, Find;
  }

  lemma {:induction false} EmptyCell(cells: seq<string>)
    ensures NormalizeTagName(Cell(cells, 1)) == "" <==> |cells| <= 1 || Blank(cells[1])
  {
    BlankIsEmpty(Cell(cells, 1));
  }

  /**
    * A row with two names: the first must be there and not renamed by the file before, the second usable. It renames
    * the tag, merges it into the tag that the second name names, or, when that is the stored spelling, changes nothing.
    */
  lemma {:induction false} TwoColumnRow(
      fold: CaseFold, reg: seq<Tag>, used: set<string>, line: nat, cells: seq<string>, i: nat, j: nat)
    requires OneNameEach(fold, reg) && |cells| >= 2 && !Blank(cells[0]) && TagNameError(cells[1]).None?
    requires Names(fold, reg, cells[0], i) && !(reg[i].id.Stored? && reg[i].id.id in used)
    ensures var action, to := ReadRow(fold, reg, used, line, cells), NormalizeTagName(cells[1]);
            && (reg[i].name == to ==> action == Unchanged(line, to))
            && (reg[i].name != to && Names(fold, reg, cells[1], j) && i != j ==>
                  action == Merge(line, reg[i].name, reg[j].name))
            && (reg[i].name != to && (forall k: nat :: Names(fold, reg, cells[1], k) ==> k == i) ==>
                  action == Rename(line, reg[i].name, to))
  {
    TwoCells(fold, reg, cells);
    hide TagKey, NormalizeTagName, TagNameError, JoinCells, Names, Find, SameName;
    if reg[i].name == NormalizeTagName(cells[1]) {
      NormalizeIdempotent(fold, cells[1]);
    }
  }

  lemma {:induction false} TwoCells(fold: CaseFold, reg: seq<Tag>, cells: seq<string>)
    requires OneNameEach(fold, reg) && |cells| >= 2 && !Blank(cells[0]) && TagNameError(cells[1]).None?
    ensures var from, to := NormalizeTagName(Cell(cells, 0)), NormalizeTagName(Cell(cells, 1));
            && from != "" && to == NormalizeTagName(cells[1]) && to != "" && TagNameError(to).None?
            && var i, j := Find(fold, reg, TagKey(fold, from)), Find(fold, reg, TagKey(fold, to));
               && (forall k: nat :: Names(fold, reg, cells[0], k) ==> k == i)
               && (forall k: nat :: Names(fold, reg, cells[1], k) ==> k == j)
               && (j < |reg| ==> Names(fold, reg, cells[1], j))
  {
    BlankIsEmpty(cells[0]);
    NameFaults(cells[1]);
    NormalizeIdempotent(fold, cells[0]);
    NormalizeIdempotent(fold, cells[1]);
    FindsNamed(fold, reg, cells[0]);
    FindsNamed(fold, reg, cells[1]);
  }

  /** The refusals of a row with a second name, in the order they are looked for. */
  lemma {:induction false} TwoColumnRefusals(
      fold: CaseFold, reg: seq<Tag>, used: set<string>, line: nat, cells: seq<string>)
    requires OneNameEach(fold, reg) && |cells| >= 2 && !Blank(cells[1])
    ensures var action, input := ReadRow(fold, reg, used, line, cells), JoinCells(cells);
            if Blank(cells[0]) then action == Error(line, input, MissingSource)
            else if TagNameError(cells[1]).Some? then
              action == Error(line, input, BadName(TagNameError(cells[1]).value))
            else if forall i: nat :: !Names(fold, reg, cells[0], i) then action == Error(line, input, NoSuchTag)
            else if exists i: nat :: Names(fold, reg, cells[0], i) && reg[i].id.Stored? && reg[i].id.id in used then
              action == Error(line, input, AlreadyRenamed)
            else !action.Error?
  {
    BlankIsEmpty(cells[0]);
    BlankIsEmpty(cells[1]);
    NormalizeIdempotent(fold, cells[0]);
    NormalizeIdempotent(fold, cells[1]);
    FindsNamed(fold, reg, cells[0]);
    hide TagKey, NormalizeTagName, TagNameError, JoinCells, Names, SameName, Blank;
  }

  lemma {:induction false} AlreadyTidy(name: string)
    requires forall i :: 0 <= i < |name| ==> !IsSpace(name[i])
    ensures NormalizeTagName(name) == name
  {
    TrimIsExact(name);
    CollapseTidy(name);
  }

  lemma {:induction false} WebIsWeb(fold: CaseFold)
    requires fold('W') == fold('w')
    ensures SameName(fold, "Web", "web")
  {
    AlreadyTidy("Web");
    AlreadyTidy("web");
    hide IsSpace, NormalizeTagName;
    var s, t := "Web", "web";
    assert s[1] == t[1] && s[2] == t[2];
  }

  lemma {:induction false} WebIsUsable()
    ensures TagNameError("web") == None
  {
    AlreadyTidy("web");
    hide NormalizeTagName, TagNameError;
    NameFaults("web");
    var name := "web";
    assert name[0] == 'w' && !IsSpace('w');
    assert forall i :: 0 <= i < |name| ==> name[i] != ',';
  }

  /** The tag `Web` and the row `web`: already there, under its stored spelling. */
  lemma {:induction false} RespelledTagIsThere(fold: CaseFold, id: TagId, line: nat)
    requires fold('W') == fold('w')
    ensures ReadRow(fold, [Tag(id, "Web")], {}, line, ["web"]) == Unchanged(line, "Web")
  {
    hide SameName, TagNameError, NormalizeTagName, ReadRow;
    WebIsWeb(fold);
    WebIsUsable();
    var reg := [Tag(id, "Web")];
    assert Names(fold, reg, "web", 0);
    hide Names;
    OneColumnRow(fold, reg, {}, line, ["web"]);
  }

  // ----- which first rows are headings

  /** The cell's text without case and outer white space. */
  function Heading(fold: CaseFold, cell: string): string {
    var t := Trim(cell);
    seq(|t|, i requires 0 <= i < |t| => fold(t[i]))
  }

  lemma {:induction false} BlankTrims(s: string)
    ensures Trim(s) == "" <==> Blank(s)
  {
    hide IsSpace, Trim;
    var a, b := TrimTakesSpace(s);
    TrimIsExact(s);
    if Trim(s) == "" {
      assert s == a + b;
    } else {
      assert s[|a|] == Trim(s)[0];
    }
  }

  /** The cells that are not blank, in order. */
  ghost function FilledCells(cells: seq<string>): seq<string> {
    if cells == [] then []
    else FilledCells(cells[..|cells| - 1]) + if Blank(cells[|cells| - 1]) then [] else [cells[|cells| - 1]]
  }

  lemma {:induction false} FilledCons(cell: string, cells: seq<string>)
    ensures FilledCells([cell] + cells) == (if Blank(cell) then [] else [cell]) + FilledCells(cells)
    decreases |cells|
  {
    hide Blank;
    if cells == [] {
      assert [cell] + cells == [cell] && [cell][..0] == [];
    } else {
      assert ([cell] + cells)[..|cells|] == [cell] + cells[..|cells| - 1];
      FilledCons(cell, cells[..|cells| - 1]);
    }
  }

  ghost function Headings(fold: CaseFold, cells: seq<string>): seq<string> {
    seq(|cells|, i requires 0 <= i < |cells| => Heading(fold, cells[i]))
  }

  lemma {:induction false} HeaderValuesAre(fold: CaseFold, cells: seq<string>)
    ensures HeaderValues(fold, cells) == Headings(fold, FilledCells(cells))
  {
    hide IsSpace, Trim, Blank;
    if cells != [] {
      HeaderValuesAre(fold, cells[1..]);
      BlankTrims(cells[0]);
      assert cells == [cells[0]] + cells[1..];
      FilledCons(cells[0], cells[1..]);
      var rest := FilledCells(cells[1..]);
      hide FilledCells;
      if Trim(cells[0]) != "" {
        assert Headings(fold, [cells[0]] + rest) == [Heading(fold, cells[0])] + Headings(fold, rest);
      } else {
        assert [] + rest == rest && [] + Headings(fold, rest) == Headings(fold, rest);
      }
    }
  }

  /** One filled cell is a heading only for six words that say what a column is; several, when each is a known one. */
  lemma {:induction false} HeaderExactly(fold: CaseFold, cells: seq<string>)
    ensures var filled := FilledCells(cells);
            LooksLikeHeader(fold, cells) <==>
              && filled != []
              && if |filled| == 1
                 then Heading(fold, filled[0]) in {"tag", "tags", "name", "names", "tag name", "tag names"}
                 else forall cell :: cell in filled ==>
                        Heading(fold, cell) in {
                          "tag", "tags", "name", "names", "tag name", "existing", "existing tag", "existing name",
                          "current", "current tag", "current name", "old", "old tag", "old name", "from", "new",
                          "new tag", "new name", "replacement", "rename to", "to"}
  {
    HeaderValuesAre(fold, cells);
    hide Heading, HeaderValues, FilledCells;
    var filled, values := FilledCells(cells), HeaderValues(fold, cells);
    forall cell | cell in filled
      ensures Heading(fold, cell) in values
    {
      var i :| 0 <= i < |filled| && filled[i] == cell;
      assert values[i] == Heading(fold, cell);
    }
    forall v | v in values
      ensures exists cell :: cell in filled && Heading(fold, cell) == v
    {
      var i :| 0 <= i < |values| && values[i] == v;
      assert filled[i] in filled;
    }
  }

  // ----- what a refusal quotes

  /** The cells of a refused row are quoted with commas between them. */
  lemma {:induction false} CellsAreJoined(cells: seq<string>, last: string)
    ensures JoinCells([last]) == last
    ensures cells != [] ==> JoinCells(cells + [last]) == JoinCells(cells) + "," + last
    decreases |cells|
  {
    if |cells| > 1 {
      assert (cells + [last])[1..] == cells[1..] + [last];
      CellsAreJoined(cells[1..], last);
    } else if |cells| == 1 {
      assert (cells + [last])[1..] == [last];
    }
  }
}
