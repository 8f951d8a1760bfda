/** Tag names: how they are tidied, compared and refused. */
module Tags {
  import opened Options
  import opened Text

  const TAG_NAME_MAX: nat := 64

  /** `toLowerCase`, as a fold of single characters. */
  type CaseFold = char -> char

  datatype Problem = NameRequired | NameTooLong | NameHasComma

  /** `replace(/\s+/g, " ")`: every run of white space becomes one space. */
  function Collapse(s: string): string {
    if s == "" then ""
    else if !IsSpace(s[0]) then [s[0]] + Collapse(s[1..])
    else if |s| > 1 && IsSpace(s[1]) then Collapse(s[1..])
    else " " + Collapse(s[1..])
  }

  function NormalizeTagName(name: string): string {
    Collapse(Trim(name))
  }

  function TagKey(fold: CaseFold, name: string): string {
    var n := NormalizeTagName(name);
    seq(|n|, i requires 0 <= i < |n| => fold(n[i]))
  }

  function TagNameError(name: string): Option<Problem> {
    var value := NormalizeTagName(name);
    if value == "" then Some(NameRequired)
    else if |value| > TAG_NAME_MAX then Some(NameTooLong)
    else if ',' in value then Some(NameHasComma)
    else None
  }

  // ----- a tidied name stays as it is

  ghost predicate SingleSpaced(s: string) {
    forall i :: 0 <= i < |s| && IsSpace(s[i]) ==> s[i] == ' ' && (i + 1 < |s| ==> !IsSpace(s[i + 1]))
  }

  /** White space only as single spaces, and none at either end. */
  ghost predicate Tidy(s: string) {
    NoSpaceAtEnds(s) && SingleSpaced(s)
  }

  lemma {:induction false} CollapseStep(s: string)
    requires |s| > 1
    ensures !IsSpace(s[0]) ==> Collapse(s) == [s[0]] + Collapse(s[1..])
    ensures IsSpace(s[0]) ==> Collapse(s) == (if IsSpace(s[1]) then "" else " ") + Collapse(s[1..])
  {
    hide IsSpace;
    assert "" + Collapse(s[1..]) == Collapse(s[1..]);
  }

  lemma {:induction false} OneMoreCharacter(c: char, s: string)
    requires SingleSpaced(s) && (IsSpace(c) ==> c == ' ' && (s != "" ==> !IsSpace(s[0])))
    ensures SingleSpaced([c] + s)
  {
    hide IsSpace;
    forall i | 0 <= i < |[c] + s| && IsSpace(([c] + s)[i])
      ensures ([c] + s)[i] == ' ' && (i + 1 < |[c] + s| ==> !IsSpace(([c] + s)[i + 1]))
    {
      if i > 0 {
        assert ([c] + s)[i] == s[i - 1];
      }
    }
  }

  /** Collapsing keeps the ends, so a trimmed name collapses to a tidy one. */
  lemma {:induction false} CollapseIsTidy(s: string)
    requires s != "" && !IsSpace(s[|s| - 1])
    ensures var c := Collapse(s);
            c != "" && !IsSpace(c[|c| - 1]) && c[0] == (if IsSpace(s[0]) then ' ' else s[0]) && SingleSpaced(c)
    decreases |s|
  {
    if |s| > 1 {
      SpaceIsSpace();
      hide IsSpace, Collapse, SingleSpaced;
      CollapseIsTidy(s[1..]);
      CollapseStep(s);
      var c := Collapse(s[1..]);
      assert "" + c == c;
      if !IsSpace(s[0]) || !IsSpace(s[1]) {
        OneMoreCharacter(if IsSpace(s[0]) then ' ' else s[0], c);
      }
    } else {
      assert Collapse(s[1..]) == "";
    }
  }

  lemma {:induction false} SpaceIsSpace()
    ensures IsSpace(' ')
  {
  }

  lemma {:induction false} NormalizedIsTidy(name: string)
    ensures Tidy(NormalizeTagName(name))
  {
    TrimIsExact(name);
    if Trim(name) != "" {
      CollapseIsTidy(Trim(name));
    }
  }

  lemma {:induction false} CollapseTidy(s: string)
    requires SingleSpaced(s)
    ensures Collapse(s) == s
    decreases |s|
  {
    if s != "" {
      assert s == [s[0]] + s[1..];
      CollapseTidy(s[1..]);
    }
  }

  /** Tidying twice is tidying once; so a stored name has the key of the spelling it came from. */
  lemma {:induction false} NormalizeIdempotent(fold: CaseFold, name: string)
    ensures NormalizeTagName(NormalizeTagName(name)) == NormalizeTagName(name)
    ensures TagKey(fold, NormalizeTagName(name)) == TagKey(fold, name)
    ensures TagNameError(NormalizeTagName(name)) == TagNameError(name)
  {
    var n := NormalizeTagName(name);
    NormalizedIsTidy(name);
    TrimIsExact(n);
    CollapseTidy(n);
  }

  // ----- what a tidied name is

  /** The runs of characters that are not white space. */
  function Words(s: string): (words: seq<string>)
    ensures s != "" && !IsSpace(s[0]) ==> words != []
  {
    if s == "" then []
    else if IsSpace(s[0]) then Words(s[1..])
    else
      var rest := Words(s[1..]);
      if |s| == 1 || IsSpace(s[1]) then [[s[0]]] + rest else [[s[0]] + rest[0]] + rest[1..]
  }

  function Joined(words: seq<string>): string {
    if words == [] then "" else if |words| == 1 then words[0] else words[0] + " " + Joined(words[1..])
  }

  lemma {:induction false} JoinedLonger(c: char, words: seq<string>)
    requires words != []
    ensures Joined([[c] + words[0]] + words[1..]) == [c] + Joined(words)
    ensures Joined([[c]] + words) == [c] + " " + Joined(words)
  {
    assert ([[c] + words[0]] + words[1..])[1..] == words[1..];
    assert ([[c]] + words)[1..] == words;
  }

  /** Past its leading white space, text that ends in a word collapses to its words with single spaces between. */
  lemma {:induction false} CollapseJoinsWords(s: string)
    requires s != "" && !IsSpace(s[|s| - 1])
    ensures Words(s) != [] && Collapse(s) == (if IsSpace(s[0]) then " " else "") + Joined(Words(s))
    decreases |s|
  {
    if |s| > 1 {
      hide IsSpace, Words, Collapse, Joined;
      var rest := Words(s[1..]);
      CollapseJoinsWords(s[1..]);
      WordsStep(s);
      CollapseStep(s);
      JoinedLonger(s[0], rest);
      if !IsSpace(s[0]) && IsSpace(s[1]) {
        assert [s[0]] + (" " + Joined(rest)) == [s[0]] + " " + Joined(rest);
      }
    } else {
      assert s[1..] == "" && Collapse(s[1..]) == "" && Words(s[1..]) == [];
    }
  }

  lemma {:induction false} WordsStep(s: string)
    requires |s| > 1
    ensures IsSpace(s[0]) ==> Words(s) == Words(s[1..])
    ensures !IsSpace(s[0]) && IsSpace(s[1]) ==> Words(s) == [[s[0]]] + Words(s[1..])
    ensures !IsSpace(s[0]) && !IsSpace(s[1]) ==>
              Words(s[1..]) != [] && Words(s) == [[s[0]] + Words(s[1..])[0]] + Words(s[1..])[1..]
  {
    hide IsSpace;
    assert s[1..][0] == s[1];
  }

  lemma {:induction false} WordsSkipSpace(a: string, s: string)
    requires AllSpace(a)
    ensures Words(a + s) == Words(s)
    decreases |a|
  {
    hide IsSpace;
    if a == "" {
      assert a + s == s;
    } else {
      assert (a + s)[1..] == a[1..] + s;
      WordsSkipSpace(a[1..], s);
    }
  }

  lemma {:induction false} WordsBeforeSpace(s: string, b: string)
    requires AllSpace(b)
    ensures Words(s + b) == Words(s)
    decreases |s|
  {
    hide IsSpace;
    if s == "" {
      WordsSkipSpace(b, "");
      assert s + b == b + "";
    } else {
      assert (s + b)[1..] == s[1..] + b;
      WordsBeforeSpace(s[1..], b);
    }
  }

  /** A tidied name is the name's words, in order, with one space between: spelling and casing are kept. */
  lemma {:induction false} NormalizeJoinsWords(name: string)
    ensures NormalizeTagName(name) == Joined(Words(name))
  {
    hide IsSpace, Trim, Words;
    var a, b := TrimTakesSpace(name);
    assert name == a + (Trim(name) + b);
    WordsSkipSpace(a, Trim(name) + b);
    WordsBeforeSpace(Trim(name), b);
    TrimIsExact(name);
    if Trim(name) == "" {
      NoWords();
    } else {
      CollapseJoinsWords(Trim(name));
    }
  }

  lemma {:induction false} NoWords()
    ensures Words("") == [] && Collapse("") == ""
  {
  }
}
