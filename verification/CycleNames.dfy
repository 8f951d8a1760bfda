/** Cycle names: filling a template, and finding the number a new run should start at. */
module CycleNames {
  import opened Options
  import opened Digits
  import Text

  const TOKEN := "{n}"

  predicate AtToken(template: string)
    ensures AtToken(template) ==> |template| >= |TOKEN|
  {
    TOKEN <= template
  }

  /** `template.includes("{n}")` */
  predicate HasToken(template: string) {
    template != "" && (AtToken(template) || HasToken(template[1..]))
  }

  /** `template.replaceAll("{n}", digits)` */
  function ReplaceToken(template: string, digits: string): string {
    if template == "" then ""
    else if AtToken(template) then digits + ReplaceToken(template[|TOKEN|..], digits)
    else [template[0]] + ReplaceToken(template[1..], digits)
  }

  /** `template.split("{n}")`: the literal text around the tokens. */
  function Literals(template: string): (parts: seq<string>)
    ensures parts != []
  {
    if template == "" then [""]
    else if AtToken(template) then [""] + Literals(template[|TOKEN|..])
    else
      var rest := Literals(template[1..]);
      [[template[0]] + rest[0]] + rest[1..]
  }

  function Fill(parts: seq<string>, digits: string): string
    requires parts != []
  {
    if |parts| == 1 then parts[0] else parts[0] + digits + Fill(parts[1..], digits)
  }

  function NameAt(template: string, n: nat): string {
    ReplaceToken(template, Decimal(n))
  }

  /** Replacing every token is splitting at them and filling the gaps. */
  lemma {:induction false} ReplacingIsFilling(template: string, digits: string)
    ensures ReplaceToken(template, digits) == Fill(Literals(template), digits)
    ensures HasToken(template) <==> |Literals(template)| >= 2
    decreases |template|
  {
    if template != "" {
      hide Fill, Literals, ReplaceToken, HasToken, AtToken;
      if AtToken(template) {
        ReplacingIsFilling(template[|TOKEN|..], digits);
        TokenStep(template, digits);
      } else {
        ReplacingIsFilling(template[1..], digits);
        CharacterStep(template, digits);
      }
    }
  }

  lemma {:induction false} TokenStep(template: string, digits: string)
    requires AtToken(template)
    requires ReplaceToken(template[|TOKEN|..], digits) == Fill(Literals(template[|TOKEN|..]), digits)
    ensures ReplaceToken(template, digits) == Fill(Literals(template), digits)
    ensures HasToken(template) && |Literals(template)| >= 2
  {
    hide Fill, AtToken;
    FillTail("", Literals(template[|TOKEN|..]), digits);
  }

  lemma {:induction false} CharacterStep(template: string, digits: string)
    requires template != "" && !AtToken(template)
    requires ReplaceToken(template[1..], digits) == Fill(Literals(template[1..]), digits)
    ensures ReplaceToken(template, digits) == Fill(Literals(template), digits)
    ensures HasToken(template) <==> HasToken(template[1..])
    ensures |Literals(template)| == |Literals(template[1..])|
  {
    hide Fill, AtToken;
    FillHead(template[0], Literals(template[1..]), digits);
  }

  lemma {:induction false} FillTail(literal: string, parts: seq<string>, digits: string)
    requires parts != []
    ensures Fill([literal] + parts, digits) == literal + digits + Fill(parts, digits)
  {
    assert ([literal] + parts)[1..] == parts;
  }

  lemma {:induction false} FillHead(c: char, parts: seq<string>, digits: string)
    requires parts != []
    ensures Fill([[c] + parts[0]] + parts[1..], digits) == [c] + Fill(parts, digits)
  {
    var headed := [[c] + parts[0]] + parts[1..];
    assert headed[1..] == parts[1..];
    if |parts| > 1 {
      assert [c] + (parts[0] + digits + Fill(parts[1..], digits)) == [c] + parts[0] + digits + Fill(parts[1..], digits);
    }
  }

  // ----- the pattern built from a template: the literals with `(\d+)` between them, anchored at both ends

  /** How many leading characters are digits: the furthest `\d+` can reach. */
  function DigitRun(s: string): (k: nat)
    ensures k <= |s| && (forall j :: 0 <= j < k ==> IsDigit(s[j]))
    ensures k < |s| ==> !IsDigit(s[k])
  {
    if s == "" || !IsDigit(s[0]) then 0 else 1 + DigitRun(s[1..])
  }

  /** The captures of a match against the whole of `s`, as a backtracking matcher finds them. */
  function Captures(parts: seq<string>, s: string): (captures: Option<seq<string>>)
    requires parts != []
    ensures captures.Some? ==> |captures.value| == |parts| - 1 && forall c <- captures.value :: AllDigits(c)
    decreases |parts|, 0, 0
  {
    if !(parts[0] <= s) then None
    else
      var rest := s[|parts[0]|..];
      if |parts| == 1 then (if rest == "" then Some([]) else None)
      else Backtrack(parts[1..], rest, DigitRun(rest))
  }

  /** Give `\d+` its longest run first, then one digit less, down to a single digit. */
  function Backtrack(parts: seq<string>, rest: string, k: nat): (captures: Option<seq<string>>)
    requires parts != [] && k <= |rest| && AllDigits(rest[..k])
    ensures captures.Some? ==> |captures.value| == |parts| && forall c <- captures.value :: AllDigits(c)
    decreases |parts|, 1, k
  {
    if k == 0 then None
    else
      match Captures(parts, rest[k..])
      case Some(more) => Some([rest[..k]] + more)
      case None =>
        assert rest[..k - 1] == rest[..k][..k - 1];
        Backtrack(parts, rest, k - 1)
  }

  /** The number a name carries under a template, if it matches. */
  function NumberIn(template: string, name: string): Option<nat>
    requires HasToken(template)
  {
    ReplacingIsFilling(template, "");
    match Captures(Literals(template), Text.Trim(name))
    case None => None
    case Some(captures) => Some(Value(captures[0]))
  }

  /** One past the highest number in use, and 1 when there is none. */
  ghost predicate IsNext(names: seq<string>, template: string, next: nat) {
    if !HasToken(template) then next == 1
    else
      && next >= 1
      && (forall name <- names :: NumberIn(template, name).Some? ==> NumberIn(template, name).value < next)
      && (next == 1 || exists name <- names :: NumberIn(template, name) == Some(next - 1))
  }

  lemma {:induction false} NextIsUnique(names: seq<string>, template: string, a: nat, b: nat)
    requires IsNext(names, template, a) && IsNext(names, template, b)
    ensures a == b
  {
    hide NumberIn, HasToken;
  }

  method NextCycleNumber(existingNames: seq<string>, nameTemplate: string) returns (next: nat)
    ensures IsNext(existingNames, nameTemplate, next)
  {
    hide NumberIn, HasToken;
    if !HasToken(nameTemplate) {
      return 1;
    }
    var highest := 0;
    for i := 0 to |existingNames|
      invariant forall name <- existingNames[..i] ::
                  NumberIn(nameTemplate, name).Some? ==> NumberIn(nameTemplate, name).value <= highest
      invariant highest == 0 || exists name <- existingNames :: NumberIn(nameTemplate, name) == Some(highest)
    {
      assert existingNames[..i + 1] == existingNames[..i] + [existingNames[i]];
      match NumberIn(nameTemplate, existingNames[i])
      case None =>
      case Some(n) =>
        if n > highest {
          highest := n;
        }
    }
    assert existingNames[..|existingNames|] == existingNames;
    next := highest + 1;
  }

  // ----- what a filled template captures

  /** The first, greedy capture of a filled template starts with the digits it was filled with. */
  lemma {:induction false} FirstCaptureCovers(parts: seq<string>, digits: string)
    requires parts != [] && digits != "" && AllDigits(digits)
    ensures var captures := Captures(parts, Fill(parts, digits));
            captures.Some? && (|parts| >= 2 ==> digits <= captures.value[0])
    decreases |parts|
  {
    var s := Fill(parts, digits);
    var rest := s[|parts[0]|..];
    if |parts| >= 2 {
      var tail := Fill(parts[1..], digits);
      assert s == parts[0] + (digits + tail);
      assert rest == digits + tail;
      FirstCaptureCovers(parts[1..], digits);
      assert rest[..|digits|] == digits;
      assert |digits| <= DigitRun(rest);
      BacktrackCovers(parts[1..], rest, DigitRun(rest), digits);
    }
  }

  lemma {:induction false} BacktrackCovers(parts: seq<string>, rest: string, k: nat, digits: string)
    requires parts != [] && |digits| <= k <= |rest| && AllDigits(rest[..k])
    requires digits != "" && digits <= rest && Captures(parts, rest[|digits|..]).Some?
    ensures Backtrack(parts, rest, k).Some? && digits <= Backtrack(parts, rest, k).value[0]
    decreases k
  {
    if Captures(parts, rest[k..]) == None {
      assert rest[..k - 1] == rest[..k][..k - 1];
      BacktrackCovers(parts, rest, k - 1, digits);
    }
  }

  /** A longer number makes a longer name, whatever the literals hold. */
  lemma {:induction false} LongerFill(parts: seq<string>, d: string, e: string)
    requires parts != [] && |d| < |e|
    ensures |Fill(parts, d)| <= |Fill(parts, e)|
    ensures |parts| >= 2 ==> |Fill(parts, d)| < |Fill(parts, e)|
    decreases |parts|
  {
    if |parts| >= 2 {
      LongerFill(parts[1..], d, e);
    }
  }

  lemma {:induction false} SameLengthFill(parts: seq<string>, d: string, e: string)
    requires |parts| >= 2 && |d| == |e| && Fill(parts, d) == Fill(parts, e)
    ensures d == e
  {
    var s, p := Fill(parts, d), |parts[0]|;
    assert s == parts[0] + (d + Fill(parts[1..], d)) && s == parts[0] + (e + Fill(parts[1..], e));
    hide Fill;
    assert s[p..][..|d|] == d && s[p..][..|e|] == e;
  }

  /** Different numbers give different names. */
  lemma {:induction false} NamesAreDistinct(template: string, m: nat, n: nat)
    requires HasToken(template) && m != n
    ensures NameAt(template, m) != NameAt(template, n)
  {
    hide Literals, Fill, HasToken, ReplaceToken, AllDigits;
    var parts, d, e := Literals(template), Decimal(m), Decimal(n);
    ReplacingIsFilling(template, d);
    ReplacingIsFilling(template, e);
    if |d| < |e| {
      LongerFill(parts, d, e);
    } else if |e| < |d| {
      LongerFill(parts, e, d);
    } else if Fill(parts, d) == Fill(parts, e) {
      SameLengthFill(parts, d, e);
    }
  }

  // ----- white space around a template

  /** A literal puts white space at an end of every name. */
  predicate Ragged(parts: seq<string>)
    requires parts != []
  {
    var last := parts[|parts| - 1];
    (parts[0] != "" && Text.IsSpace(parts[0][0])) || (last != "" && Text.IsSpace(last[|last| - 1]))
  }

  predicate EndsWith(s: string, end: string) {
    |end| <= |s| && s[|s| - |end|..] == end
  }

  lemma {:induction false} FillEndsInLastLiteral(parts: seq<string>, filler: string)
    requires |parts| >= 2 && filler != ""
    ensures EndsWith(Fill(parts, filler), parts[|parts| - 1])
    ensures parts[|parts| - 1] == "" ==> EndsWith(Fill(parts, filler), filler)
    ensures parts[0] != "" ==> parts[0] <= Fill(parts, filler)
    ensures parts[0] == "" ==> filler <= Fill(parts, filler)
    decreases |parts|
  {
    var s, tail := Fill(parts, filler), Fill(parts[1..], filler);
    assert s == parts[0] + (filler + tail);
    if |parts| > 2 {
      FillEndsInLastLiteral(parts[1..], filler);
    }
  }

  lemma {:induction false} FillIsRagged(parts: seq<string>, filler: string)
    requires |parts| >= 2 && filler != "" && Text.NoSpaceAtEnds(filler)
    ensures Text.NoSpaceAtEnds(Fill(parts, filler)) <==> !Ragged(parts)
  {
    hide Text.IsSpace, Fill;
    FillEndsInLastLiteral(parts, filler);
    var s, last := Fill(parts, filler), parts[|parts| - 1];
    if last == "" {
      assert s[|s| - 1] == filler[|filler| - 1];
    } else {
      assert s[|s| - 1] == last[|last| - 1];
    }
  }

  lemma {:induction false} RefillIsTemplate(template: string)
    ensures ReplaceToken(template, TOKEN) == template
    decreases |template|
  {
    if template == "" {
    } else if AtToken(template) {
      RefillIsTemplate(template[|TOKEN|..]);
    } else {
      RefillIsTemplate(template[1..]);
    }
  }

  lemma {:induction false} DigitsAreClean(digits: string)
    requires AllDigits(digits)
    ensures Text.NoSpaceAtEnds(digits)
  {
  }

  /** A name has white space at an end exactly when its template has. */
  lemma {:induction false} NameIsTrimmed(template: string, n: nat)
    requires HasToken(template)
    ensures Text.NoSpaceAtEnds(NameAt(template, n)) <==> Text.Trim(template) == template
    ensures Text.Trim(template) == template <==> !Ragged(Literals(template))
  {
    hide Text.IsSpace, Text.Trim, Ragged, Literals, Fill, HasToken, AllDigits;
    ReplacingIsFilling(template, TOKEN);
    ReplacingIsFilling(template, Decimal(n));
    RefillIsTemplate(template);
    TokenIsClean();
    DigitsAreClean(Decimal(n));
    FillIsRagged(Literals(template), TOKEN);
    FillIsRagged(Literals(template), Decimal(n));
    Text.TrimIsExact(template);
  }

  lemma {:induction false} TokenIsClean()
    ensures Text.NoSpaceAtEnds(TOKEN)
  {
  }

  /** A match spells the outer literals at its ends. */
  lemma {:induction false} MatchKeepsEnds(parts: seq<string>, s: string)
    requires parts != [] && Captures(parts, s).Some?
    ensures parts[0] <= s && EndsWith(s, parts[|parts| - 1])
    decreases |parts|, 0, 0
  {
    if |parts| > 1 {
      var rest := s[|parts[0]|..];
      BacktrackKeepsEnd(parts[1..], rest, DigitRun(rest));
    }
  }

  lemma {:induction false} BacktrackKeepsEnd(parts: seq<string>, rest: string, k: nat)
    requires parts != [] && k <= |rest| && AllDigits(rest[..k]) && Backtrack(parts, rest, k).Some?
    ensures EndsWith(rest, parts[|parts| - 1])
    decreases |parts|, 1, k
  {
    if Captures(parts, rest[k..]).Some? {
      MatchKeepsEnds(parts, rest[k..]);
    } else {
      assert rest[..k - 1] == rest[..k][..k - 1];
      BacktrackKeepsEnd(parts, rest, k - 1);
    }
  }

  lemma {:induction false} TrimmedMatch(parts: seq<string>, s: string)
    requires parts != [] && Text.NoSpaceAtEnds(s) && Captures(parts, s).Some?
    ensures !Ragged(parts)
  {
    hide Text.IsSpace, Captures;
    MatchKeepsEnds(parts, s);
    var last := parts[|parts| - 1];
    if last != "" {
      assert s[|s| - 1] == last[|last| - 1];
    }
  }

  // ----- fresh names

  /** No name from `next` on is in use, with or without white space around it. */
  ghost predicate FreshFrom(names: seq<string>, template: string, next: nat) {
    forall name, n: nat :: name in names && n >= next ==>
      name != NameAt(template, n) && Text.Trim(name) != NameAt(template, n)
  }

  /** A name generated for `n` is read back as a number no smaller. */
  lemma {:induction false} GeneratedNumber(template: string, name: string, n: nat)
    requires HasToken(template) && Text.Trim(name) == NameAt(template, n)
    ensures NumberIn(template, name).Some? && n <= NumberIn(template, name).value
  {
    hide Text.Trim, HasToken, Literals, Fill, Captures;
    var parts, digits := Literals(template), Decimal(n);
    ReplacingIsFilling(template, digits);
    FirstCaptureCovers(parts, digits);
    var first := Captures(parts, Fill(parts, digits)).value[0];
    ValueOfPrefix(first, |digits|);
    assert first[..|digits|] == digits;
  }

  /** For a trimmed template, a run started at the next number reuses no name. */
  lemma {:induction false} NextIsFresh(names: seq<string>, template: string, next: nat)
    requires HasToken(template) && Text.Trim(template) == template && IsNext(names, template, next)
    ensures FreshFrom(names, template, next)
  {
    hide Text.Trim, HasToken, NumberIn, NameAt;
    forall name, n: nat | name in names && n >= next
      ensures name != NameAt(template, n) && Text.Trim(name) != NameAt(template, n)
    {
      NameIsTrimmed(template, n);
      Text.TrimIsExact(NameAt(template, n));
      if name == NameAt(template, n) || Text.Trim(name) == NameAt(template, n) {
        GeneratedNumber(template, name, n);
        assert false;
      }
    }
  }

  /** With white space around the template nothing is recognised, so the first name is handed out again. */
  lemma {:induction false} UntrimmedTemplateCollides(template: string)
    requires HasToken(template) && Text.Trim(template) != template
    ensures IsNext([NameAt(template, 1)], template, 1) && !FreshFrom([NameAt(template, 1)], template, 1)
  {
    hide Text.Trim, HasToken, Captures, Ragged, Literals, NameAt;
    var name := NameAt(template, 1);
    assert NumberIn(template, name) == None by {
      NameIsTrimmed(template, 1);
      ReplacingIsFilling(template, "");
      Text.TrimIsExact(name);
      if Captures(Literals(template), Text.Trim(name)).Some? {
        TrimmedMatch(Literals(template), Text.Trim(name));
      }
    }
    hide NumberIn;
    assert name in [name];
  }

  /** Continuing at the next number is safe whatever names are in use exactly when the template is trimmed. */
  lemma {:induction false} FreshExactlyWhenTrimmed(template: string)
    requires HasToken(template)
    ensures (forall names, next: nat :: IsNext(names, template, next) ==> FreshFrom(names, template, next))
            <==> Text.Trim(template) == template
  {
    hide Text.Trim, HasToken, NumberIn, NameAt, IsNext, FreshFrom;
    if Text.Trim(template) == template {
      forall names, next: nat | IsNext(names, template, next)
        ensures FreshFrom(names, template, next)
      {
        NextIsFresh(names, template, next);
      }
    } else {
      UntrimmedTemplateCollides(template);
    }
  }

  // ----- exactly which number a name carries

  /** The literals with a text of its own in every gap. */
  function Weave(parts: seq<string>, fillers: seq<string>): string
    requires parts != [] && |fillers| == |parts| - 1
    decreases |parts|
  {
    if |parts| == 1 then parts[0] else parts[0] + fillers[0] + Weave(parts[1..], fillers[1..])
  }

  /** `s` is the literals with runs of digits between them. */
  ghost predicate Woven(parts: seq<string>, fillers: seq<string>, s: string) {
    && parts != [] && |fillers| == |parts| - 1 && Weave(parts, fillers) == s
    && forall i :: 0 <= i < |fillers| ==> fillers[i] != "" && AllDigits(fillers[i])
  }

  lemma {:induction false} WovenTail(parts: seq<string>, fillers: seq<string>, s: string)
    requires |parts| >= 2 && Woven(parts, fillers, s)
    ensures var rest, n := s[|parts[0]|..], |fillers[0]|;
            && parts[0] <= s && 0 < n <= |rest| && rest[..n] == fillers[0] && n <= DigitRun(rest)
            && Woven(parts[1..], fillers[1..], rest[n..])
  {
    var tail := Weave(parts[1..], fillers[1..]);
    assert s == parts[0] + (fillers[0] + tail);
    assert s[|parts[0]|..] == fillers[0] + tail;
    RunCovers(fillers[0], tail);
  }

  lemma {:induction false} RunCovers(digits: string, tail: string)
    requires AllDigits(digits)
    ensures |digits| <= DigitRun(digits + tail)
  {
    assert forall k :: 0 <= k < |digits| ==> IsDigit((digits + tail)[k]);
  }

  lemma {:induction false} WovenCons(parts: seq<string>, first: string, more: seq<string>, s: string)
    requires |parts| >= 2 && parts[0] <= s && first != "" && AllDigits(first) && first <= s[|parts[0]|..]
    requires Woven(parts[1..], more, s[|parts[0]|..][|first|..])
    ensures Woven(parts, [first] + more, s)
  {
    assert ([first] + more)[1..] == more;
    var rest := s[|parts[0]|..];
    assert s == parts[0] + rest && rest == first + rest[|first|..];
  }

  /** A match is such a weave; there is one whenever there is a weave at all; and no weave has a longer first run. */
  lemma {:induction false} CapturesAreWoven(parts: seq<string>, s: string)
    requires parts != []
    ensures Captures(parts, s).Some? ==> Woven(parts, Captures(parts, s).value, s)
    ensures forall fillers :: Woven(parts, fillers, s) ==>
              && Captures(parts, s).Some?
              && (|parts| >= 2 ==> |fillers[0]| <= |Captures(parts, s).value[0]|)
    decreases |parts|, 0, 0
  {
    if parts[0] <= s && |parts| >= 2 {
      var rest := s[|parts[0]|..];
      BacktrackIsWoven(parts[1..], rest, DigitRun(rest));
      var found := Backtrack(parts[1..], rest, DigitRun(rest));
      if found.Some? {
        assert found.value == [found.value[0]] + found.value[1..];
        WovenCons(parts, found.value[0], found.value[1..], s);
      }
    }
    forall fillers | Woven(parts, fillers, s)
      ensures Captures(parts, s).Some? && (|parts| >= 2 ==> |fillers[0]| <= |Captures(parts, s).value[0]|)
    {
      if |parts| >= 2 {
        WovenTail(parts, fillers, s);
        var rest := s[|parts[0]|..];
        assert Splits(parts[1..], rest, DigitRun(rest), fillers[0], fillers[1..]);
      } else {
        assert s[|parts[0]|..] == "";
      }
    }
  }

  /** `first` begins `rest`, a run of at most `k` digits, and what follows it is woven from the rest of the literals. */
  ghost predicate Splits(parts: seq<string>, rest: string, k: nat, first: string, more: seq<string>) {
    && 0 < |first| <= k <= |rest| && first == rest[..|first|] && AllDigits(first)
    && Woven(parts, more, rest[|first|..])
  }

  lemma {:induction false} BacktrackIsWoven(parts: seq<string>, rest: string, k: nat)
    requires parts != [] && k <= |rest| && AllDigits(rest[..k])
    ensures var found := Backtrack(parts, rest, k);
            && (found.Some? ==> Splits(parts, rest, k, found.value[0], found.value[1..]))
            && forall first, more :: Splits(parts, rest, k, first, more) ==>
                 found.Some? && |first| <= |found.value[0]|
    decreases |parts|, 1, k
  {
    if k > 0 {
      CapturesAreWoven(parts, rest[k..]);
      assert rest[..k - 1] == rest[..k][..k - 1];
      var here := Captures(parts, rest[k..]);
      if here.Some? {
        assert ([rest[..k]] + here.value)[1..] == here.value;
      } else {
        BacktrackIsWoven(parts, rest, k - 1);
        forall first, more | Splits(parts, rest, k, first, more)
          ensures Splits(parts, rest, k - 1, first, more)
        {
        }
      }
    }
  }

  /** Of the ways to read `s` as literals and runs, the one with the longest first run. */
  ghost predicate LongestReading(parts: seq<string>, runs: seq<string>, s: string) {
    && |parts| >= 2 && Woven(parts, runs, s)
    && forall other :: Woven(parts, other, s) ==> |other[0]| <= |runs[0]|
  }

  /**
    * A name carries `n` exactly when, trimmed, it is the literals with runs of digits between them, the first run worth
    * `n`; where the digits allow several readings, the one with the longest first run.
    */
  lemma {:induction false} NumberIsRead(template: string, name: string, n: nat)
    requires HasToken(template)
    ensures NumberIn(template, name) == Some(n) <==>
              exists runs :: LongestReading(Literals(template), runs, Text.Trim(name)) && Value(runs[0]) == n
  {
    hide Text.Trim, Literals, HasToken;
    ReplacingIsFilling(template, "");
    var parts, s := Literals(template), Text.Trim(name);
    CapturesAreWoven(parts, s);
    if runs :| LongestReading(parts, runs, s) && Value(runs[0]) == n {
      var captures := Captures(parts, s).value;
      WovenTail(parts, runs, s);
      WovenTail(parts, captures, s);
      assert runs[0] == captures[0];
    }
    if Captures(parts, s).Some? {
      assert LongestReading(parts, Captures(parts, s).value, s);
    }
  }

  /** With one token and no white space around the template, every name it generates carries its own number. */
  lemma {:induction false} GeneratedIsRead(template: string, n: nat)
    requires |Literals(template)| == 2 && Text.Trim(template) == template
    ensures HasToken(template) && NumberIn(template, NameAt(template, n)) == Some(n)
  {
    var parts, digits, name := Literals(template), Decimal(n), NameAt(template, n);
    ReplacingIsFilling(template, digits);
    hide Text.Trim, Literals, HasToken;
    NameIsTrimmed(template, n);
    Text.TrimIsExact(name);
    assert name == parts[0] + digits + parts[1];
    assert Weave(parts, [digits]) == name;
    assert Woven(parts, [digits], name);
    forall other | Woven(parts, other, name)
      ensures other == [digits]
    {
      assert Weave(parts, other) == parts[0] + other[0] + parts[1];
      assert name[|parts[0]|..|name| - |parts[1]|] == other[0] == digits;
    }
    NumberIsRead(template, name, n);
  }

  /** After the names for 1 to `k` the next number is `k + 1`. */
  lemma {:induction false} NextAfterRun(template: string, k: nat, next: nat)
    requires |Literals(template)| == 2 && Text.Trim(template) == template
    requires IsNext(seq(k, i requires 0 <= i < k => NameAt(template, i + 1)), template, next)
    ensures next == k + 1
  {
    hide NumberIn, NameAt, Text.Trim, Literals;
    GeneratedIsRead(template, 0);
    var names := seq(k, i requires 0 <= i < k => NameAt(template, i + 1));
    forall i | 0 <= i < k
      ensures names[i] in names && NumberIn(template, names[i]) == Some(i + 1)
    {
      GeneratedIsRead(template, i + 1);
    }
    if k > 0 {
      assert names[k - 1] in names;
    }
    if next > 1 {
      var name :| name in names && NumberIn(template, name) == Some(next - 1);
      var i :| 0 <= i < k && names[i] == name;
    }
  }

  // ----- an example

  lemma {:induction false} SprintLiterals()
    ensures Literals("S {n}") == ["S ", ""] && Text.Trim("S {n}") == "S {n}"
  {
    var s, t := "S {n}", " {n}";
    assert s[1..] == t && t[1..] == "{n}" && "{n}"[3..] == "";
    assert !AtToken(s) && !AtToken(t) && AtToken("{n}");
    assert Literals("") == [""];
    assert Literals("{n}") == [""] + [""];
    assert Literals(t) == [" " + ""] + [""];
    assert " " + "" == " " && [" "] + [""] == [" ", ""];
    assert Literals(t) == [" ", ""] && Literals(t)[1..] == [""];
    assert [s[0]] + " " == "S ";
    Text.TrimIsExact(s);
  }

  /** Names filled from `S {n}`, and the number after five of them. */
  lemma {:induction false} SixthSprint(next: nat)
    requires IsNext(seq(5, i requires 0 <= i < 5 => NameAt("S {n}", i + 1)), "S {n}", next)
    ensures next == 6 && NameAt("S {n}", next) == "S 6"
  {
    SprintLiterals();
    ReplacingIsFilling("S {n}", Decimal(6));
    hide NameAt, Literals, Text.Trim, HasToken;
    NextAfterRun("S {n}", 5, next);
    assert Decimal(6) == "6";
    assert ["S ", ""][1..] == [""];
    assert NameAt("S {n}", 6) == "S 6" by {
      NameIsFilled("S {n}", 6);
    }
  }

  lemma {:induction false} NameIsFilled(template: string, n: nat)
    ensures NameAt(template, n) == Fill(Literals(template), Decimal(n))
  {
    ReplacingIsFilling(template, Decimal(n));
  }

  /** Without a token the number is 1. */
  lemma {:induction false} NoTokenMeansOne(names: seq<string>, template: string, next: nat)
    requires IsNext(names, template, next) && '{' !in template
    ensures next == 1
  {
    NoBraceNoToken(template);
  }

  lemma {:induction false} NoBraceNoToken(template: string)
    requires '{' !in template
    ensures !HasToken(template)
  {
    if template != "" {
      assert template[0] in template && TOKEN[0] == '{';
      NoBraceNoToken(template[1..]);
    }
  }
}
