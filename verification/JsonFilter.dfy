/**
 contrib/json/json2.js: the filter of regular expressions in front of eval in JSON.parse, and
 which of the texts that str prints it lets through.
 */
module JsonFilter {
  import opened Wrappers
  import opened Json2
  import opened JsonPrint

  // ---------- The stages of JSON.parse ----------

  /** Replace dangerous characters by escapes; a text without any stays as it is. */
  function ReplaceDangerous(s: Chars): Chars {
    if s == [] then []
    else Replaced(s[0]) + ReplaceDangerous(s[1..])
  }

  function Replaced(c: Code): Chars {
    if Dangerous(c) then UnicodeEscape(c) else [c]
  }

  predicate IsPairEnd(c: Code) {
    c == QUOTE || c == BACKSLASH || c == SLASH || c == 98 || c == 102 || c == 110 || c == 114 || c == 116
  }

  /** How much rx_two matches at the start of a text. */
  function PairLength(s: Chars): (n: nat)
    ensures n <= |s|
  {
    if |s| < 2 || s[0] != BACKSLASH then 0
    else if IsPairEnd(s[1]) then 2
    else if |s| >= 6 && s[1] == LETTER_U && forall i | 2 <= i < 6 :: IsHexDigit(s[i]) then 6
    else 0
  }

  /** replace(rx_two, "@"). */
  function HidePairs(s: Chars): Chars
    decreases |s|
  {
    if s == [] then []
    else
      var n := PairLength(s);
      if n > 0 then [AT] + HidePairs(s[n..]) else [s[0]] + HidePairs(s[1..])
  }

  predicate InString(c: Code) {
    c != QUOTE && c != BACKSLASH && c != NEWLINE && c != RETURN
  }

  function Body(s: Chars): (n: nat)
    ensures n <= |s|
  {
    if s != [] && InString(s[0]) then 1 + Body(s[1..]) else 0
  }

  function StringLength(s: Chars): (n: nat)
    ensures n <= |s|
  {
    if s == [] || s[0] != QUOTE then 0
    else
      var n := Body(s[1..]);
      if 1 + n < |s| && s[1 + n] == QUOTE then n + 2 else 0
  }

  /** How much rx_three matches at the start of a text: its alternatives in order. */
  function ValueLength(s: Chars): (n: nat)
    ensures n <= |s|
  {
    if StringLength(s) > 0 then StringLength(s)
    else if TRUE <= s then |TRUE|
    else if FALSE <= s then |FALSE|
    else if NULL <= s then |NULL|
    else NumberLength(s)
  }

  /** replace(rx_three, "]"). */
  function HideValues(s: Chars): Chars
    decreases |s|
  {
    if s == [] then []
    else
      var n := ValueLength(s);
      if n > 0 then [CLOSE] + HideValues(s[n..]) else [s[0]] + HideValues(s[1..])
  }

  /** How much of the text the repetition of white space and an open bracket takes. */
  function BracketRun(s: Chars): (n: nat)
    ensures n <= |s|
  {
    if s == [] then 0
    else if s[0] == OPEN then 1 + BracketRun(s[1..])
    else if IsSpace(s[0]) && BracketRun(s[1..]) > 0 then 1 + BracketRun(s[1..])
    else 0
  }

  /** replace(rx_four, "") behind the start of the text. */
  function DropBracketsInside(s: Chars): Chars
    decreases |s|
  {
    if s == [] then []
    else
      var n := BracketRun(s[1..]);
      if (s[0] == COLON || s[0] == COMMA) && n > 0 then DropBracketsInside(s[1 + n..])
      else [s[0]] + DropBracketsInside(s[1..])
  }

  /** replace(rx_four, ""): a run of brackets may also stand at the start of the text. */
  function DropBrackets(s: Chars): Chars {
    DropBracketsInside(s[BracketRun(s)..])
  }

  /** The characters of rx_one. */
  predicate Harmless(c: Code) {
    c == CLOSE || c == COMMA || c == COLON || c == LBRACE || c == RBRACE || IsSpace(c)
  }

  /** JSON.parse goes on to eval. */
  predicate Passes(text: Chars) {
    forall c <- DropBrackets(HideValues(HidePairs(ReplaceDangerous(text)))) :: Harmless(c)
  }

  // ---------- What rx_four leaves ----------

  /**
   Only white space and open brackets stand between each open bracket and a colon, a comma or,
   if live, the start of the text.
   */
  predicate Anchored(s: Chars, live: bool) {
    if s == [] then true
    else if s[0] == OPEN then live && Anchored(s[1..], true)
    else if s[0] == COLON || s[0] == COMMA then Anchored(s[1..], true)
    else if IsSpace(s[0]) then Anchored(s[1..], live)
    else Anchored(s[1..], false)
  }

  lemma {:induction false} AnchoredBehindRun(s: Chars)
    ensures Anchored(s, true) <==> Anchored(s[BracketRun(s)..], false)
  {
    if s != [] {
      AnchoredBehindRun(s[1..]);
      if BracketRun(s) > 0 {
        assert s[BracketRun(s)..] == s[1..][BracketRun(s[1..])..];
      } else if IsSpace(s[0]) {
        assert s[1..][BracketRun(s[1..])..] == s[1..];
      }
    }
  }

  lemma {:induction false} InsideLeavesNoOpen(s: Chars)
    ensures OPEN !in DropBracketsInside(s) <==> Anchored(s, false)
    decreases |s|
  {
    if s != [] {
      var n := BracketRun(s[1..]);
      AnchoredBehindRun(s[1..]);
      if (s[0] == COLON || s[0] == COMMA) && n > 0 {
        assert s[1 + n..] == s[1..][n..];
        InsideLeavesNoOpen(s[1 + n..]);
      } else {
        InsideLeavesNoOpen(s[1..]);
        if s[0] == COLON || s[0] == COMMA {
          assert s[1..][0..] == s[1..];
        }
        assert OPEN in DropBracketsInside(s) <==> s[0] == OPEN || OPEN in DropBracketsInside(s[1..]);
      }
    }
  }

  /** Exactly when rx_four removes every open bracket of a text. */
  lemma DropBracketsExactly(s: Chars)
    ensures OPEN !in DropBrackets(s) <==> Anchored(s, true)
  {
    AnchoredBehindRun(s);
    InsideLeavesNoOpen(s[BracketRun(s)..]);
  }

  /** A character that rx_four never matches. */
  predicate Kept(c: Code) {
    c != OPEN && c != COLON && c != COMMA && !IsSpace(c)
  }

  lemma {:induction false} RunKeepsOthers(s: Chars, c: Code)
    requires Kept(c)
    ensures c in s <==> c in s[BracketRun(s)..]
  {
    if s != [] && BracketRun(s) > 0 {
      RunKeepsOthers(s[1..], c);
      assert s[BracketRun(s)..] == s[1..][BracketRun(s[1..])..];
      assert c in s <==> c in s[1..];
    }
  }

  lemma {:induction false} InsideKeepsOthers(s: Chars, c: Code)
    ensures c in DropBracketsInside(s) ==> c in s
    ensures Kept(c) && c in s ==> c in DropBracketsInside(s)
    decreases |s|
  {
    if s != [] {
      var n := BracketRun(s[1..]);
      if (s[0] == COLON || s[0] == COMMA) && n > 0 {
        assert s[1 + n..] == s[1..][n..];
        InsideKeepsOthers(s[1 + n..], c);
        if Kept(c) {
          RunKeepsOthers(s[1..], c);
        }
      } else {
        InsideKeepsOthers(s[1..], c);
      }
    }
  }

  lemma DropBracketsKeepsOthers(s: Chars, c: Code)
    ensures c in DropBrackets(s) ==> c in s
    ensures Kept(c) && c in s ==> c in DropBrackets(s)
  {
    InsideKeepsOthers(s[BracketRun(s)..], c);
    if Kept(c) {
      RunKeepsOthers(s, c);
    }
  }

  /** The texts that rx_one accepts behind the three other replacements. */
  lemma PassesExactly(text: Chars)
    ensures var hidden := HideValues(HidePairs(ReplaceDangerous(text)));
      Passes(text) <==> Anchored(hidden, true)
                        && forall c <- hidden :: c in {44, 58, 91, 93, 123, 125} || IsSpace(c)
  {
    hide DropBrackets, HideValues, HidePairs, ReplaceDangerous, IsSpace, Anchored;
    var hidden := HideValues(HidePairs(ReplaceDangerous(text)));
    DropBracketsExactly(hidden);
    forall c ensures c in DropBrackets(hidden) ==> c in hidden
             ensures Kept(c) && c in hidden ==> c in DropBrackets(hidden)
    {
      DropBracketsKeepsOthers(hidden, c);
    }
    OpenIsNoSpace();
  }

  lemma OpenIsNoSpace()
    ensures !IsSpace(OPEN)
  {
  }

  // ---------- A printed token behind each stage ----------

  predicate AllSpace(s: Chars) {
    forall i | 0 <= i < |s| :: IsSpace(s[i])
  }

  predicate AllSafe(s: Chars) {
    forall i | 0 <= i < |s| :: !Dangerous(s[i])
  }

  /** A text with every character of a class replaced by the sign for a hidden pair. */
  function Hidden(s: Chars, dangerous: bool): Chars {
    if s == [] then []
    else [if (if dangerous then Dangerous(s[0]) else Escapable(s[0])) then AT else s[0]] + Hidden(s[1..], dangerous)
  }

  /** The text of a token, as printed (0) and behind the first, second and third replacement. */
  function Stage(t: Token, n: nat): Chars {
    match t
    case Mark(c) => [c]
    case Space(s) => if n == 0 then s else if n == 1 then ReplaceDangerous(s) else Hidden(s, true)
    case Quoted(s) => if n <= 1 then Quote(s) else if n == 2 then [QUOTE] + Hidden(s, false) + [QUOTE] else [CLOSE]
    case Atom(s) => if n <= 2 then s else [CLOSE]
  }

  function Staged(ts: seq<Token>, n: nat): Chars {
    if ts == [] then [] else Stage(ts[0], n) + Staged(ts[1..], n)
  }

  predicate Blank(t: Token) {
    t.Space? ==> AllSpace(t.space)
  }

  predicate Blanks(ts: seq<Token>) {
    forall i | 0 <= i < |ts| :: Blank(ts[i])
  }

  lemma {:induction false} StageZero(ts: seq<Token>)
    ensures Staged(ts, 0) == Text(ts)
  {
    if ts != [] {
      StageZero(ts[1..]);
    }
  }

  // ---------- The first replacement ----------

  lemma {:induction false} ReplaceJoins(a: Chars, b: Chars)
    ensures ReplaceDangerous(a + b) == ReplaceDangerous(a) + ReplaceDangerous(b)
  {
    hide Replaced;
    if a == [] {
      assert a + b == b;
    } else {
      assert (a + b)[0] == a[0] && (a + b)[1..] == a[1..] + b;
      ReplaceJoins(a[1..], b);
    }
  }

  /** rx_dangerous leaves alone exactly the texts without a dangerous character. */
  lemma {:induction false} UnchangedExactly(s: Chars)
    ensures ReplaceDangerous(s) == s <==> AllSafe(s)
    ensures |ReplaceDangerous(s)| >= |s|
    ensures !AllSafe(s) ==> |ReplaceDangerous(s)| > |s|
  {
    hide Dangerous;
    if s != [] {
      UnchangedExactly(s[1..]);
      assert s == [s[0]] + s[1..];
    }
  }

  /** rx_dangerous replaces NUL and the hidden characters by their escapes and nothing else. */
  lemma ReplaceExactly(s: Chars, c: Code)
    ensures ReplaceDangerous([]) == []
    ensures ReplaceDangerous(s + [c]) == ReplaceDangerous(s) + if c == 0 || IsHidden(c) then Escaped(c) else [c]
  {
    hide Padded;
    ReplaceJoins(s, [c]);
    assert [c][1..] == [];
  }

  lemma {:induction false} EscapesAreSafe(s: Chars)
    ensures AllSafe(EscapedAll(s))
  {
    if s != [] {
      EscapesAreSafe(s[1..]);
      EscapeIsSafe(s[0]);
    }
  }

  lemma EscapeIsSafe(c: Code)
    ensures AllSafe(Escaped(c))
  {
    hide Padded;
  }

  lemma {:induction false} DigitsAre(s: Chars)
    ensures forall i | 0 <= i < Digits(s) :: IsDigit(s[i])
  {
    if s != [] && IsDigit(s[0]) {
      DigitsAre(s[1..]);
    }
  }

  /** The characters of an atom. */
  predicate Simple(c: Code) {
    IsDigit(c) || c == MINUS || c == PLUS || c == DOT || 97 <= c <= 122 || c == 69
  }

  predicate AllSimple(s: Chars) {
    forall i | 0 <= i < |s| :: Simple(s[i])
  }

  lemma SignsAreSimple()
    ensures Simple(MINUS)
    ensures forall c: Code | IsDigit(c) :: Simple(c)
  {
  }

  lemma FractionIsSimple(s: Chars)
    ensures AllSimple(s[..Fraction(s)])
  {
    if s != [] && s[0] == DOT {
      DigitsAre(s[1..]);
    }
  }

  lemma ExponentIsSimple(s: Chars)
    ensures AllSimple(s[..Exponent(s)])
  {
    if s != [] && (s[0] == 101 || s[0] == 69) {
      var sign := if |s| > 1 && (s[1] == PLUS || s[1] == MINUS) then 1 else 0;
      DigitsAre(s[1 + sign..]);
      assert forall i | 1 + sign <= i < Exponent(s) :: s[i] == s[1 + sign..][i - 1 - sign];
    }
  }

  lemma NumbersAreSimple(s: Chars)
    requires IsNumber(s)
    ensures AllSimple(s)
  {
    hide Digits, Fraction, Exponent, Simple;
    var sign := if s[0] == MINUS then 1 else 0;
    var whole := Digits(s[sign..]);
    SignsAreSimple();
    DigitsAre(s[sign..]);
    var n := sign + whole + Fraction(s[sign + whole..]);
    FractionIsSimple(s[sign + whole..]);
    ExponentIsSimple(s[n..]);
    forall i | 0 <= i < |s| ensures Simple(s[i]) {
      if sign <= i < sign + whole {
        assert s[i] == s[sign..][i - sign];
      } else if sign + whole <= i < n {
        assert s[i] == s[sign + whole..][..Fraction(s[sign + whole..])][i - sign - whole];
      } else if n <= i {
        assert s[i] == s[n..][..Exponent(s[n..])][i - n];
      }
    }
  }

  lemma AtomsAreSimple(s: AtomText)
    ensures AllSimple(s)
  {
    if IsNumber(s) {
      NumbersAreSimple(s);
    }
  }

  lemma SimpleIsPlain(s: Chars)
    requires AllSimple(s)
    ensures AllSafe(s) && BACKSLASH !in s
  {
  }

  lemma FirstStageOf(t: Token)
    ensures ReplaceDangerous(Stage(t, 0)) == Stage(t, 1)
  {
    match t {
      case Mark(c) =>
        UnchangedExactly([c]);
      case Space(_) =>
      case Quoted(s) =>
        EscapesAreSafe(s);
        UnchangedExactly(Quote(s));
      case Atom(s) =>
        AtomsAreSimple(s);
        SimpleIsPlain(s);
        UnchangedExactly(s);
    }
  }

  lemma {:induction false} FirstStage(ts: seq<Token>)
    ensures ReplaceDangerous(Staged(ts, 0)) == Staged(ts, 1)
  {
    hide Stage;
    if ts != [] {
      FirstStage(ts[1..]);
      FirstStageOf(ts[0]);
      ReplaceJoins(Stage(ts[0], 0), Staged(ts[1..], 0));
    }
  }

  // ---------- The second replacement ----------

  lemma {:induction false} PairsSkip(a: Chars, rest: Chars)
    requires BACKSLASH !in a
    ensures HidePairs(a + rest) == a + HidePairs(rest)
  {
    if a == [] {
      assert a + rest == rest;
    } else {
      assert a[0] in a;
      assert (a + rest)[1..] == a[1..] + rest;
      PairsSkip(a[1..], rest);
      assert PairLength(a + rest) == 0;
    }
  }

  lemma PairsUnicode(c: Code, rest: Chars)
    ensures HidePairs(UnicodeEscape(c) + rest) == [AT] + HidePairs(rest)
  {
  }

  lemma PairsEscape(c: Code, rest: Chars)
    ensures HidePairs(Escaped(c) + rest) == [if Escapable(c) then AT else c] + HidePairs(rest)
  {
    hide Padded;
    if !Escapable(c) {
      PairsSkip([c], rest);
    } else if Meta(c).Some? {
      var s := Escaped(c) + rest;
      assert PairLength(s) == 2 && s[2..] == rest;
    } else {
      PairsUnicode(c, rest);
    }
  }

  lemma {:induction false} PairsInString(s: Chars, rest: Chars)
    ensures HidePairs(EscapedAll(s) + rest) == Hidden(s, false) + HidePairs(rest)
  {
    hide Escaped, Escapable, HidePairs;
    if s == [] {
      assert EscapedAll(s) + rest == rest;
    } else {
      PairsInString(s[1..], rest);
      PairsEscape(s[0], EscapedAll(s[1..]) + rest);
      assert EscapedAll(s) + rest == Escaped(s[0]) + (EscapedAll(s[1..]) + rest);
    }
  }

  lemma {:induction false} PairsInSpace(s: Chars, rest: Chars)
    requires AllSpace(s)
    ensures HidePairs(ReplaceDangerous(s) + rest) == Hidden(s, true) + HidePairs(rest)
  {
    hide Replaced, Dangerous, HidePairs;
    if s == [] {
      assert ReplaceDangerous(s) + rest == rest;
    } else {
      PairsInSpace(s[1..], rest);
      PairsReplaced(s[0], ReplaceDangerous(s[1..]) + rest);
      assert ReplaceDangerous(s) + rest == Replaced(s[0]) + (ReplaceDangerous(s[1..]) + rest);
    }
  }

  lemma PairsReplaced(c: Code, rest: Chars)
    requires IsSpace(c)
    ensures HidePairs(Replaced(c) + rest) == [if Dangerous(c) then AT else c] + HidePairs(rest)
  {
    hide UnicodeEscape, Dangerous, HidePairs;
    if Dangerous(c) {
      PairsUnicode(c, rest);
    } else {
      PairsSkip([c], rest);
    }
  }

  lemma SecondStageOf(t: Token, rest: Chars)
    requires Blank(t)
    ensures HidePairs(Stage(t, 1) + rest) == Stage(t, 2) + HidePairs(rest)
  {
    hide HidePairs, IsAtom, EscapedAll, Hidden, ReplaceDangerous;
    match t {
      case Mark(c) =>
        PairsSkip([c], rest);
      case Space(s) =>
        PairsInSpace(s, rest);
      case Quoted(s) =>
        var q: Chars := [QUOTE];
        PairsSkip(q, EscapedAll(s) + (q + rest));
        PairsInString(s, q + rest);
        PairsSkip(q, rest);
        assert Quote(s) + rest == q + (EscapedAll(s) + (q + rest));
      case Atom(s) =>
        AtomsAreSimple(s);
        SimpleIsPlain(s);
        PairsSkip(s, rest);
    }
  }

  lemma EmptyPairs()
    ensures HidePairs([]) == []
  {
  }

  lemma {:induction false} SecondStage(ts: seq<Token>)
    requires Blanks(ts)
    ensures HidePairs(Staged(ts, 1)) == Staged(ts, 2)
  {
    hide Stage, HidePairs, Blank;
    if ts == [] {
      EmptyPairs();
    } else {
      SecondStageOf(ts[0], Staged(ts[1..], 1));
      SecondStage(ts[1..]);
    }
  }

  // ---------- The third replacement ----------

  /** A character that could make a number longer. */
  predicate Extends(c: Code) {
    IsDigit(c) || c == DOT || c == 101 || c == 69 || c == PLUS || c == MINUS
  }

  predicate Ends(rest: Chars) {
    rest == [] || !Extends(rest[0])
  }

  lemma {:induction false} DigitsEnd(s: Chars, rest: Chars)
    requires Ends(rest)
    ensures Digits(s + rest) == Digits(s)
  {
    if s == [] {
      assert s + rest == rest;
    } else {
      assert (s + rest)[1..] == s[1..] + rest;
      DigitsEnd(s[1..], rest);
    }
  }

  lemma FractionEnds(s: Chars, rest: Chars)
    requires Ends(rest)
    ensures Fraction(s + rest) == Fraction(s)
  {
    hide Digits;
    if s == [] {
      assert s + rest == rest;
    } else {
      assert (s + rest)[1..] == s[1..] + rest;
      DigitsEnd(s[1..], rest);
    }
  }

  lemma ExponentEnds(s: Chars, rest: Chars)
    requires Ends(rest)
    ensures Exponent(s + rest) == Exponent(s)
  {
    hide Digits;
    if s == [] {
      assert s + rest == rest;
    } else {
      assert (s + rest)[1..] == s[1..] + rest;
      DigitsEnd(s[1..], rest);
      if |s| > 1 {
        assert (s + rest)[2..] == s[2..] + rest;
        DigitsEnd(s[2..], rest);
      } else {
        DigitsEnd([], rest);
        assert s[1..] == [] && [] + rest == rest;
        assert Digits([]) == 0 by { DigitsEnd([], []); }
      }
    }
  }

  /** A number token ends where the text behind it goes on with another kind of character. */
  lemma NumberEnds(s: Chars, rest: Chars)
    requires IsNumber(s) && Ends(rest)
    ensures NumberLength(s + rest) == |s|
  {
    hide Digits, Fraction, Exponent;
    var sign := if s[0] == MINUS then 1 else 0;
    assert (s + rest)[sign..] == s[sign..] + rest;
    DigitsEnd(s[sign..], rest);
    var m := sign + Digits(s[sign..]);
    assert (s + rest)[m..] == s[m..] + rest;
    FractionEnds(s[m..], rest);
    var n := m + Fraction(s[m..]);
    assert (s + rest)[n..] == s[n..] + rest;
    ExponentEnds(s[n..], rest);
  }

  /** A character that begins no value. */
  predicate Inert(c: Code) {
    c != QUOTE && c != TRUE[0] && c != FALSE[0] && c != NULL[0] && c != MINUS && !IsDigit(c)
  }

  lemma ValuesSkip(c: Code, rest: Chars)
    requires Inert(c)
    ensures HideValues([c] + rest) == [c] + HideValues(rest)
  {
  }

  lemma HiddenSpaceIsInert(c: Code)
    requires IsSpace(c)
    ensures Inert(if Dangerous(c) then AT else c)
    ensures !Extends(if Dangerous(c) then AT else c)
  {
  }

  lemma {:induction false} ValuesInSpace(s: Chars, rest: Chars)
    requires AllSpace(s)
    ensures HideValues(Hidden(s, true) + rest) == Hidden(s, true) + HideValues(rest)
  {
    hide HideValues, Dangerous, IsSpace, Inert, Extends;
    if s == [] {
      assert Hidden(s, true) + rest == rest;
    } else {
      ValuesInSpace(s[1..], rest);
      HiddenSpaceIsInert(s[0]);
      var c := if Dangerous(s[0]) then AT else s[0];
      ValuesSkip(c, Hidden(s[1..], true) + rest);
      assert Hidden(s, true) + rest == [c] + (Hidden(s[1..], true) + rest);
    }
  }

  lemma {:induction false} BodyOfHidden(s: Chars, rest: Chars)
    ensures |Hidden(s, false)| == |s|
    ensures Body(Hidden(s, false) + [QUOTE] + rest) == |s|
  {
    hide Escapable;
    var h := Hidden(s, false) + [QUOTE] + rest;
    if s != [] {
      BodyOfHidden(s[1..], rest);
      HiddenIsInString(s[0]);
      assert h[1..] == Hidden(s[1..], false) + [QUOTE] + rest;
    }
  }

  lemma HiddenIsInString(c: Code)
    ensures InString(if Escapable(c) then AT else c)
  {
  }

  lemma ValuesString(s: Chars, rest: Chars)
    ensures HideValues([QUOTE] + Hidden(s, false) + [QUOTE] + rest) == [CLOSE] + HideValues(rest)
  {
    hide Hidden, Body, NumberLength;
    BodyOfHidden(s, rest);
    var text := [QUOTE] + Hidden(s, false) + [QUOTE] + rest;
    assert text[1..] == Hidden(s, false) + [QUOTE] + rest;
    assert StringLength(text) == |s| + 2;
    assert text[|s| + 2..] == rest;
  }

  lemma AtomLength(s: AtomText, rest: Chars)
    requires Ends(rest)
    ensures ValueLength(s + rest) == |s|
  {
    var text := s + rest;
    if s == TRUE || s == FALSE || s == NULL {
      LiteralLength(s, rest);
    } else {
      NumberEnds(s, rest);
      NumberStarts(s);
      LiteralsDiffer(text);
    }
  }

  lemma LiteralLength(s: AtomText, rest: Chars)
    requires s == TRUE || s == FALSE || s == NULL
    ensures ValueLength(s + rest) == |s|
  {
  }

  lemma LiteralsDiffer(s: Chars)
    requires s != [] && (IsDigit(s[0]) || s[0] == MINUS)
    ensures ValueLength(s) == NumberLength(s)
  {
  }

  lemma NumberStarts(s: Chars)
    requires IsNumber(s)
    ensures IsDigit(s[0]) || s[0] == MINUS
  {
  }

  lemma ThirdStageOf(t: Token, rest: Chars)
    requires Blank(t) && (t.Atom? ==> Ends(rest))
    ensures HideValues(Stage(t, 2) + rest) == Stage(t, 3) + HideValues(rest)
  {
    hide HideValues, IsAtom, Hidden, Ends, AllSpace;
    match t {
      case Mark(c) =>
        ValuesSkip(c, rest);
      case Space(s) =>
        ValuesInSpace(s, rest);
      case Quoted(s) =>
        ValuesString(s, rest);
      case Atom(s) =>
        ValuesAtom(s, rest);
    }
  }

  lemma ValuesAtom(s: AtomText, rest: Chars)
    requires Ends(rest)
    ensures HideValues(s + rest) == [CLOSE] + HideValues(rest)
  {
    hide ValueLength, Ends;
    AtomLength(s, rest);
    assert (s + rest)[|s|..] == rest;
  }

  // ---------- The places of tokens ----------

  /** Where a token stands: where an open bracket may, right behind an atom, or elsewhere. */
  datatype Place = Live | Behind | After | Wrong

  function Next(p: Place, t: Token): Place {
    if p == Wrong then Wrong
    else
      match t
      case Mark(c) =>
        if c == OPEN then (if p == Live then Live else Wrong) else if c == COMMA || c == COLON then Live else After
      case Space(_) => if p == Live then Live else After
      case Quoted(_) => if p == Behind then Wrong else After
      case Atom(_) => if p == Behind then Wrong else Behind
  }

  function End(ts: seq<Token>, p: Place): Place {
    if ts == [] then p else End(ts[1..], Next(p, ts[0]))
  }

  lemma {:induction false} EndJoins(a: seq<Token>, b: seq<Token>, p: Place)
    ensures End(a + b, p) == End(b, End(a, p))
  {
    hide Next;
    if a == [] {
      assert a + b == b;
    } else {
      assert (a + b)[0] == a[0] && (a + b)[1..] == a[1..] + b;
      EndJoins(a[1..], b, Next(p, a[0]));
    }
  }

  lemma TwoEnd(a: Token, b: Token, p: Place)
    ensures End([a, b], p) == Next(Next(p, a), b)
  {
    assert [a, b][1..] == [b] && [b][1..] == [];
    assert End([b], Next(p, a)) == Next(Next(p, a), b);
  }

  lemma {:induction false} WrongStays(ts: seq<Token>)
    ensures End(ts, Wrong) == Wrong
  {
    if ts != [] {
      WrongStays(ts[1..]);
    }
  }

  lemma StageStarts(t: Token)
    requires Blank(t) && (t.Mark? || t.Space?)
    ensures Stage(t, 2) != [] && !Extends(Stage(t, 2)[0])
  {
  }

  lemma {:induction false} ThirdStage(ts: seq<Token>, p: Place)
    requires Blanks(ts) && End(ts, p) != Wrong
    ensures HideValues(Staged(ts, 2)) == Staged(ts, 3)
    ensures p == Behind ==> Ends(Staged(ts, 2))
  {
    hide HideValues, Stage, Blank;
    if ts == [] {
      EmptyValues();
    } else {
      WrongStays(ts[1..]);
      assert Blank(ts[0]) && Blanks(ts[1..]);
      ThirdStage(ts[1..], Next(p, ts[0]));
      ThirdStageOf(ts[0], Staged(ts[1..], 2));
      if p == Behind {
        StageStarts(ts[0]);
      }
    }
  }

  lemma EmptyValues()
    ensures HideValues([]) == []
  {
  }

  // ---------- The fourth replacement ----------

  lemma {:induction false} AnchoredSpace(s: Chars, rest: Chars, live: bool)
    requires AllSpace(s) && AllSafe(s)
    ensures Anchored(Hidden(s, true) + rest, live) == Anchored(rest, live)
  {
    if s == [] {
      assert Hidden(s, true) + rest == rest;
    } else {
      AnchoredSpace(s[1..], rest, live);
      assert (Hidden(s, true) + rest)[1..] == Hidden(s[1..], true) + rest;
    }
  }

  lemma {:induction false} TokensAnchored(ts: seq<Token>, p: Place)
    requires Blanks(ts) && Safe(ts) && End(ts, p) != Wrong
    ensures Anchored(Staged(ts, 3), p == Live)
  {
    if ts != [] {
      var t, rest := ts[0], Staged(ts[1..], 3);
      WrongStays(ts[1..]);
      assert Blank(t) && SafeToken(t);
      TokensAnchored(ts[1..], Next(p, t));
      if t.Space? {
        AnchoredSpace(t.space, rest, p == Live);
      } else {
        assert (Stage(t, 3) + rest)[1..] == rest;
      }
    }
  }

  predicate SafeToken(t: Token) {
    t.Space? ==> AllSafe(t.space)
  }

  predicate Safe(ts: seq<Token>) {
    forall i | 0 <= i < |ts| :: SafeToken(ts[i])
  }

  /** Behind the third replacement only marks, white space and the sign for a hidden pair are left. */
  lemma {:induction false} LeftBehind(ts: seq<Token>, c: Code)
    requires Blanks(ts) && c in Staged(ts, 3)
    ensures Harmless(c) || c == OPEN || (c == AT && !Safe(ts))
  {
    var t := ts[0];
    assert Blank(t);
    if c in Stage(t, 3) {
      if t.Space? {
        HiddenSpaceHas(t.space, c);
        assert !AllSafe(t.space) ==> !SafeToken(t);
      }
    } else {
      LeftBehind(ts[1..], c);
      assert !Safe(ts[1..]) ==> !Safe(ts);
    }
  }

  lemma {:induction false} HiddenSpaceHas(s: Chars, c: Code)
    requires AllSpace(s) && c in Hidden(s, true)
    ensures IsSpace(c) || (c == AT && !AllSafe(s))
  {
    if c != (if Dangerous(s[0]) then AT else s[0]) {
      HiddenSpaceHas(s[1..], c);
    }
  }

  lemma {:induction false} DangerShows(s: Chars)
    requires !AllSafe(s)
    ensures AT in Hidden(s, true)
  {
    hide Dangerous;
    if !Dangerous(s[0]) {
      DangerShows(s[1..]);
    }
  }

  lemma {:induction false} DangerousTokenShows(ts: seq<Token>)
    requires !Safe(ts)
    ensures AT in Staged(ts, 3)
  {
    if SafeToken(ts[0]) {
      DangerousTokenShows(ts[1..]);
    } else {
      DangerShows(ts[0].space);
    }
  }

  /** Well-placed tokens pass exactly when no white space between them is dangerous. */
  lemma TokensPassExactly(ts: seq<Token>)
    requires Blanks(ts) && End(ts, Live) != Wrong
    ensures Passes(Text(ts)) <==> Safe(ts)
  {
    hide Blanks, Safe, End, Staged, Text, DropBrackets, HideValues, HidePairs, ReplaceDangerous, Anchored;
    StageZero(ts);
    FirstStage(ts);
    SecondStage(ts);
    ThirdStage(ts, Live);
    var s := Staged(ts, 3);
    if Safe(ts) {
      TokensAnchored(ts, Live);
      DropBracketsExactly(s);
      forall c | c in DropBrackets(s) ensures Harmless(c) {
        DropBracketsKeepsOthers(s, c);
        LeftBehind(ts, c);
      }
    } else {
      DangerousTokenShows(ts);
      DropBracketsKeepsOthers(s, AT);
      assert !Harmless(AT);
    }
  }

  // ---------- The places of the tokens of a value ----------

  lemma PlacedBreak(gap: Chars, indent: Chars, p: Place)
    requires p != Wrong
    ensures End(Break(gap, indent), p) == if indent != [] && p != Live then After else p
  {
  }

  predicate Done(p: Place) {
    p == After || p == Behind
  }

  /** A separator leads back to a live place. */
  lemma PlacedSeparator(gap: Chars, indent: Chars, p: Place)
    requires p != Wrong
    ensures End(Separator(gap, indent), p) == Live
  {
    EndJoins([Mark(COMMA)], Break(gap, indent), p);
    PlacedBreak(gap, indent, Live);
  }

  /** An opening mark, a break, the contents, another break and the closing mark. */
  lemma PlacedContainer(left: MarkChar, right: MarkChar, ts: seq<Token>, inner: Chars, gap: Chars, indent: Chars)
    requires (left == OPEN && right == CLOSE) || (left == LBRACE && right == RBRACE)
    requires Done(End(ts, if left == OPEN then Live else After))
    ensures End([Mark(left)] + Break(inner, indent) + ts + Break(gap, indent) + [Mark(right)], Live) == After
  {
    hide Break;
    var a, b := Break(inner, indent), Break(gap, indent);
    var p := if left == OPEN then Live else After;
    EndJoins([Mark(left)] + a + ts + b, [Mark(right)], Live);
    EndJoins([Mark(left)] + a + ts, b, Live);
    EndJoins([Mark(left)] + a, ts, Live);
    EndJoins([Mark(left)], a, Live);
    PlacedBreak(inner, indent, p);
    PlacedBreak(gap, indent, End(ts, p));
  }

  lemma {:induction false} ValuePlaced(v: Json, gap: Chars, indent: Chars)
    requires v != Absent
    ensures Done(End(Tokens(v, gap, indent), Live))
    decreases v, Size(v)
  {
    hide Break, Elements, Members;
    var inner := gap + indent;
    if v.Arr? && v.elems != [] {
      ElementsPlaced(v, |v.elems|, inner, indent);
      PlacedContainer(OPEN, CLOSE, Elements(v, |v.elems|, inner, indent), inner, gap, indent);
    } else if v.Obj? && Members(v, |v.members|, inner, indent) != [] {
      MembersPlaced(v, |v.members|, inner, indent);
      PlacedContainer(LBRACE, RBRACE, Members(v, |v.members|, inner, indent), inner, gap, indent);
    } else if v.Arr? || v.Obj? {
      TwoEnd(Tokens(v, gap, indent)[0], Tokens(v, gap, indent)[1], Live);
    } else {
      assert Tokens(v, gap, indent)[1..] == [];
    }
  }

  lemma {:induction false} ElementsPlaced(v: Json, n: nat, gap: Chars, indent: Chars)
    requires v.Arr? && 0 < n <= |v.elems|
    ensures Done(End(Elements(v, n, gap, indent), Live))
    decreases v, n
  {
    hide Tokens, Separator;
    var before := if n == 1 then [] else Elements(v, n - 1, gap, indent) + Separator(gap, indent);
    if n > 1 {
      ElementsPlaced(v, n - 1, gap, indent);
      EndJoins(Elements(v, n - 1, gap, indent), Separator(gap, indent), Live);
      PlacedSeparator(gap, indent, End(Elements(v, n - 1, gap, indent), Live));
    }
    assert Elements(v, n, gap, indent) == before + Element(v.elems[n - 1], gap, indent);
    EndJoins(before, Element(v.elems[n - 1], gap, indent), Live);
    if v.elems[n - 1] != Absent {
      ValuePlaced(v.elems[n - 1], gap, indent);
    } else {
      assert Element(v.elems[n - 1], gap, indent)[1..] == [];
    }
  }

  lemma {:induction false} MembersPlaced(v: Json, n: nat, gap: Chars, indent: Chars)
    requires v.Obj? && n <= |v.members| && Members(v, n, gap, indent) != []
    ensures Done(End(Members(v, n, gap, indent), After))
    decreases v, n
  {
    hide Tokens, Separator, Member;
    var before := Members(v, n - 1, gap, indent);
    if before != [] {
      MembersPlaced(v, n - 1, gap, indent);
    }
    var (k, value) := v.members[n - 1];
    if value != Absent {
      var mid := if before == [] then [] else Separator(gap, indent);
      var m := Member(k, indent, Tokens(value, gap, indent));
      EndJoins(before + mid, m, After);
      EndJoins(before, mid, After);
      PlacedSeparator(gap, indent, End(before, After));
      ValuePlaced(value, gap, indent);
      MemberPlaced(k, indent, Tokens(value, gap, indent), End(before + mid, After));
    }
  }

  lemma MemberPlaced(k: Chars, indent: Chars, value: seq<Token>, p: Place)
    requires Done(End(value, Live)) && (p == Live || p == After)
    ensures Done(End(Member(k, indent, value), p))
  {
    EndJoins([Quoted(k)] + Colon(indent), value, p);
    EndJoins([Quoted(k)], Colon(indent), p);
    ColonPlaced(indent);
  }

  lemma ColonPlaced(indent: Chars)
    ensures End(Colon(indent), After) == Live
  {
    if indent != [] {
      TwoEnd(Mark(COLON), Space([BLANK]), After);
    }
  }

  // ---------- The white space of a value ----------

  predicate Made(t: Token, ok: Code -> bool) {
    t.Space? ==> forall i | 0 <= i < |t.space| :: ok(t.space[i])
  }

  predicate AllMade(ts: seq<Token>, ok: Code -> bool) {
    forall i | 0 <= i < |ts| :: Made(ts[i], ok)
  }

  predicate AllOk(s: Chars, ok: Code -> bool) {
    forall i | 0 <= i < |s| :: ok(s[i])
  }

  /** The white space in the tokens of a value is made of line feeds, blanks and indentation. */
  lemma {:induction false} ValueMade(v: Json, gap: Chars, indent: Chars, ok: Code -> bool)
    requires ok(NEWLINE) && ok(BLANK) && AllOk(gap, ok) && AllOk(indent, ok)
    ensures AllMade(Tokens(v, gap, indent), ok)
    decreases v, Size(v)
  {
    hide Elements, Members;
    var inner := gap + indent;
    assert AllOk(inner, ok);
    if v.Arr? {
      ElementsMade(v, |v.elems|, inner, indent, ok);
    } else if v.Obj? {
      MembersMade(v, |v.members|, inner, indent, ok);
    }
  }

  lemma {:induction false} ElementsMade(v: Json, n: nat, gap: Chars, indent: Chars, ok: Code -> bool)
    requires v.Arr? && n <= |v.elems|
    requires ok(NEWLINE) && ok(BLANK) && AllOk(gap, ok) && AllOk(indent, ok)
    ensures AllMade(Elements(v, n, gap, indent), ok)
    decreases v, n
  {
    hide Tokens;
    if n > 0 {
      ElementsMade(v, n - 1, gap, indent, ok);
      ValueMade(v.elems[n - 1], gap, indent, ok);
    }
  }

  lemma {:induction false} MembersMade(v: Json, n: nat, gap: Chars, indent: Chars, ok: Code -> bool)
    requires v.Obj? && n <= |v.members|
    requires ok(NEWLINE) && ok(BLANK) && AllOk(gap, ok) && AllOk(indent, ok)
    ensures AllMade(Members(v, n, gap, indent), ok)
    decreases v, n
  {
    hide Tokens;
    if n > 0 {
      MembersMade(v, n - 1, gap, indent, ok);
      ValueMade(v.members[n - 1].1, gap, indent, ok);
      MemberMade(v.members[n - 1].0, Tokens(v.members[n - 1].1, gap, indent), gap, indent, ok);
      hide Member, Separator;
    }
  }

  lemma MemberMade(k: Chars, ts: seq<Token>, gap: Chars, indent: Chars, ok: Code -> bool)
    requires ok(NEWLINE) && ok(BLANK) && AllOk(gap, ok) && AllOk(indent, ok) && AllMade(ts, ok)
    ensures AllMade(Member(k, indent, ts), ok) && AllMade(Separator(gap, indent), ok)
  {
  }

  /** The value is a container, and something is printed between its brackets. */
  predicate Filled(v: Json) {
    (v.Arr? && v.elems != []) || (v.Obj? && exists i :: 0 <= i < |v.members| && v.members[i].1 != Absent)
  }

  lemma {:induction false} MembersEmpty(v: Json, n: nat, gap: Chars, indent: Chars)
    requires v.Obj? && n <= |v.members|
    ensures Members(v, n, gap, indent) == [] <==> forall i | 0 <= i < n :: v.members[i].1 == Absent
    decreases n
  {
    hide Tokens, Member;
    if n > 0 {
      MembersEmpty(v, n - 1, gap, indent);
    }
  }

  lemma OnlyFilledBreaks(v: Json, indent: Chars)
    ensures !Filled(v) ==> Safe(Tokens(v, [], indent))
    ensures Filled(v) && !AllSafe(indent) ==> !Safe(Tokens(v, [], indent))
  {
    hide Elements, Members, IsAtom;
    var ts := Tokens(v, [], indent);
    if v.Obj? {
      MembersEmpty(v, |v.members|, [] + indent, indent);
    }
    if Filled(v) && !AllSafe(indent) {
      assert [] + indent == indent;
      assert ts[1] == Space([NEWLINE] + indent);
      BreakIsUnsafe(indent);
      assert !SafeToken(ts[1]);
    }
  }

  lemma BreakIsUnsafe(indent: Chars)
    requires !AllSafe(indent)
    ensures !AllSafe([NEWLINE] + indent)
  {
    var i :| 0 <= i < |indent| && Dangerous(indent[i]);
    assert ([NEWLINE] + indent)[i + 1] == indent[i];
  }

  // ---------- The printed texts ----------

  lemma {:induction false} TextSafeExactly(ts: seq<Token>)
    ensures AllSafe(Text(ts)) <==> Safe(ts)
  {
    hide Dangerous, Render;
    if ts != [] {
      TextSafeExactly(ts[1..]);
      RenderSafeExactly(ts[0]);
      var a, b := Render(ts[0]), Text(ts[1..]);
      assert AllSafe(a + b) <==> AllSafe(a) && AllSafe(b) by {
        assert AllSafe(a + b) ==> forall i | 0 <= i < |b| :: b[i] == (a + b)[|a| + i];
        assert AllSafe(a + b) ==> forall i | 0 <= i < |a| :: a[i] == (a + b)[i];
      }
      assert Safe(ts) <==> SafeToken(ts[0]) && Safe(ts[1..]);
    }
  }

  lemma RenderSafeExactly(t: Token)
    ensures AllSafe(Render(t)) <==> SafeToken(t)
  {
    match t {
      case Mark(_) =>
      case Space(_) =>
      case Quoted(s) =>
        EscapesAreSafe(s);
      case Atom(s) =>
        AtomsAreSimple(s);
        SimpleIsPlain(s);
    }
  }

  /**
   The text of a value, with any indentation made of white space, is left alone by the first stage
   of JSON.parse and accepted by the filter, except when the indentation has one of the four
   white space characters that count as dangerous and a line break is printed.
   */
  lemma PrintedPassesExactly(v: Json, indent: Chars)
    requires v != Absent && AllSpace(indent)
    ensures Passes(Text(Tokens(v, [], indent))) <==> AllSafe(indent) || !Filled(v)
    ensures ReplaceDangerous(Text(Tokens(v, [], indent))) == Text(Tokens(v, [], indent))
       <==> AllSafe(indent) || !Filled(v)
  {
    hide Passes, Tokens, Text, Filled;
    var ts := Tokens(v, [], indent);
    ValuePlaced(v, [], indent);
    ValueMade(v, [], indent, IsSpace);
    assert Blanks(ts) by {
      assert forall i | 0 <= i < |ts| :: Made(ts[i], IsSpace);
    }
    if AllSafe(indent) {
      ValueMade(v, [], indent, (c: Code) => !Dangerous(c));
      assert Safe(ts) by {
        assert forall i | 0 <= i < |ts| :: Made(ts[i], (c: Code) => !Dangerous(c));
      }
    }
    OnlyFilledBreaks(v, indent);
    TokensPassExactly(ts);
    TextSafeExactly(ts);
    UnchangedExactly(Text(ts));
  }

  /** With the number form of the space argument, or without one, every text passes. */
  lemma BlanksPass(v: Json, space: SpaceArg)
    requires v != Absent && !space.Given?
    ensures Passes(Text(Tokens(v, [], Indentation(space))))
  {
    PrintedPassesExactly(v, Indentation(space));
  }

  /** U+2028 is white space, but [null] indented with it is refused. */
  lemma LineSeparatorFails()
    ensures AllSpace([0x2028]) && !Passes(Text(Tokens(Arr([Null]), [], [0x2028])))
  {
    PrintedPassesExactly(Arr([Null]), [0x2028]);
  }
}
