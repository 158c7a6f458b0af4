/**
 What a JSON text means, by the grammar of ECMA-262 5th edition, section 15.12.1, and that the
 texts json2.js prints mean what they were printed from.  White space and numbers are what the
 patterns of json2.js take for them, which is a little more than the grammar allows.
 */
module JsonMeaning {
  import opened Wrappers
  import opened Json2
  import opened JsonPrint
  import opened JsonFilter

  // ---------- From characters to tokens ----------

  /** The length of the text before the closing quote, when there is one. */
  function Inside(s: Chars): (n: Option<nat>)
    ensures n.Some? ==> n.value < |s| && s[n.value] == QUOTE
    decreases |s|
  {
    if s == [] then None
    else if s[0] == QUOTE then Some(0)
    else
      var k := if s[0] == BACKSLASH && |s| >= 2 then 2 else 1;
      var n := Inside(s[k..]);
      if n.Some? then Some(k + n.value) else None
  }

  /** The tokens of a text, white space left out. */
  function Lex(s: Chars): Option<seq<Token>>
    decreases |s|
  {
    if s == [] then Some([])
    else if IsSpace(s[0]) then Lex(s[1..])
    else if IsMark(s[0]) then Cons(Mark(s[0]), Lex(s[1..]))
    else if s[0] == QUOTE then
      var n := Inside(s[1..]);
      if n.None? then None
      else
        var chars := Denoted(s[1..1 + n.value]);
        if chars.None? then None else Cons(Quoted(chars.value), Lex(s[n.value + 2..]))
    else
      var n := ValueLength(s);
      if n > 0 && IsAtom(s[..n]) then Cons(Atom(s[..n]), Lex(s[n..])) else None
  }

  function Cons(t: Token, ts: Option<seq<Token>>): Option<seq<Token>> {
    if ts.Some? then Some([t] + ts.value) else None
  }

  // ---------- From tokens to values ----------

  function ReadValue(ts: seq<Token>): (r: Option<(Json, seq<Token>)>)
    ensures r.Some? ==> |r.value.1| < |ts|
    decreases |ts|, 1
  {
    if ts == [] then None
    else
      match ts[0]
      case Quoted(s) => Some((Str(s), ts[1..]))
      case Atom(s) =>
        if s == NULL then Some((Null, ts[1..]))
        else if s == TRUE then Some((Bool(true), ts[1..]))
        else if s == FALSE then Some((Bool(false), ts[1..]))
        else Some((Num(s), ts[1..]))
      case Mark(c) =>
        if c == OPEN then
          if |ts| > 1 && ts[1] == Mark(CLOSE) then Some((Arr([]), ts[2..]))
          else
            var r := ReadElements(ts[1..]);
            if r.Some? then Some((Arr(r.value.0), r.value.1)) else None
        else if c == LBRACE then
          if |ts| > 1 && ts[1] == Mark(RBRACE) then Some((Obj([], []), ts[2..]))
          else
            var r := ReadMembers(ts[1..]);
            if r.Some? then Some((Obj(r.value.0, []), r.value.1)) else None
        else None
      case Space(_) => None
  }

  /** Elements up to and with the closing bracket. */
  function ReadElements(ts: seq<Token>): (r: Option<(seq<Json>, seq<Token>)>)
    ensures r.Some? ==> |r.value.1| < |ts|
    decreases |ts|, 2
  {
    var r := ReadValue(ts);
    if r.None? || r.value.1 == [] then None
    else
      var (v, rest) := r.value;
      if rest[0] == Mark(CLOSE) then Some(([v], rest[1..]))
      else if rest[0] == Mark(COMMA) then
        var more := ReadElements(rest[1..]);
        if more.Some? then Some(([v] + more.value.0, more.value.1)) else None
      else None
  }

  /** Members up to and with the closing brace. */
  function ReadMembers(ts: seq<Token>): (r: Option<(seq<(Chars, Json)>, seq<Token>)>)
    ensures r.Some? ==> |r.value.1| < |ts|
    decreases |ts|, 2
  {
    if |ts| < 2 || !ts[0].Quoted? || ts[1] != Mark(COLON) then None
    else
      var r := ReadValue(ts[2..]);
      if r.None? || r.value.1 == [] then None
      else
        var (v, rest) := r.value;
        var m := (ts[0].chars, v);
        if rest[0] == Mark(RBRACE) then Some(([m], rest[1..]))
        else if rest[0] == Mark(COMMA) then
          var more := ReadMembers(rest[1..]);
          if more.Some? then Some(([m] + more.value.0, more.value.1)) else None
        else None
  }

  /** The value a text stands for, when it is a JSON text. */
  function Meaning(s: Chars): Option<Json> {
    var ts := Lex(s);
    if ts.None? then None
    else
      var r := ReadValue(ts.value);
      if r.Some? && r.value.1 == [] then Some(r.value.0) else None
  }

  // ---------- What printing keeps of a value ----------

  /** Numbers that are not finite and elements without a JSON form become null; such members are gone. */
  function Kept(v: Json): Json
    decreases v, Size(v)
  {
    match v
    case Absent => Null
    case NonFinite => Null
    case Arr(elems) => Arr(seq(|elems|, i requires 0 <= i < |elems| => Kept(elems[i])))
    case Obj(_, _) => Obj(KeptMembers(v, 0), [])
    case _ => v
  }

  /** The members from the i-th on. */
  function KeptMembers(v: Json, i: nat): seq<(Chars, Json)>
    requires v.Obj? && i <= |v.members|
    decreases v, |v.members| - i
  {
    if i == |v.members| then []
    else
      var (k, value) := v.members[i];
      (if value == Absent then [] else [(k, Kept(value))]) + KeptMembers(v, i + 1)
  }

  // ---------- Lexing printed tokens ----------

  function Tight(ts: seq<Token>): seq<Token> {
    if ts == [] then [] else (if ts[0].Space? then [] else [ts[0]]) + Tight(ts[1..])
  }

  lemma InsideEscape(c: Code, rest: Chars)
    ensures Inside(Escaped(c) + rest) == if Inside(rest).Some? then Some(|Escaped(c)| + Inside(rest).value) else None
  {
    hide Padded, Hex;
    if Escapable(c) && Meta(c).None? {
      InsideUnicode(c, rest);
    } else {
      var e := Escaped(c);
      assert (e + rest)[|e|..] == rest;
    }
  }

  lemma InsideUnicode(c: Code, rest: Chars)
    ensures Inside(UnicodeEscape(c) + rest) == if Inside(rest).Some? then Some(6 + Inside(rest).value) else None
  {
    hide Padded;
    var s := UnicodeEscape(c) + rest;
    assert s[0] == BACKSLASH && s[2..] == Padded(c) + rest;
    InsideDigits(Padded(c), rest);
  }

  lemma {:induction false} InsideDigits(a: Chars, rest: Chars)
    requires forall i | 0 <= i < |a| :: IsHexDigit(a[i])
    ensures Inside(a + rest) == if Inside(rest).Some? then Some(|a| + Inside(rest).value) else None
  {
    if a == [] {
      assert a + rest == rest;
    } else {
      assert (a + rest)[1..] == a[1..] + rest;
      InsideDigits(a[1..], rest);
    }
  }

  lemma {:induction false} InsideAll(s: Chars, rest: Chars)
    requires rest != [] && rest[0] == QUOTE
    ensures Inside(EscapedAll(s) + rest) == Some(|EscapedAll(s)|)
  {
    hide Escaped;
    if s == [] {
      assert EscapedAll(s) + rest == rest;
    } else {
      var e, es := Escaped(s[0]), EscapedAll(s[1..]);
      assert EscapedAll(s) == e + es;
      hide EscapedAll, Inside;
      InsideAll(s[1..], rest);
      InsideEscape(s[0], es + rest);
      assert (e + es) + rest == e + (es + rest);
    }
  }

  lemma LexQuoted(s: Chars, rest: Chars)
    ensures Lex(Quote(s) + rest) == Cons(Quoted(s), Lex(rest))
  {
    hide EscapedAll, Inside, Denoted;
    var e := EscapedAll(s);
    var text := Quote(s) + rest;
    InsideAll(s, [QUOTE] + rest);
    QuoteRoundTrip(s);
    assert text[1..] == e + ([QUOTE] + rest);
    assert text[1..1 + |e|] == e;
    assert text[|e| + 2..] == rest;
  }

  lemma {:induction false} LexSpace(s: Chars, rest: Chars)
    requires AllSpace(s)
    ensures Lex(s + rest) == Lex(rest)
  {
    if s == [] {
      assert s + rest == rest;
    } else {
      LexSpace(s[1..], rest);
      assert (s + rest)[1..] == s[1..] + rest;
    }
  }

  lemma AtomStarts(s: AtomText)
    ensures !IsSpace(s[0]) && !IsMark(s[0]) && s[0] != QUOTE
  {
  }

  lemma LexAtom(s: AtomText, rest: Chars)
    requires Ends(rest)
    ensures Lex(s + rest) == Cons(Atom(s), Lex(rest))
  {
    hide ValueLength, Ends;
    AtomStarts(s);
    AtomLength(s, rest);
    var text := s + rest;
    assert text[0] == s[0] && text[..|s|] == s && text[|s|..] == rest;
  }

  lemma LexOne(t: Token, rest: Chars)
    requires Blank(t) && (t.Atom? ==> Ends(rest))
    ensures Lex(Render(t) + rest) == if t.Space? then Lex(rest) else Cons(t, Lex(rest))
  {
    match t {
      case Mark(c) =>
        assert ([c] + rest)[1..] == rest;
        MarkIsNoSpace(c);
      case Space(s) =>
        LexSpace(s, rest);
      case Quoted(s) =>
        LexQuoted(s, rest);
      case Atom(s) =>
        LexAtom(s, rest);
    }
  }

  lemma MarkIsNoSpace(c: Code)
    requires IsMark(c)
    ensures !IsSpace(c)
  {
  }

  lemma RenderStarts(t: Token)
    requires Blank(t) && (t.Mark? || t.Space?)
    ensures !Extends(Render(t)[0])
  {
  }

  /** The tokens come back from the text, without the white space. */
  lemma {:induction false} LexText(ts: seq<Token>, p: Place)
    requires Blanks(ts) && End(ts, p) != Wrong
    ensures Lex(Text(ts)) == Some(Tight(ts))
    ensures p == Behind ==> Ends(Text(ts))
  {
    hide Lex, Render, Blank;
    if ts == [] {
      LexNothing();
    } else {
      WrongStays(ts[1..]);
      assert Blank(ts[0]) && Blanks(ts[1..]);
      LexText(ts[1..], Next(p, ts[0]));
      LexOne(ts[0], Text(ts[1..]));
      assert Tight(ts) == if ts[0].Space? then Tight(ts[1..]) else [ts[0]] + Tight(ts[1..]);
      if p == Behind {
        RenderStarts(ts[0]);
      }
    }
  }

  lemma LexNothing()
    ensures Lex([]) == Some([])
  {
  }

  // ---------- Reading printed tokens ----------

  lemma {:induction false} TightJoins(a: seq<Token>, b: seq<Token>)
    ensures Tight(a + b) == Tight(a) + Tight(b)
  {
    if a == [] {
      assert a + b == b;
    } else {
      assert (a + b)[0] == a[0] && (a + b)[1..] == a[1..] + b;
      TightJoins(a[1..], b);
    }
  }

  /** Two token sequences with a comma between them, unless one is empty. */
  function Glue(a: seq<Token>, b: seq<Token>): seq<Token> {
    if a == [] then b else if b == [] then a else a + [Mark(COMMA)] + b
  }

  lemma GlueAssociates(a: seq<Token>, b: seq<Token>, c: seq<Token>)
    ensures Glue(Glue(a, b), c) == Glue(a, Glue(b, c))
  {
  }

  /** The tokens of a value without white space, read from the left. */
  function Flat(v: Json): (ts: seq<Token>)
    decreases v, Size(v)
  {
    match v
    case Absent => [Atom(NULL)]
    case Null => [Atom(NULL)]
    case Bool(b) => [Atom(if b then TRUE else FALSE)]
    case NonFinite => [Atom(NULL)]
    case Num(s) => [Atom(s)]
    case Str(s) => [Quoted(s)]
    case Arr(elems) => [Mark(OPEN)] + FlatElements(v, 0) + [Mark(CLOSE)]
    case Obj(_, _) => [Mark(LBRACE)] + FlatMembers(v, 0) + [Mark(RBRACE)]
  }

  function FlatElements(v: Json, i: nat): seq<Token>
    requires v.Arr? && i <= |v.elems|
    decreases v, |v.elems| - i
  {
    if i == |v.elems| then [] else Glue(Flat(v.elems[i]), FlatElements(v, i + 1))
  }

  function FlatMembers(v: Json, i: nat): seq<Token>
    requires v.Obj? && i <= |v.members|
    decreases v, |v.members| - i
  {
    if i == |v.members| then []
    else
      var (k, value) := v.members[i];
      if value == Absent then FlatMembers(v, i + 1)
      else Glue([Quoted(k), Mark(COLON)] + Flat(value), FlatMembers(v, i + 1))
  }

  lemma TightBreak(gap: Chars, indent: Chars)
    ensures Tight(Break(gap, indent)) == [] && Tight(Separator(gap, indent)) == [Mark(COMMA)]
    ensures Tight(Colon(indent)) == [Mark(COLON)]
  {
    TightJoins([Mark(COMMA)], Break(gap, indent));
    TightJoins([Mark(COLON)], [Space([BLANK])]);
  }

  lemma TightContainer(left: MarkChar, right: MarkChar, ts: seq<Token>, inner: Chars, gap: Chars, indent: Chars)
    ensures Tight([Mark(left)] + Break(inner, indent) + ts + Break(gap, indent) + [Mark(right)])
         == [Mark(left)] + Tight(ts) + [Mark(right)]
  {
    hide Break, Tight;
    var a, b := Break(inner, indent), Break(gap, indent);
    TightJoins([Mark(left)] + a + ts + b, [Mark(right)]);
    TightJoins([Mark(left)] + a + ts, b);
    TightJoins([Mark(left)] + a, ts);
    TightJoins([Mark(left)], a);
    TightBreak(inner, indent);
    TightBreak(gap, indent);
    TightMark(left);
    TightMark(right);
  }

  lemma TightMark(c: MarkChar)
    ensures Tight([Mark(c)]) == [Mark(c)]
  {
  }

  /** Without white space the layout does not show. */
  lemma {:induction false} TightValue(v: Json, gap: Chars, indent: Chars)
    requires v != Absent
    ensures Tight(Tokens(v, gap, indent)) == Flat(v)
    decreases v, Size(v)
  {
    hide Elements, Members, Break, FlatElements, FlatMembers;
    var inner := gap + indent;
    if v.Arr? {
      TightElements(v, |v.elems|, inner, indent);
      FlatEnds(v);
      TightContainer(OPEN, CLOSE, Elements(v, |v.elems|, inner, indent), inner, gap, indent);
      if v.elems == [] {
        TightTwo(OPEN, CLOSE);
      }
    } else if v.Obj? {
      TightMembers(v, |v.members|, inner, indent);
      FlatEnds(v);
      TightContainer(LBRACE, RBRACE, Members(v, |v.members|, inner, indent), inner, gap, indent);
      if Members(v, |v.members|, inner, indent) == [] {
        TightTwo(LBRACE, RBRACE);
      }
    } else {
      assert Tokens(v, gap, indent)[1..] == [];
    }
  }

  lemma TightTwo(left: MarkChar, right: MarkChar)
    ensures Tight([Mark(left), Mark(right)]) == [Mark(left), Mark(right)] && Tight([]) == []
  {
    TightJoins([Mark(left)], [Mark(right)]);
    TightMark(left);
    TightMark(right);
    assert [Mark(left)] + [Mark(right)] == [Mark(left), Mark(right)];
  }

  lemma FlatEnds(v: Json)
    ensures v.Arr? ==> FlatElements(v, |v.elems|) == [] && (v.elems == [] ==> FlatElements(v, 0) == [])
    ensures v.Obj? ==> FlatMembers(v, |v.members|) == []
  {
  }

  /** The first n elements, read from the right as str builds them, and the others from the left. */
  lemma {:induction false} TightElements(v: Json, n: nat, gap: Chars, indent: Chars)
    requires v.Arr? && n <= |v.elems|
    ensures Glue(Tight(Elements(v, n, gap, indent)), FlatElements(v, n)) == FlatElements(v, 0)
    ensures n > 0 ==> Tight(Elements(v, n, gap, indent)) != []
    decreases v, n
  {
    hide Tokens, Flat, Tight, Separator;
    if n == 0 {
      TightTwo(OPEN, CLOSE);
    } else {
      TightElements(v, n - 1, gap, indent);
      var before, e := Elements(v, n - 1, gap, indent), Element(v.elems[n - 1], gap, indent);
      TightElement(v.elems[n - 1], gap, indent);
      TightBreak(gap, indent);
      TightJoins(before, Separator(gap, indent));
      TightJoins(before + Separator(gap, indent), e);
      TightTwo(OPEN, CLOSE);
      assert Elements(v, n, gap, indent) == if n == 1 then e else before + Separator(gap, indent) + e;
      assert Tight(Elements(v, n, gap, indent)) == Glue(Tight(before), Flat(v.elems[n - 1]));
      GlueAssociates(Tight(before), Flat(v.elems[n - 1]), FlatElements(v, n));
    }
  }

  lemma {:induction false} TightElement(v: Json, gap: Chars, indent: Chars)
    ensures Tight(Element(v, gap, indent)) == Flat(v) && Flat(v) != []
    decreases v, Size(v) + 1
  {
    if v != Absent {
      TightValue(v, gap, indent);
    } else {
      assert Element(v, gap, indent)[1..] == [];
    }
  }

  lemma {:induction false} TightMembers(v: Json, n: nat, gap: Chars, indent: Chars)
    requires v.Obj? && n <= |v.members|
    ensures Glue(Tight(Members(v, n, gap, indent)), FlatMembers(v, n)) == FlatMembers(v, 0)
    ensures Members(v, n, gap, indent) != [] ==> Tight(Members(v, n, gap, indent)) != []
    decreases v, n
  {
    hide Tokens, Flat, Tight, Separator, Member;
    if n == 0 {
      TightTwo(OPEN, CLOSE);
    } else {
      TightMembers(v, n - 1, gap, indent);
      var (k, value) := v.members[n - 1];
      if value != Absent {
        TightValue(value, gap, indent);
        var f := [Quoted(k), Mark(COLON)] + Flat(value);
        TightMember(k, indent, Tokens(value, gap, indent));
        TightLast(v, n, gap, indent);
        GlueAssociates(Tight(Members(v, n - 1, gap, indent)), f, FlatMembers(v, n));
      }
    }
  }

  lemma TightLast(v: Json, n: nat, gap: Chars, indent: Chars)
    requires v.Obj? && 0 < n <= |v.members| && v.members[n - 1].1 != Absent
    requires Members(v, n - 1, gap, indent) != [] ==> Tight(Members(v, n - 1, gap, indent)) != []
    ensures var (k, value) := v.members[n - 1];
      var m := Tight(Member(k, indent, Tokens(value, gap, indent)));
      m != [] && Tight(Members(v, n, gap, indent)) == Glue(Tight(Members(v, n - 1, gap, indent)), m)
  {
    hide Tokens, Tight, Separator, Member;
    var (k, value) := v.members[n - 1];
    var before := Members(v, n - 1, gap, indent);
    var m := Member(k, indent, Tokens(value, gap, indent));
    TightMember(k, indent, Tokens(value, gap, indent));
    TightTwo(OPEN, CLOSE);
    TightBreak(gap, indent);
    TightJoins(before, Separator(gap, indent));
    TightJoins(before + Separator(gap, indent), m);
    assert Members(v, n, gap, indent) == if before == [] then m else before + Separator(gap, indent) + m;
  }

  lemma TightMember(k: Chars, indent: Chars, value: seq<Token>)
    ensures Tight(Member(k, indent, value)) == [Quoted(k), Mark(COLON)] + Tight(value)
  {
    hide Colon;
    TightJoins([Quoted(k)] + Colon(indent), value);
    TightJoins([Quoted(k)], Colon(indent));
    TightBreak([], indent);
    assert [Quoted(k)][1..] == [];
  }

  // ---------- Reading what was printed ----------

  function KeptElements(v: Json, i: nat): seq<Json>
    requires v.Arr? && i <= |v.elems|
    decreases |v.elems| - i
  {
    if i == |v.elems| then [] else [Kept(v.elems[i])] + KeptElements(v, i + 1)
  }

  lemma {:induction false} KeptElementsAre(v: Json, i: nat)
    requires v.Arr? && i <= |v.elems|
    ensures |KeptElements(v, i)| == |v.elems| - i
    ensures forall j | i <= j < |v.elems| :: KeptElements(v, i)[j - i] == Kept(v.elems[j])
    decreases |v.elems| - i
  {
    hide Kept;
    if i < |v.elems| {
      KeptElementsAre(v, i + 1);
      forall j | i < j < |v.elems| ensures KeptElements(v, i)[j - i] == Kept(v.elems[j]) {
        assert KeptElements(v, i)[j - i] == KeptElements(v, i + 1)[j - (i + 1)];
      }
    }
  }

  lemma FlatStarts(v: Json)
    ensures Flat(v) != []
    ensures Flat(v)[0] != Mark(CLOSE) && Flat(v)[0] != Mark(RBRACE)
  {
  }

  /** Reading takes the tokens of a value and leaves what follows. */
  lemma {:induction false} ReadFlat(v: Json, rest: seq<Token>)
    ensures ReadValue(Flat(v) + rest) == Some((Kept(v), rest))
    decreases v, Size(v)
  {
    hide FlatElements, FlatMembers, ReadElements, ReadMembers, IsNumber;
    var ts := Flat(v) + rest;
    if v.Arr? {
      var body := FlatElements(v, 0);
      KeptElementsAre(v, 0);
      assert ts[1..] == body + [Mark(CLOSE)] + rest;
      if v.elems == [] {
        FlatEnds(v);
        assert ts[2..] == rest;
        assert Kept(v).elems == [];
      } else {
        ReadFlatElements(v, 0, rest);
        assert KeptElements(v, 0) == Kept(v).elems;
      }
    } else if v.Obj? {
      var body := FlatMembers(v, 0);
      assert ts[1..] == body + [Mark(RBRACE)] + rest;
      ReadFlatMembers(v, 0, rest);
      if body == [] {
        assert ts[2..] == rest;
      }
    } else {
      if v.Num? {
        NumberStarts(v.text);
      }
      assert ts[1..] == rest;
    }
  }

  lemma {:induction false} ReadFlatElements(v: Json, i: nat, rest: seq<Token>)
    requires v.Arr? && i < |v.elems|
    ensures FlatElements(v, i) != [] && FlatElements(v, i)[0] != Mark(CLOSE)
    ensures ReadElements(FlatElements(v, i) + [Mark(CLOSE)] + rest) == Some((KeptElements(v, i), rest))
    decreases v, |v.elems| - i
  {
    hide Flat, Kept, ReadValue;
    var e := Flat(v.elems[i]);
    FlatStarts(v.elems[i]);
    var ts := FlatElements(v, i) + [Mark(CLOSE)] + rest;
    if i + 1 == |v.elems| {
      FlatEnds(v);
      assert ts == e + ([Mark(CLOSE)] + rest);
      ReadFlat(v.elems[i], [Mark(CLOSE)] + rest);
      assert ([Mark(CLOSE)] + rest)[1..] == rest;
      assert KeptElements(v, i) == [Kept(v.elems[i])];
    } else {
      ReadFlatElements(v, i + 1, rest);
      var more := FlatElements(v, i + 1) + [Mark(CLOSE)] + rest;
      assert ts == e + ([Mark(COMMA)] + more);
      ReadFlat(v.elems[i], [Mark(COMMA)] + more);
      assert ([Mark(COMMA)] + more)[1..] == more;
    }
  }

  lemma {:induction false} ReadFlatMembers(v: Json, i: nat, rest: seq<Token>)
    requires v.Obj? && i <= |v.members|
    ensures FlatMembers(v, i) == [] <==> KeptMembers(v, i) == []
    ensures FlatMembers(v, i) != [] ==> FlatMembers(v, i)[0] != Mark(RBRACE)
    ensures FlatMembers(v, i) != [] ==>
      ReadMembers(FlatMembers(v, i) + [Mark(RBRACE)] + rest) == Some((KeptMembers(v, i), rest))
    decreases v, |v.members| - i
  {
    hide Flat, Kept, ReadValue, ReadMembers;
    if i < |v.members| {
      ReadFlatMembers(v, i + 1, rest);
      var (k, value) := v.members[i];
      if value == Absent {
        assert KeptMembers(v, i) == KeptMembers(v, i + 1);
      } else {
        var others := FlatMembers(v, i + 1);
        ReadFlat(value, Onward(others, rest));
        ReadOneMore(k, value, others, KeptMembers(v, i + 1), rest);
      }
    }
  }

  /** What follows a member, when these members come after it. */
  function Onward(others: seq<Token>, rest: seq<Token>): seq<Token> {
    if others == [] then [Mark(RBRACE)] + rest else [Mark(COMMA)] + (others + [Mark(RBRACE)] + rest)
  }

  /** One member is read, and after a comma the others. */
  lemma ReadOneMore(k: Chars, value: Json, others: seq<Token>, ms: seq<(Chars, Json)>, rest: seq<Token>)
    requires ReadValue(Flat(value) + Onward(others, rest)) == Some((Kept(value), Onward(others, rest)))
    requires if others == [] then ms == [] else ReadMembers(others + [Mark(RBRACE)] + rest) == Some((ms, rest))
    ensures ReadMembers(Glue([Quoted(k), Mark(COLON)] + Flat(value), others) + [Mark(RBRACE)] + rest)
         == Some(([(k, Kept(value))] + ms, rest))
  {
    hide Flat, Kept, ReadValue, ReadMembers;
    var e := [Quoted(k), Mark(COLON)] + Flat(value);
    if others == [] {
      ReadLast(k, value, rest);
      assert e + [Mark(RBRACE)] + rest == e + ([Mark(RBRACE)] + rest);
      assert [(k, Kept(value))] + ms == [(k, Kept(value))];
    } else {
      var more := others + [Mark(RBRACE)] + rest;
      ReadFurther(k, value, more, ms, rest);
      Regroup(e, others, rest);
    }
  }

  lemma Regroup(e: seq<Token>, others: seq<Token>, rest: seq<Token>)
    ensures (e + [Mark(COMMA)] + others) + [Mark(RBRACE)] + rest
         == e + ([Mark(COMMA)] + (others + [Mark(RBRACE)] + rest))
  {
  }

  lemma ReadLast(k: Chars, value: Json, rest: seq<Token>)
    requires ReadValue(Flat(value) + ([Mark(RBRACE)] + rest)) == Some((Kept(value), [Mark(RBRACE)] + rest))
    ensures ReadMembers([Quoted(k), Mark(COLON)] + Flat(value) + ([Mark(RBRACE)] + rest))
         == Some(([(k, Kept(value))], rest))
  {
    hide Flat, Kept, ReadValue;
    var on := [Mark(RBRACE)] + rest;
    assert ([Quoted(k), Mark(COLON)] + Flat(value) + on)[2..] == Flat(value) + on;
    assert on[1..] == rest;
  }

  lemma ReadFurther(k: Chars, value: Json, more: seq<Token>, ms: seq<(Chars, Json)>, rest: seq<Token>)
    requires ReadValue(Flat(value) + ([Mark(COMMA)] + more)) == Some((Kept(value), [Mark(COMMA)] + more))
    requires ReadMembers(more) == Some((ms, rest))
    ensures ReadMembers([Quoted(k), Mark(COLON)] + Flat(value) + ([Mark(COMMA)] + more))
         == Some(([(k, Kept(value))] + ms, rest))
  {
    hide Flat, Kept, ReadValue;
    var on := [Mark(COMMA)] + more;
    assert ([Quoted(k), Mark(COLON)] + Flat(value) + on)[2..] == Flat(value) + on;
    assert on[1..] == more;
  }

  /**
   With any indentation made of white space, the printed text is a JSON text, and it means the
   value that was printed, up to what JSON cannot say.
   */
  lemma PrintedMeans(v: Json, indent: Chars)
    requires v != Absent && AllSpace(indent)
    ensures Meaning(Text(Tokens(v, [], indent))) == Some(Kept(v))
  {
    hide Lex, ReadValue, Tokens, Text, Kept, Flat;
    var ts := Tokens(v, [], indent);
    ValuePlaced(v, [], indent);
    ValueMade(v, [], indent, IsSpace);
    assert Blanks(ts) by {
      assert forall i | 0 <= i < |ts| :: Made(ts[i], IsSpace);
    }
    LexText(ts, Live);
    TightValue(v, [], indent);
    ReadFlat(v, []);
    assert Flat(v) + [] == Flat(v);
  }

  /** Two values with the same text are the same as far as JSON can tell, whatever the indentations. */
  lemma PrintingIsInjective(v: Json, w: Json, indent: Chars, indent': Chars)
    requires v != Absent && w != Absent && AllSpace(indent) && AllSpace(indent')
    requires Text(Tokens(v, [], indent)) == Text(Tokens(w, [], indent'))
    ensures Kept(v) == Kept(w)
  {
    PrintedMeans(v, indent);
    PrintedMeans(w, indent');
  }
}
