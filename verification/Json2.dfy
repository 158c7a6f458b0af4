/**
 contrib/json/json2.js: the printer behind JSON.stringify, and the filter of four regular
 expressions that JSON.parse puts in front of eval.  Texts are sequences of 16-bit code units.
 */
module Json2 {
  import opened Wrappers

  type Chars = seq<Code>

  const BACKSPACE: Code := 8
  const TAB: Code := 9
  const NEWLINE: Code := 10
  const FORM_FEED: Code := 12
  const RETURN: Code := 13
  const BLANK: Code := 32
  const QUOTE: Code := 34
  const PLUS: Code := 43
  const COMMA: Code := 44
  const MINUS: Code := 45
  const DOT: Code := 46
  const SLASH: Code := 47
  const COLON: Code := 58
  const AT: Code := 64
  const OPEN: Code := 91
  const BACKSLASH: Code := 92
  const CLOSE: Code := 93
  const LETTER_U: Code := 117
  const LBRACE: Code := 123
  const RBRACE: Code := 125
  const TRUE: Chars := [116, 114, 117, 101]
  const FALSE: Chars := [102, 97, 108, 115, 101]
  const NULL: Chars := [110, 117, 108, 108]

  // ---------- Character classes ----------

  predicate IsDigit(c: Code) {
    48 <= c <= 57
  }

  predicate IsHexDigit(c: Code) {
    IsDigit(c) || 97 <= c <= 102 || 65 <= c <= 70
  }

  /** rx_dangerous: characters that JavaScript engines have trouble with. */
  predicate Dangerous(c: Code) {
    || c == 0 || c == 0xad || 0x600 <= c <= 0x604 || c == 0x70f || c == 0x17b4 || c == 0x17b5
    || 0x200c <= c <= 0x200f || 0x2028 <= c <= 0x202f || 0x2060 <= c <= 0x206f || c == 0xfeff || 0xfff0 <= c
  }

  /** rx_escapable. */
  predicate Escapable(c: Code) {
    || c == BACKSLASH || c == QUOTE || c <= 0x1f || 0x7f <= c <= 0x9f || c == 0xad
    || 0x600 <= c <= 0x604 || c == 0x70f || c == 0x17b4 || c == 0x17b5
    || 0x200c <= c <= 0x200f || 0x2028 <= c <= 0x202f || 0x2060 <= c <= 0x206f || c == 0xfeff || 0xfff0 <= c
  }

  /** \s: the white space and line terminators of ECMAScript. */
  predicate IsSpace(c: Code) {
    || TAB <= c <= RETURN || c == BLANK || c == 0xa0 || c == 0x1680 || c == 0x180e || 0x2000 <= c <= 0x200a
    || c == 0x2028 || c == 0x2029 || c == 0x202f || c == 0x205f || c == 0x3000 || c == 0xfeff
  }

  // ---------- The number pattern of rx_three: -?\d+(?:\.\d*)?(?:[eE][+\-]?\d+)? ----------

  /** \d*: the number of digits in front. */
  function Digits(s: Chars): (n: nat)
    ensures n <= |s|
  {
    if s != [] && IsDigit(s[0]) then 1 + Digits(s[1..]) else 0
  }

  function Fraction(s: Chars): (n: nat)
    ensures n <= |s|
  {
    if s != [] && s[0] == DOT then 1 + Digits(s[1..]) else 0
  }

  function Exponent(s: Chars): (n: nat)
    ensures n <= |s|
  {
    if s != [] && (s[0] == 101 || s[0] == 69) then
      var sign := if |s| > 1 && (s[1] == PLUS || s[1] == MINUS) then 1 else 0;
      var n := Digits(s[1 + sign..]);
      if n == 0 then 0 else 1 + sign + n
    else 0
  }

  /** How much of the text the pattern matches at its start; 0 when it does not match there. */
  function NumberLength(s: Chars): (n: nat)
    ensures n <= |s|
  {
    var sign := if s != [] && s[0] == MINUS then 1 else 0;
    var whole := Digits(s[sign..]);
    if whole == 0 then 0
    else
      var n := sign + whole + Fraction(s[sign + whole..]);
      n + Exponent(s[n..])
  }

  predicate IsNumber(s: Chars) {
    s != [] && NumberLength(s) == |s|
  }

  /** The texts that String gives for finite numbers. */
  type NumberText = s: Chars | IsNumber(s) witness [48]

  // ---------- quote ----------

  function HexDigit(n: nat): (c: Code)
    requires n < 16
    ensures IsHexDigit(c)
  {
    if n < 10 then 48 + n else 97 + (n - 10)
  }

  /** Number.prototype.toString(16). */
  function Hex(n: nat): (s: Chars)
    ensures |s| >= 1 && forall i | 0 <= i < |s| :: IsHexDigit(s[i])
  {
    if n < 16 then [HexDigit(n)] else Hex(n / 16) + [HexDigit(n % 16)]
  }

  /** ("0000" + a.charCodeAt(0).toString(16)).slice(-4). */
  function Padded(c: Code): (s: Chars)
    ensures |s| == 4 && forall i | 0 <= i < 4 :: IsHexDigit(s[i])
  {
    var s := [48, 48, 48, 48] + Hex(c);
    s[|s| - 4..]
  }

  function UnicodeEscape(c: Code): Chars {
    [BACKSLASH, LETTER_U] + Padded(c)
  }

  /** The table of character substitutions. */
  function Meta(c: Code): Option<Code> {
    if c == BACKSPACE then Some(98)
    else if c == TAB then Some(116)
    else if c == NEWLINE then Some(110)
    else if c == FORM_FEED then Some(102)
    else if c == RETURN then Some(114)
    else if c == QUOTE then Some(QUOTE)
    else if c == BACKSLASH then Some(BACKSLASH)
    else None
  }

  function Escaped(c: Code): Chars {
    if !Escapable(c) then [c]
    else if Meta(c).Some? then [BACKSLASH, Meta(c).value]
    else UnicodeEscape(c)
  }

  function EscapedAll(s: Chars): Chars {
    if s == [] then [] else Escaped(s[0]) + EscapedAll(s[1..])
  }

  function Quote(s: Chars): Chars {
    [QUOTE] + EscapedAll(s) + [QUOTE]
  }

  /** quote: without an escapable character the replacement is skipped, which changes nothing. */
  method QuoteText(s: Chars) returns (q: Chars)
    ensures q == Quote(s)
  {
    if exists i :: 0 <= i < |s| && Escapable(s[i]) {
      q := [QUOTE] + EscapedAll(s) + [QUOTE];
    } else {
      NothingToEscape(s);
      q := [QUOTE] + s + [QUOTE];
    }
  }

  lemma {:induction false} NothingToEscape(s: Chars)
    requires forall i | 0 <= i < |s| :: !Escapable(s[i])
    ensures EscapedAll(s) == s
  {
    if s != [] {
      NothingToEscape(s[1..]);
    }
  }

  // ---------- The meaning of a quoted string (ECMA-262 5th edition, section 15.12.1.1) ----------

  function HexValue(c: Code): (n: nat)
    requires IsHexDigit(c)
    ensures n < 16
  {
    if IsDigit(c) then c - 48 else if 97 <= c then c - 97 + 10 else c - 65 + 10
  }

  /** The number a string of hexadecimal digits stands for. */
  function HexNumber(s: Chars): nat
    requires forall i | 0 <= i < |s| :: IsHexDigit(s[i])
  {
    if s == [] then 0 else HexNumber(s[..|s| - 1]) * 16 + HexValue(s[|s| - 1])
  }

  function UnMeta(c: Code): Option<Code> {
    if c == 98 then Some(BACKSPACE)
    else if c == 116 then Some(TAB)
    else if c == 110 then Some(NEWLINE)
    else if c == 102 then Some(FORM_FEED)
    else if c == 114 then Some(RETURN)
    else if c == QUOTE || c == BACKSLASH || c == SLASH then Some(c)
    else None
  }

  /** What the text between two quotes denotes. */
  function Denoted(s: Chars): Option<Chars>
    decreases |s|
  {
    if s == [] then Some([])
    else if s[0] == QUOTE || s[0] <= 0x1f then None
    else if s[0] != BACKSLASH then Prepend(s[0], Denoted(s[1..]))
    else if |s| >= 2 && UnMeta(s[1]).Some? then Prepend(UnMeta(s[1]).value, Denoted(s[2..]))
    else if |s| >= 6 && s[1] == LETTER_U && forall i | 2 <= i < 6 :: IsHexDigit(s[i]) then
      assert forall i | 0 <= i < 4 :: s[2..6][i] == s[i + 2];
      Prepend(HexNumber(s[2..6]), Denoted(s[6..]))
    else None
  }

  function Prepend(n: nat, r: Option<Chars>): Option<Chars> {
    if r.Some? && n < 0x1_0000 then Some([n] + r.value) else None
  }

  lemma {:induction false} HexStandsFor(n: nat)
    ensures HexNumber(Hex(n)) == n
  {
    if n >= 16 {
      HexStandsFor(n / 16);
      assert Hex(n)[..|Hex(n)| - 1] == Hex(n / 16);
    } else {
      assert Hex(n)[..0] == [];
    }
  }

  lemma {:induction false} HexIsShort(n: nat)
    ensures n < 0x1000 ==> |Hex(n)| <= 3
    ensures n < 0x1_0000 ==> |Hex(n)| <= 4
  {
    if n >= 16 {
      assert |Hex(n)| == |Hex(n / 16)| + 1;
      if n / 16 >= 16 {
        assert |Hex(n / 16)| == |Hex(n / 256)| + 1;
        assert n / 256 >= 16 ==> |Hex(n / 256)| == |Hex(n / 4096)| + 1;
      }
    }
  }

  lemma {:induction false} LeadingZeros(n: nat, s: Chars)
    requires forall i | 0 <= i < |s| :: IsHexDigit(s[i])
    ensures HexNumber(Zeros(n) + s) == HexNumber(s)
    decreases n + |s|
  {
    var z := Zeros(n) + s;
    if s != [] {
      LeadingZeros(n, s[..|s| - 1]);
      assert z[..|z| - 1] == Zeros(n) + s[..|s| - 1];
    } else if n > 0 {
      LeadingZeros(n - 1, []);
      assert z[..|z| - 1] == Zeros(n - 1) + [];
    }
  }

  function Zeros(n: nat): (z: Chars)
    ensures |z| == n && forall i | 0 <= i < n :: z[i] == 48
  {
    seq(n, i => 48)
  }

  lemma {:induction false} HexRoundTrip(c: Code)
    ensures HexNumber(Padded(c)) == c
  {
    HexStandsFor(c);
    HexIsShort(c);
    PaddedIs(c);
    hide Hex, HexNumber, Padded;
    LeadingZeros(4 - |Hex(c)|, Hex(c));
  }

  lemma PaddedIs(c: Code)
    requires |Hex(c)| <= 4
    ensures Padded(c) == Zeros(4 - |Hex(c)|) + Hex(c)
  {
    hide Hex;
  }

  /** One step of reading back: the escape of a character denotes the character. */
  lemma DenotedEscape(c: Code, rest: Chars)
    ensures Denoted(Escaped(c) + rest) == Prepend(c, Denoted(rest))
  {
    hide Hex, HexNumber, Padded;
    if Escapable(c) && Meta(c).None? {
      DenotedUnicode(c, rest);
    } else {
      var e := Escaped(c);
      assert (e + rest)[|e|..] == rest;
    }
  }

  lemma DenotedUnicode(c: Code, rest: Chars)
    ensures Denoted(UnicodeEscape(c) + rest) == Prepend(c, Denoted(rest))
  {
    hide Hex, HexNumber, Padded, IsHexDigit;
    var s := UnicodeEscape(c) + rest;
    assert s[0] == BACKSLASH && s[1] == LETTER_U && s[6..] == rest;
    assert s[2..6] == Padded(c);
    assert forall i | 2 <= i < 6 :: s[i] == Padded(c)[i - 2];
    HexRoundTrip(c);
  }

  /** A character that has to be escaped, by its number. */
  predicate MustEscape(c: Code) {
    || c == 34 || c == 92 || c < 32 || 127 <= c < 160 || IsHidden(c)
  }

  /** The characters that are dropped or misread when they stand unescaped. */
  predicate IsHidden(c: Code) {
    || c in {173, 1807, 6068, 6069, 65279} || 1536 <= c < 1541 || 8204 <= c < 8208 || 8232 <= c < 8240
    || 8288 <= c < 8304 || 65520 <= c
  }

  /** The escape of a character, letter by letter: digits are in lower case, and only what must be escaped is. */
  lemma EscapeExactly(c: Code)
    ensures var e := Escaped(c); var digit := (d: Code) => if d < 58 then d - 48 else d - 87;
      if !MustEscape(c) then e == [c]
      else if c in {34, 92} then e == [92, c]
      else if c == 8 then e == [92, 98]
      else if c == 9 then e == [92, 116]
      else if c == 10 then e == [92, 110]
      else if c == 12 then e == [92, 102]
      else if c == 13 then e == [92, 114]
      else
        && |e| == 6 && e[0] == 92 && e[1] == 117
        && (forall i | 2 <= i < 6 :: 48 <= e[i] < 58 || 97 <= e[i] < 103)
        && c == 4096 * digit(e[2]) + 256 * digit(e[3]) + 16 * digit(e[4]) + digit(e[5])
  {
    hide Padded, UnicodeEscape;
    UnicodeExactly(c);
  }

  lemma UnicodeExactly(c: Code)
    ensures var e := UnicodeEscape(c); var digit := (d: Code) => if d < 58 then d - 48 else d - 87;
      && |e| == 6 && e[0] == 92 && e[1] == 117
      && (forall i | 2 <= i < 6 :: 48 <= e[i] < 58 || 97 <= e[i] < 103)
      && c == 4096 * digit(e[2]) + 256 * digit(e[3]) + 16 * digit(e[4]) + digit(e[5])
  {
    hide Padded, Hex, HexNumber, IsHexDigit;
    var p, e := Padded(c), UnicodeEscape(c);
    HexRoundTrip(c);
    PaddedIsLower(c);
    NumberOfFour(p);
    assert e[2] == p[0] && e[3] == p[1] && e[4] == p[2] && e[5] == p[3];
    LowerDigit(p[0]);
    LowerDigit(p[1]);
    LowerDigit(p[2]);
    LowerDigit(p[3]);
  }

  lemma LowerDigit(d: Code)
    requires IsHexDigit(d) && (48 <= d < 58 || 97 <= d < 103)
    ensures HexValue(d) == if d < 58 then d - 48 else d - 87
  {
  }

  lemma PaddedIsLower(c: Code)
    ensures forall i | 0 <= i < 4 :: 48 <= Padded(c)[i] < 58 || 97 <= Padded(c)[i] < 103
  {
    hide Hex, Padded;
    HexIsShort(c);
    PaddedIs(c);
    LowerDigits(c);
  }

  lemma {:induction false} LowerDigits(n: nat)
    ensures forall i | 0 <= i < |Hex(n)| :: 48 <= Hex(n)[i] < 58 || 97 <= Hex(n)[i] < 103
  {
    if n >= 16 {
      LowerDigits(n / 16);
    }
  }

  lemma NumberOfFour(p: Chars)
    requires |p| == 4 && forall i | 0 <= i < 4 :: IsHexDigit(p[i])
    ensures HexNumber(p) == 4096 * HexValue(p[0]) + 256 * HexValue(p[1]) + 16 * HexValue(p[2]) + HexValue(p[3])
  {
    hide HexValue;
    var p3, p2, p1 := p[..3], p[..2], p[..1];
    assert p3[..2] == p2 && p2[..1] == p1 && p1[..0] == [];
    assert HexNumber(p1) == HexValue(p[0]);
    assert HexNumber(p2) == HexNumber(p1) * 16 + HexValue(p[1]);
    assert HexNumber(p3) == HexNumber(p2) * 16 + HexValue(p[2]);
  }

  /** A quoted text is made of the escapes of its characters, between two quotes. */
  lemma QuoteExactly(s: Chars, c: Code)
    ensures Quote([]) == [34, 34]
    ensures Quote(s + [c]) == Quote(s)[..|Quote(s)| - 1] + Escaped(c) + [34]
  {
    EscapedJoins(s, [c]);
    assert [c][1..] == [] && EscapedAll([c]) == Escaped(c) + [];
    hide Escaped, EscapedAll;
    LastQuote(EscapedAll(s), Escaped(c));
  }

  lemma LastQuote(a: Chars, b: Chars)
    ensures [QUOTE] + (a + b) + [QUOTE] == ([QUOTE] + a + [QUOTE])[..|a| + 1] + b + [QUOTE]
  {
    assert ([QUOTE] + a + [QUOTE])[..|a| + 1] == [QUOTE] + a;
  }

  lemma JoinedLeft(a: Chars, b: Chars, c: Chars)
    ensures a + (b + c) == (a + b) + c
  {
  }

  lemma {:induction false} EscapedJoins(a: Chars, b: Chars)
    ensures EscapedAll(a + b) == EscapedAll(a) + EscapedAll(b)
  {
    hide Escaped;
    if a == [] {
      assert a + b == b;
    } else {
      EscapedJoins(a[1..], b);
      assert (a + b)[0] == a[0] && (a + b)[1..] == a[1..] + b;
      JoinedLeft(Escaped(a[0]), EscapedAll(a[1..]), EscapedAll(b));
    }
  }

  /** Quoting loses nothing: what stands between the quotes denotes the string. */
  lemma {:induction false} QuoteRoundTrip(s: Chars)
    ensures Denoted(EscapedAll(s)) == Some(s)
  {
    if s != [] {
      QuoteRoundTrip(s[1..]);
      DenotedEscape(s[0], EscapedAll(s[1..]));
      assert s == [s[0]] + s[1..];
    }
  }
}
