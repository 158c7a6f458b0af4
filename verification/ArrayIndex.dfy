/** Which property ids are array indices (js/src/jsarray.c), in 32-bit wrap-around arithmetic. */
module ArrayIndex {
  import opened Wrappers

  const U32_LIMIT: nat := 0x1_0000_0000
  /** 2^32 - 1, the one 32-bit number that is not an array index. */
  const MAX_INDEX: nat := 0xFFFF_FFFF
  /** The length of "4294967295". */
  const MAX_DIGITS: nat := 10
  /** JSVAL_INT_MAX: the largest integer an id holds untagged. */
  const INT_ID_MAX: nat := 0x3FFF_FFFF

  datatype Id = IntId(i: int) | StringId(chars: seq<Code>) | ObjectId

  function U32(n: nat): (r: nat)
    ensures r < U32_LIMIT
    ensures n < U32_LIMIT ==> r == n
  {
    n % U32_LIMIT
  }

  predicate IsDigit(c: Code) {
    48 <= c <= 57
  }

  // ---------- Decimal numerals ----------

  /** The canonical decimal numeral of n. */
  function Decimal(n: nat): (s: seq<Code>)
    ensures |s| >= 1
  {
    if n < 10 then [48 + n] else Decimal(n / 10) + [48 + n % 10]
  }

  predicate AllDigits(s: seq<Code>) {
    forall i | 0 <= i < |s| :: IsDigit(s[i])
  }

  /** The number a string of digits denotes. */
  function ValueOf(s: seq<Code>): (n: nat)
    requires AllDigits(s)
  {
    if s == [] then 0 else 10 * ValueOf(s[..|s| - 1]) + (s[|s| - 1] - 48)
  }

  /** A numeral has only digits, has no leading zero unless it is "0", and denotes its number. */
  lemma {:induction false} DecimalIsCanonical(n: nat)
    ensures AllDigits(Decimal(n))
    ensures Decimal(n)[0] == 48 <==> n == 0
    ensures ValueOf(Decimal(n)) == n
  {
    if 10 <= n {
      DecimalIsCanonical(n / 10);
      var s := Decimal(n);
      assert s[..|s| - 1] == Decimal(n / 10);
    }
  }

  /** Conversely, digits without a superfluous leading zero are the numeral of what they denote. */
  lemma {:induction false} CanonicalIsDecimal(s: seq<Code>)
    requires |s| >= 1 && AllDigits(s) && (|s| == 1 || s[0] != 48)
    ensures Decimal(ValueOf(s)) == s
    ensures |s| > 1 ==> ValueOf(s) >= 10
  {
    var front := s[..|s| - 1];
    if |s| == 1 {
      assert ValueOf(front) == 0;
    } else {
      CanonicalIsDecimal(front);
      if |front| == 1 {
        assert ValueOf(front[..0]) == 0;
      }
      var d := s[|s| - 1] - 48;
      assert (10 * ValueOf(front) + d) / 10 == ValueOf(front);
      assert s == front + [48 + d];
    }
  }

  /** Nine digits always fit 32 bits. */
  lemma {:induction false} ShortValueIsSmall(s: seq<Code>)
    requires AllDigits(s) && |s| <= 9
    ensures ValueOf(s) < Pow10(|s|) <= Pow10(9) == 1_000_000_000
  {
    assert Pow10(3) == 1000 && Pow10(6) == 1000 * Pow10(3) && Pow10(9) == 1000 * Pow10(6);
    if s != [] {
      ShortValueIsSmall(s[..|s| - 1]);
    }
    Pow10Grows(|s|, 9);
  }

  lemma {:induction false} Pow10Grows(m: nat, n: nat)
    requires m <= n
    ensures 1 <= Pow10(m) <= Pow10(n)
  {
    if m < n {
      Pow10Grows(m, n - 1);
    } else if 0 < n {
      Pow10Grows(m - 1, n - 1);
    }
  }

  function Pow10(n: nat): nat {
    if n == 0 then 1 else 10 * Pow10(n - 1)
  }

  // ---------- js_IdIsIndex ----------

  /** The characters up to the first NUL, which is where a C string ends. */
  function UpToNul(s: seq<Code>): (r: seq<Code>)
    ensures r <= s && 0 !in r
    ensures r == s || s[|r|] == 0
  {
    if s == [] || s[0] == 0 then [] else [s[0]] + UpToNul(s[1..])
  }

  lemma {:induction false} UpToNulIsUnique(s: seq<Code>, k: nat)
    requires k <= |s| && 0 !in s[..k] && (k == |s| || s[k] == 0)
    ensures UpToNul(s) == s[..k]
  {
  }

  /** What js_IdIsIndex decides: id denotes the array index n. */
  ghost predicate Denotes(id: Id, n: nat) {
    match id
    case IntId(i) => i == n
    case StringId(s) => |s| <= MAX_DIGITS && UpToNul(s) == Decimal(n) && n < MAX_INDEX
    case ObjectId => false
  }

  /** The text after the scanned digits s[..k] is not the end of the string: no index is denoted. */
  lemma StrayTextDenotesNothing(s: seq<Code>, k: nat, n: nat)
    requires 1 <= k < |s| && AllDigits(s[..k]) && s[k] != 0
    requires IsDigit(s[k]) ==> k == 1 && s[0] == 48
    ensures !Denotes(StringId(s), n)
  {
    assert forall i | 0 <= i < k :: IsDigit(s[i]) by {
      assert forall i | 0 <= i < k :: s[i] == s[..k][i];
    }
    DecimalIsCanonical(n);
    assert k < |UpToNul(s)|;
  }

  /** If the scanned digits s[..k] end the string, they denote their value and nothing else. */
  lemma ScannedDenotes(s: seq<Code>, k: nat, n: nat)
    requires 1 <= k <= |s| <= MAX_DIGITS && AllDigits(s[..k]) && (k == 1 || s[0] != 48)
    requires k == |s| || s[k] == 0
    ensures Denotes(StringId(s), n) <==> n == ValueOf(s[..k]) && n < MAX_INDEX
  {
    UpToNulIsUnique(s, k);
    CanonicalIsDecimal(s[..k]);
    DecimalIsCanonical(n);
  }

  lemma OneMoreDigit(s: seq<Code>, k: nat)
    requires k < |s| && AllDigits(s[..k]) && IsDigit(s[k])
    ensures AllDigits(s[..k + 1]) && ValueOf(s[..k + 1]) == 10 * ValueOf(s[..k]) + (s[k] - 48)
  {
    assert s[..k + 1][..k] == s[..k];
  }

  lemma NoLeadingDigit(s: seq<Code>, n: nat)
    requires s == [] || !IsDigit(s[0]) || |s| > MAX_DIGITS
    ensures !Denotes(StringId(s), n)
  {
    DecimalIsCanonical(n);
    assert IsDigit(Decimal(n)[0]);
  }

  /** js_IdIsIndex, with *indexp as the value of the result. */
  method IdIsIndex(id: Id) returns (r: Option<nat>)
    ensures forall n: nat :: r == Some(n) <==> Denotes(id, n)
  {
    match id {
      case IntId(i) =>
        r := if i < 0 then None else Some(i);
      case ObjectId =>
        r := None;
      case StringId(s) =>
        r := StringIsIndex(s);
    }
  }

  method StringIsIndex(s: seq<Code>) returns (r: Option<nat>)
    ensures forall n: nat :: r == Some(n) <==> Denotes(StringId(s), n)
  {
    hide Denotes, U32;
    if !(s != [] && IsDigit(s[0]) && |s| < MAX_DIGITS + 1) {
      forall n: nat ensures !Denotes(StringId(s), n) {
        NoLeadingDigit(s, n);
      }
      return None;
    }
    var index: nat := s[0] - 48;
    var oldIndex: nat, c: nat := 0, 0;
    var k := 1;
    OneMoreDigit(s, 0);
    if index != 0 {
      while k < |s| && IsDigit(s[k])
        invariant 1 <= k <= |s| && AllDigits(s[..k])
        invariant index == U32(ValueOf(s[..k]))
        invariant k == 1 ==> oldIndex == c == 0 && ValueOf(s[..k]) < 10
        invariant k > 1 ==> ValueOf(s[..k]) == 10 * oldIndex + c && c < 10
      {
        ShortValueIsSmall(s[..k]);
        OneMoreDigit(s, k);
        oldIndex := index;
        c := s[k] - 48;
        index := U32(10 * index + c);
        k := k + 1;
      }
    }
    if k == |s| || s[k] == 0 {
      r := None;
      if oldIndex < MAX_INDEX / 10 || (oldIndex == MAX_INDEX / 10 && c < MAX_INDEX % 10) {
        r := Some(index);
      }
      forall n: nat ensures r == Some(n) <==> Denotes(StringId(s), n) {
        ScannedDenotes(s, k, n);
      }
    } else {
      forall n: nat ensures !Denotes(StringId(s), n) {
        StrayTextDenotesNothing(s, k, n);
      }
      r := None;
    }
  }

  /**
   The definition of an array index in ECMA-262 3rd edition, section 15.4: a string without NUL is
   the index n exactly when it is the numeral of n and n is not 2^32 - 1 (or beyond).
   */
  lemma IndexStrings(s: seq<Code>, n: nat)
    requires 0 !in s
    ensures Denotes(StringId(s), n) <==> s == Decimal(n) && n < 4_294_967_295
  {
    UpToNulIsUnique(s, |s|);
    assert s[..|s|] == s;
    if n < MAX_INDEX {
      assert Pow10(5) == 100_000 && Pow10(10) == 100_000 * Pow10(5);
      NumeralLength(n, 10);
    }
  }

  /** A string of at most ten characters with a NUL, and a canonical numeral up to the first one. */
  predicate NulFollowsIndex(s: seq<Code>) {
    var t := UpToNul(s);
    0 in s && |s| <= MAX_DIGITS && t != [] && AllDigits(t) && (|t| == 1 || t[0] != 48)
  }

  /**
   The code agrees with the definition on a string, for every index, exactly when it is not one of
   these.
   */
  lemma IndexStringsExactly(s: seq<Code>)
    ensures (forall n: nat :: Denotes(StringId(s), n) <==> s == Decimal(n) && n < 4_294_967_295)
       <==> !NulFollowsIndex(s)
  {
    var t := UpToNul(s);
    if NulFollowsIndex(s) {
      var n := ValueOf(t);
      CanonicalIsDecimal(t);
      ShortValueIsSmall(t);
      assert Denotes(StringId(s), n) && s != Decimal(n);
    } else {
      forall n: nat ensures Denotes(StringId(s), n) <==> s == Decimal(n) && n < MAX_INDEX {
        DecimalIsCanonical(n);
        if 0 !in s {
          IndexStrings(s, n);
        }
      }
    }
  }

  /** An input: "7" and a NUL denotes 7, and is not the numeral of 7. */
  lemma NulEndsAnIndex()
    ensures Denotes(StringId([55, 0]), 7) && [55, 0] != Decimal(7)
  {
    UpToNulIsUnique([55, 0], 1);
    assert [55, 0][..1] == [55];
  }

  lemma {:induction false} NumeralLength(n: nat, k: nat)
    requires 1 <= k && n < Pow10(k)
    ensures |Decimal(n)| <= k
  {
    if 10 <= n {
      NumeralLength(n / 10, k - 1);
    }
  }

  // ---------- IndexToId ----------

  function IndexToId(index: nat): Id {
    if index <= INT_ID_MAX then IntId(index) else StringId(Decimal(index))
  }

  /** js_IdIsIndex inverts IndexToId on every 32-bit number but 2^32 - 1, which is no index at all. */
  lemma IdRoundTrip(index: nat, n: nat)
    requires index < 4_294_967_296
    ensures Denotes(IndexToId(index), n) <==> n == index && index != 4_294_967_295
  {
    if INT_ID_MAX < index {
      DecimalIsCanonical(index);
      DecimalIsCanonical(n);
      assert AllDigits(Decimal(index));
      IndexStrings(Decimal(index), n);
    }
  }

  /** Hence distinct numbers have distinct ids, and an array may be keyed by the numbers. */
  lemma IdsAreDistinct(i: nat, j: nat)
    requires IndexToId(i) == IndexToId(j)
    ensures i == j
  {
    DecimalIsCanonical(i);
    DecimalIsCanonical(j);
  }
}
