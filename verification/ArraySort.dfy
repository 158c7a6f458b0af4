/** array_sort of js/src/jsarray.c: its comparators, and sorting arrays that have holes. */
module ArraySort {
  import opened ArrayIndex
  import opened JSValues
  import opened SparseArray
  import opened Wrappers
  import HS = HeapSort

  // ---------- js_CompareStrings ----------

  /** The first difference of code units decides; without one, the difference of lengths. */
  function CompareStrings(a: seq<Code>, b: seq<Code>): int {
    if a == [] || b == [] then |a| - |b|
    else if a[0] != b[0] then a[0] - b[0]
    else CompareStrings(a[1..], b[1..])
  }

  /** js_CompareStrings itself, as the loop it is. */
  method CompareStringsLoop(a: seq<Code>, b: seq<Code>) returns (cmp: int)
    ensures cmp == CompareStrings(a, b)
  {
    var n := if |a| < |b| then |a| else |b|;
    var i := 0;
    while i < n
      invariant i <= n && CompareStrings(a[i..], b[i..]) == CompareStrings(a, b)
    {
      cmp := a[i] as int - b[i] as int;
      if cmp != 0 {
        return;
      }
      assert a[i..][1..] == a[i + 1..] && b[i..][1..] == b[i + 1..];
      i := i + 1;
    }
    cmp := |a| - |b|;
  }

  lemma {:induction false} CompareStringsFlips(a: seq<Code>, b: seq<Code>)
    ensures CompareStrings(a, b) == -CompareStrings(b, a)
    ensures CompareStrings(a, b) == 0 <==> a == b
  {
    if a != [] && b != [] && a[0] == b[0] {
      CompareStringsFlips(a[1..], b[1..]);
      assert a == [a[0]] + a[1..] && b == [b[0]] + b[1..];
    }
  }

  lemma {:induction false} CompareStringsChains(a: seq<Code>, b: seq<Code>, c: seq<Code>)
    requires CompareStrings(a, b) <= 0 && CompareStrings(b, c) <= 0
    ensures CompareStrings(a, c) <= 0
  {
    if a != [] && b != [] && c != [] && a[0] == b[0] == c[0] {
      CompareStringsChains(a[1..], b[1..], c[1..]);
    }
  }

  /** One text does not come after another: it is a prefix, or has the smaller code unit where they first differ. */
  ghost predicate TextAtMost(a: seq<Code>, b: seq<Code>) {
    a <= b || exists k :: DiffersAt(a, b, k) && a[k] < b[k]
  }

  predicate DiffersAt(a: seq<Code>, b: seq<Code>, k: int) {
    0 <= k < |a| && k < |b| && a[..k] == b[..k] && a[k] != b[k]
  }

  lemma DiffersLater(a: seq<Code>, b: seq<Code>)
    ensures forall k | DiffersAt(a, b, k) && 0 < k :: a[0] == b[0]
  {
    forall k | DiffersAt(a, b, k) && 0 < k ensures a[0] == b[0] {
      assert a[..k][0] == a[0] && b[..k][0] == b[0];
    }
  }

  /** The comparison is that of dictionaries. */
  lemma {:induction false} CompareStringsExactly(a: seq<Code>, b: seq<Code>)
    ensures CompareStrings(a, b) <= 0 <==> TextAtMost(a, b)
  {
    DiffersLater(a, b);
    if a == [] {
      assert a <= b;
    } else if b == [] {
    } else if a[0] != b[0] {
      assert DiffersAt(a, b, 0);
      if a[0] > b[0] {
        assert forall k | DiffersAt(a, b, k) :: k == 0;
      }
    } else {
      CompareStringsExactly(a[1..], b[1..]);
      assert a == [a[0]] + a[1..] && b == [b[0]] + b[1..];
      forall k | DiffersAt(a[1..], b[1..], k) ensures DiffersAt(a, b, k + 1) {
        assert a[..k + 1] == [a[0]] + a[1..][..k] && b[..k + 1] == [b[0]] + b[1..][..k];
      }
      forall k | DiffersAt(a, b, k) ensures k > 0 && DiffersAt(a[1..], b[1..], k - 1) {
        assert a[1..][..k - 1] == a[..k][1..] && b[1..][..k - 1] == b[..k][1..];
      }
      if k :| DiffersAt(a[1..], b[1..], k) && a[1..][k] < b[1..][k] {
        assert DiffersAt(a, b, k + 1);
      }
    }
  }

  // ---------- sort_compare ----------

  /** What a comparison function can return, after js_ValueToNumber. */
  datatype Number = NaN | NegativeInfinity | Finite(r: real) | PositiveInfinity

  /** The clamp of sort_compare to -1, 0 and 1, with NaN read as 0. */
  function Clamp(d: Number): (c: int)
    ensures -1 <= c <= 1
    ensures c > 0 <==> d == PositiveInfinity || (d.Finite? && d.r > 0.0)
    ensures c < 0 <==> d == NegativeInfinity || (d.Finite? && d.r < 0.0)
  {
    match d
    case NaN => 0
    case NegativeInfinity => -1
    case PositiveInfinity => 1
    case Finite(r) => if r == 0.0 then 0 else if r > 0.0 then 1 else -1
  }

  predicate Positive(d: Number) {
    d == PositiveInfinity || (d.Finite? && d.r > 0.0)
  }

  predicate Negative(d: Number) {
    d == NegativeInfinity || (d.Finite? && d.r < 0.0)
  }

  /** What a comparison function has to answer on the values V. */
  ghost predicate ConsistentCall(call: (Value, Value) -> Number, V: set<Value>) {
    && (forall x, y {:trigger Above(call, x, y)} | x in V && y in V :: Above(call, x, y) <==> Negative(call(y, x)))
    && (forall x, y, z {:trigger Above(call, x, y), Above(call, y, z)} | x in V && y in V && z in V ::
          !Above(call, x, y) && !Above(call, y, z) ==> !Above(call, x, z))
  }

  /** The function says that x comes after y. */
  predicate Above(call: (Value, Value) -> Number, x: Value, y: Value) {
    Positive(call(x, y))
  }

  predicate IsOrdinary(p: Place) {
    p != None && p != Some(Undefined)
  }

  /** Of any two ordinary values the function does not say that the earlier one comes after the later one. */
  ghost predicate AscendsByCall(call: (Value, Value) -> Number, s: seq<Place>) {
    forall i, j | 0 <= i < j < |s| && IsOrdinary(s[i]) && IsOrdinary(s[j]) :: !Above(call, s[i].value, s[j].value)
  }

  /** The texts of the ordinary values are in the order of dictionaries. */
  ghost predicate AscendsByText(toText: Value -> seq<Code>, s: seq<Place>) {
    forall i, j | 0 <= i < j < |s| && IsOrdinary(s[i]) && IsOrdinary(s[j]) ::
      TextAtMost(toText(s[i].value), toText(s[j].value))
  }

  /** Behind an undefined there are only others and holes, and behind a hole only holes. */
  ghost predicate RestLast(s: seq<Place>) {
    forall i, j | 0 <= i < j < |s| :: (s[i] == None ==> s[j] == None) && (s[i] == Some(Undefined) ==> !IsOrdinary(s[j]))
  }

  /** The order asked for: by js_ValueToString (the default), or by the caller's function. */
  datatype Order =
    | ByText(toText: Value -> seq<Code>)
    | ByFunction(call: (Value, Value) -> Number)

  const UNDEFINED: Place := Some(Undefined)

  /** The comparison of two ordinary values, neither holes nor undefined. */
  function CompareValues(order: Order, a: Value, b: Value): int {
    match order
    case ByText(toText) => if a == b then 0 else CompareStrings(toText(a), toText(b))
    case ByFunction(call) => Clamp(call(a, b))
  }

  function SortCompare(order: Order, a: Place, b: Place): int {
    if a == None || b == None then (if a == b then 0 else if a != None then -1 else 1)
    else if a == UNDEFINED || b == UNDEFINED then (if a == b then 0 else if a != UNDEFINED then -1 else 1)
    else CompareValues(order, a.value, b.value)
  }

  function Comparator(order: Order): (Place, Place) -> int {
    (a, b) => SortCompare(order, a, b)
  }

  /** sort_compare_strings; it is only ever given strings. */
  function CompareTexts(a: Place, b: Place): int {
    CompareStrings(TextOf(a), TextOf(b))
  }

  function TextOf(p: Place): seq<Code> {
    if p.Some? && p.value.Text? then p.value.chars else []
  }

  /** Ordinary values first, then undefined, then holes. */
  function Class(p: Place): (c: nat)
    ensures c <= 2
  {
    if p == None then 2 else if p == UNDEFINED then 1 else 0
  }

  ghost function ByClass(): (Place, Place) -> bool {
    (a, b) => Class(a) <= Class(b)
  }

  /** The ordinary values among the places S. */
  ghost function Ordinary(S: set<Place>): set<Value> {
    set p | p in S && Class(p) == 0 :: p.value
  }

  ghost predicate ConsistentOrder(order: Order, V: set<Value>) {
    && (forall x, y {:trigger CompareValues(order, x, y)} | x in V && y in V ::
          CompareValues(order, x, y) < 0 <==> CompareValues(order, y, x) > 0)
    && (forall x, y, z {:trigger CompareValues(order, x, y), CompareValues(order, y, z)} | x in V && y in V && z in V ::
          CompareValues(order, x, y) <= 0 && CompareValues(order, y, z) <= 0 ==> CompareValues(order, x, z) <= 0)
  }

  /** The default order is consistent on all values, whatever js_ValueToString yields. */
  lemma TextOrderIsConsistent(toText: Value -> seq<Code>, V: set<Value>)
    ensures ConsistentOrder(ByText(toText), V)
  {
    var order := ByText(toText);
    forall x, y | x in V && y in V
      ensures CompareValues(order, x, y) < 0 <==> CompareValues(order, y, x) > 0
    {
      CompareStringsFlips(toText(x), toText(y));
    }
    forall x, y, z | x in V && y in V && z in V && CompareValues(order, x, y) <= 0 && CompareValues(order, y, z) <= 0
      ensures CompareValues(order, x, z) <= 0
    {
      CompareStringsFlips(toText(x), toText(y));
      CompareStringsFlips(toText(y), toText(z));
      CompareStringsChains(toText(x), toText(y), toText(z));
    }
  }

  /**
   sort_compare extends a total preorder on the ordinary values to one on all places, with
   undefined above them and holes on top.
   */
  lemma SortCompareIsConsistent(order: Order, S: set<Place>)
    requires ConsistentOrder(order, Ordinary(S))
    ensures HS.Consistent(Comparator(order), S)
    ensures forall a, b {:trigger SortCompare(order, a, b)} | a in S && b in S && Class(a) < Class(b) ::
              SortCompare(order, a, b) < 0
  {
  }

  /**
   Whatever a comparison function answers about ordinary values, sort_compare's answers agree with
   the order of the three classes.
   */
  lemma SortCompareServesClasses(order: Order, S: set<Place>)
    ensures HS.Serves(Comparator(order), ByClass(), S)
  {
  }

  /** On strings the two comparators agree, if js_ValueToString leaves strings alone. */
  lemma StringsCompareAlike(toText: Value -> seq<Code>, a: Place, b: Place)
    requires a.Some? && a.value.Text? && b.Some? && b.value.Text?
    requires toText(a.value) == a.value.chars && toText(b.value) == b.value.chars
    ensures CompareTexts(a, b) == SortCompare(ByText(toText), a, b)
  {
    CompareStringsFlips(TextOf(a), TextOf(b));
  }

  // ---------- array_sort ----------

  ghost predicate ClassSorted(s: seq<Place>) {
    forall i, j {:trigger s[i], s[j]} | 0 <= i < j < |s| :: Class(s[i]) <= Class(s[j])
  }

  /** The order that sorting with the given comparator is certain to establish. */
  ghost function Guaranteed(order: Order, S: set<Place>): (Place, Place) -> bool {
    if ConsistentOrder(order, Ordinary(S)) then HS.AtMost(Comparator(order)) else ByClass()
  }

  /** Both comparators that array_sort may pass to js_HeapSort serve that order. */
  lemma GuaranteedIsServed(order: Order, s: seq<Place>, allStrings: bool)
    requires allStrings ==>
      order.ByText? && forall p | p in s :: p.Some? && p.value.Text? && order.toText(p.value) == p.value.chars
    ensures var cmp := if allStrings then CompareTexts else Comparator(order);
            HS.Serves(cmp, Guaranteed(order, HS.Elements(s)), HS.Elements(s))
  {
    var S := HS.Elements(s);
    var le := Guaranteed(order, S);
    if ConsistentOrder(order, Ordinary(S)) {
      SortCompareIsConsistent(order, S);
      HS.ConsistentServes(Comparator(order), S);
    } else {
      SortCompareServesClasses(order, S);
    }
    if allStrings {
      forall x, y | x in S && y in S ensures HS.Decides(CompareTexts, le, x, y) {
        StringsCompareAlike(order.toText, x, y);
        assert HS.Decides(Comparator(order), le, x, y);
      }
      forall x, y, z | x in S && y in S && z in S ensures HS.Chains(le, x, y, z) {
      }
    }
  }

  lemma GuaranteedSortsClasses(order: Order, s: seq<Place>, t: seq<Place>)
    requires multiset(s) == multiset(t) && HS.Sorted(Guaranteed(order, HS.Elements(s)), t)
    ensures ClassSorted(t)
  {
  }

  /** The number of places that are no holes. */
  function CountPresent(s: seq<Place>): (n: nat)
    ensures n <= |s|
  {
    if s == [] then 0 else CountPresent(s[..|s| - 1]) + if s[|s| - 1].Some? then 1 else 0
  }

  lemma {:induction false} CountPresentByMultiset(s: seq<Place>)
    ensures CountPresent(s) == |s| - multiset(s)[None]
  {
    if s != [] {
      CountPresentByMultiset(s[..|s| - 1]);
      assert s == s[..|s| - 1] + [s[|s| - 1]];
    }
  }

  /** In a class-sorted list the holes are exactly the places after the present ones. */
  lemma {:induction false} HolesLast(s: seq<Place>)
    requires ClassSorted(s)
    ensures forall i | 0 <= i < |s| :: s[i].Some? <==> i < CountPresent(s)
  {
    if s != [] {
      var front := s[..|s| - 1];
      HolesLast(front);
      forall i | 0 <= i < |s| - 1
        ensures s[i].Some? <==> i < CountPresent(s)
      {
        assert s[i] == front[i];
        if s[|s| - 1].Some? {
          assert Class(s[i]) <= Class(s[|s| - 1]);
        }
      }
      if s[|s| - 1].Some? && CountPresent(front) < |front| {
        assert front[CountPresent(front)] == s[CountPresent(front)];
        assert Class(s[CountPresent(front)]) <= Class(s[|s| - 1]);
      }
    }
  }

  datatype SortArgument = Absent | Primitive | Function(call: (Value, Value) -> Number)

  function OrderFor(arg: SortArgument, toText: Value -> seq<Code>): Order {
    if arg.Function? then ByFunction(arg.call) else ByText(toText)
  }

  /** The comparison function is asked about the earlier and the later value, in this order. */
  lemma CallsAreOrder(call: (Value, Value) -> Number, V: set<Value>)
    requires ConsistentCall(call, V)
    ensures ConsistentOrder(ByFunction(call), V)
  {
    forall x, y | x in V && y in V
      ensures CompareValues(ByFunction(call), x, y) < 0 <==> CompareValues(ByFunction(call), y, x) > 0
    {
      assert Above(call, y, x) <==> Negative(call(x, y));
    }
    forall x, y, z | x in V && y in V && z in V
      ensures CompareValues(ByFunction(call), x, y) <= 0 && CompareValues(ByFunction(call), y, z) <= 0 ==>
                CompareValues(ByFunction(call), x, z) <= 0
    {
      assert !Above(call, x, y) && !Above(call, y, z) ==> !Above(call, x, z);
    }
  }

  /** What it means for the values of the array that the places are sorted. */
  lemma SortedAscends(order: Order, s: seq<Place>)
    requires HS.Sorted(HS.AtMost(Comparator(order)), s)
    ensures match order case ByFunction(call) => AscendsByCall(call, s) case ByText(toText) => AscendsByText(toText, s)
  {
    HS.SortedByItself(Comparator(order), s);
    forall i, j | 0 <= i < j < |s| && IsOrdinary(s[i]) && IsOrdinary(s[j])
      ensures match order
              case ByFunction(call) => !Above(call, s[i].value, s[j].value)
              case ByText(toText) => TextAtMost(toText(s[i].value), toText(s[j].value))
    {
      assert HS.NotAbove(Comparator(order), s[i], s[j]);
      if order.ByText? {
        CompareStringsExactly(order.toText(s[i].value), order.toText(s[j].value));
      }
    }
  }

  /** What sorting promises, in plain terms; a comparison function has to be consistent on the ordinary values. */
  ghost predicate SortedPlainly(arg: SortArgument, toText: Value -> seq<Code>, was: seq<Place>, now: seq<Place>) {
    && RestLast(now)
    && (arg.Absent? ==> AscendsByText(toText, now))
    && (arg.Function? && ConsistentCall(arg.call, Ordinary(HS.Elements(was))) ==> AscendsByCall(arg.call, now))
  }

  lemma NothingToSort(arg: SortArgument, toText: Value -> seq<Code>, s: seq<Place>)
    requires s == []
    ensures SortedPlainly(arg, toText, s, s)
  {
  }

  lemma SortsPlainly(arg: SortArgument, toText: Value -> seq<Code>, was: seq<Place>, now: seq<Place>)
    requires !arg.Primitive? && ClassSorted(now)
    requires HS.Sorted(Guaranteed(OrderFor(arg, toText), HS.Elements(was)), now)
    ensures SortedPlainly(arg, toText, was, now)
  {
    hide HS.Sorted, AscendsByText, AscendsByCall, ConsistentCall, ConsistentOrder;
    var order, V := OrderFor(arg, toText), Ordinary(HS.Elements(was));
    if arg.Absent? {
      TextOrderIsConsistent(toText, V);
    } else if ConsistentCall(arg.call, V) {
      CallsAreOrder(arg.call, V);
    }
    if ConsistentOrder(order, V) {
      SortedAscends(order, now);
    }
  }

  /** InitArrayElements; its assertion that the vector holds no hole is the precondition. */
  method InitArrayElements(obj: ArrayObject, length: nat, vector: array<Place>)
    requires obj.Valid() && length <= vector.Length && length <= obj.length
    requires forall i | 0 <= i < length :: vector[i] != None
    modifies obj
    ensures obj.Valid() && obj.length == old(obj.length)
    ensures forall k: nat {:trigger Lookup(obj.props, k)} ::
              Lookup(obj.props, k) == if k < length then vector[k] else Lookup(old(obj.props), k)
  {
    var index := 0;
    while index < length
      modifies obj
      invariant index <= length && obj.Valid() && obj.length == old(obj.length)
      invariant forall k: nat {:trigger Lookup(obj.props, k)} ::
                  Lookup(obj.props, k) == if k < index then vector[k] else Lookup(old(obj.props), k)
    {
      obj.Set(index, vector[index].value);
      index := index + 1;
    }
  }

  predicate AllTexts(s: seq<Place>) {
    forall p | p in s :: p.Some? && p.value.Text?
  }

  lemma TextsAre(s: seq<Place>)
    ensures AllTexts(s) <==> forall p | p in s :: p.Some? && p.value.Text?
  {
  }

  lemma NothingRead()
    ensures CountPresent([]) == 0 && AllTexts([])
  {
  }

  lemma OneMoreRead(s: seq<Place>, p: Place)
    ensures CountPresent(s + [p]) == CountPresent(s) + if p.Some? then 1 else 0
    ensures AllTexts(s + [p]) <==> AllTexts(s) && p.Some? && p.value.Text?
  {
    assert (s + [p])[..|s|] == s;
    assert p in s + [p] && forall q | q in s :: q in s + [p];
  }

  /** Read the places of obj into a fresh vector, counting the present ones. */
  method ReadElements(obj: ArrayObject, tryStrings: bool) returns (vec: array<Place>, newlen: nat, allStrings: bool)
    requires obj.Valid()
    ensures fresh(vec) && vec[..] == obj.Elements() && newlen == CountPresent(vec[..])
    ensures allStrings <==> tryStrings && forall p | p in vec[..] :: p.Some? && p.value.Text?
  {
    hide CountPresent, AllTexts;
    NothingRead();
    var len := obj.length;
    vec := new Place[len](_ => None);
    newlen, allStrings := 0, tryStrings;
    var i := 0;
    while i < len
      modifies vec
      invariant i <= len == vec.Length
      invariant forall k | 0 <= k < i :: vec[k] == obj.Elements()[k]
      invariant newlen == CountPresent(vec[..i])
      invariant allStrings <==> tryStrings && AllTexts(vec[..i])
    {
      var place := obj.GetExisting(i);
      OneMoreRead(vec[..i], place);
      vec[i] := place;
      assert vec[..i + 1] == vec[..i] + [place];
      if place.None? {
        allStrings := false;
      } else {
        newlen := newlen + 1;
        allStrings := allStrings && place.value.Text?;
      }
      i := i + 1;
    }
    assert vec[..i] == vec[..];
    TextsAre(vec[..]);
  }

  /**
   array_sort.  It fails exactly for a primitive argument, or for want of memory for the vector, and
   then leaves the array alone.  Otherwise it permutes the places.  For every comparison function, even one that
   contradicts itself, the ordinary values come first, then every undefined, then all the holes;
   among the ordinary values the order is the function's if that is a total preorder on them.
   */
  method Sort(obj: ArrayObject, arg: SortArgument, toText: Value -> seq<Code>, memory: bool) returns (ok: bool)
    requires obj.Valid()
    requires forall s: seq<Code> :: toText(Text(s)) == s
    modifies obj
    ensures obj.Valid() && obj.length == old(obj.length)
    ensures ok <==> !arg.Primitive? && (obj.length == 0 || (obj.length <= MAX_INDEX / 4 && memory))
    ensures !ok ==> obj.Elements() == old(obj.Elements())
    ensures ok ==>
      var was, now, order := old(obj.Elements()), obj.Elements(), OrderFor(arg, toText);
      && multiset(now) == multiset(was)
      && ClassSorted(now)
      && (ConsistentOrder(order, Ordinary(HS.Elements(was))) ==> HS.Sorted(HS.AtMost(Comparator(order)), now))
    ensures ok ==> SortedPlainly(arg, toText, old(obj.Elements()), obj.Elements())
  {
    hide ConsistentOrder, HS.Serves, CountPresent, SortedPlainly;
    if arg.Primitive? {
      return false;
    }
    ghost var was := obj.Elements();
    var order := OrderFor(arg, toText);
    var len := obj.length;
    if len == 0 {
      NothingToSort(arg, toText, was);
      return true;
    }
    if len > MAX_INDEX / 4 {
      return false;
    }
    if !memory {
      return false;
    }
    var vec, newlen, allStrings := ReadElements(obj, arg.Absent?);
    ghost var le := Guaranteed(order, HS.Elements(was));
    GuaranteedIsServed(order, was, allStrings);
    HS.Sort(vec, if allStrings then CompareTexts else Comparator(order), le);
    ghost var now := vec[..];
    GuaranteedSortsClasses(order, was, now);
    SortsPlainly(arg, toText, was, now);
    CountPresentByMultiset(was);
    CountPresentByMultiset(now);
    HolesLast(now);
    WriteBack(obj, newlen, vec);
    ok := true;
  }

  /** The end of array_sort: set the present elements, then re-create the holes behind them. */
  method WriteBack(obj: ArrayObject, newlen: nat, vec: array<Place>)
    requires obj.Valid() && newlen <= vec.Length == obj.length
    requires forall i | 0 <= i < vec.Length :: vec[i].Some? <==> i < newlen
    modifies obj
    ensures obj.Valid() && obj.length == old(obj.length)
    ensures obj.Elements() == vec[..]
  {
    InitArrayElements(obj, newlen, vec);
    ghost var filled := obj.props;
    var len := vec.Length;
    while len > newlen
      modifies obj
      invariant newlen <= len <= obj.length == vec.Length && obj.Valid()
      invariant Cleared(obj.props, filled, len, vec.Length)
    {
      len := len - 1;
      obj.Delete(len);
    }
  }
}
