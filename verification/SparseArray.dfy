/**
 Array objects and the array methods of js/src/jsarray.c that move elements about.  An array may
 have holes: indices below its length at which it has no property.  Properties are keyed by the
 32-bit numbers that IndexToId turns into ids (see ArrayIndex.IdsAreDistinct); all index
 arithmetic wraps around at 2^32 as it does in C.
 */
module SparseArray {
  import opened ArrayIndex
  import opened JSValues
  import opened Wrappers

  /** One place of an array: a value, or a hole. */
  type Place = Option<Value>

  function Lookup(m: map<nat, Value>, k: nat): Place {
    if k in m then Some(m[k]) else None
  }

  lemma SameLookups(p: map<nat, Value>, m: map<nat, Value>)
    requires forall k: nat {:trigger Lookup(p, k)} :: Lookup(p, k) == Lookup(m, k)
    ensures p == m
  {
    assert forall k: nat :: k in p <==> Lookup(p, k).Some?;
    assert forall k: nat :: k in m <==> Lookup(m, k).Some?;
    assert forall k: nat | k in p :: Lookup(p, k).value == Lookup(m, k).value;
  }

  /** The places of an array of the given length. */
  function Places(m: map<nat, Value>, length: nat): (s: seq<Place>)
    ensures |s| == length
    ensures forall i | 0 <= i < length :: s[i] == Lookup(m, i)
  {
    seq(length, i requires 0 <= i => Lookup(m, i))
  }

  /** A list of values without holes. */
  function Filled(vs: seq<Value>): (s: seq<Place>)
    ensures |s| == |vs|
    ensures forall i | 0 <= i < |vs| :: s[i] == Some(vs[i])
  {
    seq(|vs|, i requires 0 <= i < |vs| => Some(vs[i]))
  }

  function Reversed(s: seq<Place>): (r: seq<Place>)
    ensures |r| == |s|
    ensures forall i | 0 <= i < |s| :: r[i] == s[|s| - 1 - i]
  {
    seq(|s|, i requires 0 <= i < |s| => s[|s| - 1 - i])
  }

  /** js_DoubleToInteger results as start and end positions: negative ones count from the end. */
  function Position(d: int, length: nat): (p: nat)
    ensures p <= length
  {
    if d < 0 then (if d + length < 0 then 0 else d + length) else if d > length then length else d
  }

  /** What OBJ_GET_PROPERTY reads. */
  function ValueAt(place: Place): Value {
    if place.Some? then place.value else Undefined
  }

  /** p is like m, except that the block m[lo..hi) has been copied to start at lo + shift. */
  ghost predicate Copied(p: map<nat, Value>, m: map<nat, Value>, lo: nat, hi: nat, shift: int)
    requires 0 <= lo + shift
  {
    forall k: nat {:trigger Lookup(p, k)} ::
      Lookup(p, k) == if lo + shift <= k < hi + shift then Lookup(m, k - shift) else Lookup(m, k)
  }

  /** p is like m, except that the values vs stand from lo on. */
  ghost predicate Stored(p: map<nat, Value>, m: map<nat, Value>, lo: nat, vs: seq<Value>) {
    forall k: nat {:trigger Lookup(p, k)} ::
      Lookup(p, k) == if lo <= k < lo + |vs| then Some(vs[k - lo]) else Lookup(m, k)
  }

  /** p is m without the keys in [lo, hi). */
  ghost predicate Cleared(p: map<nat, Value>, m: map<nat, Value>, lo: nat, hi: nat) {
    forall k: nat {:trigger Lookup(p, k)} :: Lookup(p, k) == if lo <= k < hi then None else Lookup(m, k)
  }

  /** p is like m, except that key now has the given place. */
  ghost predicate Put(p: map<nat, Value>, m: map<nat, Value>, key: nat, place: Place) {
    forall k: nat {:trigger Lookup(p, k)} :: Lookup(p, k) == if k == key then place else Lookup(m, k)
  }

  /** p is like m, except that the first and last n of len places are exchanged back to front. */
  ghost predicate Mirrored(p: map<nat, Value>, m: map<nat, Value>, len: nat, n: nat) {
    forall k: nat {:trigger Lookup(p, k)} ::
      Lookup(p, k) == if k < len && (k < n || len - n <= k) then Lookup(m, len - 1 - k) else Lookup(m, k)
  }

  /** The place at key k after the places [last, len) have been moved up by delta, from the last one down. */
  function MovedPlace(m: map<nat, Value>, last: nat, len: nat, delta: nat, k: nat): Place
    requires 0 < delta < U32_LIMIT
  {
    var d := U32_LIMIT - delta;
    if last <= k - delta < len then Lookup(m, Cascaded(k - delta, d, len))
    else if last <= k + d < len then Lookup(m, Cascaded(k + d, d, len))
    else Lookup(m, k)
  }

  /** That has been done, with keys that wrap around. */
  ghost predicate MovedUp(p: map<nat, Value>, m: map<nat, Value>, last: nat, len: nat, delta: nat)
    requires 0 < delta < U32_LIMIT
  {
    forall k: nat {:trigger Lookup(p, k)} :: k < U32_LIMIT ==> Lookup(p, k) == MovedPlace(m, last, len, delta, k)
  }

  /** One more place is moved: what is read is what has cascaded down to it. */
  lemma MovedUpMore(p: map<nat, Value>, p0: map<nat, Value>, m: map<nat, Value>, last: nat, len: nat, delta: nat)
    requires 0 < delta < U32_LIMIT && last < len < U32_LIMIT && MovedUp(p0, m, last + 1, len, delta)
    requires Put(p, p0, U32(last + delta), Lookup(p0, last))
    ensures MovedUp(p, m, last, len, delta)
  {
    assert Lookup(p0, last) == MovedPlace(m, last + 1, len, delta, last);
    forall k: nat | k < U32_LIMIT ensures Lookup(p, k) == MovedPlace(m, last, len, delta, k) {
      assert Lookup(p0, k) == MovedPlace(m, last + 1, len, delta, k);
    }
  }

  /** p is like m, except that the values vs stand from lo on, with keys that wrap around. */
  ghost predicate StoredAround(p: map<nat, Value>, m: map<nat, Value>, lo: nat, vs: seq<Value>) {
    forall k: nat {:trigger Lookup(p, k)} :: k < U32_LIMIT ==>
      Lookup(p, k) == if k + U32_LIMIT < lo + |vs| && lo <= k + U32_LIMIT then Some(vs[k + U32_LIMIT - lo])
                      else if lo <= k < lo + |vs| then Some(vs[k - lo])
                      else Lookup(m, k)
  }

  datatype SpliceArguments =
    | NoArguments
    | Start(start: int)
    | StartAndCount(start: int, count: int, items: seq<Value>)

  /** The fenceposts that array_splice computes from its first two arguments. */
  function SpliceBegin(args: SpliceArguments, length: nat): (b: nat)
    requires !args.NoArguments?
    ensures b <= length
  {
    Position(args.start, length)
  }

  function SpliceEnd(args: SpliceArguments, length: nat): (e: nat)
    requires !args.NoArguments?
    ensures SpliceBegin(args, length) <= e <= length
  {
    var begin := SpliceBegin(args, length);
    match args
    case Start(_) => length
    case StartAndCount(_, count, _) =>
      begin + (if count < 0 then 0 else if count > length - begin then length - begin else count)
  }

  function SpliceItems(args: SpliceArguments): seq<Value> {
    if args.StartAndCount? then args.items else []
  }

  /** What splicing is defined to leave behind. */
  function Spliced(s: seq<Place>, begin: nat, end: nat, items: seq<Value>): seq<Place>
    requires begin <= end <= |s|
  {
    s[..begin] + Filled(items) + s[end..]
  }

  lemma SplicedLength(s: seq<Place>, begin: nat, end: nat, items: seq<Value>)
    requires begin <= end <= |s|
    ensures |Spliced(s, begin, end, items)| == |s| - (end - begin) + |items|
  {
  }

  lemma CopiedNowhere(m: map<nat, Value>, lo: nat, hi: nat)
    ensures Copied(m, m, lo, hi, 0)
  {
  }

  /** Moving the tail, storing the items and cutting the length add up to a splice. */
  lemma SplicedPlaces(m: map<nat, Value>, moved: map<nat, Value>, stored: map<nat, Value>, p: map<nat, Value>,
                      len: nat, begin: nat, end: nat, items: seq<Value>, storedLength: nat)
    requires begin <= end <= len
    requires Copied(moved, m, end, len, |items| - (end - begin))
    requires Stored(stored, moved, begin, items)
    requires Cleared(p, stored, len - (end - begin) + |items|, storedLength)
    ensures Places(p, len - (end - begin) + |items|) == Spliced(Places(m, len), begin, end, items)
  {
    var s := Spliced(Places(m, len), begin, end, items);
    var delta := |items| - (end - begin);
    forall k | 0 <= k < len + delta
      ensures Lookup(p, k) == s[k]
    {
      assert Lookup(p, k) == Lookup(stored, k);
      if begin + |items| <= k {
        assert s[k] == Places(m, len)[k - delta] == Lookup(m, k - delta);
      }
    }
  }

  // ---------- The outcomes of the array methods, on every array ----------

  /** push: past the limit all is lost but the values whose keys have wrapped around. */
  ghost predicate Pushed(before: seq<Place>, args: seq<Value>, after: seq<Place>)
    requires |before| <= MAX_INDEX && |args| < U32_LIMIT
  {
    var sum := |before| + |args|;
    after == if sum <= MAX_INDEX then before + Filled(args) else Filled(args)[U32_LIMIT - |before|..]
  }

  /** unshift: past the limit only the first values are left. */
  ghost predicate Unshifted(before: seq<Place>, args: seq<Value>, after: seq<Place>)
    requires |before| <= MAX_INDEX && |args| < U32_LIMIT
  {
    var sum := |before| + |args|;
    after == if sum <= MAX_INDEX then Filled(args) + before else Filled(args)[..sum - U32_LIMIT]
  }

  /** The last of x, x + d, x + 2 d and so on below len. */
  function Cascaded(x: nat, d: nat, len: nat): (y: nat)
    requires 0 < d
    ensures x <= y && (x < len ==> y < len)
    decreases len - x
  {
    if x + d < len then Cascaded(x + d, d, len) else x
  }

  /**
   Place j of an array that was spliced past the limit: an item, or an old place that was moved over
   others on its way up, around, and up again.
   */
  function WrappedPlace(before: seq<Place>, begin: nat, end: nat, items: seq<Value>, j: nat): Place
    requires begin <= end <= |before| <= MAX_INDEX && |items| < U32_LIMIT
    requires j + U32_LIMIT < |before| - (end - begin) + |items|
  {
    if j + U32_LIMIT < begin + |items| then Some(items[j + U32_LIMIT - begin])
    else if begin <= j then Some(items[j - begin])
    else
      var d := U32_LIMIT - (|items| - (end - begin));
      before[Cascaded(j + d, d, |before|)]
  }

  /** splice: past the limit the length and the keys have wrapped around. */
  ghost predicate SplicedInto(before: seq<Place>, begin: nat, end: nat, items: seq<Value>, removed: seq<Place>,
                              after: seq<Place>)
    requires begin <= end <= |before| <= MAX_INDEX && |items| < U32_LIMIT
  {
    removed == before[begin..end] && after == SplicedAround(before, begin, end, items)
  }

  function SplicedAround(before: seq<Place>, begin: nat, end: nat, items: seq<Value>): (after: seq<Place>)
    requires begin <= end <= |before| <= MAX_INDEX && |items| < U32_LIMIT
    ensures |after| == U32(|before| - (end - begin) + |items|)
  {
    var newLength := |before| - (end - begin) + |items|;
    if newLength <= MAX_INDEX then Spliced(before, begin, end, items)
    else
      seq(newLength - U32_LIMIT, j requires 0 <= j < newLength - U32_LIMIT =>
            WrappedPlace(before, begin, end, items, j))
  }

  /** Moving the tail up, storing the items and cutting the length, when keys wrap around. */
  lemma WrappedPlaces(m: map<nat, Value>, moved: map<nat, Value>, stored: map<nat, Value>, p: map<nat, Value>,
                      len: nat, begin: nat, end: nat, items: seq<Value>, storedLength: nat)
    requires begin <= end <= len <= MAX_INDEX && |items| < U32_LIMIT
    requires len - (end - begin) + |items| >= U32_LIMIT
    requires MovedUp(moved, m, end, len, |items| - (end - begin)) && StoredAround(stored, moved, begin, items)
    requires Cleared(p, stored, len - (end - begin) + |items| - U32_LIMIT, storedLength)
    ensures Places(p, len - (end - begin) + |items| - U32_LIMIT) == SplicedAround(Places(m, len), begin, end, items)
  {
    var before, n := Places(m, len), len - (end - begin) + |items| - U32_LIMIT;
    forall j | 0 <= j < n ensures Lookup(p, j) == WrappedPlace(before, begin, end, items, j) {
      assert Lookup(p, j) == Lookup(stored, j);
      assert Lookup(moved, j) == MovedPlace(m, end, len, |items| - (end - begin), j);
    }
  }

  /**
   splice in plain terms: a negative start counts from the end, and what is too far is cut off; without a count
   all the rest goes, and with one at most that many; and the items take their place.
   */
  ghost predicate SplicedPlainly(was: seq<Place>, args: SpliceArguments, removed: seq<Place>, after: seq<Place>)
    requires !args.NoArguments?
  {
    var len := |was|;
    var lo := if args.start < 0 then args.start + len else args.start;
    var x := if lo < 0 then 0 else if lo > len then len else lo;
    var n := if args.Start? || args.count > len - x then len - x else if args.count < 0 then 0 else args.count;
    && removed == was[x..x + n]
    && (args.Start? ==> after == was[..x])
    && (args.StartAndCount? && len - n + |args.items| <= MAX_INDEX ==>
          after == was[..x] + Filled(args.items) + was[x + n..])
  }

  lemma SpliceIsPlain(was: seq<Place>, args: SpliceArguments, removed: seq<Place>, after: seq<Place>)
    requires !args.NoArguments? && |was| <= MAX_INDEX && |SpliceItems(args)| < U32_LIMIT
    requires var begin, end := SpliceBegin(args, |was|), SpliceEnd(args, |was|);
      removed == was[begin..end] && after == SplicedAround(was, begin, end, SpliceItems(args))
    ensures SplicedPlainly(was, args, removed, after)
  {
    assert Filled([]) == [];
  }

  /** shift: the first place is read, and so are the others, which leaves no hole. */
  ghost predicate Shifted(before: seq<Place>, v: Value, after: seq<Place>) {
    if before == [] then after == [] && v == Undefined
    else
      && (if before[0].Some? then v == before[0].value else v == Undefined)
      && |after| == |before| - 1
      && forall i | 0 <= i < |after| ::
           if before[i + 1].Some? then after[i] == before[i + 1] else after[i] == Some(Undefined)
  }

  /** The last place of s, among k, k + 2^32 and so on, that is no hole. */
  function LastAt(s: seq<Place>, k: nat): Place
    decreases |s| - k
  {
    if k >= |s| then None
    else
      var later := LastAt(s, k + U32_LIMIT);
      if later.Some? then later else s[k]
  }

  /** concat: past the limit the length and the keys have wrapped around, and later values win. */
  ghost predicate Concatenated(parts: seq<seq<Place>>, after: seq<Place>) {
    var whole := Joined(parts);
    |after| == U32(|whole|) && forall j | 0 <= j < |after| :: after[j] == LastAt(whole, j)
  }

  lemma ConcatenatedFits(whole: seq<Place>, after: seq<Place>)
    requires |after| == U32(|whole|) && forall j | 0 <= j < |after| :: after[j] == LastAt(whole, j)
    ensures after == whole <==> |whole| <= MAX_INDEX
  {
    if |whole| <= MAX_INDEX {
      forall j | 0 <= j < |whole| ensures LastAt(whole, j) == whole[j] {
        assert LastAt(whole, j + U32_LIMIT) == None;
      }
    }
  }

  lemma {:induction false} LastAtGrows(s: seq<Place>, x: Place, k: nat)
    ensures LastAt(s + [x], k)
         == if k <= |s| && (|s| - k) % U32_LIMIT == 0 && x.Some? then x else LastAt(s, k)
    decreases |s| - k
  {
    if k < |s| {
      LastAtGrows(s, x, k + U32_LIMIT);
      if |s| < k + U32_LIMIT {
        assert (|s| - k) % U32_LIMIT == |s| - k;
      }
    } else if |s| < k {
      assert LastAt(s + [x], k) == None;
    }
  }

  /** The properties are the places of s, stored one after the other under wrapping keys. */
  ghost predicate Collected(p: map<nat, Value>, s: seq<Place>) {
    forall k: nat {:trigger Lookup(p, k)} :: k < U32_LIMIT ==> Lookup(p, k) == LastAt(s, k)
  }

  lemma CollectedGrows(p: map<nat, Value>, m: map<nat, Value>, s: seq<Place>, x: Place)
    requires Collected(m, s)
    requires if x.Some? then Stored(p, m, U32(|s|), [x.value]) else p == m
    ensures Collected(p, s + [x])
  {
    forall k: nat | k < U32_LIMIT ensures Lookup(p, k) == LastAt(s + [x], k) {
      LastAtGrows(s, x, k);
      assert Lookup(m, k) == LastAt(s, k);
      SameRemainder(|s|, k);
    }
  }

  lemma SameRemainder(n: nat, k: nat)
    requires k < U32_LIMIT
    ensures k <= n && (n - k) % U32_LIMIT == 0 <==> k == U32(n)
  {
  }

  datatype SliceArguments = WholeArray | Tail(begin: int) | Between(begin: int, end: int)

  datatype Argument = ArrayArgument(source: ArrayObject) | ValueArgument(value: Value)

  class ArrayObject {
    var props: map<nat, Value>
    var length: nat

    /** The array length invariant of ECMA-262 3rd edition, section 15.4.5. */
    ghost predicate Valid()
      reads this
    {
      && length <= MAX_INDEX
      && forall k: nat | Lookup(props, k).Some? :: k < length || k == MAX_INDEX
    }

    ghost function Elements(): (s: seq<Place>)
      reads this
    {
      Places(props, length)
    }

    constructor ()
      ensures Valid() && length == 0 && props == map[]
    {
      props := map[];
      length := 0;
    }

    // ---------- The property operations underneath ----------

    /** IndexToExistingId and OBJ_GET_PROPERTY. */
    method GetExisting(key: nat) returns (r: Place)
      ensures r == Lookup(props, key)
    {
      r := if key in props then Some(props[key]) else None;
    }

    /** OBJ_DELETE_PROPERTY: the length stays. */
    method Delete(key: nat)
      requires Valid()
      modifies this
      ensures Valid() && length == old(length)
      ensures Cleared(props, old(props), key, key + 1)
    {
      props := props - {key};
      assert Cleared(props, old(props), key, key + 1);
    }

    /** array_length_setter: shortening the array deletes the tail, from its end. */
    method SetLength(newlen: nat)
      requires Valid() && newlen < U32_LIMIT
      modifies this
      ensures Valid() && length == newlen
      ensures Cleared(props, old(props), newlen, old(length))
    {
      var slot := length;
      while slot > newlen
        invariant Valid() && length == old(length)
        invariant slot <= length && (slot < newlen ==> slot == length)
        invariant Cleared(props, old(props), if slot < newlen then newlen else slot, old(length))
      {
        slot := slot - 1;
        Delete(slot);
      }
      length := newlen;
    }

    /** array_addProperty, the class hook that runs before a new property is added. */
    method AddProperty(key: nat)
      requires Valid() && key < U32_LIMIT
      modifies this
      ensures Valid() && props == old(props)
      ensures length == if key != MAX_INDEX && old(length) <= key then key + 1 else old(length)
    {
      var index := IdIsIndex(IndexToId(key));
      forall n: nat ensures index == Some(n) <==> n == key && key != MAX_INDEX {
        IdRoundTrip(key, n);
      }
      assert index == Some(key) <==> key != MAX_INDEX;
      if index.None? {
        return;
      }
      if index.value >= length {
        // the sum cannot wrap, since 2^32 - 1 is not an index
        ghost var before := props;
        SetLength(U32(index.value + 1));
        SameLookups(props, before);
      }
    }

    /** OBJ_SET_PROPERTY on an array index or on the property named 4294967295. */
    method Set(key: nat, v: Value)
      requires Valid() && key < U32_LIMIT
      modifies this
      ensures Valid()
      ensures length == if key != MAX_INDEX && old(length) <= key then key + 1 else old(length)
      ensures Stored(props, old(props), key, [v])
    {
      if key !in props {
        AddProperty(key);
      } else {
        assert Lookup(props, key).Some?;
      }
      props := props[key := v];
      assert Stored(props, old(props), key, [v]);
    }

    /** How the array methods move a place: a value is set, a hole deletes. */
    method PutPlace(key: nat, place: Place)
      requires Valid() && key < U32_LIMIT
      modifies this
      ensures Valid() && Put(props, old(props), key, place)
      ensures length == if place.Some? && key != MAX_INDEX && old(length) <= key then key + 1 else old(length)
    {
      if place.Some? {
        Set(key, place.value);
      } else {
        Delete(key);
      }
    }

    /** The loops that copy arguments into the array. */
    method StoreAll(begin: nat, items: seq<Value>)
      requires Valid() && begin < U32_LIMIT && |items| < U32_LIMIT
      modifies this
      ensures Valid()
      ensures begin + |items| <= MAX_INDEX ==>
        && Stored(props, old(props), begin, items)
        && length == if old(length) < begin + |items| && items != [] then begin + |items| else old(length)
      ensures StoredAround(props, old(props), begin, items)
    {
      ghost var fits := begin + |items| <= MAX_INDEX;
      var i := 0;
      while i < |items|
        invariant Valid() && i <= |items|
        invariant StoredAround(props, old(props), begin, items[..i])
        invariant fits ==> Stored(props, old(props), begin, items[..i])
        invariant fits ==> length == if old(length) < begin + i && 0 < i then begin + i else old(length)
      {
        Set(U32(begin + i), items[i]);
        i := i + 1;
      }
      assert items[..i] == items;
    }

    // ---------- Array methods ----------

    /** array_reverse: holes move as holes. */
    method Reverse()
      requires Valid()
      modifies this
      ensures Valid()
      ensures Elements() == Reversed(old(Elements()))
    {
      var len := length;
      var half := len / 2;
      var i: nat := 0;
      while i < half
        invariant Valid() && length == len && i <= half
        invariant Mirrored(props, old(props), len, i)
      {
        var low := GetExisting(i);
        var high := GetExisting(len - i - 1);
        PutPlace(len - i - 1, low);
        PutPlace(i, high);
        i := i + 1;
      }
    }

    /**
     array_unshift.  The result is args followed by the old elements exactly when the new length
     is at most 2^32 - 1; otherwise the length has wrapped around.
     */
    method Unshift(args: seq<Value>) returns (newLength: nat)
      requires Valid() && |args| < U32_LIMIT
      modifies this
      ensures Valid() && newLength == length == U32(old(length) + |args|)
      ensures Unshifted(old(Elements()), args, Elements())
      ensures Elements() == Filled(args) + old(Elements()) <==> old(length) + |args| <= MAX_INDEX
    {
      var len := length;
      var argc := |args|;
      ghost var fits := len + argc <= MAX_INDEX;
      if argc > 0 {
        var last: nat := len;
        while last > 0
          invariant Valid() && last <= len
          invariant fits ==> length <= len + argc && Copied(props, old(props), last, len, argc)
        {
          last := last - 1;
          var place := GetExisting(last);
          PutPlace(U32(last + argc), place);
        }
        StoreAll(0, args);
        SetLength(U32(len + argc));
      }
      newLength := U32(len + argc);
    }

    /** Copying the places in [begin, end) into a fresh array, as array_splice and array_slice do. */
    method CopyOut(begin: nat, end: nat) returns (r: ArrayObject)
      requires Valid() && begin <= end <= length
      ensures fresh(r) && r.Valid() && r.Elements() == Elements()[begin..end]
    {
      r := new ArrayObject();
      var slot := begin;
      while slot < end
        invariant begin <= slot <= end
        invariant fresh(r) && r.Valid() && r.length <= slot - begin
        invariant forall k: nat {:trigger Lookup(r.props, k)} ::
                    Lookup(r.props, k) == if k < slot - begin then Lookup(props, begin + k) else None
      {
        var place := GetExisting(slot);
        if place.Some? {
          r.Set(slot - begin, place.value);
        }
        slot := slot + 1;
      }
      r.SetLength(end - begin);
    }

    /**
     array_splice (with no arguments it returns without a value and changes nothing).  The removed
     places come back exactly; what is left is the defined sequence exactly when its length is at
     most 2^32 - 1, and otherwise the length has wrapped around.
     */
    method Splice(args: SpliceArguments) returns (removed: ArrayObject?)
      requires Valid() && |SpliceItems(args)| < U32_LIMIT
      modifies this
      ensures Valid()
      ensures args.NoArguments? <==> removed == null
      ensures args.NoArguments? ==> Elements() == old(Elements())
      ensures !args.NoArguments? ==>
        var begin, end, items := SpliceBegin(args, old(length)), SpliceEnd(args, old(length)), SpliceItems(args);
        && fresh(removed) && removed.Valid() && removed.Elements() == old(Elements())[begin..end]
        && length == U32(old(length) - (end - begin) + |items|)
        && SplicedInto(old(Elements()), begin, end, items, removed.Elements(), Elements())
        && (Elements() == Spliced(old(Elements()), begin, end, items) <==>
            old(length) - (end - begin) + |items| <= MAX_INDEX)
      ensures !args.NoArguments? ==> SplicedPlainly(old(Elements()), args, removed.Elements(), Elements())
    {
      if args.NoArguments? {
        return null;
      }
      var begin, end := SpliceBegin(args, length), SpliceEnd(args, length);
      removed := CopyOut(begin, end);
      Replace(begin, end, SpliceItems(args));
      hide SplicedAround, SplicedPlainly, Spliced, SpliceBegin, SpliceEnd;
      SpliceIsPlain(old(Elements()), args, removed.Elements(), Elements());
    }

    /** The second half of array_splice: put items in the place of [begin, end). */
    method Replace(begin: nat, end: nat, items: seq<Value>)
      requires Valid() && begin <= end <= length && |items| < U32_LIMIT
      modifies this
      ensures Valid() && length == U32(old(length) - (end - begin) + |items|)
      ensures Elements() == SplicedAround(old(Elements()), begin, end, items)
      ensures Elements() == Spliced(old(Elements()), begin, end, items) <==>
              old(length) - (end - begin) + |items| <= MAX_INDEX
    {
      hide Copied, Stored, Cleared, Places, Spliced, MovedUp, StoredAround;
      var newLength := MoveTail(begin, end, |items|);
      ghost var moved := props;
      StoreAll(begin, items);
      ghost var stored, storedLength := props, length;
      SetLength(newLength);
      SplicedLength(Places(old(props), old(length)), begin, end, items);
      if old(length) - (end - begin) + |items| <= MAX_INDEX {
        SplicedPlaces(old(props), moved, stored, props, old(length), begin, end, items, storedLength);
      } else {
        WrappedPlaces(old(props), moved, stored, props, old(length), begin, end, items, storedLength);
      }
    }

    /** Make way for argc items in the place of [begin, end): up, down, or not at all. */
    method MoveTail(begin: nat, end: nat, argc: nat) returns (newLength: nat)
      requires Valid() && begin <= end <= length && argc < U32_LIMIT
      modifies this
      ensures Valid() && newLength == U32(old(length) - (end - begin) + argc)
      ensures old(length) - (end - begin) + argc <= MAX_INDEX ==>
        Copied(props, old(props), end, old(length), argc - (end - begin))
      ensures argc > end - begin ==> MovedUp(props, old(props), end, old(length), argc - (end - begin))
    {
      hide Copied, MovedUp;
      var len, count := length, end - begin;
      newLength := len;
      CopiedNowhere(props, end, len);
      if argc > count {
        MoveUp(end, len, argc - count);
        newLength := U32(len + (argc - count));
      } else if argc < count {
        MoveDown(end, len, count - argc);
        newLength := len - (count - argc);
      }
    }

    /** Make room: copy the places in [end, len) up by delta, from the last one down. */
    method MoveUp(end: nat, len: nat, delta: nat)
      requires Valid() && end <= len == length && 0 < delta < U32_LIMIT
      modifies this
      ensures Valid()
      ensures len + delta <= MAX_INDEX ==> length <= len + delta && Copied(props, old(props), end, len, delta)
      ensures MovedUp(props, old(props), end, len, delta)
    {
      ghost var fits := len + delta <= MAX_INDEX;
      var last: nat := len;
      while last > end
        invariant Valid() && end <= last <= len
        invariant fits ==> length <= len + delta && Copied(props, old(props), last, len, delta)
        invariant MovedUp(props, old(props), last, len, delta)
      {
        last := last - 1;
        ghost var before := props;
        var place := GetExisting(last);
        PutPlace(U32(last + delta), place);
        MovedUpMore(props, before, old(props), last, len, delta);
      }
    }

    /** Close the gap: copy the places in [end, len) down by delta, from the first one up. */
    method MoveDown(end: nat, len: nat, delta: nat)
      requires Valid() && delta <= end <= len == length && 0 < delta
      modifies this
      ensures Valid() && length == len && Copied(props, old(props), end, len, 0 - delta)
    {
      var last: nat := end;
      while last < len
        invariant Valid() && end <= last <= len && length == len
        invariant Copied(props, old(props), end, last, 0 - delta)
      {
        var place := GetExisting(last);
        PutPlace(last - delta, place);
        last := last + 1;
      }
    }

    /** array_slice. */
    method Slice(args: SliceArguments) returns (r: ArrayObject)
      requires Valid()
      ensures fresh(r) && r.Valid()
      ensures var begin := if args.WholeArray? then 0 else Position(args.begin, length);
              var end := if args.Between? then Position(args.end, length) else length;
              r.Elements() == if begin <= end then Elements()[begin..end] else []
      ensures var lo := if args.WholeArray? then 0 else if args.begin < 0 then args.begin + length else args.begin;
              var hi := if !args.Between? then length else if args.end < 0 then args.end + length else args.end;
              var x, y := if lo < 0 then 0 else lo, if hi > length then length else hi;
              r.Elements() == if x < y then Elements()[x..y] else []
    {
      var begin, end := 0, length;
      if !args.WholeArray? {
        begin := Position(args.begin, length);
        if args.Between? {
          end := Position(args.end, length);
        }
      }
      if begin > end {
        begin := end;
      }
      r := CopyOut(begin, end);
    }

    /** array_push: the defined sequence exactly when its length is at most 2^32 - 1. */
    method Push(args: seq<Value>) returns (newLength: nat)
      requires Valid() && |args| < U32_LIMIT
      modifies this
      ensures Valid() && newLength == length == U32(old(length) + |args|)
      ensures Pushed(old(Elements()), args, Elements())
      ensures Elements() == old(Elements()) + Filled(args) <==> old(length) + |args| <= MAX_INDEX
    {
      var len := length;
      StoreAll(len, args);
      newLength := U32(len + |args|);
      SetLength(newLength);
    }

    /** array_pop; a hole reads as undefined. */
    method Pop() returns (v: Value)
      requires Valid()
      modifies this
      ensures Valid()
      ensures old(length) == 0 ==> length == 0 && v == Undefined
      ensures old(length) > 0 ==>
        && Elements() == old(Elements())[..old(length) - 1]
        && (match old(Elements())[old(length) - 1] case Some(last) => v == last case None => v == Undefined)
    {
      var index := length;
      v := Undefined;
      if index > 0 {
        index := index - 1;
        var place := GetExisting(index);
        v := ValueAt(place);
        Delete(index);
      }
      SetLength(index);
    }

    /**
     array_shift reads the elements it slides down without asking whether they exist.  So the rest
     of the array comes out with undefined in place of its holes, and equals the defined sequence
     exactly when the rest has no hole.
     */
    method Shift() returns (v: Value)
      requires Valid()
      modifies this
      ensures Valid()
      ensures Shifted(old(Elements()), v, Elements())
      ensures old(length) > 0 ==> (Elements() == old(Elements())[1..] <==> None !in old(Elements())[1..])
    {
      var len := length;
      v := Undefined;
      if len > 0 {
        len := len - 1;
        var place := GetExisting(0);
        v := ValueAt(place);
        var i := 1;
        while i <= len
          invariant 1 <= i <= len + 1 && Valid() && length == len + 1
          invariant forall k: nat {:trigger Lookup(props, k)} ::
                      Lookup(props, k) == if k < i - 1 then Some(ValueAt(Lookup(old(props), k + 1)))
                                          else Lookup(old(props), k)
        {
          place := GetExisting(i);
          Set(i - 1, ValueAt(place));
          i := i + 1;
        }
        Delete(len);
      }
      SetLength(len);
      ghost var was := old(Elements());
      if was != [] {
        assert forall i | 0 <= i < |was| - 1 :: was[1..][i] == was[i + 1];
        if None in was[1..] {
          var i :| 0 <= i < |was| - 1 && was[1..][i] == None;
          assert Elements()[i] != was[1..][i];
        }
      }
    }
  }

  // ---------- array_concat ----------

  ghost function ArraysOf(args: seq<Argument>): set<ArrayObject> {
    set a: Argument | a in args && a.ArrayArgument? :: a.source
  }

  ghost predicate ValidArguments(args: seq<Argument>)
    reads ArraysOf(args)
  {
    forall a | a in args && a.ArrayArgument? :: a.source.Valid()
  }

  /** An array contributes its places, holes included; any other value contributes itself. */
  ghost function Expanded(a: Argument): seq<Place>
    reads if a.ArrayArgument? then {a.source} else {}
  {
    if a.ArrayArgument? then a.source.Elements() else [Some(a.value)]
  }

  ghost function Parts(args: seq<Argument>): (parts: seq<seq<Place>>)
    reads ArraysOf(args)
    ensures |parts| == |args| && forall i | 0 <= i < |args| :: parts[i] == Expanded(args[i])
  {
    seq(|args|, i requires 0 <= i < |args| reads ArraysOf(args) => Expanded(args[i]))
  }

  ghost function Joined(parts: seq<seq<Place>>): seq<Place> {
    if parts == [] then [] else Joined(parts[..|parts| - 1]) + parts[|parts| - 1]
  }

  /**
   One turn of the loop of array_concat: append what one argument contributes.  Each of its places goes
   to the next key, which wraps around.
   */
  method AppendTo(nobj: ArrayObject, length: nat, arg: Argument, ghost joined: seq<Place>) returns (newLength: nat)
    requires nobj.Valid() && length == U32(|joined|) && Collected(nobj.props, joined)
    requires arg.ArrayArgument? ==> arg.source != nobj && arg.source.Valid()
    modifies nobj
    ensures nobj.Valid()
    ensures newLength == U32(|joined| + |Expanded(arg)|) && Collected(nobj.props, joined + Expanded(arg))
  {
    hide Collected, Stored;
    match arg {
      case ArrayArgument(source) =>
        ghost var places := source.Elements();
        assert joined + places[..0] == joined;
        var slot := 0;
        while slot < source.length
          invariant slot <= source.length && nobj.Valid() && places == source.Elements()
          invariant Collected(nobj.props, joined + places[..slot])
        {
          ghost var before := nobj.props;
          var place := source.GetExisting(slot);
          WrappedSum(|joined|, slot);
          if place.Some? {
            nobj.Set(U32(length + slot), place.value);
          }
          CollectedGrows(nobj.props, before, joined + places[..slot], place);
          assert joined + places[..slot + 1] == joined + places[..slot] + [place];
          slot := slot + 1;
        }
        WrappedSum(|joined|, slot);
        assert places[..slot] == places;
        newLength := U32(length + source.length);
      case ValueArgument(value) =>
        ghost var before := nobj.props;
        nobj.Set(length, value);
        CollectedGrows(nobj.props, before, joined, Some(value));
        WrappedSum(|joined|, 1);
        newLength := U32(length + 1);
    }
  }

  /**
   array_concat: every array argument contributes its places, in order, exactly when the total
   length is at most 2^32 - 1.
   */
  method Concat(obj: ArrayObject, args: seq<Argument>) returns (nobj: ArrayObject)
    requires ValidArguments([ArrayArgument(obj)] + args)
    ensures fresh(nobj) && nobj.Valid()
    ensures Concatenated(old(Parts([ArrayArgument(obj)] + args)), nobj.Elements())
    ensures var whole := Joined(old(Parts([ArrayArgument(obj)] + args)));
            nobj.Elements() == whole <==> |whole| <= MAX_INDEX
  {
    hide Lookup, Cleared, Joined, U32, Collected, Parts;
    var all := [ArrayArgument(obj)] + args;
    ghost var parts := Parts(all);
    nobj := new ArrayObject();
    var length := Collect(nobj, all);
    ghost var before, reached := nobj.props, nobj.length;
    nobj.SetLength(length);
    CollectedKept(nobj.props, before, Joined(parts), reached);
    ConcatenatedFits(Joined(parts), nobj.Elements());
  }

  /** The loop of array_concat, on a new array. */
  method Collect(nobj: ArrayObject, all: seq<Argument>) returns (length: nat)
    requires ValidArguments(all) && nobj !in ArraysOf(all) && nobj.Valid() && nobj.props == map[]
    modifies nobj
    ensures nobj.Valid() && Collected(nobj.props, Joined(old(Parts(all)))) && length == U32(|Joined(old(Parts(all)))|)
  {
    hide Lookup, Joined, U32, Collected;
    ghost var parts := Parts(all);
    ghost var joined: seq<Place> := [];
    JoinedNothing(parts);
    length := 0;
    var i := 0;
    while i < |all|
      invariant i <= |all| && nobj.Valid() && unchanged(ArraysOf(all))
      invariant joined == Joined(parts[..i]) && length == U32(|joined|)
      invariant Collected(nobj.props, joined)
    {
      JoinedGrows(parts, i);
      assert all[i] in all && Expanded(all[i]) == parts[i];
      length := AppendTo(nobj, length, all[i], joined);
      joined := joined + parts[i];
      i := i + 1;
    }
    assert parts[..i] == parts;
  }

  lemma CollectedKept(p: map<nat, Value>, m: map<nat, Value>, s: seq<Place>, hi: nat)
    requires Collected(m, s) && Cleared(p, m, U32(|s|), hi)
    ensures forall j | 0 <= j < U32(|s|) :: Lookup(p, j) == LastAt(s, j)
  {
    forall j | 0 <= j < U32(|s|) ensures Lookup(p, j) == LastAt(s, j) {
      assert Lookup(m, j) == LastAt(s, j);
    }
  }

  lemma WrappedSum(m: nat, n: nat)
    ensures U32(U32(m) + n) == U32(m + n)
  {
  }

  lemma JoinedNothing(parts: seq<seq<Place>>)
    ensures Joined(parts[..0]) == [] && Collected(map[], [])
  {
  }

  lemma JoinedGrows(parts: seq<seq<Place>>, i: nat)
    requires i < |parts|
    ensures Joined(parts[..i + 1]) == Joined(parts[..i]) + parts[i]
  {
    assert parts[..i + 1][..i] == parts[..i];
  }
}
