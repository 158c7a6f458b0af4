/**
 What becomes of the array methods of js/src/jsarray.c at the arrays for which they do not give the
 sequences they are meant to give.
 */
module ArrayLimits {
  import opened ArrayIndex
  import Bits
  import opened JSValues
  import opened SparseArray
  import opened Wrappers

  /** Pushing past the limit loses every place there was: what is left is shorter, and only new values. */
  lemma PushWraps(before: seq<Place>, args: seq<Value>, after: seq<Place>)
    requires |before| <= MAX_INDEX && |args| < U32_LIMIT && Pushed(before, args, after)
    ensures after == before + Filled(args) <==> |before| + |args| <= MAX_INDEX
    ensures |before| + |args| > MAX_INDEX ==>
      |after| < |before| && forall i | 0 <= i < |after| :: after[i] == Some(args[i + U32_LIMIT - |before|])
    ensures |before| == MAX_INDEX && |args| == 1 ==> after == []
  {
    assert |before + Filled(args)| == |before| + |args|;
  }

  /** Putting values in front of the array loses every place there was, and the last of the values. */
  lemma UnshiftWraps(before: seq<Place>, args: seq<Value>, after: seq<Place>)
    requires |before| <= MAX_INDEX && |args| < U32_LIMIT && Unshifted(before, args, after)
    ensures after == Filled(args) + before <==> |before| + |args| <= MAX_INDEX
    ensures |before| + |args| > MAX_INDEX ==>
      |after| < |args| && forall i | 0 <= i < |after| :: after[i] == Some(args[i])
    ensures |before| == MAX_INDEX && |args| == 1 ==> after == []
  {
    assert |Filled(args) + before| == |before| + |args|;
  }

  /**
   Splicing more into the array than it can hold leaves it shorter than it was: the items from begin on,
   at most, and in front of them the last items, or old places from the end that came round.
   */
  lemma SpliceWraps(before: seq<Place>, begin: nat, end: nat, items: seq<Value>, removed: seq<Place>, after: seq<Place>)
    requires begin <= end <= |before| <= MAX_INDEX && |items| < U32_LIMIT
    requires SplicedInto(before, begin, end, items, removed, after)
    ensures after == Spliced(before, begin, end, items) <==> |before| - (end - begin) + |items| <= MAX_INDEX
    ensures |before| - (end - begin) + |items| > MAX_INDEX ==>
      && |after| == |before| - (end - begin) + |items| - U32_LIMIT < |before|
      && (forall j | begin <= j < |after| :: after[j] == Some(items[j - begin]))
      && (forall j | 0 <= j < |after| && j < begin ::
            if j + U32_LIMIT < begin + |items| then after[j] == Some(items[j + U32_LIMIT - begin])
            else after[j] in before[|after|..])
    ensures |before| == MAX_INDEX && begin == end && |items| == 1 ==> after == []
  {
    SplicedLength(before, begin, end, items);
    hide WrappedPlace, Spliced;
    if |before| - (end - begin) + |items| > MAX_INDEX {
      forall j | 0 <= j < |after|
        ensures begin <= j ==> after[j] == Some(items[j - begin])
        ensures j < begin ==>
          if j + U32_LIMIT < begin + |items| then after[j] == Some(items[j + U32_LIMIT - begin])
          else after[j] in before[|after|..]
      {
        WrappedPlaceIs(before, begin, end, items, j);
      }
    }
  }

  lemma WrappedPlaceIs(before: seq<Place>, begin: nat, end: nat, items: seq<Value>, j: nat)
    requires begin <= end <= |before| <= MAX_INDEX && |items| < U32_LIMIT
    requires j + U32_LIMIT < |before| - (end - begin) + |items|
    ensures var place, r := WrappedPlace(before, begin, end, items, j), |before| - (end - begin) + |items| - U32_LIMIT;
      && j < r <= |before|
      && if begin <= j then place == Some(items[j - begin])
         else if j + U32_LIMIT < begin + |items| then place == Some(items[j + U32_LIMIT - begin])
         else place in before[r..]
  {
    var d, r := U32_LIMIT - (|items| - (end - begin)), |before| - (end - begin) + |items| - U32_LIMIT;
    if j < begin && j + U32_LIMIT >= begin + |items| {
      CascadesToEnd(j + d, d, |before|);
      assert before[Cascaded(j + d, d, |before|)] == before[r..][Cascaded(j + d, d, |before|) - r];
    }
  }

  /** What is moved up by 2^32 - d again and again comes from one of the last d places, a multiple of d further on. */
  lemma {:induction false} CascadesToEnd(x: nat, d: nat, len: nat)
    requires 0 < d && x < len
    ensures len <= Cascaded(x, d, len) + d && (Cascaded(x, d, len) - x) % d == 0
    decreases len - x
  {
    if x + d < len {
      CascadesToEnd(x + d, d, len);
      OneMore(Cascaded(x, d, len) - x, d);
    }
  }

  lemma OneMore(n: nat, d: nat)
    requires 0 < d <= n && (n - d) % d == 0
    ensures n % d == 0
  {
    var q := (n - d) / d;
    MulMore(q, d);
    Bits.QuotientIs(n, d, q + 1, 0);
  }

  lemma MulMore(q: nat, d: nat)
    ensures (q + 1) * d == d * q + d
  {
  }

  /** Shifting gives the rest of the array if and only if it has no hole: undefined stands in for each. */
  lemma ShiftFillsHoles(before: seq<Place>, v: Value, after: seq<Place>)
    requires before != [] && Shifted(before, v, after)
    ensures after == before[1..] <==> None !in before[1..]
    ensures None !in after && forall i | 0 <= i < |after| && before[i + 1] == None :: after[i] == Some(Undefined)
    ensures |before| == 2 && before[1] == None ==> after == [Some(Undefined)] != before[1..] == [None]
  {
    assert forall i | 0 <= i < |before| - 1 :: before[1..][i] == before[i + 1];
    if None in before[1..] {
      var i :| 0 <= i < |before| - 1 && before[1..][i] == None;
      assert after[i] != before[1..][i];
    }
  }

  lemma {:induction false} JoinedTwo(s: seq<Place>, t: seq<Place>)
    ensures Joined([s, t]) == s + t
  {
    assert [s, t][..1] == [s] && [s][..0] == [];
    assert Joined([s]) == [] + s == s;
  }

  /**
   Concatenating past the limit gives too few places, whatever is concatenated; in each of them is the
   last value that was stored under its key, and a hole only if nothing ever was.
   */
  lemma ConcatWraps(parts: seq<seq<Place>>, after: seq<Place>)
    requires Concatenated(parts, after)
    ensures var whole := Joined(parts);
      && (after == whole <==> |whole| <= MAX_INDEX)
      && (|whole| > MAX_INDEX ==> |after| <= |whole| - U32_LIMIT)
      && (forall j | 0 <= j < |after| :: after[j] == None <==>
            forall i | 0 <= i < |whole| && U32(i) == j :: whole[i] == None)
  {
    var whole := Joined(parts);
    ConcatenatedFits(whole, after);
    forall j | 0 <= j < |after|
      ensures after[j] == None <==> forall i | 0 <= i < |whole| && U32(i) == j :: whole[i] == None
    {
      LastAtIsHole(whole, j);
      assert forall i: nat | i < |whole| :: U32(i) == j <==> j <= i && (i - j) % U32_LIMIT == 0 by {
        forall i: nat | i < |whole| ensures U32(i) == j <==> j <= i && (i - j) % U32_LIMIT == 0 {
          SameRemainder(i, j);
        }
      }
    }
  }

  lemma {:induction false} LastAtIsHole(s: seq<Place>, k: nat)
    ensures LastAt(s, k) == None <==> forall i | 0 <= i < |s| && k <= i && (i - k) % U32_LIMIT == 0 :: s[i] == None
    decreases |s| - k
  {
    if k < |s| {
      LastAtIsHole(s, k + U32_LIMIT);
    }
  }

  /** One value behind a full array: nothing comes out. */
  lemma ConcatOfFull(s: seq<Place>, v: Value, after: seq<Place>)
    requires |s| == MAX_INDEX && Concatenated([s, [Some(v)]], after)
    ensures after == [] != s + [Some(v)]
  {
    JoinedTwo(s, [Some(v)]);
  }
}
