/**
 Heap sort as js/src/jsarray.c does it.  The heap over s[0..n) is rotated: node 1 (the root) is
 the last slot s[n-1] and node k >= 2 is slot k-2, so that the maximum already stands where the
 sorting phase wants it, and shortening the heap by one turns its last leaf into the new root.
 */
module HeapSort {

  // ---------- Comparators and the orders they serve ----------

  function Compare<T>(cmp: (T, T) -> int, x: T, y: T): int {
    cmp(x, y)
  }

  ghost predicate Le<T(!new)>(le: (T, T) -> bool, x: T, y: T) {
    le(x, y)
  }

  ghost function Elements<T>(s: seq<T>): set<T> {
    set x | x in s
  }

  ghost predicate Decides<T(!new)>(cmp: (T, T) -> int, le: (T, T) -> bool, x: T, y: T) {
    if Compare(cmp, x, y) < 0 then Le(le, x, y) else Le(le, y, x)
  }

  ghost predicate Chains<T(!new)>(le: (T, T) -> bool, x: T, y: T, z: T) {
    Le(le, x, y) && Le(le, y, z) ==> Le(le, x, z)
  }

  /**
   On the values of S, le is transitive and every answer of cmp agrees with it.  cmp may answer
   arbitrarily where le ties, so an order coarser than cmp qualifies even if cmp is no order.
   */
  ghost predicate Serves<T(!new)>(cmp: (T, T) -> int, le: (T, T) -> bool, S: set<T>) {
    && (forall x, y {:trigger Decides(cmp, le, x, y)} | x in S && y in S :: Decides(cmp, le, x, y))
    && (forall x, y, z {:trigger Chains(le, x, y, z)} | x in S && y in S && z in S :: Chains(le, x, y, z))
  }

  lemma Answer<T(!new)>(cmp: (T, T) -> int, le: (T, T) -> bool, S: set<T>, x: T, y: T)
    requires Serves(cmp, le, S) && x in S && y in S
    ensures Decides(cmp, le, x, y)
  {
  }

  ghost predicate Sorted<T(!new)>(le: (T, T) -> bool, s: seq<T>) {
    forall i, j | 0 <= i < j < |s| :: Le(le, s[i], s[j])
  }

  /** The order a comparator states itself. */
  ghost function AtMost<T(!new)>(cmp: (T, T) -> int): (T, T) -> bool {
    (x, y) => Compare(cmp, x, y) <= 0
  }

  /** Asked about x and y, in this order, the comparator does not say that x is greater. */
  predicate NotAbove<T(!new)>(cmp: (T, T) -> int, x: T, y: T) {
    cmp(x, y) <= 0
  }

  lemma SortedByItself<T(!new)>(cmp: (T, T) -> int, s: seq<T>)
    requires Sorted(AtMost(cmp), s)
    ensures forall i, j | 0 <= i < j < |s| :: NotAbove(cmp, s[i], s[j])
  {
  }

  ghost predicate SignFlips<T(!new)>(cmp: (T, T) -> int, x: T, y: T) {
    Compare(cmp, x, y) < 0 <==> Compare(cmp, y, x) > 0
  }

  ghost predicate Transitive<T(!new)>(cmp: (T, T) -> int, x: T, y: T, z: T) {
    Compare(cmp, x, y) <= 0 && Compare(cmp, y, z) <= 0 ==> Compare(cmp, x, z) <= 0
  }

  /** cmp is a total preorder on the values of S. */
  ghost predicate Consistent<T(!new)>(cmp: (T, T) -> int, S: set<T>) {
    && (forall x, y {:trigger SignFlips(cmp, x, y)} | x in S && y in S :: SignFlips(cmp, x, y))
    && (forall x, y, z {:trigger Transitive(cmp, x, y, z)} | x in S && y in S && z in S :: Transitive(cmp, x, y, z))
  }

  /** A consistent comparator serves its own order. */
  lemma ConsistentServes<T(!new)>(cmp: (T, T) -> int, S: set<T>)
    requires Consistent(cmp, S)
    ensures Serves(cmp, AtMost(cmp), S)
  {
    forall x, y | x in S && y in S ensures Decides(cmp, AtMost(cmp), x, y) {
      assert SignFlips(cmp, x, y) && SignFlips(cmp, y, x);
    }
    forall x, y, z | x in S && y in S && z in S ensures Chains(AtMost(cmp), x, y, z) {
      assert Transitive(cmp, x, y, z);
    }
  }

  // ---------- The rotated heap ----------

  function Slot(n: nat, k: nat): (i: nat)
    requires 1 <= k <= n
    ensures i < n
  {
    if k == 1 then n - 1 else k - 2
  }

  function Node<T>(s: seq<T>, k: nat): T
    requires 1 <= k <= |s|
  {
    s[Slot(|s|, k)]
  }

  /** Node k does not exceed its parent. */
  ghost predicate Fits<T(!new)>(le: (T, T) -> bool, s: seq<T>, k: nat)
    requires 2 <= k <= |s|
  {
    Le(le, Node(s, k), Node(s, k / 2))
  }

  /** Node k does not exceed node p. */
  ghost predicate Under<T(!new)>(le: (T, T) -> bool, s: seq<T>, k: nat, p: nat)
    requires 1 <= k <= |s| && 1 <= p <= |s|
  {
    Le(le, Node(s, k), Node(s, p))
  }

  /** Every node from lo on is at least as large as its children. */
  ghost predicate Heap<T(!new)>(le: (T, T) -> bool, s: seq<T>, lo: nat) {
    forall k | 2 <= k <= |s| && lo <= k / 2 :: Fits(le, s, k)
  }

  /**
   A heap from lo on in which only node h may be smaller than its children, which are still
   bounded by the parent of h.
   */
  ghost predicate HeapBut<T(!new)>(le: (T, T) -> bool, s: seq<T>, lo: nat, h: nat)
    requires 1 <= h
  {
    && (forall k | 2 <= k <= |s| && lo <= k / 2 && k / 2 != h :: Fits(le, s, k))
    && (forall k | 2 <= k <= |s| && k / 2 == h && lo <= h / 2 && 2 <= h :: Under(le, s, k, h / 2))
  }

  lemma NodesAreElements<T>(s: seq<T>)
    ensures forall k {:trigger Node(s, k)} | 1 <= k <= |s| :: Node(s, k) in Elements(s)
  {
  }

  ghost predicate IsLargerChild<T(!new)>(le: (T, T) -> bool, s: seq<T>, h: nat, j: nat)
    requires 1 <= h
  {
    && 2 <= j <= |s| && j / 2 == h
    && forall k | 2 <= k <= |s| && k / 2 == h :: Under(le, s, k, j)
  }

  ghost function Swap<T>(s: seq<T>, i: nat, j: nat): seq<T>
    requires i < |s| && j < |s|
  {
    s[i := s[j]][j := s[i]]
  }

  lemma SwapPermutes<T>(s: seq<T>, i: nat, j: nat)
    requires i < |s| && j < |s|
    ensures multiset(Swap(s, i, j)) == multiset(s)
    ensures var t := Swap(s, i, j);
            && |t| == |s| && t[i] == s[j] && t[j] == s[i]
            && forall k | 0 <= k < |s| && k != i && k != j :: t[k] == s[k]
  {
  }

  lemma PermutationKeepsElements<T>(s: seq<T>, t: seq<T>)
    requires multiset(s) == multiset(t)
    ensures Elements(s) == Elements(t)
  {
    forall x ensures x in s <==> x in t {
      assert x in multiset(s) <==> x in s;
      assert x in multiset(t) <==> x in t;
    }
  }

  /** Moving the larger child up into h leaves only that child's node to repair. */
  lemma SiftStep<T(!new)>(le: (T, T) -> bool, s: seq<T>, lo: nat, h: nat, j: nat)
    requires 1 <= lo <= h <= |s| && HeapBut(le, s, lo, h)
    requires IsLargerChild(le, s, h, j)
    requires Le(le, Node(s, h), Node(s, j))
    ensures HeapBut(le, Swap(s, Slot(|s|, h), Slot(|s|, j)), lo, j)
  {
    var t := Swap(s, Slot(|s|, h), Slot(|s|, j));
    assert Node(t, h) == Node(s, j) && Node(t, j) == Node(s, h);
    assert forall k | 1 <= k <= |s| && k != h && k != j :: Node(t, k) == Node(s, k);
    NodesAreElements(s);
    forall k | 2 <= k <= |t| && lo <= k / 2 && k / 2 != j
      ensures Fits(le, t, k)
    {
      if k == j {
      } else if k / 2 == h {
        assert Under(le, s, k, j);
      } else if k == h {
        assert Under(le, s, j, h / 2);
      } else {
        assert Fits(le, s, k);
      }
    }
    forall k | 2 <= k <= |t| && k / 2 == j && lo <= j / 2
      ensures Under(le, t, k, j / 2)
    {
      assert Fits(le, s, k);
    }
  }

  /** Once the value in h is not below its larger child, or h is a leaf, nothing is left to repair. */
  lemma SiftDone<T(!new)>(cmp: (T, T) -> int, le: (T, T) -> bool, s: seq<T>, lo: nat, h: nat, j: nat)
    requires Serves(cmp, le, Elements(s))
    requires 1 <= lo <= h <= |s| && HeapBut(le, s, lo, h)
    requires |s| < 2 * h || (IsLargerChild(le, s, h, j) && Le(le, Node(s, j), Node(s, h)))
    ensures Heap(le, s, lo)
  {
    NodesAreElements(s);
    forall k | 2 <= k <= |s| && lo <= k / 2
      ensures Fits(le, s, k)
    {
      if k / 2 == h {
        assert Under(le, s, k, j);
        assert Chains(le, Node(s, k), Node(s, j), Node(s, h));
      }
    }
  }

  // ---------- Sifting ----------

  /**
   What lets HeapSortHelper skip the early-return test of the root in the sorting phase: the root
   compares no greater than each of its children's maximum.
   */
  ghost predicate RootFits<T(!new)>(le: (T, T) -> bool, s: seq<T>) {
    2 < |s| ==> Le(le, Node(s, 1), Node(s, 2)) || Le(le, Node(s, 1), Node(s, 3))
  }

  ghost predicate Siftable<T(!new)>(cmp: (T, T) -> int, le: (T, T) -> bool, building: bool, s: seq<T>, lo: nat) {
    && Serves(cmp, le, Elements(s))
    && Heap(le, s, lo + 1)
    && (lo == 1 && !building ==> RootFits(le, s))
  }

  /** The child the C code picks: the second one only if it exists and compares greater. */
  function PickChild<T>(cmp: (T, T) -> int, s: seq<T>, h: nat): nat
    requires 1 <= h && 2 * h <= |s|
  {
    if 2 * h < |s| && Compare(cmp, Node(s, 2 * h), Node(s, 2 * h + 1)) < 0 then 2 * h + 1 else 2 * h
  }

  lemma LargerChild<T(!new)>(cmp: (T, T) -> int, le: (T, T) -> bool, s: seq<T>, h: nat, j: nat)
    requires Serves(cmp, le, Elements(s)) && 1 <= h && 2 * h <= |s|
    requires j == PickChild(cmp, s, h)
    ensures IsLargerChild(le, s, h, j)
  {
    NodesAreElements(s);
    forall k | 2 <= k <= |s| && k / 2 == h
      ensures Under(le, s, k, j)
    {
      assert k == 2 * h || k == 2 * h + 1;
      assert Decides(cmp, le, Node(s, 2 * h), Node(s, k)) && Decides(cmp, le, Node(s, 2 * h), Node(s, j));
      assert Decides(cmp, le, Node(s, j), Node(s, j));
    }
  }

  /** The remark in the C code: in the sorting phase the root never exceeds its larger child. */
  lemma RootIsNotAbove<T(!new)>(cmp: (T, T) -> int, le: (T, T) -> bool, building: bool, s: seq<T>, j: nat)
    requires 2 <= |s| && Siftable(cmp, le, building, s, 1) && IsLargerChild(le, s, 1, j)
    requires (building || |s| == 2) ==> Compare(cmp, Node(s, 1), Node(s, j)) < 0
    ensures Le(le, Node(s, 1), Node(s, j))
  {
    NodesAreElements(s);
    assert Decides(cmp, le, Node(s, 1), Node(s, j));
    if !building && 2 < |s| {
      assert Under(le, s, 2, j) && Under(le, s, 3, j);
      assert Chains(le, Node(s, 1), Node(s, 2), Node(s, j)) && Chains(le, Node(s, 1), Node(s, 3), Node(s, j));
    }
  }

  /** Choosing the larger child and moving it up keeps a sift under way, for a root and for any node. */
  lemma MoveUp<T(!new)>(cmp: (T, T) -> int, le: (T, T) -> bool, s: seq<T>, lo: nat, h: nat, j: nat)
    requires 1 <= lo <= h && 2 * h <= |s| && HeapBut(le, s, lo, h) && Serves(cmp, le, Elements(s))
    requires j == PickChild(cmp, s, h) && Le(le, Node(s, h), Node(s, j))
    ensures Serves(cmp, le, Elements(Swap(s, Slot(|s|, h), Slot(|s|, j))))
    ensures HeapBut(le, Swap(s, Slot(|s|, h), Slot(|s|, j)), lo, j)
  {
    LargerChild(cmp, le, s, h, j);
    SiftStep(le, s, lo, h, j);
    SwapPermutes(s, Slot(|s|, h), Slot(|s|, j));
    PermutationKeepsElements(s, Swap(s, Slot(|s|, h), Slot(|s|, j)));
  }

  /** One turn of the sifting loop, seen on the heap with the pivot put back into the hole. */
  lemma Exchange<T(!new)>(cmp: (T, T) -> int, le: (T, T) -> bool, fit: bool, s: seq<T>, lo: nat, h: nat, j: nat)
    returns (t: seq<T>)
    requires 1 <= lo <= h && 2 <= h && 2 * h <= |s| && j == PickChild(cmp, s, h)
    requires fit ==> Serves(cmp, le, Elements(s)) && HeapBut(le, s, lo, h) && Compare(cmp, s[h - 2], s[j - 2]) < 0
    ensures |t| == |s| && multiset(t) == multiset(s)
    ensures t[j - 2] == s[h - 2] && t[h - 2] == s[j - 2]
    ensures forall i | 0 <= i < |s| && i != h - 2 && i != j - 2 :: t[i] == s[i]
    ensures fit ==> Serves(cmp, le, Elements(t)) && HeapBut(le, t, lo, j)
  {
    hide Serves, HeapBut, Swap;
    assert Slot(|s|, h) == h - 2 && Slot(|s|, j) == j - 2;
    t := Swap(s, h - 2, j - 2);
    SwapPermutes(s, h - 2, j - 2);
    if fit {
      Answer(cmp, le, Elements(s), s[h - 2], s[j - 2]);
      MoveUp(cmp, le, s, lo, h, j);
    }
  }

  /** A node not below the larger of its children completes the heap, and so does a leaf. */
  lemma Settle<T(!new)>(cmp: (T, T) -> int, le: (T, T) -> bool, s: seq<T>, lo: nat, h: nat)
    requires 1 <= lo <= h <= |s| && HeapBut(le, s, lo, h) && Serves(cmp, le, Elements(s))
    requires |s| < 2 * h || Compare(cmp, Node(s, h), Node(s, PickChild(cmp, s, h))) >= 0
    ensures Heap(le, s, lo)
  {
    if 2 * h <= |s| {
      var j := PickChild(cmp, s, h);
      LargerChild(cmp, le, s, h, j);
      NodesAreElements(s);
      assert Decides(cmp, le, Node(s, h), Node(s, j));
      SiftDone(cmp, le, s, lo, h, j);
    } else {
      SiftDone(cmp, le, s, lo, h, 0);
    }
  }

  /** The first move of the root: either the test was made, or the root fits without it. */
  lemma StartAtRoot<T(!new)>(cmp: (T, T) -> int, le: (T, T) -> bool, building: bool, s: seq<T>, j: nat)
    requires 2 <= |s| && Siftable(cmp, le, building, s, 1) && j == PickChild(cmp, s, 1)
    requires (building || |s| == 2) ==> Compare(cmp, Node(s, 1), Node(s, j)) < 0
    ensures Serves(cmp, le, Elements(Swap(s, |s| - 1, j - 2)))
    ensures HeapBut(le, Swap(s, |s| - 1, j - 2), 1, j)
  {
    LargerChild(cmp, le, s, 1, j);
    RootIsNotAbove(cmp, le, building, s, j);
    MoveUp(cmp, le, s, 1, 1, j);
  }

  /** A sift of any other node starts at once. */
  lemma StartElsewhere<T(!new)>(cmp: (T, T) -> int, le: (T, T) -> bool, building: bool, s: seq<T>, lo: nat)
    requires 2 <= lo && Siftable(cmp, le, building, s, lo)
    ensures Serves(cmp, le, Elements(s)) && HeapBut(le, s, lo, lo)
  {
  }

  /** The early return of the root branch. */
  lemma SettleRoot<T(!new)>(cmp: (T, T) -> int, le: (T, T) -> bool, building: bool, s: seq<T>)
    requires 2 <= |s| && Siftable(cmp, le, building, s, 1) && (building || |s| == 2)
    requires Compare(cmp, Node(s, 1), Node(s, PickChild(cmp, s, 1))) >= 0
    ensures Heap(le, s, 1)
  {
    Settle(cmp, le, s, 1, 1);
  }

  /**
   The branch of HeapSortHelper for the root.  Either nothing is to be done, or the hole is at j and
   after is the heap with the old root put into it.
   */
  method MoveRoot<T(!new)>(building: bool, vec: array<T>, cmp: (T, T) -> int, ghost le: (T, T) -> bool, hi: nat,
                           ghost fit: bool)
    returns (done: bool, j: nat, ghost after: seq<T>)
    requires 2 <= hi <= vec.Length && (fit ==> Siftable(cmp, le, building, vec[..hi], 1))
    modifies vec
    ensures vec[hi..] == old(vec[hi..])
    ensures done ==> vec[..hi] == old(vec[..hi]) && (fit ==> Heap(le, vec[..hi], 1))
    ensures !done ==>
      && 2 <= j <= hi && |after| == hi && multiset(after) == multiset(old(vec[..hi]))
      && after[j - 2] == old(vec[hi - 1]) && (forall i | 0 <= i < hi && i != j - 2 :: vec[i] == after[i])
      && (fit ==> Serves(cmp, le, Elements(after)) && HeapBut(le, after, 1, j))
  {
    hide Siftable, Heap, HeapBut, Serves, Elements, PickChild, Swap;
    after := vec[..hi];
    j := Child(vec, cmp, 1, hi);
    if (building || hi == 2) && Compare(cmp, vec[hi - 1], vec[j - 2]) >= 0 {
      if fit {
        SettleRoot(cmp, le, building, after);
      }
      return true, j, after;
    }
    if fit {
      StartAtRoot(cmp, le, building, after, j);
    }
    SwapPermutes(after, hi - 1, j - 2);
    done, after := false, Swap(after, hi - 1, j - 2);
    vec[hi - 1] := vec[j - 2];
  }

  /** The child of node h that HeapSortHelper picks. */
  method Child<T(!new)>(vec: array<T>, cmp: (T, T) -> int, h: nat, hi: nat) returns (j: nat)
    requires 1 <= h && 2 * h <= hi <= vec.Length
    ensures j == PickChild(cmp, vec[..hi], h) && 2 * h <= j <= hi && j <= 2 * h + 1
  {
    j := h + h;
    if j < hi && Compare(cmp, vec[j - 2], vec[j - 1]) < 0 {
      j := j + 1;
    }
  }

  /**
   Sift node lo of the heap in vec[0..hi).  For any comparator the slots are only permuted; for a
   consistent one, a heap from lo + 1 on becomes a heap from lo on.
   */
  method HeapSortHelper<T(!new)>(building: bool, vec: array<T>, cmp: (T, T) -> int, ghost le: (T, T) -> bool,
                                 lo: nat, hi: nat)
    requires 1 <= lo <= hi / 2 && hi <= vec.Length
    modifies vec
    ensures multiset(vec[..hi]) == multiset(old(vec[..hi]))
    ensures vec[hi..] == old(vec[hi..])
    ensures Siftable(cmp, le, building, old(vec[..hi]), lo) ==> Heap(le, vec[..hi], lo)
  {
    hide Siftable, Heap, HeapBut, Serves, Elements;
    var h, pivot := lo, vec[Slot(hi, lo)];
    // v is the heap with the pivot put back into the hole h
    ghost var v := vec[..hi];
    ghost var fit := Siftable(cmp, le, building, v, lo);
    if lo == 1 {
      var done;
      done, h, v := MoveRoot(building, vec, cmp, le, hi, fit);
      if done {
        return;
      }
    } else if fit {
      StartElsewhere(cmp, le, building, v, lo);
    }
    SiftDown(vec, cmp, le, lo, h, hi, pivot, v, fit);
  }

  /** What is in the hole does not matter to the choice of the child. */
  lemma SameChild<T>(cmp: (T, T) -> int, s: seq<T>, t: seq<T>, h: nat)
    requires 2 <= h && 2 * h <= |s| == |t| && forall i | 0 <= i < |s| && i != h - 2 :: s[i] == t[i]
    ensures PickChild(cmp, s, h) == PickChild(cmp, t, h)
  {
  }

  /** The sifting loop of HeapSortHelper: move children up into the hole h until pivot fits there. */
  method SiftDown<T(!new)>(vec: array<T>, cmp: (T, T) -> int, ghost le: (T, T) -> bool,
                           ghost lo: nat, start: nat, hi: nat, pivot: T,
                           ghost before: seq<T>, ghost fit: bool)
    requires 1 <= lo <= start <= hi <= vec.Length && 2 <= start && |before| == hi
    requires pivot == before[start - 2]
    requires forall i | 0 <= i < hi && i != start - 2 :: vec[i] == before[i]
    requires fit ==> Serves(cmp, le, Elements(before)) && HeapBut(le, before, lo, start)
    modifies vec
    ensures multiset(vec[..hi]) == multiset(before)
    ensures vec[hi..] == old(vec[hi..])
    ensures fit ==> Heap(le, vec[..hi], lo)
  {
    hide Heap, HeapBut, Serves, Elements, PickChild;
    var h := start;
    ghost var v := before;
    while h <= hi / 2
      invariant lo <= h <= hi && 2 <= h && |v| == hi
      invariant multiset(v) == multiset(before)
      invariant pivot == v[h - 2]
      invariant forall i | 0 <= i < hi && i != h - 2 :: vec[i] == v[i]
      invariant vec[hi..] == old(vec[hi..])
      invariant fit ==> Serves(cmp, le, Elements(v)) && HeapBut(le, v, lo, h)
      decreases hi - h
    {
      var j := Child(vec, cmp, h, hi);
      SameChild(cmp, vec[..hi], v, h);
      if Compare(cmp, pivot, vec[j - 2]) >= 0 {
        break;
      }
      vec[h - 2] := vec[j - 2];
      v := Exchange(cmp, le, fit, v, lo, h, j);
      h := j;
    }
    if fit {
      Settle(cmp, le, v, lo, h);
    }
    vec[h - 2] := pivot;
    assert vec[..hi] == v;
  }

  // ---------- Sorting ----------

  /** A descendant never exceeds the child of the root above it. */
  lemma {:induction false} BelowAChildOfTheRoot<T(!new)>(cmp: (T, T) -> int, le: (T, T) -> bool, s: seq<T>, k: nat)
    requires Serves(cmp, le, Elements(s)) && Heap(le, s, 1) && 2 <= k <= |s| && 3 <= |s|
    ensures Le(le, Node(s, k), Node(s, 2)) || Le(le, Node(s, k), Node(s, 3))
    decreases k
  {
    NodesAreElements(s);
    if 4 <= k {
      BelowAChildOfTheRoot(cmp, le, s, k / 2);
      assert Fits(le, s, k);
      assert Chains(le, Node(s, k), Node(s, k / 2), Node(s, 2));
      assert Chains(le, Node(s, k), Node(s, k / 2), Node(s, 3));
    } else {
      assert Decides(cmp, le, Node(s, k), Node(s, k));
    }
  }

  lemma {:induction false} RootIsLargest<T(!new)>(cmp: (T, T) -> int, le: (T, T) -> bool, s: seq<T>, k: nat)
    requires Serves(cmp, le, Elements(s)) && Heap(le, s, 1) && 1 <= k <= |s|
    ensures Le(le, Node(s, k), Node(s, 1))
    decreases k
  {
    NodesAreElements(s);
    if 2 <= k {
      RootIsLargest(cmp, le, s, k / 2);
      assert Fits(le, s, k);
      assert Chains(le, Node(s, k), Node(s, k / 2), Node(s, 1));
    } else {
      assert Decides(cmp, le, Node(s, 1), Node(s, 1));
    }
  }

  /**
   Shortening the heap by one leaves its maximum behind and makes its last leaf the root of a
   heap that lacks only the root's repair, and that root needs no early-return test.
   */
  lemma DropMaximum<T(!new)>(cmp: (T, T) -> int, le: (T, T) -> bool, s: seq<T>, t: seq<T>)
    requires 3 <= |s| && t == s[..|s| - 1]
    requires Serves(cmp, le, Elements(s)) && Heap(le, s, 1)
    ensures Siftable(cmp, le, false, t, 1)
    ensures forall x | x in t :: Le(le, x, s[|s| - 1])
  {
    assert Elements(t) <= Elements(s);
    assert Node(t, 1) == Node(s, |s|);
    forall k | 2 <= k <= |t| && 2 <= k / 2
      ensures Fits(le, t, k)
    {
      assert Fits(le, s, k);
    }
    BelowAChildOfTheRoot(cmp, le, s, |s|);
    forall i | 0 <= i < |t|
      ensures Le(le, t[i], s[|s| - 1])
    {
      assert t[i] == Node(s, i + 2);
      RootIsLargest(cmp, le, s, i + 2);
    }
  }

  /**
   The remark in HeapSortHelper, for every round: with the heap shortened to hi > 2 elements, the
   value in the root slot never compares greater than the child it would be tested against, so
   leaving out the early return loses nothing.
   */
  lemma RootTestIsNeedless<T(!new)>(cmp: (T, T) -> int, s: seq<T>, hi: nat)
    requires 2 < hi && hi + 1 == |s| && Consistent(cmp, Elements(s)) && Heap(AtMost(cmp), s, 1)
    ensures Compare(cmp, s[hi - 1], s[PickChild(cmp, s[..hi], 1) - 2]) <= 0
  {
    var le, t := AtMost(cmp), s[..hi];
    ConsistentServes(cmp, Elements(s));
    DropMaximum(cmp, le, s, t);
    LargerChild(cmp, le, t, 1, PickChild(cmp, t, 1));
    RootIsNotAbove(cmp, le, false, t, PickChild(cmp, t, 1));
    assert Le(le, s[hi - 1], s[PickChild(cmp, t, 1) - 2]);
  }

  /** The sorted tail stays sorted and above the heap when the heap's maximum joins it. */
  lemma TailGrows<T(!new)>(le: (T, T) -> bool, a: seq<T>, n: nat)
    requires 2 <= n <= |a|
    requires Sorted(le, a[n..])
    requires forall i, j | 0 <= i < n <= j < |a| :: Le(le, a[i], a[j])
    ensures Sorted(le, a[n - 1..])
  {
  }

  /** What holds before each round of the sorting phase, with the heap in a[..n]. */
  ghost predicate Phase<T(!new)>(le: (T, T) -> bool, a: seq<T>, n: nat)
    requires n <= |a|
  {
    && Heap(le, a[..n], 1)
    && Sorted(le, a[n..])
    && forall i, j | 0 <= i < n <= j < |a| :: Le(le, a[i], a[j])
  }

  /** One round: drop the maximum, then permute the shorter heap a[..n-1] into a heap again. */
  lemma NextPhase<T(!new)>(cmp: (T, T) -> int, le: (T, T) -> bool, a: seq<T>, b: seq<T>, n: nat)
    requires 3 <= n <= |a| == |b| && Serves(cmp, le, Elements(a)) && Phase(le, a, n)
    requires multiset(b[..n - 1]) == multiset(a[..n - 1]) && b[n - 1..] == a[n - 1..]
    requires Heap(le, b[..n - 1], 1)
    ensures Phase(le, b, n - 1)
  {
    TailGrows(le, a, n);
    PermutationKeepsElements(b[..n - 1], a[..n - 1]);
    forall i, j | 0 <= i < n - 1 <= j < |b|
      ensures Le(le, b[i], b[j])
    {
      assert b[..n - 1][i] in Elements(b[..n - 1]);
      assert b[j] == b[n - 1..][j - (n - 1)] == a[j];
      HeadBelowTail(cmp, le, a, n, b[i], j);
    }
  }

  /** Whatever stays in the heap is below everything from the dropped maximum on. */
  lemma HeadBelowTail<T(!new)>(cmp: (T, T) -> int, le: (T, T) -> bool, a: seq<T>, n: nat, x: T, j: nat)
    requires 3 <= n <= |a| && Serves(cmp, le, Elements(a)) && Phase(le, a, n)
    requires x in Elements(a[..n - 1]) && n - 1 <= j < |a|
    ensures Le(le, x, a[j])
  {
    var k :| 0 <= k < n - 1 && a[k] == x;
    if j == n - 1 {
      assert Elements(a[..n]) <= Elements(a);
      RootIsLargest(cmp, le, a[..n], k + 2);
    }
  }

  /** A phase with at most two nodes left is sorted. */
  lemma LastPhase<T(!new)>(le: (T, T) -> bool, a: seq<T>, n: nat)
    requires n <= |a| && n <= 2 && Phase(le, a, n)
    ensures Sorted(le, a)
  {
    forall i, j | 0 <= i < j < |a|
      ensures Le(le, a[i], a[j])
    {
      if n <= i {
        assert a[i] == a[n..][i - n] && a[j] == a[n..][j - n];
      } else if j < n {
        assert Fits(le, a[..n], 2);
      }
    }
  }

  lemma SplitMultiset<T>(a: seq<T>, b: seq<T>, n: nat)
    requires n <= |a| == |b| && multiset(a[..n]) == multiset(b[..n]) && a[n..] == b[n..]
    ensures multiset(a) == multiset(b)
  {
    assert a == a[..n] + a[n..] && b == b[..n] + b[n..];
  }

  /** Once all of it is a heap, there are rounds to go for every element. */
  lemma PhaseStarts<T(!new)>(le: (T, T) -> bool, a: seq<T>)
    requires Heap(le, a, 1)
    ensures Phase(le, a, |a|)
  {
    assert a[..|a|] == a;
  }

  /** At the start of a round the maximum is dropped from the heap in front. */
  lemma RoundStarts<T(!new)>(cmp: (T, T) -> int, le: (T, T) -> bool, a: seq<T>, n: nat)
    requires 3 <= n <= |a| && Serves(cmp, le, Elements(a)) && Phase(le, a, n)
    ensures Siftable(cmp, le, false, a[..n - 1], 1)
  {
    hide Sorted;
    assert Elements(a[..n]) <= Elements(a);
    assert a[..n][..n - 1] == a[..n - 1];
    DropMaximum(cmp, le, a[..n], a[..n - 1]);
  }

  /**
   js_HeapSort: for every comparator the result is a permutation of the input, and it is in
   nondecreasing order whenever the comparator is consistent on the elements.
   */
  method Sort<T(!new)>(vec: array<T>, cmp: (T, T) -> int, ghost le: (T, T) -> bool)
    modifies vec
    ensures multiset(vec[..]) == multiset(old(vec[..]))
    ensures Serves(cmp, le, Elements(old(vec[..]))) ==> Sorted(le, vec[..])
  {
    hide Phase, Sorted;
    var nel := vec.Length;
    ghost var ok := Serves(cmp, le, Elements(vec[..]));
    var i := nel / 2;
    while i != 0
      invariant 0 <= i <= nel / 2
      invariant multiset(vec[..]) == multiset(old(vec[..]))
      invariant ok ==> Serves(cmp, le, Elements(vec[..])) && Heap(le, vec[..], i + 1)
    {
      ghost var before := vec[..];
      HeapSortHelper(true, vec, cmp, le, i, nel);
      assert vec[..nel] == vec[..] && before[..nel] == before;
      PermutationKeepsElements(before, vec[..]);
      i := i - 1;
    }
    assert vec[..nel] == vec[..];
    if ok {
      PhaseStarts(le, vec[..]);
    }
    while nel > 2
      invariant 0 <= nel <= vec.Length
      invariant multiset(vec[..]) == multiset(old(vec[..]))
      invariant ok ==> Serves(cmp, le, Elements(vec[..])) && Phase(le, vec[..], nel)
    {
      ghost var before := vec[..];
      nel := nel - 1;
      if ok {
        RoundStarts(cmp, le, before, nel + 1);
      }
      assert vec[..nel] == before[..nel] && vec[nel..] == before[nel..];
      HeapSortHelper(false, vec, cmp, le, 1, nel);
      assert vec[..][..nel] == vec[..nel] && vec[..][nel..] == vec[nel..];
      SplitMultiset(before, vec[..], nel);
      PermutationKeepsElements(before, vec[..]);
      if ok {
        NextPhase(cmp, le, before, vec[..], nel + 1);
      }
    }
    if ok {
      LastPhase(le, vec[..], nel);
    }
  }
}
