/** js/jsd/jsd_val.c: the operations on values and properties. */
module Values {
  import opened Wrappers
  import opened Ownership
  import opened ValueRecords

  /** The debugger context: the records, the registered roots, and the number of the next record. */
  class Context {
    var heap: Heap
    var roots: set<Root>
    var next: Id
    /** Who owns what, and the handles of the client. */
    ghost var forest: Forest
    /** No allocation fails, and the collector accepts every root. */
    const ample: bool

    ghost predicate Valid()
      reads this
    {
      Coupled(heap, roots, forest, next, {}) && AllComplete(heap)
    }

    ghost predicate AtWork(v: Id, busy: set<Id>, f0: Forest, ks: set<Id>)
      reads this
    {
      Working(heap, roots, forest, next, busy, v, f0, ks) && v in heap
    }

    /**
     jsd_DropValue.  The records in busy are being freed or refreshed by the callers; nothing leads
     back to them.
     */
    method DropValue(id: Id, ghost busy: set<Id>)
      requires Coupled(heap, roots, forest, next, busy) && id in forest.kids && IsValue(heap, id)
      requires CanRelease(forest, {id}) && forall b | b in busy :: b < id
      modifies this
      ensures Coupled(heap, roots, forest, next, busy) && next == old(next)
      ensures forest == Dropped(old(forest), id)
      ensures Survive(old(heap), heap) && (AllComplete(old(heap)) ==> AllComplete(heap))
      decreases next - id, 3
    {
      hide Coupled, Pending, Pruned, Release, Dropped, Inherited, Kids, Refs, Owned, AllComplete;
      CountIs(heap, roots, forest, next, busy, id);
      assert heap[id].nref > 0;
      if heap[id].nref == 1 {
        LastOne(heap, roots, forest, next, busy, id);
        heap := heap[id := Recount(heap[id], 0)];
        forest := Inherited(forest, id);
        RefreshValue(id, busy + {id});
        Freed(heap, roots, forest, next, busy, id);
        if IsGCThing(heap[id].wrapped) {
          roots := roots - {ValRoot(id)};
        } else {
          NoValRoot(heap, roots, forest, next, busy + {id}, id);
        }
        heap := heap - {id};
      } else {
        OneLess(heap, roots, forest, next, busy, id);
        heap := heap[id := Recount(heap[id], heap[id].nref - 1)];
        forest := Release(forest, {id});
      }
      assert Survive(old(heap), heap);
      CompleteStays(old(heap), heap);
    }

    /** jsd_RefreshValue: forget everything that is cached. */
    method RefreshValue(v: Id, ghost busy: set<Id>)
      requires Coupled(heap, roots, forest, next, busy) && Pending(heap, forest, busy, v) && IsValue(heap, v)
      modifies this
      ensures Coupled(heap, roots, forest, next, busy) && next == old(next)
      ensures forest == Pruned(Release(old(forest), Kids(old(heap)[v])))
      ensures SurviveBut(old(heap), heap, v) && v in heap
      ensures heap[v] == ValueNode(heap[v].nref, old(heap)[v].wrapped, [], None, None, None, None, {})
      decreases next - v, 2
    {
      hide Coupled, Pending, Working, Pruned, Release, Kids, Shaped, SurviveBut;
      ForgetText(v, busy);
      SurviveEdit(old(heap), v, heap[v]);
      ghost var f0, ks, h1 := forest, Kids(heap[v]), heap;
      WorkStarts(heap, roots, forest, next, busy, v);
      DropClear(v, Proto, busy, f0, ks);
      SurviveMore(old(heap), h1, heap, v);
      ghost var h2 := heap;
      DropClear(v, Parent, busy, f0, ks);
      SurviveMore(old(heap), h2, heap, v);
      ghost var h3 := heap;
      DropClear(v, Ctor, busy, f0, ks);
      SurviveMore(old(heap), h3, heap, v);
      ghost var h4 := heap;
      FreeProps(v, busy, f0, ks);
      SurviveMore(old(heap), h4, heap, v);
      SurviveEdit(heap, v, heap[v].(flags := {}));
      SurviveMore(old(heap), heap, heap[v := heap[v].(flags := {})], v);
      WorkFlags(heap, roots, forest, next, busy, v, f0, ks, {});
      heap := heap[v := heap[v].(flags := {})];
      NoKids(heap[v]);
      WorkEnds(heap, roots, forest, next, busy, v, f0, ks);
      WorkCoupled(heap, roots, forest, next, busy, v, f0, ks);
    }

    /** The part of jsd_RefreshValue about the cached string. */
    method ForgetText(v: Id, ghost busy: set<Id>)
      requires Coupled(heap, roots, forest, next, busy) && Pending(heap, forest, busy, v) && IsValue(heap, v)
      modifies this`heap, this`roots
      ensures Coupled(heap, roots, forest, next, busy) && Pending(heap, forest, busy, v)
      ensures heap == old(heap)[v := old(heap)[v].(chars := None)]
      ensures Kids(heap[v]) == Kids(old(heap)[v])
    {
      hide Coupled, Pending, Kids;
      TextCleared(heap, roots, forest, next, busy, v);
      if heap[v].chars.Some? {
        if !heap[v].wrapped.Text? {
          roots := roots - {StringRoot(v)};
        }
        heap := heap[v := heap[v].(chars := None)];
      } else {
        assert heap[v := heap[v].(chars := None)] == heap;
      }
    }

    /** DROP_CLEAR_VALUE. */
    method DropClear(v: Id, slot: Slot, ghost busy: set<Id>, ghost f0: Forest, ghost ks: set<Id>)
      requires AtWork(v, busy, f0, ks) && HasSlot(heap[v], slot)
      modifies this
      ensures AtWork(v, busy, f0, ks) && next == old(next)
      ensures SurviveBut(old(heap), heap, v)
      ensures Same(Put(old(heap)[v], slot, None), heap[v])
      decreases next - v, 0
    {
      hide Coupled, Pending, Working, Dropped, Kids, Apart;
      WorkCoupled(heap, roots, forest, next, busy, v, f0, ks);
      var x := Get(heap[v], slot);
      if x.Some? {
        ghost var h, rs, f := heap, roots, forest;
        SlotIsKid(h[v], slot);
        WorkPoints(h, rs, f, next, busy, v, f0, ks, x.value);
        DropValue(x.value, busy);
        BusyStays(heap, roots, forest, next, busy, v);
        WorkApart(h, rs, f, next, busy, v, f0, ks);
        var n := Put(heap[v], slot, None);
        PutNone(h[v], heap[v], slot);
        WorkStep(h, rs, f, next, busy, v, f0, ks, x.value, heap, roots, n);
        heap := heap[v := n];
      }
    }

    /** _freeProps. */
    method FreeProps(v: Id, ghost busy: set<Id>, ghost f0: Forest, ghost ks: set<Id>)
      requires AtWork(v, busy, f0, ks) && heap[v].ValueNode?
      modifies this
      ensures AtWork(v, busy, f0, ks) && next == old(next)
      ensures SurviveBut(old(heap), heap, v)
      ensures heap[v] == old(heap)[v].(nref := heap[v].nref, props := [], flags := old(heap)[v].flags - {GotProps})
      decreases next - v, 1
    {
      hide Working;
      while heap[v].props != []
        invariant AtWork(v, busy, f0, ks) && next == old(next)
        invariant SurviveBut(old(heap), heap, v) && heap[v].ValueNode?
        invariant heap[v] == old(heap)[v].(nref := heap[v].nref, props := heap[v].props)
        decreases |heap[v].props|
      {
        FreeFirstProp(v, busy, f0, ks);
      }
      WorkFlags(heap, roots, forest, next, busy, v, f0, ks, heap[v].flags - {GotProps});
      heap := heap[v := heap[v].(flags := heap[v].flags - {GotProps})];
    }

    /** The body of the loop in _freeProps. */
    method FreeFirstProp(v: Id, ghost busy: set<Id>, ghost f0: Forest, ghost ks: set<Id>)
      requires AtWork(v, busy, f0, ks) && heap[v].ValueNode? && heap[v].props != []
      modifies this
      ensures AtWork(v, busy, f0, ks) && next == old(next)
      ensures SurviveBut(old(heap), heap, v)
      ensures heap[v] == old(heap)[v].(nref := heap[v].nref, props := old(heap)[v].props[1..])
      decreases next - v, 0
    {
      hide Coupled, Pending, Working, Dropped, Kids, Apart;
      ghost var h, rs, f := heap, roots, forest;
      var k := heap[v].props[0];
      PropIsKid(h[v]);
      WorkPoints(h, rs, f, next, busy, v, f0, ks, k);
      WorkCoupled(h, rs, f, next, busy, v, f0, ks);
      var n := heap[v].(props := heap[v].props[1..]);
      BusyEdit(heap, roots, forest, next, busy, v, n);
      heap := heap[v := n];
      DropProperty(k, busy);
      BusyStays(heap, roots, forest, next, busy, v);
      WorkApart(h, rs, f, next, busy, v, f0, ks);
      Unlinked(h[v], heap[v]);
      WorkStep(h, rs, f, next, busy, v, f0, ks, k, heap, roots, heap[v]);
      assert heap[v := heap[v]] == heap;
    }

    /** jsd_DropProperty. */
    method DropProperty(id: Id, ghost busy: set<Id>)
      requires Coupled(heap, roots, forest, next, busy) && id in forest.kids && IsProp(heap, id)
      requires CanRelease(forest, {id}) && forall b | b in busy :: b < id
      modifies this
      ensures Coupled(heap, roots, forest, next, busy) && next == old(next)
      ensures forest == Dropped(old(forest), id)
      ensures Survive(old(heap), heap) && (AllComplete(old(heap)) ==> AllComplete(heap))
      decreases next - id, 3
    {
      hide Coupled, Pending, Pruned, Release, Dropped, Inherited, Kids, Refs, Owned, AllComplete;
      CountIs(heap, roots, forest, next, busy, id);
      assert heap[id].nref > 0;
      if heap[id].nref == 1 {
        LastOne(heap, roots, forest, next, busy, id);
        heap := heap[id := Recount(heap[id], 0)];
        forest := Inherited(forest, id);
        ClearProperty(id, busy + {id});
        Freed(heap, roots, forest, next, busy, id);
        assert roots - {ValRoot(id)} == roots by {
          NoValRoot(heap, roots, forest, next, busy + {id}, id);
        }
        heap := heap - {id};
      } else {
        OneLess(heap, roots, forest, next, busy, id);
        heap := heap[id := Recount(heap[id], heap[id].nref - 1)];
        forest := Release(forest, {id});
      }
      assert Survive(old(heap), heap);
      CompleteStays(old(heap), heap);
    }

    /** What jsd_DropProperty does before it frees the record. */
    method ClearProperty(id: Id, ghost busy: set<Id>)
      requires Coupled(heap, roots, forest, next, busy) && Pending(heap, forest, busy, id) && IsProp(heap, id)
      modifies this
      ensures Coupled(heap, roots, forest, next, busy) && next == old(next)
      ensures forest == Pruned(Release(old(forest), Kids(old(heap)[id])))
      ensures SurviveBut(old(heap), heap, id) && IsProp(heap, id)
      decreases next - id, 2
    {
      hide Coupled, Pending, Working, Pruned, Release, Kids;
      ghost var f0, ks := forest, Kids(heap[id]);
      WorkStarts(heap, roots, forest, next, busy, id);
      DropClear(id, Value, busy, f0, ks);
      DropClear(id, Name, busy, f0, ks);
      DropClear(id, Alias, busy, f0, ks);
      NoKids(heap[id]);
      WorkEnds(heap, roots, forest, next, busy, id, f0, ks);
      WorkCoupled(heap, roots, forest, next, busy, id, f0, ks);
    }

    // ---------- What the client calls ----------

    constructor (ample: bool)
      ensures Valid() && this.ample == ample && heap == map[] && roots == {} && forest == Forest(map[], map[])
    {
      this.ample := ample;
      heap := map[];
      roots := {};
      next := 0;
      forest := Forest(map[], map[]);
    }

    /** jsd_NewValue: it may lack memory, or the collector may refuse the root. */
    method NewValue(val: JSVal) returns (r: Option<Id>)
      requires Coupled(heap, roots, forest, next, {})
      modifies this
      ensures Coupled(heap, roots, forest, next, {})
      ensures r.None? ==> unchanged(this) && !ample
      ensures r.Some? ==>
        && r.value == old(next) && next == old(next) + 1
        && heap == old(heap)[r.value := FreshValue(val)] && forest == Born(old(forest), r.value)
    {
      hide Coupled, Kids;
      var memory: bool := *;
      if !memory && !ample {
        return None;
      }
      if IsGCThing(val) {
        var registered: bool := *;
        if !registered && !ample {
          return None;
        }
      }
      FreshIsBlank(val);
      BornCoupled(heap, roots, forest, next, FreshValue(val));
      if IsGCThing(val) {
        roots := roots + {ValRoot(next)};
      }
      assert roots == old(roots) + ValRootOf(next, FreshValue(val));
      r := Some(next);
      heap := heap[next := FreshValue(val)];
      forest := Born(forest, next);
      next := next + 1;
    }

    /** nref++ and a handle for the client. */
    method AddRef(x: Id)
      requires Coupled(heap, roots, forest, next, {}) && x in heap
      modifies this`heap, this`forest
      ensures Coupled(heap, roots, forest, next, {})
      ensures heap == old(heap)[x := Recount(old(heap)[x], old(heap)[x].nref + 1)]
      ensures forest == Hold(old(forest), {x})
    {
      hide Coupled;
      InForest(heap, roots, forest, next, x);
      HoldCoupled(heap, roots, forest, next, x);
      heap := heap[x := Recount(heap[x], heap[x].nref + 1)];
      forest := Hold(forest, {x});
    }

    /** A new value is stored in a field of a record. */
    method Attach(o: Id, slot: Slot, val: JSVal) returns (ok: bool)
      requires Coupled(heap, roots, forest, next, {}) && o in heap
      requires HasSlot(heap[o], slot) && Get(heap[o], slot).None?
      modifies this
      ensures Coupled(heap, roots, forest, next, {}) && o in old(forest).kids
      ensures !ok ==> unchanged(this) && !ample
      ensures var x := old(next);
        ok ==>
          && next == x + 1 && x !in old(heap) && o < x
          && heap == WithNew(old(heap), o, slot, x, val)
          && forest == Adopted(old(forest), o, x)
    {
      hide Coupled, Kids, Apart, Typed, Owned, Refs, Shaped, Given, Adopted, WellFormed;
      RecordIs(heap, roots, forest, next, o);
      FreshId(heap, roots, forest, next);
      var r := NewValue(val);
      if r == None {
        return false;
      }
      var x := r.value;
      RecordIs(heap, roots, forest, next, o);
      NotOwnedYet(old(forest), x);
      PutSome(heap, heap[o], slot, x);
      GivenCoupled(heap, roots, forest, next, o, x, Put(heap[o], slot, r));
      heap := heap[o := Put(heap[o], slot, r)];
      AdoptedIs(old(forest), o, x);
      forest := Given(forest, o, x);
      ok := true;
    }

    /** The empty record that _newProperty starts with. */
    method NewBlankProperty(attrs: set<PropFlag>, slot: int, ghost h0: Heap, ghost f0: Forest) returns (p: Id)
      requires Coupled(heap, roots, forest, next, {}) && h0 == heap && f0 == forest
      modifies this
      ensures Coupled(heap, roots, forest, next, {}) && p == old(next) < next
      ensures Making(h0, heap, f0, forest, p) && heap[p] == PropNode(1, None, None, None, attrs, slot)
    {
      hide Coupled, Making, Born, Kids;
      p := next;
      var blank := PropNode(1, None, None, None, attrs, slot);
      FreshId(heap, roots, forest, next);
      MakingStarts(heap, roots, forest, next, blank);
      NoKids(blank);
      BornCoupled(heap, roots, forest, next, blank);
      assert roots + ValRootOf(next, blank) == roots;
      heap := heap[next := blank];
      forest := Born(forest, next);
      next := next + 1;
    }

    /** One of the fields that _newProperty fills in. */
    method AttachNew(p: Id, slot: Slot, val: JSVal, ghost h0: Heap, ghost f0: Forest) returns (ok: bool)
      requires Coupled(heap, roots, forest, next, {}) && Making(h0, heap, f0, forest, p)
      requires HasSlot(heap[p], slot) && Get(heap[p], slot).None?
      modifies this
      ensures Coupled(heap, roots, forest, next, {}) && Making(h0, heap, f0, forest, p) && next >= old(next)
      ensures !ok ==> unchanged(this) && !ample
      ensures ok ==> IsProp(heap, p) && heap[p] == Put(old(heap)[p], slot, Some(old(next)))
      ensures ok ==> Wraps(heap, Some(old(next)), val)
      ensures ok ==>
        forall id: Option<Id>, w: JSVal | id.Some? && id.value != p && Wraps(old(heap), id, w) :: Wraps(heap, id, w)
    {
      hide Coupled, Adopted, Under, Owned;
      ok := Attach(p, slot, val);
      if ok {
        MakingStep(h0, old(heap), f0, old(forest), p, slot, old(next), val, old(roots), roots, next);
      }
    }

    /** _newProperty: when it fails, what it has made so far is freed. */
    method NewProperty(pd: PropDesc, more: set<PropFlag>) returns (r: Option<Id>)
      requires Coupled(heap, roots, forest, next, {})
      modifies this
      ensures Coupled(heap, roots, forest, next, {}) && next >= old(next)
      ensures r.None? ==> heap == old(heap) && roots == old(roots) && forest == old(forest) && !ample
      ensures r.Some? ==>
        && r.value == old(next) && Making(old(heap), heap, old(forest), forest, r.value)
        && Describes(heap, r.value, pd.(attrs := pd.attrs + more)) && NewComplete(old(heap), heap)
    {
      hide Coupled, Making, Dropped;
      ghost var h0, f0 := heap, forest;
      var memory: bool := *;
      if !memory && !ample {
        return None;
      }
      var p := NewBlankProperty(pd.attrs + more, pd.slot, h0, f0);
      var ok := AttachNew(p, Name, pd.id, h0, f0);
      if ok {
        ok := AttachNew(p, Value, pd.value, h0, f0);
      }
      if ok && Aliased in heap[p].attrs {
        ok := AttachNew(p, Alias, pd.alias, h0, f0);
      }
      if !ok {
        ghost var h1 := heap;
        MakingUndone(h0, old(roots), h1, f0, forest, p, old(next));
        InForest(heap, roots, forest, next, p);
        DropProperty(p, {});
        UndoneHeap(h0, old(roots), h1, heap, roots, f0, old(next), next);
        return None;
      }
      MakingDone(h0, heap, f0, forest, p);
      r := Some(p);
    }

    /** The failure branch of _buildProps: the properties listed so far are freed. */
    method GiveUpProps(v: Id, ghost h0: Heap, ghost roots0: set<Root>, ghost f0: Forest, ghost next0: Id)
      requires Coupled(h0, roots0, f0, next0, {}) && Coupled(heap, roots, forest, next, {})
      requires IsValue(heap, v) && Listed(h0, heap, v, heap[v].props)
      requires Sprouted(f0, forest, v, Elements(heap[v].props))
      requires heap[v].flags == h0[v].flags && GotProps !in h0[v].flags
      modifies this
      ensures Coupled(heap, roots, forest, next, {}) && next == old(next)
      ensures heap == h0 && roots == roots0 && forest == f0
    {
      hide Coupled, Pending, Working, Opened, Kids, Sprouted, WellFormed, Shaped;
      FreshId(heap, roots, forest, next);
      ghost var h1, f1 := heap, forest;
      OpenCoupled(heap, roots, forest, next, v);
      forest := Opened(forest, v, Kids(heap[v]));
      WorkStarts(heap, roots, forest, next, {v}, v);
      FreeProps(v, {v}, forest, Kids(heap[v]));
      ListGone(h0, roots0, f0, next0, h1, f1, h1[v].props, heap, roots, forest, next, v);
      forest := f0;
    }

    /** The body of the loop in _buildProps. */
    method ListOne(v: Id, ghost h0: Heap, ghost f0: Forest, ds: seq<PropDesc>) returns (ok: bool)
      requires Coupled(heap, roots, forest, next, {}) && v < next
      requires IsValue(heap, v) && Listed(h0, heap, v, heap[v].props)
      requires Sprouted(f0, forest, v, Elements(heap[v].props))
      requires |heap[v].props| < |ds| && DescribesAll(heap, heap[v].props, ds)
      modifies this
      ensures Coupled(heap, roots, forest, next, {}) && next >= old(next)
      ensures !ok ==> heap == old(heap) && roots == old(roots) && forest == old(forest) && !ample
      ensures ok ==> IsValue(heap, v) && Listed(h0, heap, v, heap[v].props) && heap[v].flags == old(heap)[v].flags
      ensures ok ==> |heap[v].props| == |old(heap)[v].props| + 1 && DescribesAll(heap, heap[v].props, ds)
      ensures ok ==> Sprouted(f0, forest, v, Elements(heap[v].props))
    {
      hide Coupled, Making, Sprouted, Under, Owned, Shaped, WellFormed, Kids, Apart, Typed, Given, Describes;
      ghost var h, rs, f, n, ps := heap, roots, forest, next, heap[v].props;
      FreshId(h, rs, f, n);
      var prop := NewProperty(ds[|heap[v].props|], {});
      assert ds[|ps|].(attrs := ds[|ps|].attrs + {}) == ds[|ps|];
      if prop == None {
        return false;
      }
      var p := prop.value;
      MakingIs(h, heap, f, forest, p);
      AppendCoupled(h, f, heap, rs, forest, n, v, p, roots, next);
      SproutedStep(f0, f, forest, v, Elements(ps), p);
      ListedStep(h0, h, heap, v, ps, p, ds);
      MoreElements(ps, p);
      heap := heap[v := heap[v].(props := heap[v].props + [p])];
      forest := Given(forest, v, p);
      ok := true;
    }

    /** _buildProps.  pda is the engine's answer to JS_GetPropertyDescArray. */
    method BuildProps(v: Id, pda: Option<seq<PropDesc>>) returns (ok: bool)
      requires Valid() && IsValue(heap, v) && GotProps !in heap[v].flags
      modifies this
      ensures Valid() && IsValue(heap, v)
      ensures !old(heap)[v].wrapped.Object? || pda.None? ==> !ok && unchanged(this)
      ensures old(heap)[v].wrapped.Object? && pda.Some? ==>
        && Listed(old(heap), heap, v, heap[v].props) && Sprouted(old(forest), forest, v, Elements(heap[v].props))
        && heap[v].flags == old(heap)[v].flags + {GotProps} && ok == (heap[v].props != [])
        && ((heap[v].props == [] && !ample) || |heap[v].props| == |pda.value|)
        && DescribesAll(heap, heap[v].props, pda.value)
      ensures old(heap)[v].wrapped.Object? && pda.Some? && heap[v].props == [] ==>
        && forest == old(forest)
        && heap == old(heap)[v := old(heap)[v].(flags := old(heap)[v].flags + {GotProps})]
    {
      hide Coupled, Sprouted, DescribesAll;
      assert Complete(heap[v]);
      if !heap[v].wrapped.Object? || pda.None? {
        return false;
      }
      ghost var h0, rs, f0, n := heap, roots, forest, next;
      NothingListed(heap, roots, forest, next, v);
      DescribesNone(heap, pda.value);
      for i := 0 to |pda.value|
        invariant Coupled(heap, roots, forest, next, {}) && next >= n
        invariant IsValue(heap, v) && Listed(h0, heap, v, heap[v].props) && heap[v].flags == h0[v].flags
        invariant Sprouted(f0, forest, v, Elements(heap[v].props))
        invariant |heap[v].props| == i && DescribesAll(heap, heap[v].props, pda.value)
        invariant i == 0 ==> heap == h0 && forest == f0
      {
        var listed := ListOne(v, h0, f0, pda.value);
        if !listed {
          GiveUpProps(v, h0, rs, f0, n);
          break;
        }
      }
      ghost var listed := heap;
      ListedComplete(h0, heap, v, heap[v].props);
      SetFlag(v, GotProps);
      DescribesSame(listed, heap, v, heap[v].props, pda.value);
      ok := heap[v].props != [];
    }

    /** SET_BIT_FLAG. */
    method SetFlag(v: Id, flag: Flag)
      requires Coupled(heap, roots, forest, next, {}) && IsValue(heap, v)
      modifies this`heap
      ensures Coupled(heap, roots, forest, next, {})
      ensures heap == old(heap)[v := old(heap)[v].(flags := old(heap)[v].flags + {flag})]
    {
      hide Coupled;
      var n := heap[v].(flags := heap[v].flags + {flag});
      TextRootIs(heap, roots, forest, next, v);
      EditCoupled(heap, roots, forest, next, v, n);
      heap := heap[v := n];
    }

    /** jsd_RefreshValue, called by the client for a live value. */
    method Refresh(v: Id)
      requires Valid() && IsValue(heap, v)
      modifies this
      ensures Valid() && v in old(forest).kids && forest == Refreshed(old(forest), v)
      ensures SurviveBut(old(heap), heap, v) && v in heap
      ensures heap[v] == ValueNode(heap[v].nref, old(heap)[v].wrapped, [], None, None, None, None, {})
    {
      hide Coupled, Pending, Opened, Kids, Shaped, Full, Refreshed;
      FreshId(heap, roots, forest, next);
      OpenCoupled(heap, roots, forest, next, v);
      RefreshedForest(forest, v);
      forest := Opened(forest, v, Kids(heap[v]));
      RefreshValue(v, {v});
      NoKids(heap[v]);
      CloseEmpty(heap, roots, forest, next, v);
      CompleteBut(old(heap), heap, v);
    }

    /** The first half of jsd_GetValuePrototype and its like: the question is asked once only. */
    method Discover(v: Id, slot: Slot, answer: Option<int>)
      requires Valid() && IsValue(heap, v) && HasSlot(heap[v], slot) && Get(heap[v], slot).None?
      modifies this
      ensures Valid() && v in old(forest).kids && IsValue(heap, v) && HasSlot(heap[v], slot)
      ensures var x := Get(heap[v], slot);
        && heap.Keys == old(heap).Keys + AsSet(x)
        && heap[v] == Put(old(heap)[v].(flags := old(heap)[v].flags + {FlagOf(slot)}), slot, x)
        && (forall id | id in old(heap) && id != v :: heap[id] == old(heap)[id])
        && (x.None? ==> forest == old(forest) && !(ample && answer.Some? && old(heap)[v].wrapped.Object?))
        && (x.Some? ==> answer.Some? && x.value !in old(heap) && forest == Adopted(old(forest), v, x.value)
                        && Wraps(heap, x, Object(answer.value)))
    {
      hide Coupled, Adopted;
      assert Complete(heap[v]);
      InForest(heap, roots, forest, next, v);
      SetFlag(v, FlagOf(slot));
      if heap[v].wrapped.Object? && answer.Some? {
        var stored := Attach(v, slot, Object(answer.value));
      }
    }

    /** The field is there from an earlier call, or is looked for now. */
    method Ask(v: Id, slot: Slot, answer: Option<int>)
      requires Valid() && IsValue(heap, v) && HasSlot(heap[v], slot)
      modifies this
      ensures Valid() && v in old(forest).kids && IsValue(heap, v) && HasSlot(heap[v], slot)
      ensures var x, had, asked := Get(heap[v], slot), Get(old(heap)[v], slot), FlagOf(slot) in old(heap)[v].flags;
        && heap.Keys == old(heap).Keys + AsSet(x)
        && heap[v] == Put(old(heap)[v].(flags := old(heap)[v].flags + {FlagOf(slot)}), slot, x)
        && (forall id | id in old(heap) && id != v :: heap[id] == old(heap)[id])
        && (asked ==> x == had)
        && (x.None? || had.Some? ==> forest == old(forest))
        && (x.None? && !asked ==> !(ample && answer.Some? && old(heap)[v].wrapped.Object?))
        && (x.Some? && had.None? ==>
              && answer.Some? && x.value !in old(heap)
              && forest == Adopted(old(forest), v, x.value) && Wraps(heap, x, Object(answer.value)))
    {
      hide Coupled, Adopted, Wraps;
      assert Complete(heap[v]);
      InForest(heap, roots, forest, next, v);
      if FlagOf(slot) !in heap[v].flags {
        Discover(v, slot, answer);
      } else {
        SlotStays(heap, roots, forest, next, v, slot, FlagOf(slot));
      }
    }

    /** jsd_GetValuePrototype, jsd_GetValueParent and jsd_GetValueConstructor, which differ in the
        field, the flag and the question to the engine; answer is the address of the object it finds. */
    method GetRelative(v: Id, slot: Slot, answer: Option<int>) returns (r: Option<Id>)
      requires Valid() && IsValue(heap, v) && HasSlot(heap[v], slot)
      modifies this
      ensures Valid() && v in old(forest).kids && IsValue(heap, v) && FlagOf(slot) in heap[v].flags
      ensures r == Get(heap[v], slot)
      ensures FlagOf(slot) in old(heap)[v].flags ==> r == Get(old(heap)[v], slot)
      ensures r.None? ==> forest == old(forest)
      ensures ample && answer.Some? && FlagOf(slot) !in old(heap)[v].flags && old(heap)[v].wrapped.Object? ==> r.Some?
      ensures r.Some? && Get(old(heap)[v], slot).Some? ==> forest == Hold(old(forest), {r.value})
      ensures r.Some? && Get(old(heap)[v], slot).None? ==>
        && r.value !in old(heap) && forest == Hold(Adopted(old(forest), v, r.value), {r.value})
        && answer.Some? && Wraps(heap, r, Object(answer.value))
      ensures heap.Keys == old(heap).Keys + AsSet(r)
      ensures heap[v] == Put(old(heap)[v].(flags := old(heap)[v].flags + {FlagOf(slot)}), slot, r)
      ensures forall id | id in old(heap) && id != v ::
        heap[id] == Recount(old(heap)[id], old(heap)[id].nref + if r == Some(id) then 1 else 0)
    {
      hide Coupled, Adopted, Hold;
      FlagSet(heap[v], slot, FlagOf(slot));
      Ask(v, slot, answer);
      hide Get, Put, FlagOf;
      r := Get(heap[v], slot);
      if r.Some? {
        KeptApart(heap, roots, forest, next, v, slot);
        AddRef(r.value);
      }
    }

    /** jsd_GetPropertyName, jsd_GetPropertyValue and jsd_GetPropertyAlias. */
    method GetPart(p: Id, slot: Slot) returns (r: Option<Id>)
      requires Valid() && IsProp(heap, p) && HasSlot(heap[p], slot)
      modifies this
      ensures Valid() && r == Get(old(heap)[p], slot) && (slot != Alias ==> r.Some?)
      ensures forest == if r.Some? then Hold(old(forest), {r.value}) else old(forest)
      ensures r.Some? ==> r.value in old(heap)
      ensures heap == if r.None? then old(heap)
        else old(heap)[r.value := Recount(old(heap)[r.value], old(heap)[r.value].nref + 1)]
    {
      hide Coupled, Hold;
      assert Complete(heap[p]);
      r := Get(heap[p], slot);
      if r.Some? {
        SlotIsKid(heap[p], slot);
        RecordIs(heap, roots, forest, next, p);
        AddRef(r.value);
      }
    }

    /** The list is there, or it is built now. */
    method ListProps(v: Id, pda: Option<seq<PropDesc>>) returns (listed: bool)
      requires Valid() && IsValue(heap, v)
      modifies this
      ensures Valid() && IsValue(heap, v) && old(heap).Keys <= heap.Keys && heap[v].wrapped == old(heap)[v].wrapped
      ensures GotProps in old(heap)[v].flags ==> listed && heap == old(heap)
      ensures if listed then GotProps in heap[v].flags else heap[v].props == []
      ensures GotProps !in old(heap)[v].flags && GotProps in heap[v].flags && pda.Some? ==>
        DescribesAll(heap, heap[v].props, pda.value)
      ensures ample && GotProps !in old(heap)[v].flags && old(heap)[v].wrapped.Object? && pda.Some? ==>
        |heap[v].props| == |pda.value|
      ensures Seen(old(heap), heap, v, None) && StringsKept(old(heap), heap) && NewComplete(old(heap), heap)
      ensures Ledger(old(forest), forest, None)
    {
      hide Coupled, Sprouted, Ledger, DescribesAll, Seen;
      SeenSelf(heap, v);
      LedgerStarts(forest);
      assert Complete(heap[v]);
      listed := true;
      if GotProps !in heap[v].flags {
        ghost var h0, f0 := heap, forest;
        listed := BuildProps(v, pda);
        if GotProps in heap[v].flags {
          SproutedLedger(f0, forest, v, Elements(heap[v].props));
          SeenListed(h0, heap, v, heap[v].props);
        }
      }
    }

    /** jsd_IterateProperties. */
    method IterateProperties(v: Id, iter: Cursor, pda: Option<seq<PropDesc>>) returns (r: Option<Id>, iter': Cursor)
      requires Valid() && IsValue(heap, v)
      requires if GotProps in heap[v].flags then iter.At? ==> iter.p in heap[v].props else iter.Unset?
      modifies this
      ensures Valid() && IsValue(heap, v) && old(heap).Keys <= heap.Keys
      ensures heap[v].wrapped == old(heap)[v].wrapped
      ensures GotProps in old(heap)[v].flags ==>
        heap == if r.Some? && r.value in old(heap)
          then old(heap)[r.value := Recount(old(heap)[r.value], old(heap)[r.value].nref + 1)] else old(heap)
      ensures Seen(old(heap), heap, v, r) && StringsKept(old(heap), heap) && NewComplete(old(heap), heap)
      ensures ample && GotProps !in old(heap)[v].flags && old(heap)[v].wrapped.Object? && pda.Some? ==>
        |heap[v].props| == |pda.value|
      ensures GotProps !in old(heap)[v].flags && GotProps in heap[v].flags && pda.Some? ==>
        DescribesAll(heap, heap[v].props, pda.value)
      ensures Ledger(old(forest), forest, r)
      ensures r.None? ==> iter' == iter && Position(heap[v].props, iter) == |heap[v].props|
      ensures r.Some? ==>
        var i := Position(heap[v].props, iter);
        GotProps in heap[v].flags && i < |heap[v].props| && r.value == heap[v].props[i] && IsProp(heap, r.value)
        && iter' == CursorAt(heap[v].props, i + 1)
    {
      hide Coupled, Sprouted, Hold, Ledger, DescribesAll, Seen;
      r, iter' := None, iter;
      var listed := ListProps(v, pda);
      if !listed {
        return;
      }
      var ps := heap[v].props;
      ListIs(heap, roots, forest, next, v);
      var c := if iter.Unset? then CursorAt(ps, 0) else iter;
      if c.Over? {
        return;
      }
      iter' := CursorAt(ps, Find(ps, c.p) + 1);
      r := Some(c.p);
      HeldLedger(old(forest), forest, c.p);
      SeenRecount(old(heap), heap, v, c.p, None, r, 1);
      ghost var h := heap;
      AddRef(c.p);
      if pda.Some? && DescribesAll(h, ps, pda.value) {
        DescribesRecount(h, c.p, h[c.p].nref + 1, ps, pda.value);
      }
    }

    /** jsd_GetCountOfProperties. */
    method CountProperties(v: Id, pda: Option<seq<PropDesc>>) returns (count: nat)
      requires Valid() && IsValue(heap, v)
      modifies this
      ensures Valid() && IsValue(heap, v) && count == |heap[v].props| && Ledger(old(forest), forest, None)
      ensures ample && GotProps !in old(heap)[v].flags && old(heap)[v].wrapped.Object? && pda.Some? ==>
        count == |pda.value|
      ensures GotProps in old(heap)[v].flags ==> heap == old(heap)
      ensures Seen(old(heap), heap, v, None) && StringsKept(old(heap), heap)
      ensures GotProps !in old(heap)[v].flags && GotProps in heap[v].flags && pda.Some? ==>
        DescribesAll(heap, heap[v].props, pda.value)
    {
      hide Coupled, Sprouted, Ledger, DescribesAll, Seen;
      var listed := ListProps(v, pda);
      if !listed {
        return 0;
      }
      count := 0;
      while count < |heap[v].props|
        invariant count <= |heap[v].props|
      {
        count := count + 1;
      }
    }

    /** jsd_GetValueString.  shown is the engine's conversion, for a value that is not a string. */
    method GetValueString(v: Id, shown: Option<seq<Code>>) returns (r: Option<seq<Code>>)
      requires Valid() && IsValue(heap, v)
      modifies this`heap, this`roots
      ensures Valid() && heap == old(heap)[v := old(heap)[v].(chars := r)]
      ensures old(heap)[v].chars.Some? ==> r == old(heap)[v].chars
      ensures old(heap)[v].chars.None? && heap[v].wrapped.Text? ==> r == Some(heap[v].wrapped.chars)
      ensures old(heap)[v].chars.None? && !heap[v].wrapped.Text? && r.Some? ==> r == shown
      ensures ample && old(heap)[v].chars.None? && !heap[v].wrapped.Text? ==> r == shown
    {
      hide Coupled;
      assert Complete(heap[v]);
      TextRootIs(heap, roots, forest, next, v);
      r := heap[v].chars;
      if r.None? {
        if heap[v].wrapped.Text? {
          r := Some(heap[v].wrapped.chars);
        } else if shown.Some? {
          var registered: bool := *;
          if registered || ample {
            r := shown;
          }
        }
        EditCoupled(heap, roots, forest, next, v, heap[v].(chars := r));
        if r.Some? && !heap[v].wrapped.Text? {
          roots := roots + {StringRoot(v)};
        }
      } else {
        EditCoupled(heap, roots, forest, next, v, heap[v].(chars := r));
      }
      heap := heap[v := heap[v].(chars := r)];
    }

    /** The comparison of a property's name with the one looked for. */
    method IsNamed(p: Id, name: seq<Code>, shown: JSVal -> Option<seq<Code>>, ghost q: Query, ghost ps: seq<Id>,
                   ghost h0: Heap)
      returns (same: bool)
      requires Valid() && IsProp(heap, p) && Walked(h0, heap, ps, q) && ListedAs(h0, heap, q)
      requires q.name == name && q.shown == shown && q.ample == ample
      requires p in heap[q.v].props && Seen(h0, heap, q.v, Some(p))
      modifies this`heap, this`roots
      ensures Valid() && same == Named(heap, p, name) && heap.Keys == old(heap).Keys && IsProp(heap, p)
      ensures IsValue(heap, q.v) && heap[q.v].props == old(heap)[q.v].props
      ensures heap[q.v].flags == old(heap)[q.v].flags && heap[q.v].wrapped == old(heap)[q.v].wrapped
      ensures if same then Spelt(h0, heap, p, q) else Walked(h0, heap, ps + [p], q)
      ensures NoneSpelt(h0, heap, ps, q) && ListedAs(h0, heap, q)
      ensures Seen(h0, heap, q.v, Some(p))
    {
      hide Coupled, Seen, SeenNode, NoneSpelt, WellRead, ListedAs;
      assert Complete(heap[p]);
      SlotIsKid(heap[p], Name);
      RecordIs(heap, roots, forest, next, p);
      assert Get(heap[p], Name).Some?;
      var n := heap[p].name.value;
      ghost var h := heap;
      var s := GetValueString(n, shown(heap[n].wrapped));
      assert NameIn(h, q.v, n);
      SeenText(h0, h, q.v, Some(p), n, s);
      SeenRead(h0, h, q.v, Some(p), n);
      StringMade(h0, h, p, q, s);
      WalkText(h0, h, ps, q, n, s);
      same := s == Some(name);
      if !same {
        forall k | k in ps + [p] ensures !Named(heap, k, name) {
          assert k in ps ==> !Named(old(heap), k, name);
        }
        OneMoreSpelt(h0, heap, ps, p, q);
      }
    }

    /** The walk of jsd_GetValueProperty over the listed properties. */
    method FindListed(v: Id, name: seq<Code>, pda: Option<seq<PropDesc>>, shown: JSVal -> Option<seq<Code>>,
                      ghost q: Query)
      returns (r: Option<Id>)
      requires Valid() && IsValue(heap, v) && q == Query(v, name, pda, shown, ample)
      modifies this
      ensures Valid() && IsValue(heap, v) && heap[v].wrapped == old(heap)[v].wrapped
      ensures Ledger(old(forest), forest, r)
      ensures r.Some? ==> r.value in heap[v].props && Named(heap, r.value, name)
      ensures r.Some? ==> FirstSpelt(old(heap), heap, heap[v].props, r.value, q)
      ensures r.None? ==> Walked(old(heap), heap, heap[v].props, q)
      ensures ListedAs(old(heap), heap, q)
      ensures Seen(old(heap), heap, v, r)
    {
      hide Coupled, Ledger, Dropped, Hold, Named, Position, AllComplete, Seen, Walked, NoneSpelt, ListedAs, Spelt;
      LedgerStarts(forest);
      SeenSelf(heap, v);
      WalkStarts(heap, q);
      var iter := Unset;
      ghost var done := 0;
      while true
        invariant Valid() && IsValue(heap, v) && Ledger(old(forest), forest, None)
        invariant heap[v].wrapped == old(heap)[v].wrapped
        invariant iter.Unset? || (GotProps in heap[v].flags && iter == CursorAt(heap[v].props, done))
        invariant iter.Unset? ==> done == 0 && heap == old(heap)
        invariant Seen(old(heap), heap, v, None)
        invariant done <= |heap[v].props|
        invariant Walked(old(heap), heap, heap[v].props[..done], q)
        invariant iter.Unset? || ListedAs(old(heap), heap, q)
        decreases iter.Unset?, |heap[v].props| - done
      {
        ghost var ps := heap[v].props[..done];
        var p;
        p, iter := Advance(v, iter, pda, q, done, ps, old(forest), old(heap));
        if p.None? {
          assert heap[v].props[..done] == heap[v].props;
          return None;
        }
        var same := Visit(p.value, name, shown, q, ps, old(forest), old(heap));
        if same {
          return p;
        }
        assert heap[v].props[..done + 1] == ps + [p.value];
        done := done + 1;
      }
    }

    /** One call of jsd_IterateProperties in the walk, behind done properties with other names. */
    method Advance(v: Id, iter: Cursor, pda: Option<seq<PropDesc>>,
                   ghost q: Query, ghost done: nat, ghost ps: seq<Id>, ghost f0: Forest, ghost h0: Heap)
      returns (r: Option<Id>, iter': Cursor)
      requires Valid() && IsValue(heap, v) && Ledger(f0, forest, None) && done <= |heap[v].props|
      requires ps == heap[v].props[..done] && Walked(h0, heap, ps, q)
      requires q.v == v && q.pda == pda && q.ample == ample
      requires iter.Unset? || (GotProps in heap[v].flags && iter == CursorAt(heap[v].props, done))
      requires if iter.Unset? then done == 0 && heap == h0 else ListedAs(h0, heap, q)
      requires Seen(h0, heap, v, None)
      modifies this
      ensures Valid() && IsValue(heap, v) && heap[v].wrapped == old(heap)[v].wrapped
      ensures Ledger(f0, forest, r) && Walked(h0, heap, ps, q) && ListedAs(h0, heap, q)
      ensures !iter.Unset? ==> heap[v].props == old(heap)[v].props
      ensures done <= |heap[v].props| && ps == heap[v].props[..done]
      ensures r.None? ==> done == |heap[v].props|
      ensures r.Some? ==> done < |heap[v].props| && r.value == heap[v].props[done] && IsProp(heap, r.value)
      ensures r.Some? ==> GotProps in heap[v].flags && iter' == CursorAt(heap[v].props, done + 1)
      ensures Seen(h0, heap, v, r)
    {
      hide Coupled, Ledger, Named, AllComplete, Seen, Walked;
      ListIs(heap, roots, forest, next, v);
      CursorRoundTrip(heap[v].props, done);
      ghost var h, f := heap, forest;
      r, iter' := IterateProperties(v, iter, pda);
      LedgerJoins(f0, f, forest, r);
      if iter.Unset? {
        WalkListed(h0, heap, q, r);
      } else if r.Some? {
        SeenRecount(h0, h, v, r.value, None, r, 1);
        WalkRecount(h0, h, ps, q, r.value, h[r.value].nref + 1);
      }
    }

    /**
     jsd_GetValueProperty.  found and attrs are what the engine knows under the name, and stray is what
     happens to stand in the flags of a local variable that the code does not set.
     */
    method GetValueProperty(v: Id, name: seq<Code>, pda: Option<seq<PropDesc>>, shown: JSVal -> Option<seq<Code>>,
                            found: Option<Found>, attrs: set<PropFlag>, stray: set<PropFlag>)
      returns (r: Option<Id>)
      requires Valid() && IsValue(heap, v)
      modifies this
      ensures Valid() && IsValue(heap, v) && Ledger(old(forest), forest, r)
      ensures !IsObject(old(heap)[v].wrapped) ==> r.None? && unchanged(this)
      ensures var q, ps := Query(v, name, pda, shown, ample), heap[v].props;
        IsObject(old(heap)[v].wrapped) ==>
        && ListedAs(old(heap), heap, q)
        && (if r.Some? && r.value in ps then FirstSpelt(old(heap), heap, ps, r.value, q) && Named(heap, r.value, name)
            else NoneSpelt(old(heap), heap, ps, q) && NoneNamed(heap, ps, name))
      ensures IsObject(old(heap)[v].wrapped) ==>
        forall p | p in heap[v].props && HasName(heap, p) && NameOf(heap, p) == Text(name) ::
          r.Some? && r.value in heap[v].props
      ensures r.Some? && r.value !in heap[v].props ==>
        && found.Some? && Describes(heap, r.value, DescFound(name, found.value, attrs, stray))
        && Hinting(heap, r.value, name, found.value, attrs, stray)
      ensures ample && found.Some? && old(heap)[v].wrapped.Object? ==> r.Some?
      ensures Seen(old(heap), heap, v, r)
    {
      hide Coupled, Ledger, Named, Describes, NoneNamed, Seen, NoneSpelt, Spelt, ListedAs, WellRead;
      LedgerStarts(forest);
      SeenSelf(heap, v);
      if !IsObject(heap[v].wrapped) {
        return None;
      }
      ghost var q := Query(v, name, pda, shown, ample);
      r := FindListed(v, name, pda, shown, q);
      if r.None? {
        TextIsSpelt(old(heap), heap, heap[v].props, q);
      }
      if r.Some? || heap[v].wrapped.Null? || found.None? {
        return r;
      }
      var pd := PropDesc(Text(name), ValueFound(found.value), Null, FlagsFound(found.value, attrs, stray), 0);
      r := FindElsewhere(v, pd, q, old(forest), old(heap));
      TextIsSpelt(old(heap), heap, heap[v].props, q);
      if r.Some? {
        HintIs(heap, r.value, name, found.value, attrs, stray);
      }
    }

    /** The end of jsd_GetValueProperty: a property that is in no list, for what the engine has found. */
    method FindElsewhere(v: Id, pd: PropDesc, ghost q: Query, ghost f0: Forest, ghost h0: Heap) returns (r: Option<Id>)
      requires Valid() && IsValue(heap, v) && q.v == v && Walked(h0, heap, heap[v].props, q)
      requires ListedAs(h0, heap, q)
      requires Ledger(f0, forest, None) && Seen(h0, heap, v, None)
      modifies this
      ensures Valid() && IsValue(heap, v) && Ledger(f0, forest, r) && Seen(h0, heap, v, r)
      ensures Walked(h0, heap, heap[v].props, q) && ListedAs(h0, heap, q) && (ample ==> r.Some?)
      ensures r.Some? ==> r.value !in heap[v].props && Describes(heap, r.value, pd.(attrs := pd.attrs + {Hinted}))
    {
      hide Coupled, Ledger, Named, Describes, Making, Walked, Shaped, Seen;
      ghost var h, rs, f, n := heap, roots, forest, next;
      ListIs(h, rs, f, n, v);
      r := NewProperty(pd, {Hinted});
      if r.Some? {
        MakingIs(h, heap, f, forest, r.value);
        FreshId(h, rs, f, n);
        FreshId(heap, roots, forest, next);
        UnderLedger(f, forest, r.value);
        LedgerJoins(f0, f, forest, r);
        WalkExtends(h0, h, heap, h[v].props, q);
        SeenKeys(h0, h, v, None);
        SeenMore(h0, h, heap, v, r);
      }
    }

    /** The loop of jsd_GetValueProperty: compare, and drop the handle of the walk on another property. */
    method Visit(p: Id, name: seq<Code>, shown: JSVal -> Option<seq<Code>>, ghost q: Query, ghost ps: seq<Id>,
                 ghost f0: Forest, ghost h0: Heap)
      returns (same: bool)
      requires Valid() && IsProp(heap, p) && Walked(h0, heap, ps, q) && ListedAs(h0, heap, q)
      requires p in heap[q.v].props
      requires q.name == name && q.shown == shown && q.ample == ample
      requires Ledger(f0, forest, Some(p)) && Seen(h0, heap, q.v, Some(p))
      modifies this
      ensures Valid() && IsValue(heap, q.v)
      ensures heap[q.v].props == old(heap)[q.v].props && heap[q.v].flags == old(heap)[q.v].flags
      ensures heap[q.v].wrapped == old(heap)[q.v].wrapped
      ensures same ==> Named(heap, p, name) && Ledger(f0, forest, Some(p))
      ensures same ==> Spelt(h0, heap, p, q) && NoneSpelt(h0, heap, ps, q)
      ensures ListedAs(h0, heap, q)
      ensures !same ==> Walked(h0, heap, ps + [p], q) && Ledger(f0, forest, None)
      ensures Seen(h0, heap, q.v, if same then Some(p) else None)
    {
      hide Coupled, Ledger, Dropped, Named, Seen, NoneSpelt, Spelt, WellRead;
      same := IsNamed(p, name, shown, q, ps, h0);
      if !same {
        ghost var h, rs, f, n := heap, roots, forest, next;
        FreshId(heap, roots, forest, next);
        ListIs(heap, roots, forest, next, q.v);
        ReleaseLedger(f0, forest, p, q.v);
        InForest(heap, roots, forest, next, p);
        InForest(heap, roots, forest, next, q.v);
        DropProperty(p, {});
        ReleasedHeap(h, rs, f, n, heap, roots, next, p);
        WalkRecount(h0, h, ps + [p], q, p, h[p].nref - 1);
        SeenRecount(h0, h, q.v, p, Some(p), None, 0 - 1);
      }
    }
  }

  function FlagOf(slot: Slot): Flag {
    if slot == Proto then GotProto else if slot == Parent then GotParent else GotCtor
  }
}
