/**
 Who keeps whom alive among the debugger's records (js/jsd/jsd_val.c): a record is kept by the
 client's handles on it and by the one record that caches or lists it.  Records are numbered in
 the order of their creation.
 */
module Ownership {
  type Id = nat

  /** For every live record, the records it owns and the number of handles on it. */
  datatype Forest = Forest(kids: map<Id, set<Id>>, held: map<Id, nat>)

  predicate Owns(f: Forest, o: Id, id: Id) {
    o in f.kids && id in f.kids[o]
  }

  ghost predicate Owned(f: Forest, id: Id) {
    exists o :: Owns(f, o, id)
  }

  /** Owners are older than what they own, and every record has at most one. */
  ghost predicate Shaped(f: Forest) {
    && f.held.Keys == f.kids.Keys
    && (forall o, id :: Owns(f, o, id) ==> o < id && id in f.kids)
    && (forall o, q, id :: Owns(f, o, id) && Owns(f, q, id) ==> o == q)
  }

  /** The reference count the records should have. */
  ghost function Refs(f: Forest, id: Id): nat
    requires id in f.held
  {
    f.held[id] + if Owned(f, id) then 1 else 0
  }

  /** No record has lost its last reference. */
  ghost predicate Full(f: Forest) {
    forall id | id in f.kids && id in f.held :: Refs(f, id) > 0
  }

  ghost predicate WellFormed(f: Forest) {
    Shaped(f) && Full(f)
  }

  /** The client holds the record, or holds a record that owns it directly or indirectly. */
  ghost predicate Anchored(f: Forest, id: Id) {
    id in f.kids && id in f.held && (f.held[id] > 0 || exists o: Id :: o < id && Owns(f, o, id) && Anchored(f, o))
  }

  lemma ShapeOf(f: Forest)
    requires WellFormed(f)
    ensures Shaped(f)
  {
  }

  /** What stays of a forest when everything unreachable for the client is gone. */
  ghost function Pruned(f: Forest): Forest {
    Forest(map id | id in f.kids && Anchored(f, id) :: f.kids[id],
           map id | id in f.held && Anchored(f, id) :: f.held[id])
  }

  /** No record is kept but for the client: counting references finds all garbage. */
  lemma {:induction false} AllAnchored(f: Forest, id: Id)
    requires WellFormed(f) && id in f.kids
    ensures Anchored(f, id)
  {
    assert Refs(f, id) > 0;
    if f.held[id] == 0 {
      var o :| Owns(f, o, id);
      AllAnchored(f, o);
    }
  }

  lemma NothingToPrune(f: Forest)
    requires WellFormed(f)
    ensures Pruned(f) == f
  {
    forall id | id in f.kids ensures Anchored(f, id) {
      AllAnchored(f, id);
    }
  }

  /** Without handles there are no records. */
  lemma NothingHeldNothingLive(f: Forest)
    requires WellFormed(f) && forall id | id in f.held :: f.held[id] == 0
    ensures f.kids == map[]
  {
    if f.kids != map[] {
      var id :| id in f.kids;
      AllAnchored(f, id);
      NoAnchor(f, id);
    }
  }

  lemma {:induction false} NoAnchor(f: Forest, id: Id)
    requires forall id | id in f.held :: f.held[id] == 0
    ensures !Anchored(f, id)
  {
    forall o: Id | o < id ensures !Anchored(f, o) {
      NoAnchor(f, o);
    }
  }

  lemma PrunedIsWellFormed(f: Forest)
    requires Shaped(f)
    ensures WellFormed(Pruned(f))
  {
    var g := Pruned(f);
    forall o, id | Owns(g, o, id) ensures o < id && id in g.kids && Owns(f, o, id) {
      assert Owns(f, o, id);
      assert Anchored(f, o);
    }
    forall id | id in g.kids ensures Refs(g, id) > 0 {
      if f.held[id] == 0 {
        var o: Id :| o < id && Owns(f, o, id) && Anchored(f, o);
        assert Owns(g, o, id);
      }
    }
  }

  // ---------- Changes of a forest ----------

  /** One handle more on each of some records. */
  function Hold(f: Forest, ks: set<Id>): Forest {
    f.(held := map id | id in f.held :: if id in ks then f.held[id] + 1 else f.held[id])
  }

  predicate CanRelease(f: Forest, ks: set<Id>) {
    forall id | id in ks :: id in f.held && f.held[id] > 0
  }

  /** One handle less on each of some records. */
  function Release(f: Forest, ks: set<Id>): Forest
    requires CanRelease(f, ks)
  {
    f.(held := map id | id in f.held :: if id in ks then f.held[id] - 1 else f.held[id])
  }

  function Without(f: Forest, id: Id): Forest {
    Forest(f.kids - {id}, f.held - {id})
  }

  /** The client drops a handle, and whatever that makes unreachable is gone. */
  ghost function Dropped(f: Forest, id: Id): Forest
    requires CanRelease(f, {id})
  {
    Pruned(Release(f, {id}))
  }

  lemma ReleaseKeepsShape(f: Forest, ks: set<Id>)
    requires Shaped(f) && CanRelease(f, ks)
    ensures Shaped(Release(f, ks))
  {
    var g := Release(f, ks);
    assert forall o, id :: Owns(g, o, id) <==> Owns(f, o, id);
  }

  lemma PrunedAlike(f: Forest, g: Forest)
    requires forall id :: Anchored(f, id) <==> Anchored(g, id)
    requires forall id | Anchored(f, id) :: id in f.kids && id in g.kids && f.kids[id] == g.kids[id]
    requires forall id | Anchored(f, id) :: id in f.held && id in g.held && f.held[id] == g.held[id]
    ensures Pruned(f) == Pruned(g)
  {
  }

  /** Pruning between two releases makes no difference. */
  lemma PruneLate(f: Forest, ks: set<Id>, ms: set<Id>)
    requires Shaped(f) && ks !! ms && CanRelease(f, ks) && CanRelease(f, ms)
    ensures CanRelease(Pruned(Release(f, ks)), ms)
    ensures Pruned(Release(Pruned(Release(f, ks)), ms)) == Pruned(Release(f, ks + ms))
  {
    var g := Release(f, ks);
    forall id | id in ms ensures Anchored(g, id) {
      assert g.held[id] > 0;
    }
    var h := Release(Pruned(g), ms);
    var both := Release(f, ks + ms);
    forall id: Id ensures Anchored(h, id) <==> Anchored(both, id) {
      AnchorsAlike(f, ks, ms, id);
    }
    forall id: Id | Anchored(both, id) ensures Anchored(g, id) {
      AnchorsGrow(f, ks, ms, id);
    }
    hide Anchored;
    PrunedAlike(h, both);
  }

  lemma {:induction false} AnchorsGrow(f: Forest, ks: set<Id>, ms: set<Id>, id: Id)
    requires ks !! ms && CanRelease(f, ks) && CanRelease(f, ms)
    requires Anchored(Release(f, ks + ms), id)
    ensures Anchored(Release(f, ks), id)
  {
    var g, both := Release(f, ks), Release(f, ks + ms);
    if both.held[id] == 0 {
      var o: Id :| o < id && Owns(both, o, id) && Anchored(both, o);
      AnchorsGrow(f, ks, ms, o);
      assert Owns(g, o, id);
    }
  }

  lemma {:induction false} AnchorsAlike(f: Forest, ks: set<Id>, ms: set<Id>, id: Id)
    requires Shaped(f) && ks !! ms && CanRelease(f, ks) && CanRelease(f, ms)
    requires CanRelease(Pruned(Release(f, ks)), ms)
    ensures Anchored(Release(Pruned(Release(f, ks)), ms), id) <==> Anchored(Release(f, ks + ms), id)
  {
    var g := Release(f, ks);
    var h, both := Release(Pruned(g), ms), Release(f, ks + ms);
    if Anchored(both, id) {
      AnchorsGrow(f, ks, ms, id);
      if both.held[id] == 0 {
        var o: Id :| o < id && Owns(both, o, id) && Anchored(both, o);
        AnchorsAlike(f, ks, ms, o);
        AnchorsGrow(f, ks, ms, o);
        assert Owns(h, o, id);
      }
    }
    if Anchored(h, id) && h.held[id] == 0 {
      var o: Id :| o < id && Owns(h, o, id) && Anchored(h, o);
      AnchorsAlike(f, ks, ms, o);
      assert Owns(both, o, id);
    }
  }

  // ---------- The steps of dropping a record ----------

  /** A reference less that is not the last one. */
  lemma DropNotLast(f: Forest, id: Id)
    requires WellFormed(f) && CanRelease(f, {id}) && Refs(f, id) > 1
    ensures WellFormed(Release(f, {id})) && Dropped(f, id) == Release(f, {id})
  {
    var g := Release(f, {id});
    ReleaseKeepsShape(f, {id});
    forall k | k in g.kids && k in g.held ensures Refs(g, k) > 0 {
      assert Refs(f, k) > 0;
      if Owned(f, k) {
        var o :| Owns(f, o, k);
        assert Owns(g, o, k);
      }
    }
    NothingToPrune(g);
  }

  /**
   The last reference goes: the record leaves the forest, and whoever frees it takes over its
   claims on what it owned.
   */
  ghost function Inherited(f: Forest, id: Id): Forest
    requires id in f.kids
  {
    Hold(Without(f, id), f.kids[id])
  }

  lemma InheritedIsWellFormed(f: Forest, id: Id)
    requires WellFormed(f) && id in f.kids && !Owned(f, id)
    ensures WellFormed(Inherited(f, id)) && CanRelease(Inherited(f, id), f.kids[id])
  {
    var g := Inherited(f, id);
    assert forall k | k in f.kids[id] :: Owns(f, id, k);
    forall o, k | Owns(g, o, k) ensures o < k && k in g.kids {
      assert Owns(f, o, k);
    }
    forall o, q, k | Owns(g, o, k) && Owns(g, q, k) ensures o == q {
      assert Owns(f, o, k) && Owns(f, q, k);
    }
    forall k | k in g.kids && k in g.held ensures Refs(g, k) > 0 {
      assert Refs(f, k) > 0;
      if k !in f.kids[id] && Owned(f, k) {
        var o :| Owns(f, o, k);
        assert Owns(g, o, k);
      }
    }
  }

  lemma {:induction false} UnanchoredGone(f: Forest, id: Id, k: Id)
    requires Shaped(f) && id in f.kids && f.held[id] == 0 && !Owned(f, id)
    ensures Anchored(f, k) <==> Anchored(Without(f, id), k)
  {
    var g := Without(f, id);
    if Anchored(f, k) && f.held[k] == 0 {
      var o: Id :| o < k && Owns(f, o, k) && Anchored(f, o);
      UnanchoredGone(f, id, o);
      assert Owns(g, o, k);
    }
    if Anchored(g, k) && g.held[k] == 0 {
      var o: Id :| o < k && Owns(g, o, k) && Anchored(g, o);
      UnanchoredGone(f, id, o);
      assert Owns(f, o, k);
    }
  }

  lemma ReleasedInheritance(f: Forest, id: Id)
    requires Shaped(f) && CanRelease(f, {id}) && f.held[id] == 1
    requires CanRelease(Inherited(f, id), f.kids[id])
    ensures Release(Inherited(f, id), f.kids[id]) == Without(Release(f, {id}), id)
  {
  }

  /** Releasing the inherited claims completes the drop of the record. */
  lemma DropLast(f: Forest, id: Id)
    requires WellFormed(f) && CanRelease(f, {id}) && Refs(f, id) == 1
    ensures WellFormed(Inherited(f, id)) && CanRelease(Inherited(f, id), f.kids[id])
    ensures Pruned(Release(Inherited(f, id), f.kids[id])) == Dropped(f, id)
    ensures id !in Dropped(f, id).kids
  {
    InheritedIsWellFormed(f, id);
    var g, h := Release(f, {id}), Release(Inherited(f, id), f.kids[id]);
    ReleaseKeepsShape(f, {id});
    assert forall o :: Owns(g, o, id) <==> Owns(f, o, id);
    ReleasedInheritance(f, id);
    assert !Anchored(g, id);
    forall k: Id ensures Anchored(g, k) <==> Anchored(h, k) {
      UnanchoredGone(g, id, k);
    }
    hide Anchored;
    PrunedAlike(g, h);
  }

  /** A live record gives up some of what it owns. */
  function Disowned(f: Forest, id: Id, ks: set<Id>): Forest
    requires id in f.kids
  {
    f.(kids := f.kids[id := f.kids[id] - ks])
  }

  /** A live record gives up some of what it owns, and whoever takes it away inherits the claims. */
  ghost function Opened(f: Forest, id: Id, ks: set<Id>): Forest
    requires id in f.kids
  {
    Hold(Disowned(f, id, ks), ks)
  }

  lemma OpenedIsWellFormed(f: Forest, id: Id, ks: set<Id>)
    requires WellFormed(f) && id in f.kids && ks <= f.kids[id]
    ensures WellFormed(Opened(f, id, ks)) && CanRelease(Opened(f, id, ks), ks)
    ensures Release(Opened(f, id, ks), ks) == Disowned(f, id, ks)
    ensures Shaped(Disowned(f, id, ks))
  {
    var g := Opened(f, id, ks);
    assert forall k | k in ks :: Owns(f, id, k);
    assert forall o, k | Owns(g, o, k) :: Owns(f, o, k);
    forall k | k in g.kids && k in g.held ensures Refs(g, k) > 0 {
      assert Refs(f, k) > 0;
      if k !in ks && Owned(f, k) {
        var o :| Owns(f, o, k);
        assert Owns(g, o, k);
      }
    }
    assert Release(g, ks).held == f.held;
    var d := Disowned(f, id, ks);
    assert forall o, k | Owns(d, o, k) :: Owns(f, o, k);
  }

  /** Giving up what it owns does not make a record unreachable. */
  lemma {:induction false} DisownedStays(f: Forest, id: Id, ks: set<Id>, k: Id)
    requires id in f.kids && k <= id && Anchored(f, k)
    ensures Anchored(Disowned(f, id, ks), k)
  {
    var g := Disowned(f, id, ks);
    if f.held[k] == 0 {
      var o: Id :| o < k && Owns(f, o, k) && Anchored(f, o);
      DisownedStays(f, id, ks, o);
      assert Owns(g, o, k);
    }
  }

  /** Records nobody holds, besides a forest that owns none of them. */
  ghost predicate Besides(f: Forest, g: Forest) {
    && f.kids.Keys <= g.kids.Keys && f.held.Keys <= g.held.Keys
    && (forall id | id in f.kids :: g.kids[id] == f.kids[id])
    && (forall id | id in f.held :: g.held[id] == f.held[id])
    && (forall id | id in g.held && id !in f.held :: g.held[id] == 0)
  }

  /** Such records do not outlast the next pruning, so what a failed construction made goes away. */
  lemma PruneUndoes(f: Forest, g: Forest)
    requires WellFormed(f) && Shaped(g) && Besides(f, g)
    ensures Pruned(g) == f
  {
    forall id: Id ensures Anchored(g, id) <==> Anchored(f, id) {
      OnlyOldAnchored(f, g, id);
    }
    NothingToPrune(f);
    hide Anchored;
    PrunedAlike(f, g);
  }

  lemma {:induction false} OnlyOldAnchored(f: Forest, g: Forest, id: Id)
    requires WellFormed(f) && Shaped(g) && Besides(f, g)
    ensures Anchored(g, id) <==> Anchored(f, id)
  {
    if Anchored(g, id) && g.held[id] == 0 {
      var o: Id :| o < id && Owns(g, o, id) && Anchored(g, o);
      OnlyOldAnchored(f, g, o);
      assert Owns(f, o, id);
    }
    if Anchored(f, id) && f.held[id] == 0 {
      var o: Id :| o < id && Owns(f, o, id) && Anchored(f, o);
      OnlyOldAnchored(f, g, o);
      assert Owns(g, o, id);
    }
  }

  /** A held record that nothing owns passes to an older one, which takes over a handle. */
  function Given(f: Forest, owner: Id, id: Id): Forest
    requires owner in f.kids && CanRelease(f, {id})
  {
    Release(f.(kids := f.kids[owner := f.kids[owner] + {id}]), {id})
  }

  lemma GivenIsWellFormed(f: Forest, owner: Id, id: Id)
    requires WellFormed(f) && owner in f.kids && owner < id && CanRelease(f, {id}) && !Owned(f, id)
    ensures WellFormed(Given(f, owner, id))
    ensures forall k | k in f.held :: Refs(Given(f, owner, id), k) == Refs(f, k)
  {
    var g := Given(f, owner, id);
    assert Owns(g, owner, id);
    assert forall o, k | k != id :: Owns(g, o, k) <==> Owns(f, o, k);
    assert forall o | o != owner :: Owns(g, o, id) ==> Owns(f, o, id);
    forall k | k in f.held ensures Refs(g, k) == Refs(f, k) {
      if k != id && Owned(f, k) {
        var o :| Owns(f, o, k);
        assert Owns(g, o, k);
      }
    }
    assert forall k | k in f.held :: Refs(f, k) > 0;
  }

  /** A new record with one handle. */
  function Born(f: Forest, id: Id): Forest {
    Forest(f.kids[id := {}], f.held[id := 1])
  }

  /** A new record that only its owner refers to. */
  function Adopted(f: Forest, owner: Id, id: Id): Forest
    requires owner in f.kids
  {
    Forest(f.kids[owner := f.kids[owner] + {id}][id := {}], f.held[id := 0])
  }

  lemma AdoptedIs(f: Forest, owner: Id, id: Id)
    requires owner in f.kids && id != owner
    ensures owner in Born(f, id).kids && CanRelease(Born(f, id), {id})
    ensures Given(Born(f, id), owner, id) == Adopted(f, owner, id)
  {
    var g := Born(f, id);
    var h := Given(g, owner, id);
    assert h.kids == Adopted(f, owner, id).kids;
    assert h.held == Adopted(f, owner, id).held;
  }

  lemma BornIsWellFormed(f: Forest, id: Id)
    requires WellFormed(f) && forall k | k in f.kids :: k < id
    ensures WellFormed(Born(f, id))
  {
    var g := Born(f, id);
    assert forall o, k :: Owns(g, o, k) <==> Owns(f, o, k);
    forall k | k in g.kids && k in g.held ensures Refs(g, k) > 0 {
      if k != id {
        assert Refs(f, k) > 0;
        if Owned(f, k) {
          var o :| Owns(f, o, k);
          assert Owns(g, o, k);
        }
      }
    }
  }

  lemma HoldIsWellFormed(f: Forest, ks: set<Id>)
    requires WellFormed(f)
    ensures WellFormed(Hold(f, ks))
  {
    var g := Hold(f, ks);
    assert forall o, k :: Owns(g, o, k) <==> Owns(f, o, k);
    forall k | k in g.kids && k in g.held ensures Refs(g, k) > 0 {
      assert Refs(f, k) > 0;
      if Owned(f, k) {
        var o :| Owns(f, o, k);
        assert Owns(g, o, k);
      }
    }
  }

  // ---------- Dropping handles one after the other ----------

  /** The list names each record as often as the client holds it. */
  ghost predicate AllHandles(f: Forest, ids: seq<Id>) {
    && (forall k | k in f.held :: multiset(ids)[k] == f.held[k])
    && (forall k | k in ids :: k in f.held)
  }

  lemma OneHandleLess(f: Forest, ids: seq<Id>)
    requires WellFormed(f) && AllHandles(f, ids) && ids != []
    ensures CanRelease(f, {ids[0]}) && WellFormed(Dropped(f, ids[0])) && AllHandles(Dropped(f, ids[0]), ids[1..])
  {
    hide Full;
    var x := ids[0];
    CountsSplit(ids);
    ReleaseKeepsShape(f, {x});
    PrunedIsWellFormed(Release(f, {x}));
    hide Shaped, Owns;
    HandlesLeft(Release(f, {x}), ids[1..]);
  }

  lemma CountsSplit(ids: seq<Id>)
    requires ids != []
    ensures forall k :: multiset(ids)[k] == multiset(ids[1..])[k] + if k == ids[0] then 1 else 0
    ensures forall k | k in ids[1..] :: k in ids
  {
    assert ids == [ids[0]] + ids[1..];
    assert multiset(ids) == multiset([ids[0]]) + multiset(ids[1..]);
  }

  /** What is held is not pruned. */
  lemma HandlesLeft(f: Forest, ids: seq<Id>)
    requires AllHandles(f, ids) && f.held.Keys == f.kids.Keys
    ensures AllHandles(Pruned(f), ids)
  {
    forall k | k in ids ensures k in Pruned(f).held {
      assert k in multiset(ids);
      assert Anchored(f, k);
    }
  }

  ghost function DropEach(f: Forest, ids: seq<Id>): Forest
    requires WellFormed(f) && AllHandles(f, ids)
    decreases |ids|
  {
    if ids == [] then f
    else
      OneHandleLess(f, ids);
      DropEach(Dropped(f, ids[0]), ids[1..])
  }

  /** Dropping all handles, in whatever order, leaves nothing live. */
  lemma {:induction false} DroppingAllLeavesNothing(f: Forest, ids: seq<Id>)
    requires WellFormed(f) && AllHandles(f, ids)
    ensures DropEach(f, ids) == Forest(map[], map[])
    decreases |ids|
  {
    if ids == [] {
      NothingHeldNothingLive(f);
    } else {
      OneHandleLess(f, ids);
      DroppingAllLeavesNothing(Dropped(f, ids[0]), ids[1..]);
    }
  }
}
