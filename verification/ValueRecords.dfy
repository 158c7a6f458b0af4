/**
 js/jsd/jsd_val.c: the debugger's wrappers of values and properties, their reference counts and
 the roots they register with the collector.  Records live in a heap of numbered records; a freed
 record is no longer in it, and its number is not used again.
 */
module ValueRecords {
  import opened Wrappers
  import opened Ownership

  /** What a record wraps.  All but the plain ones are things the collector moves and frees. */
  datatype JSVal = Plain(bits: int) | Double(number: int) | Text(chars: seq<Code>) | Null | Object(address: int)

  /** JSVAL_VOID. */
  const VOID := Plain(0x8000_0001)

  predicate IsGCThing(v: JSVal) {
    !v.Plain?
  }

  predicate IsObject(v: JSVal) {
    v.Null? || v.Object?
  }

  datatype Flag = GotProps | GotProto | GotParent | GotCtor

  /** The flags of a property: JSPD_EXCEPTION is Thrown, JSPD_ERROR is Failed, JSDPD_HINTED is Hinted. */
  datatype PropFlag =
    | Enumerable | ReadOnly | Permanent | Aliased | Argument | Variable | Thrown | Failed | Hinted

  /** JSDValue and JSDProperty. */
  datatype Node =
    | ValueNode(nref: int, wrapped: JSVal, props: seq<Id>, chars: Option<seq<Code>>,
                proto: Option<Id>, parent: Option<Id>, ctor: Option<Id>, flags: set<Flag>)
    | PropNode(nref: int, value: Option<Id>, name: Option<Id>, alias: Option<Id>, attrs: set<PropFlag>, slot: int)

  type Heap = map<Id, Node>

  /** The fields that may point to a value the record owns. */
  datatype Slot = Proto | Parent | Ctor | Value | Name | Alias

  function Get(n: Node, s: Slot): Option<Id> {
    match s
    case Proto => if n.ValueNode? then n.proto else None
    case Parent => if n.ValueNode? then n.parent else None
    case Ctor => if n.ValueNode? then n.ctor else None
    case Value => if n.PropNode? then n.value else None
    case Name => if n.PropNode? then n.name else None
    case Alias => if n.PropNode? then n.alias else None
  }

  predicate HasSlot(n: Node, s: Slot) {
    n.ValueNode? <==> (s == Proto || s == Parent || s == Ctor)
  }

  function Put(n: Node, s: Slot, x: Option<Id>): Node
    requires HasSlot(n, s)
  {
    match s
    case Proto => n.(proto := x)
    case Parent => n.(parent := x)
    case Ctor => n.(ctor := x)
    case Value => n.(value := x)
    case Name => n.(name := x)
    case Alias => n.(alias := x)
  }

  function AsSet(x: Option<Id>): set<Id> {
    if x.Some? then {x.value} else {}
  }

  function Elements(s: seq<Id>): set<Id> {
    set k | k in s
  }

  /** The records that a record points to and answers for. */
  function Kids(n: Node): set<Id> {
    match n
    case ValueNode(_, _, props, _, proto, parent, ctor, _) =>
      AsSet(proto) + AsSet(parent) + AsSet(ctor) + Elements(props)
    case PropNode(_, value, name, alias, _, _) => AsSet(value) + AsSet(name) + AsSet(alias)
  }

  /** No record is pointed to twice. */
  predicate Apart(n: Node) {
    match n
    case ValueNode(_, _, props, _, proto, parent, ctor, _) =>
      && AsSet(proto) !! AsSet(parent) && AsSet(proto) !! AsSet(ctor) && AsSet(parent) !! AsSet(ctor)
      && AsSet(proto) + AsSet(parent) + AsSet(ctor) !! Elements(props)
      && forall i, j | 0 <= i < j < |props| :: props[i] != props[j]
    case PropNode(_, value, name, alias, _, _) =>
      AsSet(value) !! AsSet(name) && AsSet(value) !! AsSet(alias) && AsSet(name) !! AsSet(alias)
  }

  predicate IsValue(h: Heap, id: Id) {
    id in h && h[id].ValueNode?
  }

  predicate IsProp(h: Heap, id: Id) {
    id in h && h[id].PropNode?
  }

  /** The pointers of a record lead to records of the right kind. */
  predicate Typed(h: Heap, n: Node) {
    (forall s: Slot :: Get(n, s).Some? ==> IsValue(h, Get(n, s).value))
    && (n.ValueNode? ==> forall k | k in n.props :: IsProp(h, k))
  }

  /** What the flags of a value say. */
  predicate Flagged(n: Node) {
    n.ValueNode? ==>
      && (n.proto.Some? ==> GotProto in n.flags) && (n.parent.Some? ==> GotParent in n.flags)
      && (n.ctor.Some? ==> GotCtor in n.flags) && (n.props != [] ==> GotProps in n.flags)
  }

  /** A place that is registered with the collector. */
  datatype Root = ValRoot(id: Id) | StringRoot(id: Id)

  predicate Rooted(h: Heap, r: Root) {
    r.id in h && h[r.id].ValueNode? &&
    match r
    case ValRoot(id) => IsGCThing(h[id].wrapped)
    case StringRoot(id) => h[id].chars.Some? && !h[id].wrapped.Text?
  }

  ghost predicate RootsExact(h: Heap, roots: set<Root>) {
    forall r: Root :: r in roots <==> Rooted(h, r)
  }

  ghost predicate Covered(h: Heap, f: Forest, next: Id, busy: set<Id>) {
    (forall id: Id :: id in h <==> id in f.kids || id in busy) && forall id | id in h :: id < next
  }

  ghost predicate Counted(h: Heap, f: Forest) {
    forall id | id in f.kids && id in f.held && id in h :: h[id].nref == Refs(f, id)
  }

  ghost predicate Tied(h: Heap, f: Forest, busy: set<Id>) {
    forall id | id in f.kids && id !in busy && id in h ::
      Kids(h[id]) == f.kids[id] && Apart(h[id]) && Typed(h, h[id])
  }

  /** The heap shows the forest, except for busy records, whose contents are being given up. */
  ghost predicate Coupled(h: Heap, roots: set<Root>, f: Forest, next: Id, busy: set<Id>) {
    WellFormed(f) && Covered(h, f, next, busy) && Counted(h, f) && Tied(h, f, busy) && RootsExact(h, roots)
  }

  function Recount(n: Node, nref: int): Node {
    n.(nref := nref)
  }

  predicate Same(m: Node, n: Node) {
    n == Recount(m, n.nref)
  }

  /** Every record of the later heap is in the earlier one, with the same fields. */
  predicate Survive(h: Heap, h': Heap) {
    forall id | id in h' :: id in h && Same(h[id], h'[id])
  }

  predicate SurviveBut(h: Heap, h': Heap, v: Id) {
    forall id | id in h' && id != v :: id in h && Same(h[id], h'[id])
  }

  lemma SurviveEdit(h: Heap, v: Id, n: Node)
    ensures SurviveBut(h, h[v := n], v)
  {
  }

  lemma SurviveMore(h: Heap, h1: Heap, h2: Heap, v: Id)
    requires SurviveBut(h, h1, v) && SurviveBut(h1, h2, v)
    ensures SurviveBut(h, h2, v)
  {
  }

  predicate KindsKept(h: Heap, h': Heap) {
    forall id | id in h && id in h' :: h[id].ValueNode? <==> h'[id].ValueNode?
  }

  /** A busy record still has a claim on everything it points to. */
  ghost predicate Pending(h: Heap, f: Forest, busy: set<Id>, v: Id) {
    && v in h && v in busy && (forall b | b in busy :: b <= v)
    && Apart(h[v]) && Typed(h, h[v])
    && (forall k | k in Kids(h[v]) :: k > v)
    && CanRelease(f, Kids(h[v]))
  }

  /** Of the claims ks on the forest f0, those outside rest have been released. */
  ghost predicate Progress(f0: Forest, ks: set<Id>, f: Forest, rest: set<Id>) {
    CanRelease(f0, ks) && rest <= ks && f == Pruned(Release(f0, ks - rest))
  }

  // ---------- One claim after the other ----------

  lemma ProgressStarts(f: Forest, ks: set<Id>)
    requires WellFormed(f) && CanRelease(f, ks)
    ensures Progress(f, ks, f, ks)
  {
    assert Release(f, ks - ks).held == f.held;
    NothingToPrune(f);
  }

  lemma ProgressStep(f0: Forest, ks: set<Id>, f: Forest, rest: set<Id>, k: Id)
    requires Shaped(f0) && Progress(f0, ks, f, rest) && k in rest
    ensures CanRelease(f, {k}) && CanRelease(Dropped(f, k), rest - {k})
    ensures Progress(f0, ks, Dropped(f, k), rest - {k})
  {
    hide Pruned, Anchored;
    PruneLate(f0, ks - rest, {k});
    assert ks - rest + {k} == ks - (rest - {k});
    PruneLate(f0, ks - (rest - {k}), rest - {k});
  }

  /** What is right about a record stays right while what it points to survives. */
  lemma TypedSurvives(h: Heap, h': Heap, n: Node, n': Node)
    requires Typed(h, n) && Apart(n) && Same(n, n')
    requires KindsKept(h, h') && forall k | k in Kids(n) :: k in h'
    ensures Kids(n') == Kids(n) && Typed(h', n') && Apart(n')
  {
    forall s: Slot | Get(n', s).Some? ensures IsValue(h', Get(n', s).value) {
      assert Get(n, s) == Get(n', s);
      assert Get(n, s).value in Kids(n);
    }
  }

  lemma KidsLive(f: Forest)
    requires Shaped(f)
    ensures forall o, k | o in f.kids && k in f.kids[o] :: k in f.kids && o < k
  {
    assert forall o, k | o in f.kids && k in f.kids[o] :: Owns(f, o, k);
  }

  /** A reference goes, not the last one. */
  lemma OneLess(h: Heap, roots: set<Root>, f: Forest, next: Id, busy: set<Id>, id: Id)
    requires Coupled(h, roots, f, next, busy) && id in f.kids && id in h && id !in busy && CanRelease(f, {id})
    requires h[id].nref > 1
    ensures Coupled(h[id := Recount(h[id], h[id].nref - 1)], roots, Release(f, {id}), next, busy)
    ensures Dropped(f, id) == Release(f, {id})
  {
    hide Pruned, Anchored, Refs, Rooted, RootsExact;
    CountIs(h, roots, f, next, busy, id);
    DropNotLast(f, id);
    var g, h' := Release(f, {id}), h[id := Recount(h[id], h[id].nref - 1)];
    assert Counted(h', g) by {
      RefsReleased(f, id);
    }
    KidsLive(f);
    forall k | k in f.kids && k !in busy && k in h'
      ensures Kids(h'[k]) == f.kids[k] && Apart(h'[k]) && Typed(h', h'[k])
    {
      TypedSurvives(h, h', h[k], h'[k]);
    }
    RootsAlike(h, h', roots);
  }

  lemma CountIs(h: Heap, roots: set<Root>, f: Forest, next: Id, busy: set<Id>, id: Id)
    requires Coupled(h, roots, f, next, busy) && id in f.kids && id in h && CanRelease(f, {id})
    ensures h[id].nref == Refs(f, id) && h[id].nref > 0 && id < next
    ensures h[id].nref == 1 ==> !Owned(f, id)
  {
  }

  lemma RootsAlike(h: Heap, h': Heap, roots: set<Root>)
    requires RootsExact(h, roots) && h.Keys == h'.Keys && Survive(h, h')
    ensures RootsExact(h', roots)
  {
  }

  lemma RefsReleased(f: Forest, id: Id)
    requires Shaped(f) && CanRelease(f, {id})
    ensures forall k | k in f.held ::
      Refs(Release(f, {id}), k) == if k == id then Refs(f, k) - 1 else Refs(f, k)
  {
    assert forall o, k :: Owns(Release(f, {id}), o, k) <==> Owns(f, o, k);
    var g := Release(f, {id});
    forall k | k in f.held ensures Owned(f, k) <==> Owned(g, k) {
      if Owned(f, k) {
        var o :| Owns(f, o, k);
        assert Owns(g, o, k);
      }
    }
  }

  /** The coupling of contents survives a step that keeps the records of the forest. */
  lemma TiedSurvives(h: Heap, h': Heap, f: Forest, f': Forest, busy: set<Id>, busy': set<Id>)
    requires Tied(h, f, busy) && Shaped(f') && f'.kids.Keys <= h'.Keys && KindsKept(h, h')
    requires forall id | id in f'.kids && id !in busy' ::
      id !in busy && id in f.kids && f'.kids[id] == f.kids[id] && id in h && Same(h[id], h'[id])
    ensures Tied(h', f', busy')
  {
    KidsLive(f');
    forall id | id in f'.kids && id !in busy' && id in h'
      ensures Kids(h'[id]) == f'.kids[id] && Apart(h'[id]) && Typed(h', h'[id])
    {
      TypedSurvives(h, h', h[id], h'[id]);
    }
  }

  lemma RefsInherited(f: Forest, id: Id)
    requires WellFormed(f) && id in f.kids && !Owned(f, id)
    ensures forall k | k in f.held && k != id :: Refs(Inherited(f, id), k) == Refs(f, k)
  {
    var g := Inherited(f, id);
    forall k | k in f.held && k != id ensures Refs(g, k) == Refs(f, k) {
      if k in f.kids[id] {
        assert Owns(f, id, k);
        assert forall o :: Owns(g, o, k) ==> Owns(f, o, k);
      } else if Owned(f, k) {
        var o :| Owns(f, o, k);
        assert Owns(g, o, k);
      } else {
        assert forall o :: Owns(g, o, k) ==> Owns(f, o, k);
      }
    }
  }

  lemma InheritedIs(f: Forest, id: Id)
    requires WellFormed(f) && id in f.kids
    ensures Inherited(f, id).kids == f.kids - {id}
    ensures Inherited(f, id).held.Keys == f.held.Keys - {id}
  {
  }

  /** The last reference goes: the record becomes busy, with a claim on what it points to. */
  lemma LastOne(h: Heap, roots: set<Root>, f: Forest, next: Id, busy: set<Id>, id: Id)
    requires Coupled(h, roots, f, next, busy) && id in f.kids && id in h && id !in busy && CanRelease(f, {id})
    requires h[id].nref == 1 && forall b | b in busy :: b < id
    ensures Coupled(h[id := Recount(h[id], 0)], roots, Inherited(f, id), next, busy + {id})
    ensures Pending(h[id := Recount(h[id], 0)], Inherited(f, id), busy + {id}, id)
    ensures var ks := Kids(Recount(h[id], 0));
      CanRelease(Inherited(f, id), ks) && Pruned(Release(Inherited(f, id), ks)) == Dropped(f, id)
    ensures id !in Dropped(f, id).kids
  {
    hide Pruned, Anchored, Inherited, Refs, Dropped, Release, Rooted, RootsExact;
    CountIs(h, roots, f, next, busy, id);
    DropLast(f, id);
    RefsInherited(f, id);
    InheritedIs(f, id);
    KidsLive(f);
    var g, h' := Inherited(f, id), h[id := Recount(h[id], 0)];
    assert Kids(h'[id]) == f.kids[id];
    TiedSurvives(h, h', f, g, busy, busy + {id});
    TypedSurvives(h, h', h[id], h'[id]);
    RootsAlike(h, h', roots);
  }

  /** A busy record that has given up everything is freed. */
  lemma Freed(h: Heap, roots: set<Root>, f: Forest, next: Id, busy: set<Id>, id: Id)
    requires Coupled(h, roots, f, next, busy + {id}) && id !in f.kids && id !in busy && id in h
    requires h[id].ValueNode? ==> h[id].chars.None?
    ensures Coupled(h - {id}, roots - {ValRoot(id)}, f, next, busy)
  {
    hide Pruned, Anchored;
    var h' := h - {id};
    TiedSurvives(h, h', f, f, busy + {id}, busy);
    assert forall r: Root :: Rooted(h', r) <==> Rooted(h, r) && r != ValRoot(id);
  }

  /** Changing the pointers of a busy record leaves everything else as it is. */
  lemma BusyEdit(h: Heap, roots: set<Root>, f: Forest, next: Id, busy: set<Id>, v: Id, n: Node)
    requires Coupled(h, roots, f, next, busy) && v in busy && v in h
    requires n.nref == h[v].nref && (n.ValueNode? <==> h[v].ValueNode?)
    requires n.ValueNode? ==> n.wrapped == h[v].wrapped && n.chars == h[v].chars
    ensures Coupled(h[v := n], roots, f, next, busy)
  {
  }

  lemma RootsWithoutText(h: Heap, roots: set<Root>, v: Id)
    requires RootsExact(h, roots) && IsValue(h, v)
    ensures RootsExact(h[v := h[v].(chars := None)], roots - {StringRoot(v)})
    ensures h[v].chars.None? || h[v].wrapped.Text? ==> roots - {StringRoot(v)} == roots
  {
  }

  lemma SamePointers(h: Heap, f: Forest, busy: set<Id>, v: Id, n: Node)
    requires Pending(h, f, busy, v) && h[v].ValueNode? && n.ValueNode?
    requires n == h[v].(chars := n.chars, flags := n.flags)
    ensures Pending(h[v := n], f, busy, v) && Kids(n) == Kids(h[v])
  {
    assert forall s: Slot :: Get(n, s) == Get(h[v], s);
  }

  /** Forgetting the cached string of a busy value, with its root when it has one. */
  lemma TextCleared(h: Heap, roots: set<Root>, f: Forest, next: Id, busy: set<Id>, v: Id)
    requires Coupled(h, roots, f, next, busy) && Pending(h, f, busy, v) && IsValue(h, v)
    ensures Coupled(h[v := h[v].(chars := None)], roots - {StringRoot(v)}, f, next, busy)
    ensures Pending(h[v := h[v].(chars := None)], f, busy, v)
    ensures Kids(h[v := h[v].(chars := None)][v]) == Kids(h[v])
    ensures h[v].chars.None? || h[v].wrapped.Text? ==> roots - {StringRoot(v)} == roots
  {
    var h' := h[v := h[v].(chars := None)];
    RootsWithoutText(h, roots, v);
    hide Rooted, RootsExact, Refs;
    TiedSurvives(h, h', f, f, busy, busy);
    SamePointers(h, f, busy, v, h'[v]);
  }

  /** A pointer of a busy record is cleared after what it led to has lost a reference. */
  lemma PendingStep(h: Heap, h': Heap, f: Forest, f': Forest, busy: set<Id>, v: Id, x: Id, n: Node)
    requires Pending(h, f, busy, v) && v in h' && KindsKept(h, h')
    requires f'.held.Keys <= h'.Keys
    requires n.ValueNode? <==> h[v].ValueNode?
    requires Kids(n) == Kids(h[v]) - {x} && Apart(n) && CanRelease(f', Kids(n))
    requires forall s: Slot | Get(n, s).Some? :: Get(n, s) == Get(h[v], s)
    requires n.ValueNode? ==> forall k | k in n.props :: k in h[v].props
    ensures Pending(h'[v := n], f', busy, v)
  {
    var h'' := h'[v := n];
    forall s: Slot | Get(n, s).Some? ensures IsValue(h'', Get(n, s).value) {
      assert Get(n, s).value in Kids(n);
    }
    if n.ValueNode? {
      forall k | k in n.props ensures IsProp(h'', k) {
        assert k in Kids(n);
      }
    }
  }

  lemma PutNone(m: Node, m': Node, s: Slot)
    requires Same(m, m') && HasSlot(m, s) && Get(m, s).Some? && Apart(m)
    ensures HasSlot(m', s)
    ensures var n := Put(m', s, None);
      && Kids(n) == Kids(m) - {Get(m, s).value} && Apart(n)
      && (forall t: Slot | Get(n, t).Some? :: Get(n, t) == Get(m, t))
  {
  }

  lemma Unlinked(m: Node, m': Node)
    requires m.ValueNode? && m'.ValueNode? && m.props != [] && Apart(m)
    requires Same(m, m'.(props := m.props)) && m'.props == m.props[1..]
    ensures Kids(m') == Kids(m) - {m.props[0]} && Apart(m')
    ensures forall t: Slot :: Get(m', t) == Get(m, t)
    ensures forall k | k in m'.props :: k in m.props
  {
  }

  /** A busy record gives up its claims ks on f0, of which those it still points to are left. */
  ghost predicate Working(h: Heap, roots: set<Root>, f: Forest, next: Id, busy: set<Id>, v: Id,
                          f0: Forest, ks: set<Id>) {
    && Coupled(h, roots, f, next, busy) && Pending(h, f, busy, v)
    && Shaped(f0) && Progress(f0, ks, f, Kids(h[v]))
  }

  lemma WorkStarts(h: Heap, roots: set<Root>, f: Forest, next: Id, busy: set<Id>, v: Id)
    requires Coupled(h, roots, f, next, busy) && Pending(h, f, busy, v)
    ensures Working(h, roots, f, next, busy, v, f, Kids(h[v]))
  {
    hide Pruned;
    ProgressStarts(f, Kids(h[v]));
  }

  lemma WorkEnds(h: Heap, roots: set<Root>, f: Forest, next: Id, busy: set<Id>, v: Id, f0: Forest, ks: set<Id>)
    requires Working(h, roots, f, next, busy, v, f0, ks) && Kids(h[v]) == {}
    ensures CanRelease(f0, ks) && f == Pruned(Release(f0, ks))
  {
    assert ks - {} == ks;
  }

  lemma WorkCoupled(h: Heap, roots: set<Root>, f: Forest, next: Id, busy: set<Id>, v: Id, f0: Forest, ks: set<Id>)
    requires Working(h, roots, f, next, busy, v, f0, ks)
    ensures Coupled(h, roots, f, next, busy) && v in h && v in busy && v < next
  {
  }

  lemma NoKids(n: Node)
    requires n.ValueNode? ==> n.props == [] && n.proto.None? && n.parent.None? && n.ctor.None?
    requires n.PropNode? ==> n.value.None? && n.name.None? && n.alias.None?
    ensures Kids(n) == {}
  {
  }

  lemma WorkApart(h: Heap, roots: set<Root>, f: Forest, next: Id, busy: set<Id>, v: Id, f0: Forest, ks: set<Id>)
    requires Working(h, roots, f, next, busy, v, f0, ks)
    ensures Apart(h[v])
  {
  }

  lemma NoValRoot(h: Heap, roots: set<Root>, f: Forest, next: Id, busy: set<Id>, id: Id)
    requires Coupled(h, roots, f, next, busy) && id in h
    requires h[id].PropNode? || !IsGCThing(h[id].wrapped)
    ensures roots - {ValRoot(id)} == roots
  {
  }

  lemma BusyStays(h: Heap, roots: set<Root>, f: Forest, next: Id, busy: set<Id>, v: Id)
    requires Coupled(h, roots, f, next, busy) && v in busy
    ensures v in h
  {
  }

  lemma PropIsKid(n: Node)
    requires n.ValueNode? && n.props != []
    ensures n.props[0] in Kids(n)
  {
  }

  lemma SlotIsKid(n: Node, s: Slot)
    ensures Get(n, s).Some? ==> Get(n, s).value in Kids(n)
  {
  }

  /** What a busy record points to can be dropped. */
  lemma WorkPoints(h: Heap, roots: set<Root>, f: Forest, next: Id, busy: set<Id>, v: Id, f0: Forest, ks: set<Id>, x: Id)
    requires Working(h, roots, f, next, busy, v, f0, ks) && x in Kids(h[v])
    ensures x in f.kids && x in h && CanRelease(f, {x}) && v < x < next && forall b | b in busy :: b < x
    ensures v in busy && v < next
    ensures forall s: Slot | Get(h[v], s) == Some(x) :: IsValue(h, x)
    ensures h[v].ValueNode? && x in h[v].props ==> IsProp(h, x)
  {
  }

  /** One claim is released and the pointer, n being the rest of the record, cleared. */
  lemma WorkStep(h: Heap, roots: set<Root>, f: Forest, next: Id, busy: set<Id>, v: Id, f0: Forest, ks: set<Id>, x: Id,
                 h': Heap, roots': set<Root>, n: Node)
    requires Working(h, roots, f, next, busy, v, f0, ks) && x in Kids(h[v]) && CanRelease(f, {x})
    requires Coupled(h', roots', Dropped(f, x), next, busy) && KindsKept(h, h') && v in h'
    requires n.nref == h'[v].nref && (n.ValueNode? <==> h'[v].ValueNode?)
    requires n.ValueNode? ==> n.wrapped == h'[v].wrapped && n.chars == h'[v].chars
    requires Kids(n) == Kids(h[v]) - {x} && Apart(n)
    requires forall s: Slot | Get(n, s).Some? :: Get(n, s) == Get(h[v], s)
    requires n.ValueNode? ==> forall k | k in n.props :: k in h[v].props
    ensures Working(h'[v := n], roots', Dropped(f, x), next, busy, v, f0, ks)
  {
    hide Dropped, Refs, Rooted, RootsExact, Apart, Typed, Kids, Pruned;
    ProgressStep(f0, ks, f, Kids(h[v]), x);
    PendingStep(h, h', f, Dropped(f, x), busy, v, x, n) by {
      assert forall id | id in Dropped(f, x).held :: id in Dropped(f, x).kids;
    }
    BusyEdit(h', roots', Dropped(f, x), next, busy, v, n);
  }

  /** Changing the flags of a busy record. */
  lemma WorkFlags(h: Heap, roots: set<Root>, f: Forest, next: Id, busy: set<Id>, v: Id,
                  f0: Forest, ks: set<Id>, flags: set<Flag>)
    requires Working(h, roots, f, next, busy, v, f0, ks) && h[v].ValueNode?
    ensures Working(h[v := h[v].(flags := flags)], roots, f, next, busy, v, f0, ks)
  {
    hide Refs, Rooted, RootsExact, Pruned;
    var n := h[v].(flags := flags);
    BusyEdit(h, roots, f, next, busy, v, n);
    SamePointers(h, f, busy, v, n);
  }

  // ---------- New records, new references ----------

  lemma RefsSame(f: Forest, g: Forest, k: Id)
    requires k in f.held && k in g.held && f.held[k] == g.held[k]
    requires forall o :: Owns(f, o, k) <==> Owns(g, o, k)
    ensures Refs(f, k) == Refs(g, k)
  {
  }

  predicate IsBlank(n: Node) {
    n.nref == 1 && Kids(n) == {} && (n.ValueNode? ==> n.chars.None?)
  }

  function ValRootOf(id: Id, n: Node): set<Root> {
    if n.ValueNode? && IsGCThing(n.wrapped) then {ValRoot(id)} else {}
  }

  lemma BornCounted(h: Heap, f: Forest, next: Id, n: Node)
    requires Shaped(f) && Counted(h, f) && Covered(h, f, next, {}) && n.nref == 1
    ensures Counted(h[next := n], Born(f, next))
  {
    var h', g := h[next := n], Born(f, next);
    assert forall o, k :: Owns(g, o, k) <==> Owns(f, o, k);
    assert forall o :: !Owns(f, o, next);
    forall k | k in g.kids && k in h' ensures h'[k].nref == Refs(g, k) {
      if k != next {
        assert h[k].nref == Refs(f, k);
        RefsSame(f, g, k);
      }
    }
  }

  lemma BlankIsRight(h: Heap, n: Node)
    requires IsBlank(n)
    ensures Apart(n) && Typed(h, n)
  {
    assert forall s: Slot | Get(n, s).Some? :: Get(n, s).value in Kids(n);
    if n.ValueNode? && n.props != [] {
      PropIsKid(n);
    }
  }

  lemma BornTied(h: Heap, f: Forest, next: Id, n: Node)
    requires Tied(h, f, {}) && Shaped(f) && Covered(h, f, next, {}) && IsBlank(n)
    ensures Tied(h[next := n], Born(f, next), {})
  {
    hide Apart, Typed, Kids;
    var h', g := h[next := n], Born(f, next);
    KidsLive(f);
    forall id | id in g.kids ensures Kids(h'[id]) == g.kids[id] && Apart(h'[id]) && Typed(h', h'[id]) {
      if id == next {
        assert Kids(n) == {};
        BlankIsRight(h', n);
      } else {
        TypedSurvives(h, h', h[id], h'[id]);
      }
    }
  }

  lemma BornRoots(h: Heap, roots: set<Root>, next: Id, n: Node)
    requires RootsExact(h, roots) && next !in h && IsBlank(n)
    ensures RootsExact(h[next := n], roots + ValRootOf(next, n))
  {
  }

  /** A new record with one handle. */
  lemma BornCoupled(h: Heap, roots: set<Root>, f: Forest, next: Id, n: Node)
    requires Coupled(h, roots, f, next, {}) && IsBlank(n)
    ensures Coupled(h[next := n], roots + ValRootOf(next, n), Born(f, next), next + 1, {})
  {
    hide Counted, Tied, RootsExact, Refs, Full, Kids;
    BornIsWellFormed(f, next);
    BornCounted(h, f, next, n);
    BornTied(h, f, next, n);
    BornRoots(h, roots, next, n);
  }

  lemma RootsEdit(h: Heap, roots: set<Root>, o: Id, n: Node)
    requires RootsExact(h, roots) && o in h && (n.ValueNode? <==> h[o].ValueNode?)
    requires n.ValueNode? ==> n.wrapped == h[o].wrapped && n.chars == h[o].chars
    ensures RootsExact(h[o := n], roots)
  {
  }

  lemma EditTied(h: Heap, f: Forest, g: Forest, o: Id, n: Node)
    requires Tied(h, f, {}) && Shaped(f) && f.kids.Keys == g.kids.Keys <= h.Keys && o in f.kids
    requires forall k | k in f.kids && k != o :: g.kids[k] == f.kids[k]
    requires (n.ValueNode? <==> h[o].ValueNode?)
    requires Kids(n) == g.kids[o] && Apart(n) && Typed(h, n)
    ensures Tied(h[o := n], g, {})
  {
    hide Apart, Kids;
    var h' := h[o := n];
    KidsLive(f);
    forall k | k in g.kids ensures Kids(h'[k]) == g.kids[k] && Apart(h'[k]) && Typed(h', h'[k]) {
      if k != o {
        TypedSurvives(h, h', h[k], h'[k]);
      }
    }
  }

  /** A record takes over a handle on a record nobody owns. */
  lemma GivenCoupled(h: Heap, roots: set<Root>, f: Forest, next: Id, o: Id, id: Id, n: Node)
    requires Coupled(h, roots, f, next, {}) && o in f.kids && o < id && CanRelease(f, {id}) && !Owned(f, id)
    requires o in h && n.nref == h[o].nref && (n.ValueNode? <==> h[o].ValueNode?)
    requires n.ValueNode? ==> n.wrapped == h[o].wrapped && n.chars == h[o].chars
    requires Kids(n) == Kids(h[o]) + {id} && Apart(n) && Typed(h, n)
    ensures Coupled(h[o := n], roots, Given(f, o, id), next, {})
  {
    hide Refs, Full, Owned, RootsExact, Kids, Apart, Typed, Counted;
    var h', g := h[o := n], Given(f, o, id);
    GivenIsWellFormed(f, o, id);
    GivenCounted(h, f, o, id, n);
    RootsEdit(h, roots, o, n);
    EditTied(h, f, g, o, n);
    hide Tied;
  }

  lemma GivenCounted(h: Heap, f: Forest, o: Id, id: Id, n: Node)
    requires WellFormed(f) && Counted(h, f) && o in f.kids && o < id && CanRelease(f, {id}) && !Owned(f, id)
    requires o in h && n.nref == h[o].nref
    ensures Counted(h[o := n], Given(f, o, id))
  {
    GivenIsWellFormed(f, o, id);
    hide Refs, Full, Owned;
  }

  lemma HoldCounted(h: Heap, f: Forest, x: Id)
    requires Shaped(f) && Counted(h, f) && x in f.kids && x in h
    ensures Counted(h[x := Recount(h[x], h[x].nref + 1)], Hold(f, {x}))
  {
    var h', g := h[x := Recount(h[x], h[x].nref + 1)], Hold(f, {x});
    assert forall o, k :: Owns(g, o, k) <==> Owns(f, o, k);
    forall k | k in f.held && k in h ensures h'[k].nref == Refs(g, k) {
      assert h[k].nref == Refs(f, k);
      assert Owned(g, k) <==> Owned(f, k) by {
        if Owned(f, k) {
          var o :| Owns(f, o, k);
          assert Owns(g, o, k);
        }
      }
    }
  }

  /** nref++: one handle more. */
  lemma HoldCoupled(h: Heap, roots: set<Root>, f: Forest, next: Id, x: Id)
    requires Coupled(h, roots, f, next, {}) && x in f.kids && x in h
    ensures Coupled(h[x := Recount(h[x], h[x].nref + 1)], roots, Hold(f, {x}), next, {})
  {
    hide Refs, Full, Owned, RootsExact, Kids, Apart, Typed, Counted;
    var h', g := h[x := Recount(h[x], h[x].nref + 1)], Hold(f, {x});
    HoldIsWellFormed(f, {x});
    HoldCounted(h, f, x);
    RootsAlike(h, h', roots);
    TiedSurvives(h, h', f, g, {}, {});
    hide Tied;
  }

  lemma RootsOfText(h: Heap, roots: set<Root>, v: Id, n: Node)
    requires RootsExact(h, roots) && IsValue(h, v) && n.ValueNode? && n.wrapped == h[v].wrapped
    ensures RootsExact(h[v := n],
      if n.chars.Some? && !n.wrapped.Text? then roots + {StringRoot(v)} else roots - {StringRoot(v)})
  {
  }

  lemma PointersKept(h: Heap, m: Node, n: Node)
    requires m.ValueNode? && n.ValueNode? && n == m.(chars := n.chars, flags := n.flags)
    ensures Kids(n) == Kids(m) && (Apart(n) <==> Apart(m)) && (Typed(h, n) <==> Typed(h, m))
  {
    assert forall s: Slot :: Get(n, s) == Get(m, s);
  }

  /** Changing the flags or the cached string of a value. */
  lemma EditCoupled(h: Heap, roots: set<Root>, f: Forest, next: Id, v: Id, n: Node)
    requires Coupled(h, roots, f, next, {}) && IsValue(h, v) && n.ValueNode?
    requires n == h[v].(chars := n.chars, flags := n.flags)
    ensures Coupled(h[v := n],
      (if n.chars.Some? && !n.wrapped.Text? then roots + {StringRoot(v)} else roots - {StringRoot(v)}), f, next, {})
  {
    hide Refs, Full, Owned, RootsExact, Kids, Apart, Typed;
    RootsOfText(h, roots, v, n);
    PointersKept(h, h[v], n);
    EditTied(h, f, f, v, n);
    hide Tied;
  }

  /** The heap is determined by the forest and the fields of the records. */
  lemma HeapIsDetermined(h: Heap, roots: set<Root>, h': Heap, roots': set<Root>, f: Forest, next: Id, next': Id)
    requires Coupled(h, roots, f, next, {}) && Coupled(h', roots', f, next', {}) && Survive(h, h')
    ensures h == h' && roots == roots'
  {
    hide Refs, Full, Tied, Rooted;
    assert forall id :: id in h <==> id in h';
    assert forall id | id in h :: h[id] == h'[id];
    assert h == h';
    assert forall r: Root :: r in roots <==> r in roots';
  }

  /** The value nodes and pointers that a new pointer brings. */
  lemma PutSome(h: Heap, n: Node, s: Slot, x: Id)
    requires HasSlot(n, s) && Get(n, s).None? && x !in Kids(n) && IsValue(h, x) && Apart(n) && Typed(h, n)
    ensures var n' := Put(n, s, Some(x)); Kids(n') == Kids(n) + {x} && Apart(n') && Typed(h, n')
  {
    var n' := Put(n, s, Some(x));
    assert forall t: Slot | t != s :: Get(n', t) == Get(n, t);
  }

  /** A property is appended to the list of a value. */
  lemma Appended(h: Heap, n: Node, p: Id)
    requires n.ValueNode? && p !in Kids(n) && IsProp(h, p) && Apart(n) && Typed(h, n)
    ensures var n' := n.(props := n.props + [p]); Kids(n') == Kids(n) + {p} && Apart(n') && Typed(h, n')
  {
    var n' := n.(props := n.props + [p]);
    assert forall t: Slot :: Get(n', t) == Get(n, t);
    assert forall i | 0 <= i < |n.props| :: n.props[i] in Kids(n);
  }

  /** What is known about a record that is not busy. */
  lemma RecordIs(h: Heap, roots: set<Root>, f: Forest, next: Id, v: Id)
    requires Coupled(h, roots, f, next, {}) && v in h
    ensures v in f.kids && v in f.held && Kids(h[v]) == f.kids[v] && Apart(h[v]) && Typed(h, h[v]) && v < next
    ensures forall k | k in Kids(h[v]) :: k in h && v < k < next
    ensures Shaped(f) && h[v].nref == Refs(f, v)
  {
    KidsLive(f);
  }

  lemma RefsOpened(f: Forest, v: Id, ks: set<Id>)
    requires WellFormed(f) && v in f.kids && ks <= f.kids[v]
    ensures forall k | k in f.held :: Refs(Opened(f, v, ks), k) == Refs(f, k)
  {
    var g := Opened(f, v, ks);
    forall k | k in f.held ensures Refs(g, k) == Refs(f, k) {
      if k in ks {
        assert Owns(f, v, k);
        assert forall o :: Owns(g, o, k) ==> Owns(f, o, k) && o != v;
      } else {
        assert forall o :: Owns(g, o, k) <==> Owns(f, o, k);
        RefsSame(f, g, k);
      }
    }
  }

  lemma OpenedIs(f: Forest, v: Id, ks: set<Id>)
    requires v in f.kids
    ensures Opened(f, v, ks).kids == f.kids[v := f.kids[v] - ks] && Opened(f, v, ks).held.Keys == f.held.Keys
  {
  }

  /** A live value starts giving up what it points to. */
  lemma OpenCoupled(h: Heap, roots: set<Root>, f: Forest, next: Id, v: Id)
    requires Coupled(h, roots, f, next, {}) && v in h
    ensures v in f.kids && Kids(h[v]) == f.kids[v]
    ensures Coupled(h, roots, Opened(f, v, Kids(h[v])), next, {v})
    ensures Pending(h, Opened(f, v, Kids(h[v])), {v}, v)
  {
    hide Refs, Full, Owned, RootsExact, Kids, Apart, Typed, Tied;
    RecordIs(h, roots, f, next, v);
    OpenedIsWellFormed(f, v, f.kids[v]);
    RefsOpened(f, v, f.kids[v]);
    OpenTied(h, f, v);
  }

  lemma OpenTied(h: Heap, f: Forest, v: Id)
    requires Tied(h, f, {}) && v in f.kids && Shaped(Opened(f, v, f.kids[v])) && f.kids.Keys <= h.Keys
    ensures Tied(h, Opened(f, v, f.kids[v]), {v})
  {
    hide Shaped, Tied, Kids, Apart, Typed;
    TiedSurvives(h, h, f, Opened(f, v, f.kids[v]), {}, {v});
  }

  /** A busy value has its claims back. */
  lemma CloseCoupled(h: Heap, roots: set<Root>, f: Forest, next: Id, v: Id)
    requires WellFormed(f) && v in h && v in f.kids && Kids(h[v]) == f.kids[v] && Apart(h[v]) && Typed(h, h[v])
    requires Coupled(h, roots, Opened(f, v, f.kids[v]), next, {v})
    ensures Coupled(h, roots, f, next, {})
  {
    hide Full, Refs, Owned, RootsExact, Kids, Apart, Typed, Opened, WellFormed;
    RefsOpened(f, v, f.kids[v]);
    OpenedIs(f, v, f.kids[v]);
    ShapeOf(f);
  }

  /** A forest, and besides it p, held once, with what it owns and nobody holds. */
  ghost predicate Under(f: Forest, g: Forest, p: Id) {
    Shaped(g) && p !in f.kids && CanRelease(g, {p}) && Besides(f, Release(g, {p}))
  }

  lemma UnderBorn(f: Forest, p: Id)
    requires WellFormed(f) && forall k | k in f.kids :: k < p
    ensures Under(f, Born(f, p), p) && !Owned(Born(f, p), p)
  {
    BornIsWellFormed(f, p);
    NotOwnedYet(f, p);
  }

  lemma UnderAdopted(f: Forest, g: Forest, p: Id, x: Id)
    requires Under(f, g, p) && Shaped(Adopted(g, p, x)) && p in g.kids && x !in g.kids && x !in g.held
    requires !Owned(g, p)
    ensures Under(f, Adopted(g, p, x), p) && !Owned(Adopted(g, p, x), p)
  {
    hide Shaped;
    var a := Adopted(g, p, x);
    assert forall o :: Owns(a, o, p) ==> Owns(g, o, p);
    assert Release(a, {p}) == Adopted(Release(g, {p}), p, x);
    BesidesAdopted(f, Release(g, {p}), p, x);
  }

  lemma BesidesAdopted(f: Forest, g: Forest, p: Id, x: Id)
    requires Besides(f, g) && p !in f.kids && p in g.kids && x !in g.kids && x !in g.held
    ensures Besides(f, Adopted(g, p, x))
  {
  }

  lemma UnderUndone(f: Forest, g: Forest, p: Id)
    requires Under(f, g, p) && WellFormed(f)
    ensures Dropped(g, p) == f
  {
    ReleaseKeepsShape(g, {p});
    PruneUndoes(f, Release(g, {p}));
  }

  lemma NotOwnedYet(f: Forest, x: Id)
    requires Shaped(f) && x !in f.kids
    ensures !Owned(Born(f, x), x)
  {
    assert forall o :: Owns(Born(f, x), o, x) ==> Owns(f, o, x);
  }

  /**
   Properties have a name and a value, the flags of values tell which pointers may be set, and the
   cached string of a value that is a string is that string.
   */
  predicate Complete(n: Node) {
    && Flagged(n) && (n.PropNode? ==> n.value.Some? && n.name.Some?)
    && (n.ValueNode? && n.wrapped.Text? && n.chars.Some? ==> n.chars.value == n.wrapped.chars)
  }

  /** A complete record without a cached string. */
  predicate Unread(n: Node) {
    Complete(n) && (n.ValueNode? ==> n.chars.None?)
  }

  predicate AllComplete(h: Heap) {
    forall id | id in h :: Complete(h[id])
  }

  function FreshValue(val: JSVal): Node {
    ValueNode(1, val, [], None, None, None, None, {})
  }

  lemma FreshIsBlank(val: JSVal)
    ensures IsBlank(FreshValue(val))
  {
  }

  lemma InForest(h: Heap, roots: set<Root>, f: Forest, next: Id, x: Id)
    requires Coupled(h, roots, f, next, {})
    ensures x in h <==> x in f.kids
    ensures x in h <==> x in f.held
  {
  }

  lemma FreshId(h: Heap, roots: set<Root>, f: Forest, next: Id)
    requires Coupled(h, roots, f, next, {})
    ensures next !in h && next !in f.kids && WellFormed(f) && Shaped(f) && forall k | k in f.kids :: k < next
  {
  }

  // ---------- Properties under construction ----------

  /** JSPropertyDesc. */
  datatype PropDesc = PropDesc(id: JSVal, value: JSVal, alias: JSVal, attrs: set<PropFlag>, slot: int)

  /** What jsd_GetValueProperty learns of a property that is in no list. */
  datatype Found = Got(value: JSVal) | Threw(exception: JSVal) | Broken

  function ValueFound(found: Found): JSVal {
    match found
    case Got(value) => value
    case Threw(exception) => exception
    case Broken => VOID
  }

  /**
   Its flags, for the engine's attributes: the chain of conditional operators takes the first of them
   only.  When there is a value they are added to what happens to stand in the unset field.
   */
  function FlagsFound(found: Found, attrs: set<PropFlag>, stray: set<PropFlag>): set<PropFlag> {
    var before := match found case Got(_) => stray case Threw(_) => {Thrown} case Broken => {Failed};
    before + (if Enumerable in attrs then {Enumerable}
              else if ReadOnly in attrs then {ReadOnly}
              else if Permanent in attrs then {Permanent} else {})
  }

  /** The description that jsd_GetValueProperty makes up, with JSDPD_HINTED added by _newProperty. */
  function DescFound(name: seq<Code>, found: Found, attrs: set<PropFlag>, stray: set<PropFlag>): PropDesc {
    PropDesc(Text(name), ValueFound(found), Null, FlagsFound(found, attrs, stray) + {Hinted}, 0)
  }

  /** The property that jsd_GetValueProperty makes up has the value the engine has found, and says how. */
  predicate Hinting(h: Heap, p: Id, name: seq<Code>, found: Found, attrs: set<PropFlag>, stray: set<PropFlag>) {
    && IsProp(h, p) && h[p].slot == 0
    && (if found.Got? && Aliased in stray then Wraps(h, h[p].alias, Null) else h[p].alias.None?)
    && Wraps(h, h[p].name, Text(name))
    && (match found
        case Got(value) => Wraps(h, h[p].value, value)
        case Threw(exception) => Wraps(h, h[p].value, exception)
        case Broken => Wraps(h, h[p].value, Plain(0x8000_0001)))
    && Hinted in h[p].attrs
    && (Thrown in h[p].attrs <==> found.Threw? || (found.Got? && Thrown in stray))
    && (Failed in h[p].attrs <==> found.Broken? || (found.Got? && Failed in stray))
    && (Enumerable in h[p].attrs <==> Enumerable in attrs || (found.Got? && Enumerable in stray))
    && (ReadOnly in h[p].attrs <==>
          (ReadOnly in attrs && Enumerable !in attrs) || (found.Got? && ReadOnly in stray))
    && (Permanent in h[p].attrs <==>
          (Permanent in attrs && ReadOnly !in attrs && Enumerable !in attrs) || (found.Got? && Permanent in stray))
  }

  lemma HintIs(h: Heap, p: Id, name: seq<Code>, found: Found, attrs: set<PropFlag>, stray: set<PropFlag>)
    requires Describes(h, p, DescFound(name, found, attrs, stray))
    ensures Hinting(h, p, name, found, attrs, stray)
  {
  }

  /** But for strays, the engine's attributes all arrive if and only if there is at most one. */
  lemma FlagsFoundExactly(found: Found, attrs: set<PropFlag>)
    requires attrs <= {Enumerable, ReadOnly, Permanent}
    ensures attrs <= FlagsFound(found, attrs, {}) <==> forall x, y | x in attrs && y in attrs :: x == y
  {
  }

  /** A property that is enumerable and permanent is reported as enumerable only. */
  lemma PermanentIsLost(value: JSVal)
    ensures FlagsFound(Got(value), {Enumerable, Permanent}, {}) == {Enumerable}
  {
  }

  predicate Wraps(h: Heap, id: Option<Id>, val: JSVal) {
    id.Some? && IsValue(h, id.value) && h[id.value].wrapped == val
  }

  predicate Describes(h: Heap, p: Id, d: PropDesc) {
    && IsProp(h, p) && Wraps(h, h[p].name, d.id) && Wraps(h, h[p].value, d.value)
    && (if Aliased in d.attrs then Wraps(h, h[p].alias, d.alias) else h[p].alias.None?)
    && h[p].attrs == d.attrs && h[p].slot == d.slot
  }

  /** The old records are as they were. */
  predicate Extends(h: Heap, h': Heap) {
    forall id | id in h :: id in h' && h'[id] == h[id]
  }

  predicate NewComplete(h: Heap, h': Heap) {
    forall id | id in h' && id !in h :: Unread(h'[id])
  }

  /** The heap above h0 while the property p is under construction. */
  predicate OnTop(h0: Heap, h: Heap, p: Id) {
    && Extends(h0, h) && p !in h0 && IsProp(h, p)
    && forall id | id in h && id !in h0 && id != p :: Unread(h[id])
  }

  /** A property p is under construction on top of the heap h0 and the forest f0. */
  ghost predicate Making(h0: Heap, h: Heap, f0: Forest, f: Forest, p: Id) {
    Under(f0, f, p) && !Owned(f, p) && OnTop(h0, h, p)
  }

  lemma MakingStarts(h0: Heap, roots: set<Root>, f0: Forest, p: Id, blank: Node)
    requires Coupled(h0, roots, f0, p, {}) && blank.PropNode?
    ensures Making(h0, h0[p := blank], f0, Born(f0, p), p)
  {
    hide Coupled, Under, Owned, Born;
    FreshId(h0, roots, f0, p);
    UnderBorn(f0, p);
  }

  /** A new value in a field of a record. */
  function WithNew(h: Heap, o: Id, slot: Slot, x: Id, val: JSVal): Heap
    requires o in h && HasSlot(h[o], slot)
  {
    h[x := FreshValue(val)][o := Put(h[o], slot, Some(x))]
  }

  lemma OnTopStep(h0: Heap, h: Heap, p: Id, slot: Slot, x: Id, val: JSVal)
    requires OnTop(h0, h, p) && HasSlot(h[p], slot) && x !in h
    ensures OnTop(h0, WithNew(h, p, slot, x, val), p)
  {
  }

  lemma MakingStep(h0: Heap, h: Heap, f0: Forest, f: Forest, p: Id, slot: Slot, x: Id, val: JSVal,
                   roots: set<Root>, roots': set<Root>, next: Id)
    requires Making(h0, h, f0, f, p) && HasSlot(h[p], slot) && x !in h && Coupled(h, roots, f, x, {})
    requires p in f.kids && Coupled(WithNew(h, p, slot, x, val), roots', Adopted(f, p, x), next, {})
    ensures Making(h0, WithNew(h, p, slot, x, val), f0, Adopted(f, p, x), p)
  {
    hide Coupled, Under, Owned, WellFormed, Shaped, Adopted, WithNew;
    InForest(h, roots, f, x, x);
    OnTopStep(h0, h, p, slot, x, val);
    FreshId(WithNew(h, p, slot, x, val), roots', Adopted(f, p, x), next);
    hide OnTop;
    UnderAdopted(f0, f, p, x);
  }

  lemma MakingDone(h0: Heap, h: Heap, f0: Forest, f: Forest, p: Id)
    requires Making(h0, h, f0, f, p)
    ensures IsProp(h, p) && Complete(h[p]) ==> NewComplete(h0, h)
  {
  }

  /** Dropping a property under construction takes back everything. */
  lemma MakingUndone(h0: Heap, roots: set<Root>, h: Heap, f0: Forest, f: Forest, p: Id, next: Id)
    requires Making(h0, h, f0, f, p) && Coupled(h0, roots, f0, next, {})
    ensures CanRelease(f, {p}) && p in f.held && Dropped(f, p) == f0 && Extends(h0, h) && IsProp(h, p)
  {
    FreshId(h0, roots, f0, next);
    UnderUndone(f0, f, p);
  }

  /** What a failed construction made is gone, and everything else is as it was. */
  lemma UndoneHeap(h: Heap, roots: set<Root>, h1: Heap, h': Heap, roots': set<Root>, f: Forest, next: Id, next': Id)
    requires Coupled(h, roots, f, next, {}) && Coupled(h', roots', f, next', {})
    requires Extends(h, h1) && Survive(h1, h')
    ensures h == h' && roots == roots'
  {
    forall id | id in h' ensures id in h && Same(h[id], h'[id]) {
      InForest(h, roots, f, next, id);
      InForest(h', roots', f, next', id);
    }
    HeapIsDetermined(h, roots, h', roots', f, next, next');
  }

  lemma CompleteStays(h: Heap, h': Heap)
    requires Survive(h, h')
    ensures AllComplete(h) ==> AllComplete(h')
  {
  }

  // ---------- Listing the properties of a value ----------

  /** The forest has grown below v by ps and what they own, which nobody holds. */
  ghost predicate Sprouted(f0: Forest, f: Forest, v: Id, ps: set<Id>) {
    && v in f0.kids && f0.kids.Keys <= f.kids.Keys && f0.held.Keys <= f.held.Keys && ps !! f0.kids.Keys
    && (forall id | id in f0.kids && id != v :: f.kids[id] == f0.kids[id])
    && f.kids[v] == f0.kids[v] + ps
    && (forall id | id in f0.held :: f.held[id] == f0.held[id])
    && (forall id | id in f.held && id !in f0.held :: f.held[id] == 0)
  }

  /** The heap has grown by the properties ps of v, which had none. */
  predicate Listed(h0: Heap, h: Heap, v: Id, ps: seq<Id>) {
    && IsValue(h0, v) && h0[v].props == [] && IsValue(h, v)
    && h[v] == h0[v].(props := ps, flags := h[v].flags)
    && (forall id | id in h0 && id != v :: id in h && h[id] == h0[id])
    && NewComplete(h0, h)
  }

  predicate DescribesAll(h: Heap, ps: seq<Id>, ds: seq<PropDesc>) {
    |ps| <= |ds| && forall i | 0 <= i < |ps| :: Describes(h, ps[i], ds[i])
  }

  lemma SproutedStep(f0: Forest, f: Forest, f1: Forest, v: Id, ps: set<Id>, p: Id)
    requires Sprouted(f0, f, v, ps) && Under(f, f1, p) && v in f1.kids && Shaped(f)
    ensures Sprouted(f0, Given(f1, v, p), v, ps + {p}) && p !in f.kids
  {
  }

  lemma ListedStep(h0: Heap, h: Heap, h1: Heap, v: Id, ps: seq<Id>, p: Id, ds: seq<PropDesc>)
    requires Listed(h0, h, v, ps) && Extends(h, h1) && NewComplete(h, h1) && IsProp(h1, p)
    requires DescribesAll(h, ps, ds) && |ps| < |ds| && Describes(h1, p, ds[|ps|])
    ensures IsValue(h1, v) && h1[v].props == ps
    ensures var h2 := h1[v := h1[v].(props := ps + [p])];
      Listed(h0, h2, v, ps + [p]) && DescribesAll(h2, ps + [p], ds)
  {
    var h2 := h1[v := h1[v].(props := ps + [p])];
    forall i | 0 <= i < |ps| + 1 ensures Describes(h2, (ps + [p])[i], ds[i]) {
      if i < |ps| {
        assert Describes(h, ps[i], ds[i]);
      }
    }
  }

  /** When the list is given up again, pruning leaves the forest from before, with v still open. */
  lemma SproutedUndone(f0: Forest, f: Forest, v: Id, ps: set<Id>)
    requires WellFormed(f0) && WellFormed(f) && Sprouted(f0, f, v, ps)
    ensures CanRelease(Opened(f, v, f.kids[v]), ps) && f.kids[v] - f0.kids[v] == ps
    ensures Pruned(Release(Opened(f, v, f.kids[v]), ps)) == Opened(f0, v, f0.kids[v])
  {
    hide Full, Pruned, Opened, Shaped, Besides;
    ShapeOf(f0);
    ShapeOf(f);
    OpenedIsWellFormed(f, v, f.kids[v]);
    OpenedIsWellFormed(f0, v, f0.kids[v]);
    KidsLive(f0);
    assert f.kids[v] - f0.kids[v] == ps;
    var g := Opened(f, v, f.kids[v]);
    ShapeOf(g);
    ReleaseKeepsShape(g, ps);
    OpenedBesides(f0, f, v, ps);
    PruneUndoes(Opened(f0, v, f0.kids[v]), Release(g, ps));
  }

  /** Opened, the larger forest has nothing held that the smaller one lacks, but the list. */
  lemma OpenedBesides(f0: Forest, f: Forest, v: Id, ps: set<Id>)
    requires Sprouted(f0, f, v, ps) && f0.kids[v] <= f0.kids.Keys && f0.kids.Keys == f0.held.Keys
    requires f.kids.Keys == f.held.Keys && CanRelease(Opened(f, v, f.kids[v]), ps)
    ensures Besides(Opened(f0, v, f0.kids[v]), Release(Opened(f, v, f.kids[v]), ps))
  {
  }

  lemma SurvivesUndone(h0: Heap, h1: Heap, h': Heap, v: Id, ps: seq<Id>)
    requires Listed(h0, h1, v, ps) && SurviveBut(h1, h', v) && v in h' && h1[v].flags == h0[v].flags
    requires GotProps !in h0[v].flags
    requires h'[v] == h1[v].(nref := h'[v].nref, props := [], flags := h1[v].flags - {GotProps})
    requires forall id | id in h' :: id in h0
    ensures Survive(h0, h') && Kids(h'[v]) == Kids(h0[v])
  {
  }

  /** When a half-built list is freed, the claims that v is left with are those it had before. */
  lemma ListUndone(h0: Heap, roots0: set<Root>, f0: Forest, next0: Id, h1: Heap, f1: Forest, ps: seq<Id>,
                   h': Heap, roots': set<Root>, f': Forest, next: Id, v: Id)
    requires Coupled(h0, roots0, f0, next0, {}) && WellFormed(f1) && Listed(h0, h1, v, ps)
    requires Sprouted(f0, f1, v, Elements(ps)) && Kids(h1[v]) == f1.kids[v]
    requires Working(h', roots', f', next, {v}, v, Opened(f1, v, f1.kids[v]), f1.kids[v])
    requires h'[v] == h1[v].(nref := h'[v].nref, props := [], flags := h1[v].flags - {GotProps})
    ensures WellFormed(f0) && v in h' && v in f0.kids
    ensures Kids(h'[v]) == Kids(h0[v]) == f0.kids[v] && f' == Opened(f0, v, f0.kids[v])
    ensures Apart(h'[v]) && Typed(h', h'[v]) && Coupled(h', roots', f', next, {v})
  {
    hide Full, Refs, Tied, RootsExact;
    RecordIs(h0, roots0, f0, next0, v);
    FreshId(h0, roots0, f0, next0);
    SproutedUndone(f0, f1, v, Elements(ps));
    assert Kids(h'[v]) == Kids(h0[v]);
  }

  /** Once the list is freed, everything is as it was before. */
  lemma ListGone(h0: Heap, roots0: set<Root>, f0: Forest, next0: Id, h1: Heap, f1: Forest, ps: seq<Id>,
                 h': Heap, roots': set<Root>, f': Forest, next: Id, v: Id)
    requires Coupled(h0, roots0, f0, next0, {}) && WellFormed(f1) && Listed(h0, h1, v, ps)
    requires Sprouted(f0, f1, v, Elements(ps)) && Kids(h1[v]) == f1.kids[v] && h1[v].flags == h0[v].flags
    requires Working(h', roots', f', next, {v}, v, Opened(f1, v, f1.kids[v]), f1.kids[v])
    requires SurviveBut(h1, h', v) && GotProps !in h0[v].flags
    requires h'[v] == h1[v].(nref := h'[v].nref, props := [], flags := h1[v].flags - {GotProps})
    ensures Coupled(h', roots', f0, next, {}) && h' == h0 && roots' == roots0
  {
    hide Coupled, Working, Pruned, Apart, Typed, Kids, Opened, Sprouted, WellFormed;
    FreshId(h0, roots0, f0, next0);
    ListUndone(h0, roots0, f0, next0, h1, f1, ps, h', roots', f', next, v);
    CloseCoupled(h', roots', f0, next, v);
    forall id | id in h' ensures id in h0 {
      InForest(h', roots', f0, next, id);
      InForest(h0, roots0, f0, next0, id);
    }
    SurvivesUndone(h0, h1, h', v, ps);
    HeapIsDetermined(h0, roots0, h', roots', f0, next0, next);
  }

  /** A finished property is appended to the list of a value. */
  lemma AppendCoupled(h: Heap, f: Forest, h1: Heap, roots: set<Root>, f1: Forest, next: Id, v: Id, p: Id,
                      roots': set<Root>, next': Id)
    requires Coupled(h, roots, f, next, {}) && IsValue(h, v) && p !in h
    requires Making(h, h1, f, f1, p) && Coupled(h1, roots', f1, next', {}) && v < p
    ensures v in f1.kids && IsValue(h1, v) && CanRelease(f1, {p})
    ensures Coupled(h1[v := h1[v].(props := h1[v].props + [p])], roots', Given(f1, v, p), next', {})
  {
    RecordIs(h, roots, f, next, v);
    RecordIs(h1, roots', f1, next', v);
    assert p !in Kids(h1[v]);
    assert !Owned(f1, p) && CanRelease(f1, {p}) && IsProp(h1, p);
    hide Coupled, Making, Kids, Apart, Typed, Owned;
    Appended(h1, h1[v], p);
    GivenCoupled(h1, roots', f1, next', v, p, h1[v].(props := h1[v].props + [p]));
  }

  lemma NothingListed(h: Heap, roots: set<Root>, f: Forest, next: Id, v: Id)
    requires Coupled(h, roots, f, next, {}) && IsValue(h, v) && h[v].props == []
    ensures Listed(h, h, v, []) && Sprouted(f, f, v, Elements([])) && v < next
  {
  }

  lemma ListedComplete(h0: Heap, h: Heap, v: Id, ps: seq<Id>)
    requires Listed(h0, h, v, ps) && AllComplete(h0)
    ensures AllComplete(h[v := h[v].(flags := h0[v].flags + {GotProps})])
  {
  }

  lemma MoreElements(s: seq<Id>, k: Id)
    ensures Elements(s + [k]) == Elements(s) + {k}
  {
  }

  lemma MakingIs(h0: Heap, h: Heap, f0: Forest, f: Forest, p: Id)
    requires Making(h0, h, f0, f, p)
    ensures Under(f0, f, p) && !Owned(f, p) && CanRelease(f, {p}) && IsProp(h, p) && p !in h0 && Extends(h0, h)
  {
  }

  lemma DescribesNone(h: Heap, ds: seq<PropDesc>)
    ensures DescribesAll(h, [], ds)
  {
  }

  /** Flags and cached strings do not matter for the descriptions. */
  lemma DescribesSame(h: Heap, h': Heap, v: Id, ps: seq<Id>, ds: seq<PropDesc>)
    requires DescribesAll(h, ps, ds) && IsValue(h, v) && IsValue(h', v) && h[v].wrapped == h'[v].wrapped
    requires h'.Keys == h.Keys && forall id | id in h && id != v :: h'[id] == h[id]
    ensures DescribesAll(h', ps, ds)
  {
  }

  lemma DescribesRecount(h: Heap, p: Id, nref: int, ps: seq<Id>, ds: seq<PropDesc>)
    requires DescribesAll(h, ps, ds) && p in h
    ensures DescribesAll(h[p := Recount(h[p], nref)], ps, ds)
  {
    var h' := h[p := Recount(h[p], nref)];
    forall i | 0 <= i < |ps| ensures Describes(h', ps[i], ds[i]) {
      assert Describes(h, ps[i], ds[i]);
    }
  }

  lemma TextRootIs(h: Heap, roots: set<Root>, f: Forest, next: Id, v: Id)
    requires Coupled(h, roots, f, next, {}) && IsValue(h, v)
    ensures roots == if h[v].chars.Some? && !h[v].wrapped.Text? then roots + {StringRoot(v)}
                     else roots - {StringRoot(v)}
  {
    assert StringRoot(v) in roots <==> Rooted(h, StringRoot(v));
  }

  // ---------- Refreshing a live value ----------

  /** A value that owns nothing any more is closed. */
  lemma CloseEmpty(h: Heap, roots: set<Root>, f: Forest, next: Id, v: Id)
    requires Coupled(h, roots, f, next, {v}) && v in h && v in f.kids && f.kids[v] == {} && Kids(h[v]) == {}
    ensures Coupled(h, roots, f, next, {})
  {
    OpenedNothing(f, v);
    NothingIsRight(h, h[v]);
    hide Coupled, Apart, Typed, Opened;
    FreshIdBusy(h, roots, f, next, v);
    CloseCoupled(h, roots, f, next, v);
  }

  lemma NothingIsRight(h: Heap, n: Node)
    requires Kids(n) == {}
    ensures Apart(n) && Typed(h, n)
  {
    assert forall s: Slot | Get(n, s).Some? :: Get(n, s).value in Kids(n);
    if n.ValueNode? && n.props != [] {
      PropIsKid(n);
    }
  }

  lemma FreshIdBusy(h: Heap, roots: set<Root>, f: Forest, next: Id, v: Id)
    requires Coupled(h, roots, f, next, {v})
    ensures WellFormed(f)
  {
  }

  lemma OpenedNothing(f: Forest, v: Id)
    requires v in f.kids && f.kids[v] == {}
    ensures Opened(f, v, {}) == f
  {
    assert f.kids[v] - {} == f.kids[v];
    assert Opened(f, v, {}).kids == f.kids;
    assert Opened(f, v, {}).held == f.held;
  }

  /** The forest without what a value owned: the value itself stays. */
  lemma RefreshedForest(f: Forest, v: Id)
    requires WellFormed(f) && v in f.kids
    ensures CanRelease(Opened(f, v, f.kids[v]), f.kids[v])
    ensures Pruned(Release(Opened(f, v, f.kids[v]), f.kids[v])) == Refreshed(f, v)
    ensures v in Refreshed(f, v).kids && Refreshed(f, v).kids[v] == {}
  {
    OpenedIsWellFormed(f, v, f.kids[v]);
    AllAnchored(f, v);
    DisownedStays(f, v, f.kids[v], v);
  }

  /** A value gives up everything it owns, and what that makes unreachable is gone. */
  ghost function Refreshed(f: Forest, v: Id): Forest
    requires v in f.kids
  {
    Pruned(Disowned(f, v, f.kids[v]))
  }

  lemma CompleteBut(h: Heap, h': Heap, v: Id)
    requires AllComplete(h) && SurviveBut(h, h', v) && (v in h' ==> Complete(h'[v]))
    ensures AllComplete(h')
  {
  }

  // ---------- Walking the list ----------

  /** Where a walk over the properties of a value stands: not begun, at a property, or at the list head. */
  datatype Cursor = Unset | At(p: Id) | Over

  function Find(ps: seq<Id>, p: Id): (i: nat)
    ensures i <= |ps|
    ensures i < |ps| ==> ps[i] == p
    ensures p in ps ==> i < |ps|
  {
    if ps == [] || ps[0] == p then 0 else 1 + Find(ps[1..], p)
  }

  function Position(ps: seq<Id>, c: Cursor): (i: nat)
    ensures i <= |ps|
  {
    match c
    case Unset => 0
    case At(p) => Find(ps, p)
    case Over => |ps|
  }

  function CursorAt(ps: seq<Id>, i: nat): Cursor {
    if i < |ps| then At(ps[i]) else Over
  }

  lemma CursorRoundTrip(ps: seq<Id>, i: nat)
    requires i <= |ps| && forall j, k | 0 <= j < k < |ps| :: ps[j] != ps[k]
    ensures Position(ps, CursorAt(ps, i)) == i
  {
  }

  /** The client has the handles it had, and one more on got. */
  predicate Ledger(f0: Forest, f: Forest, got: Option<Id>) {
    && f0.held.Keys <= f.held.Keys
    && (forall id | id in f.held ::
          f.held[id] == (if id in f0.held then f0.held[id] else 0) + (if got == Some(id) then 1 else 0))
    && (got.Some? ==> got.value in f.held)
  }

  lemma SproutedLedger(f0: Forest, f: Forest, v: Id, ps: set<Id>)
    requires Sprouted(f0, f, v, ps)
    ensures Ledger(f0, f, None)
  {
  }

  lemma HeldLedger(f0: Forest, f: Forest, x: Id)
    requires Ledger(f0, f, None) && x in f.held
    ensures Ledger(f0, Hold(f, {x}), Some(x))
  {
  }

  lemma LedgerStarts(f: Forest)
    ensures Ledger(f, f, None)
  {
  }

  /** The list of a value that is not busy. */
  lemma ListIs(h: Heap, roots: set<Root>, f: Forest, next: Id, v: Id)
    requires Coupled(h, roots, f, next, {}) && IsValue(h, v)
    ensures forall i, j | 0 <= i < j < |h[v].props| :: h[v].props[i] != h[v].props[j]
    ensures forall p | p in h[v].props :: IsProp(h, p) && p in f.held && p in f.kids[v] && v in f.kids && v < p
  {
    RecordIs(h, roots, f, next, v);
    forall p | p in h[v].props ensures IsProp(h, p) && p in f.held && p in f.kids[v] && v < p {
      assert p in Kids(h[v]);
      InForest(h, roots, f, next, p);
    }
  }

  lemma LedgerJoins(f0: Forest, f: Forest, f': Forest, got: Option<Id>)
    requires Ledger(f0, f, None) && Ledger(f, f', got)
    ensures Ledger(f0, f', got)
  {
  }

  lemma UnderLedger(f0: Forest, f: Forest, p: Id)
    requires Under(f0, f, p) && Shaped(f0) && Shaped(f)
    ensures Ledger(f0, f, Some(p))
  {
  }

  /** Dropping the handle on a listed property frees nothing. */
  lemma ReleaseLedger(f0: Forest, f: Forest, p: Id, v: Id)
    requires WellFormed(f) && Ledger(f0, f, Some(p)) && Owns(f, v, p)
    ensures CanRelease(f, {p}) && Ledger(f0, Dropped(f, p), None) && Dropped(f, p) == Release(f, {p})
  {
    DropNotLast(f, p);
  }

  /** The cached string of the property's name is the given one. */
  predicate Named(h: Heap, p: Id, name: seq<Code>) {
    IsProp(h, p) && h[p].name.Some? && IsValue(h, h[p].name.value) && h[h[p].name.value].chars == Some(name)
  }

  predicate NoneNamed(h: Heap, ps: seq<Id>, name: seq<Code>) {
    forall p | p in ps :: !Named(h, p, name)
  }

  // ---------- Looking for a name ----------

  /** What jsd_GetValueProperty looks for, and what the engine answers on the way. */
  datatype Query = Query(v: Id, name: seq<Code>, pda: Option<seq<PropDesc>>,
                         shown: JSVal -> Option<seq<Code>>, ample: bool)

  /** The record n had a cached string at the beginning. */
  predicate WasRead(h0: Heap, n: Id) {
    IsValue(h0, n) && h0[n].chars.Some?
  }

  /** The string of a value: itself, or what was cached at the beginning, or what the engine makes of it. */
  function Spelling(h0: Heap, n: Id, wrapped: JSVal, shown: JSVal -> Option<seq<Code>>): Option<seq<Code>> {
    if wrapped.Text? then Some(wrapped.chars) else if WasRead(h0, n) then h0[n].chars else shown(wrapped)
  }

  predicate HasName(h: Heap, p: Id) {
    IsProp(h, p) && h[p].name.Some? && IsValue(h, h[p].name.value)
  }

  function NameOf(h: Heap, p: Id): JSVal
    requires HasName(h, p)
  {
    h[h[p].name.value].wrapped
  }

  /** The name of the property p converts to the one looked for. */
  predicate Spelt(h0: Heap, h: Heap, p: Id, q: Query) {
    HasName(h, p) && Spelling(h0, h[p].name.value, NameOf(h, p), q.shown) == Some(q.name)
  }

  /** The string of its name is made on the way, which may fail when memory is short. */
  predicate MayFail(h0: Heap, h: Heap, p: Id, q: Query) {
    HasName(h, p) && !q.ample && !NameOf(h, p).Text? && !WasRead(h0, h[p].name.value)
  }

  /** The names of the properties ps do not convert to the one looked for. */
  predicate NoneSpelt(h0: Heap, h: Heap, ps: seq<Id>, q: Query) {
    forall p | p in ps :: HasName(h, p) && (Spelt(h0, h, p, q) ==> MayFail(h0, h, p, q))
  }

  /** The property p is the first of ps whose name converts to the one looked for. */
  predicate FirstSpelt(h0: Heap, h: Heap, ps: seq<Id>, p: Id, q: Query) {
    Spelt(h0, h, p, q) && exists i :: 0 <= i < |ps| && ps[i] == p && NoneSpelt(h0, h, ps[..i], q)
  }

  /** Cached strings are what the values convert to. */
  predicate WellRead(h0: Heap, h: Heap, shown: JSVal -> Option<seq<Code>>) {
    forall n | n in h && h[n].ValueNode? && h[n].chars.Some? ::
      h[n].chars == Spelling(h0, n, h[n].wrapped, shown)
  }

  /** When the list has been made meanwhile, its properties are those the engine describes. */
  predicate ListedAs(h0: Heap, h: Heap, q: Query) {
    IsValue(h0, q.v) && IsValue(h, q.v)
    && (GotProps !in h0[q.v].flags && GotProps in h[q.v].flags && q.pda.Some? ==>
          DescribesAll(h, h[q.v].props, q.pda.value))
    && (q.ample && GotProps !in h0[q.v].flags && h0[q.v].wrapped.Object? && q.pda.Some? ==>
          |h[q.v].props| == |q.pda.value|)
  }

  /** The walk is behind the properties ps, none of which it was looking for. */
  predicate Walked(h0: Heap, h: Heap, ps: seq<Id>, q: Query) {
    && IsValue(h, q.v) && NoneNamed(h, ps, q.name) && NoneSpelt(h0, h, ps, q)
    && WellRead(h0, h, q.shown)
  }

  lemma WalkStarts(h0: Heap, q: Query)
    requires AllComplete(h0) && IsValue(h0, q.v)
    ensures Walked(h0, h0, [], q)
  {
    forall n | IsValue(h0, n) && h0[n].chars.Some?
      ensures h0[n].chars == Spelling(h0, n, h0[n].wrapped, q.shown)
    {
      assert Complete(h0[n]);
    }
  }

  /** The same record, but for its count and its cached string. */
  predicate AlikeNode(m: Node, n: Node) {
    if m.PropNode? then n == Recount(m, n.nref) else n.ValueNode? && n == m.(nref := n.nref, chars := n.chars)
  }

  predicate Alike(h: Heap, h': Heap) {
    forall id | id in h :: id in h' && AlikeNode(h[id], h'[id])
  }

  lemma DescribedAlike(h: Heap, h': Heap, p: Id, d: PropDesc)
    requires Alike(h, h') && Describes(h, p, d)
    ensures Describes(h', p, d)
  {
  }

  lemma NameAlike(h: Heap, h': Heap, p: Id)
    requires Alike(h, h') && HasName(h, p)
    ensures HasName(h', p) && h'[p].name == h[p].name && NameOf(h', p) == NameOf(h, p)
  {
  }

  lemma SpeltAlike(h0: Heap, h: Heap, h': Heap, ps: seq<Id>, q: Query)
    requires Alike(h, h') && NoneSpelt(h0, h, ps, q)
    ensures NoneSpelt(h0, h', ps, q)
  {
    forall p | p in ps ensures HasName(h', p) && (Spelt(h0, h', p, q) ==> MayFail(h0, h', p, q)) {
      assert HasName(h, p);
      NameAlike(h, h', p);
      assert Spelt(h0, h, p, q) ==> MayFail(h0, h, p, q);
    }
  }

  lemma ListedAlike(h0: Heap, h: Heap, h': Heap, q: Query)
    requires Alike(h, h') && ListedAs(h0, h, q)
    ensures ListedAs(h0, h', q)
  {
    hide Describes;
    assert AlikeNode(h[q.v], h'[q.v]);
    if q.pda.Some? && DescribesAll(h, h[q.v].props, q.pda.value) {
      forall i | 0 <= i < |h[q.v].props| ensures Describes(h', h[q.v].props[i], q.pda.value[i]) {
        DescribedAlike(h, h', h[q.v].props[i], q.pda.value[i]);
      }
    }
  }

  lemma WalkRecount(h0: Heap, h: Heap, ps: seq<Id>, q: Query, p: Id, nref: int)
    requires Walked(h0, h, ps, q) && ListedAs(h0, h, q) && p in h
    ensures var h' := h[p := Recount(h[p], nref)]; Walked(h0, h', ps, q) && ListedAs(h0, h', q)
  {
    var h' := h[p := Recount(h[p], nref)];
    hide NoneSpelt, ListedAs, Spelling;
    assert Alike(h, h');
    SpeltAlike(h0, h, h', ps, q);
    ListedAlike(h0, h, h', q);
  }

  /** A string is cached on the way. */
  lemma WalkText(h0: Heap, h: Heap, ps: seq<Id>, q: Query, n: Id, chars: Option<seq<Code>>)
    requires Walked(h0, h, ps, q) && ListedAs(h0, h, q) && IsValue(h, n)
    requires chars.Some? ==> chars == Spelling(h0, n, h[n].wrapped, q.shown)
    ensures var h' := h[n := h[n].(chars := chars)];
      NoneSpelt(h0, h', ps, q) && WellRead(h0, h', q.shown) && ListedAs(h0, h', q)
  {
    var h' := h[n := h[n].(chars := chars)];
    hide NoneSpelt, ListedAs, Spelling;
    assert Alike(h, h');
    SpeltAlike(h0, h, h', ps, q);
    ListedAlike(h0, h, h', q);
  }

  /** The string that jsd_GetValueString has made, or found, for a name. */
  lemma StringMade(h0: Heap, h: Heap, p: Id, q: Query, s: Option<seq<Code>>)
    requires HasName(h, p) && WellRead(h0, h, q.shown) && AllComplete(h)
    requires var m := h[h[p].name.value];
      && (m.chars.Some? ==> s == m.chars)
      && (m.chars.None? && m.wrapped.Text? ==> s == Some(m.wrapped.chars))
      && (m.chars.None? && !m.wrapped.Text? && (s.Some? || q.ample) ==> s == q.shown(m.wrapped))
    requires WasRead(h0, h[p].name.value) ==> h[h[p].name.value].chars == h0[h[p].name.value].chars
    ensures s.Some? || !MayFail(h0, h, p, q) ==> s == Spelling(h0, h[p].name.value, NameOf(h, p), q.shown)
  {
    var n := h[p].name.value;
    assert Complete(h[n]);
  }

  lemma OneMoreSpelt(h0: Heap, h: Heap, ps: seq<Id>, p: Id, q: Query)
    requires NoneSpelt(h0, h, ps, q) && HasName(h, p) && (Spelt(h0, h, p, q) ==> MayFail(h0, h, p, q))
    ensures NoneSpelt(h0, h, ps + [p], q)
  {
    hide Spelt, MayFail, HasName;
  }

  /** A name that is the text itself is found whatever happens. */
  lemma TextIsSpelt(h0: Heap, h: Heap, ps: seq<Id>, q: Query)
    requires NoneSpelt(h0, h, ps, q)
    ensures forall p | p in ps && HasName(h, p) :: NameOf(h, p) != Text(q.name)
  {
  }

  /** Something is made that is in no list. */
  lemma WalkExtends(h0: Heap, h: Heap, h': Heap, ps: seq<Id>, q: Query)
    requires Walked(h0, h, ps, q) && ListedAs(h0, h, q) && Extends(h, h') && NewComplete(h, h')
    ensures Walked(h0, h', ps, q) && ListedAs(h0, h', q)
  {
    assert Alike(h, h');
    SpeltAlike(h0, h, h', ps, q);
    ListedAlike(h0, h, h', q);
    hide ListedAs, Spelling;
    forall p | p in ps ensures !Named(h', p, q.name) {
      assert HasName(h, p) && !Named(h, p, q.name);
    }
  }

  /** A new record has no cached string. */
  lemma ReadBefore(h0: Heap, h: Heap, n: Id)
    requires NewComplete(h0, h) && IsValue(h, n) && h[n].chars.Some?
    ensures n in h0
  {
  }

  lemma SeenRead(h0: Heap, h: Heap, v: Id, r: Option<Id>, n: Id)
    requires Seen(h0, h, v, r)
    ensures WasRead(h0, n) ==> IsValue(h, n) && h[n].chars == h0[n].chars
  {
    hide NameIn;
    assert n in h0 ==> SeenAt(h0, h, v, r, n);
  }

  /** The list is made, or was there. */
  lemma WalkListed(h0: Heap, h: Heap, q: Query, r: Option<Id>)
    requires AllComplete(h0) && IsValue(h0, q.v) && IsValue(h, q.v)
    requires Seen(h0, h, q.v, r) && StringsKept(h0, h) && NewComplete(h0, h)
    ensures Walked(h0, h, [], q)
  {
    WalkStarts(h0, q);
    hide ListedAs, Spelling, NameIn;
    forall n | IsValue(h, n) && h[n].chars.Some?
      ensures h[n].chars == Spelling(h0, n, h[n].wrapped, q.shown)
    {
      ReadBefore(h0, h, n);
      assert SeenAt(h0, h, q.v, r, n) && CharsKept(h0[n], h[n]);
      assert h0[n].chars == Spelling(h0, n, h0[n].wrapped, q.shown);
    }
  }

  // ---------- What reading leaves of the records ----------

  /** The record of id is the name of a property in the list of v. */
  predicate NameIn(h: Heap, v: Id, id: Id) {
    IsValue(h, v) && exists p :: p in h[v].props && IsProp(h, p) && h[p].name == Some(id)
  }

  /**
   Record n is record m with k references more.  A string may have been cached; and if listing, the
   list of properties may have been made.
   */
  predicate SeenNode(m: Node, n: Node, listing: bool, k: int) {
    if m.PropNode? then n == Recount(m, m.nref + k)
    else
      && n.ValueNode? && n == m.(nref := m.nref + k, chars := n.chars, props := n.props, flags := n.flags)
      && (m.chars.Some? ==> n.chars == m.chars)
      && ((n.props == m.props && n.flags == m.flags)
          || (listing && GotProps !in m.flags && n.flags == m.flags + {GotProps}))
  }

  predicate CharsKept(m: Node, n: Node) {
    m.ValueNode? && n.ValueNode? ==> n.chars == m.chars
  }

  /** No string has been cached. */
  predicate StringsKept(h0: Heap, h: Heap) {
    forall id | id in h0 :: id in h && CharsKept(h0[id], h[id])
  }

  predicate SeenAt(h0: Heap, h: Heap, v: Id, r: Option<Id>, id: Id)
    requires id in h0
  {
    && id in h && SeenNode(h0[id], h[id], id == v, if r == Some(id) then 1 else 0)
    && (NameIn(h, v, id) || CharsKept(h0[id], h[id]))
  }

  /**
   The records are as they were, except that the client holds r once more, that the list of v may
   have been made, and that strings of the names in it may be cached.
   */
  predicate Seen(h0: Heap, h: Heap, v: Id, r: Option<Id>) {
    forall id | id in h0 :: SeenAt(h0, h, v, r, id)
  }

  lemma SeenSelf(h: Heap, v: Id)
    ensures Seen(h, h, v, None)
  {
  }

  lemma SeenKeys(h0: Heap, h: Heap, v: Id, r: Option<Id>)
    requires Seen(h0, h, v, r)
    ensures forall id | id in h0 :: id in h
  {
    assert forall id | id in h0 :: SeenAt(h0, h, v, r, id);
  }

  lemma SeenListed(h0: Heap, h: Heap, v: Id, ps: seq<Id>)
    requires Listed(h0, h, v, ps) && GotProps !in h0[v].flags && h[v].flags == h0[v].flags + {GotProps}
    ensures Seen(h0, h, v, None)
  {
  }

  lemma NamesStay(h: Heap, h': Heap, v: Id)
    requires IsValue(h, v) && IsValue(h', v) && h'[v].props == h[v].props
    requires forall p | p in h[v].props && IsProp(h, p) :: IsProp(h', p) && h'[p].name == h[p].name
    ensures forall id | NameIn(h, v, id) :: NameIn(h', v, id)
  {
  }

  lemma SeenRecount(h0: Heap, h: Heap, v: Id, p: Id, r: Option<Id>, r': Option<Id>, k: int)
    requires Seen(h0, h, v, r) && IsValue(h, v) && p in h
    requires (r == None && r' == Some(p) && k == 1) || (r == Some(p) && r' == None && k == 0 - 1)
    ensures Seen(h0, h[p := Recount(h[p], h[p].nref + k)], v, r')
  {
    var h' := h[p := Recount(h[p], h[p].nref + k)];
    NamesStay(h, h', v);
    hide NameIn;
    forall id | id in h0 ensures SeenAt(h0, h', v, r', id) {
      assert SeenAt(h0, h, v, r, id);
    }
  }

  lemma SeenText(h0: Heap, h: Heap, v: Id, r: Option<Id>, x: Id, chars: Option<seq<Code>>)
    requires Seen(h0, h, v, r) && NameIn(h, v, x) && IsValue(h, x) && (h[x].chars.Some? ==> chars == h[x].chars)
    ensures Seen(h0, h[x := h[x].(chars := chars)], v, r)
  {
    var h' := h[x := h[x].(chars := chars)];
    NamesStay(h, h', v);
    hide NameIn;
    forall id | id in h0 ensures SeenAt(h0, h', v, r, id) {
      assert SeenAt(h0, h, v, r, id);
    }
  }

  lemma SeenMore(h0: Heap, h: Heap, h': Heap, v: Id, r: Option<Id>)
    requires Seen(h0, h, v, None) && Extends(h, h') && IsValue(h, v) && (r.Some? ==> r.value !in h0)
    ensures Seen(h0, h', v, r)
  {
    NamesStay(h, h', v);
    hide NameIn;
    forall id | id in h0 ensures SeenAt(h0, h', v, r, id) {
      assert SeenAt(h0, h, v, None, id);
    }
  }

  /** Dropping a handle that is not the last reference changes nothing but the count. */
  lemma ReleasedHeap(h: Heap, roots: set<Root>, f: Forest, next: Id, h': Heap, roots': set<Root>, next': Id, p: Id)
    requires Coupled(h, roots, f, next, {}) && CanRelease(f, {p}) && Survive(h, h') && p in h
    requires Coupled(h', roots', Release(f, {p}), next', {})
    ensures h' == h[p := Recount(h[p], h[p].nref - 1)]
  {
    hide Coupled, Refs;
    FreshId(h, roots, f, next);
    RefsReleased(f, p);
    forall id ensures id in h <==> id in h' {
      InForest(h, roots, f, next, id);
      InForest(h', roots', Release(f, {p}), next', id);
    }
    forall id | id in h' ensures h'[id] == if id == p then Recount(h[p], h[p].nref - 1) else h[id] {
      CountOf(h, roots, f, next, id);
      CountOf(h', roots', Release(f, {p}), next', id);
    }
  }

  lemma FlagSet(n: Node, slot: Slot, flag: Flag)
    requires HasSlot(n, slot) && n.ValueNode?
    ensures forall x :: var m := Put(n.(flags := n.flags + {flag}), slot, x);
      m.ValueNode? && m.flags == n.flags + {flag}
  {
  }

  lemma SlotStays(h: Heap, roots: set<Root>, f: Forest, next: Id, v: Id, slot: Slot, flag: Flag)
    requires Coupled(h, roots, f, next, {}) && IsValue(h, v) && HasSlot(h[v], slot) && flag in h[v].flags
    ensures h[v] == Put(h[v].(flags := h[v].flags + {flag}), slot, Get(h[v], slot))
    ensures Get(h[v], slot).Some? ==> Get(h[v], slot).value in h
  {
    hide Coupled;
    assert h[v].flags + {flag} == h[v].flags;
    if Get(h[v], slot).Some? {
      KeptApart(h, roots, f, next, v, slot);
    }
  }

  lemma KeptApart(h: Heap, roots: set<Root>, f: Forest, next: Id, v: Id, slot: Slot)
    requires Coupled(h, roots, f, next, {}) && v in h && Get(h[v], slot).Some?
    ensures var x := Get(h[v], slot).value; x in h && x != v && v in f.kids
  {
    hide Coupled, Kids;
    SlotIsKid(h[v], slot);
    RecordIs(h, roots, f, next, v);
  }

  lemma CountOf(h: Heap, roots: set<Root>, f: Forest, next: Id, id: Id)
    requires Coupled(h, roots, f, next, {}) && id in h
    ensures id in f.held && h[id].nref == Refs(f, id)
  {
  }

  // ---------- What the coupling says ----------

  /**
   A record is live exactly when the client holds it or something that owns it, and its count is
   the number of handles, and one more when it has an owner.
   */
  lemma LiveExactly(h: Heap, roots: set<Root>, f: Forest, next: Id, id: Id)
    requires Coupled(h, roots, f, next, {})
    ensures id in h <==> Anchored(f, id)
    ensures id in h ==> id in f.held && h[id].nref == Refs(f, id)
  {
  }

  /** When the client holds nothing, every record is freed and every root unregistered. */
  lemma NothingLeft(h: Heap, roots: set<Root>, f: Forest, next: Id)
    requires Coupled(h, roots, f, next, {}) && forall id | id in f.held :: f.held[id] == 0
    ensures h == map[] && roots == {}
  {
    NothingHeldNothingLive(f);
    assert forall id: Id :: id !in h;
    assert forall r: Root :: r !in roots;
  }
}
