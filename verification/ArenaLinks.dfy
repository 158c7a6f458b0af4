/**
 How the pointer structures of js/src/jsarena.c represent a pool: the next links of the chain and
 of the freelist, pool->current, and the back-pointers in front of oversized arenas.
 */
module ArenaLinks {
  import opened ArenaLayout
  import opened ArenaModel

  /** struct JSArena; its next member is at offset 0, so &a->next is the address a. */
  datatype JSArena = JSArena(next: nat, base: nat, limit: nat, avail: nat)

  function NextAddr(list: seq<Node>, i: int): nat
    requires -1 <= i < |list|
  {
    if i + 1 < |list| then list[i + 1].addr else 0
  }

  /** The structs at the addresses of list are linked in its order. */
  ghost predicate Linked(structs: map<nat, JSArena>, list: seq<Node>) {
    forall i | 0 <= i < |list| :: Represents(structs, list, i)
  }

  ghost predicate Represents(structs: map<nat, JSArena>, list: seq<Node>, i: nat)
    requires i < |list|
  {
    var n := list[i];
    n.addr in structs && structs[n.addr] == JSArena(NextAddr(list, i), n.base, n.limit, n.avail)
  }

  /** Just before the base of oversized arena i lies the address of its predecessor's next member. */
  ghost predicate BackPointer(p: Params, slots: map<int, nat>, chain: seq<Node>, i: nat)
    requires 1 <= i < |chain|
  {
    Oversized(p, chain[i]) ==>
      && chain[i].base - PTR_SIZE in slots && slots[chain[i].base - PTR_SIZE] == chain[i - 1].addr
  }

  datatype Memory = Memory(structs: map<nat, JSArena>, slots: map<int, nat>, current: nat, freelist: nat)

  /** The pointers mem represent the pool s. */
  ghost predicate Coupled(p: Params, mem: Memory, s: Pool) {
    && Linked(mem.structs, s.chain) && Linked(mem.structs, s.free)
    && mem.freelist == NextAddr(s.free, -1)
    && s.cur < |s.chain| && mem.current == s.chain[s.cur].addr
    && forall i | 1 <= i < |s.chain| :: BackPointer(p, mem.slots, s.chain, i)
  }

  /** Addresses that differ everywhere in the pool, as BlocksApart guarantees. */
  ghost predicate Distinct(s: Pool) {
    && (forall i, j | 0 <= i < j < |s.chain| :: s.chain[i].addr != s.chain[j].addr)
    && (forall i, j | 0 <= i < |s.chain| && 0 <= j < |s.free| :: s.chain[i].addr != s.free[j].addr)
    && (forall i, j | 0 <= i < j < |s.free| :: s.free[i].addr != s.free[j].addr)
    && (forall i | 0 <= i < |s.chain| :: s.chain[i].addr != 0)
    && (forall j | 0 <= j < |s.free| :: s.free[j].addr != 0)
  }

  lemma InvDistinct(p: Params, s: Pool, pending: bool)
    requires Inv(p, s, pending)
    ensures Distinct(s)
  {
  }

  /** Changing the cursor of an arena, and making it the current one. */
  lemma CoupledAvail(p: Params, mem: Memory, s: Pool, i: nat, avail: nat, t: Pool, cur: nat)
    requires Coupled(p, mem, s) && Distinct(s) && i < |s.chain| && cur < |s.chain|
    requires t.chain == s.chain[i := s.chain[i].(avail := avail)] && t.free == s.free && t.cur == cur
    ensures var a := s.chain[i].addr;
            && a in mem.structs
            && Coupled(p, mem.(structs := mem.structs[a := mem.structs[a].(avail := avail)],
                               current := s.chain[cur].addr), t)
  {
    hide Aligned, AlignDown;
    assert Represents(mem.structs, s.chain, i);
    var a := s.chain[i].addr;
    var structs := mem.structs[a := mem.structs[a].(avail := avail)];
    forall k | 0 <= k < |t.chain| ensures Represents(structs, t.chain, k) {
      assert Represents(mem.structs, s.chain, k);
    }
    forall k | 0 <= k < |t.free| ensures Represents(structs, t.free, k) {
      assert Represents(mem.structs, s.free, k);
    }
    forall k | 1 <= k < |t.chain| ensures BackPointer(p, mem.slots, t.chain, k) {
      assert BackPointer(p, mem.slots, s.chain, k);
    }
  }

  /** The bases of different arenas differ, so the slots before them do too. */
  lemma BasesDiffer(p: Params, s: Pool, i: nat, j: nat)
    requires Inv(p, s, false) && 1 <= i < |s.chain| && 1 <= j < |s.chain| && i != j
    ensures s.chain[i].base != s.chain[j].base
  {
  }

  lemma FreshBaseDiffers(p: Params, s: Pool, n: Node, skip: int, i: nat)
    requires Inv(p, s, false) && 1 <= i < |s.chain| && i != skip && Shape(p, n) && FreshBut(p, s, n, skip)
    ensures s.chain[i].base != n.base
  {
    hide Aligned, AlignDown;
    assert Shape(p, s.chain[i]) && Apart(p, s.chain[i], n);
  }

  /** Linking a claimed arena after the last one, with its back-pointer if it is oversized. */
  function LinkedIn(p: Params, mem: Memory, ap: nat, n: Node): Memory
    requires ap in mem.structs
  {
    var structs := mem.structs[n.addr := JSArena(0, n.base, n.limit, n.avail)];
    mem.(structs := structs[ap := mem.structs[ap].(next := n.addr)],
         slots := if Oversized(p, n) then mem.slots[n.base - PTR_SIZE := ap] else mem.slots)
  }

  lemma CoupledClaim(p: Params, mem: Memory, s: Pool, ap: nat, n: Node)
    requires Inv(p, s, false) && Coupled(p, mem, s) && ap == s.chain[|s.chain| - 1].addr
    requires Shape(p, n) && FreshBut(p, s, n, -1)
    ensures ap in mem.structs
    ensures Coupled(p, LinkedIn(p, mem, ap, n), Claimed(s, n))
  {
    hide Aligned, AlignDown;
    var last := |s.chain| - 1;
    assert Represents(mem.structs, s.chain, last);
    FreshDistinct(p, s, n, -1);
    ClaimedLinks(p, mem, s, ap, n);
    forall k | 1 <= k < |s.chain| ensures s.chain[k].base != n.base {
      FreshBaseDiffers(p, s, n, -1, k);
    }
    hide Inv, FreshBut, Shape, Linked, Represents;
    ClaimedBackPointers(p, mem, s, ap, n);
  }

  lemma ClaimedBackPointers(p: Params, mem: Memory, s: Pool, ap: nat, n: Node)
    requires s.chain != [] && ap == s.chain[|s.chain| - 1].addr && ap in mem.structs
    requires forall k | 1 <= k < |s.chain| :: BackPointer(p, mem.slots, s.chain, k) && s.chain[k].base != n.base
    ensures var mem', t := LinkedIn(p, mem, ap, n), Claimed(s, n);
            forall k | 1 <= k < |t.chain| :: BackPointer(p, mem'.slots, t.chain, k)
  {
    var mem', t := LinkedIn(p, mem, ap, n), Claimed(s, n);
    forall k | 1 <= k < |t.chain| ensures BackPointer(p, mem'.slots, t.chain, k) {
      if k < |s.chain| {
        assert BackPointer(p, mem.slots, s.chain, k);
      }
    }
  }

  /** A block of fresh memory has an address of its own. */
  lemma FreshDistinct(p: Params, s: Pool, n: Node, skip: int)
    requires Inv(p, s, false) && Shape(p, n) && FreshBut(p, s, n, skip)
    ensures Distinct(s)
    ensures forall k | 0 <= k < |s.chain| && k != skip :: s.chain[k].addr != n.addr
    ensures forall k | 0 <= k < |s.free| :: s.free[k].addr != n.addr
  {
    hide Aligned, AlignDown;
    InvDistinct(p, s, false);
    forall k | 0 <= k < |s.chain| && k != skip ensures s.chain[k].addr != n.addr {
      assert Apart(p, s.chain[k], n);
      if 1 <= k {
        assert Shape(p, s.chain[k]);
      }
    }
    forall k | 0 <= k < |s.free| ensures s.free[k].addr != n.addr {
      assert Apart(p, s.free[k], n) && FreeShape(p, s.free[k]);
    }
  }

  lemma ClaimedLinks(p: Params, mem: Memory, s: Pool, ap: nat, n: Node)
    requires Distinct(s) && Coupled(p, mem, s) && ap == s.chain[|s.chain| - 1].addr
    requires ap in mem.structs
    requires forall k | 0 <= k < |s.chain| :: s.chain[k].addr != n.addr
    requires forall k | 0 <= k < |s.free| :: s.free[k].addr != n.addr
    ensures var mem', t := LinkedIn(p, mem, ap, n), Claimed(s, n);
            Linked(mem'.structs, t.chain) && Linked(mem'.structs, t.free)
  {
    hide Aligned, AlignDown;
    var mem', t := LinkedIn(p, mem, ap, n), Claimed(s, n);
    forall k | 0 <= k < |t.chain| ensures Represents(mem'.structs, t.chain, k) {
      if k < |s.chain| {
        assert Represents(mem.structs, s.chain, k);
      }
    }
    forall k | 0 <= k < |t.free| ensures Represents(mem'.structs, t.free, k) {
      assert Represents(mem.structs, s.free, k);
    }
  }

  /** Unlinking block j from the freelist: *bp = b->next. */
  function Unlinked(mem: Memory, s: Pool, j: nat): Memory
    requires j < |s.free| && s.free[j].addr in mem.structs && (0 < j ==> s.free[j - 1].addr in mem.structs)
  {
    var next := mem.structs[s.free[j].addr].next;
    if j == 0 then mem.(freelist := next)
    else var prev := s.free[j - 1].addr; mem.(structs := mem.structs[prev := mem.structs[prev].(next := next)])
  }

  lemma CoupledReclaim(p: Params, mem: Memory, s: Pool, j: nat)
    requires Distinct(s) && Coupled(p, mem, s) && j < |s.free|
    ensures s.free[j].addr in mem.structs && (0 < j ==> s.free[j - 1].addr in mem.structs)
    ensures Coupled(p, Unlinked(mem, s, j), WithoutFree(s, j))
  {
    hide Aligned, AlignDown;
    assert Represents(mem.structs, s.free, j);
    if 0 < j {
      assert Represents(mem.structs, s.free, j - 1);
    }
    var mem', t := Unlinked(mem, s, j), WithoutFree(s, j);
    forall k | 0 <= k < |t.chain| ensures Represents(mem'.structs, t.chain, k) {
      assert Represents(mem.structs, s.chain, k);
    }
    forall k | 0 <= k < |t.free| ensures Represents(mem'.structs, t.free, k) {
      assert Represents(mem.structs, s.free, if k < j then k else k + 1);
    }
  }

  /** realloc put arena i elsewhere, or laid it out anew where it was. */
  function Relinked(p: Params, mem: Memory, s: Pool, i: nat, n: Node): Memory
    requires 1 <= i < |s.chain|
  {
    var ap, old' := s.chain[i - 1].addr, s.chain[i].addr;
    var structs := (mem.structs - {old'})[n.addr := JSArena(NextAddr(s.chain, i), n.base, n.limit, n.avail)];
    var structs' := if ap in structs then structs[ap := structs[ap].(next := n.addr)] else structs;
    var slots := if i + 1 < |s.chain| && Oversized(p, s.chain[i + 1]) && n.addr != old'
                 then mem.slots[s.chain[i + 1].base - PTR_SIZE := n.addr] else mem.slots;
    mem.(structs := structs', slots := slots[n.base - PTR_SIZE := ap],
         current := if mem.current == old' then n.addr else mem.current)
  }

  lemma CoupledMove(p: Params, mem: Memory, s: Pool, i: nat, n: Node, t: Pool)
    requires Inv(p, s, false) && Coupled(p, mem, s) && 1 <= i < |s.chain|
    requires Shape(p, n) && Oversized(p, n) && FreshBut(p, s, n, i)
    requires t.chain == s.chain[i := n] && t.free == s.free && t.cur == s.cur
    ensures s.chain[i - 1].addr in mem.structs
    ensures Coupled(p, Relinked(p, mem, s, i, n), t)
  {
    hide Aligned, AlignDown;
    assert Represents(mem.structs, s.chain, i - 1);
    if i + 1 < |s.chain| {
      assert Shape(p, s.chain[i + 1]);
    }
    FreshDistinct(p, s, n, i);
    RelinkedLinks(p, mem, s, i, n, t);
    forall k | 1 <= k < |t.chain| ensures BackPointer(p, Relinked(p, mem, s, i, n).slots, t.chain, k) {
      if k != i {
        FreshBaseDiffers(p, s, n, i, k);
      }
      if i + 1 < |s.chain| && k != i + 1 {
        BasesDiffer(p, s, k, i + 1);
      }
      RelinkedBackPointer(p, mem, s, i, n, k);
    }
  }

  lemma RelinkedLinks(p: Params, mem: Memory, s: Pool, i: nat, n: Node, t: Pool)
    requires Distinct(s) && Coupled(p, mem, s) && 1 <= i < |s.chain| && s.chain[i - 1].addr in mem.structs
    requires forall k | 0 <= k < |s.chain| && k != i :: s.chain[k].addr != n.addr
    requires forall k | 0 <= k < |s.free| :: s.free[k].addr != n.addr
    requires t.chain == s.chain[i := n] && t.free == s.free
    ensures Linked(Relinked(p, mem, s, i, n).structs, t.chain) && Linked(Relinked(p, mem, s, i, n).structs, t.free)
  {
    hide Aligned, AlignDown;
    var mem' := Relinked(p, mem, s, i, n);
    forall k | 0 <= k < |t.chain| ensures Represents(mem'.structs, t.chain, k) {
      assert Represents(mem.structs, s.chain, k);
    }
    forall k | 0 <= k < |t.free| ensures Represents(mem'.structs, t.free, k) {
      assert Represents(mem.structs, s.free, k);
    }
  }

  lemma RelinkedBackPointer(p: Params, mem: Memory, s: Pool, i: nat, n: Node, k: nat)
    requires Coupled(p, mem, s) && 1 <= i < |s.chain| && 1 <= k < |s.chain|
    requires s.chain[i - 1].addr in mem.structs
    requires k != i ==> s.chain[k].base != n.base
    requires i + 1 < |s.chain| && k != i + 1 ==> s.chain[k].base != s.chain[i + 1].base
    ensures BackPointer(p, Relinked(p, mem, s, i, n).slots, s.chain[i := n], k)
  {
    hide Aligned, AlignDown;
    assert BackPointer(p, mem.slots, s.chain, k);
  }

  /** Unlinking and freeing arena i, wherever it is in the chain. */
  function CutOut(p: Params, mem: Memory, s: Pool, i: nat): Memory
    requires 1 <= i < |s.chain| && s.chain[i - 1].addr in mem.structs
  {
    var ap, a := s.chain[i - 1].addr, s.chain[i].addr;
    mem.(structs := mem.structs[ap := mem.structs[ap].(next := NextAddr(s.chain, i))] - {a},
         slots := if i + 1 < |s.chain| && Oversized(p, s.chain[i + 1])
                  then mem.slots[s.chain[i + 1].base - PTR_SIZE := ap] else mem.slots,
         current := if mem.current == a then ap else mem.current)
  }

  lemma CoupledRemove(p: Params, mem: Memory, s: Pool, i: nat, t: Pool)
    requires Inv(p, s, false) && Coupled(p, mem, s) && 1 <= i < |s.chain|
    requires t.chain == s.chain[..i] + s.chain[i + 1..] && t.free == s.free
    requires t.cur == if s.cur < i then s.cur else s.cur - 1
    ensures s.chain[i - 1].addr in mem.structs
    ensures Coupled(p, CutOut(p, mem, s, i), t)
  {
    hide Aligned, AlignDown, BlocksApart, LivesOk;
    InvDistinct(p, s, false);
    assert Represents(mem.structs, s.chain, i - 1);
    if i + 1 < |s.chain| {
      assert Shape(p, s.chain[i + 1]);
    }
    var mem' := CutOut(p, mem, s, i);
    CutOutLinks(p, mem, s, i, t);
    forall k | 1 <= k < |t.chain| ensures BackPointer(p, mem'.slots, t.chain, k) {
      var k' := if k < i then k else k + 1;
      if i + 1 < |s.chain| && k' != i + 1 {
        BasesDiffer(p, s, k', i + 1);
      }
      CutOutBackPointer(p, mem, s, i, k, k');
    }
  }

  lemma CutOutLinks(p: Params, mem: Memory, s: Pool, i: nat, t: Pool)
    requires Distinct(s) && Coupled(p, mem, s) && 1 <= i < |s.chain| && s.chain[i - 1].addr in mem.structs
    requires t.chain == s.chain[..i] + s.chain[i + 1..] && t.free == s.free
    ensures Linked(CutOut(p, mem, s, i).structs, t.chain) && Linked(CutOut(p, mem, s, i).structs, t.free)
  {
    hide Aligned, AlignDown;
    var mem' := CutOut(p, mem, s, i);
    forall k | 0 <= k < |t.chain| ensures Represents(mem'.structs, t.chain, k) {
      assert Represents(mem.structs, s.chain, if k < i then k else k + 1);
    }
    forall k | 0 <= k < |t.free| ensures Represents(mem'.structs, t.free, k) {
      assert Represents(mem.structs, s.free, k);
    }
  }

  lemma CutOutBackPointer(p: Params, mem: Memory, s: Pool, i: nat, k: nat, k': nat)
    requires Coupled(p, mem, s) && 1 <= i < |s.chain| && s.chain[i - 1].addr in mem.structs
    requires 1 <= k < |s.chain| - 1 && k' == if k < i then k else k + 1
    requires i + 1 < |s.chain| && k' != i + 1 ==> s.chain[k'].base != s.chain[i + 1].base
    ensures BackPointer(p, CutOut(p, mem, s, i).slots, s.chain[..i] + s.chain[i + 1..], k)
  {
    hide Aligned, AlignDown;
    assert BackPointer(p, mem.slots, s.chain, k');
  }

  /** One turn of the loop in FreeArenaList: *ap = a->next; free(a). */
  lemma LinkedDropAfter(structs: map<nat, JSArena>, list: seq<Node>, i: nat)
    requires Linked(structs, list) && i + 1 < |list|
    requires forall k, l | 0 <= k < l < |list| :: list[k].addr != list[l].addr
    ensures list[i].addr in structs && list[i + 1].addr in structs
    ensures structs[list[i].addr].next == list[i + 1].addr
    ensures var rest := structs[list[i + 1].addr].next;
            && rest == NextAddr(list, i + 1)
            && Linked(structs[list[i].addr := structs[list[i].addr].(next := rest)] - {list[i + 1].addr},
                      list[..i + 1] + list[i + 2..])
  {
    hide Aligned, AlignDown;
    assert Represents(structs, list, i) && Represents(structs, list, i + 1);
    var rest := structs[list[i + 1].addr].next;
    var structs' := structs[list[i].addr := structs[list[i].addr].(next := rest)] - {list[i + 1].addr};
    var list' := list[..i + 1] + list[i + 2..];
    forall k | 0 <= k < |list'| ensures Represents(structs', list', k) {
      assert Represents(structs, list, if k <= i then k else k + 1);
    }
  }

  /** Structs outside a list may change freely. */
  lemma LinkedElsewhere(structs: map<nat, JSArena>, structs': map<nat, JSArena>, list: seq<Node>)
    requires Linked(structs, list)
    requires forall k | 0 <= k < |list| ::
               list[k].addr in structs ==> list[k].addr in structs' && structs'[list[k].addr] == structs[list[k].addr]
    ensures Linked(structs', list)
  {
    hide Aligned, AlignDown;
    forall k | 0 <= k < |list| ensures Represents(structs', list, k) {
      assert Represents(structs, list, k);
    }
  }

  /** The tail of the chain, put in front of the freelist. */
  lemma CoupledFreeAll(p: Params, mem: Memory, s: Pool, structs': map<nat, JSArena>)
    requires Distinct(s) && Coupled(p, mem, s) && 2 <= |s.chain|
    requires s.chain[0].addr in mem.structs && s.chain[|s.chain| - 1].addr in mem.structs
    requires var last, head := s.chain[|s.chain| - 1].addr, s.chain[0].addr;
             structs' == mem.structs[last := mem.structs[last].(next := mem.freelist)]
                                    [head := mem.structs[head].(next := 0)]
    ensures Coupled(p, Memory(structs', mem.slots, s.chain[0].addr, s.chain[1].addr), AllFreed(s))
  {
    hide Aligned, AlignDown;
    var t := AllFreed(s);
    forall k | 0 <= k < |t.free| ensures Represents(structs', t.free, k) {
      if k < |s.chain| - 1 {
        assert Represents(mem.structs, s.chain, k + 1);
      } else {
        assert Represents(mem.structs, s.free, k - (|s.chain| - 1));
      }
    }
    assert Represents(mem.structs, s.chain, 0);
    assert Represents(structs', t.chain, 0);
  }
}
