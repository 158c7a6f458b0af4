/**
 The state of an arena pool as a list of arenas, with the allocations its clients hold, and what
 each operation of js/src/jsarena.c does to it.  Arena.dfy shows that the pointer code does this.
 */
module ArenaModel {
  import opened ArenaLayout

  datatype Params = Params(pool: nat, m: nat, arenasize: nat)

  /** A JSArena at address addr. */
  datatype Node = Node(addr: nat, base: nat, limit: nat, avail: nat)

  /** An allocation a client holds: its size, rounded up, and the place of its arena in the chain. */
  datatype Alloc = Alloc(size: nat, home: nat)

  /** The chain from pool->first on, the freelist, the place of pool->current, and the allocations. */
  datatype Pool = Pool(chain: seq<Node>, free: seq<Node>, cur: nat, live: map<nat, Alloc>)

  /**
   What JS_InitArenaPool is given: the arena size is a multiple of the alignment, the alignment is
   at least a pointer's, and no other arena can have the base of the embedded first one.  See
   FirstBaseExactly: with an alignment of up to 16 the last is always so.
   */
  ghost predicate ParamsOk(p: Params) {
    && 0 < p.pool && p.pool + POOL_STRUCT < ADDRESS_LIMIT
    && PTR_SIZE <= p.m && Aligned(ADDRESS_LIMIT, p.m) && 0 < p.arenasize && Aligned(p.arenasize, p.m)
    && BaseOf(p.pool, p.m, false) < ADDRESS_LIMIT && FirstBaseIsAlone(p)
    && HeaderSpace(p.m, true) + p.arenasize < ADDRESS_LIMIT
  }

  /** The empty payload of the embedded arena begins below the base of every arena behind the pool. */
  predicate FirstBaseIsAlone(p: Params)
    requires 0 < p.m
  {
    BaseOf(p.pool, p.m, false) < p.pool + POOL_STRUCT + ARENA_STRUCT
  }

  /** Exactly then no block behind the pool can be made into an arena with the base of the first one. */
  lemma FirstBaseExactly(p: Params)
    requires 0 < p.m
    ensures FirstBaseIsAlone(p) <==>
      forall a: nat | p.pool + POOL_STRUCT <= a :: BaseOf(a, p.m, false) != BaseOf(p.pool, p.m, false)
    ensures p.m <= 16 ==> FirstBaseIsAlone(p)
  {
    hide Aligned, AlignDown;
    var b, a := BaseOf(p.pool, p.m, false), p.pool + POOL_STRUCT;
    if !FirstBaseIsAlone(p) {
      AlignUpIsLeast(a + ARENA_STRUCT, b, p.m);
      AlignUpIsLeast(p.pool + ARENA_STRUCT, BaseOf(a, p.m, false), p.m);
      assert BaseOf(a, p.m, false) == b;
    }
  }

  function First(p: Params): Node
    requires 0 < p.m
  {
    var b := BaseOf(p.pool, p.m, false);
    Node(p.pool, b, b, b)
  }

  /** An arena with more room than an ordinary one was made for one oversized allocation. */
  predicate Oversized(p: Params, n: Node) {
    n.base + p.arenasize + p.m <= n.limit
  }

  /** The memory that belongs to an arena. */
  function EndOf(p: Params, n: Node): nat {
    if n.addr == p.pool then p.pool + POOL_STRUCT else n.limit
  }

  predicate Apart(p: Params, x: Node, y: Node) {
    EndOf(p, x) <= y.addr || EndOf(p, y) <= x.addr
  }

  /** The layout of an arena, which stays as long as it is not moved. */
  ghost predicate Shape(p: Params, n: Node)
    requires 0 < p.m
  {
    && 0 < n.addr && n.addr != p.pool
    && n.addr + ARENA_STRUCT <= n.base <= n.addr + HeaderSpace(p.m, true)
    && n.base <= n.avail <= n.limit < ADDRESS_LIMIT
    && Aligned(n.base, p.m) && Aligned(n.avail, p.m)
    && (if Oversized(p, n) then n.addr + ARENA_STRUCT <= n.base - PTR_SIZE else n.base + p.arenasize <= n.limit)
  }

  /** An arena in use is not empty, and an oversized one has no usable room left. */
  ghost predicate Used(p: Params, n: Node) {
    && n.base < n.avail
    && (Oversized(p, n) ==> n.base + p.arenasize < n.avail && n.limit < n.avail + p.m)
  }

  ghost predicate FreeShape(p: Params, n: Node) {
    0 < n.addr && n.addr != p.pool && n.addr + ARENA_STRUCT <= n.limit < ADDRESS_LIMIT
  }

  /** Arena n holds [q, q + size); an oversized arena holds nothing else. */
  ghost predicate Holds(p: Params, n: Node, q: nat, size: nat)
    requires 0 < p.m
  {
    && 0 < size && Aligned(q, p.m) && Aligned(size, p.m)
    && n.base <= q && q + size <= n.avail
    && (Oversized(p, n) ==> q == n.base && q + size == n.avail)
  }

  ghost predicate LiveOk(p: Params, chain: seq<Node>, q: nat, al: Alloc)
    requires 0 < p.m
  {
    1 <= al.home < |chain| && Holds(p, chain[al.home], q, al.size)
  }

  ghost predicate NodesOk(p: Params, s: Pool, pending: bool)
    requires 0 < p.m
  {
    && 1 <= |s.chain| && s.chain[0] == First(p) && s.cur < |s.chain|
    && (forall i | 1 <= i < |s.chain| :: Shape(p, s.chain[i]))
    && (forall i | 1 <= i < |s.chain| && !(pending && i == |s.chain| - 1) :: Used(p, s.chain[i]))
    && (pending ==> 1 < |s.chain| && s.chain[|s.chain| - 1].avail == s.chain[|s.chain| - 1].base)
    && (forall j | 0 <= j < |s.free| :: FreeShape(p, s.free[j]))
  }

  /** No two arenas share memory. */
  ghost predicate BlocksApart(p: Params, s: Pool) {
    && (forall i, j | 0 <= i < j < |s.chain| :: Apart(p, s.chain[i], s.chain[j]))
    && (forall i, j | 0 <= i < |s.chain| && 0 <= j < |s.free| :: Apart(p, s.chain[i], s.free[j]))
    && (forall i, j | 0 <= i < j < |s.free| :: Apart(p, s.free[i], s.free[j]))
  }

  /** All allocations are aligned, inside the used part of their arena, and pairwise disjoint. */
  ghost predicate LivesOk(p: Params, s: Pool)
    requires 0 < p.m
  {
    && (forall q | q in s.live :: LiveOk(p, s.chain, q, s.live[q]))
    && (forall q, r | q in s.live && r in s.live && q < r :: q + s.live[q].size <= r)
  }

  /** The invariant; pending means that the last arena was just claimed and nothing allocated in it. */
  ghost predicate Inv(p: Params, s: Pool, pending: bool) {
    ParamsOk(p) && NodesOk(p, s, pending) && BlocksApart(p, s) && LivesOk(p, s)
  }

  /** pool->current is the last arena of the chain. */
  ghost predicate CurrentIsLast(s: Pool) {
    s.cur == |s.chain| - 1
  }

  /** n shares no memory with any arena of the pool but possibly chain[skip]. */
  ghost predicate FreshBut(p: Params, s: Pool, n: Node, skip: int) {
    && (forall i | 0 <= i < |s.chain| && i != skip :: Apart(p, s.chain[i], n))
    && (forall j | 0 <= j < |s.free| :: Apart(p, s.free[j], n))
  }

  // ---------- Consequences ----------

  /** An address between the base and the limit of an arena (both included) identifies the arena. */
  lemma AddressIdentifiesArena(p: Params, s: Pool, pending: bool, i: nat, j: nat, x: nat)
    requires Inv(p, s, pending) && i < |s.chain| && j < |s.chain|
    requires s.chain[i].base <= x <= s.chain[i].limit && s.chain[j].base <= x <= s.chain[j].limit
    ensures i == j
  {
  }

  /** An allocation that starts at the base and ends at the cursor has its arena to itself. */
  lemma WholeArenaIsAlone(p: Params, s: Pool, q: nat, r: nat)
    requires Inv(p, s, false) && q in s.live && r in s.live && q != r
    requires q == s.chain[s.live[q].home].base && q + s.live[q].size == s.chain[s.live[q].home].avail
    ensures s.live[r].home != s.live[q].home
  {
    hide Aligned, AlignDown;
    assert LiveOk(p, s.chain, q, s.live[q]) && LiveOk(p, s.chain, r, s.live[r]);
  }

  /** The m bytes at x and the n bytes at y do not meet. */
  predicate Clear(x: int, m: nat, y: int, n: nat) {
    x + m <= y || y + n <= x
  }

  /** Arena i of the chain, or of the freelist behind it. */
  function ArenaAt(s: Pool, i: nat): Node
    requires i < |s.chain| + |s.free|
  {
    if i < |s.chain| then s.chain[i] else s.free[i - |s.chain|]
  }

  /** Arena i has a back-pointer word, just before its base. */
  predicate HasSlot(p: Params, s: Pool, i: nat) {
    1 <= i < |s.chain| && Oversized(p, s.chain[i])
  }

  /**
   What the allocator writes for itself and what the clients hold never meet: no header, of an arena
   in use or free, and no back-pointer word lies in an allocation, and none lies in another.
   */
  lemma HeadersAreApart(p: Params, s: Pool, i: nat, j: nat, q: nat)
    requires Inv(p, s, false) && i < |s.chain| + |s.free| && j < |s.chain| + |s.free|
    ensures q in s.live ==> Clear(ArenaAt(s, i).addr, ARENA_STRUCT, q, s.live[q].size)
    ensures i != j ==> Clear(ArenaAt(s, i).addr, ARENA_STRUCT, ArenaAt(s, j).addr, ARENA_STRUCT)
    ensures HasSlot(p, s, i) ==> Clear(s.chain[i].base - PTR_SIZE, PTR_SIZE, ArenaAt(s, j).addr, ARENA_STRUCT)
    ensures HasSlot(p, s, i) && q in s.live ==> Clear(s.chain[i].base - PTR_SIZE, PTR_SIZE, q, s.live[q].size)
    ensures HasSlot(p, s, i) && HasSlot(p, s, j) && i != j ==>
      Clear(s.chain[i].base - PTR_SIZE, PTR_SIZE, s.chain[j].base - PTR_SIZE, PTR_SIZE)
  {
    hide Aligned, AlignDown;
    Spans(p, s, i);
    Spans(p, s, j);
    if i != j {
      AllApart(p, s, i, j);
    }
    if q in s.live {
      assert LiveOk(p, s.chain, q, s.live[q]);
      var h := s.live[q].home;
      Spans(p, s, h);
      if i != h {
        AllApart(p, s, i, h);
      }
    }
  }

  /** Everything of an arena lies between its address and its end. */
  lemma Spans(p: Params, s: Pool, i: nat)
    requires Inv(p, s, false) && i < |s.chain| + |s.free|
    ensures var n := ArenaAt(s, i);
      && n.addr + ARENA_STRUCT <= EndOf(p, n)
      && (1 <= i < |s.chain| ==> n.addr + ARENA_STRUCT <= n.base && n.avail <= EndOf(p, n))
      && (HasSlot(p, s, i) ==> n.addr + ARENA_STRUCT <= n.base - PTR_SIZE && n.base <= EndOf(p, n))
  {
    hide Aligned, AlignDown, BlocksApart, LivesOk;
    if 1 <= i < |s.chain| {
      assert Shape(p, s.chain[i]);
    }
  }

  lemma AllApart(p: Params, s: Pool, i: nat, j: nat)
    requires BlocksApart(p, s) && i < |s.chain| + |s.free| && j < |s.chain| + |s.free| && i != j
    ensures Apart(p, ArenaAt(s, i), ArenaAt(s, j))
  {
    hide Aligned, AlignDown;
  }

  // ---------- Allocation ----------

  function Claimed(s: Pool, n: Node): Pool {
    s.(chain := s.chain + [n])
  }

  lemma ClaimKeepsInv(p: Params, s: Pool, n: Node)
    requires Inv(p, s, false) && Shape(p, n) && n.avail == n.base && FreshBut(p, s, n, -1)
    ensures Inv(p, Claimed(s, n), true)
  {
  }

  function WithoutFree(s: Pool, j: nat): Pool
    requires j < |s.free|
  {
    s.(free := s.free[..j] + s.free[j + 1..])
  }

  lemma ReclaimKeepsInv(p: Params, s: Pool, j: nat)
    requires Inv(p, s, false) && j < |s.free|
    ensures Inv(p, WithoutFree(s, j), false)
    ensures FreshBut(p, WithoutFree(s, j), s.free[j], -1)
  {
  }

  /** Advance the cursor of arena i by nb and record the allocation, if it is not empty. */
  function Bumped(s: Pool, i: nat, nb: nat): Pool
    requires i < |s.chain|
  {
    var n := s.chain[i];
    s.(chain := s.chain[i := n.(avail := n.avail + nb)], cur := i,
       live := if nb == 0 then s.live else s.live[n.avail := Alloc(nb, i)])
  }

  lemma BumpKeepsInv(p: Params, s: Pool, pending: bool, i: nat, nb: nat)
    requires Inv(p, s, pending) && i < |s.chain| && Aligned(nb, p.m) && s.chain[i].avail + nb <= s.chain[i].limit
    requires pending ==> i == |s.chain| - 1 && 0 < nb
    requires pending && Oversized(p, s.chain[i]) ==>
               p.arenasize < nb && s.chain[i].limit < s.chain[i].base + nb + p.m
    ensures Inv(p, Bumped(s, i, nb), false)
    ensures nb != 0 ==> s.chain[i].avail !in s.live && Aligned(s.chain[i].avail, p.m)
  {
    hide Aligned, AlignDown;
    var n, t := s.chain[i], Bumped(s, i, nb);
    if nb == 0 {
      assert t.chain == s.chain;
    } else {
      assert i != 0 && Shape(p, n);
      AlignedSum(n.avail, nb, p.m);
      AlignedGap(0, nb, p.m);
      SameBlocksApart(p, s, t, i);
      BumpKeepsNodes(p, s, pending, i, nb);
      BumpKeepsLives(p, s, pending, i, nb);
    }
  }

  /** Moving a cursor does not change which memory belongs to which arena. */
  lemma SameBlocksApart(p: Params, s: Pool, t: Pool, i: nat)
    requires BlocksApart(p, s) && i < |s.chain| == |t.chain| && t.free == s.free
    requires t.chain == s.chain[i := s.chain[i].(avail := t.chain[i].avail)]
    ensures BlocksApart(p, t)
  {
  }

  lemma BumpKeepsNodes(p: Params, s: Pool, pending: bool, i: nat, nb: nat)
    requires Inv(p, s, pending) && 1 <= i < |s.chain| && Aligned(nb, p.m) && s.chain[i].avail + nb <= s.chain[i].limit
    requires p.m <= nb && Aligned(s.chain[i].avail + nb, p.m)
    requires pending ==> i == |s.chain| - 1
    requires pending && Oversized(p, s.chain[i]) ==>
               p.arenasize < nb && s.chain[i].limit < s.chain[i].base + nb + p.m
    ensures NodesOk(p, Bumped(s, i, nb), false)
  {
    hide Aligned, AlignDown, BlocksApart, LivesOk;
    var n := s.chain[i];
    assert Shape(p, n);
    if !pending || i != |s.chain| - 1 {
      assert Used(p, n);
    }
    assert Shape(p, n.(avail := n.avail + nb)) && Used(p, n.(avail := n.avail + nb));
  }

  lemma BumpKeepsLives(p: Params, s: Pool, pending: bool, i: nat, nb: nat)
    requires Inv(p, s, pending) && 1 <= i < |s.chain| && Aligned(nb, p.m) && s.chain[i].avail + nb <= s.chain[i].limit
    requires p.m <= nb
    requires if pending then i == |s.chain| - 1 else true
    ensures LivesOk(p, Bumped(s, i, nb))
    ensures s.chain[i].avail !in s.live && Aligned(s.chain[i].avail, p.m)
  {
    hide Aligned, AlignDown;
    var n, t := s.chain[i], Bumped(s, i, nb);
    assert Shape(p, n);
    if !pending {
      assert Used(p, n);
    }
    forall r | r in s.live
      ensures LiveOk(p, t.chain, r, s.live[r]) && (r + s.live[r].size <= n.avail || n.avail + nb <= r)
      ensures r != n.avail
    {
      BumpKeepsLive(p, s, pending, i, nb, r);
    }
    assert LiveOk(p, t.chain, n.avail, Alloc(nb, i));
  }

  lemma BumpKeepsLive(p: Params, s: Pool, pending: bool, i: nat, nb: nat, r: nat)
    requires Inv(p, s, pending) && 1 <= i < |s.chain| && r in s.live && s.chain[i].avail + nb <= s.chain[i].limit
    requires p.m <= nb && (pending ==> i == |s.chain| - 1)
    ensures LiveOk(p, Bumped(s, i, nb).chain, r, s.live[r])
    ensures r + s.live[r].size <= s.chain[i].avail || s.chain[i].avail + nb <= r
  {
    hide Aligned, AlignDown;
    assert LiveOk(p, s.chain, r, s.live[r]);
    if s.live[r].home != i {
      BumpApart(p, s, pending, i, nb, r);
    } else {
      assert Shape(p, s.chain[i]);
      if !pending {
        assert Used(p, s.chain[i]);
      }
    }
  }

  /** The new allocation cannot reach into another arena. */
  lemma BumpApart(p: Params, s: Pool, pending: bool, i: nat, nb: nat, r: nat)
    requires Inv(p, s, pending) && 1 <= i < |s.chain| && r in s.live && s.live[r].home != i
    requires s.chain[i].avail + nb <= s.chain[i].limit
    ensures r + s.live[r].size <= s.chain[i].avail || s.chain[i].avail + nb <= r
  {
    hide Aligned, AlignDown;
    var h := s.live[r].home;
    assert LiveOk(p, s.chain, r, s.live[r]);
    assert Shape(p, s.chain[h]) && Shape(p, s.chain[i]);
    if i < h {
      assert Apart(p, s.chain[i], s.chain[h]);
    } else {
      assert Apart(p, s.chain[h], s.chain[i]);
    }
  }

  // ---------- Growth ----------

  /** The allocation at q, the last in arena i, grows to nb bytes where it is. */
  function GrownInPlace(s: Pool, q: nat, nb: nat): Pool
    requires q in s.live && s.live[q].home < |s.chain|
  {
    var i := s.live[q].home;
    s.(chain := s.chain[i := s.chain[i].(avail := q + nb)], live := s.live[q := Alloc(nb, i)])
  }

  ghost predicate CanGrow(p: Params, s: Pool, q: nat, nb: nat) {
    && Inv(p, s, false) && q in s.live && LiveOk(p, s.chain, q, s.live[q])
    && q + s.live[q].size == s.chain[s.live[q].home].avail
    && s.live[q].size <= nb && Aligned(nb, p.m) && q + nb <= s.chain[s.live[q].home].limit
  }

  lemma GrowInPlaceKeepsInv(p: Params, s: Pool, q: nat, nb: nat)
    requires CanGrow(p, s, q, nb)
    ensures Inv(p, GrownInPlace(s, q, nb), false)
  {
    hide Aligned, AlignDown;
    var i, t := s.live[q].home, GrownInPlace(s, q, nb);
    SameBlocksApart(p, s, t, i);
    GrownNode(p, s, q, nb);
    GrowKeepsLives(p, s, q, nb);
  }

  /** The grown arena is still in order; an oversized one cannot grow in place at all. */
  lemma GrownNode(p: Params, s: Pool, q: nat, nb: nat)
    requires CanGrow(p, s, q, nb)
    ensures var n := s.chain[s.live[q].home].(avail := q + nb);
            Shape(p, n) && Used(p, n) && (Oversized(p, n) ==> nb == s.live[q].size)
  {
    hide Aligned, AlignDown;
    var n := s.chain[s.live[q].home];
    assert Shape(p, n) && Used(p, n);
    AlignedSum(q, nb, p.m);
    if s.live[q].size < nb {
      AlignedGap(s.live[q].size, nb, p.m);
    }
  }

  lemma GrowKeepsLives(p: Params, s: Pool, q: nat, nb: nat)
    requires CanGrow(p, s, q, nb)
    ensures LivesOk(p, GrownInPlace(s, q, nb))
  {
    hide Aligned, AlignDown, NodesOk, BlocksApart;
    var i, t := s.live[q].home, GrownInPlace(s, q, nb);
    var n := s.chain[i];
    GrownNode(p, s, q, nb);
    assert LiveOk(p, t.chain, q, Alloc(nb, i));
    forall r | r in s.live && r != q
      ensures LiveOk(p, t.chain, r, s.live[r]) && (r + s.live[r].size <= q || q + nb <= r)
    {
      assert LiveOk(p, s.chain, r, s.live[r]);
      if s.live[r].home != i {
        BumpApart(p, s, false, i, q + nb - n.avail, r);
      }
    }
  }

  /** The arena of q, which q has to itself, is replaced by n, and q by n.base. */
  function Moved(s: Pool, q: nat, n: Node, nb: nat): Pool
    requires q in s.live && s.live[q].home < |s.chain|
  {
    var i := s.live[q].home;
    s.(chain := s.chain[i := n], live := (s.live - {q})[n.base := Alloc(nb, i)])
  }

  lemma MoveKeepsInv(p: Params, s: Pool, q: nat, n: Node, nb: nat)
    requires Inv(p, s, false) && q in s.live && LiveOk(p, s.chain, q, s.live[q])
    requires q == s.chain[s.live[q].home].base && q + s.live[q].size == s.chain[s.live[q].home].avail
    requires Shape(p, n) && Used(p, n) && Oversized(p, n) && n.avail == n.base + nb && 0 < nb && Aligned(nb, p.m)
    requires FreshBut(p, s, n, s.live[q].home)
    ensures Inv(p, Moved(s, q, n, nb), false)
    ensures forall r | r in s.live && r != q :: r != n.base && (r + s.live[r].size <= n.addr || n.limit <= r)
  {
    hide Aligned, AlignDown;
    var i, t := s.live[q].home, Moved(s, q, n, nb);
    forall r | r in s.live && r != q
      ensures r != n.base && (r + s.live[r].size <= n.addr || n.limit <= r)
    {
      OthersAwayFrom(p, s, q, n, r);
    }
    MoveKeepsBlocks(p, s, i, n, t);
    MoveKeepsLives(p, s, q, n, nb);
  }

  lemma OthersAwayFrom(p: Params, s: Pool, q: nat, n: Node, r: nat)
    requires Inv(p, s, false) && q in s.live && r in s.live && r != q
    requires q == s.chain[s.live[q].home].base && q + s.live[q].size == s.chain[s.live[q].home].avail
    requires Shape(p, n) && FreshBut(p, s, n, s.live[q].home)
    ensures s.live[r].home != s.live[q].home && LiveOk(p, s.chain, r, s.live[r])
    ensures r + s.live[r].size <= n.addr || n.limit <= r
  {
    hide Aligned, AlignDown;
    assert LiveOk(p, s.chain, r, s.live[r]);
    WholeArenaIsAlone(p, s, q, r);
    assert Apart(p, s.chain[s.live[r].home], n);
    assert Shape(p, s.chain[s.live[r].home]);
  }

  lemma MoveKeepsBlocks(p: Params, s: Pool, i: nat, n: Node, t: Pool)
    requires BlocksApart(p, s) && i < |s.chain| && FreshBut(p, s, n, i)
    requires t.chain == s.chain[i := n] && t.free == s.free
    ensures BlocksApart(p, t)
  {
  }

  lemma MoveKeepsLives(p: Params, s: Pool, q: nat, n: Node, nb: nat)
    requires Inv(p, s, false) && q in s.live && LiveOk(p, s.chain, q, s.live[q])
    requires q == s.chain[s.live[q].home].base && q + s.live[q].size == s.chain[s.live[q].home].avail
    requires Shape(p, n) && n.avail == n.base + nb && 0 < nb && Aligned(nb, p.m)
    requires FreshBut(p, s, n, s.live[q].home)
    ensures LivesOk(p, Moved(s, q, n, nb))
  {
    hide Aligned, AlignDown, NodesOk, BlocksApart;
    var t := Moved(s, q, n, nb);
    assert LiveOk(p, t.chain, n.base, Alloc(nb, s.live[q].home));
    forall r | r in s.live && r != q
      ensures LiveOk(p, t.chain, r, s.live[r]) && (r + s.live[r].size <= n.addr || n.limit <= r)
    {
      OthersAwayFrom(p, s, q, n, r);
    }
  }

  /** The client lets go of q without freeing it, as JS_ArenaGrow does with the old copy. */
  function Abandoned(s: Pool, q: nat): Pool {
    s.(live := s.live - {q})
  }

  lemma AbandonKeepsInv(p: Params, s: Pool, q: nat)
    requires Inv(p, s, false)
    ensures Inv(p, Abandoned(s, q), false)
  {
  }

  // ---------- Freeing ----------

  /** The allocation at q, the last in its arena but not the first, is given back. */
  function Retracted(s: Pool, q: nat): Pool
    requires q in s.live && s.live[q].home < |s.chain|
  {
    var i := s.live[q].home;
    s.(chain := s.chain[i := s.chain[i].(avail := q)], live := s.live - {q})
  }

  lemma RetractKeepsInv(p: Params, s: Pool, q: nat)
    requires Inv(p, s, false) && q in s.live && LiveOk(p, s.chain, q, s.live[q])
    requires q + s.live[q].size == s.chain[s.live[q].home].avail && q != s.chain[s.live[q].home].base
    ensures Inv(p, Retracted(s, q), false)
  {
    hide Aligned, AlignDown;
    var i, t := s.live[q].home, Retracted(s, q);
    var n := s.chain[i];
    assert Shape(p, n) && Shape(p, n.(avail := q)) && Used(p, n.(avail := q));
    SameBlocksApart(p, s, t, i);
    NodeReplaced(p, s, t, i);
    RetractKeepsLives(p, s, q);
  }

  lemma NodeReplaced(p: Params, s: Pool, t: Pool, i: nat)
    requires 0 < p.m && NodesOk(p, s, false) && 1 <= i < |s.chain| == |t.chain|
    requires t == s.(chain := s.chain[i := t.chain[i]], live := t.live)
    requires Shape(p, t.chain[i]) && Used(p, t.chain[i])
    ensures NodesOk(p, t, false)
  {
  }

  lemma RetractKeepsLives(p: Params, s: Pool, q: nat)
    requires Inv(p, s, false) && q in s.live && LiveOk(p, s.chain, q, s.live[q])
    requires q + s.live[q].size == s.chain[s.live[q].home].avail && q != s.chain[s.live[q].home].base
    ensures LivesOk(p, Retracted(s, q))
  {
    hide Aligned, AlignDown, NodesOk, BlocksApart;
    var t := Retracted(s, q);
    forall r | r in t.live ensures LiveOk(p, t.chain, r, t.live[r]) {
      assert LiveOk(p, s.chain, r, s.live[r]);
    }
  }

  /** Arena i, with the only allocation q in it, is unlinked and freed. */
  function Removed(s: Pool, q: nat): Pool
    requires q in s.live && 1 <= s.live[q].home < |s.chain|
  {
    var i := s.live[q].home;
    Pool(s.chain[..i] + s.chain[i + 1..], s.free, Lowered(s.cur, i),
         map r | r in s.live && r != q :: Alloc(s.live[r].size, Lowered(s.live[r].home, i)))
  }

  /** Where place k of the chain is after arena i has left it. */
  function Lowered(k: nat, i: nat): nat {
    if k < i || k == 0 then k else k - 1
  }

  lemma RemoveKeepsInv(p: Params, s: Pool, q: nat)
    requires Inv(p, s, false) && q in s.live && LiveOk(p, s.chain, q, s.live[q])
    requires q == s.chain[s.live[q].home].base && q + s.live[q].size == s.chain[s.live[q].home].avail
    ensures Inv(p, Removed(s, q), false)
  {
    hide Aligned, AlignDown;
    var i, t := s.live[q].home, Removed(s, q);
    RemoveKeepsBlocks(p, s, t, i);
    RemoveKeepsLives(p, s, q);
  }

  lemma RemoveKeepsBlocks(p: Params, s: Pool, t: Pool, i: nat)
    requires BlocksApart(p, s) && i < |s.chain|
    requires t.chain == s.chain[..i] + s.chain[i + 1..] && t.free == s.free
    ensures BlocksApart(p, t)
  {
  }

  lemma RemoveKeepsLives(p: Params, s: Pool, q: nat)
    requires Inv(p, s, false) && q in s.live && LiveOk(p, s.chain, q, s.live[q])
    requires q == s.chain[s.live[q].home].base && q + s.live[q].size == s.chain[s.live[q].home].avail
    ensures LivesOk(p, Removed(s, q))
  {
    hide Aligned, AlignDown, NodesOk, BlocksApart;
    var t := Removed(s, q);
    forall r | r in t.live ensures LiveOk(p, t.chain, r, t.live[r]) {
      assert LiveOk(p, s.chain, r, s.live[r]);
      WholeArenaIsAlone(p, s, q, r);
    }
  }

  /** Before comes what is in an earlier arena than i, or in arena i below m. */
  predicate Before(s: Pool, i: nat, m: nat, q: nat)
    requires q in s.live
  {
    s.live[q].home < i || (s.live[q].home == i && q < m)
  }

  /** A cursor position in arena i that no allocation straddles. */
  ghost predicate MarkOk(p: Params, s: Pool, i: nat, m: nat)
    requires 0 < p.m
  {
    && i < |s.chain| && Aligned(m, p.m)
    && s.chain[i].base <= m <= s.chain[i].avail
    && (1 <= i ==> s.chain[i].base < m)
    && (Oversized(p, s.chain[i]) ==> m == s.chain[i].avail)
    && forall q | q in s.live && s.live[q].home == i && q < m :: q + s.live[q].size <= m
  }

  /** Everything after position m of arena i is given up. */
  function Truncated(s: Pool, i: nat, m: nat): Pool
    requires i < |s.chain|
  {
    Pool(s.chain[..i] + [s.chain[i].(avail := m)], s.free, i,
         map q | q in s.live && Before(s, i, m, q) :: s.live[q])
  }

  lemma TruncateKeepsInv(p: Params, s: Pool, i: nat, m: nat)
    requires Inv(p, s, false) && MarkOk(p, s, i, m)
    ensures Inv(p, Truncated(s, i, m), false)
  {
    hide Aligned, AlignDown;
    var t := Truncated(s, i, m);
    TruncateKeepsLives(p, s, i, m);
    TruncateKeepsBlocks(p, s, i, m);
    hide BlocksApart, LivesOk;
    if 1 <= i {
      assert Shape(p, s.chain[i]) && Used(p, s.chain[i]);
    }
  }

  lemma TruncateKeepsBlocks(p: Params, s: Pool, i: nat, m: nat)
    requires BlocksApart(p, s) && i < |s.chain|
    ensures BlocksApart(p, Truncated(s, i, m))
  {
  }

  lemma TruncateKeepsLives(p: Params, s: Pool, i: nat, m: nat)
    requires 0 < p.m && LivesOk(p, s) && MarkOk(p, s, i, m)
    ensures LivesOk(p, Truncated(s, i, m))
  {
  }

  /** All arenas go to the front of the freelist. */
  function AllFreed(s: Pool): Pool
    requires 1 <= |s.chain|
  {
    Pool(s.chain[..1], s.chain[1..] + s.free, 0, map[])
  }

  lemma FreeAllKeepsInv(p: Params, s: Pool)
    requires Inv(p, s, false)
    ensures Inv(p, AllFreed(s), false)
  {
  }
}
