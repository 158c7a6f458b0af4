/**
 What one call of the arena allocator does to the pool and to memory, as transitions: js/src/jsarena.c
 and the fast paths of js/src/jsarena.h.  What malloc and realloc return is part of a transition: any
 block apart from those the pool has.  Every transition keeps the invariant; Arena.dfy shows that
 the pointer code makes these transitions, and ArenaRuns.dfy strings them together.
 */
module ArenaSteps {
  import opened ArenaLayout
  import opened ArenaModel

  /** [b, b + n) is memory that no arena of the pool has, except possibly chain[skip]. */
  ghost predicate FreshBlock(p: Params, s: Pool, b: nat, n: nat, skip: int) {
    0 < b && b + n < ADDRESS_LIMIT && FreshBut(p, s, Node(b, b, b + n, b), skip)
  }

  /** The size of the block that JS_ArenaAllocate asks for. */
  function Gross(p: Params, nb: nat): nat
    requires 0 < p.m
  {
    HeaderSpace(p.m, nb > p.arenasize) + (if nb > p.arenasize then nb else p.arenasize)
  }

  /** Addition of jsuwords. */
  function Wrap(n: nat): (r: nat)
    ensures r < ADDRESS_LIMIT && (n < ADDRESS_LIMIT ==> r == n)
  {
    n % ADDRESS_LIMIT
  }

  /** The arena that a block of Gross(nb) bytes at b is made into. */
  function Made(p: Params, b: nat, nb: nat): Node
    requires 0 < p.m
  {
    var base := BaseOf(b, p.m, nb > p.arenasize);
    Node(b, base, b + Gross(p, nb), base)
  }

  /** The header arithmetic serves: the request fits, and nothing usable is left over if oversized. */
  lemma MadeFits(p: Params, b: nat, nb: nat)
    requires ParamsOk(p) && 0 < b && b + Gross(p, nb) < ADDRESS_LIMIT && b != p.pool && Aligned(nb, p.m)
    ensures var n := Made(p, b, nb);
            && Shape(p, n) && n.avail + nb <= n.limit
            && (Oversized(p, n) <==> nb > p.arenasize)
            && (Oversized(p, n) ==> n.limit < n.base + nb + p.m)
  {
    hide Aligned, AlignDown;
    if nb > p.arenasize {
      OversizedBounds(b, p.m);
      AlignedGap(p.arenasize, nb, p.m);
    } else {
      OrdinaryLayout(b, p.m, p.arenasize);
    }
  }

  /**
   How large the block is, and where the base lies in it: the first aligned place behind the 16 bytes of the
   header, or, when oversized, the last one in the space for header, back-pointer and slop.
   */
  lemma MadeExactly(p: Params, b: nat, nb: nat)
    requires 0 < p.m
    ensures var n, k := Made(p, b, nb), if p.m < 4 then 4 else p.m;
      var space := 16 + (4 + if p.m < 4 then 4 - p.m else p.m - 4) + (p.m - 1);
      && n.addr == b && n.avail == n.base
      && if nb > p.arenasize then
           n.limit == b + space + nb && Aligned(n.base, k) && n.base <= b + space < n.base + k
         else
           n.limit == b + 16 + (p.m - 1) + p.arenasize && Aligned(n.base, p.m) && b + 16 <= n.base < b + 16 + p.m
  {
    hide Aligned, AlignDown;
  }

  lemma FreshFreeBlock(p: Params, s: Pool, n: Node, gross: nat)
    requires FreeShape(p, n) && FreshBut(p, s, n, -1) && n.limit == n.addr + gross
    ensures FreshBlock(p, s, n.addr, gross, -1)
  {
  }

  /** Whatever is made of fresh memory is apart from the rest, and it is not the pool itself. */
  lemma FreshMade(p: Params, s: Pool, n: Node, gross: nat, skip: int)
    requires ParamsOk(p) && 1 <= |s.chain| && s.chain[0] == First(p) && skip != 0 && ARENA_STRUCT <= gross
    requires FreshBlock(p, s, n.addr, gross, skip) && n.limit == n.addr + gross
    ensures FreshBut(p, s, n, skip) && n.addr != p.pool
  {
    hide Aligned, AlignDown;
    var m := Node(n.addr, n.addr, n.addr + gross, n.addr);
    assert Apart(p, s.chain[0], m);
    forall i | 0 <= i < |s.chain| && i != skip ensures Apart(p, s.chain[i], n) {
      assert Apart(p, s.chain[i], m);
    }
    forall j | 0 <= j < |s.free| ensures Apart(p, s.free[j], n) {
      assert Apart(p, s.free[j], m);
    }
  }

  /** The overflow check of JS_ArenaAllocate: a size that has not wrapped below nb has not wrapped. */
  lemma GrossIsExact(p: Params, nb: nat)
    requires ParamsOk(p) && nb < ADDRESS_LIMIT && Wrap(Gross(p, nb)) >= nb
    ensures Wrap(Gross(p, nb)) == Gross(p, nb)
  {
  }

  /** JS_ARENA_ALIGN on a word: near the top of the address space it wraps around. */
  function AlignWord(p: Params, n: nat): (r: nat)
    requires 0 < p.m
    ensures r < ADDRESS_LIMIT && Aligned(r, p.m)
  {
    AlignDown(Wrap(n + (p.m - 1)), p.m)
  }

  /** Rounding a request up gives at least the request exactly when the sum does not wrap. */
  lemma AlignWordCovers(p: Params, n: nat)
    requires 0 < p.m <= ADDRESS_LIMIT && n < ADDRESS_LIMIT
    ensures n <= AlignWord(p, n) <==> n + (p.m - 1) < ADDRESS_LIMIT
    ensures n + (p.m - 1) < ADDRESS_LIMIT ==> AlignWord(p, n) == AlignUp(n, p.m)
  {
  }

  /** Rounding up the sum of two words covers it exactly when neither the sum nor the rounding wraps. */
  lemma GrowCoversExactly(p: Params, size: nat, incr: nat)
    requires 0 < p.m <= ADDRESS_LIMIT && size < ADDRESS_LIMIT && incr < ADDRESS_LIMIT
    ensures size + incr <= AlignWord(p, Sum(size, incr)) <==> Covers(p, size, incr)
  {
    if size + incr < ADDRESS_LIMIT {
      AlignWordCovers(p, size + incr);
    }
  }

  /** Neither the sum of the two words wraps around nor its rounding. */
  predicate Covers(p: Params, size: nat, incr: nat)
    requires 0 < p.m
  {
    size + incr + (p.m - 1) < ADDRESS_LIMIT
  }

  /** What the code takes for the new size. */
  function Sum(size: nat, incr: nat): nat {
    Wrap(size + incr)
  }

  lemma SameFreshBlock(p: Params, s: Pool, t: Pool, b: nat, n: nat, skip: int)
    requires t == s.(cur := t.cur)
    ensures FreshBlock(p, s, b, n, skip) ==> FreshBlock(p, t, b, n, skip)
  {
  }

  // ---------- Allocation ----------

  predicate HasRoom(n: Node, nb: nat) {
    n.avail + nb <= n.limit
  }

  /** No arena from the current one on has room for nb bytes. */
  predicate NoRoomFrom(s: Pool, nb: nat) {
    forall k | s.cur <= k < |s.chain| :: !HasRoom(s.chain[k], nb)
  }

  /** A block of the freelist has exactly the size asked for. */
  predicate Exact(n: Node, gross: nat) {
    n.limit == n.addr + gross
  }

  /** None of the first j blocks of the freelist has that size. */
  predicate NoneExact(free: seq<Node>, j: nat, gross: nat)
    requires j <= |free|
  {
    forall k | 0 <= k < j :: !Exact(free[k], gross)
  }

  /** An arena for nb bytes is made of block j of the freelist, the first that has exactly the size asked for. */
  ghost predicate TakenFree(p: Params, s: Pool, t: Pool, j: nat, b: nat, nb: nat)
    requires 0 < p.m
  {
    && j < |s.free| && s.free[j].addr == b && Exact(s.free[j], Gross(p, nb)) && NoneExact(s.free, j, Gross(p, nb))
    && t == Claimed(WithoutFree(s, j), Made(p, b, nb))
  }

  /** Without such a block an arena for nb bytes is made of fresh memory. */
  ghost predicate TakenFresh(p: Params, s: Pool, t: Pool, b: nat, nb: nat)
    requires 0 < p.m
  {
    && NoneExact(s.free, |s.free|, Gross(p, nb)) && FreshBlock(p, s, b, Gross(p, nb), -1)
    && t == Claimed(s, Made(p, b, nb))
  }

  /** An arena for nb bytes is made in one of these ways and linked last. */
  ghost predicate ClaimStep(p: Params, s: Pool, t: Pool, b: nat, nb: nat)
    requires 0 < p.m
  {
    TakenFresh(p, s, t, b, nb) || (exists j: nat :: TakenFree(p, s, t, j, b, nb))
  }

  /** The first arena with room, from the current one on, gives the nb bytes at its cursor. */
  ghost predicate AllocatedIn(s: Pool, t: Pool, i: nat, q: nat, nb: nat) {
    && s.cur <= i < |s.chain| && HasRoom(s.chain[i], nb)
    && (forall k | s.cur <= k < i :: !HasRoom(s.chain[k], nb))
    && q == s.chain[i].avail && t == Bumped(s, i, nb)
  }

  /** Without such an arena a new one gives them, made of the block at b. */
  ghost predicate AllocatedAnew(p: Params, s: Pool, t: Pool, u: Pool, b: nat, q: nat, nb: nat)
    requires 0 < p.m
  {
    && NoRoomFrom(s, nb) && ClaimStep(p, s, u, b, nb) && |s.chain| < |u.chain|
    && q == Made(p, b, nb).base && t == Bumped(u, |s.chain|, nb)
  }

  /** JS_ARENA_ALLOCATE of nb bytes, already rounded up; q is 0 when there is no memory for an arena. */
  ghost predicate AllocStep(p: Params, s: Pool, t: Pool, q: nat, nb: nat)
    requires 0 < p.m
  {
    && s.cur < |s.chain| && Aligned(nb, p.m)
    && if q == 0 then
         NoRoomFrom(s, nb) && NoneExact(s.free, |s.free|, Gross(p, nb)) && t == s.(cur := |s.chain| - 1)
       else
         || (exists i: nat :: AllocatedIn(s, t, i, q, nb))
         || (exists u: Pool, b: nat :: AllocatedAnew(p, s, t, u, b, q, nb))
  }

  /** If a new arena is made and no block of the freelist has its size, it is made of blk. */
  predicate MadeOf(p: Params, s: Pool, t: Pool, nb: nat, blk: nat)
    requires 0 < p.m
  {
    |s.chain| < |t.chain| && NoneExact(s.free, |s.free|, Gross(p, nb)) ==> t.chain[|s.chain|].addr == blk
  }

  lemma ClaimStepKeepsInv(p: Params, s: Pool, t: Pool, b: nat, nb: nat)
    requires Inv(p, s, false) && ClaimStep(p, s, t, b, nb) && Aligned(nb, p.m)
    ensures Inv(p, t, true) && t.chain == s.chain + [Made(p, b, nb)] && t.live == s.live && t.cur == s.cur
    ensures Shape(p, Made(p, b, nb)) && b != p.pool
  {
    hide Aligned, AlignDown, BlocksApart, LivesOk, Shape;
    var n := Made(p, b, nb);
    var s' := s;
    if !TakenFresh(p, s, t, b, nb) {
      var j: nat :| TakenFree(p, s, t, j, b, nb);
      ReclaimKeepsInv(p, s, j);
      s' := WithoutFree(s, j);
      assert FreeShape(p, s.free[j]);
      FreshFreeBlock(p, s', s.free[j], Gross(p, nb));
    }
    FreshMade(p, s', n, Gross(p, nb), -1);
    MadeFits(p, b, nb);
    ClaimKeepsInv(p, s', n);
  }

  /** t is s after an allocation of nb bytes at q, in an arena that had room or in a new one. */
  ghost predicate Allocated(p: Params, s: Pool, t: Pool, q: nat, nb: nat)
    requires 0 < p.m
  {
    && 0 < q && Aligned(q, p.m) && t.cur < |t.chain|
    && t.live == (if nb == 0 then s.live else s.live[q := Alloc(nb, t.cur)])
    && (nb != 0 ==> q !in s.live)
    && t.chain[t.cur].avail == q + nb
    && (if t.cur < |s.chain|
        then q == s.chain[t.cur].avail && t.chain == s.chain[t.cur := s.chain[t.cur].(avail := q + nb)]
        else |t.chain| == |s.chain| + 1 && t.chain[..|s.chain|] == s.chain)
  }

  lemma IntoKeepsInv(p: Params, s: Pool, t: Pool, i: nat, q: nat, nb: nat)
    requires Inv(p, s, false) && AllocatedIn(s, t, i, q, nb) && Aligned(nb, p.m)
    ensures Inv(p, t, false) && Allocated(p, s, t, q, nb) && t.cur == i
  {
    hide Aligned, AlignDown, BlocksApart, LivesOk;
    BumpKeepsInv(p, s, false, i, nb);
    CursorAligned(p, s, i);
  }

  lemma CursorAligned(p: Params, s: Pool, i: nat)
    requires Inv(p, s, false) && i < |s.chain|
    ensures 0 < s.chain[i].avail && Aligned(s.chain[i].avail, p.m)
  {
    hide BlocksApart, LivesOk;
    if i != 0 {
      assert Shape(p, s.chain[i]);
    }
  }

  lemma AnewKeepsInv(p: Params, s: Pool, t: Pool, u: Pool, b: nat, q: nat, nb: nat)
    requires Inv(p, s, false) && AllocatedAnew(p, s, t, u, b, q, nb) && Aligned(nb, p.m)
    ensures Inv(p, t, false) && Allocated(p, s, t, q, nb) && CurrentIsLast(t)
  {
    hide Aligned, AlignDown, BlocksApart, LivesOk, ClaimStep;
    ClaimStepKeepsInv(p, s, u, b, nb);
    MadeFits(p, b, nb);
    var i := |s.chain|;
    assert u.chain[i] == Made(p, b, nb) && u.chain[..i] == s.chain;
    NoRoomIsPositive(p, s, nb);
    BumpKeepsInv(p, u, true, i, nb);
    assert t.chain[..i] == s.chain;
  }

  lemma NoRoomIsPositive(p: Params, s: Pool, nb: nat)
    requires Inv(p, s, false) && NoRoomFrom(s, nb)
    ensures 0 < nb
  {
    hide BlocksApart, LivesOk, Aligned, AlignDown;
    assert !HasRoom(s.chain[s.cur], nb);
    if s.cur != 0 {
      assert Shape(p, s.chain[s.cur]);
    }
  }

  /** Allocating keeps the invariant, and the current arena stays the last one. */
  lemma AllocKeepsInv(p: Params, s: Pool, t: Pool, q: nat, nb: nat)
    requires Inv(p, s, false) && AllocStep(p, s, t, q, nb)
    ensures Inv(p, t, false) && (CurrentIsLast(s) ==> CurrentIsLast(t))
    ensures q != 0 ==> Allocated(p, s, t, q, nb)
  {
    hide Aligned, AlignDown, AllocatedAnew, AllocatedIn, Allocated;
    if q != 0 {
      if i: nat :| AllocatedIn(s, t, i, q, nb) {
        IntoKeepsInv(p, s, t, i, q, nb);
        LastIn(s, t, i, q, nb);
      } else {
        var u: Pool, b: nat :| AllocatedAnew(p, s, t, u, b, q, nb);
        AnewKeepsInv(p, s, t, u, b, q, nb);
      }
    }
  }

  lemma LastIn(s: Pool, t: Pool, i: nat, q: nat, nb: nat)
    requires AllocatedIn(s, t, i, q, nb)
    ensures CurrentIsLast(s) ==> CurrentIsLast(t)
  {
  }

  // ---------- Bytes ----------

  /** Memory contents; an address that was never written reads as 0. */
  type Bytes = map<nat, int>

  function ByteAt(mem: Bytes, x: nat): int {
    if x in mem then mem[x] else 0
  }

  function SourceOf(mem: Bytes, dst: nat, src: nat, x: nat): int {
    if dst <= x then ByteAt(mem, src + (x - dst)) else 0
  }

  /** mem with the n bytes at src copied to dst. */
  function Copied(mem: Bytes, dst: nat, src: nat, n: nat): (mem': Bytes)
    ensures SameBytes(mem', dst, mem, src, n) && SameOutside(mem', mem, dst, dst + n, dst, dst + n)
  {
    mem + map x: nat {:trigger SourceOf(mem, dst, src, x)} | dst <= x < dst + n :: SourceOf(mem, dst, src, x)
  }

  /** The n bytes at dst in mem' are those at src in mem. */
  ghost predicate SameBytes(mem': Bytes, dst: nat, mem: Bytes, src: nat, n: nat) {
    forall x: nat {:trigger ByteAt(mem', x)} | dst <= x < dst + n :: ByteAt(mem', x) == ByteAt(mem, src + (x - dst))
  }

  /** Outside [a, b) and [c, d) nothing changed. */
  ghost predicate SameOutside(mem': Bytes, mem: Bytes, a: nat, b: nat, c: nat, d: nat) {
    forall x: nat {:trigger ByteAt(mem', x)} | !(a <= x < b) && !(c <= x < d) :: ByteAt(mem', x) == ByteAt(mem, x)
  }

  lemma CopyAway(p: Params, t: Pool, r: nat, x: nat, size: nat, mem': Bytes, mem: Bytes)
    requires 0 < p.m && LivesOk(p, t) && x in t.live && r in t.live && x != r && size <= t.live[r].size
    requires SameOutside(mem', mem, r, r + size, r, r + size)
    ensures SameBytes(mem', x, mem, x, t.live[x].size)
  {
  }

  // ---------- Growing ----------

  /** A client holds size bytes at q. */
  ghost predicate Owns(p: Params, s: Pool, q: nat, size: nat)
    requires 0 < p.m
  {
    q in s.live && s.live[q].size == AlignUp(size, p.m) && LiveOk(p, s.chain, q, s.live[q])
  }

  /** More than arenasize bytes are held only by an oversized arena. */
  lemma OwnsOversized(p: Params, s: Pool, q: nat, size: nat)
    requires Inv(p, s, false) && Owns(p, s, q, size)
    ensures size > p.arenasize ==> Oversized(p, s.chain[s.live[q].home])
  {
    hide Aligned, AlignDown;
    var n := s.chain[s.live[q].home];
    assert Shape(p, n);
    if size > p.arenasize {
      AlignedGap(p.arenasize, s.live[q].size, p.m);
    }
  }

  /** q is the only allocation of its arena. */
  ghost predicate OwnsArena(s: Pool, q: nat)
    requires q in s.live && s.live[q].home < |s.chain|
  {
    q == s.chain[s.live[q].home].base && q + s.live[q].size == s.chain[s.live[q].home].avail
  }

  /** The oversized arena that JS_ArenaRealloc makes of the block at b, with n bytes in use. */
  function Rebuilt(p: Params, b: nat, n: nat): Node
    requires 0 < p.m
  {
    var base := BaseOf(b, p.m, true);
    Node(b, base, b + HeaderSpace(p.m, true) + n, AlignUp(base + n, p.m))
  }

  lemma RebuiltFits(p: Params, s: Pool, q: nat, b: nat, n: nat)
    requires Inv(p, s, false) && q in s.live && LiveOk(p, s.chain, q, s.live[q])
    requires p.arenasize < n && EndsInside(b, p.m, n)
    requires FreshBlock(p, s, b, HeaderSpace(p.m, true) + n, s.live[q].home)
    ensures var o := Rebuilt(p, b, n);
            && Shape(p, o) && Used(p, o) && Oversized(p, o) && FreshBut(p, s, o, s.live[q].home)
            && o.avail == o.base + AlignUp(n, p.m)
  {
    hide Aligned, AlignDown;
    var o := Rebuilt(p, b, n);
    FreshMade(p, s, o, HeaderSpace(p.m, true) + n, s.live[q].home);
    OversizedBounds(b, p.m);
    AlignUpShift(o.base, n, p.m);
    AlignedGap(p.arenasize, AlignUp(n, p.m), p.m);
  }

  function Lesser(x: nat, y: nat): nat {
    if x <= y then x else y
  }

  /** Where JS_ArenaRealloc stops writing: it moves size bytes to the base, even if fewer were asked for. */
  function TouchedEnd(n: Node, size: nat): nat {
    if n.base + size <= n.limit then n.limit else n.base + size
  }

  /** The bytes of every other allocation survive a realloc of the arena of q. */
  ghost predicate ReallocKeeps(s: Pool, q: nat, mem': Bytes, mem: Bytes) {
    forall x | x in s.live && x != q :: SameBytes(mem', x, mem, x, s.live[x].size)
  }

  /** The bytes of q lie inside the old block, and at the same offset inside the new one. */
  lemma ReallocBounds(p: Params, s: Pool, q: nat, size: nat, aoff: nat)
    requires Inv(p, s, false) && Owns(p, s, q, size) && OwnsArena(s, q)
    ensures var n := s.chain[s.live[q].home];
            && n.addr <= q && q + size <= n.limit && n.addr <= n.limit
            && q - n.addr + Lesser(size, aoff) <= HeaderSpace(p.m, true) + aoff
  {
    hide Aligned, AlignDown;
    assert Shape(p, s.chain[s.live[q].home]);
  }

  /** Other allocations keep away from the old block of q and from its new block. */
  lemma ReallocFrame(p: Params, s: Pool, q: nat, n: Node)
    requires Inv(p, s, false) && q in s.live && LiveOk(p, s.chain, q, s.live[q]) && OwnsArena(s, q)
    requires Shape(p, n) && FreshBut(p, s, n, s.live[q].home)
    ensures forall x | x in s.live && x != q :: Elsewhere(s, x, s.chain[s.live[q].home]) && Elsewhere(s, x, n)
  {
    hide Aligned, AlignDown;
    var i := s.live[q].home;
    forall x | x in s.live && x != q ensures Elsewhere(s, x, s.chain[i]) && Elsewhere(s, x, n) {
      OthersAwayFrom(p, s, q, n, x);
      var h := s.live[x].home;
      assert Shape(p, s.chain[h]) && Shape(p, s.chain[i]);
      assert if h < i then Apart(p, s.chain[h], s.chain[i]) else Apart(p, s.chain[i], s.chain[h]);
    }
  }

  ghost predicate Elsewhere(s: Pool, x: nat, n: Node)
    requires x in s.live
  {
    x + s.live[x].size <= n.addr || n.limit <= x
  }

  lemma InsideChain(p: Params, s: Pool, q: nat)
    requires Inv(p, s, false) && q in s.live
    ensures 0 < p.m && LiveOk(p, s.chain, q, s.live[q]) && 1 <= s.live[q].home < |s.chain|
    ensures q != s.chain[s.live[q].home].base ==> !Oversized(p, s.chain[s.live[q].home])
  {
    hide Aligned, AlignDown;
    assert LiveOk(p, s.chain, q, s.live[q]);
  }

  /** How JS_ARENA_GROW goes about it. */
  datatype Way = InPlace | Move | Copy

  /**
   The tests of JS_ARENA_GROW and JS_ArenaGrow, for q of the given size to become nb bytes, rounded
   up: in place when q ends at the current cursor and there is room; by JS_ArenaRealloc when q is
   then the first in its arena, or is oversized; or else by a copy.
   */
  function GrowWay(p: Params, s: Pool, q: nat, size: nat, nb: nat): Way
    requires 0 < p.m && s.cur < |s.chain|
  {
    var n := s.chain[s.cur];
    var atCursor := n.avail == q + AlignUp(size, p.m);
    if atCursor && q + nb <= n.limit then InPlace
    else if (atCursor && q == n.base) || size > p.arenasize then Move
    else Copy
  }

  /**
   realloc for n bytes, which are nb when rounded up, put the arena of q at b, or left it where it
   was; q's bytes are at r now, as many as there is room for.
   */
  ghost predicate MovedTo(p: Params, s: Pool, t: Pool, q: nat, size: nat, nb: nat, n: nat, b: nat, r: nat,
                          mem': Bytes, mem: Bytes)
    requires 0 < p.m && q in s.live && s.live[q].home < |s.chain|
  {
    var old', new' := s.chain[s.live[q].home], Rebuilt(p, b, n);
    && AlignUp(n, p.m) == nb && p.arenasize < n && EndsInside(b, p.m, n)
    && FreshBlock(p, s, b, HeaderSpace(p.m, true) + n, s.live[q].home)
    && r == new'.base && t == Moved(s, q, new', nb)
    && SameBytes(mem', r, mem, q, Lesser(size, n))
    && SameOutside(mem', mem, old'.addr, old'.limit, b, TouchedEnd(new', size))
  }

  ghost predicate MoveStep(p: Params, s: Pool, t: Pool, q: nat, size: nat, nb: nat, r: nat, mem': Bytes, mem: Bytes)
    requires 0 < p.m && q in s.live && s.live[q].home < |s.chain|
  {
    if r == 0 then t == s && mem' == mem
    else exists b: nat, n: nat :: size <= n && MovedTo(p, s, t, q, size, nb, n, b, r, mem', mem)
  }

  /** The size bytes at q were copied to r, which was allocated for nb bytes, and q is given up. */
  ghost predicate CopiedTo(p: Params, s: Pool, t: Pool, u: Pool, q: nat, size: nat, nb: nat, r: nat,
                           mem': Bytes, mem: Bytes)
    requires 0 < p.m
  {
    && AllocStep(p, s, u, r, nb) && t == Abandoned(u, q)
    && SameBytes(mem', r, mem, q, size) && SameOutside(mem', mem, r, r + size, r, r + size)
  }

  ghost predicate CopyStep(p: Params, s: Pool, t: Pool, q: nat, size: nat, nb: nat, r: nat, mem': Bytes, mem: Bytes)
    requires 0 < p.m
  {
    if r == 0 then AllocStep(p, s, t, 0, nb) && mem' == mem
    else exists u :: CopiedTo(p, s, t, u, q, size, nb, r, mem', mem)
  }

  /** JS_ARENA_GROW: q of the given size becomes r with nb bytes, or stays when r is 0. */
  ghost predicate GrowStep(p: Params, s: Pool, t: Pool, q: nat, size: nat, nb: nat, r: nat, mem': Bytes, mem: Bytes)
    requires 0 < p.m
  {
    && s.cur < |s.chain| && Owns(p, s, q, size) && Aligned(nb, p.m) && size <= nb
    && match GrowWay(p, s, q, size, nb)
       case InPlace => r == q && t == GrownInPlace(s, q, nb) && mem' == mem
       case Move => MoveStep(p, s, t, q, size, nb, r, mem', mem)
       case Copy => CopyStep(p, s, t, q, size, nb, r, mem', mem)
  }

  /**
   What JS_ARENA_GROW does for any two words, with the sum and its rounding as they come out: moved is what
   realloc answers, if it is called.
   */
  ghost predicate GrowOutcome(p: Params, s: Pool, t: Pool, q: nat, size: nat, incr: nat, moved: nat, r: nat,
                              mem': Bytes, mem: Bytes)
    requires 0 < p.m
  {
    var n, nb := Sum(size, incr), AlignWord(p, Sum(size, incr));
    && s.cur < |s.chain| && Owns(p, s, q, size)
    && match GrowWay(p, s, q, size, nb)
       case InPlace => r == q && t == GrownInPlace(s, q, nb) && mem' == mem
       case Move =>
         if r == 0 then t == s && mem' == mem
         else MovedTo(p, s, t, q, size, AlignUp(n, p.m), n, moved, r, mem', mem)
       case Copy => CopyStep(p, s, t, q, size, nb, r, mem', mem)
  }

  /**
   Which of the three it is, by the cursor and the limit of the current arena alone: in place when q ends at the
   cursor and there is room; by moving the arena when q is the first in it or exceeds arenasize; or else
   by a copy, which leaves the arenas there were as they are, but for one cursor.
   */
  lemma GrowOutcomeIs(p: Params, s: Pool, t: Pool, q: nat, size: nat, incr: nat, moved: nat, r: nat,
                      mem': Bytes, mem: Bytes)
    requires Inv(p, s, false) && Covers(p, size, incr)
    requires GrowOutcome(p, s, t, q, size, incr, moved, r, mem', mem)
    ensures var n, old', new' := s.chain[s.cur], AlignUp(size, p.m), AlignUp(size + incr, p.m);
      && (n.avail == q + old' && q + new' <= n.limit ==>
            && r == q && mem' == mem && |t.chain| == |s.chain| && t.cur == s.cur
            && t.chain[t.cur] == n.(avail := q + new'))
      && (!(n.avail == q + old' && q + new' <= n.limit) && r != 0 ==>
            if (n.avail == q + old' && q == n.base) || size > p.arenasize
            then
              && |t.chain| == |s.chain|
              && exists k :: 0 <= k < |t.chain| && t.chain[k].addr == moved && t.chain[k].base == r
            else
              forall k | 0 <= k < |s.chain| && k < |t.chain| && k != t.cur :: t.chain[k] == s.chain[k])
  {
    hide Aligned, AlignDown, BlocksApart, LivesOk, AllocStep, SameBytes, SameOutside, FreshBlock, AlignUp;
    InsideChain(p, s, q);
    SumAligns(p, size, incr);
    var nb := AlignWord(p, Sum(size, incr));
    match GrowWay(p, s, q, size, nb)
    case InPlace =>
      EndsAtCursor(p, s, q, size);
    case Move =>
      if r != 0 {
        assert t.chain[s.live[q].home].addr == moved && t.chain[s.live[q].home].base == r;
      }
    case Copy =>
      if r != 0 {
        var u :| CopiedTo(p, s, t, u, q, size, nb, r, mem', mem);
        AllocKeepsInv(p, s, u, r, nb);
      }
  }

  lemma SumAligns(p: Params, size: nat, incr: nat)
    requires 0 < p.m && Covers(p, size, incr)
    ensures AlignWord(p, Sum(size, incr)) == AlignUp(size + incr, p.m)
  {
    hide Aligned, AlignDown;
    AlignWordCovers(p, size + incr);
  }

  /** When nothing wraps around that is a step that grows. */
  lemma CoveredOutcome(p: Params, s: Pool, t: Pool, q: nat, size: nat, incr: nat, moved: nat, r: nat,
                       mem': Bytes, mem: Bytes)
    requires 0 < p.m && Covers(p, size, incr) && GrowOutcome(p, s, t, q, size, incr, moved, r, mem', mem)
    ensures GrowStep(p, s, t, q, size, AlignUp(size + incr, p.m), r, mem', mem)
  {
    hide Aligned, AlignDown, MovedTo, CopyStep, Owns;
    AlignWordCovers(p, size + incr);
  }

  /** q has become r with nb bytes and its contents, and every other allocation is as before. */
  ghost predicate Regrown(s: Pool, t: Pool, q: nat, size: nat, nb: nat, r: nat, mem': Bytes, mem: Bytes) {
    if r == 0 then t == s.(cur := t.cur) && mem' == mem else
      && r in t.live && t.live[r].size == nb && t.live.Keys == s.live.Keys - {q} + {r}
      && (forall x | x in s.live && x != q :: x != r && x in t.live && t.live[x].size == s.live[x].size)
      && SameBytes(mem', r, mem, q, size) && ReallocKeeps(s, q, mem', mem)
  }

  lemma OversizedOwnsArena(p: Params, s: Pool, q: nat, size: nat)
    requires Inv(p, s, false) && Owns(p, s, q, size) && size > p.arenasize
    ensures OwnsArena(s, q)
  {
    hide Aligned, AlignDown;
    OwnsOversized(p, s, q, size);
  }

  lemma OwnsSomething(p: Params, s: Pool, q: nat, size: nat)
    requires 0 < p.m && Owns(p, s, q, size)
    ensures 0 < size
  {
    hide Aligned, AlignDown;
    AlignUpIsLeast(0, 0, p.m);
  }

  /** If q has the arena to itself and still cannot grow in place, it needs more than arenasize. */
  lemma NoRoomIsOversized(p: Params, s: Pool, q: nat, size: nat, nb: nat)
    requires Inv(p, s, false) && Owns(p, s, q, size) && q == s.chain[s.live[q].home].base
    requires s.chain[s.live[q].home].limit < nb || s.chain[s.live[q].home].limit - nb < q
    ensures p.arenasize < nb
  {
    hide Aligned, AlignDown;
    assert Shape(p, s.chain[s.live[q].home]);
  }

  /** The test of JS_ARENA_GROW tells that q is the last allocation of the current arena. */
  lemma EndsAtCursor(p: Params, s: Pool, q: nat, size: nat)
    requires Inv(p, s, false) && Owns(p, s, q, size) && s.chain[s.cur].avail == q + s.live[q].size
    ensures s.live[q].home == s.cur
  {
    hide Aligned, AlignDown;
    var i := s.live[q].home;
    assert Shape(p, s.chain[i]);
    if s.cur != 0 {
      assert Shape(p, s.chain[s.cur]);
    }
    AddressIdentifiesArena(p, s, false, i, s.cur, s.chain[s.cur].avail);
  }

  /** The arena that is reallocated belongs to q alone, and more than arenasize bytes are asked for. */
  lemma MoveOwnsArena(p: Params, s: Pool, q: nat, size: nat, nb: nat)
    requires Inv(p, s, false) && Owns(p, s, q, size) && size <= nb && GrowWay(p, s, q, size, nb) == Move
    ensures OwnsArena(s, q) && p.arenasize < nb
    ensures size > p.arenasize || s.live[q].home == s.cur
  {
    hide Aligned, AlignDown, BlocksApart, NodesOk, LivesOk;
    InsideChain(p, s, q);
    if size > p.arenasize {
      OversizedOwnsArena(p, s, q, size);
    } else {
      EndsAtCursor(p, s, q, size);
      NoRoomIsOversized(p, s, q, size, nb);
    }
  }

  lemma MovedKeepsInv(p: Params, s: Pool, t: Pool, q: nat, size: nat, nb: nat, n: nat, b: nat, r: nat,
                      mem': Bytes, mem: Bytes)
    requires Inv(p, s, false) && Owns(p, s, q, size) && s.live[q].home < |s.chain| && OwnsArena(s, q)
    requires size <= n && MovedTo(p, s, t, q, size, nb, n, b, r, mem', mem)
    ensures Inv(p, t, false) && (CurrentIsLast(s) ==> CurrentIsLast(t))
    ensures 0 < r && Regrown(s, t, q, size, nb, r, mem', mem)
  {
    hide Aligned, AlignDown, NodesOk, BlocksApart, LivesOk, SameBytes, SameOutside, ReallocKeeps, FreshBut;
    var o := Rebuilt(p, b, n);
    RebuiltFits(p, s, q, b, n);
    MoveKeepsInv(p, s, q, o, nb);
    ReallocFrame(p, s, q, o);
    KeptOutside(s, q, s.chain[s.live[q].home], o, mem', mem);
  }

  /** What happens in two arenas that hold nothing but q does not matter to the other allocations. */
  lemma KeptOutside(s: Pool, q: nat, o: Node, n: Node, mem': Bytes, mem: Bytes)
    requires SameOutside(mem', mem, o.addr, o.limit, n.addr, n.limit)
    requires forall x | x in s.live && x != q :: Elsewhere(s, x, o) && Elsewhere(s, x, n)
    ensures ReallocKeeps(s, q, mem', mem)
  {
  }

  lemma CopiedKeepsInv(p: Params, s: Pool, t: Pool, u: Pool, q: nat, size: nat, nb: nat, r: nat,
                       mem': Bytes, mem: Bytes)
    requires Inv(p, s, false) && Owns(p, s, q, size) && size <= nb && r != 0
    requires CopiedTo(p, s, t, u, q, size, nb, r, mem', mem)
    ensures Inv(p, t, false) && (CurrentIsLast(s) ==> CurrentIsLast(t))
    ensures Regrown(s, t, q, size, nb, r, mem', mem) && Allocated(p, s, u, r, nb)
  {
    hide Aligned, AlignDown, NodesOk, BlocksApart, LivesOk, AllocStep, Allocated, SameBytes, SameOutside, Regrown;
    AllocKeepsInv(p, s, u, r, nb);
    AbandonKeepsInv(p, u, q);
    CopiedIsRegrown(p, s, u, q, size, nb, r, mem', mem);
  }

  lemma CopiedIsRegrown(p: Params, s: Pool, t: Pool, q: nat, size: nat, nb: nat, r: nat, mem': Bytes, mem: Bytes)
    requires 0 < p.m && LivesOk(p, t) && Owns(p, s, q, size) && Allocated(p, s, t, r, nb) && size <= nb
    requires SameBytes(mem', r, mem, q, size) && SameOutside(mem', mem, r, r + size, r, r + size)
    ensures Regrown(s, Abandoned(t, q), q, size, nb, r, mem', mem)
  {
    hide Aligned, AlignDown;
    OwnsSomething(p, s, q, size);
    forall x | x in s.live && x != q ensures SameBytes(mem', x, mem, x, s.live[x].size) {
      CopyAway(p, t, r, x, size, mem', mem);
    }
  }

  lemma InPlaceKeepsInv(p: Params, s: Pool, q: nat, size: nat, nb: nat, mem: Bytes)
    requires Inv(p, s, false) && Owns(p, s, q, size) && Aligned(nb, p.m) && size <= nb
    requires GrowWay(p, s, q, size, nb) == InPlace
    ensures s.live[q].home == s.cur && CanGrow(p, s, q, nb)
    ensures Inv(p, GrownInPlace(s, q, nb), false) && 0 < q
    ensures Regrown(s, GrownInPlace(s, q, nb), q, size, nb, q, mem, mem)
  {
    hide Aligned, AlignDown, BlocksApart, LivesOk;
    EndsAtCursor(p, s, q, size);
    AlignUpIsLeast(size, nb, p.m);
    GrowInPlaceKeepsInv(p, s, q, nb);
    assert Shape(p, s.chain[s.live[q].home]);
  }

  /** Growing keeps the invariant, and the current arena stays the last one. */
  lemma GrowKeepsInv(p: Params, s: Pool, t: Pool, q: nat, size: nat, nb: nat, r: nat, mem': Bytes, mem: Bytes)
    requires Inv(p, s, false) && GrowStep(p, s, t, q, size, nb, r, mem', mem)
    ensures Inv(p, t, false) && (CurrentIsLast(s) ==> CurrentIsLast(t))
    ensures Regrown(s, t, q, size, nb, r, mem', mem)
  {
    hide Aligned, AlignDown, NodesOk, BlocksApart, LivesOk, AllocStep, MovedTo, CopiedTo, SameBytes, SameOutside;
    InsideChain(p, s, q);
    match GrowWay(p, s, q, size, nb)
    case InPlace =>
      InPlaceKeepsInv(p, s, q, size, nb, mem);
    case Move =>
      MoveOwnsArena(p, s, q, size, nb);
      if r != 0 {
        var b: nat, n: nat :| size <= n && MovedTo(p, s, t, q, size, nb, n, b, r, mem', mem);
        MovedKeepsInv(p, s, t, q, size, nb, n, b, r, mem', mem);
      }
    case Copy =>
      if r == 0 {
        AllocKeepsInv(p, s, t, 0, nb);
        NothingAllocated(p, s, t, nb);
      } else {
        var u :| CopiedTo(p, s, t, u, q, size, nb, r, mem', mem);
        CopiedKeepsInv(p, s, t, u, q, size, nb, r, mem', mem);
      }
  }

  lemma NothingAllocated(p: Params, s: Pool, t: Pool, nb: nat)
    requires 0 < p.m && AllocStep(p, s, t, 0, nb)
    ensures t == s.(cur := t.cur)
  {
  }

  // ---------- Freeing ----------

  /** The pool after the last allocation q of an arena is freed. */
  function Freed(p: Params, s: Pool, q: nat): Pool
    requires q in s.live && 1 <= s.live[q].home < |s.chain|
  {
    if q == s.chain[s.live[q].home].base then Removed(s, q) else Retracted(s, q)
  }

  lemma FreeKeepsInv(p: Params, s: Pool, q: nat)
    requires Inv(p, s, false) && q in s.live && 1 <= s.live[q].home < |s.chain|
    requires q + s.live[q].size == s.chain[s.live[q].home].avail
    ensures Inv(p, Freed(p, s, q), false) && (CurrentIsLast(s) ==> CurrentIsLast(Freed(p, s, q)))
  {
    hide Aligned, AlignDown, NodesOk, BlocksApart, LivesOk;
    InsideChain(p, s, q);
    if q == s.chain[s.live[q].home].base {
      RemoveKeepsInv(p, s, q);
    } else {
      RetractKeepsInv(p, s, q);
    }
  }
}
