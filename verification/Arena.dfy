/**
 The arena allocator of js/src/jsarena.c and the fast paths of js/src/jsarena.h, on an explicit
 memory: arena headers by address, back-pointer words by address, and bytes by address; see
 HeadersAreApart for why they do not meet.  What malloc and realloc return are parameters: 0, or
 any block apart from those the pool has.
 */
module Arena {
  import opened ArenaLayout
  import opened ArenaLinks
  import opened ArenaModel
  import opened ArenaSteps
  import opened Bits

  // ---------- Steps of JS_ArenaAllocate ----------

  /** Arena i of the pool is the one at address a. */
  ghost predicate At(structs: map<nat, JSArena>, s: Pool, i: nat, a: nat) {
    && i < |s.chain| && a == s.chain[i].addr && a in structs
    && structs[a] == JSArena(NextAddr(s.chain, i), s.chain[i].base, s.chain[i].limit, s.chain[i].avail)
  }

  /** t is s after an arena was made for nb bytes at b, linked last and made the current one. */
  ghost predicate Grown(p: Params, s: Pool, t: Pool, b: nat, nb: nat)
    requires 0 < p.m
  {
    && NoRoomFrom(s, nb) && ClaimStep(p, s, t.(cur := s.cur), b, nb)
    && t.cur == |s.chain| && |t.chain| == |s.chain| + 1 && t.chain[t.cur] == Made(p, b, nb)
  }

  lemma CurrentStruct(p: Params, mem: Memory, s: Pool, pending: bool)
    requires Inv(p, s, pending) && Coupled(p, mem, s)
    ensures At(mem.structs, s, s.cur, mem.current) && 0 < p.m
    ensures s.chain[s.cur].avail <= s.chain[s.cur].limit
  {
    hide Aligned, AlignDown;
    assert Represents(mem.structs, s.chain, s.cur);
    if s.cur != 0 {
      assert Shape(p, s.chain[s.cur]);
    }
  }

  lemma NoNextIsLast(p: Params, mem: Memory, s: Pool, pending: bool)
    requires Inv(p, s, pending) && Coupled(p, mem, s)
    requires At(mem.structs, s, s.cur, mem.current) && mem.structs[mem.current].next == 0
    ensures CurrentIsLast(s)
  {
    hide Aligned, AlignDown;
    InvDistinct(p, s, pending);
  }

  /** A size that wraps around is not that of a block. */
  lemma TooBigForFree(p: Params, s: Pool, nb: nat)
    requires Inv(p, s, false) && Wrap(Gross(p, nb)) < nb < ADDRESS_LIMIT
    ensures NoneExact(s.free, |s.free|, Gross(p, nb))
  {
    hide Aligned, AlignDown, BlocksApart, LivesOk;
    forall k | 0 <= k < |s.free| ensures !Exact(s.free[k], Gross(p, nb)) {
      assert FreeShape(p, s.free[k]);
    }
  }

  lemma ClaimElsewhere(p: Params, s: Pool, t: Pool, b: nat, nb: nat, cur: nat)
    requires 0 < p.m && ClaimStep(p, s.(cur := cur), t, b, nb)
    ensures ClaimStep(p, s, t.(cur := s.cur), b, nb)
  {
    var s' := s.(cur := cur);
    if TakenFresh(p, s', t, b, nb) {
      assert FreshBlock(p, s, b, Gross(p, nb), -1);
    } else {
      var j: nat :| TakenFree(p, s', t, j, b, nb);
      assert TakenFree(p, s, t.(cur := s.cur), j, b, nb);
    }
  }

  /** A freshly claimed arena is linked last, and making it current keeps everything in order. */
  lemma NewIsLast(p: Params, mem: Memory, s0: Pool, s: Pool, t: Pool, b: nat, nb: nat)
    requires Inv(p, s0, false) && s == s0.(cur := |s0.chain| - 1) && ClaimStep(p, s, t, b, nb) && NoRoomFrom(s0, nb)
    requires Inv(p, t, true) && Coupled(p, mem, t) && Aligned(nb, p.m) && t.chain == s.chain + [Made(p, b, nb)]
    ensures var u := t.(cur := |t.chain| - 1);
            && Inv(p, u, true) && Coupled(p, mem.(current := b), u) && At(mem.structs, u, u.cur, b)
            && Grown(p, s0, u, b, nb) && HasRoom(u.chain[u.cur], nb) && u.cur == |s0.chain|
  {
    hide Aligned, AlignDown, ClaimStep;
    var i := |t.chain| - 1;
    MakeCurrent(p, mem, t, true, i);
    hide Inv, Coupled;
    ClaimElsewhere(p, s0, t, b, nb, |s0.chain| - 1);
    assert t.(cur := i).(cur := s0.cur) == t.(cur := s0.cur);
    NewFits(p, s, t, b, nb);
  }

  lemma MakeCurrent(p: Params, mem: Memory, s: Pool, pending: bool, i: nat)
    requires Inv(p, s, pending) && Coupled(p, mem, s) && i < |s.chain|
    ensures Inv(p, s.(cur := i), pending) && Coupled(p, mem.(current := s.chain[i].addr), s.(cur := i))
    ensures At(mem.structs, s.(cur := i), i, s.chain[i].addr)
  {
    hide Aligned, AlignDown;
    assert Represents(mem.structs, s.chain, i);
  }

  lemma NewFits(p: Params, s: Pool, t: Pool, b: nat, nb: nat)
    requires Inv(p, s, false) && ClaimStep(p, s, t, b, nb) && Aligned(nb, p.m)
    ensures HasRoom(Made(p, b, nb), nb)
  {
    hide Aligned, AlignDown, FreshBut;
    ClaimStepKeepsInv(p, s, t, b, nb);
    assert b + Gross(p, nb) < ADDRESS_LIMIT && 0 < b;
    MadeFits(p, b, nb);
  }

  /** The pointers and the pool after a new arena at b was linked behind the last one, at ap. */
  lemma ClaimIsInOrder(p: Params, mem: Memory, s: Pool, ap: nat, b: nat, nb: nat)
    requires Inv(p, s, false) && Coupled(p, mem, s) && Aligned(nb, p.m) && ap == s.chain[|s.chain| - 1].addr
    requires FreshBlock(p, s, b, Gross(p, nb), -1)
    ensures ap in mem.structs && b != ap && Inv(p, Claimed(s, Made(p, b, nb)), true)
    ensures Coupled(p, LinkedIn(p, mem, ap, Made(p, b, nb)), Claimed(s, Made(p, b, nb)))
    ensures Oversized(p, Made(p, b, nb)) <==> nb > p.arenasize
  {
    hide Aligned, AlignDown;
    FreshMade(p, s, Made(p, b, nb), Gross(p, nb), -1);
    MadeFits(p, b, nb);
    CoupledClaim(p, mem, s, ap, Made(p, b, nb));
    ClaimKeepsInv(p, s, Made(p, b, nb));
  }

  lemma NextIsInChain(p: Params, mem: Memory, s: Pool, pending: bool)
    requires Inv(p, s, pending) && Coupled(p, mem, s)
    requires At(mem.structs, s, s.cur, mem.current) && mem.structs[mem.current].next != 0
    ensures var t := s.(cur := s.cur + 1);
            && t.cur < |t.chain| && Inv(p, t, pending)
            && Coupled(p, mem.(current := mem.structs[mem.current].next), t)
            && At(mem.structs, t, t.cur, mem.structs[mem.current].next)
  {
    hide Aligned, AlignDown;
    assert Represents(mem.structs, s.chain, s.cur + 1);
  }

  lemma NothingFound(p: Params, s0: Pool, s: Pool, nb: nat)
    requires 0 < p.m && s == s0.(cur := s.cur) && CurrentIsLast(s) && Aligned(nb, p.m) && s0.cur <= s.cur
    requires forall k | s0.cur <= k <= s.cur :: !HasRoom(s0.chain[k], nb)
    requires NoneExact(s0.free, |s0.free|, Gross(p, nb))
    ensures AllocStep(p, s0, s, 0, nb)
  {
    hide Aligned;
  }

  /** Taking the room at the cursor of the current arena. */
  lemma BumpCurrent(p: Params, mem: Memory, s: Pool, pending: bool, nb: nat, t: Pool)
    requires Inv(p, s, pending) && Coupled(p, mem, s) && At(mem.structs, s, s.cur, mem.current)
    requires t == Bumped(s, s.cur, nb)
    ensures var q, a := s.chain[s.cur].avail, mem.current;
      && a in mem.structs && (CurrentIsLast(s) ==> CurrentIsLast(t))
      && Coupled(p, mem.(structs := mem.structs[a := mem.structs[a].(avail := q + nb)]), t)
  {
    hide Aligned, AlignDown, BlocksApart, LivesOk;
    InvDistinct(p, s, pending);
    CoupledAvail(p, mem, s, s.cur, s.chain[s.cur].avail + nb, t, s.cur);
  }

  lemma BumpInto(p: Params, s0: Pool, s: Pool, nb: nat)
    requires Inv(p, s, false) && Aligned(nb, p.m) && s == s0.(cur := s.cur) && s0.cur <= s.cur
    requires HasRoom(s.chain[s.cur], nb) && forall k | s0.cur <= k < s.cur :: !HasRoom(s0.chain[k], nb)
    ensures var q := s.chain[s.cur].avail; q != 0 && AllocStep(p, s0, Bumped(s, s.cur, nb), q, nb)
  {
    hide Aligned, AlignDown, BlocksApart, LivesOk;
    var q := s.chain[s.cur].avail;
    CursorAligned(p, s, s.cur);
    assert AllocatedIn(s0, Bumped(s, s.cur, nb), s.cur, q, nb);
  }

  lemma BumpAnew(p: Params, s0: Pool, s: Pool, b: nat, nb: nat)
    requires Inv(p, s0, false) && Grown(p, s0, s, b, nb) && Aligned(nb, p.m)
    ensures var q := s.chain[s.cur].avail; q != 0 && AllocStep(p, s0, Bumped(s, s.cur, nb), q, nb)
  {
    hide Aligned, AlignDown, BlocksApart, LivesOk, ClaimStep;
    var u, t := s.(cur := s0.cur), Bumped(s, s.cur, nb);
    ClaimStepKeepsInv(p, s0, u, b, nb);
    assert AllocatedAnew(p, s0, t, u, b, Made(p, b, nb).base, nb);
  }

  // ---------- Growing ----------

  /** What the C code tests to see whether an arena is oversized. */
  lemma OversizedByUse(p: Params, s: Pool, i: nat)
    requires Inv(p, s, false) && 1 <= i < |s.chain|
    ensures Oversized(p, s.chain[i]) <==> s.chain[i].avail - s.chain[i].base > p.arenasize
  {
    hide Aligned, AlignDown;
    var n := s.chain[i];
    assert Shape(p, n) && Used(p, n);
    AlignedSum(n.base, n.avail, p.m);
    if n.avail - n.base > p.arenasize {
      AlignedGap(p.arenasize, n.avail - n.base, p.m);
    }
  }

  /** The arena before that of q links to it, and the back-pointer of an oversized one names it. */
  lemma LinkIsBefore(p: Params, mem: Memory, s: Pool, q: nat, size: nat)
    requires Inv(p, s, false) && Coupled(p, mem, s) && Owns(p, s, q, size)
    ensures var i := s.live[q].home;
      && 1 <= i < |s.chain| && s.chain[i - 1].addr in mem.structs
      && mem.structs[s.chain[i - 1].addr].next == s.chain[i].addr
      && (q == s.chain[i].base && size > p.arenasize ==>
            q - PTR_SIZE in mem.slots && mem.slots[q - PTR_SIZE] == s.chain[i - 1].addr)
  {
    hide Aligned, AlignDown, NodesOk, BlocksApart;
    OwnsOversized(p, s, q, size);
    assert Represents(mem.structs, s.chain, s.live[q].home - 1);
    assert BackPointer(p, mem.slots, s.chain, s.live[q].home);
  }

  /** What the code sees of arena i, its neighbours and the address it moves to. */
  ghost predicate Neighbours(p: Params, structs: map<nat, JSArena>, s: Pool, moved: nat, i: nat)
    requires 1 <= i < |s.chain|
  {
    && At(structs, s, i - 1, s.chain[i - 1].addr) && At(structs, s, i, s.chain[i].addr)
    && s.chain[i - 1].addr != s.chain[i].addr && moved != s.chain[i - 1].addr
    && (i + 1 < |s.chain| ==>
          && At(structs, s, i + 1, s.chain[i + 1].addr) && s.chain[i + 1].addr != 0
          && s.chain[i + 1].addr != moved && s.chain[i + 1].addr != s.chain[i].addr
          && s.chain[i + 1].base <= s.chain[i + 1].avail
          && (Oversized(p, s.chain[i + 1]) <==> s.chain[i + 1].avail - s.chain[i + 1].base > p.arenasize))
  }

  /** The stores of JS_ArenaRealloc to the structures, one after the other, and what they come to. */
  lemma RelinkedStructs(m: map<nat, JSArena>, a: nat, moved: nat, ap: nat, next: nat, n: Node)
    requires a in m && ap in m && ap != a && ap != moved && m[a].next == next && m[ap].next == a && n.addr == moved
    ensures var first := (m - {a})[moved := m[a]];
      var second := if moved != a then first[ap := first[ap].(next := moved)] else first;
      var direct := (m - {a})[moved := JSArena(next, n.base, n.limit, n.avail)];
      second[moved := JSArena(second[moved].next, n.base, n.limit, n.avail)]
        == direct[ap := direct[ap].(next := moved)]
  {
  }

  lemma FindNeighbours(p: Params, mem: Memory, s: Pool, n: Node, i: nat)
    requires Inv(p, s, false) && Coupled(p, mem, s) && 1 <= i < |s.chain|
    requires Shape(p, n) && FreshBut(p, s, n, i)
    ensures Neighbours(p, mem.structs, s, n.addr, i)
  {
    hide Aligned, AlignDown;
    FreshDistinct(p, s, n, i);
    assert Represents(mem.structs, s.chain, i - 1) && Represents(mem.structs, s.chain, i);
    if i + 1 < |s.chain| {
      assert Represents(mem.structs, s.chain, i + 1) && Shape(p, s.chain[i + 1]);
      OversizedByUse(p, s, i + 1);
    }
  }

  /** The old block of q has room for its bytes, and the new block n for len of them. */
  ghost predicate RoomFor(s: Pool, q: nat, size: nat, len: nat, n: Node) {
    && q in s.live && s.live[q].home < |s.chain| && len <= size
    && var o := s.chain[s.live[q].home];
    && n.addr <= n.base && n.base + len <= n.limit
    && o.addr <= q && q + size <= o.limit && n.addr + (q - o.addr) + len <= n.limit
  }

  /** realloc followed, where the alignment changed, by memmove: q's bytes arrive. */
  lemma ReallocBytes(s: Pool, q: nat, size: nat, len: nat, n: Node, a: nat, oldn: nat, gross: nat,
                     mem0: Bytes, mem1: Bytes, mem2: Bytes)
    requires RoomFor(s, q, size, len, n)
    requires a == s.chain[s.live[q].home].addr && a + oldn == s.chain[s.live[q].home].limit
    requires n.addr + gross == n.limit
    requires SameBytes(mem1, n.addr, mem0, a, if oldn < gross then oldn else gross)
    requires SameOutside(mem1, mem0, a, a + oldn, n.addr, n.addr + gross)
    requires if q - a == n.base - n.addr then mem2 == mem1
             else SameBytes(mem2, n.base, mem1, n.addr + (q - a), size)
                  && SameOutside(mem2, mem1, n.base, n.base + size, n.base, n.base + size)
    ensures SameBytes(mem2, n.base, mem0, q, len)
    ensures SameOutside(mem2, mem0, a, a + oldn, n.addr, TouchedEnd(n, size))
  {
  }

  /** All that JS_ArenaRealloc relies on, gathered for its proof. */
  lemma PrepareRealloc(p: Params, mem: Memory, s: Pool, q: nat, size: nat, moved: nat, aoff: nat)
    requires Inv(p, s, false) && Coupled(p, mem, s) && Owns(p, s, q, size) && OwnsArena(s, q)
    requires p.arenasize < aoff && EndsInside(moved, p.m, aoff)
    requires FreshBlock(p, s, moved, HeaderSpace(p.m, true) + aoff, s.live[q].home)
    ensures var i, n, nb := s.live[q].home, Rebuilt(p, moved, aoff), AlignUp(aoff, p.m);
      && Neighbours(p, mem.structs, s, moved, i)
      && Inv(p, Moved(s, q, n, nb), false) && Coupled(p, Relinked(p, mem, s, i, n), Moved(s, q, n, nb))
      && RoomFor(s, q, size, Lesser(size, aoff), n) && (CurrentIsLast(s) ==> CurrentIsLast(Moved(s, q, n, nb)))
      && var o := s.chain[i];
      && o.addr in mem.structs && mem.structs[o.addr].limit == o.limit && o.addr <= q && o.addr <= o.limit
  {
    hide Aligned, AlignDown, NodesOk, BlocksApart, LivesOk, Linked, Coupled, Neighbours;
    hide FreshBlock, FreshBut, Relinked, Used;
    var i, n, nb := s.live[q].home, Rebuilt(p, moved, aoff), AlignUp(aoff, p.m);
    RebuiltFits(p, s, q, moved, aoff);
    MoveKeepsInv(p, s, q, n, nb);
    CoupledMove(p, mem, s, i, n, Moved(s, q, n, nb));
    FindNeighbours(p, mem, s, n, i);
    ReallocBounds(p, s, q, size, aoff);
    ArenaStruct(p, mem, s, i);
  }

  lemma ArenaStruct(p: Params, mem: Memory, s: Pool, i: nat)
    requires Coupled(p, mem, s) && i < |s.chain|
    ensures At(mem.structs, s, i, s.chain[i].addr)
  {
    hide Aligned, AlignDown;
    assert Represents(mem.structs, s.chain, i);
  }

  /** What realloc may answer for n bytes: 0, or a block for which the assertion of JS_ArenaRealloc holds. */
  ghost predicate ReallocAnswer(p: Params, s: Pool, q: nat, n: nat, moved: nat)
    requires 0 < p.m && q in s.live
  {
    moved == 0 ||
      (FreshBlock(p, s, moved, HeaderSpace(p.m, true) + n, s.live[q].home) && EndsInside(moved, p.m, n))
  }

  /**
   A request to grow q from size by incr bytes, any two words, with the answers malloc and realloc would
   give.  Where JS_ArenaRealloc is called its assertions hold; see ArenaLayout.AlignedBlocksExactly for the
   one on the block, and ArenaSteps.MoveOwnsArena for the others, when the sum does not wrap around.
   */
  ghost predicate GrowRequest(p: Params, s: Pool, q: nat, size: nat, incr: nat, blk: nat, moved: nat) {
    && 0 < p.m && s.cur < |s.chain| && Owns(p, s, q, size) && size < ADDRESS_LIMIT && incr < ADDRESS_LIMIT
    && var n, nb := Sum(size, incr), AlignWord(p, Sum(size, incr));
    && (blk == 0 || FreshBlock(p, s, blk, Gross(p, nb), -1))
    && (GrowWay(p, s, q, size, nb) == Move ==>
          (Covers(p, size, incr) || p.arenasize < n) && ReallocAnswer(p, s, q, n, moved))
  }

  /** The tests of JS_ARENA_GROW on the current arena, in word arithmetic. */
  predicate GrowsInline(p: Params, n: JSArena, q: nat, size: nat, incr: nat)
    requires 0 < p.m
  {
    var nb := AlignWord(p, Sum(size, incr));
    n.avail == q + AlignWord(p, size) && n.limit >= nb && q <= n.limit - nb
  }

  /**
   What becomes of a request whose rounded sum wraps around, when q ends at the cursor: it succeeds in
   place, but the cursor does not advance, and so less is held at q than was asked for.
   */
  lemma WrappedGrowthStays(p: Params, n: JSArena, q: nat, size: nat, incr: nat)
    requires 0 < p.m && Aligned(ADDRESS_LIMIT, p.m) && size + (p.m - 1) < ADDRESS_LIMIT && incr < ADDRESS_LIMIT
    requires n.avail == q + AlignUp(size, p.m) <= n.limit && !Covers(p, size, incr)
    ensures GrowsInline(p, n, q, size, incr)
    ensures q + AlignWord(p, Sum(size, incr)) <= n.avail && AlignWord(p, Sum(size, incr)) < size + incr
  {
    hide Aligned, AlignDown;
    GrowCoversExactly(p, size, incr);
    var sum := Sum(size, incr);
    if size + incr < ADDRESS_LIMIT {
      RoundedToNothing(p, sum);
    } else {
      WrapsOnce(size + incr);
      AlignWordCovers(p, size);
      AlignWordCovers(p, sum);
      AlignUpIsLeast(sum, AlignUp(size, p.m), p.m);
    }
  }

  lemma WrapsOnce(n: nat)
    requires ADDRESS_LIMIT <= n < 2 * ADDRESS_LIMIT
    ensures Wrap(n) == n - ADDRESS_LIMIT
  {
  }

  lemma RoundedToNothing(p: Params, n: nat)
    requires 0 < p.m <= ADDRESS_LIMIT && n < ADDRESS_LIMIT <= n + (p.m - 1)
    ensures AlignWord(p, n) == 0
  {
    WrapsOnce(n + (p.m - 1));
    QuotientIs(n + (p.m - 1) - ADDRESS_LIMIT, p.m, 0, n + (p.m - 1) - ADDRESS_LIMIT);
  }

  /** Eight bytes, grown by 2^32 - 8: the cursor goes back to where the eight bytes begin. */
  lemma WrappedGrowthTakesBack(p: Params, n: JSArena, q: nat)
    requires p.m == 8 && n.avail == q + 8 <= n.limit
    ensures GrowsInline(p, n, q, 8, ADDRESS_LIMIT - 8) && AlignWord(p, Sum(8, ADDRESS_LIMIT - 8)) == 0
  {
  }

  /**
   Away from the cursor JS_ArenaGrow allocates what the sum has wrapped around to, and copies size bytes there.
   They overrun the new allocation exactly when only the rounding wraps, or the rest is rounded to less.
   */
  lemma WrappedCopyExactly(p: Params, size: nat, incr: nat)
    requires 0 < p.m && Aligned(ADDRESS_LIMIT, p.m) && 0 < size && size + (p.m - 1) < ADDRESS_LIMIT
    requires incr < ADDRESS_LIMIT && !Covers(p, size, incr)
    ensures AlignWord(p, Sum(size, incr)) < size <==>
      size + incr < ADDRESS_LIMIT || AlignUp(size + incr - ADDRESS_LIMIT, p.m) < size
  {
    hide Aligned, AlignDown;
    var sum := Sum(size, incr);
    if size + incr < ADDRESS_LIMIT {
      RoundedToNothing(p, sum);
    } else {
      WrapsOnce(size + incr);
      AlignWordCovers(p, sum);
    }
  }

  /** Then the bytes behind the new allocation, where the cursor stands, are overwritten. */
  lemma WrappedCopyOverruns(p: Params, s: Pool, t: Pool, q: nat, size: nat, nb: nat, r: nat, mem': Bytes, mem: Bytes)
    requires Inv(p, s, false) && CopyStep(p, s, t, q, size, nb, r, mem', mem) && r != 0 && nb < size
    ensures t.cur < |t.chain| && t.chain[t.cur].avail == r + nb
    ensures forall x: nat {:trigger ByteAt(mem', x)} | r + nb <= x < r + size ::
      ByteAt(mem', x) == ByteAt(mem, q + (x - r))
  {
    hide Aligned, AlignDown, NodesOk, BlocksApart, LivesOk, AllocStep;
    var u :| CopiedTo(p, s, t, u, q, size, nb, r, mem', mem);
    AllocKeepsInv(p, s, u, r, nb);
  }

  /** Sixteen bytes, grown by 2^32 - 8: eight are allocated, and sixteen are copied. */
  lemma WrappedCopyExample(p: Params)
    requires p.m == 8
    ensures !Covers(p, 16, ADDRESS_LIMIT - 8) && AlignWord(p, Sum(16, ADDRESS_LIMIT - 8)) == 8
  {
  }

  /**
   Of an oversized allocation JS_ArenaRealloc takes the sum for its new size.  Its assertion on that holds
   exactly when what is left exceeds arenasize, and then the allocation becomes smaller than it was.
   */
  lemma WrappedReallocExactly(p: Params, size: nat, incr: nat)
    requires size < ADDRESS_LIMIT && incr < ADDRESS_LIMIT && size + incr >= ADDRESS_LIMIT
    ensures p.arenasize < Sum(size, incr) <==> p.arenasize + ADDRESS_LIMIT < size + incr
    ensures Sum(size, incr) < size
  {
    WrapsOnce(size + incr);
  }

  lemma OwnsIs(p: Params, s: Pool, q: nat, size: nat)
    requires 0 < p.m && Owns(p, s, q, size)
    ensures q in s.live && 1 <= s.live[q].home < |s.chain|
  {
  }

  /** The size that a client holds can be rounded up. */
  lemma SizeAligns(p: Params, s: Pool, q: nat, size: nat)
    requires Inv(p, s, false) && Owns(p, s, q, size)
    ensures AlignWord(p, size) == AlignUp(size, p.m) == s.live[q].size
  {
    hide Aligned, AlignDown;
    assert Shape(p, s.chain[s.live[q].home]);
    RoundingStays(p, size);
  }

  /** Without a wrap-around the assertion of JS_ArenaRealloc on the new size holds. */
  lemma MovingExceeds(p: Params, s: Pool, q: nat, size: nat, incr: nat)
    requires Inv(p, s, false) && Owns(p, s, q, size) && Covers(p, size, incr)
    ensures var nb := AlignWord(p, Sum(size, incr));
      && nb == AlignUp(size + incr, p.m) && size <= nb
      && (GrowWay(p, s, q, size, nb) == Move ==> p.arenasize < Sum(size, incr))
  {
    hide Aligned, AlignDown, BlocksApart, LivesOk;
    AlignWordCovers(p, size + incr);
    var nb := AlignUp(size + incr, p.m);
    if GrowWay(p, s, q, size, nb) == Move {
      MoveOwnsArena(p, s, q, size, nb);
      if size + incr <= p.arenasize {
        AlignUpIsLeast(size + incr, p.arenasize, p.m);
      }
    }
  }

  /** What the inline branch makes of the pool, also when the sum has wrapped around. */
  lemma GrowsAtCursor(p: Params, mem: Memory, s: Pool, q: nat, size: nat, incr: nat)
    requires Inv(p, s, false) && Coupled(p, mem, s) && Owns(p, s, q, size) && mem.current in mem.structs
    requires GrowsInline(p, mem.structs[mem.current], q, size, incr)
    ensures var nb, a := AlignWord(p, Sum(size, incr)), mem.current;
      && q != 0 && GrowWay(p, s, q, size, nb) == InPlace
      && Coupled(p, mem.(structs := mem.structs[a := mem.structs[a].(avail := q + nb)]), GrownInPlace(s, q, nb))
      && (Covers(p, size, incr) ==>
            && Inv(p, GrownInPlace(s, q, nb), false)
            && (CurrentIsLast(s) ==> CurrentIsLast(GrownInPlace(s, q, nb))))
  {
    hide Aligned, AlignDown, BlocksApart, LivesOk;
    var nb := AlignWord(p, Sum(size, incr));
    CurrentStruct(p, mem, s, false);
    SizeAligns(p, s, q, size);
    EndsAtCursor(p, s, q, size);
    GrownIsCoupled(p, mem, s, q, nb);
    InsideChain(p, s, q);
    assert Shape(p, s.chain[s.live[q].home]);
    if Covers(p, size, incr) {
      MovingExceeds(p, s, q, size, incr);
      InPlaceKeepsInv(p, s, q, size, nb, map[]);
    }
  }

  lemma AbandonKeepsCoupled(p: Params, mem: Memory, s: Pool, q: nat)
    requires Coupled(p, mem, s)
    ensures Coupled(p, mem, Abandoned(s, q))
  {
  }

  lemma GrownIsCoupled(p: Params, mem: Memory, s: Pool, q: nat, nb: nat)
    requires Inv(p, s, false) && Coupled(p, mem, s) && q in s.live && s.live[q].home == s.cur
    ensures var a := mem.current;
            && a in mem.structs
            && Coupled(p, mem.(structs := mem.structs[a := mem.structs[a].(avail := q + nb)]), GrownInPlace(s, q, nb))
  {
    hide Aligned, AlignDown;
    InvDistinct(p, s, false);
    CoupledAvail(p, mem, s, s.cur, q + nb, GrownInPlace(s, q, nb), s.cur);
  }

  // ---------- Freeing ----------

  lemma SameEnd(p: Params, s: Pool, q: nat, i: nat)
    requires Inv(p, s, false) && q in s.live && LiveOk(p, s.chain, q, s.live[q])
    requires q + s.live[q].size == s.chain[s.live[q].home].avail && i < |s.chain|
    requires s.chain[i].avail == s.chain[s.live[q].home].avail
    ensures i == s.live[q].home
  {
    hide Aligned, AlignDown;
    var h := s.live[q].home;
    assert Shape(p, s.chain[h]);
    if i != 0 {
      assert Shape(p, s.chain[i]);
    }
    AddressIdentifiesArena(p, s, false, h, i, s.chain[i].avail);
  }

  /** Rounding up the end of an allocation gives the end that the pool keeps. */
  lemma EndAligned(p: Params, s: Pool, q: nat, size: nat)
    requires Inv(p, s, false) && Owns(p, s, q, size)
    ensures AlignWord(p, q + size) == q + s.live[q].size
  {
    hide Aligned, AlignDown;
    assert Shape(p, s.chain[s.live[q].home]);
    AlignUpShift(q, size, p.m);
    RoundingStays(p, q + size);
  }

  /** Rounding up an address whose rounded value exists does not wrap. */
  lemma RoundingStays(p: Params, x: nat)
    requires 0 < p.m && Aligned(ADDRESS_LIMIT, p.m) && AlignUp(x, p.m) < ADDRESS_LIMIT
    ensures AlignWord(p, x) == AlignUp(x, p.m)
  {
    hide Aligned, AlignDown;
    AlignedGap(AlignUp(x, p.m), ADDRESS_LIMIT, p.m);
  }

  lemma RetractKeepsCoupled(p: Params, mem: Memory, s: Pool, q: nat)
    requires Inv(p, s, false) && Coupled(p, mem, s) && q in s.live && s.live[q].home < |s.chain|
    ensures var a := s.chain[s.live[q].home].addr;
            && a in mem.structs
            && Coupled(p, mem.(structs := mem.structs[a := mem.structs[a].(avail := q)]), Retracted(s, q))
  {
    hide Aligned, AlignDown;
    InvDistinct(p, s, false);
    CoupledAvail(p, mem, s, s.live[q].home, q, Retracted(s, q), s.cur);
  }

  lemma NextNeighbours(p: Params, mem: Memory, s: Pool, i: nat)
    requires Inv(p, s, false) && Coupled(p, mem, s) && 1 <= i < |s.chain|
    ensures Neighbours(p, mem.structs, s, s.chain[i].addr, i)
  {
    hide Aligned, AlignDown;
    InvDistinct(p, s, false);
    assert Represents(mem.structs, s.chain, i - 1) && Represents(mem.structs, s.chain, i);
    if i + 1 < |s.chain| {
      assert Represents(mem.structs, s.chain, i + 1) && Shape(p, s.chain[i + 1]);
      OversizedByUse(p, s, i + 1);
    }
  }

  // ---------- Marks ----------

  /** JS_UPTRDIFF, the difference of two words. */
  function Minus(x: nat, y: nat): nat
    requires y <= ADDRESS_LIMIT
  {
    Wrap(x + (ADDRESS_LIMIT - y))
  }

  lemma MinusIs(x: nat, y: nat)
    requires x < ADDRESS_LIMIT && y < ADDRESS_LIMIT
    ensures Minus(x, y) == if y <= x then x - y else x + ADDRESS_LIMIT - y
  {
  }

  /** The test of JS_ARENA_RELEASE on the current arena, at a. */
  predicate ReleasesInline(p: Params, a: nat, n: JSArena, mark: nat)
    requires n.base <= ADDRESS_LIMIT
  {
    a != p.pool && Minus(mark, n.base) <= Minus(n.avail, n.base)
  }

  /**
   Where FirstBaseIsAlone fails, the current arena may have the base of the first one.  Then releasing
   to a mark made in the empty pool does not free it: it stays the current arena, linked as before,
   with nothing in it, and the pool is not the one that was marked.
   */
  lemma SameBaseMisleadsRelease(p: Params, mem: Memory, s: Pool)
    requires 0 < p.m && Aligned(ADDRESS_LIMIT, p.m) && Coupled(p, mem, s) && Distinct(s) && 1 <= s.cur
    requires s.chain[0] == First(p) && s.chain[s.cur].base == First(p).base <= s.chain[s.cur].avail < ADDRESS_LIMIT
    ensures var mark, n, a := First(p).avail, s.chain[s.cur], mem.current;
      && a in mem.structs && mem.structs[a].base <= ADDRESS_LIMIT && ReleasesInline(p, a, mem.structs[a], mark)
      && var mem' := mem.(structs := mem.structs[a := mem.structs[a].(avail := AlignWord(p, mark))]);
      && Coupled(p, mem', s.(chain := s.chain[s.cur := n.(avail := n.base)]))
      && !Coupled(p, mem', Truncated(s, 0, mark))
  {
    hide Aligned, AlignDown;
    var mark, n := First(p).avail, s.chain[s.cur];
    assert Represents(mem.structs, s.chain, s.cur);
    AlignUpIsLeast(mark, mark, p.m);
    RoundingStays(p, mark);
    MinusIs(mark, n.base);
    MinusIs(n.avail, n.base);
    CoupledAvail(p, mem, s, s.cur, n.base, s.(chain := s.chain[s.cur := n.(avail := n.base)]), s.cur);
  }

  /** An example: with an alignment of 64, a pool at 20 and an arena at 48, both bases are 64. */
  lemma BasesCollide()
    ensures var p := Params(20, 64, 64);
      !FirstBaseIsAlone(p) && p.pool + POOL_STRUCT <= 48 && First(p).base == BaseOf(48, p.m, false) == 64
  {
  }

  lemma LinkedAt(structs: map<nat, JSArena>, list: seq<Node>, i: nat)
    requires Linked(structs, list) && i < |list|
    ensures list[i].addr in structs && structs[list[i].addr].next == NextAddr(list, i)
  {
    hide Aligned, AlignDown;
    assert Represents(structs, list, i);
  }

  /** Freeing an arena of the chain does not touch the freelist, and addresses stay distinct. */
  lemma DropKeepsFree(structs: map<nat, JSArena>, list: seq<Node>, free: seq<Node>, i: nat)
    requires Linked(structs, free) && i + 1 < |list| && Distinct(Pool(list, free, i, map[]))
    requires list[i].addr in structs && list[i + 1].addr in structs
    ensures var here, gone := list[i].addr, list[i + 1].addr;
      Linked(structs[here := structs[here].(next := structs[gone].next)] - {gone}, free)
    ensures Distinct(Pool(list[..i + 1] + list[i + 2..], free, i, map[]))
  {
    hide Aligned, AlignDown;
    var here, gone := list[i].addr, list[i + 1].addr;
    LinkedElsewhere(structs, structs[here := structs[here].(next := structs[gone].next)] - {gone}, free);
  }

  lemma FirstStruct(p: Params, mem: Memory, s: Pool)
    requires Inv(p, s, false) && Coupled(p, mem, s)
    ensures 1 <= |s.chain| && At(mem.structs, s, 0, p.pool) && p.pool != 0 && 0 < p.m
    ensures At(mem.structs, s, |s.chain| - 1, s.chain[|s.chain| - 1].addr)
  {
    hide Aligned, AlignDown;
    assert Represents(mem.structs, s.chain, 0) && Represents(mem.structs, s.chain, |s.chain| - 1);
  }

  /** Unsigned subtraction decides whether x lies between the base and the cursor. */
  lemma BoundsOf(p: Params, s: Pool, j: nat, x: nat)
    requires Inv(p, s, false) && j < |s.chain| && x < ADDRESS_LIMIT
    ensures var n := s.chain[j];
            && n.base <= n.avail <= n.limit < ADDRESS_LIMIT
            && (Minus(x, n.base) <= Minus(n.avail, n.base) <==> n.base <= x <= n.avail)
  {
    hide Aligned, AlignDown;
    if j != 0 {
      assert Shape(p, s.chain[j]);
    }
    hide Minus;
    MinusIs(x, s.chain[j].base);
    MinusIs(s.chain[j].avail, s.chain[j].base);
  }

  lemma SameMark(p: Params, s: Pool, i: nat, j: nat, x: nat)
    requires Inv(p, s, false) && i < |s.chain| && j < |s.chain|
    requires s.chain[i].base <= x <= s.chain[i].avail && s.chain[j].base <= x <= s.chain[j].avail
    ensures i == j
  {
  }

  /** The effect on the links of setting the cursor of arena i back to the mark. */
  lemma RetractToMark(p: Params, mem: Memory, s: Pool, i: nat, mark: nat)
    requires Inv(p, s, false) && Coupled(p, mem, s) && MarkOk(p, s, i, mark)
    ensures AlignWord(p, mark) == mark
    ensures var a, chain := s.chain[i].addr, s.chain[i := s.chain[i].(avail := mark)];
            && a in mem.structs && Distinct(Pool(chain, s.free, i, map[]))
            && var structs := mem.structs[a := mem.structs[a].(avail := mark)];
            && Linked(structs, chain) && Linked(structs, s.free)
            && Coupled(p, mem.(structs := structs), s.(chain := chain))
  {
    hide Aligned, AlignDown;
    if i != 0 {
      assert Shape(p, s.chain[i]);
    }
    AlignUpIsLeast(mark, mark, p.m);
    RoundingStays(p, mark);
    InvDistinct(p, s, false);
    CoupledAvail(p, mem, s, i, mark, s.(chain := s.chain[i := s.chain[i].(avail := mark)]), s.cur);
  }

  /** When the tail is freed, what is left represents the truncated pool. */
  lemma TruncateCoupled(p: Params, mem0: Memory, mem: Memory, s: Pool, i: nat, mark: nat)
    requires i < |s.chain| && CurrentIsLast(s) && Coupled(p, mem0, s)
    requires Linked(mem.structs, s.chain[i := s.chain[i].(avail := mark)][..i + 1]) && Linked(mem.structs, s.free)
    requires mem.freelist == mem0.freelist && mem.slots == mem0.slots
    requires mem.current == if i + 1 < |s.chain| then s.chain[i].addr else mem0.current
    ensures Coupled(p, mem, Truncated(s, i, mark))
  {
    hide Aligned, AlignDown;
    var t := Truncated(s, i, mark);
    assert t.chain == s.chain[i := s.chain[i].(avail := mark)][..i + 1];
    forall k | 1 <= k < |t.chain| ensures BackPointer(p, mem.slots, t.chain, k) {
      assert BackPointer(p, mem.slots, s.chain, k);
    }
  }

  lemma WholeListCoupled(p: Params, mem: Memory, s: Pool, i: nat, mark: nat)
    requires i == |s.chain| - 1 && s.cur == i
    requires Coupled(p, mem, s.(chain := s.chain[i := s.chain[i].(avail := mark)]))
    ensures Coupled(p, mem, Truncated(s, i, mark))
  {
    hide Aligned, AlignDown;
    assert Truncated(s, i, mark).chain == s.chain[i := s.chain[i].(avail := mark)];
  }

  lemma NothingToFree(p: Params, mem: Memory, s: Pool)
    requires Inv(p, s, false) && Coupled(p, mem, s) && CurrentIsLast(s) && At(mem.structs, s, 0, p.pool)
    requires mem.structs[p.pool].next == 0
    ensures Coupled(p, mem, AllFreed(s))
  {
    hide Aligned, AlignDown;
    InvDistinct(p, s, false);
    assert |s.chain| == 1;
    assert s.chain[..1] == s.chain && s.chain[1..] + s.free == s.free;
  }

  lemma InitOk(p: Params, mem: Memory, s: Pool)
    requires ParamsOk(p) && s == Pool([First(p)], [], 0, map[])
    requires var b := First(p).base; mem.structs == map[p.pool := JSArena(0, b, b, b)]
    requires mem.current == p.pool && mem.freelist == 0
    ensures Inv(p, s, false) && Coupled(p, mem, s)
  {
  }

  class ArenaPool {
    const params: Params
    var structs: map<nat, JSArena>
    var slots: map<int, nat>
    var current: nat
    var freelist: nat
    var mem: Bytes
    ghost var pool: Pool

    ghost function Pointers(): Memory
      reads this
    {
      Memory(structs, slots, current, freelist)
    }

    ghost predicate Valid()
      reads this
    {
      Inv(params, pool, false) && Coupled(params, Pointers(), pool)
    }

    /** JS_InitArenaPool for a pool at addr, with no arenas on the freelist yet. */
    constructor (addr: nat, size: nat, align: nat, bytes: Bytes)
      requires align <= Pow2(31)
      requires forall m, k | ModulusFor(align, m, k) :: ParamsOk(Params(addr, m, size))
      ensures Valid() && CurrentIsLast(pool) && mem == bytes
      ensures params.pool == addr && params.arenasize == size && exists k :: ModulusFor(align, params.m, k)
      ensures pool == Pool([First(params)], [], 0, map[])
    {
      hide Aligned, AlignDown, Inv, Coupled;
      var m, k := PoolModulus(align);
      var first := BaseOf(addr, m, false);
      params := Params(addr, m, size);
      structs := map[addr := JSArena(0, first, first, first)];
      slots := map[];
      current := addr;
      freelist := 0;
      mem := bytes;
      pool := Pool([Node(addr, first, first, first)], [], 0, map[]);
      new;
      InitOk(params, Pointers(), pool);
    }

    /** The freelist search of JS_ArenaAllocate: unlink the first block of exactly gross bytes. */
    method TakeFree(gross: nat) returns (b: nat, ghost j: nat)
      requires Valid()
      modifies this`structs, this`freelist, this`pool
      ensures Valid()
      ensures b == 0 <==> NoneExact(old(pool).free, |old(pool).free|, gross)
      ensures b == 0 ==> pool == old(pool)
      ensures b != 0 ==>
        && j < |old(pool).free| && old(pool).free[j].addr == b
        && Exact(old(pool).free[j], gross) && NoneExact(old(pool).free, j, gross)
        && pool == WithoutFree(old(pool), j) && FreshBlock(params, pool, b, gross, -1)
    {
      InvDistinct(params, pool, false);
      var prev := 0;
      b, j := freelist, 0;
      while b != 0
        invariant Valid() && pool == old(pool) && j <= |pool.free| && Distinct(pool)
        invariant structs == old(structs) && freelist == old(freelist)
        invariant b == NextAddr(pool.free, j - 1) && NoneExact(pool.free, j, gross)
        invariant prev == if j == 0 then 0 else pool.free[j - 1].addr
        decreases |pool.free| - j
      {
        assert Represents(structs, pool.free, j) && FreeShape(params, pool.free[j]);
        if structs[b].limit - b == gross {
          CoupledReclaim(params, Pointers(), pool, j);
          ReclaimKeepsInv(params, pool, j);
          if prev == 0 {
            freelist := structs[b].next;
          } else {
            structs := structs[prev := structs[prev].(next := structs[b].next)];
          }
          pool := WithoutFree(pool, j);
          FreshFreeBlock(params, pool, old(pool).free[j], gross);
          return;
        }
        prev, b, j := b, structs[b].next, j + 1;
      }
    }

    /** Lay out an arena for nb bytes in the block at b and link it after the last one, at ap. */
    method Install(ap: nat, b: nat, nb: nat)
      requires Valid() && Aligned(nb, params.m) && ap == pool.chain[|pool.chain| - 1].addr
      requires FreshBlock(params, pool, b, Gross(params, nb), -1)
      modifies this`structs, this`slots, this`pool
      ensures Inv(params, pool, true) && Coupled(params, Pointers(), pool)
      ensures pool == Claimed(old(pool), Made(params, b, nb))
    {
      var oversized := nb > params.arenasize;
      ghost var n := Made(params, b, nb);
      ClaimIsInOrder(params, Pointers(), pool, ap, b, nb);
      hide Aligned, AlignDown, Inv, Coupled, FreshBlock, BaseOf, HeaderSpace;
      var base := BaseOf(b, params.m, oversized);
      var linked := structs[ap].(next := b);
      structs := structs[b := JSArena(0, base, b + Gross(params, nb), base)];
      structs := structs[ap := linked];
      if oversized {
        slots := slots[base - PTR_SIZE := ap];
      }
      pool := Claimed(pool, n);
    }

    /**
     The part of JS_ArenaAllocate that makes an arena.  The block comes from the freelist or else is
     blk, what malloc returned.
     */
    method Claim(ap: nat, nb: nat, blk: nat) returns (b: nat)
      requires Valid() && Aligned(nb, params.m) && nb < ADDRESS_LIMIT
      requires ap == pool.chain[|pool.chain| - 1].addr
      requires blk == 0 || FreshBlock(params, pool, blk, Gross(params, nb), -1)
      modifies this`structs, this`slots, this`freelist, this`pool
      ensures b == 0 ==>
        Valid() && pool == old(pool) && blk == 0 && NoneExact(pool.free, |pool.free|, Gross(params, nb))
      ensures b != 0 ==>
        && Inv(params, pool, true) && Coupled(params, Pointers(), pool)
        && pool.chain == old(pool).chain + [Made(params, b, nb)]
        && ClaimStep(params, old(pool), pool, b, nb)
      ensures b != 0 && NoneExact(old(pool).free, |old(pool).free|, Gross(params, nb)) ==> b == blk
    {
      hide Aligned, AlignDown, NodesOk, BlocksApart, LivesOk, Coupled, FreshBut;
      var oversized := nb > params.arenasize;
      var hdrsz := HeaderSpace(params.m, oversized);
      var gross := Wrap(hdrsz + if oversized then nb else params.arenasize);
      if gross < nb {
        TooBigForFree(params, pool, nb);
        return 0;
      }
      GrossIsExact(params, nb);
      ghost var j;
      b, j := TakeFree(gross);
      if b == 0 {
        if blk == 0 {
          return 0;
        }
        b := blk;
        Install(ap, b, nb);
        assert TakenFresh(params, old(pool), pool, b, nb);
      } else {
        Install(ap, b, nb);
        assert TakenFree(params, old(pool), pool, j, b, nb);
      }
    }

    /** JS_ArenaAllocate: search from the current arena forward for room, or make it. */
    method ArenaAllocate(nb: nat, blk: nat) returns (q: nat)
      requires Valid() && Aligned(nb, params.m) && nb < ADDRESS_LIMIT
      requires blk == 0 || FreshBlock(params, pool, blk, Gross(params, nb), -1)
      modifies this`structs, this`slots, this`current, this`freelist, this`pool
      ensures Valid() && (CurrentIsLast(old(pool)) ==> CurrentIsLast(pool))
      ensures AllocStep(params, old(pool), pool, q, nb) && (blk != 0 ==> q != 0)
      ensures MadeOf(params, old(pool), pool, nb, blk)
    {
      hide Aligned, AlignDown, FreshBlock, Coupled, Inv, Grown, AllocStep, ClaimStep;
      var a := current;
      var b := 0;
      ghost var pending := false;
      CurrentStruct(params, Pointers(), pool, pending);
      while nb > structs[a].limit || structs[a].avail > structs[a].limit - nb
        invariant Inv(params, pool, pending) && Coupled(params, Pointers(), pool)
        invariant a == current && At(structs, pool, pool.cur, a)
        invariant pending ==> Grown(params, old(pool), pool, b, nb) && HasRoom(pool.chain[pool.cur], nb)
        invariant !pending ==> pool == old(pool).(cur := pool.cur) && old(pool).cur <= pool.cur
        invariant !pending ==> forall k | old(pool).cur <= k < pool.cur :: !HasRoom(pool.chain[k], nb)
        invariant CurrentIsLast(old(pool)) ==> CurrentIsLast(pool)
        invariant MadeOf(params, old(pool), pool, nb, blk)
        decreases if pending then 0 else 1, |pool.chain| - pool.cur
      {
        CurrentStruct(params, Pointers(), pool, pending);
        if structs[a].next == 0 {
          NoNextIsLast(params, Pointers(), pool, pending);
          SameFreshBlock(params, old(pool), pool, blk, Gross(params, nb), -1);
          ghost var s := pool;
          b := Claim(a, nb, blk);
          if b == 0 {
            NothingFound(params, old(pool), pool, nb);
            return 0;
          }
          pending := true;
          NewIsLast(params, Pointers(), old(pool), s, pool, b, nb);
          current := b;
          pool := pool.(cur := |pool.chain| - 1);
          a := b;
        } else {
          NextIsInChain(params, Pointers(), pool, pending);
          a := structs[a].next;
          current := a;
          pool := pool.(cur := pool.cur + 1);
        }
      }
      q := structs[a].avail;
      Bump(old(pool), pending, b, nb);
    }

    /** The end of JS_ArenaAllocate, and the fast path of JS_ARENA_ALLOCATE. */
    method Bump(ghost s0: Pool, ghost pending: bool, ghost b: nat, nb: nat)
      requires Inv(params, pool, pending) && Coupled(params, Pointers(), pool) && Aligned(nb, params.m)
      requires At(structs, pool, pool.cur, current) && HasRoom(pool.chain[pool.cur], nb) && Inv(params, s0, false)
      requires pending ==> Grown(params, s0, pool, b, nb)
      requires !pending ==> pool == s0.(cur := pool.cur) && s0.cur <= pool.cur
      requires !pending ==> forall k | s0.cur <= k < pool.cur :: !HasRoom(s0.chain[k], nb)
      modifies this`structs, this`pool
      ensures Valid() && (CurrentIsLast(old(pool)) ==> CurrentIsLast(pool))
      ensures var q := old(pool).chain[old(pool).cur].avail; q != 0 && AllocStep(params, s0, pool, q, nb)
      ensures pool == Bumped(old(pool), old(pool).cur, nb)
    {
      hide Aligned, AlignDown, Inv, Coupled, AllocStep, Grown;
      ghost var t := Bumped(pool, pool.cur, nb);
      BumpCurrent(params, Pointers(), pool, pending, nb, t);
      if pending {
        BumpAnew(params, s0, pool, b, nb);
      } else {
        BumpInto(params, s0, pool, nb);
      }
      AllocKeepsInv(params, s0, t, pool.chain[pool.cur].avail, nb);
      var a := current;
      structs := structs[a := structs[a].(avail := structs[a].avail + nb)];
      pool := t;
    }

    /** JS_ARENA_ALLOCATE: take room in the current arena if it has any, or call JS_ArenaAllocate. */
    method Allocate(nb: nat, blk: nat) returns (q: nat)
      requires Valid() && nb < ADDRESS_LIMIT
      requires blk == 0 || FreshBlock(params, pool, blk, Gross(params, AlignWord(params, nb)), -1)
      modifies this`structs, this`slots, this`current, this`freelist, this`pool
      ensures Valid() && (CurrentIsLast(old(pool)) ==> CurrentIsLast(pool))
      ensures AllocStep(params, old(pool), pool, q, AlignWord(params, nb)) && (blk != 0 ==> q != 0)
      ensures MadeOf(params, old(pool), pool, AlignWord(params, nb), blk)
    {
      hide Aligned, AlignDown, FreshBlock, Coupled, Inv, AllocStep;
      var a := current;
      CurrentStruct(params, Pointers(), pool, false);
      var nb' := AlignWord(params, nb);
      q := structs[a].avail;
      if nb' > structs[a].limit || q > structs[a].limit - nb' {
        q := ArenaAllocate(nb', blk);
      } else {
        Bump(pool, false, 0, nb');
      }
    }

    // ---------- Growing ----------

    /** realloc of the block at a from oldn to n bytes, with b as its answer. */
    method Reallocate(a: nat, oldn: nat, n: nat, b: nat)
      modifies this`mem
      ensures SameBytes(mem, b, old(mem), a, if oldn < n then oldn else n)
      ensures SameOutside(mem, old(mem), a, a + oldn, b, b + n)
    {
      mem := Copied(mem, b, a, if oldn < n then oldn else n);
    }

    /** memmove and memcpy. */
    method Copy(dst: nat, src: nat, n: nat)
      modifies this`mem
      ensures SameBytes(mem, dst, old(mem), src, n)
      ensures SameOutside(mem, old(mem), dst, dst + n, dst, dst + n)
    {
      mem := Copied(mem, dst, src, n);
    }

    /** The link that points to the current arena, found from the start of the chain. */
    method LinkToCurrent() returns (ap: nat)
      requires Valid() && 1 <= pool.cur
      ensures ap == pool.chain[pool.cur - 1].addr
    {
      InvDistinct(params, pool, false);
      ap := params.pool;
      ghost var i := 0;
      assert Represents(structs, pool.chain, 0);
      while structs[ap].next != current
        invariant i < pool.cur && ap == pool.chain[i].addr && Represents(structs, pool.chain, i)
        decreases pool.cur - i
      {
        assert Represents(structs, pool.chain, i + 1);
        ap := structs[ap].next;
        i := i + 1;
      }
    }

    /** The link that points to the arena of q: from its back-pointer if it is oversized. */
    method LinkTo(q: nat, size: nat) returns (ap: nat)
      requires Valid() && Owns(params, pool, q, size) && q == pool.chain[pool.live[q].home].base
      requires size > params.arenasize || pool.live[q].home == pool.cur
      ensures ap == pool.chain[pool.live[q].home - 1].addr && ap in structs
      ensures structs[ap].next == pool.chain[pool.live[q].home].addr
    {
      hide Aligned, AlignDown, Inv, Coupled;
      LinkIsBefore(params, Pointers(), pool, q, size);
      if size > params.arenasize {
        ap := slots[q - PTR_SIZE];
      } else {
        ap := LinkToCurrent();
      }
    }

    /**
     JS_ArenaRealloc: the arena that q has to itself is reallocated as an oversized one.  moved is
     what realloc returned: 0, the old address, or any block apart from the other arenas.
     */
    method ArenaRealloc(q: nat, size: nat, incr: nat, moved: nat) returns (r: nat)
      requires Valid() && Owns(params, pool, q, size) && OwnsArena(pool, q)
      requires size > params.arenasize || pool.live[q].home == pool.cur
      requires params.arenasize < Sum(size, incr) && ReallocAnswer(params, pool, q, Sum(size, incr), moved)
      modifies this`structs, this`slots, this`current, this`pool, this`mem
      ensures Valid() && (CurrentIsLast(old(pool)) ==> CurrentIsLast(pool))
      ensures r == 0 <==> moved == 0
      ensures q in old(pool).live && old(pool).live[q].home < |old(pool).chain|
      ensures var n := Sum(size, incr);
        if r == 0 then pool == old(pool) && mem == old(mem)
        else MovedTo(params, old(pool), pool, q, size, AlignUp(n, params.m), n, moved, r, mem, old(mem))
    {
      hide Aligned, AlignDown, Inv, Coupled, FreshBlock, FreshBut, Shape, Used;
      hide SameBytes, SameOutside, Neighbours, Relinked, Moved, RoomFor;
      var ap := LinkTo(q, size);
      var a := structs[ap].next;
      var aoff := Sum(size, incr);
      if moved == 0 {
        return 0;
      }
      ghost var n := Rebuilt(params, moved, aoff);
      PrepareRealloc(params, Pointers(), pool, q, size, moved, aoff);
      r := MoveArena(ap, a, q, size, aoff, moved, pool.live[q].home);
      pool := Moved(pool, q, n, AlignUp(aoff, params.m));
      assert MovedTo(params, old(pool), pool, q, size, AlignUp(aoff, params.m), aoff, moved, r, mem, old(mem));
    }

    /** The work of JS_ArenaRealloc: realloc, update the pointers, and realign the bytes. */
    method MoveArena(ap: nat, a: nat, q: nat, size: nat, aoff: nat, moved: nat, ghost i: nat) returns (r: nat)
      requires 0 < params.m && RoomFor(pool, q, size, Lesser(size, aoff), Rebuilt(params, moved, aoff))
      requires i == pool.live[q].home
      requires 1 <= i < |pool.chain| && ap == pool.chain[i - 1].addr && a == pool.chain[i].addr
      requires a in structs && structs[a].limit == pool.chain[i].limit && a <= q && a <= structs[a].limit
      requires Neighbours(params, structs, pool, moved, i)
      modifies this`structs, this`slots, this`current, this`mem
      ensures Pointers() == Relinked(params, old(Pointers()), pool, i, Rebuilt(params, moved, aoff))
      ensures r == BaseOf(moved, params.m, true)
      ensures SameBytes(mem, r, old(mem), q, Lesser(size, aoff))
      ensures SameOutside(mem, old(mem), pool.chain[i].addr, pool.chain[i].limit, moved,
                          TouchedEnd(Rebuilt(params, moved, aoff), size))
    {
      hide Aligned, AlignDown, RoomFor, Neighbours, Relinked, SameBytes, SameOutside;
      ghost var n := Rebuilt(params, moved, aoff);
      var boff, oldn := q - a, structs[a].limit - a;
      var gross := HeaderSpace(params.m, true) + aoff;
      Reallocate(a, oldn, gross, moved);
      Relink(ap, a, moved, aoff, i);
      r := structs[moved].base;
      ghost var mem1 := mem;
      if boff != r - moved {
        Copy(r, moved + boff, size);
      }
      ReallocBytes(pool, q, size, Lesser(size, aoff), n, a, oldn, gross, old(mem), mem1, mem);
    }

    /** The pointer updates of JS_ArenaRealloc, when the arena at a has come to lie at moved. */
    method Relink(ap: nat, a: nat, moved: nat, aoff: nat, ghost i: nat)
      requires 0 < params.m && 1 <= i < |pool.chain| && ap == pool.chain[i - 1].addr && a == pool.chain[i].addr
      requires Neighbours(params, structs, pool, moved, i)
      modifies this`structs, this`slots, this`current
      ensures moved in structs && structs[moved].base == BaseOf(moved, params.m, true)
      ensures Pointers() == Relinked(params, old(Pointers()), pool, i, Rebuilt(params, moved, aoff))
    {
      hide Aligned, AlignDown, AlignUp, BaseOf, HeaderSpace;
      ghost var n := Rebuilt(params, moved, aoff);
      ghost var t := Relinked(params, Pointers(), pool, i, n);
      RelinkedStructs(structs, a, moved, ap, NextAddr(pool.chain, i), n);
      var b := structs[a].next;
      var base := BaseOf(moved, params.m, true);
      structs := (structs - {a})[moved := structs[a]];
      if moved != a {
        if current == a {
          current := moved;
        }
        if b != 0 && structs[b].avail - structs[b].base > params.arenasize {
          slots := slots[structs[b].base - PTR_SIZE := moved];
        }
        structs := structs[ap := structs[ap].(next := moved)];
      }
      structs := structs[moved := JSArena(structs[moved].next, base, moved + HeaderSpace(params.m, true) + aoff,
                                          AlignUp(base + aoff, params.m))];
      slots := slots[base - PTR_SIZE := ap];
      assert structs == t.structs && slots == t.slots && current == t.current;
    }

    /** JS_ArenaGrow: reallocate an oversized arena, or allocate anew and copy. */
    method ArenaGrow(q: nat, size: nat, incr: nat, blk: nat, moved: nat) returns (r: nat)
      requires Valid() && Owns(params, pool, q, size)
      requires blk == 0 || FreshBlock(params, pool, blk, Gross(params, AlignWord(params, Sum(size, incr))), -1)
      requires size > params.arenasize ==>
        params.arenasize < Sum(size, incr) && ReallocAnswer(params, pool, q, Sum(size, incr), moved)
      modifies this`structs, this`slots, this`current, this`freelist, this`pool, this`mem
      ensures Valid() && (CurrentIsLast(old(pool)) ==> CurrentIsLast(pool))
      ensures q in old(pool).live && old(pool).live[q].home < |old(pool).chain|
      ensures var n, nb := Sum(size, incr), AlignWord(params, Sum(size, incr));
        if size <= params.arenasize then CopyStep(params, old(pool), pool, q, size, nb, r, mem, old(mem))
        else if r == 0 then pool == old(pool) && mem == old(mem)
        else MovedTo(params, old(pool), pool, q, size, AlignUp(n, params.m), n, moved, r, mem, old(mem))
      ensures if size > params.arenasize then r == 0 <==> moved == 0 else r == 0 ==> blk == 0
      ensures size <= params.arenasize ==>
        MadeOf(params, old(pool), pool, AlignWord(params, Sum(size, incr)), blk)
    {
      hide Aligned, AlignDown, Inv, Coupled, FreshBlock, SameBytes, SameOutside, AllocStep, OwnsArena, LiveOk, MovedTo;
      InsideChain(params, pool, q);
      if size > params.arenasize {
        OversizedOwnsArena(params, pool, q, size);
        r := ArenaRealloc(q, size, incr, moved);
      } else {
        r := Allocate(Sum(size, incr), blk);
        if r != 0 {
          Copy(r, q, size);
          AbandonKeepsInv(params, pool, q);
          AbandonKeepsCoupled(params, Pointers(), pool, q);
          ghost var u := pool;
          pool := Abandoned(pool, q);
          assert CopiedTo(params, old(pool), pool, u, q, size, AlignWord(params, Sum(size, incr)), r, mem, old(mem));
        }
      }
    }

    /** The part of JS_ARENA_GROW that needs no call, whatever the sizes. */
    method GrowInline(q: nat, size: nat, incr: nat) returns (done: bool)
      requires 0 < params.m && current in structs
      modifies this`structs
      ensures done == GrowsInline(params, old(structs)[current], q, size, incr)
      ensures structs == if done
        then old(structs)[current := old(structs)[current].(avail := q + AlignWord(params, Sum(size, incr)))]
        else old(structs)
    {
      var a := current;
      done := false;
      if structs[a].avail == q + AlignWord(params, size) {
        var nb := AlignWord(params, Sum(size, incr));
        if structs[a].limit >= nb && q <= structs[a].limit - nb {
          structs := structs[a := structs[a].(avail := q + nb)];
          done := true;
        }
      }
    }

    /** JS_ARENA_GROW: grow in place if q ends at the cursor and there is room, or move it. */
    method Grow(q: nat, size: nat, incr: nat, blk: nat, moved: nat) returns (r: nat)
      requires Valid() && GrowRequest(params, pool, q, size, incr, blk, moved)
      modifies this`structs, this`slots, this`current, this`freelist, this`pool, this`mem
      ensures GrowOutcome(params, old(pool), pool, q, size, incr, moved, r, mem, old(mem))
      ensures Coupled(params, Pointers(), pool)
      ensures var nb := AlignWord(params, Sum(size, incr));
        Covers(params, size, incr) || GrowWay(params, old(pool), q, size, nb) != InPlace ==>
          Valid() && (CurrentIsLast(old(pool)) ==> CurrentIsLast(pool))
      ensures Covers(params, size, incr) ==>
        GrowStep(params, old(pool), pool, q, size, AlignUp(size + incr, params.m), r, mem, old(mem))
      ensures var nb := AlignWord(params, Sum(size, incr));
        match GrowWay(params, old(pool), q, size, nb)
        case InPlace => r != 0
        case Move => r == 0 <==> moved == 0
        case Copy => (r == 0 ==> blk == 0) && MadeOf(params, old(pool), pool, nb, blk)
    {
      hide Aligned, AlignDown, Inv, Coupled, FreshBlock, MovedTo, CopyStep, Owns, MadeOf;
      CurrentStruct(params, Pointers(), pool, false);
      SizeAligns(params, pool, q, size);
      OwnsIs(params, pool, q, size);
      ghost var nb := AlignWord(params, Sum(size, incr));
      ghost var pointers := Pointers();
      if Covers(params, size, incr) {
        MovingExceeds(params, pool, q, size, incr);
      }
      var done := GrowInline(q, size, incr);
      if done {
        GrowsAtCursor(params, pointers, pool, q, size, incr);
        pool := GrownInPlace(pool, q, nb);
        r := q;
      } else if structs[current].avail == q + AlignWord(params, size) && q == structs[current].base {
        EndsAtCursor(params, pool, q, size);
        r := ArenaRealloc(q, size, incr, moved);
      } else {
        r := ArenaGrow(q, size, incr, blk, moved);
      }
      if Covers(params, size, incr) {
        CoveredOutcome(params, old(pool), pool, q, size, incr, moved, r, mem, old(mem));
      }
    }

    // ---------- Freeing one allocation ----------

    /** The search of JS_ArenaFreeAllocation: the link to the arena whose cursor is at end. */
    method LinkToEnd(q: nat, end: nat) returns (ap: nat)
      requires Valid() && q in pool.live && LiveOk(params, pool.chain, q, pool.live[q])
      requires end == q + pool.live[q].size == pool.chain[pool.live[q].home].avail
      ensures ap == pool.chain[pool.live[q].home - 1].addr
    {
      hide Aligned, AlignDown, BlocksApart, LivesOk;
      ghost var i := 0;
      ap := params.pool;
      InvDistinct(params, pool, false);
      ArenaStruct(params, Pointers(), pool, 0);
      var a := structs[ap].next;
      while a != 0
        invariant i < pool.live[q].home && ap == pool.chain[i].addr && a == pool.chain[i + 1].addr
        decreases pool.live[q].home - i
      {
        ArenaStruct(params, Pointers(), pool, i + 1);
        if structs[a].avail == end {
          SameEnd(params, pool, q, i + 1);
          return;
        }
        ap := a;
        a := structs[a].next;
        i := i + 1;
      }
    }

    /** JS_ArenaFreeAllocation of the last allocation in its arena. */
    method FreeAllocation(q: nat, size: nat)
      requires Valid() && Owns(params, pool, q, size)
      requires q + pool.live[q].size == pool.chain[pool.live[q].home].avail
      modifies this`structs, this`slots, this`current, this`pool
      ensures Valid()
      ensures CurrentIsLast(old(pool)) ==> CurrentIsLast(pool)
      ensures pool == Freed(params, old(pool), q)
      ensures pool.live.Keys == old(pool).live.Keys - {q} && pool.free == old(pool).free
      ensures forall x | x in pool.live :: pool.live[x].size == old(pool).live[x].size
      ensures var s, i := old(pool), old(pool).live[q].home;
        pool.chain == if q == s.chain[i].base then s.chain[..i] + s.chain[i + 1..]
                      else s.chain[i := s.chain[i].(avail := q)]
    {
      hide Aligned, AlignDown, Inv, Coupled, LiveOk;
      ghost var i := pool.live[q].home;
      InsideChain(params, pool, q);
      var ap;
      if size > params.arenasize {
        OversizedOwnsArena(params, pool, q, size);
        ap := LinkTo(q, size);
      } else {
        EndAligned(params, pool, q, size);
        ap := LinkToEnd(q, AlignWord(params, q + size));
      }
      ArenaStruct(params, Pointers(), pool, i);
      ArenaStruct(params, Pointers(), pool, i - 1);
      var a := structs[ap].next;
      if structs[a].base != q {
        RetractKeepsInv(params, pool, q);
        RetractKeepsCoupled(params, Pointers(), pool, q);
        structs := structs[a := structs[a].(avail := q)];
        pool := Retracted(pool, q);
      } else {
        RemoveKeepsInv(params, pool, q);
        CoupledRemove(params, Pointers(), pool, i, Removed(pool, q));
        NextNeighbours(params, Pointers(), pool, i);
        Unlink(ap, a, i);
        pool := Removed(pool, q);
      }
    }

    /** Unlink the doomed arena a after ap, re-pointing the next arena's header, and free it. */
    method Unlink(ap: nat, a: nat, ghost i: nat)
      requires 1 <= i < |pool.chain| && ap == pool.chain[i - 1].addr && a == pool.chain[i].addr
      requires Neighbours(params, structs, pool, a, i)
      modifies this`structs, this`slots, this`current
      ensures ap in old(structs) && Pointers() == CutOut(params, old(Pointers()), pool, i)
    {
      if current == a {
        current := ap;
      }
      var b := structs[a].next;
      structs := structs[ap := structs[ap].(next := b)];
      if b != 0 && structs[b].avail - structs[b].base > params.arenasize {
        slots := slots[structs[b].base - PTR_SIZE := ap];
      }
      structs := structs - {a};
    }

    // ---------- Marks ----------

    /** JS_ARENA_MARK. */
    method Mark() returns (mark: nat)
      requires Valid()
      ensures mark == pool.chain[pool.cur].avail
    {
      CurrentStruct(params, Pointers(), pool, false);
      mark := structs[current].avail;
    }

    /** FreeArenaList(pool, head, JS_TRUE): free the arenas behind arena i, which is at head. */
    method FreeTail(head: nat, ghost list: seq<Node>, ghost free: seq<Node>, ghost i: nat)
      requires Linked(structs, list) && Linked(structs, free) && i < |list| && head == list[i].addr
      requires Distinct(Pool(list, free, i, map[]))
      modifies this`structs, this`current
      ensures Linked(structs, list[..i + 1]) && Linked(structs, free)
      ensures current == if i + 1 < |list| then head else old(current)
    {
      hide Linked;
      LinkedAt(structs, list, i);
      var a := structs[head].next;
      if a == 0 {
        assert list[..i + 1] == list;
        return;
      }
      ghost var rest := list;
      while a != 0
        invariant i < |rest| && rest[..i + 1] == list[..i + 1] && a == NextAddr(rest, i)
        invariant Linked(structs, rest) && Linked(structs, free) && Distinct(Pool(rest, free, i, map[]))
        decreases |rest|
      {
        LinkedDropAfter(structs, rest, i);
        DropKeepsFree(structs, rest, free, i);
        structs := structs[head := structs[head].(next := structs[a].next)] - {a};
        rest := rest[..i + 1] + rest[i + 2..];
        LinkedAt(structs, rest, i);
        a := structs[head].next;
      }
      assert rest == list[..i + 1];
      current := head;
    }

    /** JS_ArenaRelease: find the arena of the mark, retract its cursor, and free what follows. */
    method ArenaRelease(mark: nat, ghost i: nat)
      requires Valid() && CurrentIsLast(pool) && MarkOk(params, pool, i, mark)
      modifies this`structs, this`current, this`pool
      ensures Valid() && pool == Truncated(old(pool), i, mark)
      ensures var s := old(pool);
        && pool.chain == s.chain[..i] + [s.chain[i].(avail := mark)] && pool.cur == i && pool.free == s.free
        && forall q :: q in pool.live <==> q in s.live && (s.live[q].home < i || (s.live[q].home == i && q < mark))
      ensures forall q | q in pool.live :: pool.live[q] == old(pool).live[q]
    {
      hide Aligned, AlignDown, Inv, Coupled, Linked;
      ghost var j := 0;
      var a := params.pool;
      FirstStruct(params, Pointers(), pool);
      RetractToMark(params, Pointers(), pool, i, mark);
      while a != 0
        invariant Valid() && pool == old(pool) && structs == old(structs) && current == old(current)
        invariant j <= i && At(structs, pool, j, a) && a != 0
        decreases i - j
      {
        BoundsOf(params, pool, j, mark);
        BoundsOf(params, pool, i, mark);
        if Minus(mark, structs[a].base) <= Minus(structs[a].avail, structs[a].base) {
          SameMark(params, pool, i, j, mark);
          structs := structs[a := structs[a].(avail := AlignWord(params, mark))];
          ghost var list := pool.chain[i := pool.chain[i].(avail := mark)];
          FreeTail(a, list, pool.free, i);
          TruncateKeepsInv(params, pool, i, mark);
          TruncateCoupled(params, old(Pointers()), Pointers(), pool, i, mark);
          pool := Truncated(pool, i, mark);
          return;
        }
        assert j != i;
        ArenaStruct(params, Pointers(), pool, j + 1);
        InvDistinct(params, pool, false);
        a := structs[a].next;
        j := j + 1;
      }
    }

    /** The part of JS_ARENA_RELEASE that needs no call. */
    method ReleaseInline(mark: nat) returns (done: bool)
      requires 0 < params.m && current in structs && structs[current].base <= ADDRESS_LIMIT
      modifies this`structs
      ensures done == ReleasesInline(params, current, old(structs)[current], mark)
      ensures structs == if done
        then old(structs)[current := old(structs)[current].(avail := AlignWord(params, mark))] else old(structs)
    {
      var a := current;
      done := a != params.pool && Minus(mark, structs[a].base) <= Minus(structs[a].avail, structs[a].base);
      if done {
        structs := structs[a := structs[a].(avail := AlignWord(params, mark))];
      }
    }

    /** JS_ARENA_RELEASE: retract the cursor of the current arena, or call JS_ArenaRelease. */
    method Release(mark: nat, ghost i: nat)
      requires Valid() && CurrentIsLast(pool) && MarkOk(params, pool, i, mark)
      modifies this`structs, this`current, this`pool
      ensures Valid() && pool == Truncated(old(pool), i, mark)
      ensures var s := old(pool);
        && pool.chain == s.chain[..i] + [s.chain[i].(avail := mark)] && pool.cur == i && pool.free == s.free
        && forall q :: q in pool.live <==> q in s.live && (s.live[q].home < i || (s.live[q].home == i && q < mark))
      ensures forall q | q in pool.live :: pool.live[q] == old(pool).live[q]
    {
      hide Aligned, AlignDown, Inv, Coupled, Linked;
      CurrentStruct(params, Pointers(), pool, false);
      RetractToMark(params, Pointers(), pool, i, mark);
      BoundsOf(params, pool, pool.cur, mark);
      BoundsOf(params, pool, i, mark);
      var done := ReleaseInline(mark);
      if done {
        SameMark(params, pool, i, pool.cur, mark);
        TruncateKeepsInv(params, pool, i, mark);
        WholeListCoupled(params, Pointers(), pool, i, mark);
        pool := Truncated(pool, i, mark);
      } else {
        ArenaRelease(mark, i);
      }
    }

    /** JS_FreeArenaPool: FreeArenaList(pool, &pool->first, JS_FALSE). */
    method FreeArenaPool()
      requires Valid() && CurrentIsLast(pool)
      modifies this`structs, this`current, this`freelist, this`pool
      ensures Valid() && CurrentIsLast(pool)
      ensures pool == AllFreed(old(pool))
      ensures pool.chain == [old(pool).chain[0]] && pool.live == map[]
      ensures pool.free == old(pool).chain[1..] + old(pool).free
    {
      hide Aligned, AlignDown, Inv, Coupled;
      FirstStruct(params, Pointers(), pool);
      FreeAllKeepsInv(params, pool);
      var head := params.pool;
      var a := structs[head].next;
      if a == 0 {
        NothingToFree(params, Pointers(), pool);
        pool := AllFreed(pool);
        return;
      }
      InvDistinct(params, pool, false);
      var ap := LastArena();
      ghost var structs' := structs[ap := structs[ap].(next := freelist)][head := structs[head].(next := 0)];
      CoupledFreeAll(params, Pointers(), pool, structs');
      structs := structs[ap := structs[ap].(next := freelist)];
      freelist := a;
      structs := structs[head := structs[head].(next := 0)];
      current := head;
      pool := AllFreed(pool);
    }

    /** The loop of FreeArenaList that finds the last link of the chain. */
    method LastArena() returns (ap: nat)
      requires Valid()
      ensures At(structs, pool, |pool.chain| - 1, ap)
    {
      hide Aligned, AlignDown, Inv, Coupled;
      ghost var i := 0;
      FirstStruct(params, Pointers(), pool);
      InvDistinct(params, pool, false);
      ap := params.pool;
      while structs[ap].next != 0
        invariant At(structs, pool, i, ap)
        decreases |pool.chain| - i
      {
        ArenaStruct(params, Pointers(), pool, i + 1);
        ap := structs[ap].next;
        i := i + 1;
      }
    }
  }
}
