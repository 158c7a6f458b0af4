/**
 The pointer code under a client: any program that sees what its earlier requests have returned and is
 allowed to make each request, whatever malloc and realloc have answered, takes the pool through a
 run.  So what ArenaRuns.dfy proves of runs holds of the code.
 */
module ArenaScripts {
  import opened Arena
  import opened ArenaLayout
  import opened ArenaLinks
  import opened ArenaModel
  import opened ArenaRuns
  import opened ArenaSteps
  import opened Bits

  // ---------- The system underneath ----------

  /**
   malloc and realloc, with blocks at multiples of al.  They know the number of the request, the blocks that
   are taken, and the size asked for; realloc also the block it is given.
   */
  datatype System = System(al: nat, malloc: (nat, map<nat, JSArena>, nat) -> nat,
                           realloc: (nat, map<nat, JSArena>, nat, nat) -> nat)

  /** b is 0, or n bytes apart from the pool and from all blocks that are taken, but perhaps for one. */
  ghost predicate IsBlock(p: Params, al: nat, m: map<nat, JSArena>, but: nat, b: nat, n: nat)
    requires 0 < al
  {
    b == 0 ||
      (&& b + n < ADDRESS_LIMIT && Aligned(b, al) && (b + n <= p.pool || p.pool + POOL_STRUCT <= b)
       && forall a | a in m && a != p.pool && a != but :: m[a].limit <= b || b + n <= a)
  }

  ghost predicate Honest(p: Params, sys: System) {
    && 0 < sys.al
    && (forall k, m, n :: IsBlock(p, sys.al, m, p.pool, sys.malloc(k, m, n), n))
    && (forall k, m, a, n :: IsBlock(p, sys.al, m, a, sys.realloc(k, m, a, n), n))
  }

  lemma BlockIsFresh(p: Params, mem: Memory, s: Pool, al: nat, i: nat, b: nat, n: nat)
    requires Inv(p, s, false) && Coupled(p, mem, s) && i < |s.chain| && 0 < al
    requires IsBlock(p, al, mem.structs, s.chain[i].addr, b, n) && b != 0 && 0 < n
    ensures FreshBlock(p, s, b, n, if i == 0 then -1 else i)
  {
    hide Aligned, AlignDown, LivesOk, BlocksApart;
    InvDistinct(p, s, false);
    var block := Node(b, b, b + n, b);
    forall k | 0 <= k < |s.chain| && (i == 0 || k != i) ensures Apart(p, s.chain[k], block) {
      assert Represents(mem.structs, s.chain, k);
      assert k != 0 ==> s.chain[k].addr != s.chain[0].addr == p.pool && s.chain[k].addr != s.chain[i].addr;
    }
    forall k | 0 <= k < |s.free| ensures Apart(p, s.free[k], block) {
      assert Represents(mem.structs, s.free, k);
    }
  }

  // ---------- Clients ----------

  datatype Request =
    | AskAllocate(nb: nat)
    | AskGrow(q: nat, size: nat, incr: nat)
    | AskFree(q: nat, size: nat)
    | AskRelease(mark: nat)
    | AskFreePool
    | AskWrite(q: nat, x: nat, byte: int)
    | AskRead(q: nat, x: nat)
    | AskMark

  /** A program: its next request, from what the earlier ones have returned. */
  type Client = seq<int> -> Request

  /** What a client has to see to, when blocks lie at multiples of al. */
  ghost predicate Allowed(p: Params, al: nat, s: Pool, r: Request)
    requires 0 < p.m && 0 < al
  {
    match r
    case AskAllocate(nb) => nb < ADDRESS_LIMIT
    case AskGrow(q, size, incr) =>
      && s.cur < |s.chain| && Owns(p, s, q, size) && Covers(p, size, incr)
      && (GrowWay(p, s, q, size, AlignUp(size + incr, p.m)) == Move ==>
            && HeaderSpace(p.m, true) + size + incr < ADDRESS_LIMIT
            && forall a: nat | Aligned(a, al) :: EndsInside(a, p.m, size + incr))
    case AskFree(q, size) => Owns(p, s, q, size) && q + s.live[q].size == s.chain[s.live[q].home].avail
    case AskRelease(mark) => exists i: nat :: MarkOk(p, s, i, mark)
    case AskFreePool => true
    case AskWrite(q, x, _) => q in s.live && q <= x < q + s.live[q].size
    case AskRead(q, x) => q in s.live && q <= x < q + s.live[q].size
    case AskMark => true
  }

  /** The operation does what was asked. */
  predicate Answers(p: Params, r: Request, op: Op)
    requires 0 < p.m
  {
    match r
    case AskAllocate(nb) => op.Allocate? && op.nb == AlignWord(p, nb)
    case AskGrow(q, size, incr) => op.Grow? && op.q == q && op.size == size && op.nb == AlignUp(size + incr, p.m)
    case AskFree(q, _) => op == Free(q)
    case AskRelease(mark) => op.Release? && op.mark == mark
    case AskFreePool => op == FreePool
    case AskWrite(q, _, _) => op == Write(q)
    case AskRead(q, x) => op.Read? && op.q == q && op.x == x
    case AskMark => op.Mark?
  }

  /** What an operation returns to the client. */
  function Result(op: Op): int {
    match op
    case Allocate(q, _) => q
    case Grow(_, _, _, r) => r
    case Read(_, _, byte) => byte
    case Mark(mark) => mark
    case _ => 0
  }

  function Results(ops: seq<Op>): (r: seq<int>)
    ensures |r| == |ops|
  {
    seq(|ops|, i requires 0 <= i < |ops| => Result(ops[i]))
  }

  /** The operations are what the client asks for, one after the other. */
  ghost predicate Follows(p: Params, client: Client, ops: seq<Op>)
    requires 0 < p.m
  {
    forall k | 0 <= k < |ops| :: Answers(p, client(Results(ops[..k])), ops[k])
  }

  lemma FollowsMore(p: Params, client: Client, ops: seq<Op>, op: Op)
    requires 0 < p.m && Follows(p, client, ops) && Answers(p, client(Results(ops)), op)
    ensures Follows(p, client, ops + [op]) && Results(ops + [op]) == Results(ops) + [Result(op)]
  {
    hide Answers, Results;
    assert (ops + [op])[..|ops|] == ops;
    forall k | 0 <= k < |ops| + 1 ensures Answers(p, client(Results((ops + [op])[..k])), (ops + [op])[k]) {
      assert k < |ops| ==> (ops + [op])[..k] == ops[..k];
    }
    ResultsMore(ops, op);
  }

  lemma ResultsMore(ops: seq<Op>, op: Op)
    ensures Results(ops + [op]) == Results(ops) + [Result(op)]
  {
  }

  /** Each of the client's first n requests is allowed when it is made, whatever has been answered. */
  ghost predicate Behaves(p: Params, al: nat, s: State, client: Client, n: nat)
    requires 0 < p.m && 0 < al
  {
    forall ss: seq<State>, ops: seq<Op> |
      Run(p, ss, ops) && ss[0] == s && |ops| < n && Follows(p, client, ops) ::
      Allowed(p, al, ss[|ops|].pool, client(Results(ops)))
  }

  // ---------- Serving a client ----------

  /** The arena that JS_ArenaRealloc would be called for. */
  method ArenaToMove(a: ArenaPool, q: nat, size: nat, ghost nb: nat) returns (arena: nat)
    requires a.Valid() && Owns(a.params, a.pool, q, size)
    ensures a.pool.cur < |a.pool.chain| && 1 <= a.pool.live[q].home < |a.pool.chain|
    ensures GrowWay(a.params, a.pool, q, size, nb) == Move ==> arena == a.pool.chain[a.pool.live[q].home].addr
  {
    hide BlocksApart, LivesOk, Aligned, AlignDown;
    CurrentStruct(a.params, a.Pointers(), a.pool, false);
    InsideChain(a.params, a.pool, q);
    arena := a.current;
    if size > a.params.arenasize {
      OversizedOwnsArena(a.params, a.pool, q, size);
      var ap := a.LinkTo(q, size);
      arena := a.structs[ap].next;
    } else if GrowWay(a.params, a.pool, q, size, nb) == Move {
      EndsAtCursor(a.params, a.pool, q, size);
    }
  }

  /** With what malloc and realloc answer, an allowed request is one that JS_ARENA_GROW can serve. */
  lemma GrowIsServed(p: Params, mem: Memory, s: Pool, sys: System, q: nat, size: nat, incr: nat,
                     blk: nat, arena: nat, moved: nat)
    requires Inv(p, s, false) && Coupled(p, mem, s) && 0 < sys.al && Allowed(p, sys.al, s, AskGrow(q, size, incr))
    requires IsBlock(p, sys.al, mem.structs, p.pool, blk, Gross(p, AlignWord(p, Sum(size, incr))))
    requires IsBlock(p, sys.al, mem.structs, arena, moved, HeaderSpace(p.m, true) + Sum(size, incr))
    requires q in s.live && s.live[q].home < |s.chain|
    requires GrowWay(p, s, q, size, AlignWord(p, Sum(size, incr))) == Move ==> arena == s.chain[s.live[q].home].addr
    ensures GrowRequest(p, s, q, size, incr, blk, moved)
  {
    hide NodesOk, BlocksApart, LivesOk, Coupled, IsBlock, FreshBlock, EndsInside, Aligned, AlignDown;
    InsideChain(p, s, q);
    MovingExceeds(p, s, q, size, incr);
    var n, nb := Sum(size, incr), AlignWord(p, Sum(size, incr));
    assert n == size + incr;
    if blk != 0 {
      FirstStruct(p, mem, s);
      BlockIsFresh(p, mem, s, sys.al, 0, blk, Gross(p, nb));
    }
    if moved != 0 && GrowWay(p, s, q, size, nb) == Move {
      BlockIsFresh(p, mem, s, sys.al, s.live[q].home, moved, HeaderSpace(p.m, true) + n);
      BlockIsAligned(p, sys.al, mem.structs, arena, moved, HeaderSpace(p.m, true) + n);
    }
  }

  /** A request to grow, with what malloc answers, and realloc for the arena of q. */
  method ServeGrow(a: ArenaPool, sys: System, k: nat, q: nat, size: nat, incr: nat) returns (r: nat)
    requires a.Valid() && CurrentIsLast(a.pool) && Honest(a.params, sys)
    requires Allowed(a.params, sys.al, a.pool, AskGrow(q, size, incr))
    modifies a
    ensures a.Valid() && CurrentIsLast(a.pool)
    ensures Step(a.params, old(Here(a)), Here(a), Grow(q, size, AlignUp(size + incr, a.params.m), r))
  {
    hide NodesOk, BlocksApart, LivesOk, Step, Coupled, IsBlock, GrowRequest, Gross, HeaderSpace, Owns, GrowWay;
    hide AlignWord, AlignUp;
    AllowedToGrow(a.params, sys.al, a.pool, q, size, incr);
    ghost var nb := AlignWord(a.params, Sum(size, incr));
    var arena := ArenaToMove(a, q, size, nb);
    var blk := sys.malloc(k, a.structs, Gross(a.params, AlignWord(a.params, Sum(size, incr))));
    var moved := sys.realloc(k, a.structs, arena, HeaderSpace(a.params.m, true) + Sum(size, incr));
    GrowIsServed(a.params, a.Pointers(), a.pool, sys, q, size, incr, blk, arena, moved);
    hide Allowed;
    r := DoGrow(a, q, size, incr, blk, moved);
  }

  lemma AllowedToGrow(p: Params, al: nat, s: Pool, q: nat, size: nat, incr: nat)
    requires 0 < p.m && 0 < al && Allowed(p, al, s, AskGrow(q, size, incr))
    ensures Owns(p, s, q, size) && Covers(p, size, incr) && q in s.live
  {
  }

  lemma BlockIsAligned(p: Params, al: nat, m: map<nat, JSArena>, but: nat, b: nat, n: nat)
    requires 0 < al && IsBlock(p, al, m, but, b, n) && b != 0
    ensures Aligned(b, al)
  {
  }

  /** One request, served by the method for it; k is its number. */
  method Serve(a: ArenaPool, sys: System, k: nat, r: Request) returns (result: int, ghost op: Op)
    requires a.Valid() && CurrentIsLast(a.pool) && Honest(a.params, sys) && Allowed(a.params, sys.al, a.pool, r)
    modifies a
    ensures a.Valid() && CurrentIsLast(a.pool) && result == Result(op)
    ensures Step(a.params, old(Here(a)), Here(a), op) && Answers(a.params, r, op)
    ensures r.AskAllocate? && result == 0 ==>
      sys.malloc(k, old(a.structs), Gross(a.params, AlignWord(a.params, r.nb))) == 0
  {
    hide NodesOk, BlocksApart, LivesOk, Step, IsBlock, FreshBlock;
    result := 0;
    match r {
      case AskAllocate(nb) =>
        var blk := sys.malloc(k, a.structs, Gross(a.params, AlignWord(a.params, nb)));
        if blk != 0 {
          FirstStruct(a.params, a.Pointers(), a.pool);
          BlockIsFresh(a.params, a.Pointers(), a.pool, sys.al, 0, blk, Gross(a.params, AlignWord(a.params, nb)));
        }
        result := DoAllocate(a, nb, blk);
        op := Allocate(result, AlignWord(a.params, nb));
      case AskGrow(q, size, incr) =>
        result := ServeGrow(a, sys, k, q, size, incr);
        op := Grow(q, size, AlignUp(size + incr, a.params.m), result);
      case AskFree(q, size) =>
        DoFree(a, q, size);
        op := Free(q);
      case AskRelease(mark) =>
        ghost var i: nat :| MarkOk(a.params, a.pool, i, mark);
        DoRelease(a, mark, i);
        op := Release(i, mark);
      case AskFreePool =>
        DoFreePool(a);
        op := FreePool;
      case AskWrite(q, x, byte) =>
        DoWrite(a, q, x, byte);
        op := Write(q);
      case AskRead(q, x) =>
        result := DoRead(a, q, x);
        op := Read(q, x, result);
      case AskMark =>
        result := DoMark(a);
        op := Mark(result);
    }
  }

  /** The code takes the pool through a run whose operations are those the client asks for. */
  method ServeAll(a: ArenaPool, sys: System, client: Client, n: nat) returns (ghost ss: seq<State>, ghost ops: seq<Op>)
    requires a.Valid() && CurrentIsLast(a.pool) && Honest(a.params, sys)
    requires Behaves(a.params, sys.al, Here(a), client, n)
    modifies a
    ensures a.Valid() && CurrentIsLast(a.pool)
    ensures Run(a.params, ss, ops) && |ops| == n && Follows(a.params, client, ops)
    ensures ss[0] == old(Here(a)) && ss[|ops|] == Here(a)
  {
    hide NodesOk, BlocksApart, LivesOk, Step, Answers, Allowed, Results, Honest;
    ss, ops := [Here(a)], [];
    var results: seq<int> := [];
    NoResults();
    while |results| < n
      invariant a.Valid() && CurrentIsLast(a.pool)
      invariant Run(a.params, ss, ops) && |ops| == |results| <= n && Follows(a.params, client, ops)
      invariant results == Results(ops) && ss[0] == old(Here(a)) && ss[|ops|] == Here(a)
    {
      assert 0 < sys.al by {
        HonestIs(a.params, sys);
      }
      var result;
      ghost var op;
      result, op := Serve(a, sys, |results|, client(results));
      RunExtends(a.params, ss, ops, Here(a), op);
      FollowsMore(a.params, client, ops, op);
      ss, ops := ss + [Here(a)], ops + [op];
      results := results + [result];
    }
  }

  lemma NoResults()
    ensures Results([]) == []
  {
  }

  lemma HonestIs(p: Params, sys: System)
    requires Honest(p, sys)
    ensures 0 < sys.al
  {
  }

  ghost function NewState(p: Params, bytes: Bytes): State
    requires 0 < p.m
  {
    State(Pool([First(p)], [], 0, map[]), bytes)
  }

  /** A new pool serves a client, and no two allocations ever meet: not now, and in no state on the way. */
  method ServeNew(addr: nat, size: nat, align: nat, bytes: Bytes, sys: System, client: Client, n: nat)
    returns (a: ArenaPool, ghost ss: seq<State>, ghost ops: seq<Op>)
    requires align <= Pow2(31)
    requires forall m, k | ModulusFor(align, m, k) ::
      var p := Params(addr, m, size);
      ParamsOk(p) && Honest(p, sys) && Behaves(p, sys.al, NewState(p, bytes), client, n)
    ensures fresh(a) && a.Valid() && a.params.pool == addr && a.params.arenasize == size
    ensures Run(a.params, ss, ops) && |ops| == n && Follows(a.params, client, ops) && ss[|ops|] == Here(a)
    ensures ParamsOk(a.params) && forall k, x | 0 <= k < |ss| && x in ss[k].pool.live :: Safe(a.params, ss[k].pool, x)
  {
    hide NodesOk, BlocksApart, LivesOk, Behaves, Run, Follows, Safe, ModulusFor;
    a := new ArenaPool(addr, size, align, bytes);
    assert a.params == Params(addr, a.params.m, size);
    assert Here(a) == NewState(a.params, bytes);
    ss, ops := ServeAll(a, sys, client, n);
    forall k, x | 0 <= k < |ss| && x in ss[k].pool.live ensures Safe(a.params, ss[k].pool, x) {
      RunIsSafe(a.params, ss, ops, k, x);
    }
  }

  /** Whatever is answered, the client respects a mark that is taken now. */
  ghost predicate Respectful(p: Params, s: State, client: Client, n: nat)
    requires 0 < p.m && s.pool.cur < |s.pool.chain|
  {
    forall ss: seq<State>, ops: seq<Op> |
      Run(p, ss, ops) && ss[0] == s && |ops| <= n && Follows(p, client, ops) ::
      RespectedBy(p, ss, ops, s.pool.cur, s.pool.chain[s.pool.cur].avail)
  }

  /**
   The idiom that marks are for: mark, work, release.  The cursor and the current arena come back, and
   the allocations are exactly what the work has left of those that were there before.
   */
  method ServeAndRelease(a: ArenaPool, sys: System, client: Client, n: nat)
    returns (ghost ss: seq<State>, ghost ops: seq<Op>)
    requires a.Valid() && CurrentIsLast(a.pool) && Honest(a.params, sys)
    requires Behaves(a.params, sys.al, Here(a), client, n) && Respectful(a.params, Here(a), client, n)
    modifies a
    ensures a.Valid() && CurrentIsLast(a.pool)
    ensures Run(a.params, ss, ops) && |ops| == n && Follows(a.params, client, ops) && ss[0] == old(Here(a))
    ensures Sizes(a.pool) == LeftAfter(a.params, ss, ops, Sizes(old(a.pool)), |ops|)
    ensures var s, t := old(a.pool), a.pool;
      t.chain[t.cur].addr == s.chain[s.cur].addr && t.chain[t.cur].avail == s.chain[s.cur].avail
  {
    hide Inv, Behaves, Follows, Step, MarkOk, RespectedBy, PlaceAfter, LeftAfter, Truncated, Sizes;
    ghost var s := a.pool;
    MarkTaken(a.params, s);
    var mark := a.Mark();
    ss, ops := ServeAll(a, sys, client, n);
    ReleaseRestoresMark(a.params, ss, ops);
    ghost var i := PlaceAfter(ss, ops, s.cur, |ops|);
    TruncatedSizes(a.params, a.pool, i, mark);
    a.Release(mark, i);
  }

  /** Every block apart from the others is what some honest malloc answers. */
  lemma AnyAnswer(p: Params, al: nat, k0: nat, m0: map<nat, JSArena>, n0: nat, b: nat)
    requires 0 < al && IsBlock(p, al, m0, p.pool, b, n0)
    ensures Honest(p, System(al, (k, m, n) => if k == k0 && m == m0 && n == n0 then b else 0, (k, m, a, n) => 0))
  {
  }

  // ---------- A client that allocates, grows, writes, reads and frees ----------

  /** The client minds that each of its requests for memory may fail. */
  function Example(p: Params, results: seq<int>): Request {
    if results == [] then AskAllocate(p.m)
    else if results[0] <= 0 then AskMark
    else if |results| == 1 then AskGrow(results[0], p.m, p.m)
    else
      var r := if results[1] <= 0 then results[0] else results[1];
      if |results| == 2 then AskWrite(r, r, 7)
      else if |results| == 3 then AskRead(r, r)
      else if |results| == 4 then AskFree(r, if results[1] <= 0 then p.m else 2 * p.m)
      else AskMark
  }

  /** The client holds size bytes at q, behind which nothing is in use. */
  ghost predicate HoldsLast(p: Params, s: Pool, q: nat, size: nat)
    requires 0 < p.m
  {
    Owns(p, s, q, size) && q + s.live[q].size == s.chain[s.live[q].home].avail
  }

  /** What the client holds, as it sees it from the results. */
  ghost predicate Stage(p: Params, s: Pool, results: seq<int>)
    requires 0 < p.m
  {
    |results| == 0 || results[0] <= 0 || 5 <= |results| ||
      if |results| == 1 || results[1] <= 0 then HoldsLast(p, s, results[0], p.m)
      else HoldsLast(p, s, results[1], 2 * p.m)
  }

  lemma ModulusIsAligned(m: nat)
    requires 0 < m
    ensures Aligned(m, m) && Aligned(2 * m, m) && AlignUp(m, m) == m && AlignUp(2 * m, m) == 2 * m
  {
    QuotientIs(m, m, 1, 0);
    QuotientIs(2 * m, m, 2, 0);
    hide Aligned, AlignDown;
    AlignUpIsLeast(m, m, m);
    AlignUpIsLeast(2 * m, 2 * m, m);
  }

  lemma AllocateHoldsLast(p: Params, s: Pool, t: Pool, q: nat, size: nat)
    requires Inv(p, s, false) && AllocStep(p, s, t, q, size) && q != 0 && size != 0 && AlignUp(size, p.m) == size
    ensures HoldsLast(p, t, q, size)
  {
    hide Aligned, AlignDown, NodesOk, BlocksApart, AllocStep;
    AllocKeepsInv(p, s, t, q, size);
    assert q in t.live;
  }

  lemma GrowHoldsLast(p: Params, s: Pool, t: Pool, q: nat, size: nat, nb: nat, r: nat, mem': Bytes, mem: Bytes)
    requires Inv(p, s, false) && GrowStep(p, s, t, q, size, nb, r, mem', mem) && r != 0 && AlignUp(nb, p.m) == nb
    ensures HoldsLast(p, t, r, nb)
  {
    hide Aligned, AlignDown, NodesOk, BlocksApart, LivesOk, AllocStep, MovedTo, CopiedTo;
    hide ReallocKeeps, SameBytes, SameOutside;
    GrowKeepsInv(p, s, t, q, size, nb, r, mem', mem);
    InsideChain(p, s, q);
    InsideChain(p, t, r);
    hide Regrown;
    match GrowWay(p, s, q, size, nb)
    case InPlace =>
      InPlaceKeepsInv(p, s, q, size, nb, mem);
    case Move =>
      MoveOwnsArena(p, s, q, size, nb);
      var b: nat, n: nat :| size <= n && MovedTo(p, s, t, q, size, nb, n, b, r, mem', mem);
      MovedIsLast(p, s, t, q, size, nb, n, b, r, mem', mem);
    case Copy =>
      var u :| CopiedTo(p, s, t, u, q, size, nb, r, mem', mem);
      OwnsSomething(p, s, q, size);
      CopiedIsLast(p, s, t, u, q, size, nb, r, mem', mem);
  }

  lemma MovedIsLast(p: Params, s: Pool, t: Pool, q: nat, size: nat, nb: nat, n: nat, b: nat, r: nat,
                    mem': Bytes, mem: Bytes)
    requires Inv(p, s, false) && q in s.live && LiveOk(p, s.chain, q, s.live[q])
    requires MovedTo(p, s, t, q, size, nb, n, b, r, mem', mem)
    ensures r in t.live && t.live[r].home < |t.chain| && r + nb == t.chain[t.live[r].home].avail
    ensures t.live[r].size == nb
  {
    hide Aligned, AlignDown, NodesOk, BlocksApart, LivesOk, FreshBlock, SameBytes, SameOutside;
    RebuiltFits(p, s, q, b, n);
  }

  lemma CopiedIsLast(p: Params, s: Pool, t: Pool, u: Pool, q: nat, size: nat, nb: nat, r: nat, mem': Bytes, mem: Bytes)
    requires Inv(p, s, false) && CopiedTo(p, s, t, u, q, size, nb, r, mem', mem) && r != 0 && r in t.live
    requires nb != 0
    ensures t.live[r].home < |t.chain| && r + nb == t.chain[t.live[r].home].avail && t.live[r].size == nb
  {
    hide Aligned, AlignDown, NodesOk, BlocksApart, LivesOk, AllocStep, SameBytes, SameOutside;
    AllocKeepsInv(p, s, u, r, nb);
  }

  lemma StageAllows(p: Params, al: nat, s: Pool, results: seq<int>)
    requires Sound(p, s) && 0 < al && HeaderSpace(p.m, true) + 2 * p.m < ADDRESS_LIMIT && Stage(p, s, results)
    ensures Allowed(p, al, s, Example(p, results))
  {
    hide Aligned, AlignDown, NodesOk, BlocksApart, LivesOk;
    ModulusIsAligned(p.m);
    ReallocAssertExactly(p.m, 2 * p.m);
    assert s.cur < |s.chain|;
  }

  lemma StageStep(p: Params, s: State, t: State, results: seq<int>, op: Op)
    requires 0 < p.m && Sound(p, s.pool) && Step(p, s, t, op) && Stage(p, s.pool, results)
    requires Answers(p, Example(p, results), op) && HeaderSpace(p.m, true) + 2 * p.m < ADDRESS_LIMIT
    ensures Stage(p, t.pool, results + [Result(op)])
  {
    hide NodesOk, BlocksApart, LivesOk, AllocStep, GrowStep, HoldsLast, Aligned, AlignDown, AlignUp;
    match op
    case Allocate(q, nb) =>
      StageAllocate(p, s, t, q, nb);
    case Grow(q, size, nb, r) =>
      StageGrow(p, s, t, q, size, nb, r);
    case _ =>
  }

  lemma StageAllocate(p: Params, s: State, t: State, q: nat, nb: nat)
    requires 0 < p.m && Sound(p, s.pool) && AllocStep(p, s.pool, t.pool, q, nb)
    requires nb == AlignWord(p, p.m) && HeaderSpace(p.m, true) + 2 * p.m < ADDRESS_LIMIT
    ensures q != 0 ==> HoldsLast(p, t.pool, q, p.m)
  {
    hide NodesOk, BlocksApart, LivesOk, AllocStep, HoldsLast, Aligned, AlignDown;
    ModulusIsAligned(p.m);
    AlignWordCovers(p, p.m);
    if q != 0 {
      AllocateHoldsLast(p, s.pool, t.pool, q, nb);
    }
  }

  lemma StageGrow(p: Params, s: State, t: State, q: nat, size: nat, nb: nat, r: nat)
    requires 0 < p.m && Sound(p, s.pool) && GrowStep(p, s.pool, t.pool, q, size, nb, r, t.mem, s.mem)
    requires size == p.m && nb == AlignUp(p.m + p.m, p.m) && HoldsLast(p, s.pool, q, size)
    ensures if r == 0 then HoldsLast(p, t.pool, q, p.m) else HoldsLast(p, t.pool, r, 2 * p.m)
  {
    hide Inv, GrowStep, HoldsLast, Aligned, AlignDown, AlignUp;
    ModulusIsAligned(p.m);
    assert nb == 2 * p.m;
    if r == 0 {
      StaysOnFailure(p, s.pool, t.pool, q, size, nb, t.mem, s.mem);
    } else {
      GrowHoldsLast(p, s.pool, t.pool, q, size, nb, r, t.mem, s.mem);
    }
  }

  lemma StaysOnFailure(p: Params, s: Pool, t: Pool, q: nat, size: nat, nb: nat, mem': Bytes, mem: Bytes)
    requires Inv(p, s, false) && GrowStep(p, s, t, q, size, nb, 0, mem', mem)
    ensures HoldsLast(p, s, q, size) ==> HoldsLast(p, t, q, size)
  {
    hide Aligned, AlignDown, AllocStep, GrowStep;
    GrowKeepsInv(p, s, t, q, size, nb, 0, mem', mem);
  }

  /** Operation k is what the client asks for. */
  ghost predicate AskedAt(p: Params, ops: seq<Op>, k: nat)
    requires 0 < p.m && k < |ops|
  {
    Answers(p, Example(p, Results(ops[..k])), ops[k])
  }

  lemma {:induction false} StageInRun(p: Params, ss: seq<State>, ops: seq<Op>, k: nat)
    requires 0 < p.m && Run(p, ss, ops) && Sound(p, ss[0].pool) && HeaderSpace(p.m, true) + 2 * p.m < ADDRESS_LIMIT
    requires k <= |ops| && forall i | 0 <= i < |ops| :: AskedAt(p, ops, i)
    ensures Stage(p, ss[k].pool, Results(ops[..k]))
  {
    hide Sound, Step, Stage, Results, AskedAt;
    if k == 0 {
      NothingHeld(p, ss[0].pool);
      assert ops[..0] == [];
    } else {
      StageInRun(p, ss, ops, k - 1);
      RunKeepsInv(p, ss, ops, k - 1);
      assert Step(p, ss[k - 1], ss[k], ops[k - 1]) && AskedAt(p, ops, k - 1);
      StageMore(p, ss[k - 1], ss[k], ops, k);
    }
  }

  lemma StageMore(p: Params, s: State, t: State, ops: seq<Op>, k: nat)
    requires 0 < p.m && Sound(p, s.pool) && HeaderSpace(p.m, true) + 2 * p.m < ADDRESS_LIMIT && 0 < k <= |ops|
    requires Step(p, s, t, ops[k - 1]) && AskedAt(p, ops, k - 1) && Stage(p, s.pool, Results(ops[..k - 1]))
    ensures Stage(p, t.pool, Results(ops[..k]))
  {
    hide Sound, Step, Stage, Answers, Results, Example;
    StageStep(p, s, t, Results(ops[..k - 1]), ops[k - 1]);
    ResultsUpTo(ops, k);
  }

  lemma ResultsUpTo(ops: seq<Op>, k: nat)
    requires 0 < k <= |ops|
    ensures Results(ops[..k]) == Results(ops[..k - 1]) + [Result(ops[k - 1])]
  {
  }

  lemma NothingHeld(p: Params, s: Pool)
    requires 0 < p.m
    ensures Stage(p, s, Results([]))
  {
  }

  /** Such a client is admitted for any number of requests, on any pool and whatever blocks it is given. */
  lemma ExampleBehaves(p: Params, al: nat, s: State, n: nat)
    requires 0 < p.m && Sound(p, s.pool) && 0 < al && HeaderSpace(p.m, true) + 2 * p.m < ADDRESS_LIMIT
    ensures Behaves(p, al, s, results => Example(p, results), n)
  {
    hide Sound, Step, Stage, Allowed, Answers, Results;
    var client := results => Example(p, results);
    forall ss: seq<State>, ops: seq<Op> |
      Run(p, ss, ops) && ss[0] == s && |ops| < n && Follows(p, client, ops)
      ensures Allowed(p, al, ss[|ops|].pool, client(Results(ops)))
    {
      RunKeepsInv(p, ss, ops, |ops|);
      assert forall i | 0 <= i < |ops| :: AskedAt(p, ops, i);
      StageInRun(p, ss, ops, |ops|);
      assert ops[..|ops|] == ops;
      StageAllows(p, al, ss[|ops|].pool, Results(ops));
    }
  }
}
