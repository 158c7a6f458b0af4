/**
 Whole runs of an arena pool: what any sequence of the transitions of ArenaSteps.dfy, mixed with the
 client's own writes, keeps; and what releasing to a mark restores.
 */
module ArenaRuns {
  import opened Arena
  import opened ArenaLayout
  import opened ArenaModel
  import opened ArenaSteps

  datatype State = State(pool: Pool, mem: Bytes)

  datatype Op =
    | Allocate(q: nat, nb: nat)
    | Grow(q: nat, size: nat, nb: nat, r: nat)
    | Free(q: nat)
    | Release(i: nat, mark: nat)
    | FreePool
    | Write(q: nat)
    | Read(q: nat, x: nat, byte: int)
    | Mark(mark: nat)

  /** One operation with its results. */
  ghost predicate Step(p: Params, s: State, t: State, op: Op) {
    && 0 < p.m
    && match op
       case Allocate(q, nb) => t.mem == s.mem && AllocStep(p, s.pool, t.pool, q, nb)
       case Grow(q, size, nb, r) => GrowStep(p, s.pool, t.pool, q, size, nb, r, t.mem, s.mem)
       case Free(q) =>
         && t.mem == s.mem && q in s.pool.live && 1 <= s.pool.live[q].home < |s.pool.chain|
         && q + s.pool.live[q].size == s.pool.chain[s.pool.live[q].home].avail && t.pool == Freed(p, s.pool, q)
       case Release(i, mark) => t.mem == s.mem && MarkOk(p, s.pool, i, mark) && t.pool == Truncated(s.pool, i, mark)
       case FreePool => t.mem == s.mem && 1 <= |s.pool.chain| && t.pool == AllFreed(s.pool)
       case Write(q) =>
         && t.pool == s.pool && q in s.pool.live
         && SameOutside(t.mem, s.mem, q, q + s.pool.live[q].size, q, q + s.pool.live[q].size)
       case Read(q, x, byte) =>
         t == s && q in s.pool.live && q <= x < q + s.pool.live[q].size && byte == ByteAt(s.mem, x)
       case Mark(mark) => t == s && s.pool.cur < |s.pool.chain| && mark == s.pool.chain[s.pool.cur].avail
  }

  ghost predicate Run(p: Params, ss: seq<State>, ops: seq<Op>) {
    |ss| == |ops| + 1 && forall k | 0 <= k < |ops| :: Step(p, ss[k], ss[k + 1], ops[k])
  }

  lemma RunExtends(p: Params, ss: seq<State>, ops: seq<Op>, t: State, op: Op)
    requires Run(p, ss, ops) && Step(p, ss[|ops|], t, op)
    ensures Run(p, ss + [t], ops + [op])
  {
    hide Step;
  }

  // ---------- The invariant ----------

  ghost predicate Sound(p: Params, s: Pool) {
    Inv(p, s, false) && CurrentIsLast(s)
  }

  /** A pool is sound when it is new. */
  lemma NewIsSound(p: Params)
    requires ParamsOk(p)
    ensures Sound(p, Pool([First(p)], [], 0, map[]))
  {
  }

  /** Every operation keeps the invariant, and the current arena stays the last one. */
  lemma StepKeepsInv(p: Params, s: State, t: State, op: Op)
    requires Sound(p, s.pool) && Step(p, s, t, op)
    ensures Sound(p, t.pool)
  {
    hide NodesOk, BlocksApart, LivesOk, AllocStep, GrowStep, MarkOk, Aligned, AlignDown;
    match op
    case Allocate(q, nb) =>
      AllocKeepsInv(p, s.pool, t.pool, q, nb);
    case Grow(q, size, nb, r) =>
      GrowKeepsInv(p, s.pool, t.pool, q, size, nb, r, t.mem, s.mem);
    case Free(q) =>
      FreeKeepsInv(p, s.pool, q);
    case Release(i, mark) =>
      TruncateKeepsInv(p, s.pool, i, mark);
      TruncatedSizes(p, s.pool, i, mark);
    case FreePool =>
      FreeAllKeepsInv(p, s.pool);
    case Write(_) =>
    case Read(_, _, _) =>
    case Mark(_) =>
  }

  /** So does every run, whatever malloc and realloc answer. */
  lemma {:induction false} RunKeepsInv(p: Params, ss: seq<State>, ops: seq<Op>, k: nat)
    requires Run(p, ss, ops) && Sound(p, ss[0].pool) && k < |ss|
    ensures Sound(p, ss[k].pool)
  {
    hide Sound, Step;
    if k > 0 {
      RunKeepsInv(p, ss, ops, k - 1);
      assert Step(p, ss[k - 1], ss[k], ops[k - 1]);
      StepKeepsInv(p, ss[k - 1], ss[k], ops[k - 1]);
    }
  }

  /**
   In every state of every run that begins with a new pool every allocation is aligned, lies in the
   used part of one arena, and is disjoint from every other one.
   */
  lemma RunIsSafe(p: Params, ss: seq<State>, ops: seq<Op>, k: nat, x: nat)
    requires ParamsOk(p) && Run(p, ss, ops) && ss[0].pool == Pool([First(p)], [], 0, map[]) && k < |ss|
    requires x in ss[k].pool.live
    ensures Safe(p, ss[k].pool, x)
  {
    hide NodesOk, BlocksApart, Step;
    NewIsSound(p);
    RunKeepsInv(p, ss, ops, k);
  }

  ghost predicate Safe(p: Params, s: Pool, x: nat)
    requires 0 < p.m && x in s.live
  {
    && Aligned(x, p.m) && LiveOk(p, s.chain, x, s.live[x])
    && forall y | y in s.live && y != x :: x + s.live[x].size <= y || y + s.live[y].size <= x
  }

  // ---------- Contents ----------

  /** The allocation an operation writes, moves or gives up. */
  function Target(op: Op): nat {
    match op
    case Allocate(_, _) => 0
    case Grow(q, _, _, _) => q
    case Free(q) => q
    case Release(_, _) => 0
    case FreePool => 0
    case Write(q) => q
    case Read(_, _, _) => 0
    case Mark(_) => 0
  }

  /** No operation changes a byte of an allocation that survives it without being its target. */
  lemma StepKeepsBytes(p: Params, s: State, t: State, op: Op, x: nat)
    requires Sound(p, s.pool) && Step(p, s, t, op) && x in s.pool.live && x in t.pool.live && x != Target(op)
    ensures t.pool.live[x].size == s.pool.live[x].size
    ensures SameBytes(t.mem, x, s.mem, x, s.pool.live[x].size)
  {
    hide Aligned, AlignDown, NodesOk, BlocksApart, AllocStep, GrowStep, SameOutside;
    match op
    case Allocate(q, nb) =>
      AllocKeepsInv(p, s.pool, t.pool, q, nb);
      if q == 0 {
        NothingAllocated(p, s.pool, t.pool, nb);
      }
    case Grow(q, size, nb, r) =>
      GrowKeepsInv(p, s.pool, t.pool, q, size, nb, r, t.mem, s.mem);
    case Free(q) =>
    case Release(_, _) =>
    case FreePool =>
    case Write(q) =>
      CopyAway(p, s.pool, q, x, s.pool.live[q].size, t.mem, s.mem);
    case Read(_, _, _) =>
    case Mark(_) =>
  }

  /** Where the allocation at x is after an operation. */
  function After(op: Op, x: nat): nat {
    if op.Grow? && op.q == x && op.r != 0 then op.r else x
  }

  /** Where the allocation at x is after the first k operations. */
  function Follow(ops: seq<Op>, x: nat, k: nat): nat
    requires k <= |ops|
  {
    if k == 0 then x else After(ops[k - 1], Follow(ops, x, k - 1))
  }

  /** The operation neither writes nor frees the allocation at x, and growing it takes n bytes along. */
  predicate Spares(op: Op, x: nat, n: nat) {
    match op
    case Write(q) => q != x
    case Free(q) => q != x
    case Grow(q, size, _, _) => q == x ==> n <= size
    case _ => true
  }

  lemma StepTakesBytesAlong(p: Params, s: State, t: State, op: Op, x: nat, n: nat)
    requires Sound(p, s.pool) && Step(p, s, t, op) && Spares(op, x, n)
    requires x in s.pool.live && After(op, x) in t.pool.live && n <= s.pool.live[x].size
    ensures n <= t.pool.live[After(op, x)].size && SameBytes(t.mem, After(op, x), s.mem, x, n)
  {
    hide Aligned, AlignDown, NodesOk, BlocksApart, LivesOk, AllocStep, GrowStep;
    if op.Grow? && op.q == x {
      GrowKeepsInv(p, s.pool, t.pool, op.q, op.size, op.nb, op.r, t.mem, s.mem);
      GrowIsBigEnough(p, s.pool, t.pool, op.q, op.size, op.nb, op.r, t.mem, s.mem);
    } else {
      LiveIsNotNull(p, s.pool, x);
      StepKeepsBytes(p, s, t, op, x);
    }
  }

  lemma GrowIsBigEnough(p: Params, s: Pool, t: Pool, q: nat, size: nat, nb: nat, r: nat, mem': Bytes, mem: Bytes)
    requires 0 < p.m && GrowStep(p, s, t, q, size, nb, r, mem', mem)
    ensures size <= nb && size <= AlignUp(size, p.m) && q in s.live && s.live[q].size == AlignUp(size, p.m)
  {
  }

  lemma LiveIsNotNull(p: Params, s: Pool, q: nat)
    requires Inv(p, s, false) && q in s.live
    ensures q != 0
  {
    assert LiveOk(p, s.chain, q, s.live[q]);
    assert Shape(p, s.chain[s.live[q].home]);
  }

  lemma SameBytesChain(x: nat, y: nat, z: nat, n: nat, a: Bytes, b: Bytes, c: Bytes)
    requires SameBytes(b, y, a, x, n) && SameBytes(c, z, b, y, n)
    ensures SameBytes(c, z, a, x, n)
  {
  }

  /** The size of the allocation at x after the first k operations, while it is live. */
  ghost function SizeAfter(ss: seq<State>, ops: seq<Op>, x: nat, k: nat): nat
    requires |ss| == |ops| + 1 && k <= |ops|
  {
    var live := ss[k].pool.live;
    if Follow(ops, x, k) in live then live[Follow(ops, x, k)].size else 0
  }

  ghost predicate LiveAfter(ss: seq<State>, ops: seq<Op>, x: nat, k: nat)
    requires |ss| == |ops| + 1 && k <= |ops|
  {
    Follow(ops, x, k) in ss[k].pool.live
  }

  ghost predicate SparedAt(ops: seq<Op>, x: nat, n: nat, k: nat)
    requires k < |ops|
  {
    Spares(ops[k], Follow(ops, x, k), n)
  }

  /**
   Over any run the first n bytes of an allocation stay what they were, however it is grown and moved
   and however the arenas around it are claimed, moved and freed, as long as it stays live, is not
   written, and growing takes that many bytes along.
   */
  lemma {:induction false} RunTakesBytesAlong(p: Params, ss: seq<State>, ops: seq<Op>, x: nat, n: nat, k: nat)
    requires Run(p, ss, ops) && Sound(p, ss[0].pool) && k <= |ops|
    requires forall j | 0 <= j <= k :: LiveAfter(ss, ops, x, j)
    requires forall j | 0 <= j < k :: SparedAt(ops, x, n, j)
    requires n <= SizeAfter(ss, ops, x, 0)
    ensures n <= SizeAfter(ss, ops, x, k)
    ensures SameBytes(ss[k].mem, Follow(ops, x, k), ss[0].mem, x, n)
  {
    hide Sound, Step, SameBytes, Spares;
    if k == 0 {
      SameBytesHere(ss[0].mem, x, n);
    } else {
      RunTakesBytesAlong(p, ss, ops, x, n, k - 1);
      RunKeepsInv(p, ss, ops, k - 1);
      var y := Follow(ops, x, k - 1);
      assert Step(p, ss[k - 1], ss[k], ops[k - 1]) && SparedAt(ops, x, n, k - 1);
      assert LiveAfter(ss, ops, x, k - 1) && LiveAfter(ss, ops, x, k);
      assert Follow(ops, x, k) == After(ops[k - 1], y);
      StepTakesBytesAlong(p, ss[k - 1], ss[k], ops[k - 1], y, n);
      SameBytesChain(x, y, Follow(ops, x, k), n, ss[0].mem, ss[k - 1].mem, ss[k].mem);
    }
  }

  lemma SameBytesHere(mem: Bytes, x: nat, n: nat)
    ensures SameBytes(mem, x, mem, x, n)
  {
  }

  /** An allocation that stays live and is never written, grown or freed keeps its size and every byte. */
  lemma {:induction false} RunKeepsBytes(p: Params, ss: seq<State>, ops: seq<Op>, x: nat, k: nat)
    requires Run(p, ss, ops) && Sound(p, ss[0].pool) && k <= |ops|
    requires forall j | 0 <= j <= k :: x in ss[j].pool.live
    requires forall j | 0 <= j < k :: Target(ops[j]) != x
    ensures ss[k].pool.live[x].size == ss[0].pool.live[x].size
    ensures SameBytes(ss[k].mem, x, ss[0].mem, x, ss[0].pool.live[x].size)
  {
    hide Sound, Step, SameBytes;
    if k == 0 {
      SameBytesHere(ss[0].mem, x, ss[0].pool.live[x].size);
    } else {
      RunKeepsBytes(p, ss, ops, x, k - 1);
      RunKeepsInv(p, ss, ops, k - 1);
      assert Step(p, ss[k - 1], ss[k], ops[k - 1]) && Target(ops[k - 1]) != x;
      StepKeepsBytes(p, ss[k - 1], ss[k], ops[k - 1], x);
      SameBytesChain(x, x, x, ss[0].pool.live[x].size, ss[0].mem, ss[k - 1].mem, ss[k].mem);
    }
  }

  // ---------- Marks ----------

  /** The allocations before position m of arena i, with their sizes. */
  ghost function BeforeMark(s: Pool, i: nat, m: nat): map<nat, nat> {
    map q | q in s.live && Before(s, i, m, q) :: s.live[q].size
  }

  /** A mark is kept when its arena, at address a, is arena i. */
  ghost predicate Marked(p: Params, s: Pool, i: nat, m: nat, a: nat)
    requires 0 < p.m
  {
    MarkOk(p, s, i, m) && s.chain[i].addr == a
  }

  /**
   The operations that respect a mark at position m of arena i.  Only what the mark itself points
   behind is barred: in the mark's own arena, what lies before the mark is not freed, and is grown
   only by copying.  Earlier and later arenas may be grown, moved and freed.
   */
  predicate Respects(p: Params, s: Pool, i: nat, m: nat, op: Op)
    requires 0 < p.m && i < |s.chain| && s.cur < |s.chain|
  {
    match op
    case Allocate(_, _) => true
    case Grow(q, size, nb, _) =>
      q in s.live && (s.live[q].home == i && q < m ==> GrowWay(p, s, q, size, nb) == Copy)
    case Free(q) => q in s.live && (s.live[q].home == i ==> m <= q)
    case Release(j, n) => i < j || (i == j && m <= n)
    case FreePool => false
    case _ => true
  }

  /** Where the mark's arena stands after an operation that respects it. */
  function Shifted(s: Pool, i: nat, op: Op): nat {
    match op
    case Free(q) =>
      if q in s.live && s.live[q].home < |s.chain| && q == s.chain[s.live[q].home].base && 1 <= s.live[q].home < i
      then i - 1 else i
    case _ => i
  }

  /**
   What an operation that respects a mark makes of the allocations B before it.  One that is moved
   by realloc stays before the mark, at its new address; one that is grown by copying is a new
   allocation behind the mark.
   */
  function StillBefore(p: Params, s: Pool, B: map<nat, nat>, op: Op): map<nat, nat>
    requires 0 < p.m && s.cur < |s.chain|
  {
    match op
    case Free(q) => B - {q}
    case Grow(q, size, nb, r) =>
      if q !in B || r == 0 then B
      else if GrowWay(p, s, q, size, nb) == Move then (B - {q})[r := nb]
      else B - {q}
    case _ => B
  }

  /** For an allocation in an arena before the current one, exceeding arenasize decides which it is. */
  lemma EarlierWay(p: Params, s: Pool, q: nat, size: nat, nb: nat)
    requires Inv(p, s, false) && Owns(p, s, q, size) && s.live[q].home != s.cur
    ensures GrowWay(p, s, q, size, nb) == if size > p.arenasize then Move else Copy
  {
    hide Aligned, AlignDown, BlocksApart, LivesOk;
    if s.chain[s.cur].avail == q + s.live[q].size {
      EndsAtCursor(p, s, q, size);
    }
  }

  ghost predicate Kept(p: Params, s: Pool, t: Pool, op: Op, i: nat, m: nat, a: nat)
    requires 0 < p.m && s.cur < |s.chain|
  {
    var j := Shifted(s, i, op);
    Marked(p, t, j, m, a) && BeforeMark(t, j, m) == StillBefore(p, s, BeforeMark(s, i, m), op)
  }

  /** What an allocation does to a mark: room is taken behind it only. */
  lemma AllocateKeeps(p: Params, s: Pool, t: Pool, q: nat, nb: nat, i: nat, m: nat, a: nat)
    requires Inv(p, s, false) && Inv(p, t, false) && Allocated(p, s, t, q, nb)
    requires CurrentIsLast(t) && Marked(p, s, i, m, a)
    ensures Marked(p, t, i, m, a) && BeforeMark(t, i, m) == BeforeMark(s, i, m)
    ensures nb != 0 ==> !(t.live[q].home < i) && !(t.live[q].home == i && q < m)
  {
    hide BlocksApart, LivesOk, Aligned, AlignDown;
    if t.cur == i && Oversized(p, s.chain[i]) {
      NoRoomLeft(p, s, t, q, nb);
    }
    forall x ensures x in BeforeMark(t, i, m) <==> x in BeforeMark(s, i, m) {
    }
  }

  /** An oversized arena has room for nothing but an empty allocation. */
  lemma NoRoomLeft(p: Params, s: Pool, t: Pool, q: nat, nb: nat)
    requires Inv(p, s, false) && Inv(p, t, false) && Allocated(p, s, t, q, nb)
    requires t.cur < |s.chain| && Oversized(p, s.chain[t.cur])
    ensures nb == 0
  {
    hide BlocksApart, LivesOk, Aligned, AlignDown;
    if t.cur != 0 {
      assert Used(p, s.chain[t.cur]) && Shape(p, s.chain[t.cur]) && Shape(p, t.chain[t.cur]);
      AlignedSum(q, q + nb, p.m);
      SmallAligned(nb, p.m);
    }
  }

  lemma InPlaceKeepsMark(p: Params, s: Pool, q: nat, nb: nat, i: nat, m: nat, a: nat)
    requires 0 < p.m && Marked(p, s, i, m, a) && q in s.live && s.live[q].home < |s.chain|
    requires q + s.live[q].size == s.chain[s.live[q].home].avail && s.live[q].size <= nb
    requires !Before(s, i, m, q) && (s.live[q].home == i ==> !Oversized(p, s.chain[i]))
    ensures var t := GrownInPlace(s, q, nb); Marked(p, t, i, m, a) && BeforeMark(t, i, m) == BeforeMark(s, i, m)
  {
  }

  /** realloc of an arena other than the mark's leaves the mark, and may rename what is before it. */
  lemma MoveKeepsMark(p: Params, s: Pool, q: nat, n: Node, nb: nat, i: nat, m: nat, a: nat)
    requires 0 < p.m && Marked(p, s, i, m, a) && q in s.live && s.live[q].home < |s.chain|
    requires s.live[q].home != i && forall x | x in s.live && x != q :: x != n.base
    ensures var t, B := Moved(s, q, n, nb), BeforeMark(s, i, m);
      Marked(p, t, i, m, a) && BeforeMark(t, i, m) == if q in B then (B - {q})[n.base := nb] else B
  {
  }

  lemma AbandonKeepsMark(p: Params, u: Pool, q: nat, i: nat, m: nat, a: nat)
    requires 0 < p.m && Marked(p, u, i, m, a)
    ensures Marked(p, Abandoned(u, q), i, m, a) && BeforeMark(Abandoned(u, q), i, m) == BeforeMark(u, i, m) - {q}
  {
  }

  /** In the mark's own arena there is nothing but q when q has it to itself, and q is before the mark. */
  lemma MoveIsElsewhere(p: Params, s: Pool, q: nat, i: nat, m: nat)
    requires Inv(p, s, false) && MarkOk(p, s, i, m) && q in s.live && s.live[q].home < |s.chain| && OwnsArena(s, q)
    requires s.live[q].home == i ==> m <= q
    ensures s.live[q].home != i
  {
    hide Aligned, AlignDown, BlocksApart, NodesOk;
    InsideChain(p, s, q);
  }

  lemma GrowKeeps(p: Params, s: Pool, t: Pool, q: nat, size: nat, nb: nat, r: nat, mem': Bytes, mem: Bytes,
                  i: nat, m: nat, a: nat)
    requires Sound(p, s) && GrowStep(p, s, t, q, size, nb, r, mem', mem) && Marked(p, s, i, m, a)
    requires Respects(p, s, i, m, Grow(q, size, nb, r))
    ensures Kept(p, s, t, Grow(q, size, nb, r), i, m, a)
  {
    hide NodesOk, BlocksApart, LivesOk, Aligned, AlignDown, MarkOk, AllocStep;
    hide MovedTo, CopiedTo, SameBytes, SameOutside;
    InsideChain(p, s, q);
    match GrowWay(p, s, q, size, nb)
    case InPlace =>
      GrowInPlaceKeeps(p, s, q, size, nb, i, m, a, mem);
    case Move =>
      MoveOwnsArena(p, s, q, size, nb);
      MoveIsElsewhere(p, s, q, i, m);
      if r != 0 {
        var b: nat, n: nat :| size <= n && MovedTo(p, s, t, q, size, nb, n, b, r, mem', mem);
        GrowMoveKeeps(p, s, t, q, size, nb, n, b, r, mem', mem, i, m, a);
      }
    case Copy =>
      if r == 0 {
        NothingAllocated(p, s, t, nb);
        SameButCur(p, s, t, i, m, a);
      } else {
        var u :| CopiedTo(p, s, t, u, q, size, nb, r, mem', mem);
        GrowCopyKeeps(p, s, t, u, q, size, nb, r, mem', mem, i, m, a);
      }
  }

  lemma SameButCur(p: Params, s: Pool, t: Pool, i: nat, m: nat, a: nat)
    requires 0 < p.m && Marked(p, s, i, m, a) && t == s.(cur := t.cur)
    ensures Marked(p, t, i, m, a) && BeforeMark(t, i, m) == BeforeMark(s, i, m)
  {
  }

  lemma GrowInPlaceKeeps(p: Params, s: Pool, q: nat, size: nat, nb: nat, i: nat, m: nat, a: nat, mem: Bytes)
    requires Sound(p, s) && Owns(p, s, q, size) && Aligned(nb, p.m) && size <= nb && Marked(p, s, i, m, a)
    requires GrowWay(p, s, q, size, nb) == InPlace && (s.live[q].home == i ==> m <= q)
    ensures var t := GrownInPlace(s, q, nb); Marked(p, t, i, m, a) && BeforeMark(t, i, m) == BeforeMark(s, i, m)
    ensures q !in BeforeMark(s, i, m)
  {
    hide BlocksApart, Aligned, AlignDown;
    InPlaceKeepsInv(p, s, q, size, nb, mem);
    InsideChain(p, s, q);
    InPlaceKeepsMark(p, s, q, nb, i, m, a);
  }

  lemma GrowMoveKeeps(p: Params, s: Pool, t: Pool, q: nat, size: nat, nb: nat, n: nat, b: nat, r: nat,
                      mem': Bytes, mem: Bytes, i: nat, m: nat, a: nat)
    requires Inv(p, s, false) && Owns(p, s, q, size) && OwnsArena(s, q) && s.live[q].home != i
    requires size <= n && MovedTo(p, s, t, q, size, nb, n, b, r, mem', mem)
    requires Marked(p, s, i, m, a)
    ensures var B := BeforeMark(s, i, m);
      Marked(p, t, i, m, a) && BeforeMark(t, i, m) == if q in B then (B - {q})[r := nb] else B
  {
    hide Inv, Aligned, AlignDown, MarkOk, FreshBlock, SameBytes, SameOutside, EndsInside;
    MovedKeepsInv(p, s, t, q, size, nb, n, b, r, mem', mem);
    MoveKeepsMark(p, s, q, Rebuilt(p, b, n), nb, i, m, a);
  }

  lemma GrowCopyKeeps(p: Params, s: Pool, t: Pool, u: Pool, q: nat, size: nat, nb: nat, r: nat, mem': Bytes, mem: Bytes,
                      i: nat, m: nat, a: nat)
    requires Sound(p, s) && Owns(p, s, q, size) && size <= nb && r != 0
    requires CopiedTo(p, s, t, u, q, size, nb, r, mem', mem)
    requires Marked(p, s, i, m, a)
    ensures Marked(p, t, i, m, a) && BeforeMark(t, i, m) == BeforeMark(s, i, m) - {q}
  {
    hide Inv, Aligned, AlignDown, MarkOk, SameBytes, SameOutside, AllocStep, Allocated;
    AllocKeepsInv(p, s, u, r, nb);
    AllocateKeeps(p, s, u, r, nb, i, m, a);
    AbandonKeepsMark(p, u, q, i, m, a);
  }

  lemma FreeKeeps(p: Params, s: Pool, q: nat, i: nat, m: nat, a: nat)
    requires Sound(p, s) && q in s.live && 1 <= s.live[q].home < |s.chain|
    requires q + s.live[q].size == s.chain[s.live[q].home].avail
    requires Marked(p, s, i, m, a) && Respects(p, s, i, m, Free(q))
    ensures Marked(p, Freed(p, s, q), Shifted(s, i, Free(q)), m, a)
    ensures BeforeMark(Freed(p, s, q), Shifted(s, i, Free(q)), m) == BeforeMark(s, i, m) - {q}
  {
    hide NodesOk, BlocksApart, LivesOk, Aligned, AlignDown, MarkOk, BeforeMark;
    InsideChain(p, s, q);
    if q == s.chain[s.live[q].home].base {
      MoveIsElsewhere(p, s, q, i, m);
      AloneInArena(p, s, q);
      RemoveKeepsMark(p, s, q, i, m, a);
    } else {
      RetractKeepsMark(p, s, q, i, m, a);
    }
  }

  lemma AloneInArena(p: Params, s: Pool, q: nat)
    requires Inv(p, s, false) && q in s.live && s.live[q].home < |s.chain| && OwnsArena(s, q)
    ensures forall x | x in s.live && x != q :: s.live[x].home != s.live[q].home
  {
    hide NodesOk, BlocksApart, LivesOk, Aligned, AlignDown;
    forall x | x in s.live && x != q ensures s.live[x].home != s.live[q].home {
      WholeArenaIsAlone(p, s, q, x);
    }
  }

  lemma RemoveKeepsMark(p: Params, s: Pool, q: nat, i: nat, m: nat, a: nat)
    requires 0 < p.m && Marked(p, s, i, m, a) && q in s.live && 1 <= s.live[q].home < |s.chain| && s.live[q].home != i
    requires forall x | x in s.live && x != q :: s.live[x].home != s.live[q].home
    ensures var t, j := Removed(s, q), Lowered(i, s.live[q].home);
      Marked(p, t, j, m, a) && BeforeMark(t, j, m) == BeforeMark(s, i, m) - {q}
  {
    hide Aligned;
    var t, j := Removed(s, q), Lowered(i, s.live[q].home);
    assert t.chain[j] == s.chain[i];
    forall x ensures x in BeforeMark(t, j, m) <==> x in BeforeMark(s, i, m) - {q} {
    }
  }

  lemma RetractKeepsMark(p: Params, s: Pool, q: nat, i: nat, m: nat, a: nat)
    requires 0 < p.m && Marked(p, s, i, m, a) && q in s.live && s.live[q].home < |s.chain|
    requires s.live[q].home == i ==> m <= q && !Oversized(p, s.chain[i])
    ensures var t := Retracted(s, q); Marked(p, t, i, m, a) && BeforeMark(t, i, m) == BeforeMark(s, i, m) - {q}
  {
    hide Aligned;
  }

  lemma ReleaseKeeps(p: Params, s: Pool, j: nat, n: nat, i: nat, m: nat, a: nat)
    requires 0 < p.m && Marked(p, s, i, m, a) && MarkOk(p, s, j, n) && (i < j || (i == j && m <= n))
    ensures var t := Truncated(s, j, n); Marked(p, t, i, m, a) && BeforeMark(t, i, m) == BeforeMark(s, i, m)
  {
  }

  /** No operation that respects a mark disturbs it, and what is before it changes as StillBefore says. */
  lemma StepKeepsMark(p: Params, s: State, t: State, op: Op, i: nat, m: nat, a: nat)
    requires Sound(p, s.pool) && Step(p, s, t, op)
    requires Marked(p, s.pool, i, m, a) && Respects(p, s.pool, i, m, op)
    ensures Kept(p, s.pool, t.pool, op, i, m, a)
  {
    hide NodesOk, BlocksApart, LivesOk, Aligned, AlignDown, MarkOk, AllocStep, GrowStep;
    match op
    case Allocate(q, nb) =>
      AllocKeepsInv(p, s.pool, t.pool, q, nb);
      if q == 0 {
        NothingAllocated(p, s.pool, t.pool, nb);
        SameButCur(p, s.pool, t.pool, i, m, a);
      } else {
        AllocateKeeps(p, s.pool, t.pool, q, nb, i, m, a);
      }
    case Grow(q, size, nb, r) =>
      GrowKeeps(p, s.pool, t.pool, q, size, nb, r, t.mem, s.mem, i, m, a);
    case Free(q) =>
      FreeKeeps(p, s.pool, q, i, m, a);
    case Release(j, n) =>
      ReleaseKeeps(p, s.pool, j, n, i, m, a);
    case FreePool =>
    case Write(q) =>
    case Read(_, _, _) =>
    case Mark(_) =>
  }

  /** Growing what ends at the mark in place is barred with reason: the mark would lie inside it. */
  lemma GrowthOverMark(p: Params, s: Pool, q: nat, size: nat, nb: nat, i: nat, m: nat, mem: Bytes)
    requires Sound(p, s) && Owns(p, s, q, size) && Aligned(nb, p.m) && s.live[q].size < nb && MarkOk(p, s, i, m)
    requires GrowWay(p, s, q, size, nb) == InPlace && s.live[q].home == i && q < m
    ensures s.live[q].home < |s.chain| && !MarkOk(p, GrownInPlace(s, q, nb), i, m)
  {
    hide Aligned, AlignDown, BlocksApart, LivesOk;
    AlignUpIsLeast(size, size + AlignUp(size, p.m) - size, p.m);
    InPlaceKeepsInv(p, s, q, size, nb, mem);
    assert q in GrownInPlace(s, q, nb).live;
  }

  /** The place of the marked arena after the first k operations. */
  ghost function PlaceAfter(ss: seq<State>, ops: seq<Op>, i: nat, k: nat): nat
    requires k <= |ops| && |ss| == |ops| + 1
  {
    if k == 0 then i else Shifted(ss[k - 1].pool, PlaceAfter(ss, ops, i, k - 1), ops[k - 1])
  }

  ghost predicate RespectedAt(p: Params, ss: seq<State>, ops: seq<Op>, i: nat, m: nat, k: nat)
    requires 0 < p.m && |ss| == |ops| + 1 && k < |ops|
  {
    var s, j := ss[k].pool, PlaceAfter(ss, ops, i, k);
    s.cur < |s.chain| && j < |s.chain| && Respects(p, s, j, m, ops[k])
  }

  /** Every operation of the run respects the mark. */
  ghost predicate RespectedBy(p: Params, ss: seq<State>, ops: seq<Op>, i: nat, m: nat)
    requires 0 < p.m && |ss| == |ops| + 1
  {
    forall k | 0 <= k < |ops| :: RespectedAt(p, ss, ops, i, m, k)
  }

  /** What is left, after the first k operations, of the allocations B that were before the mark. */
  ghost function LeftAfter(p: Params, ss: seq<State>, ops: seq<Op>, B: map<nat, nat>, k: nat): map<nat, nat>
    requires 0 < p.m && k <= |ops| && |ss| == |ops| + 1
  {
    if k == 0 then B
    else
      var s := ss[k - 1].pool;
      if s.cur < |s.chain| then StillBefore(p, s, LeftAfter(p, ss, ops, B, k - 1), ops[k - 1]) else B
  }

  lemma {:induction false} RunKeepsMark(p: Params, ss: seq<State>, ops: seq<Op>, i: nat, m: nat, a: nat, k: nat)
    requires Run(p, ss, ops) && 0 < p.m && Sound(p, ss[0].pool)
    requires Marked(p, ss[0].pool, i, m, a) && RespectedBy(p, ss, ops, i, m) && k <= |ops|
    ensures var j := PlaceAfter(ss, ops, i, k);
      && Marked(p, ss[k].pool, j, m, a)
      && BeforeMark(ss[k].pool, j, m) == LeftAfter(p, ss, ops, BeforeMark(ss[0].pool, i, m), k)
  {
    hide Sound, MarkOk, BeforeMark, Step, Respects, StillBefore;
    if k > 0 {
      RunKeepsMark(p, ss, ops, i, m, a, k - 1);
      RunKeepsInv(p, ss, ops, k - 1);
      var j := PlaceAfter(ss, ops, i, k - 1);
      assert Step(p, ss[k - 1], ss[k], ops[k - 1]) && RespectedAt(p, ss, ops, i, m, k - 1);
      StepKeepsMark(p, ss[k - 1], ss[k], ops[k - 1], j, m, a);
      assert PlaceAfter(ss, ops, i, k) == Shifted(ss[k - 1].pool, j, ops[k - 1]);
    }
  }

  /** All allocations, with their sizes. */
  ghost function Sizes(s: Pool): map<nat, nat> {
    map q | q in s.live :: s.live[q].size
  }

  /** A mark just taken: it is good, and every allocation lies before it. */
  lemma MarkTaken(p: Params, s: Pool)
    requires Sound(p, s)
    ensures 0 < p.m && Marked(p, s, s.cur, s.chain[s.cur].avail, s.chain[s.cur].addr)
    ensures BeforeMark(s, s.cur, s.chain[s.cur].avail) == Sizes(s)
  {
  }

  /**
   Mark and release over whole runs: take a mark, run any operations that respect it, and release.
   The cursor and the current arena are those of the mark, and the allocations are exactly what the
   run has left of those held when the mark was taken: less the ones freed, moved ones under their
   new address and with their new size, and without those grown by copying.  All that came later
   is gone.
   */
  lemma ReleaseRestoresMark(p: Params, ss: seq<State>, ops: seq<Op>)
    requires Run(p, ss, ops) && 0 < p.m && Sound(p, ss[0].pool)
    requires RespectedBy(p, ss, ops, ss[0].pool.cur, ss[0].pool.chain[ss[0].pool.cur].avail)
    ensures var s, t := ss[0].pool, ss[|ops|].pool;
      var m, i := s.chain[s.cur].avail, PlaceAfter(ss, ops, s.cur, |ops|);
      && MarkOk(p, t, i, m)
      && var r := Truncated(t, i, m);
      && Sound(p, r) && r.chain[r.cur].addr == s.chain[s.cur].addr && r.chain[r.cur].avail == m
      && Sizes(r) == LeftAfter(p, ss, ops, Sizes(s), |ops|)
  {
    hide NodesOk, BlocksApart, LivesOk, Step, Respects, StillBefore, MarkOk;
    var s, t := ss[0].pool, ss[|ops|].pool;
    var m, i := s.chain[s.cur].avail, PlaceAfter(ss, ops, s.cur, |ops|);
    MarkTaken(p, s);
    RunKeepsMark(p, ss, ops, s.cur, m, s.chain[s.cur].addr, |ops|);
    RunKeepsInv(p, ss, ops, |ops|);
    TruncateKeepsInv(p, t, i, m);
    TruncatedSizes(p, t, i, m);
  }

  lemma TruncatedSizes(p: Params, t: Pool, i: nat, m: nat)
    requires 0 < p.m && MarkOk(p, t, i, m)
    ensures Sizes(Truncated(t, i, m)) == BeforeMark(t, i, m) && CurrentIsLast(Truncated(t, i, m))
    ensures var r := Truncated(t, i, m); r.chain[r.cur].addr == t.chain[i].addr && r.chain[r.cur].avail == m
  {
  }

  // ---------- The operations of the class are the steps of a run ----------

  ghost function Here(a: ArenaPool): State
    reads a
  {
    State(a.pool, a.mem)
  }

  method DoAllocate(a: ArenaPool, nb: nat, blk: nat) returns (q: nat)
    requires a.Valid() && nb < ADDRESS_LIMIT
    requires blk == 0 || FreshBlock(a.params, a.pool, blk, Gross(a.params, AlignWord(a.params, nb)), -1)
    modifies a
    ensures a.Valid() && Step(a.params, old(Here(a)), Here(a), Allocate(q, AlignWord(a.params, nb)))
    ensures CurrentIsLast(old(a.pool)) ==> CurrentIsLast(a.pool)
    ensures blk != 0 ==> q != 0
  {
    hide AllocStep, NodesOk, BlocksApart, LivesOk;
    q := a.Allocate(nb, blk);
  }

  method DoGrow(a: ArenaPool, q: nat, size: nat, incr: nat, blk: nat, moved: nat) returns (r: nat)
    requires a.Valid() && GrowRequest(a.params, a.pool, q, size, incr, blk, moved)
    modifies a
    ensures Covers(a.params, size, incr) ==>
      && a.Valid() && (CurrentIsLast(old(a.pool)) ==> CurrentIsLast(a.pool))
      && Step(a.params, old(Here(a)), Here(a), Grow(q, size, AlignUp(size + incr, a.params.m), r))
  {
    hide GrowStep, NodesOk, BlocksApart, LivesOk;
    r := a.Grow(q, size, incr, blk, moved);
  }

  method DoFree(a: ArenaPool, q: nat, size: nat)
    requires a.Valid() && Owns(a.params, a.pool, q, size)
    requires q + a.pool.live[q].size == a.pool.chain[a.pool.live[q].home].avail
    modifies a
    ensures a.Valid() && Step(a.params, old(Here(a)), Here(a), Free(q))
    ensures CurrentIsLast(old(a.pool)) ==> CurrentIsLast(a.pool)
  {
    hide NodesOk, BlocksApart, LivesOk;
    a.FreeAllocation(q, size);
  }

  method DoRelease(a: ArenaPool, mark: nat, ghost i: nat)
    requires a.Valid() && CurrentIsLast(a.pool) && MarkOk(a.params, a.pool, i, mark)
    modifies a
    ensures a.Valid() && Step(a.params, old(Here(a)), Here(a), Release(i, mark)) && CurrentIsLast(a.pool)
  {
    hide NodesOk, BlocksApart, LivesOk, MarkOk;
    TruncatedSizes(a.params, a.pool, i, mark);
    a.Release(mark, i);
  }

  /** The client writes a byte of an allocation. */
  method DoWrite(a: ArenaPool, q: nat, x: nat, byte: int)
    requires a.Valid() && q in a.pool.live && q <= x < q + a.pool.live[q].size
    modifies a
    ensures a.Valid() && Step(a.params, old(Here(a)), Here(a), Write(q))
    ensures CurrentIsLast(old(a.pool)) ==> CurrentIsLast(a.pool)
  {
    hide NodesOk, BlocksApart, LivesOk;
    a.mem := a.mem[x := byte];
  }

  /** The client reads a byte of an allocation. */
  method DoRead(a: ArenaPool, q: nat, x: nat) returns (byte: int)
    requires a.Valid() && q in a.pool.live && q <= x < q + a.pool.live[q].size
    ensures Step(a.params, Here(a), Here(a), Read(q, x, byte))
  {
    byte := ByteAt(a.mem, x);
  }

  method DoMark(a: ArenaPool) returns (mark: nat)
    requires a.Valid()
    ensures Step(a.params, Here(a), Here(a), Mark(mark))
  {
    mark := a.Mark();
  }

  method DoFreePool(a: ArenaPool)
    requires a.Valid() && CurrentIsLast(a.pool)
    modifies a
    ensures a.Valid() && Step(a.params, old(Here(a)), Here(a), FreePool) && CurrentIsLast(a.pool)
  {
    hide BlocksApart, LivesOk;
    a.FreeArenaPool();
  }
}
