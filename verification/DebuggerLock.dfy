/**
 The reentrant lock of js/jsd/jsd_lock.c (its NSPR version), run by any number of threads whose
 single reads and writes of the lock interleave in any order.
 */
module DebuggerLock {
  import opened Wrappers

  /** What a thread does next.  ++count and --count are a read and a write of their own. */
  datatype PC =
    | Outside                  // between calls of jsd_Lock and jsd_Unlock
    | LockTest                 // if (lock->owner == me)
    | LockRead                 // count++, reading
    | LockWrite(tmp: int)      // count++, writing
    | LockAcquire              // PR_Lock, which can block
    | LockSetCount             // the assertion that owner is 0, and count = 1
    | LockSetOwner             // owner = me
    | UnlockTest               // if (lock->owner != me)
    | UnlockRead               // --count, reading
    | UnlockWrite(tmp: int)    // --count, writing and testing
    | UnlockClearOwner         // owner = NULL
    | UnlockRelease            // PR_Unlock

  /**
   The shared lock, the holder of the underlying NSPR lock, each thread's position, and, as the
   callers count, how many of its jsd_Lock calls each thread has not undone yet.
   */
  datatype State = State(
    owner: Option<nat>,
    count: int,
    holder: Option<nat>,
    pcs: seq<PC>,
    depths: seq<nat>)

  /** A thread outside chooses which function to call; otherwise it carries on. */
  datatype Action = CallLock | CallUnlock | CarryOn

  function Initial(n: nat): State {
    State(None, 0, None, seq(n, _ => Outside), seq(n, _ => 0))
  }

  predicate Shaped(s: State) {
    |s.pcs| == |s.depths|
  }

  function At(s: State, t: nat, pc: PC): State
    requires t < |s.pcs|
  {
    s.(pcs := s.pcs[t := pc])
  }

  /** A call of thread t returns, leaving it at the given nesting depth. */
  function Return(s: State, t: nat, depth: nat): State
    requires Shaped(s) && t < |s.pcs|
  {
    s.(pcs := s.pcs[t := Outside], depths := s.depths[t := depth])
  }

  /** One statement of thread t, or None if it blocks or the action does not fit. */
  function Next(s: State, t: nat, act: Action): Option<State>
    requires Shaped(s) && t < |s.pcs|
  {
    match s.pcs[t]
    case Outside =>
      (match act
       case CallLock => Some(At(s, t, LockTest))
       case CallUnlock => Some(At(s, t, UnlockTest))
       case CarryOn => None)
    case LockTest => Some(At(s, t, if s.owner == Some(t) then LockRead else LockAcquire))
    case LockRead => Some(At(s, t, LockWrite(s.count)))
    case LockWrite(tmp) => Some(Return(s.(count := tmp + 1), t, s.depths[t] + 1))
    case LockAcquire => if s.holder == None then Some(At(s.(holder := Some(t)), t, LockSetCount)) else None
    case LockSetCount => Some(At(s.(count := 1), t, LockSetOwner))
    case LockSetOwner => Some(Return(s.(owner := Some(t)), t, s.depths[t] + 1))
    case UnlockTest => Some(if s.owner != Some(t) then Return(s, t, s.depths[t]) else At(s, t, UnlockRead))
    case UnlockRead => Some(At(s, t, UnlockWrite(s.count)))
    case UnlockWrite(tmp) =>
      Some(if tmp - 1 == 0 then At(s.(count := tmp - 1), t, UnlockClearOwner)
           else Return(s.(count := tmp - 1), t, if s.depths[t] == 0 then 0 else s.depths[t] - 1))
    case UnlockClearOwner => Some(At(s.(owner := None), t, UnlockRelease))
    case UnlockRelease => Some(Return(s.(holder := None), t, if s.depths[t] == 0 then 0 else s.depths[t] - 1))
  }

  // ---------- Runs ----------

  /** Who moves, and how. */
  datatype Turn = Turn(thread: nat, act: Action)

  /** A schedule; turns of threads that do not exist or cannot move leave everything as it is. */
  function Run(s: State, turns: seq<Turn>): (r: State)
    requires Shaped(s)
    ensures Shaped(r) && |r.pcs| == |s.pcs|
    decreases |turns|
  {
    if turns == [] then s
    else if turns[0].thread >= |s.pcs| then Run(s, turns[1..])
    else
      match Next(s, turns[0].thread, turns[0].act)
      case None => Run(s, turns[1..])
      case Some(s') => Run(s', turns[1..])
  }

  // ---------- The invariant ----------

  /** Thread t has the underlying lock. */
  predicate Holds(s: State, t: nat) {
    s.holder == Some(t)
  }

  /** What the position of a thread says about the shared lock and about its own depth. */
  ghost predicate ThreadOk(s: State, t: nat)
    requires Shaped(s) && t < |s.pcs|
  {
    var d := s.depths[t];
    match s.pcs[t]
    case Outside => Resting(s, t)
    case LockTest => Resting(s, t)
    case UnlockTest => Resting(s, t)
    case LockRead => Resting(s, t) && 0 < d
    case UnlockRead => Resting(s, t) && 0 < d
    case LockWrite(tmp) => Resting(s, t) && 0 < d && tmp == d
    case UnlockWrite(tmp) => Resting(s, t) && 0 < d && tmp == d
    case LockAcquire => d == 0 && Resting(s, t)
    case LockSetCount => d == 0 && Holds(s, t) && s.owner == None && s.count == 0
    case LockSetOwner => d == 0 && Holds(s, t) && s.owner == None && s.count == 1
    case UnlockClearOwner => d == 1 && Holds(s, t) && s.owner == Some(t) && s.count == 0
    case UnlockRelease => d == 1 && Holds(s, t) && s.owner == None && s.count == 0
  }

  /** A thread that holds the lock d times over, d being 0 if it does not hold it at all. */
  ghost predicate Resting(s: State, t: nat)
    requires Shaped(s) && t < |s.pcs|
  {
    if s.depths[t] == 0 then !Holds(s, t) && s.owner != Some(t)
    else Holds(s, t) && s.owner == Some(t) && s.count == s.depths[t]
  }

  ghost predicate Inv(s: State) {
    && Shaped(s)
    && (s.holder == None ==> s.owner == None && s.count == 0)
    && (s.owner.Some? ==> s.holder == s.owner)
    && (s.holder.Some? ==> s.holder.value < |s.pcs|)
    && forall t | 0 <= t < |s.pcs| :: ThreadOk(s, t)
  }

  lemma NextKeepsInv(s: State, t: nat, act: Action)
    requires Inv(s) && t < |s.pcs| && Next(s, t, act).Some?
    ensures Inv(Next(s, t, act).value)
  {
    var s' := Next(s, t, act).value;
    assert ThreadOk(s, t);
    OwnStepKeepsInv(s, t, act);
    forall u | 0 <= u < |s'.pcs| && u != t ensures ThreadOk(s', u) {
      assert ThreadOk(s, u);
    }
  }

  lemma OwnStepKeepsInv(s: State, t: nat, act: Action)
    requires Inv(s) && t < |s.pcs| && Next(s, t, act).Some?
    ensures var s' := Next(s, t, act).value; |s'.pcs| == |s'.depths| == |s.pcs| && ThreadOk(s', t)
  {
    assert ThreadOk(s, t);
  }

  /** Every interleaving keeps the invariant. */
  lemma {:induction false} RunKeepsInv(s: State, turns: seq<Turn>)
    requires Inv(s)
    ensures Inv(Run(s, turns)) && |Run(s, turns).pcs| == |s.pcs|
    decreases |turns|
  {
    if turns != [] {
      var t := turns[0].thread;
      if t < |s.pcs| && Next(s, t, turns[0].act).Some? {
        NextKeepsInv(s, t, turns[0].act);
        RunKeepsInv(Next(s, t, turns[0].act).value, turns[1..]);
      } else {
        RunKeepsInv(s, turns[1..]);
      }
    }
  }

  lemma ReachableInv(n: nat, turns: seq<Turn>)
    ensures Inv(Run(Initial(n), turns)) && |Run(Initial(n), turns).pcs| == n
  {
    RunKeepsInv(Initial(n), turns);
  }

  // ---------- What it is for ----------

  /**
   Mutual exclusion, reentrantly: in every interleaving at most one thread has calls to undo, and
   a thread between calls that has any owns the lock, holds the NSPR lock, and finds in count
   exactly the number of its calls.
   */
  lemma MutualExclusion(n: nat, turns: seq<Turn>, t: nat, u: nat)
    requires t < n && u < n
    ensures var s := Run(Initial(n), turns);
            && |s.pcs| == |s.depths| == n
            && (s.depths[t] > 0 && s.depths[u] > 0 ==> t == u)
            && (s.owner == Some(t) ==> s.holder == Some(t))
            && (s.pcs[t] == Outside ==>
                  if s.depths[t] > 0 then s.owner == Some(t) && s.holder == Some(t) && s.count == s.depths[t]
                  else s.owner != Some(t) && s.holder != Some(t))
  {
    ReachableInv(n, turns);
    var s := Run(Initial(n), turns);
    assert ThreadOk(s, t) && ThreadOk(s, u);
  }

  /** The assertion after PR_Lock always holds. */
  lemma OwnerIsNullAfterAcquire(n: nat, turns: seq<Turn>, t: nat)
    requires t < n
    ensures var s := Run(Initial(n), turns);
            |s.pcs| == n && (s.pcs[t] == LockSetCount ==> s.owner == None)
  {
    ReachableInv(n, turns);
    assert ThreadOk(Run(Initial(n), turns), t);
  }

  /**
   The tests of owner that are made without holding anything are right all the same: they succeed
   exactly for the thread that has calls to undo.  So the error return of jsd_Unlock is taken
   exactly by threads with nothing to undo, and nobody slips past a lock that another one holds.
   */
  lemma UnlockedTestIsExact(n: nat, turns: seq<Turn>, t: nat)
    requires t < n
    ensures var s := Run(Initial(n), turns);
            |s.pcs| == |s.depths| == n &&
            (s.pcs[t] == LockTest || s.pcs[t] == UnlockTest ==> (s.owner == Some(t) <==> s.depths[t] > 0))
  {
    ReachableInv(n, turns);
    assert ThreadOk(Run(Initial(n), turns), t);
  }

  /** Each completed call changes the depth of its caller by one, or is the refused unlock. */
  lemma CallsCount(s: State, t: nat, act: Action)
    requires Inv(s) && t < |s.pcs| && Next(s, t, act).Some? && s.pcs[t] != Outside
    requires Next(s, t, act).value.pcs[t] == Outside
    ensures var s' := Next(s, t, act).value; var pc := s.pcs[t];
            if pc == UnlockTest then s'.depths[t] == s.depths[t]
            else if pc.LockWrite? || pc == LockSetOwner then s'.depths[t] == s.depths[t] + 1
            else s'.depths[t] + 1 == s.depths[t]
    ensures s.pcs[t] == UnlockTest ==> s.depths[t] == 0
    ensures forall u | 0 <= u < |s.pcs| && u != t :: Next(s, t, act).value.depths[u] == s.depths[u]
  {
    assert ThreadOk(s, t);
  }

  /** When every call has been undone and no thread is inside one, the lock is free again. */
  lemma QuiescentIsFree(n: nat, turns: seq<Turn>)
    ensures var s := Run(Initial(n), turns);
            |s.pcs| == |s.depths| &&
            ((forall t | 0 <= t < |s.pcs| :: s.pcs[t] == Outside && s.depths[t] == 0) ==>
               s.owner == None && s.holder == None && s.count == 0)
  {
    ReachableInv(n, turns);
    var s := Run(Initial(n), turns);
    if s.holder.Some? {
      assert ThreadOk(s, s.holder.value);
    }
  }

  // ---------- Every call comes to its end ----------

  /** The turns of thread t in a schedule. */
  function OwnTurns(turns: seq<Turn>, t: nat): nat {
    if turns == [] then 0 else (if turns[0].thread == t then 1 else 0) + OwnTurns(turns[1..], t)
  }

  /** How many more turns of its own a thread needs that has nothing to wait for, its depth being d. */
  function TurnsLeft(pc: PC, d: nat): nat {
    match pc
    case Outside => 0
    case LockAcquire => 0
    case LockTest => if d == 0 then 0 else 3
    case LockRead => 2
    case LockWrite(_) => 1
    case LockSetCount => 2
    case LockSetOwner => 1
    case UnlockTest => if d == 0 then 1 else if d == 1 then 5 else 3
    case UnlockRead => if d == 1 then 4 else 2
    case UnlockWrite(_) => if d == 1 then 3 else 1
    case UnlockClearOwner => 2
    case UnlockRelease => 1
  }

  /** A statement of thread t brings its call one turn closer to the end, and no other thread does. */
  lemma TurnTaken(s: State, t: nat, u: nat, act: Action)
    requires Inv(s) && t < |s.pcs| && u < |s.pcs| && Next(s, u, act).Some?
    ensures var s' := Next(s, u, act).value;
      && |s'.pcs| == |s'.depths| == |s.pcs|
      && (t != u ==> s'.pcs[t] == s.pcs[t] && s'.depths[t] == s.depths[t])
      && (t == u && TurnsLeft(s.pcs[t], s.depths[t]) > 0 ==>
            && TurnsLeft(s'.pcs[t], s'.depths[t]) == TurnsLeft(s.pcs[t], s.depths[t]) - 1
            && (TurnsLeft(s'.pcs[t], s'.depths[t]) == 0 ==> s'.pcs[t] == Outside))
  {
    assert ThreadOk(s, t) && ThreadOk(s, u);
  }

  /** Nothing but the lock that another thread holds ever blocks a thread inside a call. */
  lemma BlockedExactly(s: State, t: nat, act: Action)
    requires Inv(s) && t < |s.pcs| && s.pcs[t] != Outside
    ensures Next(s, t, act).None? <==> s.pcs[t] == LockAcquire && s.holder.Some?
    ensures Next(s, t, act).None? ==>
      exists u :: 0 <= u < |s.pcs| && u != t && s.holder == Some(u)
                  && (s.depths[u] > 0 || s.pcs[u] == LockSetCount || s.pcs[u] == LockSetOwner)
  {
    assert ThreadOk(s, t);
    if s.holder.Some? {
      assert ThreadOk(s, s.holder.value);
    }
  }

  /** The depth of a thread once its call is done. */
  function DepthAfter(pc: PC, d: nat): int {
    match pc
    case Outside => d
    case UnlockTest => if d == 0 then 0 else d - 1
    case UnlockRead => d - 1
    case UnlockWrite(_) => d - 1
    case UnlockClearOwner => d - 1
    case UnlockRelease => d - 1
    case _ => d + 1
  }

  lemma DepthComes(s: State, t: nat, act: Action)
    requires Inv(s) && t < |s.pcs| && Next(s, t, act).Some? && s.pcs[t] != Outside
    ensures var s' := Next(s, t, act).value;
      && |s'.pcs| == |s'.depths| == |s.pcs|
      && DepthAfter(s'.pcs[t], s'.depths[t]) == DepthAfter(s.pcs[t], s.depths[t])
  {
    assert ThreadOk(s, t);
  }

  /** Whatever the other threads do in between, a call with nothing to wait for ends after its own turns. */
  lemma {:induction false} CallEnds(s: State, t: nat, turns: seq<Turn>)
    requires Inv(s) && t < |s.pcs| && OwnTurns(turns, t) == TurnsLeft(s.pcs[t], s.depths[t])
    requires s.pcs[t] == Outside || TurnsLeft(s.pcs[t], s.depths[t]) > 0
    ensures var s' := Run(s, turns);
      s'.pcs[t] == Outside && s'.depths[t] == DepthAfter(s.pcs[t], s.depths[t])
    decreases |turns|
  {
    hide Inv;
    InvShape(s);
    if turns != [] {
      var u, act := turns[0].thread, turns[0].act;
      if u < |s.pcs| && Next(s, u, act).Some? {
        TurnTaken(s, t, u, act);
        NextKeepsInv(s, u, act);
        if u == t {
          DepthComes(s, t, act);
        }
        CallEnds(Next(s, u, act).value, t, turns[1..]);
      } else {
        if u == t {
          BlockedExactly(s, t, act);
        }
        CallEnds(s, t, turns[1..]);
      }
    }
  }

  lemma InvShape(s: State)
    requires Inv(s)
    ensures Shaped(s)
  {
  }

  /** Whoever has the lock gets it again in three turns of its own: it never waits for itself. */
  lemma OwnerLocksAgain(n: nat, before: seq<Turn>, t: nat, turns: seq<Turn>)
    requires t < n && OwnTurns(turns, t) == 3
    ensures var s := Run(Initial(n), before); var s' := Run(s, turns);
      s.pcs[t] == LockTest && s.depths[t] > 0 ==> s'.pcs[t] == Outside && s'.depths[t] == s.depths[t] + 1
  {
    ReachableInv(n, before);
    var s := Run(Initial(n), before);
    if s.pcs[t] == LockTest && s.depths[t] > 0 {
      CallEnds(s, t, turns);
    }
  }

  /** Undoing a call never waits: five turns for the outermost one, three for any other, one for a refusal. */
  lemma UnlockEnds(n: nat, before: seq<Turn>, t: nat, turns: seq<Turn>)
    requires t < n
    ensures var s := Run(Initial(n), before); var s' := Run(s, turns);
      s.pcs[t] == UnlockTest
      && OwnTurns(turns, t) == (if s.depths[t] == 0 then 1 else if s.depths[t] == 1 then 5 else 3) ==>
        s'.pcs[t] == Outside && s'.depths[t] == if s.depths[t] == 0 then 0 else s.depths[t] - 1
  {
    ReachableInv(n, before);
    var s := Run(Initial(n), before);
    if s.pcs[t] == UnlockTest && OwnTurns(turns, t) == TurnsLeft(UnlockTest, s.depths[t]) {
      CallEnds(s, t, turns);
    }
  }

  /** A waiting thread that gets its turn while the lock is free is in after two turns more. */
  lemma WaiterGetsIn(n: nat, before: seq<Turn>, t: nat, act: Action, turns: seq<Turn>)
    requires t < n && OwnTurns(turns, t) == 2
    ensures var s := Run(Initial(n), before); var s' := Run(s, [Turn(t, act)] + turns);
      s.pcs[t] == LockAcquire && s.holder == None ==> s'.pcs[t] == Outside && s'.depths[t] == 1
  {
    ReachableInv(n, before);
    var s := Run(Initial(n), before);
    if s.pcs[t] == LockAcquire && s.holder == None {
      var s1 := Next(s, t, act).value;
      assert ThreadOk(s, t);
      NextKeepsInv(s, t, act);
      assert Run(s, [Turn(t, act)] + turns) == Run(s1, turns) by {
        assert ([Turn(t, act)] + turns)[1..] == turns;
      }
      CallEnds(s1, t, turns);
    }
  }

  // ---------- ASSERT_VALID_LOCK ----------

  /** The debug check that both functions make on entry and on exit. */
  predicate ValidLock(s: State) {
    s.count >= 0 && ((s.count == 0 && s.owner == None) || (s.count != 0 && s.owner.Some?))
  }

  /** A thread is between its two writes to the lock. */
  predicate HalfWay(pc: PC) {
    pc == LockSetOwner || pc == UnlockClearOwner
  }

  /** The check holds exactly when no thread is between its two writes. */
  lemma ValidLockExactly(n: nat, turns: seq<Turn>)
    ensures var s := Run(Initial(n), turns);
            ValidLock(s) <==> forall t | 0 <= t < |s.pcs| :: !HalfWay(s.pcs[t])
  {
    ReachableInv(n, turns);
    var s := Run(Initial(n), turns);
    if s.holder.Some? {
      assert ThreadOk(s, s.holder.value);
    }
    forall t | 0 <= t < |s.pcs| && HalfWay(s.pcs[t]) ensures !ValidLock(s) {
      assert ThreadOk(s, t);
    }
  }

  /** So a thread may enter jsd_Lock and see it fail, while another is on its way in. */
  lemma ValidLockCanFail()
    ensures var go := i => Turn(i, CarryOn);
            var s := Run(Initial(2), [Turn(0, CallLock), go(0), go(0), go(0), Turn(1, CallLock)]);
            s.pcs == [LockSetOwner, LockTest] && !ValidLock(s)
  {
    var go := i => Turn(i, CarryOn);
    var s0 := Initial(2);
    var s1 := At(s0, 0, LockTest);
    var s2 := At(s1, 0, LockAcquire);
    var s3 := At(s2.(holder := Some(0)), 0, LockSetCount);
    var s4 := At(s3.(count := 1), 0, LockSetOwner);
    var s5 := At(s4, 1, LockTest);
    assert Next(s0, 0, CallLock) == Some(s1) && Next(s1, 0, CarryOn) == Some(s2) && Next(s2, 0, CarryOn) == Some(s3);
    assert Next(s3, 0, CarryOn) == Some(s4) && Next(s4, 1, CallLock) == Some(s5);
    assert Run(s4, [Turn(1, CallLock)]) == s5;
    assert Run(s3, [go(0), Turn(1, CallLock)]) == s5;
    assert Run(s2, [go(0), go(0), Turn(1, CallLock)]) == s5;
    assert Run(s1, [go(0), go(0), go(0), Turn(1, CallLock)]) == s5;
  }
}
