/**
 The profiler of js/jsd/jsd_step.c: the record _callHook keeps for every script and the clock in
 the debugger context.  Times are integer microseconds; 0 stands for "no time".
 */
module Profiler {
  import opened Wrappers

  datatype Record = Record(
    caller: Option<nat>,
    lastCallStart: int,
    runningTime: int,
    callCount: nat,
    recurseDepth: nat,
    maxRecurseDepth: nat,
    totalExecutionTime: int,
    totalOwnExecutionTime: int)

  /** A record as calloc makes it. */
  const BLANK := Record(None, 0, 0, 0, 0, 0, 0, 0)

  /** Scripts are numbered; enabled says for which of them profiling is on. */
  datatype State = State(
    enabled: seq<bool>,
    records: seq<Record>,
    calling: Option<nat>,
    lastReturnTime: int)

  datatype Event = Enter(script: nat, now: int) | Leave(script: nat, now: int)

  function Max(a: nat, b: nat): nat {
    if a > b then a else b
  }

  predicate Profiled(s: State, x: nat) {
    x < |s.enabled| && s.enabled[x]
  }

  ghost predicate WellFormed(s: State) {
    && |s.enabled| == |s.records|
    && (s.calling.Some? ==> s.calling.value < |s.records|)
    && forall x | 0 <= x < |s.records| :: s.records[x].caller.Some? ==> s.records[x].caller.value < |s.records|
  }

  // ---------- _callHook as a step function ----------

  /** Stop the clock of the caller, if there is one. */
  function StopCaller(s: State, now: int): (r: State)
    requires WellFormed(s)
    ensures WellFormed(r)
  {
    if s.calling.None? then s else
    var c := s.calling.value;
    var since := if s.lastReturnTime == 0 then s.records[c].lastCallStart else s.lastReturnTime;
    s.(records := s.records[c := s.records[c].(runningTime := s.records[c].runningTime + (now - since))])
  }

  function EnterStep(s: State, x: nat, now: int): (r: State)
    requires WellFormed(s)
    ensures WellFormed(r)
  {
    if !Profiled(s, x) then s
    else if s.records[x].lastCallStart == 0 then
      var t := StopCaller(s, now);
      var p := t.records[x];
      var caller := if s.calling.Some? then s.calling else p.caller;
      t.(records := t.records[x := p.(caller := caller, runningTime := 0, lastCallStart := now)],
         calling := Some(x), lastReturnTime := 0)
    else
      var p := s.records[x];
      var depth := p.recurseDepth + 1;
      s.(records := s.records[x := p.(recurseDepth := depth, maxRecurseDepth := Max(depth, p.maxRecurseDepth))])
  }

  function LeaveStep(s: State, x: nat, now: int): (r: State)
    requires WellFormed(s)
    ensures WellFormed(r)
  {
    if !Profiled(s, x) then s
    else
      var p := s.records[x];
      if p.recurseDepth == 0 && p.lastCallStart != 0 then
        var total := now - p.lastCallStart;
        var running := if s.lastReturnTime == 0 then p.runningTime else p.runningTime + (now - s.lastReturnTime);
        var own := if s.lastReturnTime == 0 then total else running;
        s.(records := s.records[x := p.(caller := None, lastCallStart := 0, runningTime := running,
                                        callCount := p.callCount + 1,
                                        totalExecutionTime := p.totalExecutionTime + total,
                                        totalOwnExecutionTime := p.totalOwnExecutionTime + own)],
           calling := p.caller, lastReturnTime := now)
      else if p.recurseDepth != 0 then
        s.(records := s.records[x := p.(recurseDepth := p.recurseDepth - 1, callCount := p.callCount + 1)])
      else
        s
  }

  function Step(s: State, e: Event): (r: State)
    requires WellFormed(s)
    ensures WellFormed(r)
  {
    match e
    case Enter(x, now) => EnterStep(s, x, now)
    case Leave(x, now) => LeaveStep(s, x, now)
  }

  function Run(s: State, es: seq<Event>): (r: State)
    requires WellFormed(s)
    ensures WellFormed(r)
    decreases |es|
  {
    if es == [] then s else Run(Step(s, es[0]), es[1..])
  }

  lemma {:induction false} RunAppend(s: State, es: seq<Event>, fs: seq<Event>)
    requires WellFormed(s)
    ensures Run(s, es + fs) == Run(Run(s, es), fs)
    decreases |es|
  {
    if es == [] {
      assert es + fs == fs;
    } else {
      assert (es + fs)[1..] == es[1..] + fs;
      RunAppend(Step(s, es[0]), es[1..], fs);
    }
  }

  /** The part of the debugger context that _callHook updates. */
  class Context {
    var enabled: seq<bool>
    var records: seq<Record>
    var calling: Option<nat>
    var lastReturnTime: int

    ghost function Snapshot(): State
      reads this
    {
      State(enabled, records, calling, lastReturnTime)
    }

    constructor (flags: seq<bool>)
      ensures Snapshot() == Initial(flags)
    {
      enabled := flags;
      records := seq(|flags|, _ => BLANK);
      calling := None;
      lastReturnTime := 0;
    }

    /** _callHook without user hooks; now is what JS_Now() returns. */
    method CallHook(before: bool, script: nat, now: int)
      requires WellFormed(Snapshot())
      modifies this
      ensures Snapshot() == Step(old(Snapshot()), if before then Enter(script, now) else Leave(script, now))
    {
      if !(script < |enabled| && enabled[script]) {
        return;
      }
      if before {
        if records[script].lastCallStart == 0 {
          if calling.Some? {
            var c := calling.value;
            records := records[script := records[script].(caller := calling)];
            var since := if lastReturnTime == 0 then records[c].lastCallStart else lastReturnTime;
            var delta := now - since;
            records := records[c := records[c].(runningTime := records[c].runningTime + delta)];
          }
          calling := Some(script);
          lastReturnTime := 0;
          records := records[script := records[script].(runningTime := 0)];
          records := records[script := records[script].(lastCallStart := now)];
        } else {
          var depth := records[script].recurseDepth + 1;
          records := records[script := records[script].(recurseDepth := depth)];
          if depth > records[script].maxRecurseDepth {
            records := records[script := records[script].(maxRecurseDepth := depth)];
          }
        }
      } else if records[script].recurseDepth == 0 && records[script].lastCallStart != 0 {
        var p := records[script];
        var delta := now - p.lastCallStart;
        p := p.(totalExecutionTime := p.totalExecutionTime + delta);
        if lastReturnTime != 0 {
          p := p.(runningTime := p.runningTime + (now - lastReturnTime));
          delta := p.runningTime;
        }
        p := p.(totalOwnExecutionTime := p.totalOwnExecutionTime + delta);
        calling := p.caller;
        p := p.(caller := None);
        lastReturnTime := now;
        p := p.(lastCallStart := 0, callCount := p.callCount + 1);
        records := records[script := p];
      } else if records[script].recurseDepth != 0 {
        var p := records[script];
        records := records[script := p.(recurseDepth := p.recurseDepth - 1, callCount := p.callCount + 1)];
      }
    }
  }

  function Initial(flags: seq<bool>): (s: State)
    ensures WellFormed(s)
  {
    State(flags, seq(|flags|, _ => BLANK), None, 0)
  }

  // ---------- Well-nested runs ----------

  /** Calls in the order they are made: the first one, the calls it makes, and those after it. */
  datatype Calls = Nil | Call(script: nat, start: int, callees: Calls, end: int, rest: Calls)

  function Trace(f: Calls): seq<Event> {
    match f
    case Nil => []
    case Call(x, start, callees, end, rest) =>
      [Enter(x, start)] + (Trace(callees) + ([Leave(x, end)] + Trace(rest)))
  }

  /** The clock never runs backwards from a to b along the trace of f. */
  ghost predicate Timed(f: Calls, a: int, b: int) {
    match f
    case Nil => a <= b
    case Call(_, start, callees, end, rest) => a <= start && Timed(callees, start, end) && Timed(rest, end, b)
  }

  // ---------- The reference: who ought to be charged ----------

  /** A call is counted as new if its script is profiled and not running already. */
  predicate IsNew(enabled: seq<bool>, running: set<nat>, x: nat) {
    x < |enabled| && enabled[x] && x !in running
  }

  /** The scripts running inside a call of x. */
  function Inside(enabled: seq<bool>, running: set<nat>, x: nat): set<nat> {
    if IsNew(enabled, running, x) then running + {x} else running
  }

  /** The time covered by the outermost new calls of f. */
  function Covered(enabled: seq<bool>, running: set<nat>, f: Calls): int {
    match f
    case Nil => 0
    case Call(x, start, callees, end, rest) =>
      (if IsNew(enabled, running, x) then end - start else Covered(enabled, running, callees))
      + Covered(enabled, running, rest)
  }

  /** The own time of script y in f: its new calls' durations less what new calls inside them cover. */
  function Own(enabled: seq<bool>, running: set<nat>, f: Calls, y: nat): int
    decreases f
  {
    match f
    case Nil => 0
    case Call(x, start, callees, end, rest) =>
      var inside := Inside(enabled, running, x);
      (if IsNew(enabled, running, x) && x == y then end - start - Covered(enabled, inside, callees) else 0)
      + Own(enabled, inside, callees, y)
      + Own(enabled, running, rest, y)
  }

  /** The time spent in new calls of y, calls inside them included. */
  function Total(enabled: seq<bool>, running: set<nat>, f: Calls, y: nat): int
    decreases f
  {
    match f
    case Nil => 0
    case Call(x, start, callees, end, rest) =>
      (if IsNew(enabled, running, x) && x == y then end - start else 0)
      + Total(enabled, Inside(enabled, running, x), callees, y)
      + Total(enabled, running, rest, y)
  }

  /** All calls of y, recursive ones included. */
  function Count(enabled: seq<bool>, f: Calls, y: nat): nat {
    match f
    case Nil => 0
    case Call(x, _, callees, _, rest) =>
      (if x == y && y < |enabled| && enabled[y] then 1 else 0) + Count(enabled, callees, y) + Count(enabled, rest, y)
  }

  /** The most calls of y inside one another, the first new one not counted. */
  function Deepest(enabled: seq<bool>, running: set<nat>, f: Calls, y: nat): nat
    decreases f
  {
    match f
    case Nil => 0
    case Call(x, _, callees, _, rest) =>
      var again := if x == y && x < |enabled| && enabled[x] && x in running then 1 else 0;
      Max(again + Deepest(enabled, Inside(enabled, running, x), callees, y), Deepest(enabled, running, rest, y))
  }

  // ---------- The state between events ----------

  ghost function Running(s: State): set<nat> {
    set x | 0 <= x < |s.records| && s.records[x].lastCallStart != 0
  }

  /**
   The invariant between events: the script being timed is running, an idle script has no depth
   and no caller, no depth exceeds its maximum, and a script that has seen no return yet has no
   running time either.
   */
  ghost predicate Sound(s: State) {
    && WellFormed(s)
    && (s.calling.Some? ==> s.calling.value in Running(s))
    && (s.calling.Some? && s.lastReturnTime == 0 ==> s.records[s.calling.value].runningTime == 0)
    && forall x | 0 <= x < |s.records| :: InOrder(s.records[x])
  }

  ghost predicate InOrder(p: Record) {
    && p.recurseDepth <= p.maxRecurseDepth
    && (p.lastCallStart == 0 ==> p.recurseDepth == 0 && p.caller == None)
  }

  /** What the script being timed has accumulated, reckoned as if its clock started at time 0. */
  ghost function Balance(s: State): int
    requires Sound(s) && s.calling.Some?
  {
    var p := s.records[s.calling.value];
    p.runningTime - (if s.lastReturnTime == 0 then p.lastCallStart else s.lastReturnTime)
  }

  /** What running the calls of f from s to t does to the record of x. */
  ghost predicate Charged(s: State, t: State, f: Calls, x: nat)
    requires x < |s.records| && |t.records| == |s.records|
  {
    var p, q := s.records[x], t.records[x];
    && q.caller == p.caller && q.lastCallStart == p.lastCallStart && q.recurseDepth == p.recurseDepth
    && (p.lastCallStart != 0 && s.calling != Some(x) ==> q.runningTime == p.runningTime)
    && q.callCount == p.callCount + Count(s.enabled, f, x)
    && q.totalExecutionTime == p.totalExecutionTime + Total(s.enabled, Running(s), f, x)
    && q.totalOwnExecutionTime == p.totalOwnExecutionTime + Own(s.enabled, Running(s), f, x)
    && q.maxRecurseDepth == Max(p.maxRecurseDepth, p.recurseDepth + Deepest(s.enabled, Running(s), f, x))
  }

  /** The effect of a well-nested run. */
  ghost predicate Effect(s: State, t: State, f: Calls)
    requires Sound(s)
  {
    && Sound(t) && t.enabled == s.enabled && |t.records| == |s.records|
    && t.calling == s.calling && Running(t) == Running(s)
    && (s.calling.Some? ==> Balance(t) == Balance(s) - Covered(s.enabled, Running(s), f))
    && forall x | 0 <= x < |s.records| :: Charged(s, t, f, x)
  }

  // ---------- Every well-nested run has that effect ----------

  lemma EnterNew(s: State, x: nat, now: int)
    requires Sound(s) && IsNew(s.enabled, Running(s), x) && 0 < now
    ensures var t := EnterStep(s, x, now);
            && Sound(t) && t.enabled == s.enabled && |t.records| == |s.records|
            && Running(t) == Running(s) + {x} && t.calling == Some(x) && Balance(t) == -now
            && t.records[x] == s.records[x].(caller := s.calling, runningTime := 0, lastCallStart := now)
            && forall y | 0 <= y < |s.records| && y != x ::
                 t.records[y] == if s.calling == Some(y) then s.records[y].(runningTime := Balance(s) + now)
                                 else s.records[y]
  {
  }

  lemma LeaveNew(s: State, x: nat, now: int)
    requires Sound(s) && Profiled(s, x) && s.calling == Some(x) && s.records[x].recurseDepth == 0 && 0 < now
    requires s.records[x].caller.Some? ==> s.records[x].caller.value in Running(s) - {x}
    ensures var t := LeaveStep(s, x, now);
            && Sound(t) && t.enabled == s.enabled && |t.records| == |s.records|
            && Running(t) == Running(s) - {x} && t.calling == s.records[x].caller && t.lastReturnTime == now
            && var p := s.records[x];
            && t.records[x] == p.(caller := None, lastCallStart := 0, runningTime := t.records[x].runningTime,
                                  callCount := p.callCount + 1,
                                  totalExecutionTime := p.totalExecutionTime + (now - p.lastCallStart),
                                  totalOwnExecutionTime := p.totalOwnExecutionTime + (Balance(s) + now))
            && forall y | 0 <= y < |s.records| && y != x :: t.records[y] == s.records[y]
  {
  }

  /** A new call: entered, its callees run from t to u, and left again. */
  lemma NewCall(s: State, t: State, u: State, f: Calls)
    requires Sound(s) && f.Call? && f.rest == Nil && IsNew(s.enabled, Running(s), f.script)
    requires 0 < f.start && 0 < f.end && t == EnterStep(s, f.script, f.start)
    requires Sound(t) && Effect(t, u, f.callees)
    ensures Effect(s, LeaveStep(u, f.script, f.end), f)
  {
    var x := f.script;
    EnterNew(s, x, f.start);
    assert Charged(t, u, f.callees, x);
    assert InOrder(s.records[x]);
    LeaveNew(u, x, f.end);
    var v := LeaveStep(u, x, f.end);
    if s.calling.Some? {
      assert Charged(t, u, f.callees, s.calling.value);
    }
    forall y | 0 <= y < |s.records| ensures Charged(s, v, f, y) {
      assert Charged(t, u, f.callees, y);
    }
  }

  lemma EnterOld(s: State, x: nat, now: int)
    requires Sound(s) && !IsNew(s.enabled, Running(s), x)
    ensures var t := EnterStep(s, x, now);
            && Sound(t) && Running(t) == Running(s)
            && t == s.(records := t.records) && |t.records| == |s.records|
            && (forall y | 0 <= y < |s.records| && (y != x || !Profiled(s, x)) :: t.records[y] == s.records[y])
            && (Profiled(s, x) ==>
                  var p := s.records[x];
                  t.records[x] == p.(recurseDepth := p.recurseDepth + 1,
                                     maxRecurseDepth := Max(p.recurseDepth + 1, p.maxRecurseDepth)))
  {
  }

  lemma LeaveOld(s: State, x: nat, now: int)
    requires Sound(s) && (Profiled(s, x) ==> s.records[x].recurseDepth != 0)
    ensures var t := LeaveStep(s, x, now);
            && Sound(t) && Running(t) == Running(s)
            && t == s.(records := t.records) && |t.records| == |s.records|
            && (forall y | 0 <= y < |s.records| && (y != x || !Profiled(s, x)) :: t.records[y] == s.records[y])
            && (Profiled(s, x) ==> t.records[x] == s.records[x].(recurseDepth := s.records[x].recurseDepth - 1,
                                                                 callCount := s.records[x].callCount + 1))
  {
  }

  /** A call that is not timed: its script is unprofiled, or running already. */
  lemma OldCall(s: State, t: State, u: State, f: Calls)
    requires Sound(s) && f.Call? && f.rest == Nil && !IsNew(s.enabled, Running(s), f.script)
    requires t == EnterStep(s, f.script, f.start)
    requires Sound(t) && Effect(t, u, f.callees)
    ensures Effect(s, LeaveStep(u, f.script, f.end), f)
  {
    hide EnterStep, LeaveStep;
    var x := f.script;
    EnterOld(s, x, f.start);
    if Profiled(s, x) {
      assert Charged(t, u, f.callees, x);
    }
    LeaveOld(u, x, f.end);
    var v := LeaveStep(u, x, f.end);
    UntimedCall(s.enabled, Running(s), f, 0);
    forall y | 0 <= y < |s.records| ensures Charged(s, v, f, y) {
      assert Charged(t, u, f.callees, y);
      UntimedCall(s.enabled, Running(s), f, y);
    }
  }

  /** A call that is not timed is charged through its callees only. */
  lemma UntimedCall(enabled: seq<bool>, running: set<nat>, f: Calls, y: nat)
    requires f.Call? && f.rest == Nil && !IsNew(enabled, running, f.script)
    ensures Covered(enabled, running, f) == Covered(enabled, running, f.callees)
    ensures Own(enabled, running, f, y) == Own(enabled, running, f.callees, y)
    ensures Total(enabled, running, f, y) == Total(enabled, running, f.callees, y)
    ensures Count(enabled, f, y) ==
            Count(enabled, f.callees, y) + if f.script == y && y < |enabled| && enabled[y] then 1 else 0
    ensures Deepest(enabled, running, f, y) ==
            Deepest(enabled, running, f.callees, y) + if f.script == y && y < |enabled| && enabled[y] then 1 else 0
  {
  }

  /** All charges are sums over the calls made one after the other; the depth is the greater one. */
  lemma RestAdds(enabled: seq<bool>, running: set<nat>, f: Calls, g: Calls, y: nat)
    requires f.Call? && f.rest == Nil
    ensures var h := f.(rest := g);
            && Covered(enabled, running, h) == Covered(enabled, running, f) + Covered(enabled, running, g)
            && Own(enabled, running, h, y) == Own(enabled, running, f, y) + Own(enabled, running, g, y)
            && Total(enabled, running, h, y) == Total(enabled, running, f, y) + Total(enabled, running, g, y)
            && Count(enabled, h, y) == Count(enabled, f, y) + Count(enabled, g, y)
            && Deepest(enabled, running, h, y) == Max(Deepest(enabled, running, f, y), Deepest(enabled, running, g, y))
  {
  }

  lemma EffectsCompose(s: State, t: State, u: State, f: Calls, g: Calls)
    requires Sound(s) && f.Call? && f.rest == Nil && Effect(s, t, f) && Effect(t, u, g)
    ensures Effect(s, u, f.(rest := g))
  {
    var whole := f.(rest := g);
    RestAdds(s.enabled, Running(s), f, g, 0);
    forall x | 0 <= x < |s.records| ensures Charged(s, u, whole, x) {
      RestAdds(s.enabled, Running(s), f, g, x);
      assert Charged(s, t, f, x) && Charged(t, u, g, x);
    }
  }

  /**
   Every well-nested run on a positive clock that never runs backwards, with recursion direct or
   through others, charges each script exactly its own time, records the depth of its recursion,
   restores the caller and the depth at every return, and leaves the same scripts running.
   */
  lemma {:induction false} RunCharges(s: State, f: Calls, a: int, b: int)
    requires Sound(s) && Timed(f, a, b) && 0 < a
    ensures a <= b && Effect(s, Run(s, Trace(f)), f)
    decreases f
  {
    match f
    case Nil =>
      forall x | 0 <= x < |s.records| ensures Charged(s, s, f, x) {
      }
    case Call(x, start, callees, end, rest) =>
      var t := EnterStep(s, x, start);
      if IsNew(s.enabled, Running(s), x) {
        EnterNew(s, x, start);
      } else {
        EnterOld(s, x, start);
      }
      RunCharges(t, callees, start, end);
      var u := Run(t, Trace(callees));
      var one := Call(x, start, callees, end, Nil);
      if IsNew(s.enabled, Running(s), x) {
        NewCall(s, t, u, one);
      } else {
        OldCall(s, t, u, one);
      }
      var v := LeaveStep(u, x, end);
      RunCharges(v, rest, end, b);
      EffectsCompose(s, v, Run(v, Trace(rest)), one, rest);
      RunTrace(s, f);
  }

  /** Running the trace of a call is running its parts. */
  lemma RunTrace(s: State, f: Calls)
    requires WellFormed(s) && f.Call?
    ensures var u := Run(EnterStep(s, f.script, f.start), Trace(f.callees));
            Run(s, Trace(f)) == Run(LeaveStep(u, f.script, f.end), Trace(f.rest))
  {
    var after := [Leave(f.script, f.end)] + Trace(f.rest);
    var t := EnterStep(s, f.script, f.start);
    assert Trace(f)[0] == Enter(f.script, f.start) && Trace(f)[1..] == Trace(f.callees) + after;
    RunAppend(t, Trace(f.callees), after);
    assert after[0] == Leave(f.script, f.end) && after[1..] == Trace(f.rest);
  }

  // ---------- Conservation ----------

  function OwnSum(records: seq<Record>): int {
    if records == [] then 0 else OwnSum(records[..|records| - 1]) + records[|records| - 1].totalOwnExecutionTime
  }

  /** The own times of the scripts below n in f. */
  function OwnBelow(enabled: seq<bool>, running: set<nat>, f: Calls, n: nat): int {
    if n == 0 then 0 else OwnBelow(enabled, running, f, n - 1) + Own(enabled, running, f, n - 1)
  }

  lemma {:induction false} OwnBelowUnfolds(enabled: seq<bool>, running: set<nat>, f: Calls, n: nat)
    requires f.Call?
    ensures var inside := Inside(enabled, running, f.script);
            OwnBelow(enabled, running, f, n) ==
              (if IsNew(enabled, running, f.script) && f.script < n
               then f.end - f.start - Covered(enabled, inside, f.callees) else 0)
              + OwnBelow(enabled, inside, f.callees, n) + OwnBelow(enabled, running, f.rest, n)
  {
    if n != 0 {
      OwnBelowUnfolds(enabled, running, f, n - 1);
    }
  }

  /** Own times add up to what the outermost new calls cover. */
  lemma {:induction false} OwnAddsUp(enabled: seq<bool>, running: set<nat>, f: Calls)
    ensures OwnBelow(enabled, running, f, |enabled|) == Covered(enabled, running, f)
    decreases f
  {
    match f
    case Nil =>
      NothingBelow(enabled, running, |enabled|);
    case Call(x, _, callees, _, rest) =>
      OwnBelowUnfolds(enabled, running, f, |enabled|);
      OwnAddsUp(enabled, Inside(enabled, running, x), callees);
      OwnAddsUp(enabled, running, rest);
  }

  lemma {:induction false} NothingBelow(enabled: seq<bool>, running: set<nat>, n: nat)
    ensures OwnBelow(enabled, running, Nil, n) == 0
  {
    if n != 0 {
      NothingBelow(enabled, running, n - 1);
    }
  }

  lemma {:induction false} OwnSumIs(records: seq<Record>, enabled: seq<bool>, f: Calls)
    requires forall x | 0 <= x < |records| :: records[x].totalOwnExecutionTime == Own(enabled, {}, f, x)
    ensures OwnSum(records) == OwnBelow(enabled, {}, f, |records|)
  {
    if records != [] {
      OwnSumIs(records[..|records| - 1], enabled, f);
    }
  }

  /** The record of script x once all calls of f have returned. */
  ghost predicate Settled(flags: seq<bool>, f: Calls, x: nat, p: Record) {
    && p.lastCallStart == 0 && p.recurseDepth == 0 && p.caller == None
    && p.callCount == Count(flags, f, x) && p.maxRecurseDepth == Deepest(flags, {}, f, x)
    && p.totalExecutionTime == Total(flags, {}, f, x) && p.totalOwnExecutionTime == Own(flags, {}, f, x)
  }

  lemma ChargedFromStart(flags: seq<bool>, t: State, f: Calls, x: nat)
    requires x < |flags| == |t.records| && Charged(Initial(flags), t, f, x) && Running(Initial(flags)) == {}
    ensures Settled(flags, f, x, t.records[x])
  {
    assert Initial(flags).records[x] == BLANK;
  }

  /**
   Conservation: after any well-nested run from the start, the recorded own times of all scripts
   sum to the durations of the outermost profiled calls, and nothing is left running.
   */
  lemma TimeIsConserved(flags: seq<bool>, f: Calls, a: int, b: int)
    requires Timed(f, a, b) && 0 < a
    ensures var s := Run(Initial(flags), Trace(f));
            && OwnSum(s.records) == Covered(flags, {}, f) && s.calling == None && |s.records| == |flags|
            && forall x | 0 <= x < |s.records| :: Settled(flags, f, x, s.records[x])
  {
    hide Charged, Own, Covered, Total, Count, Deepest;
    var s0 := Initial(flags);
    assert Running(s0) == {};
    RunCharges(s0, f, a, b);
    var s := Run(s0, Trace(f));
    forall x | 0 <= x < |s.records| ensures Settled(flags, f, x, s.records[x]) {
      assert Charged(s0, s, f, x);
      ChargedFromStart(flags, s, f, x);
    }
    OwnSumIs(s.records, flags, f);
    OwnAddsUp(flags, {}, f);
  }
}
