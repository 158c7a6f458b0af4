/**
 Whole runs of the source-text manager of js/jsd/jsd_text.c: what any sequence of its calls keeps, and
 that an item always holds what was appended to it since it was last cleared.
 */
module SourceRuns {
  import opened SourceText
  import opened Wrappers

  /** The calls with their answers; AddFullSourceText is New followed by Append. */
  datatype Call =
    | New(url: Url, id: Id, copied: bool, created: bool, r: Option<Id>)
    | Append(id: Id, bytes: seq<Byte>, status: Status, r: Option<Id>)
    | Clear(id: Id)
    | Count(id: Id)
    | Eval(url: Url, on: bool)
    | Nothing

  /** One call, as the contracts of SourceManager state it. */
  ghost predicate Step(s: State, t: State, call: Call) {
    match call
    case New(url, id, copied, created, r) =>
      && id !in s.items
      && if copied then Superseded(s, t, Normalized(url), r, id, created) else r == None && t == s
    case Append(id, bytes, status, r) => id in s.items && Appended(s, t, id, bytes, status, r)
    case Clear(id) =>
      && id in s.items
      && t == if s.items[id].status in {Inited, Partial} then s else Rewritten(s, id, ClearedItem(s.items[id], 0))
    case Count(id) => id in s.items && t == Rewritten(s, id, s.items[id])
    case Eval(url, on) =>
      && ((forall k :: !Keeps(s, url, k)) ==> t == s)
      && (forall k | Keeps(s, url, k) :: t == s.(items := s.items[k := s.items[k].(doingEval := on)]))
    case Nothing => t == s
  }

  // ---------- The invariant ----------

  lemma WroteIsGood(s: State, t: State, id: Id, bytes: seq<Byte>, status: Status)
    requires Good(s) && Wrote(s, t, id, bytes, status) && id in s.sources
    ensures Good(t)
  {
  }

  lemma LostIsGood(s: State, t: State, id: Id)
    requires Good(s) && Lost(s, t, id) && id in s.sources
    ensures Good(t)
  {
    RetiredIsGood(s, id);
    assert id !in s.removed;
    WithoutNot(s.removed, id);
    hide Good, Without;
    RecountedIsGood(Retired(s, id), t, id);
  }

  /** The newest item gets a later alter count. */
  lemma RecountedIsGood(s: State, t: State, id: Id)
    requires Good(s) && OthersKept(s, t, id) && id in s.items && s.items[id].alterCount == s.counter - 1
    requires t.sources == s.sources && t.removed == s.removed && s.counter <= t.counter
    requires t.items[id] == s.items[id].(alterCount := t.counter - 1)
    ensures Good(t)
  {
    assert Listed(t) by {
      assert Listed(s) && t.items.Keys == s.items.Keys;
    }
  }

  lemma SupersededIsGood(s: State, t: State, url: Url, r: Option<Id>, id: Id, created: bool)
    requires Good(s) && Superseded(s, t, url, r, id, created) && id !in s.items
    ensures Good(t)
  {
    hide Good, Added, Retired;
    if k :| Keeps(s, url, k) {
      OnlyOne(s, url, k);
      if !s.items[k].doingEval {
        RetiredIs(s, k, url);
        RetiredIsGood(s, k);
        if created {
          AddedIsGood(Retired(s, k), id, url);
        }
      }
    } else if created {
      AddedIsGood(s, id, url);
    }
  }

  /** Every call keeps one list per item, one current item per URL, empty removed items and distinct counts. */
  lemma StepKeepsGood(s: State, t: State, call: Call)
    requires Good(s) && Step(s, t, call)
    ensures Good(t)
  {
    hide Listed, UrlsDiffer, RemovedHoldNothing, Counted, Superseded, Wrote, Lost, Keeps;
    match call
    case New(url, id, copied, created, r) =>
      if copied {
        SupersededIsGood(s, t, Normalized(url), r, id, created);
      }
    case Append(id, bytes, status, r) =>
      ForgottenIsGood(s, id);
      if !s.items[id].doingEval && id in s.sources {
        if r.Some? {
          WroteIsGood(s, t, id, bytes, status);
        } else {
          LostIsGood(s, t, id);
        }
      }
    case Clear(id) =>
      RewrittenIsGood(s, id, ClearedItem(s.items[id], 0));
    case Count(id) =>
      RemovedIsEmpty(s, id);
      RewrittenIsGood(s, id, s.items[id]);
    case Eval(url, on) =>
      if k :| Keeps(s, url, k) {
        KeptIsItem(s, url, k);
        EvalIsGood(s, k, on);
      }
    case Nothing =>
  }

  lemma KeptIsItem(s: State, url: Url, k: Id)
    requires Keeps(s, url, k)
    ensures k in s.items
  {
  }

  lemma RemovedIsEmpty(s: State, id: Id)
    requires Good(s) && id in s.items
    ensures id in s.removed ==> s.items[id].buffer == []
    ensures InBuffer(s.items[id])
  {
  }

  // ---------- The log ----------

  /** What every item has been given since it was last cleared. */
  type Log = map<Id, seq<Byte>>

  /** An earlier item for the URL is cleared when it is superseded. */
  ghost function NotedNew(log: Log, s: State, url: Url, id: Id, r: Option<Id>): Log {
    var kept := map k | k in log :: if Keeps(s, url, k) && !s.items[k].doingEval then [] else log[k];
    if r.Some? then kept[id := []] else kept
  }

  function NotedAppend(log: Log, s: State, id: Id, bytes: seq<Byte>, r: Option<Id>): Log {
    if id !in log || id !in s.items || s.items[id].doingEval then log
    else if id !in s.sources then log - {id}
    else if r.Some? then log[id := log[id] + bytes]
    else log[id := []]
  }

  /** The log after a call. */
  ghost function Noted(log: Log, s: State, call: Call): Log {
    match call
    case New(url, id, copied, _, r) => if copied then NotedNew(log, s, Normalized(url), id, r) else log
    case Append(id, bytes, _, r) => NotedAppend(log, s, id, bytes, r)
    case Clear(id) =>
      if id in s.items && s.items[id].status !in {Inited, Partial} then log[id := []] else log
    case _ => log
  }

  /** The items are those of the log, with these texts. */
  ghost predicate Reflects(log: Log, s: State)
    requires Fits(s)
  {
    log.Keys == s.items.Keys && forall id | id in s.items :: TextOf(s.items[id]) == log[id]
  }

  lemma NewReflects(log: Log, s: State, t: State, url: Url, r: Option<Id>, id: Id, created: bool)
    requires Good(s) && Good(t) && Superseded(s, t, url, r, id, created) && id !in s.items && Reflects(log, s)
    ensures Reflects(NotedNew(log, s, url, id, r), t)
  {
    hide Listed, UrlsDiffer, RemovedHoldNothing, Counted, Fits, Without, NotedNew, Added, Retired;
    if k :| Keeps(s, url, k) {
      OnlyOne(s, url, k);
      NotedOne(log, s, url, id, r, k);
      if !s.items[k].doingEval {
        RetiredReflects(log, s, k);
        AddedReflects(log[k := []], Retired(s, k), id, url);
      }
    } else {
      NotedNone(log, s, url, id, r);
      AddedReflects(log, s, id, url);
    }
  }

  lemma NotedOne(log: Log, s: State, url: Url, id: Id, r: Option<Id>, k: Id)
    requires Keeps(s, url, k) && (forall m :: Keeps(s, url, m) ==> m == k) && k in log
    ensures NotedNew(log, s, url, id, r)
         == var kept := if s.items[k].doingEval then log else log[k := []]; if r.Some? then kept[id := []] else kept
  {
  }

  lemma NotedNone(log: Log, s: State, url: Url, id: Id, r: Option<Id>)
    requires forall m :: !Keeps(s, url, m)
    ensures NotedNew(log, s, url, id, r) == if r.Some? then log[id := []] else log
  {
  }

  lemma RetiredReflects(log: Log, s: State, k: Id)
    requires Fits(s) && k in s.items && Reflects(log, s)
    ensures Fits(Retired(s, k)) && Reflects(log[k := []], Retired(s, k))
  {
  }

  lemma AddedReflects(log: Log, s: State, id: Id, url: Url)
    requires Fits(s) && Reflects(log, s)
    ensures Fits(Added(s, id, url)) && Reflects(log[id := []], Added(s, id, url))
  {
  }

  lemma AppendReflects(log: Log, s: State, t: State, id: Id, bytes: seq<Byte>, status: Status, r: Option<Id>)
    requires Fits(s) && Fits(t) && id in s.items && Appended(s, t, id, bytes, status, r) && Reflects(log, s)
    ensures Reflects(NotedAppend(log, s, id, bytes, r), t)
  {
  }

  lemma StepKeepsLog(log: Log, s: State, t: State, call: Call)
    requires Good(s) && Step(s, t, call) && Reflects(log, s)
    ensures Fits(t) && Reflects(Noted(log, s, call), t)
  {
    hide Listed, UrlsDiffer, RemovedHoldNothing, Counted, Superseded, Appended, NotedNew, NotedAppend;
    StepKeepsGood(s, t, call);
    match call
    case New(url, id, copied, created, r) =>
      if copied {
        NewReflects(log, s, t, Normalized(url), r, id, created);
      }
    case Append(id, bytes, status, r) =>
      AppendReflects(log, s, t, id, bytes, status, r);
    case Clear(id) =>
    case Count(id) =>
    case Eval(url, on) =>
      if k :| Keeps(s, url, k) {
        assert t == s.(items := s.items[k := s.items[k].(doingEval := on)]);
      }
    case Nothing =>
  }

  // ---------- Runs ----------

  ghost predicate Run(ss: seq<State>, calls: seq<Call>) {
    && |ss| == |calls| + 1 && ss[0] == State(map[], [], [], 0)
    && forall k | 0 <= k < |calls| :: Step(ss[k], ss[k + 1], calls[k])
  }

  /** The log after the first k calls. */
  ghost function LogAfter(ss: seq<State>, calls: seq<Call>, k: nat): Log
    requires |ss| == |calls| + 1 && k <= |calls|
  {
    if k == 0 then map[] else Noted(LogAfter(ss, calls, k - 1), ss[k - 1], calls[k - 1])
  }

  /**
   In every state of every run the lists, URLs and counts are in order, and the text of each item is
   the concatenation of what was appended to it since it was last cleared.
   */
  lemma {:induction false} TextIsWhatWasAppended(ss: seq<State>, calls: seq<Call>, k: nat)
    requires Run(ss, calls) && k < |ss|
    ensures Good(ss[k])
    ensures LogAfter(ss, calls, k).Keys == ss[k].items.Keys
    ensures forall id | id in ss[k].items :: TextOf(ss[k].items[id]) == LogAfter(ss, calls, k)[id]
  {
    hide Step, Noted, Listed, UrlsDiffer, RemovedHoldNothing, Counted;
    if k == 0 {
      StartIsGood();
    } else {
      TextIsWhatWasAppended(ss, calls, k - 1);
      assert Step(ss[k - 1], ss[k], calls[k - 1]);
      StepKeepsGood(ss[k - 1], ss[k], calls[k - 1]);
      StepKeepsLog(LogAfter(ss, calls, k - 1), ss[k - 1], ss[k], calls[k - 1]);
    }
  }

  lemma StartIsGood()
    ensures Good(State(map[], [], [], 0))
  {
  }

  // ---------- The methods of the class are the steps of a run ----------

  method DoNew(a: SourceManager, url: Url, copied: bool, created: bool) returns (r: Option<Id>, ghost id: Id)
    requires a.Valid()
    modifies a
    ensures a.Valid() && Step(old(a.st), a.st, New(url, id, copied, created, r))
  {
    hide Superseded;
    id := a.next;
    r := a.NewSourceText(url, copied, created);
  }

  method DoAppend(a: SourceManager, id: Id, bytes: seq<Byte>, status: Status, memory: bool) returns (r: Option<Id>)
    requires a.Valid() && id in a.st.items
    modifies a
    ensures a.Valid() && Step(old(a.st), a.st, Append(id, bytes, status, r))
  {
    hide Appended;
    r := a.AppendSourceText(id, bytes, status, memory);
  }

  /** One append of the truncated characters, or nothing when there is no memory for the buffer. */
  method DoAppendUC(a: SourceManager, id: Id, text: seq<Code>, status: Status, memory: bool) returns (r: Option<Id>)
    requires a.Valid() && id in a.st.items
    modifies a
    ensures a.Valid()
    ensures Step(old(a.st), a.st, Append(id, Truncated(text), status, r)) || Step(old(a.st), a.st, Nothing)
    ensures memory ==> Step(old(a.st), a.st, Append(id, Truncated(text), status, r))
  {
    hide Appended;
    r := a.AppendUCSourceText(id, text, status, memory);
  }

  method DoAddFull(a: SourceManager, text: seq<Byte>, url: Url, copied: bool, created: bool, memory: bool)
    returns (ok: bool, ghost mid: State, ghost id: Id, ghost r: Option<Id>)
    requires a.Valid()
    modifies a
    ensures a.Valid() && Step(old(a.st), mid, New(url, id, copied, created, r))
    ensures r == None ==> Step(mid, a.st, Nothing)
    ensures r.Some? ==> Step(mid, a.st, Append(r.value, text, Completed, if ok then r else None))
  {
    hide Appended, Superseded;
    id := a.next;
    ok, mid, r := a.AddFullSourceText(text, url, copied, created, memory);
  }

  method DoClear(a: SourceManager, id: Id)
    requires a.Valid() && id in a.st.items
    modifies a
    ensures a.Valid() && Step(old(a.st), a.st, Clear(id))
  {
    a.ClearSourceText(id);
  }

  method DoCount(a: SourceManager, id: Id) returns (count: nat)
    requires a.Valid() && id in a.st.items
    modifies a
    ensures a.Valid() && Step(old(a.st), a.st, Count(id))
  {
    count := a.IncrementAlterCount(id);
  }

  method DoEval(a: SourceManager, url: Url, on: bool)
    requires a.Valid()
    modifies a
    ensures a.Valid() && Step(old(a.st), a.st, Eval(url, on))
  {
    a.SetDoingEval(url, on);
  }
}
