/**
 js/jsd/jsd_text.c: the source texts the debugger keeps, in a list of current items and a list of
 items that were superseded or failed and that their writers still know.  An item is known by a
 number that is not used again after it is freed.
 */
module SourceText {
  import opened Wrappers

  type Id = nat
  type Byte = b: int | 0 <= b < 256
  type Url = seq<Byte>

  datatype Status = Inited | Partial | Completed | Aborted | Failed | Cleared

  /** The buffer has textSpace bytes, of which length are used. */
  datatype Source = Source(url: Url, buffer: seq<Byte>, length: nat, dirty: bool, status: Status,
                           alterCount: nat, doingEval: bool)

  datatype State = State(items: map<Id, Source>, sources: seq<Id>, removed: seq<Id>, counter: nat)

  predicate InBuffer(s: Source) {
    s.length <= |s.buffer|
  }

  function TextOf(s: Source): seq<Byte>
    requires InBuffer(s)
  {
    s.buffer[..s.length]
  }

  predicate Distinct(s: seq<Id>) {
    forall i, j | 0 <= i < j < |s| :: s[i] != s[j]
  }

  /** Every item is in exactly one of the lists. */
  predicate Listed(st: State) {
    && Distinct(st.sources) && Distinct(st.removed)
    && (forall id | id in st.sources :: id in st.items && id !in st.removed)
    && (forall id | id in st.removed :: id in st.items)
    && (forall id | id in st.items :: id in st.sources || id in st.removed)
  }

  predicate UrlsDiffer(st: State) {
    forall id, k | id in st.sources && k in st.sources && id in st.items && k in st.items && id != k ::
      st.items[id].url != st.items[k].url
  }

  /** An item on the list of removed items holds no text. */
  predicate RemovedHoldNothing(st: State) {
    forall id | id in st.removed && id in st.items :: st.items[id].buffer == []
  }

  predicate Counted(st: State) {
    && (forall id | id in st.items :: st.items[id].alterCount < st.counter)
    && (forall id, k | id in st.items && k in st.items && id != k :: st.items[id].alterCount != st.items[k].alterCount)
  }

  predicate Fits(st: State) {
    forall id | id in st.items :: InBuffer(st.items[id])
  }

  predicate Good(st: State) {
    Listed(st) && UrlsDiffer(st) && RemovedHoldNothing(st) && Counted(st) && Fits(st)
  }

  // ---------- Lists ----------

  function Without(s: seq<Id>, id: Id): seq<Id> {
    if s == [] then [] else (if s[0] == id then [] else [s[0]]) + Without(s[1..], id)
  }

  lemma {:induction false} WithoutHas(s: seq<Id>, id: Id)
    ensures forall k :: k in Without(s, id) <==> k in s && k != id
  {
    if s != [] {
      WithoutHas(s[1..], id);
      assert s == [s[0]] + s[1..];
    }
  }

  lemma {:induction false} WithoutDistinct(s: seq<Id>, id: Id)
    requires Distinct(s)
    ensures Distinct(Without(s, id))
  {
    if s != [] {
      WithoutDistinct(s[1..], id);
      WithoutHas(s[1..], id);
      var w := Without(s[1..], id);
      if s[0] != id {
        forall i, j | 0 <= i < j < |w| + 1 ensures ([s[0]] + w)[i] != ([s[0]] + w)[j] {
          if i == 0 {
            assert w[j - 1] in w;
          }
        }
      }
    }
  }

  // ---------- Changes of the state ----------

  /** _clearText. */
  function ClearedItem(s: Source, count: nat): Source {
    s.(buffer := [], length := 0, status := Cleared, dirty := true, alterCount := count, doingEval := false)
  }

  /** The item is cleared and goes to the head of the list of removed items. */
  function Retired(st: State, id: Id): State
    requires id in st.items
  {
    State(st.items[id := ClearedItem(st.items[id], st.counter)],
          Without(st.sources, id), [id] + Without(st.removed, id), st.counter + 1)
  }

  /** The item leaves its list and is freed. */
  function Forgotten(st: State, id: Id): State {
    State(st.items - {id}, Without(st.sources, id), Without(st.removed, id), st.counter)
  }

  /** A new item at the head of the list. */
  function Added(st: State, id: Id, url: Url): State {
    State(st.items[id := Source(url, [], 0, true, Inited, st.counter, false)],
          [id] + st.sources, st.removed, st.counter + 1)
  }

  /** Another record for an item, with a new alter count. */
  function Rewritten(st: State, id: Id, s: Source): State {
    st.(items := st.items[id := s.(alterCount := st.counter)], counter := st.counter + 1)
  }

  /** The item k is the current one for the URL. */
  predicate Keeps(st: State, url: Url, k: Id) {
    k in st.sources && k in st.items && st.items[k].url == url
  }

  lemma RewrittenIsGood(st: State, id: Id, s: Source)
    requires Good(st) && id in st.items && s.url == st.items[id].url && InBuffer(s)
    requires id in st.removed ==> s.buffer == []
    ensures Good(Rewritten(st, id, s))
  {
  }

  lemma RetiredIsGood(st: State, id: Id)
    requires Good(st) && id in st.items
    ensures Good(Retired(st, id))
    ensures forall k :: k in Retired(st, id).sources <==> k in st.sources && k != id
  {
    WithoutHas(st.sources, id);
    WithoutHas(st.removed, id);
    WithoutDistinct(st.sources, id);
    WithoutDistinct(st.removed, id);
    RetiredIsListed(st, id);
  }

  lemma RetiredIsListed(st: State, id: Id)
    requires Listed(st) && id in st.items
    ensures Listed(Retired(st, id))
  {
    WithoutHas(st.sources, id);
    WithoutHas(st.removed, id);
    WithoutDistinct(st.sources, id);
    WithoutDistinct(st.removed, id);
    var r := Without(st.removed, id);
    forall i, j | 0 <= i < j < |r| + 1 ensures ([id] + r)[i] != ([id] + r)[j] {
      if i == 0 {
        assert r[j - 1] in r;
      }
    }
  }

  lemma ForgottenIsGood(st: State, id: Id)
    requires Good(st)
    ensures Good(Forgotten(st, id))
  {
    WithoutHas(st.sources, id);
    WithoutHas(st.removed, id);
    WithoutDistinct(st.sources, id);
    WithoutDistinct(st.removed, id);
  }

  lemma AddedIsGood(st: State, id: Id, url: Url)
    requires Good(st) && id !in st.items
    requires forall k :: !Keeps(st, url, k)
    ensures Good(Added(st, id, url))
  {
    assert forall k | k in st.sources && k in st.items :: Keeps(st, st.items[k].url, k);
    forall i, j | 0 <= i < j < |st.sources| + 1 ensures ([id] + st.sources)[i] != ([id] + st.sources)[j] {
      if i == 0 {
        assert st.sources[j - 1] in st.sources;
      }
    }
  }

  // ---------- The outcome of appending ----------

  function FailedItem(s: Source): Source {
    ClearedItem(s, 0).(status := Failed)
  }

  lemma FailedIsGood(st: State, id: Id)
    requires Good(st) && id in st.items
    ensures Good(Rewritten(st, id, FailedItem(st.items[id])))
  {
  }

  /** Only the buffer of the item has changed, and the text in it has become longer. */
  predicate Extended(st: State, st': State, id: Id, text: seq<Byte>) {
    && id in st.items && OthersKept(st, st', id) && st' == st.(items := st'.items)
    && InBuffer(st.items[id]) && InBuffer(st'.items[id])
    && TextOf(st'.items[id]) == TextOf(st.items[id]) + text
    && st'.items[id] == st.items[id].(buffer := st'.items[id].buffer, length := st'.items[id].length)
  }

  lemma ExtendedIsGood(st: State, id: Id, s: Source, text: seq<Byte>)
    requires Good(st) && id in st.items && id in st.sources
    requires s == st.items[id].(buffer := s.buffer, length := s.length) && InBuffer(s)
    requires TextOf(s) == TextOf(st.items[id]) + text
    ensures Good(st.(items := st.items[id := s]))
    ensures Extended(st, st.(items := st.items[id := s]), id, text)
  {
  }

  predicate OthersKept(st: State, st': State, id: Id) {
    && st'.items.Keys == st.items.Keys
    && forall k | k in st.items && k != id :: st'.items[k] == st.items[k]
  }

  predicate Newest(st: State, st': State, id: Id) {
    id in st'.items && st'.items[id].alterCount == st'.counter - 1 && st.counter < st'.counter
  }

  /** The text of the item is longer by some bytes, and nothing else but its status and alter count has changed. */
  predicate Wrote(st: State, st': State, id: Id, bytes: seq<Byte>, status: Status) {
    && id in st.items && OthersKept(st, st', id) && Newest(st, st', id)
    && st'.sources == st.sources && st'.removed == st.removed
    && st'.items[id].url == st.items[id].url && st'.items[id].doingEval == st.items[id].doingEval
    && InBuffer(st.items[id]) && InBuffer(st'.items[id])
    && TextOf(st'.items[id]) == TextOf(st.items[id]) + bytes
    && st'.items[id].dirty && st'.items[id].status == status
  }

  /** Memory has run out: the item is empty and on the other list, and its status is Cleared, not Failed. */
  predicate Lost(st: State, st': State, id: Id) {
    && id in st.items && OthersKept(st, st', id) && Newest(st, st', id)
    && st'.sources == Without(st.sources, id) && st'.removed == [id] + st.removed
    && st'.items[id] == ClearedItem(st.items[id], st'.counter - 1)
  }

  /** What appending bytes to an item may come to. */
  predicate Appended(st: State, st': State, id: Id, bytes: seq<Byte>, status: Status, r: Option<Id>)
    requires id in st.items
  {
    if st.items[id].doingEval then r == None && st' == st
    else if id !in st.sources then r == None && st' == Forgotten(st, id)
    else if r.Some? then r.value == id && Wrote(st, st', id, bytes, status)
    else bytes != [] && Lost(st, st', id)
  }

  lemma WroteTwice(st: State, st1: State, st2: State, id: Id, a: seq<Byte>, b: seq<Byte>,
                   status: Status, status': Status)
    requires Wrote(st, st1, id, a, status) && Wrote(st1, st2, id, b, status')
    ensures Wrote(st, st2, id, a + b, status')
  {
  }

  lemma WroteAndLost(st: State, st1: State, st2: State, id: Id, a: seq<Byte>, status: Status)
    requires Wrote(st, st1, id, a, status) && Lost(st1, st2, id)
    ensures Lost(st, st2, id)
  {
  }

  /** A jschar cast to a char. */
  function Truncated(chars: seq<Code>): (bytes: seq<Byte>)
    ensures |bytes| == |chars| && forall i | 0 <= i < |chars| :: bytes[i] == chars[i] % 256
  {
    seq(|chars|, i requires 0 <= i < |chars| => chars[i] % 256)
  }

  const CHUNK := 1024
  const GROW := 1000

  // ---------- The URL under which a text is kept ----------

  const FILE_PREFIX: Url := [102, 105, 108, 101, 58]

  function Lower(b: Byte): Byte {
    if 65 <= b <= 90 then b + 32 else b
  }

  /** The URL starts with file:// in upper or lower case. */
  predicate IsFileUrl(url: Url) {
    |url| >= 7 && (forall i | 0 <= i < 5 :: Lower(url[i]) == FILE_PREFIX[i]) && url[5] == 47 && url[6] == 47
  }

  /** jsd_BuildNormalizedURL. */
  function Normalized(url: Url): Url {
    if IsFileUrl(url) then FILE_PREFIX + url[7..] else url
  }

  /** The URL starts with file://, its letters in either case; 102, 105, 108 and 101 are "file", and 58 is ":". */
  predicate StartsAsFile(url: Url) {
    && |url| >= 7 && url[0] in {70, 102} && url[1] in {73, 105} && url[2] in {76, 108} && url[3] in {69, 101}
    && url[4] == 58 && url[5] == 47 && url[6] == 47
  }

  /** A file URL is kept in lower case and without its two slashes, and every other URL as it is. */
  lemma NormalizedIs(url: Url)
    ensures Normalized(url) == if StartsAsFile(url) then [102, 105, 108, 101, 58] + url[7..] else url
  {
    if IsFileUrl(url) {
      assert forall i | 0 <= i < 5 :: Lower(url[i]) == FILE_PREFIX[i];
      assert Lower(url[0]) == 102 && Lower(url[1]) == 105 && Lower(url[2]) == 108 && Lower(url[3]) == 101;
      assert Lower(url[4]) == 58;
    }
  }

  /**
   Which texts are kept under one URL: those of file URLs that go on alike, whatever the case of their
   first letters; the URL file: without slashes, if what follows is the same; and every other URL only with
   itself.
   */
  lemma KeptTogetherExactly(url: Url, w: Url)
    ensures Normalized(url) == Normalized(w) <==>
      || url == w
      || (StartsAsFile(url) && StartsAsFile(w) && url[7..] == w[7..])
      || (StartsAsFile(url) && !StartsAsFile(w) && w == [102, 105, 108, 101, 58] + url[7..])
      || (StartsAsFile(w) && !StartsAsFile(url) && url == [102, 105, 108, 101, 58] + w[7..])
  {
    hide StartsAsFile, Normalized;
    NormalizedIs(url);
    NormalizedIs(w);
    ShapeOfFile(url);
    ShapeOfFile(w);
    var prefix: Url := [102, 105, 108, 101, 58];
    if StartsAsFile(url) && StartsAsFile(w) {
      assert (prefix + url[7..])[5..] == url[7..] && (prefix + w[7..])[5..] == w[7..];
    }
  }

  lemma ShapeOfFile(url: Url)
    ensures StartsAsFile(url) ==> |url| >= 7
  {
  }

  /** Normalizing twice is normalizing once except when two more slashes follow. */
  lemma NormalizedTwice(url: Url)
    ensures Normalized(Normalized(url)) == Normalized(url)
       <==> !(IsFileUrl(url) && |url| >= 9 && url[7] == 47 && url[8] == 47)
  {
  }

  /** file:////x becomes file://x, and that would become file:x. */
  lemma NormalizedTwiceDiffers()
    ensures var url: Url := FILE_PREFIX + [47, 47, 47, 47, 120];
      Normalized(url) == FILE_PREFIX + [47, 47, 120] && Normalized(Normalized(url)) == FILE_PREFIX + [120]
  {
    assert Lower(102) == 102 && Lower(105) == 105 && Lower(108) == 108 && Lower(101) == 101 && Lower(58) == 58;
  }

  /** JSDContext, as far as it keeps source texts. */
  class SourceManager {
    var st: State
    var next: Id

    predicate Valid()
      reads this
    {
      Good(st) && forall id | id in st.items :: id < next
    }

    constructor ()
      ensures Valid() && st == State(map[], [], [], 0)
    {
      st := State(map[], [], [], 0);
      next := 0;
    }

    /** _clearText. */
    method ClearText(id: Id)
      requires Valid() && id in st.items
      modifies this`st
      ensures Valid() && st == Rewritten(old(st), id, ClearedItem(old(st).items[id], 0))
      ensures var url, n := old(st).items[id].url, old(st).counter;
        st.items == old(st).items[id := Source(url, [], 0, true, Cleared, n, false)] && st.counter == n + 1
    {
      RewrittenIsGood(st, id, ClearedItem(st.items[id], 0));
      st := st.(items := st.items[id := ClearedItem(st.items[id], st.counter)], counter := st.counter + 1);
    }

    /**
     _appendText.  Growing the buffer may fail, and then the smallest size is tried; memory tells
     whether that is granted.
     */
    method AppendText(id: Id, text: seq<Byte>, memory: bool) returns (ok: bool)
      requires Valid() && id in st.sources && id in st.items
      modifies this`st
      ensures Valid() && (memory ==> ok)
      ensures !ok ==> st == Rewritten(old(st), id, FailedItem(old(st).items[id]))
      ensures !ok ==> st.items[id] == Source(old(st).items[id].url, [], 0, true, Failed, old(st).counter, false)
      ensures ok ==> Extended(old(st), st, id, text)
    {
      hide Listed, UrlsDiffer, RemovedHoldNothing, Counted;
      var s := st.items[id];
      var neededSize := s.length + |text|;
      if neededSize > |s.buffer| {
        var newSize := if s.buffer == [] then |text| else neededSize * 5 / 4 + GROW;
        var granted: bool := *;
        if !granted {
          newSize := neededSize;
          if !memory {
            FailedIsGood(st, id);
            ClearText(id);
            st := st.(items := st.items[id := st.items[id].(status := Failed)]);
            assert st == Rewritten(old(st), id, FailedItem(old(st).items[id]));
            return false;
          }
        }
        s := s.(buffer := s.buffer + seq(newSize - |s.buffer|, i => 0));
      }
      s := s.(buffer := s.buffer[..s.length] + text + s.buffer[neededSize..], length := neededSize);
      assert TextOf(s) == TextOf(old(st).items[id]) + text;
      ExtendedIsGood(st, id, s, text);
      st := st.(items := st.items[id := s]);
      ok := true;
    }

    /** jsd_FindSourceForURL. */
    method FindSourceForURL(url: Url) returns (r: Option<Id>)
      requires Valid()
      ensures r.Some? ==> Keeps(st, url, r.value)
      ensures r.None? ==> forall k :: !Keeps(st, url, k)
    {
      for i := 0 to |st.sources|
        invariant forall j | 0 <= j < i :: st.sources[j] in st.items && st.items[st.sources[j]].url != url
      {
        assert st.sources[i] in st.sources;
        if st.items[st.sources[i]].url == url {
          return Some(st.sources[i]);
        }
      }
      r := None;
    }

    /** _moveSourceToRemovedList. */
    method MoveToRemovedList(id: Id)
      requires Valid() && id in st.items
      modifies this`st
      ensures Valid() && st == Retired(old(st), id)
      ensures st.items[id] == Source(old(st).items[id].url, [], 0, true, Cleared, old(st).counter, false)
      ensures id !in st.sources && |st.removed| > 0 && st.removed[0] == id
    {
      RetiredIsGood(st, id);
      WithoutHas(st.sources, id);
      ClearText(id);
      st := st.(sources := Without(st.sources, id), removed := [id] + Without(st.removed, id));
    }

    /**
     jsd_NewSourceText: an earlier item for the URL is retired, unless it is being evaluated.
     copied and created tell whether the URL and the item get memory.
     */
    method NewSourceText(url: Url, copied: bool, created: bool) returns (r: Option<Id>)
      requires Valid()
      modifies this
      ensures Valid() && next >= old(next) && old(next) !in old(st).items
      ensures !copied ==> r == None && st == old(st)
      ensures copied ==> Superseded(old(st), st, Normalized(url), r, old(next), created)
    {
      hide Good, Added, Retired;
      if !copied {
        return None;
      }
      var found := FindSourceForURL(Normalized(url));
      ghost var st0 := st;
      if found.Some? {
        OnlyOne(st, Normalized(url), found.value);
        if st.items[found.value].doingEval {
          return None;
        }
        RetiredIs(st, found.value, Normalized(url));
        MoveToRemovedList(found.value);
      }
      if !created {
        return None;
      }
      AddedIsGood(st, next, Normalized(url));
      AddedIs(st, next, Normalized(url));
      r := Some(next);
      st := Added(st, next, Normalized(url));
      next := next + 1;
    }

    /** _isSourceInSourceList. */
    method IsInSourceList(id: Id) returns (found: bool)
      ensures found == (id in st.sources)
    {
      for i := 0 to |st.sources|
        invariant id !in st.sources[..i]
      {
        if st.sources[i] == id {
          return true;
        }
      }
      found := false;
    }

    /** jsd_AppendSourceText; no bytes stand for the null text as well. */
    method AppendSourceText(id: Id, bytes: seq<Byte>, status: Status, memory: bool) returns (r: Option<Id>)
      requires Valid() && id in st.items
      modifies this`st
      ensures Valid() && Appended(old(st), st, id, bytes, status, r)
      ensures memory && r == None ==> old(st).items[id].doingEval || id !in old(st).sources
      ensures r.Some? ==> st.counter == old(st).counter + 1
    {
      hide Good, Wrote, Lost, Retired;
      if st.items[id].doingEval {
        return None;
      }
      InList(st, id);
      var current := IsInSourceList(id);
      if !current {
        ForgottenIsGood(st, id);
        st := Forgotten(st, id);
        return None;
      }
      if bytes != [] {
        var ok := AppendText(id, bytes, memory);
        ghost var st1 := st;
        if !ok {
          StampIsGood(st, id, Failed);
          st := Stamped(st, id, Failed);
          MoveToRemovedList(id);
          RetiredKeys(Stamped(st1, id, Failed), id);
          LostIs(old(st), st, id);
          return None;
        }
      }
      StampIsGood(st, id, status);
      StampedWrote(old(st), st, id, bytes, status);
      st := Stamped(st, id, status);
      r := Some(id);
    }

    /** jsd_AppendUCSourceText: a buffer of 1024 truncated characters at a time. */
    method AppendUCSourceText(id: Id, text: seq<Code>, status: Status, memory: bool) returns (r: Option<Id>)
      requires Valid() && id in st.items
      modifies this`st
      ensures Valid()
      ensures (r == None && st == old(st) && !memory && text != [])
           || Appended(old(st), st, id, Truncated(text), status, r)
      ensures memory && r == None ==> old(st).items[id].doingEval || id !in old(st).sources
    {
      hide Listed, UrlsDiffer, RemovedHoldNothing, Counted;
      if text == [] {
        r := AppendSourceText(id, [], status, memory);
        return;
      }
      var given: bool := *;
      if !memory && !given {
        return None;
      }
      r := Some(id);
      var done := 0;
      while done < |text| && r.Some?
        invariant Valid() && done <= |text|
        invariant r.Some? ==> r.value == id && id in st.items
        invariant r.Some? && done == 0 ==> st == old(st)
        invariant r.Some? && done > 0 ==> Wrote(old(st), st, id, Truncated(text[..done]), Partial)
        invariant done > 0 && !old(st).items[id].doingEval && id in old(st).sources && r.Some? ==> id in st.sources
        invariant r.Some? && done > 0 ==> !old(st).items[id].doingEval && id in old(st).sources
        invariant r == None ==> Appended(old(st), st, id, Truncated(text), status, None)
        invariant r == None && memory ==> old(st).items[id].doingEval || id !in old(st).sources
        decreases |text| - done
      {
        var n := if |text| - done < CHUNK then |text| - done else CHUNK;
        var buf := Truncated(text[done..done + n]);
        ghost var st1 := st;
        r := AppendSourceText(id, buf, Partial, memory);
        ChunkStep(old(st), st1, st, id, text, done, n, r, status);
        done := done + n;
      }
      if r.Some? && status != Partial {
        ghost var st1 := st;
        r := AppendSourceText(id, [], status, memory);
        assert text[..done] == text;
        WroteTwice(old(st), st1, st, id, Truncated(text), [], Partial, status);
        assert Truncated(text) + [] == Truncated(text);
      } else if r.Some? {
        assert text[..done] == text;
      }
    }

    /** jsd_ClearSourceText: a text that is still arriving is left alone. */
    method ClearSourceText(id: Id)
      requires Valid() && id in st.items
      modifies this`st
      ensures Valid()
      ensures old(st).items[id].status in {Inited, Partial} ==> st == old(st)
      ensures old(st).items[id].status !in {Inited, Partial} ==>
        st == Rewritten(old(st), id, ClearedItem(old(st).items[id], 0))
    {
      if st.items[id].status != Inited && st.items[id].status != Partial {
        ClearText(id);
      }
    }

    /** jsd_IncrementSourceAlterCount. */
    method IncrementAlterCount(id: Id) returns (count: nat)
      requires Valid() && id in st.items
      modifies this`st
      ensures Valid() && count == old(st).counter && st == Rewritten(old(st), id, old(st).items[id])
      ensures st.items == old(st).items[id := old(st).items[id].(alterCount := count)] && st.counter == count + 1
      ensures forall k | k in old(st).items :: count != old(st).items[k].alterCount
    {
      RewrittenIsGood(st, id, st.items[id]);
      count := st.counter;
      st := Rewritten(st, id, st.items[id]);
    }

    /** jsd_StartingEvalUsingFilename and jsd_FinishedEvalUsingFilename. */
    method SetDoingEval(url: Url, on: bool)
      requires Valid()
      modifies this`st
      ensures Valid()
      ensures (forall k :: !Keeps(old(st), url, k)) ==> st == old(st)
      ensures forall k | Keeps(old(st), url, k) ::
        st == old(st).(items := old(st).items[k := old(st).items[k].(doingEval := on)])
    {
      var found := FindSourceForURL(url);
      if found.Some? {
        OnlyOne(st, url, found.value);
        EvalIsGood(st, found.value, on);
        st := st.(items := st.items[found.value := st.items[found.value].(doingEval := on)]);
      }
    }

    /**
     jsd_AddFullSourceText: a new item for the URL, mid being the state with it, and then the text
     appended to that item, completed.  copied, created and memory tell whether the URL, the item and
     the text get memory.
     */
    method AddFullSourceText(text: seq<Byte>, url: Url, copied: bool, created: bool, memory: bool)
      returns (ok: bool, ghost mid: State, ghost r: Option<Id>)
      requires Valid()
      modifies this
      ensures Valid() && Good(mid) && next >= old(next)
      ensures !copied ==> r == None && mid == old(st)
      ensures copied ==> Superseded(old(st), mid, Normalized(url), r, old(next), created)
      ensures r == None ==> !ok && st == mid
      ensures r.Some? ==>
        && Keeps(mid, Normalized(url), r.value) && mid.items[r.value].length == 0
        && Appended(mid, st, r.value, text, Completed, if ok then r else None)
      ensures copied && created && memory && !ok ==>
        exists k :: Keeps(old(st), Normalized(url), k) && old(st).items[k].doingEval
    {
      hide Retired, Listed, UrlsDiffer, RemovedHoldNothing, Counted;
      r := None;
      var new' := NewSourceText(url, copied, created);
      mid, r := st, new';
      if new' == None {
        return false, mid, r;
      }
      var id := new'.value;
      NewIs(old(st), mid, Normalized(url), id, created);
      var appended := AppendSourceText(id, text, Partial, memory);
      if appended == None {
        return false, mid, r;
      }
      ghost var st2 := st;
      appended := AppendSourceText(id, [], Completed, memory);
      WroteTwice(mid, st2, st, id, text, [], Partial, Completed);
      assert text + [] == text;
      ok := true;
    }
  }

  lemma EvalIsGood(st: State, id: Id, on: bool)
    requires Good(st) && id in st.items
    ensures Good(st.(items := st.items[id := st.items[id].(doingEval := on)]))
  {
  }

  /** A new item is current for its URL, and empty. */
  lemma NewIs(st: State, st': State, url: Url, id: Id, created: bool)
    requires Good(st) && Superseded(st, st', url, Some(id), id, created) && id !in st.items && st' != st
    ensures Keeps(st', url, id) && st'.items[id].buffer == [] && st'.items[id].length == 0
    ensures !st'.items[id].doingEval
  {
  }

  /** The record of an item after text has been added. */
  function Stamped(st: State, id: Id, status: Status): State
    requires id in st.items
  {
    Rewritten(st, id, st.items[id].(dirty := true, status := status))
  }

  lemma RetiredKeys(st: State, id: Id)
    requires id in st.items
    ensures Retired(st, id).items.Keys == st.items.Keys
  {
  }

  lemma InList(st: State, id: Id)
    requires Good(st)
    ensures Fits(st) && (id in st.sources ==> id in st.items)
  {
  }

  lemma StampedWrote(st: State, st': State, id: Id, bytes: seq<Byte>, status: Status)
    requires Good(st) && Good(st') && id in st.items && id in st'.items && Good(Stamped(st', id, status))
    requires Extended(st, st', id, bytes) || (st' == st && bytes == [])
    ensures Wrote(st, Stamped(st', id, status), id, bytes, status)
    ensures Stamped(st', id, status).counter == st.counter + 1
  {
    hide Listed, UrlsDiffer, RemovedHoldNothing, Counted;
    assert TextOf(st.items[id]) + [] == TextOf(st.items[id]);
  }

  lemma StampIsGood(st: State, id: Id, status: Status)
    requires Good(st) && id in st.items
    ensures Good(Stamped(st, id, status))
  {
  }

  /** The three steps after memory has run out. */
  lemma LostIs(st: State, st': State, id: Id)
    requires Good(st) && id in st.items && id in st.sources
    requires st' == Retired(Stamped(Rewritten(st, id, FailedItem(st.items[id])), id, Failed), id)
    ensures Lost(st, st', id)
  {
    WithoutNot(st.removed, id);
  }

  lemma {:induction false} WithoutNot(s: seq<Id>, id: Id)
    requires id !in s
    ensures Without(s, id) == s
  {
    if s != [] {
      WithoutNot(s[1..], id);
    }
  }

  lemma TruncatedJoins(text: seq<Code>, done: nat, n: nat)
    requires done + n <= |text|
    ensures Truncated(text[..done]) + Truncated(text[done..done + n]) == Truncated(text[..done + n])
    ensures n > 0 ==> Truncated(text[done..done + n]) != [] && Truncated(text) != []
  {
  }

  /** One more chunk. */
  lemma ChunkStep(st: State, st1: State, st2: State, id: Id, text: seq<Code>, done: nat, n: nat,
                  r: Option<Id>, status: Status)
    requires Good(st) && Good(st1) && Good(st2) && id in st.items && id in st1.items && done + n <= |text| && n > 0
    requires if done == 0 then st1 == st else Wrote(st, st1, id, Truncated(text[..done]), Partial)
    requires done > 0 ==> !st.items[id].doingEval && id in st.sources
    requires Appended(st1, st2, id, Truncated(text[done..done + n]), Partial, r)
    ensures r.Some? ==> Wrote(st, st2, id, Truncated(text[..done + n]), Partial)
    ensures r == None ==> Appended(st, st2, id, Truncated(text), status, None)
  {
    hide Listed, UrlsDiffer, RemovedHoldNothing, Counted, Lost, Forgotten, Truncated, OthersKept, Newest;
    TruncatedJoins(text, done, n);
    if done > 0 {
      if r.Some? {
        WroteTwice(st, st1, st2, id, Truncated(text[..done]), Truncated(text[done..done + n]), Partial, Partial);
      } else {
        WroteAndLost(st, st1, st2, id, Truncated(text[..done]), Partial);
      }
    } else {
      assert text[..0 + n] == text[0..0 + n];
    }
  }

  /** What jsd_NewSourceText comes to for a normalized URL. */
  ghost predicate Superseded(st: State, st': State, url: Url, r: Option<Id>, id: Id, created: bool) {
    && ((forall k :: !Keeps(st, url, k)) ==>
          r == (if created then Some(id) else None) && st' == (if created then Added(st, id, url) else st))
    && (forall k | Keeps(st, url, k) && st.items[k].doingEval :: r == None && st' == st)
    && (forall k | Keeps(st, url, k) && !st.items[k].doingEval ::
          && r == (if created then Some(id) else None)
          && st' == (if created then Added(Retired(st, k), id, url) else Retired(st, k)))
  }

  /** A new item is empty and at the head of the list; an earlier one is emptied and retired; all others stay. */
  lemma SupersededPlainly(st: State, st': State, url: Url, r: Option<Id>, id: Id, created: bool, k: Id)
    requires Good(st) && Superseded(st, st', url, r, id, created) && id !in st.items
    ensures r.Some? ==>
      && r.value == id && id in st'.items && |st'.sources| > 0 && st'.sources[0] == id
      && st'.items[id] == Source(url, [], 0, true, Inited, st'.counter - 1, false)
    ensures Keeps(st, url, k) && !st.items[k].doingEval ==>
      && k !in st'.sources && k in st'.removed && k in st'.items
      && st'.items[k] == Source(url, [], 0, true, Cleared, st.counter, false)
    ensures k in st.items && !(Keeps(st, url, k) && !st.items[k].doingEval) ==>
      k in st'.items && st'.items[k] == st.items[k]
  {
    WithoutHas(st.sources, k);
    if m :| Keeps(st, url, m) {
      OnlyOne(st, url, m);
    }
  }

  /** What happens to an item that gets no more text, and to nothing else. */
  lemma AppendedPlainly(st: State, st': State, id: Id, bytes: seq<Byte>, status: Status, r: Option<Id>)
    requires Good(st) && id in st.items && Appended(st, st', id, bytes, status, r) && !st.items[id].doingEval
    ensures id !in st.sources ==>
      r == None && st'.items == st.items - {id} && id !in st'.sources && id !in st'.removed
    ensures id in st.sources && r == None ==>
      && id !in st'.sources && id in st'.removed
      && st'.items == st.items[id := Source(st.items[id].url, [], 0, true, Cleared, st'.counter - 1, false)]
  {
    WithoutHas(st.sources, id);
    WithoutHas(st.removed, id);
    hide Listed, UrlsDiffer, RemovedHoldNothing, Counted, Without;
  }

  /** At most one item is current for a URL. */
  lemma OnlyOne(st: State, url: Url, k: Id)
    requires Good(st) && Keeps(st, url, k)
    ensures forall m :: Keeps(st, url, m) ==> m == k
  {
  }

  lemma RetiredIs(st: State, id: Id, url: Url)
    requires Good(st) && Keeps(st, url, id)
    ensures forall k :: !Keeps(Retired(st, id), url, k)
    ensures Retired(st, id).items.Keys == st.items.Keys
  {
    WithoutHas(st.sources, id);
  }

  lemma AddedIs(st: State, id: Id, url: Url)
    ensures Added(st, id, url).items.Keys == st.items.Keys + {id}
  {
  }
}
