/**
 js/src/jsapi.c: the list of argument formatters of a context.  It is kept longest format first, so
 that the first match is the longest one.
 */
module Formatters {
  import opened Wrappers

  type Format = seq<Code>
  type Formatter = int

  /** JSArgumentFormatMap without its link. */
  datatype Entry = Entry(format: Format, formatter: Formatter)

  /** The longest format of the table that the text starts with, looking at the first n characters. */
  function Longest(m: map<Format, Formatter>, text: Format, n: nat): Option<Entry>
    requires n <= |text|
  {
    if text[..n] in m then Some(Entry(text[..n], m[text[..n]]))
    else if n == 0 then None
    else Longest(m, text, n - 1)
  }

  /** Longest is what its name says. */
  lemma {:induction false} LongestIs(m: map<Format, Formatter>, text: Format, n: nat)
    requires n <= |text|
    ensures var r := Longest(m, text, n);
      && (r.Some? ==> r.value.format in m && r.value.format <= text && |r.value.format| <= n
                      && m[r.value.format] == r.value.formatter)
      && (forall k | 0 <= k <= n && text[..k] in m :: r.Some? && |r.value.format| >= k)
  {
    if text[..n] !in m && n > 0 {
      LongestIs(m, text, n - 1);
    }
  }

  lemma LongestMeans(m: map<Format, Formatter>, text: Format)
    ensures var r := Longest(m, text, |text|);
      && (r.Some? ==> r.value.format in m && r.value.format <= text && m[r.value.format] == r.value.formatter)
      && (forall f | f in m && f <= text :: r.Some? && |f| <= |r.value.format|)
  {
    LongestIs(m, text, |text|);
    forall f | f in m && f <= text ensures text[..|f|] == f {
    }
  }

  /** The table that a list of entries stands for. */
  function Table(es: seq<Entry>): map<Format, Formatter> {
    if es == [] then map[] else Table(es[1..])[es[0].format := es[0].formatter]
  }

  /** What holds between an entry and a later one. */
  predicate Precedes(a: Entry, b: Entry) {
    |a.format| >= |b.format| && a.format != b.format
  }

  predicate Ordered(es: seq<Entry>) {
    forall i, j | 0 <= i < j < |es| :: Precedes(es[i], es[j])
  }

  lemma OrderedParts(a: seq<Entry>, b: seq<Entry>)
    requires Ordered(a + b)
    ensures Ordered(a) && Ordered(b) && forall x, y | x in a && y in b :: Precedes(x, y)
  {
    var es := a + b;
    forall i, j | 0 <= i < j < |a| ensures Precedes(a[i], a[j]) {
      assert a[i] == es[i] && a[j] == es[j];
    }
    forall i, j | 0 <= i < j < |b| ensures Precedes(b[i], b[j]) {
      assert b[i] == es[|a| + i] && b[j] == es[|a| + j];
    }
    forall x, y | x in a && y in b ensures Precedes(x, y) {
      var i :| 0 <= i < |a| && a[i] == x;
      var j :| 0 <= j < |b| && b[j] == y;
      assert es[i] == x && es[|a| + j] == y;
    }
  }

  lemma OrderedJoins(a: seq<Entry>, b: seq<Entry>)
    requires Ordered(a) && Ordered(b) && forall x, y | x in a && y in b :: Precedes(x, y)
    ensures Ordered(a + b)
  {
  }

  predicate HasAt(es: seq<Entry>, i: int, f: Format) {
    0 <= i < |es| && es[i].format == f
  }

  /** The formats of the table are those in the list. */
  lemma {:induction false} TableHas(es: seq<Entry>, f: Format)
    ensures f in Table(es) <==> exists i :: HasAt(es, i, f)
  {
    if es != [] {
      TableHas(es[1..], f);
      if es[0].format == f {
        assert HasAt(es, 0, f);
      } else if i :| HasAt(es[1..], i, f) {
        assert HasAt(es, i + 1, f);
      } else {
        assert forall i | HasAt(es, i, f) :: HasAt(es[1..], i - 1, f);
      }
    }
  }

  /** Earlier entries win. */
  lemma {:induction false} TableJoins(a: seq<Entry>, b: seq<Entry>)
    ensures Table(a + b) == Table(b) + Table(a)
  {
    if a == [] {
      assert a + b == b;
    } else {
      TableJoins(a[1..], b);
      assert (a + b)[1..] == a[1..] + b;
    }
  }

  /** An entry between others that do not have its format. */
  lemma TableAround(a: seq<Entry>, e: Entry, b: seq<Entry>)
    requires forall i :: !HasAt(a, i, e.format)
    ensures Table(a + [e] + b) == Table(a + b)[e.format := e.formatter]
    ensures (forall i :: !HasAt(b, i, e.format)) ==> Table(a + b) == Table(a + [e] + b) - {e.format}
  {
    TableHas(a, e.format);
    TableHas(b, e.format);
    TableJoins(a + [e], b);
    TableJoins(a, [e]);
    TableJoins(a, b);
    TableOfOne(e);
    hide Table, HasAt;
    var ta, tb := Table(a), Table(b);
    assert tb + (map[e.format := e.formatter] + ta) == (tb + ta)[e.format := e.formatter];
  }

  lemma TableOfOne(e: Entry)
    ensures Table([e]) == map[e.format := e.formatter]
  {
    assert [e][1..] == [];
  }

  lemma Inserted(a: seq<Entry>, e: Entry, b: seq<Entry>)
    requires Ordered(a + b)
    requires forall x | x in a :: Precedes(x, e)
    requires b != [] ==> |b[0].format| < |e.format|
    ensures Ordered(a + [e] + b)
    ensures e.format !in Table(a + b) && Table(a + [e] + b) == Table(a + b)[e.format := e.formatter]
  {
    OrderedParts(a, b);
    ShorterFollow(b, e);
    OrderedJoins(a, [e]);
    OrderedJoins(a + [e], b);
    hide Ordered;
    NotIn(a, e.format);
    NotIn(b, e.format);
    TableAround(a, e, b);
    TableJoins(a, b);
    TableHas(a, e.format);
    TableHas(b, e.format);
  }

  lemma ShorterFollow(b: seq<Entry>, e: Entry)
    requires Ordered(b) && (b != [] ==> |b[0].format| < |e.format|)
    ensures forall x | x in b :: Precedes(e, x)
  {
  }

  lemma NotIn(es: seq<Entry>, f: Format)
    requires forall x | x in es :: x.format != f
    ensures forall i :: !HasAt(es, i, f)
  {
  }

  /** The entry in the middle may be replaced by one with the same format, or removed. */
  lemma Middle(a: seq<Entry>, e: Entry, b: seq<Entry>)
    requires Ordered(a + [e] + b)
    ensures forall i :: !HasAt(a, i, e.format)
    ensures e.format in Table(a + [e] + b) && Table(a + [e] + b)[e.format] == e.formatter
    ensures Ordered(a + b) && Table(a + b) == Table(a + [e] + b) - {e.format}
  {
    OrderedParts(a + [e], b);
    OrderedParts(a, [e]);
    OrderedJoins(a, b);
    hide Ordered;
    assert e in [e] && e in a + [e];
    NotIn(a, e.format);
    NotIn(b, e.format);
    TableAround(a, e, b);
  }

  lemma Replaced(a: seq<Entry>, e: Entry, e': Entry, b: seq<Entry>)
    requires Ordered(a + [e] + b) && e'.format == e.format
    ensures Ordered(a + [e'] + b)
    ensures Table(a + [e'] + b) == Table(a + [e] + b)[e.format := e'.formatter]
  {
    Middle(a, e, b);
    TableAround(a, e, b);
    TableAround(a, e', b);
    OrderedParts(a + [e], b);
    OrderedParts(a, [e]);
    hide Ordered;
    assert forall x | x in a :: Precedes(x, e') by { assert e in [e]; }
    assert forall x | x in b :: Precedes(e', x) by { assert e in a + [e]; }
    OneIsOrdered(e');
    OrderedJoins(a, [e']);
    OrderedJoins(a + [e'], b);
  }

  lemma OneIsOrdered(e: Entry)
    ensures Ordered([e])
  {
  }

  /** The first entry whose format the text starts with is the longest match. */
  lemma FirstIsLongest(a: seq<Entry>, e: Entry, b: seq<Entry>, text: Format)
    requires Ordered(a + [e] + b) && e.format <= text
    requires forall x | x in a :: !(x.format <= text)
    ensures Longest(Table(a + [e] + b), text, |text|) == Some(e)
  {
    Middle(a, e, b);
    OrderedParts(a + [e], b);
    assert e in a + [e];
    hide Ordered, Table, Longest, HasAt;
    var m := Table(a + [e] + b);
    forall f | f in m && f <= text ensures |f| <= |e.format| {
      LaterAreShorter(a, e, b, text, f);
    }
    LongestOf(m, e, text);
  }

  lemma LongestOf(m: map<Format, Formatter>, e: Entry, text: Format)
    requires e.format in m && m[e.format] == e.formatter && e.format <= text
    requires forall f | f in m && f <= text :: |f| <= |e.format|
    ensures Longest(m, text, |text|) == Some(e)
  {
    hide Longest;
    LongestIs(m, text, |text|);
    assert text[..|e.format|] == e.format;
    var r := Longest(m, text, |text|);
    assert r.Some? && r.value.format == e.format;
  }

  lemma LaterAreShorter(a: seq<Entry>, e: Entry, b: seq<Entry>, text: Format, f: Format)
    requires forall x | x in a :: !(x.format <= text)
    requires forall y | y in b :: Precedes(e, y)
    requires f in Table(a + [e] + b) && f <= text
    ensures |f| <= |e.format|
  {
    TableHas(a + [e] + b, f);
    var i :| HasAt(a + [e] + b, i, f);
    var x := (a + [e] + b)[i];
    assert x !in a;
    assert x == e || x in b;
  }

  lemma NoMatch(es: seq<Entry>, text: Format)
    requires forall x | x in es :: !(x.format <= text)
    ensures Longest(Table(es), text, |text|) == None
  {
    hide Table, Longest;
    LongestIs(Table(es), text, |text|);
    forall f | f <= text ensures f !in Table(es) {
      NotIn(es, f);
      TableHas(es, f);
    }
  }

  /** JSContext, as far as it keeps argument formatters. */
  class FormatMap {
    var entries: seq<Entry>

    predicate Valid()
      reads this
    {
      Ordered(entries)
    }

    constructor ()
      ensures Valid() && Table(entries) == map[]
    {
      entries := [];
    }

    /** JS_AddArgumentFormatter. */
    method Add(format: Format, formatter: Formatter, memory: bool) returns (ok: bool)
      requires Valid()
      modifies this
      ensures Valid() && ok == (memory || format in old(Table(entries)))
      ensures Table(entries) == if ok then old(Table(entries))[format := formatter] else old(Table(entries))
    {
      hide Ordered;
      var i := 0;
      while i < |entries| && |entries[i].format| >= |format|
        invariant i <= |entries| && entries == old(entries)
        invariant forall x | x in entries[..i] :: |x.format| >= |format| && x.format != format
      {
        if entries[i].format == format {
          assert entries == entries[..i] + [entries[i]] + entries[i + 1..];
          Replaced(entries[..i], entries[i], Entry(format, formatter), entries[i + 1..]);
          Middle(entries[..i], entries[i], entries[i + 1..]);
          entries := entries[..i] + [Entry(format, formatter)] + entries[i + 1..];
          return true;
        }
        i := i + 1;
      }
      assert entries == entries[..i] + entries[i..];
      Inserted(entries[..i], Entry(format, formatter), entries[i..]);
      if !memory {
        return false;
      }
      entries := entries[..i] + [Entry(format, formatter)] + entries[i..];
      ok := true;
    }

    /** JS_RemoveArgumentFormatter. */
    method Remove(format: Format)
      requires Valid()
      modifies this
      ensures Valid() && Table(entries) == old(Table(entries)) - {format}
    {
      hide Ordered;
      for i := 0 to |entries|
        invariant entries == old(entries)
        invariant forall x | x in entries[..i] :: x.format != format
      {
        if entries[i].format == format {
          assert entries == entries[..i] + [entries[i]] + entries[i + 1..];
          Middle(entries[..i], entries[i], entries[i + 1..]);
          entries := entries[..i] + entries[i + 1..];
          return;
        }
      }
      assert entries[..|entries|] == entries;
      NotIn(entries, format);
      TableHas(entries, format);
    }

    /** TryArgumentFormatter, up to the call of the formatter: which one, and where the format goes on. */
    method TryFormatter(text: Format) returns (r: Option<Entry>, rest: Format)
      requires Valid()
      ensures r == Longest(Table(entries), text, |text|)
      ensures r.Some? ==> r.value.format <= text && r.value.format in Table(entries)
                          && Table(entries)[r.value.format] == r.value.formatter
      ensures forall f | f in Table(entries) && f <= text :: r.Some? && |f| <= |r.value.format|
      ensures text == (if r.Some? then r.value.format else []) + rest
    {
      hide Ordered, Table, Longest;
      LongestMeans(Table(entries), text);
      for i := 0 to |entries|
        invariant forall x | x in entries[..i] :: !(x.format <= text)
      {
        if entries[i].format <= text {
          assert entries == entries[..i] + [entries[i]] + entries[i + 1..];
          FirstIsLongest(entries[..i], entries[i], entries[i + 1..], text);
          return Some(entries[i]), text[|entries[i].format|..];
        }
      }
      assert entries[..|entries|] == entries;
      NoMatch(entries, text);
      r, rest := None, text;
    }
  }
}
