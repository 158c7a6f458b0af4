/**
 The white space of printed JSON, by its position alone: what stands behind a colon, a comma and an open bracket
 and in front of a closing one, and that there is none elsewhere.
 */
module JsonLayout {
  import opened Wrappers
  import opened Json2
  import opened JsonPrint

  function Times(indent: Chars, n: nat): Chars {
    if n == 0 then [] else Times(indent, n - 1) + indent
  }

  predicate Opens(t: Token) {
    t == Mark(OPEN) || t == Mark(LBRACE)
  }

  predicate Closes(t: Token) {
    t == Mark(CLOSE) || t == Mark(RBRACE)
  }

  /** How many containers the tokens leave open. */
  function Depth(ts: seq<Token>): int {
    if ts == [] then 0
    else Depth(ts[..|ts| - 1]) + Change(ts[|ts| - 1])
  }

  function Change(t: Token): int {
    if Opens(t) then 1 else if Closes(t) then -1 else 0
  }

  /** A line break, and one copy of the indent for each open container. */
  predicate IsBreak(t: Option<Token>, indent: Chars, depth: int) {
    0 <= depth && t == Some(Space([10] + Times(indent, depth)))
  }

  /**
   White space is right about token t, with before and after next to it and depth containers open in front
   of it.
   */
  predicate Placed(before: Option<Token>, t: Token, after: Option<Token>, depth: int, indent: Chars) {
    if indent == [] then !t.Space?
    else
      && (t == Mark(COLON) ==> after == Some(Space([32])))
      && (t == Mark(COMMA) ==> IsBreak(after, indent, depth))
      && (Opens(t) ==> (after.Some? && Closes(after.value)) || IsBreak(after, indent, depth + 1))
      && (Closes(t) ==> (before.Some? && Opens(before.value)) || IsBreak(before, indent, depth - 1))
      && (t.Space? ==>
            || (before.Some? && (before.value == Mark(COLON) || before.value == Mark(COMMA) || Opens(before.value)))
            || (after.Some? && Closes(after.value)))
  }

  // ---------- From token to token ----------

  function First(ts: seq<Token>, next: Option<Token>): Option<Token> {
    if ts == [] then next else Some(ts[0])
  }

  function Last(prev: Option<Token>, ts: seq<Token>): Option<Token> {
    if ts == [] then prev else Some(ts[|ts| - 1])
  }

  /** White space is right about all of ts, between prev and next, depth containers deep. */
  predicate Fine(prev: Option<Token>, ts: seq<Token>, next: Option<Token>, depth: int, indent: Chars)
    decreases |ts|
  {
    ts == [] ||
      (Placed(prev, ts[0], First(ts[1..], next), depth, indent)
       && Fine(Some(ts[0]), ts[1..], next, depth + Change(ts[0]), indent))
  }

  /** The same count from the front. */
  function Climb(ts: seq<Token>): int {
    if ts == [] then 0 else Change(ts[0]) + Climb(ts[1..])
  }

  lemma {:induction false} ClimbJoins(a: seq<Token>, b: seq<Token>)
    ensures Climb(a + b) == Climb(a) + Climb(b)
  {
    if a == [] {
      assert a + b == b;
    } else {
      ClimbJoins(a[1..], b);
      assert (a + b)[1..] == a[1..] + b;
    }
  }

  lemma {:induction false} ClimbIsDepth(ts: seq<Token>)
    ensures Climb(ts) == Depth(ts)
  {
    if ts != [] {
      var front, last := ts[..|ts| - 1], ts[|ts| - 1];
      ClimbIsDepth(front);
      ClimbJoins(front, [last]);
      assert ts == front + [last] && [last][1..] == [];
    }
  }

  lemma {:induction false} FineJoins(prev: Option<Token>, a: seq<Token>, b: seq<Token>, next: Option<Token>,
                                     depth: int, indent: Chars)
    requires Fine(prev, a, First(b, next), depth, indent) && Fine(Last(prev, a), b, next, depth + Climb(a), indent)
    ensures Fine(prev, a + b, next, depth, indent)
    decreases |a|
  {
    hide Placed;
    if a == [] {
      assert a + b == b;
    } else {
      assert (a + b)[0] == a[0] && (a + b)[1..] == a[1..] + b;
      assert Last(Some(a[0]), a[1..]) == Last(prev, a);
      FineJoins(Some(a[0]), a[1..], b, next, depth + Change(a[0]), indent);
    }
  }

  /** What is right from token to token is right about every token. */
  lemma {:induction false} FineAt(prev: Option<Token>, ts: seq<Token>, next: Option<Token>, depth: int, indent: Chars,
                                  i: nat)
    requires Fine(prev, ts, next, depth, indent) && i < |ts|
    ensures Placed(if i == 0 then prev else Some(ts[i - 1]), ts[i], First(ts[i + 1..], next),
                   depth + Climb(ts[..i]), indent)
    decreases i
  {
    hide Placed;
    if i > 0 {
      FineAt(Some(ts[0]), ts[1..], next, depth + Change(ts[0]), indent, i - 1);
      assert ts[1..][..i - 1] == ts[..i][1..] && ts[1..][i..] == ts[i + 1..];
    }
  }

  // ---------- Printed tokens ----------

  lemma FineOne(prev: Option<Token>, t: Token, next: Option<Token>, depth: int, indent: Chars)
    requires Placed(prev, t, next, depth, indent)
    ensures Fine(prev, [t], next, depth, indent) && Climb([t]) == Change(t)
  {
    assert [t][1..] == [];
  }

  /** A line break where one is called for. */
  lemma BreakIsFine(prev: Option<Token>, next: Option<Token>, depth: nat, d: int, indent: Chars)
    requires
      || (next.Some? && Closes(next.value))
      || (prev.Some? && (prev.value == Mark(COMMA) || Opens(prev.value)))
    ensures Fine(prev, Break(Times(indent, depth), indent), next, d, indent)
    ensures Climb(Break(Times(indent, depth), indent)) == 0
  {
    if indent != [] {
      var t := Space([10] + Times(indent, depth));
      assert Break(Times(indent, depth), indent) == [t];
      FineOne(prev, t, next, d, indent);
    }
  }

  lemma SeparatorIsFine(prev: Option<Token>, next: Option<Token>, depth: nat, indent: Chars)
    ensures Fine(prev, Separator(Times(indent, depth), indent), next, depth, indent)
    ensures Climb(Separator(Times(indent, depth), indent)) == 0
  {
    var comma, line := Mark(COMMA), Break(Times(indent, depth), indent);
    BreakIsFine(Some(comma), next, depth, depth, indent);
    FineOne(prev, comma, First(line, next), depth, indent);
    FineJoins(prev, [comma], line, next, depth, indent);
    ClimbJoins([comma], line);
  }

  lemma ColonIsFine(prev: Option<Token>, next: Option<Token>, depth: nat, indent: Chars)
    ensures Fine(prev, Colon(indent), next, depth, indent) && Climb(Colon(indent)) == 0
  {
    var colon := Mark(COLON);
    if indent == [] {
      FineOne(prev, colon, next, depth, indent);
    } else {
      var blank := Space([32]);
      assert Colon(indent) == [colon] + [blank];
      FineOne(Some(colon), blank, next, depth, indent);
      FineOne(prev, colon, Some(blank), depth, indent);
      FineJoins(prev, [colon], [blank], next, depth, indent);
      ClimbJoins([colon], [blank]);
    }
  }

  lemma MemberIsFine(k: Chars, ts: seq<Token>, prev: Option<Token>, next: Option<Token>, depth: nat, indent: Chars)
    requires Fine(Last(Some(Quoted(k)), Colon(indent)), ts, next, depth, indent) && Climb(ts) == 0
    ensures Fine(prev, Member(k, indent, ts), next, depth, indent) && Climb(Member(k, indent, ts)) == 0
  {
    var key := Quoted(k);
    ColonIsFine(Some(key), First(ts, next), depth, indent);
    FineJoins(Some(key), Colon(indent), ts, next, depth, indent);
    FineOne(prev, key, First(Colon(indent) + ts, next), depth, indent);
    FineJoins(prev, [key], Colon(indent) + ts, next, depth, indent);
    ClimbJoins(Colon(indent), ts);
    ClimbJoins([key], Colon(indent) + ts);
    assert [key] + Colon(indent) + ts == [key] + (Colon(indent) + ts);
  }

  lemma CloseIsFine(prev: Option<Token>, right: Token, next: Option<Token>, depth: nat, indent: Chars)
    requires Closes(right)
    ensures var outer := Break(Times(indent, depth), indent);
      Fine(prev, outer + [right], next, depth + 1, indent) && Climb(outer + [right]) == -1
  {
    var outer := Break(Times(indent, depth), indent);
    BreakIsFine(prev, Some(right), depth, depth + 1, indent);
    FineOne(Last(prev, outer), right, next, depth + 1, indent);
    FineJoins(prev, outer, [right], next, depth + 1, indent);
    ClimbJoins(outer, [right]);
  }

  lemma OpenIsFine(prev: Option<Token>, left: Token, rest: seq<Token>, next: Option<Token>, depth: nat, indent: Chars)
    requires Opens(left)
    requires Fine(Last(Some(left), Break(Times(indent, depth + 1), indent)), rest, next, depth + 1, indent)
    ensures var all := [left] + (Break(Times(indent, depth + 1), indent) + rest);
      Fine(prev, all, next, depth, indent) && Climb(all) == 1 + Climb(rest)
  {
    var inner := Break(Times(indent, depth + 1), indent);
    BreakIsFine(Some(left), First(rest, next), depth + 1, depth + 1, indent);
    FineJoins(Some(left), inner, rest, next, depth + 1, indent);
    FineOne(prev, left, First(inner + rest, next), depth, indent);
    FineJoins(prev, [left], inner + rest, next, depth, indent);
    ClimbJoins(inner, rest);
    ClimbJoins([left], inner + rest);
  }

  /** ts may stand anywhere, depth containers deep. */
  ghost predicate FineAnywhere(ts: seq<Token>, depth: nat, indent: Chars) {
    Climb(ts) == 0 && forall prev, next :: Fine(prev, ts, next, depth, indent)
  }

  lemma FineHere(ts: seq<Token>, depth: nat, indent: Chars, prev: Option<Token>, next: Option<Token>)
    requires FineAnywhere(ts, depth, indent)
    ensures Fine(prev, ts, next, depth, indent) && Climb(ts) == 0
  {
  }

  /** Something between brackets, one level deeper. */
  lemma EnclosedIsFine(left: Token, ts: seq<Token>, right: Token, depth: nat, indent: Chars)
    requires Opens(left) && Closes(right) && FineAnywhere(ts, depth + 1, indent)
    ensures FineAnywhere([left] + Break(Times(indent, depth + 1), indent) + ts + Break(Times(indent, depth), indent)
                           + [right], depth, indent)
  {
    hide Placed, FineAnywhere;
    var inner, outer := Break(Times(indent, depth + 1), indent), Break(Times(indent, depth), indent);
    var all := [left] + inner + ts + outer + [right];
    hide Break;
    Regroup(left, inner, ts, outer, right);
    forall prev, next ensures Fine(prev, all, next, depth, indent) && Climb(all) == 0 {
      var p := Last(Some(left), inner);
      FineHere(ts, depth + 1, indent, p, First(outer + [right], next));
      CloseIsFine(Last(p, ts), right, next, depth, indent);
      FineJoins(p, ts, outer + [right], next, depth + 1, indent);
      ClimbJoins(ts, outer + [right]);
      OpenIsFine(prev, left, ts + (outer + [right]), next, depth, indent);
    }
    AnywhereIs(all, depth, indent);
  }

  lemma AnywhereIs(ts: seq<Token>, depth: nat, indent: Chars)
    requires forall prev, next :: Fine(prev, ts, next, depth, indent) && Climb(ts) == 0
    ensures FineAnywhere(ts, depth, indent)
  {
    assert Fine(None, ts, None, depth, indent) && Climb(ts) == 0;
  }

  lemma Regroup(left: Token, inner: seq<Token>, ts: seq<Token>, outer: seq<Token>, right: Token)
    ensures [left] + inner + ts + outer + [right] == [left] + (inner + (ts + (outer + [right])))
  {
  }

  /** One thing behind another, with a separator between them. */
  lemma ListIsFine(a: seq<Token>, b: seq<Token>, depth: nat, indent: Chars)
    requires FineAnywhere(a, depth, indent) && FineAnywhere(b, depth, indent)
    ensures FineAnywhere(a + (if a == [] then [] else Separator(Times(indent, depth), indent)) + b, depth, indent)
  {
    hide Placed, FineAnywhere;
    var mid := if a == [] then [] else Separator(Times(indent, depth), indent);
    var all := a + mid + b;
    forall prev, next ensures Fine(prev, all, next, depth, indent) && Climb(all) == 0 {
      FineHere(b, depth, indent, Last(Last(prev, a), mid), next);
      if mid != [] {
        SeparatorIsFine(Last(prev, a), First(b, next), depth, indent);
      }
      FineHere(a, depth, indent, prev, First(mid + b, next));
      FineJoins(Last(prev, a), mid, b, next, depth, indent);
      FineJoins(prev, a, mid + b, next, depth, indent);
      ClimbJoins(mid, b);
      ClimbJoins(a, mid + b);
      assert all == a + (mid + b);
    }
    AnywhereIs(all, depth, indent);
  }

  lemma NothingIsFine(depth: nat, indent: Chars)
    ensures FineAnywhere([], depth, indent)
  {
  }

  lemma ScalarIsFine(t: Token, depth: nat, indent: Chars)
    requires t.Quoted? || t.Atom?
    ensures FineAnywhere([t], depth, indent)
  {
    forall prev, next ensures Fine(prev, [t], next, depth, indent) && Climb([t]) == 0 {
      FineOne(prev, t, next, depth, indent);
    }
    AnywhereIs([t], depth, indent);
  }

  lemma EmptyIsFine(left: Token, right: Token, depth: nat, indent: Chars)
    requires Opens(left) && Closes(right)
    ensures FineAnywhere([left, right], depth, indent)
  {
    forall prev, next ensures Fine(prev, [left, right], next, depth, indent) && Climb([left, right]) == 0 {
      FineOne(Some(left), right, next, depth + 1, indent);
      FineOne(prev, left, Some(right), depth, indent);
      FineJoins(prev, [left], [right], next, depth, indent);
      ClimbJoins([left], [right]);
      assert [left, right] == [left] + [right];
    }
    AnywhereIs([left, right], depth, indent);
  }

  lemma PairIsFine(k: Chars, ts: seq<Token>, depth: nat, indent: Chars)
    requires FineAnywhere(ts, depth, indent)
    ensures FineAnywhere(Member(k, indent, ts), depth, indent)
  {
    hide FineAnywhere, Member, Placed;
    forall prev, next
      ensures Fine(prev, Member(k, indent, ts), next, depth, indent) && Climb(Member(k, indent, ts)) == 0
    {
      FineHere(ts, depth, indent, Last(Some(Quoted(k)), Colon(indent)), next);
      MemberIsFine(k, ts, prev, next, depth, indent);
    }
    AnywhereIs(Member(k, indent, ts), depth, indent);
  }

  lemma {:induction false} ValueIsFine(v: Json, depth: nat, indent: Chars)
    ensures FineAnywhere(Tokens(v, Times(indent, depth), indent), depth, indent)
    decreases v, 2, 0
  {
    hide FineAnywhere, Elements, Members, Break;
    NothingIsFine(depth, indent);
    match v
    case Arr(elems) =>
      if elems == [] {
        EmptyIsFine(Mark(OPEN), Mark(CLOSE), depth, indent);
      } else {
        ElementsAreFine(v, |elems|, depth + 1, indent);
        EnclosedIsFine(Mark(OPEN), Elements(v, |elems|, Times(indent, depth + 1), indent), Mark(CLOSE), depth, indent);
      }
    case Obj(members, _) =>
      var ts := Members(v, |members|, Times(indent, depth + 1), indent);
      if ts == [] {
        EmptyIsFine(Mark(LBRACE), Mark(RBRACE), depth, indent);
      } else {
        MembersAreFine(v, |members|, depth + 1, indent);
        EnclosedIsFine(Mark(LBRACE), ts, Mark(RBRACE), depth, indent);
      }
    case Absent =>
    case _ =>
      ScalarIsFine(Tokens(v, Times(indent, depth), indent)[0], depth, indent);
  }

  lemma {:induction false} ElementsAreFine(v: Json, n: nat, depth: nat, indent: Chars)
    requires v.Arr? && n <= |v.elems|
    ensures FineAnywhere(Elements(v, n, Times(indent, depth), indent), depth, indent)
    decreases v, 1, n
  {
    hide FineAnywhere, Separator, Tokens;
    if n == 0 {
      NothingIsFine(depth, indent);
    } else {
      var e := v.elems[n - 1];
      ElementsAreFine(v, n - 1, depth, indent);
      if e == Absent {
        ScalarIsFine(Atom(NULL), depth, indent);
      } else {
        ValueIsFine(e, depth, indent);
      }
      ListIsFine(Elements(v, n - 1, Times(indent, depth), indent), Element(e, Times(indent, depth), indent),
                 depth, indent);
    }
  }

  lemma {:induction false} MembersAreFine(v: Json, n: nat, depth: nat, indent: Chars)
    requires v.Obj? && n <= |v.members|
    ensures FineAnywhere(Members(v, n, Times(indent, depth), indent), depth, indent)
    decreases v, 1, n
  {
    hide FineAnywhere, Separator, Tokens, Member;
    if n == 0 {
      NothingIsFine(depth, indent);
    } else {
      var (k, value) := v.members[n - 1];
      MembersAreFine(v, n - 1, depth, indent);
      if value != Absent {
        ValueIsFine(value, depth, indent);
        var ts := Tokens(value, Times(indent, depth), indent);
        PairIsFine(k, ts, depth, indent);
        ListIsFine(Members(v, n - 1, Times(indent, depth), indent), Member(k, indent, ts), depth, indent);
      }
    }
  }

  // ---------- The layout ----------

  /**
   Where white space stands in a printed text: with an empty indent nowhere.  With any other, one blank behind each
   colon; a line break with a copy of the indent for each open container behind each comma, behind each
   bracket that opens and is not closed at once, and, with one copy less, in front of the bracket that closes it;
   and nowhere else.
   */
  lemma WhiteSpaceExactly(v: Json, indent: Chars, i: nat)
    requires i < |Tokens(v, [], indent)|
    ensures var ts := Tokens(v, [], indent);
      var t, n, depth := ts[i], i + 1, Depth(ts[..i]);
      if indent == [] then !t.Space?
      else
        && (t == Mark(COLON) ==> n < |ts| && ts[n] == Space([32]))
        && (t == Mark(COMMA) ==> n < |ts| && 0 <= depth && ts[n] == Space([10] + Times(indent, depth)))
        && (Opens(t) ==>
              && n < |ts|
              && (Closes(ts[n]) || (0 <= depth + 1 && ts[n] == Space([10] + Times(indent, depth + 1)))))
        && (Closes(t) ==>
              && 0 < i
              && (Opens(ts[i - 1]) || (0 < depth && ts[i - 1] == Space([10] + Times(indent, depth - 1)))))
        && (t.Space? ==>
              || (0 < i && (ts[i - 1] == Mark(COLON) || ts[i - 1] == Mark(COMMA) || Opens(ts[i - 1])))
              || (n < |ts| && Closes(ts[n])))
  {
    assert Times(indent, 0) == [];
    hide Tokens, Fine, FineAnywhere, Climb, Times, Placed;
    var ts := Tokens(v, [], indent);
    ValueIsFine(v, 0, indent);
    FineHere(ts, 0, indent, None, None);
    FineAt(None, ts, None, 0, indent, i);
    ClimbIsDepth(ts[..i]);
    PlacedAt(ts, i, Depth(ts[..i]), indent);
  }

  lemma PlacedAt(ts: seq<Token>, i: nat, depth: int, indent: Chars)
    requires i < |ts|
    requires Placed(if i == 0 then None else Some(ts[i - 1]), ts[i], First(ts[i + 1..], None), depth, indent)
    ensures var t, n := ts[i], i + 1;
      if indent == [] then !t.Space?
      else
        && (t == Mark(COLON) ==> n < |ts| && ts[n] == Space([32]))
        && (t == Mark(COMMA) ==> n < |ts| && IsBreak(Some(ts[n]), indent, depth))
        && (Opens(t) ==> n < |ts| && (Closes(ts[n]) || IsBreak(Some(ts[n]), indent, depth + 1)))
        && (Closes(t) ==> 0 < i && (Opens(ts[i - 1]) || IsBreak(Some(ts[i - 1]), indent, depth - 1)))
        && (t.Space? ==>
              || (0 < i && (ts[i - 1] == Mark(COLON) || ts[i - 1] == Mark(COMMA) || Opens(ts[i - 1])))
              || (n < |ts| && Closes(ts[n])))
  {
  }

  /** The text is that of its tokens, one after the other, and white space stands for itself. */
  lemma TextExactly(ts: seq<Token>, t: Token)
    ensures Text([]) == []
    ensures Text(ts + [t]) == Text(ts) +
      match t
      case Mark(c) => [c]
      case Space(s) => s
      case Quoted(s) => Quote(s)
      case Atom(s) => s
  {
    TextJoins(ts, [t]);
    TextOfOne(t);
  }
}
