/**
 contrib/json/json2.js: str, the recursive printer behind JSON.stringify.  The layout of
 ECMA-262 5th edition, section 15.12.3, is written down as a sequence of tokens.
 */
module JsonPrint {
  import opened Wrappers
  import opened Json2

  /**
   Absent is what has no JSON form: undefined and functions.  An object has the members that a loop
   over its own keys finds, and others that are found by their names only: those that it inherits and
   those that are not enumerable.
   */
  datatype Json =
    | Absent
    | Null
    | Bool(truth: bool)
    | NonFinite
    | Num(text: NumberText)
    | Str(chars: Chars)
    | Arr(elems: seq<Json>)
    | Obj(members: seq<(Chars, Json)>, others: seq<(Chars, Json)>)

  predicate IsMark(c: Code) {
    c == COMMA || c == COLON || c == OPEN || c == CLOSE || c == LBRACE || c == RBRACE
  }

  predicate IsAtom(s: Chars) {
    s == TRUE || s == FALSE || s == NULL || IsNumber(s)
  }

  type MarkChar = c: Code | IsMark(c) witness COMMA
  type AtomText = s: Chars | IsAtom(s) witness TRUE
  type SpaceText = s: Chars | s != [] witness [BLANK]

  datatype Token = Mark(c: MarkChar) | Space(space: SpaceText) | Quoted(chars: Chars) | Atom(atom: AtomText)

  function Render(t: Token): (s: Chars)
    ensures s != []
  {
    match t
    case Mark(c) => [c]
    case Space(s) => s
    case Quoted(s) => Quote(s)
    case Atom(s) =>
      assert s != [];
      s
  }

  function Text(ts: seq<Token>): (s: Chars)
    ensures ts != [] ==> s != []
  {
    if ts == [] then [] else Render(ts[0]) + Text(ts[1..])
  }

  lemma Reassociate<T>(a: seq<T>, b: seq<T>, c: seq<T>)
    ensures (a + b) + c == a + (b + c)
  {
  }

  lemma {:induction false} TextJoins(a: seq<Token>, b: seq<Token>)
    ensures Text(a + b) == Text(a) + Text(b)
  {
    hide Render, IsMark, IsAtom;
    if a == [] {
      assert a + b == b;
    } else {
      TextJoins(a[1..], b);
      var ab := a + b;
      assert ab[0] == a[0] && ab[1..] == a[1..] + b;
      Reassociate(Render(a[0]), Text(a[1..]), Text(b));
    }
  }

  lemma TextOfOne(t: Token)
    ensures Text([t]) == Render(t)
  {
  }

  // ---------- The layout ----------

  /** A line break and the indentation behind it, or nothing when the text is not laid out. */
  function Break(gap: Chars, indent: Chars): seq<Token> {
    if indent == [] then [] else [Space([NEWLINE] + gap)]
  }

  function Colon(indent: Chars): seq<Token> {
    if indent == [] then [Mark(COLON)] else [Mark(COLON), Space([BLANK])]
  }

  function Size(v: Json): nat {
    if v.Arr? then |v.elems| + 1 else if v.Obj? then |v.members| + 1 else 0
  }

  function Tokens(v: Json, gap: Chars, indent: Chars): (ts: seq<Token>)
    ensures v != Absent ==> ts != []
    decreases v, Size(v)
  {
    var inner := gap + indent;
    match v
    case Absent => []
    case Null => [Atom(NULL)]
    case Bool(b) => [Atom(if b then TRUE else FALSE)]
    case NonFinite => [Atom(NULL)]
    case Num(s) => [Atom(s)]
    case Str(s) => [Quoted(s)]
    case Arr(elems) =>
      if elems == [] then [Mark(OPEN), Mark(CLOSE)]
      else
        var ts := Elements(v, |elems|, inner, indent);
        [Mark(OPEN)] + Break(inner, indent) + ts + Break(gap, indent) + [Mark(CLOSE)]
    case Obj(_, _) =>
      var ts := Members(v, |v.members|, inner, indent);
      if ts == [] then [Mark(LBRACE), Mark(RBRACE)]
      else [Mark(LBRACE)] + Break(inner, indent) + ts + Break(gap, indent) + [Mark(RBRACE)]
  }

  /** What separates two elements or members. */
  function Separator(gap: Chars, indent: Chars): seq<Token> {
    [Mark(COMMA)] + Break(gap, indent)
  }

  /** The first n elements; null stands in for an element without a JSON form. */
  function Elements(v: Json, n: nat, gap: Chars, indent: Chars): (ts: seq<Token>)
    requires v.Arr? && n <= |v.elems|
    ensures n > 0 ==> ts != []
    decreases v, n
  {
    if n == 0 then []
    else Elements(v, n - 1, gap, indent) + (if n == 1 then [] else Separator(gap, indent))
         + Element(v.elems[n - 1], gap, indent)
  }

  function Element(v: Json, gap: Chars, indent: Chars): (ts: seq<Token>)
    ensures ts != []
    decreases v, Size(v) + 1
  {
    if v == Absent then [Atom(NULL)] else Tokens(v, gap, indent)
  }

  /** The first n members; a member whose value has no JSON form is left out. */
  function Members(v: Json, n: nat, gap: Chars, indent: Chars): seq<Token>
    requires v.Obj? && n <= |v.members|
    decreases v, n
  {
    if n == 0 then []
    else
      var before := Members(v, n - 1, gap, indent);
      var (k, value) := v.members[n - 1];
      if value == Absent then before
      else before + (if before == [] then [] else Separator(gap, indent))
           + Member(k, indent, Tokens(value, gap, indent))
  }

  function Member(k: Chars, indent: Chars, value: seq<Token>): (ts: seq<Token>)
    ensures ts != []
  {
    [Quoted(k)] + Colon(indent) + value
  }

  // ---------- str ----------

  /** partial.join(separator). */
  function Join(parts: seq<Chars>, separator: Chars): Chars {
    if |parts| == 0 then []
    else if |parts| == 1 then parts[0]
    else Join(parts[..|parts| - 1], separator) + separator + parts[|parts| - 1]
  }

  lemma JoinOneMore(parts: seq<Chars>, separator: Chars, s: Chars)
    ensures Join(parts + [s], separator) == if parts == [] then s else Join(parts, separator) + separator + s
  {
  }

  /** The text of a separator: gap is empty exactly when indent is, one level down. */
  function SeparatorText(gap: Chars): Chars {
    if gap != [] then [COMMA, NEWLINE] + gap else [COMMA]
  }

  function ColonText(gap: Chars): Chars {
    if gap != [] then [COLON, BLANK] else [COLON]
  }

  function MemberText(k: Chars, gap: Chars, value: Chars): Chars {
    Quote(k) + ColonText(gap) + value
  }

  lemma BreakIs(gap: Chars, indent: Chars)
    ensures Text(Break(gap, indent)) == if indent == [] then [] else [NEWLINE] + gap
  {
  }

  lemma SeparatorIs(gap: Chars, indent: Chars)
    requires gap == [] <==> indent == []
    ensures Text(Separator(gap, indent)) == SeparatorText(gap)
    ensures Text(Colon(indent)) == ColonText(gap)
  {
    hide Text, IsAtom;
    BreakIs(gap, indent);
    TextJoins([Mark(COMMA)], Break(gap, indent));
    TextOfOne(Mark(COMMA));
    TextOfOne(Mark(COLON));
    if indent != [] {
      assert Colon(indent) == [Mark(COLON)] + [Space([BLANK])];
      TextJoins([Mark(COLON)], [Space([BLANK])]);
      TextOfOne(Space([BLANK]));
    }
  }

  lemma ElementsStep(v: Json, n: nat, gap: Chars, indent: Chars)
    requires v.Arr? && n < |v.elems|
    requires gap == [] <==> indent == []
    ensures Text(Elements(v, n + 1, gap, indent))
         == Text(Elements(v, n, gap, indent)) + (if n == 0 then [] else SeparatorText(gap))
            + Text(Element(v.elems[n], gap, indent))
  {
    hide Text, IsMark, IsAtom, Separator, Element;
    var a, sep, e := Elements(v, n, gap, indent), Separator(gap, indent), Element(v.elems[n], gap, indent);
    SeparatorIs(gap, indent);
    if n == 0 {
      assert Elements(v, n + 1, gap, indent) == e;
      EmptyText();
    } else {
      TextJoins(a + sep, e);
      TextJoins(a, sep);
    }
  }

  lemma EmptyText()
    ensures Text([]) == []
  {
  }

  lemma MembersStep(v: Json, n: nat, gap: Chars, indent: Chars)
    requires v.Obj? && n < |v.members| && v.members[n].1 != Absent
    requires gap == [] <==> indent == []
    ensures Text(Members(v, n + 1, gap, indent))
         == Text(Members(v, n, gap, indent))
            + (if Members(v, n, gap, indent) == [] then [] else SeparatorText(gap))
            + MemberText(v.members[n].0, gap, Text(Tokens(v.members[n].1, gap, indent)))
    ensures Members(v, n + 1, gap, indent) != []
  {
    hide Text, IsMark, IsAtom, Separator, Tokens, Member, MemberText;
    var (k, value) := v.members[n];
    var a, ts := Members(v, n, gap, indent), Tokens(value, gap, indent);
    var mid := if a == [] then [] else Separator(gap, indent);
    SeparatorIs(gap, indent);
    EmptyText();
    TextJoins(a + mid, Member(k, indent, ts));
    TextJoins(a, mid);
    MemberIs(k, gap, indent, ts);
  }

  lemma MembersSkip(v: Json, n: nat, gap: Chars, indent: Chars)
    requires v.Obj? && n < |v.members| && v.members[n].1 == Absent
    ensures Members(v, n + 1, gap, indent) == Members(v, n, gap, indent)
  {
  }

  lemma MemberIs(k: Chars, gap: Chars, indent: Chars, value: seq<Token>)
    requires gap == [] <==> indent == []
    ensures Text(Member(k, indent, value)) == MemberText(k, gap, Text(value))
  {
    hide Text, IsMark, IsAtom, Quote, Colon;
    SeparatorIs(gap, indent);
    TextJoins([Quoted(k)] + Colon(indent), value);
    TextJoins([Quoted(k)], Colon(indent));
    TextOfOne(Quoted(k));
  }

  /** A filled container between its brackets. */
  lemma WrappedIs(left: MarkChar, right: MarkChar, ts: seq<Token>, inner: Chars, gap: Chars, indent: Chars)
    requires inner == [] <==> indent == []
    ensures Text([Mark(left)] + Break(inner, indent) + ts + Break(gap, indent) + [Mark(right)])
         == if inner != [] then [left, NEWLINE] + inner + Text(ts) + [NEWLINE] + gap + [right]
            else [left] + Text(ts) + [right]
  {
    hide Text, IsMark, IsAtom, Break;
    var a, b := Break(inner, indent), Break(gap, indent);
    TextOfFive(Mark(left), a, ts, b, Mark(right));
    BreakIs(inner, indent);
    BreakIs(gap, indent);
    Regrouped(left, inner, Text(ts), gap, right);
  }

  lemma Regrouped(left: Code, inner: Chars, text: Chars, gap: Chars, right: Code)
    ensures [left] + ([NEWLINE] + inner) + text + ([NEWLINE] + gap) + [right]
         == [left, NEWLINE] + inner + text + [NEWLINE] + gap + [right]
    ensures [left] + [] + text + [] + [right] == [left] + text + [right]
  {
    assert [left] + ([NEWLINE] + inner) == [left, NEWLINE] + inner;
    assert [left] + [] == [left];
  }

  lemma TextOfFive(left: Token, a: seq<Token>, ts: seq<Token>, b: seq<Token>, right: Token)
    requires left.Mark? && right.Mark?
    ensures Text([left] + a + ts + b + [right]) == [left.c] + Text(a) + Text(ts) + Text(b) + [right.c]
  {
    hide Text, IsMark, IsAtom;
    TextJoins([left] + a + ts + b, [right]);
    TextJoins([left] + a + ts, b);
    TextJoins([left] + a, ts);
    TextJoins([left], a);
    TextOfOne(left);
    TextOfOne(right);
  }

  lemma EmptyIs(left: MarkChar, right: MarkChar)
    ensures Text([Mark(left), Mark(right)]) == [left, right]
  {
    hide IsMark, IsAtom;
    TextOfOne(Mark(right));
    assert [Mark(left), Mark(right)][1..] == [Mark(right)];
  }

  /** What str computes from the texts of the elements is the text of the array. */
  lemma ArrayIs(v: Json, partial: seq<Chars>, inner: Chars, gap: Chars, indent: Chars)
    requires v.Arr? && inner == gap + indent && (indent == [] ==> gap == [])
    requires |partial| == |v.elems|
    requires Join(partial, SeparatorText(inner)) == Text(Elements(v, |v.elems|, inner, indent))
    ensures Text(Tokens(v, gap, indent)) == Enclose(OPEN, CLOSE, partial, inner, gap)
  {
    hide Text, IsAtom, Break, Elements, Members, Join, SeparatorText;
    EmptyIs(OPEN, CLOSE);
    WrappedIs(OPEN, CLOSE, Elements(v, |v.elems|, inner, indent), inner, gap, indent);
  }

  lemma ObjectIs(v: Json, partial: seq<Chars>, inner: Chars, gap: Chars, indent: Chars)
    requires v.Obj? && inner == gap + indent && (indent == [] ==> gap == [])
    requires partial == [] <==> Members(v, |v.members|, inner, indent) == []
    requires Join(partial, SeparatorText(inner)) == Text(Members(v, |v.members|, inner, indent))
    ensures Text(Tokens(v, gap, indent)) == Enclose(LBRACE, RBRACE, partial, inner, gap)
  {
    hide Text, IsAtom, Break, Elements, Members, Join, SeparatorText;
    EmptyIs(LBRACE, RBRACE);
    WrappedIs(LBRACE, RBRACE, Members(v, |v.members|, inner, indent), inner, gap, indent);
  }

  function Printed(v: Json, gap: Chars, indent: Chars): Option<Chars> {
    if v == Absent then None else Some(Text(Tokens(v, gap, indent)))
  }

  lemma TextOfScalar(v: Json, gap: Chars, indent: Chars)
    ensures Printed(v, gap, indent) ==
            match v
            case Absent => None
            case Null => Some(NULL)
            case Bool(b) => Some(if b then TRUE else FALSE)
            case NonFinite => Some(NULL)
            case Num(s) => Some(s)
            case Str(s) => Some(Quote(s))
            case _ => Printed(v, gap, indent)
  {
    hide Quote, Text, IsAtom, Elements, Members;
    if |Tokens(v, gap, indent)| == 1 {
      TextOfOne(Tokens(v, gap, indent)[0]);
    }
  }

  /** The texts of what is not taken apart, letter by letter. */
  lemma ScalarTexts(s: NumberText, chars: Chars, gap: Chars, indent: Chars)
    ensures Printed(Absent, gap, indent) == None
    ensures Printed(Null, gap, indent) == Printed(NonFinite, gap, indent) == Some([110, 117, 108, 108])
    ensures Printed(Bool(true), gap, indent) == Some([116, 114, 117, 101])
    ensures Printed(Bool(false), gap, indent) == Some([102, 97, 108, 115, 101])
    ensures Printed(Num(s), gap, indent) == Some(s) && Printed(Str(chars), gap, indent) == Some(Quote(chars))
    ensures Printed(Arr([]), gap, indent) == Some([91, 93]) && Printed(Obj([], []), gap, indent) == Some([123, 125])
  {
    hide Quote, Text, IsNumber, Elements;
    TextOfScalar(Null, gap, indent);
    TextOfScalar(NonFinite, gap, indent);
    TextOfScalar(Bool(true), gap, indent);
    TextOfScalar(Bool(false), gap, indent);
    TextOfScalar(Num(s), gap, indent);
    TextOfScalar(Str(chars), gap, indent);
    EmptyIs(OPEN, CLOSE);
    EmptyIs(LBRACE, RBRACE);
  }

  /** null stands in for a result that does not count as true, and only then. */
  lemma ElementIs(v: Json, gap: Chars, indent: Chars)
    ensures v != Absent ==> Text(Tokens(v, gap, indent)) != []
    ensures Text(Element(v, gap, indent)) == if v == Absent then NULL else Text(Tokens(v, gap, indent))
  {
  }

  lemma NothingYet(v: Json, gap: Chars, indent: Chars)
    ensures Join([], SeparatorText(gap)) == []
    ensures v.Arr? ==> Text(Elements(v, 0, gap, indent)) == []
    ensures v.Obj? ==> Members(v, 0, gap, indent) == [] && Text(Members(v, 0, gap, indent)) == []
  {
  }

  /** A result that counts as true in JavaScript: neither undefined nor the empty string. */
  predicate Truthy(r: Option<Chars>) {
    r.Some? && r.value != []
  }

  // ---------- What str is asked to print ----------

  /** The key under which str finds a value: a place in an array, or a name. */
  datatype Key = Index(i: nat) | Name(k: Chars)

  /** rep: a function of holder, key and value; an array selects members by those of its entries that are strings. */
  datatype Replacer = NoReplacer | Names(entries: seq<Option<Chars>>) | Function(call: (Json, Key, Json) -> Json)

  /** What str calls: the toJSON methods of objects, which are given the key, and the replacer. */
  datatype Client = Client(toJSON: (Key, Json) -> Json, rep: Replacer)

  /** The value that str prints instead of v. */
  function Ready(c: Client, holder: Json, key: Key, v: Json): Json {
    var w := if v.Arr? || v.Obj? then c.toJSON(key, v) else v;
    if c.rep.Function? then c.rep.call(holder, key, w) else w
  }

  /** The place of the member that a key finds; should a key occur twice, the last one counts. */
  function FindMember(members: seq<(Chars, Json)>, k: Chars): (i: Option<nat>)
    ensures i.Some? ==> i.value < |members| && members[i.value].0 == k
    ensures i.None? ==> forall j | 0 <= j < |members| :: members[j].0 != k
  {
    if members == [] then None
    else if members[|members| - 1].0 == k then Some(|members| - 1)
    else FindMember(members[..|members| - 1], k)
  }

  /** What an entry of the replacer selects: its own or another member, or nothing. */
  function Field(w: Json, entry: Option<Chars>): (f: (Chars, Json))
    requires w.Obj?
    ensures f.1 == Absent || f.1 < w
    ensures entry.None? ==> f.1 == Absent
    ensures entry.Some? ==> f.0 == entry.value
  {
    if entry.None? then ([], Absent)
    else
      var k := entry.value;
      var j, l := FindMember(w.members, k), FindMember(w.others, k);
      (k, if j.Some? then w.members[j.value].1 else if l.Some? then w.others[l.value].1 else Absent)
  }

  /** The keys and values that str takes from an object, in their order. */
  function Fields(rep: Replacer, w: Json): (fs: seq<(Chars, Json)>)
    requires w.Obj?
    ensures |fs| == if rep.Names? then |rep.entries| else |w.members|
    ensures forall i | 0 <= i < |fs| :: fs[i].1 == Absent || fs[i].1 < w
  {
    if rep.Names? then seq(|rep.entries|, i requires 0 <= i < |rep.entries| => Field(w, rep.entries[i]))
    else w.members
  }

  /**
   The value that str prints when it finds v under key in holder, with everything in it that it prints
   instead of what it finds there, down to a depth of n; nothing when the client's calls go deeper.
   */
  ghost function Replaced(c: Client, holder: Json, key: Key, v: Json, n: nat): Option<Json>
    decreases n, 0
  {
    if n == 0 then None
    else
      var w := Ready(c, holder, key, v);
      match w
      case Arr(_) =>
        var es := ReplacedElements(c, w, n - 1);
        if es.Some? then Some(Arr(es.value)) else None
      case Obj(_, _) =>
        var ms := ReplacedFields(c, w, n - 1);
        if ms.Some? then Some(Obj(ms.value, [])) else None
      case _ => Some(w)
  }

  ghost function ReplacedElements(c: Client, w: Json, n: nat): Option<seq<Json>>
    requires w.Arr?
    decreases n, 1
  {
    if forall i | 0 <= i < |w.elems| :: Replaced(c, w, Index(i), w.elems[i], n).Some?
    then Some(seq(|w.elems|, i requires 0 <= i < |w.elems| => Replaced(c, w, Index(i), w.elems[i], n).value))
    else None
  }

  ghost function ReplacedFields(c: Client, w: Json, n: nat): Option<seq<(Chars, Json)>>
    requires w.Obj?
    decreases n, 1
  {
    var fs := Fields(c.rep, w);
    if forall i | 0 <= i < |fs| :: Replaced(c, w, Name(fs[i].0), fs[i].1, n).Some?
    then Some(seq(|fs|, i requires 0 <= i < |fs| =>
                    (fs[i].0, Replaced(c, w, Name(fs[i].0), fs[i].1, n).value)))
    else None
  }

  /** es are what str prints for the elements of w. */
  ghost predicate ElementsReplaced(c: Client, w: Json, es: seq<Json>, n: nat) {
    && w.Arr? && |es| == |w.elems|
    && forall i | 0 <= i < |es| :: Replaced(c, w, Index(i), w.elems[i], n) == Some(es[i])
  }

  /** ms are what str prints for the fields of w. */
  ghost predicate FieldsReplaced(c: Client, w: Json, ms: seq<(Chars, Json)>, n: nat) {
    && w.Obj?
    && var fs := Fields(c.rep, w);
    && |ms| == |fs|
    && forall i | 0 <= i < |ms| ::
         ms[i].0 == fs[i].0 && Replaced(c, w, Name(fs[i].0), fs[i].1, n) == Some(ms[i].1)
  }

  lemma ElementsAre(c: Client, w: Json, es: seq<Json>, n: nat)
    requires w.Arr?
    ensures ReplacedElements(c, w, n) == Some(es) <==> ElementsReplaced(c, w, es, n)
  {
    hide Replaced;
    if ElementsReplaced(c, w, es, n) {
      assert ReplacedElements(c, w, n).value == es;
    }
  }

  lemma FieldsAre(c: Client, w: Json, ms: seq<(Chars, Json)>, n: nat)
    requires w.Obj?
    ensures ReplacedFields(c, w, n) == Some(ms) <==> FieldsReplaced(c, w, ms, n)
  {
    hide Replaced, Fields;
    if FieldsReplaced(c, w, ms, n) {
      assert ReplacedFields(c, w, n).value == ms;
    }
  }

  /** g is w with what str prints for its parts. */
  ghost predicate PartsReplaced(c: Client, w: Json, g: Json, n: nat) {
    if w.Arr? then g.Arr? && ElementsReplaced(c, w, g.elems, n)
    else if w.Obj? then g.Obj? && g.others == [] && FieldsReplaced(c, w, g.members, n)
    else g == w
  }

  /** The value that str prints is made of those that it prints for the parts. */
  lemma ReplacedExactly(c: Client, holder: Json, key: Key, v: Json, n: nat, g: Json)
    ensures Replaced(c, holder, key, v, n) == Some(g)
       <==> 0 < n && PartsReplaced(c, Ready(c, holder, key, v), g, n - 1)
  {
    if n > 0 {
      PartsExactly(c, Ready(c, holder, key, v), g, n - 1);
    }
    hide Ready, PartsReplaced, ReplacedElements, ReplacedFields;
  }

  /** An object is asked for its JSON form first, and then the replacer for a value to print instead of that. */
  lemma ClientIsAsked(c: Client, holder: Json, key: Key, v: Json, n: nat, g: Json)
    ensures var asked := if v.Arr? || v.Obj? then c.toJSON(key, v) else v;
      var w := if c.rep.Function? then c.rep.call(holder, key, asked) else asked;
      Replaced(c, holder, key, v, n) == Some(g) <==> 0 < n && PartsReplaced(c, w, g, n - 1)
  {
    hide PartsReplaced, Replaced;
    ReplacedExactly(c, holder, key, v, n, g);
  }

  /** Member i is the last one in ms under the key k. */
  predicate LastUnder(ms: seq<(Chars, Json)>, k: Chars, i: nat) {
    i < |ms| && ms[i].0 == k && forall j | i < j < |ms| :: ms[j].0 != k
  }

  predicate NoneUnder(ms: seq<(Chars, Json)>, k: Chars) {
    forall j | 0 <= j < |ms| :: ms[j].0 != k
  }

  /**
   An array of keys selects, entry by entry, the object's own member, or else another one that is found by
   its name; of equal keys the last one counts.  Without such an array all own members are taken.
   */
  lemma FieldsExactly(rep: Replacer, w: Json, i: nat, j: nat)
    requires w.Obj? && i < |Fields(rep, w)|
    ensures var f := Fields(rep, w)[i];
      if !rep.Names? then |Fields(rep, w)| == |w.members| && f == w.members[i]
      else
        && |Fields(rep, w)| == |rep.entries|
        && (rep.entries[i].None? ==> f.1 == Absent)
        && (rep.entries[i].Some? ==>
              var k := rep.entries[i].value;
              && f.0 == k
              && (LastUnder(w.members, k, j) ==> f.1 == w.members[j].1)
              && (NoneUnder(w.members, k) && LastUnder(w.others, k, j) ==> f.1 == w.others[j].1)
              && (NoneUnder(w.members, k) && NoneUnder(w.others, k) ==> f.1 == Absent))
  {
    if rep.Names? && rep.entries[i].Some? {
      LastIsFound(w.members, rep.entries[i].value, j);
      LastIsFound(w.others, rep.entries[i].value, j);
    }
  }

  lemma {:induction false} LastIsFound(ms: seq<(Chars, Json)>, k: Chars, j: nat)
    ensures LastUnder(ms, k, j) ==> FindMember(ms, k) == Some(j)
    ensures NoneUnder(ms, k) ==> FindMember(ms, k) == None
  {
    if LastUnder(ms, k, j) && j < |ms| - 1 {
      LastIsFound(ms[..|ms| - 1], k, j);
    }
  }

  lemma PartsExactly(c: Client, w: Json, g: Json, n: nat)
    ensures PartsReplaced(c, w, g, n) <==>
      if w.Arr? then g.Arr? && ReplacedElements(c, w, n) == Some(g.elems)
      else if w.Obj? then g.Obj? && g.others == [] && ReplacedFields(c, w, n) == Some(g.members)
      else g == w
  {
    hide ReplacedElements, ReplacedFields, ElementsReplaced, FieldsReplaced;
    if w.Arr? && g.Arr? {
      ElementsAre(c, w, g.elems, n);
    } else if w.Obj? && g.Obj? {
      FieldsAre(c, w, g.members, n);
    }
  }

  /** It does not depend on the depth, so there is only one such value. */
  lemma {:induction false} ReplacedStays(c: Client, holder: Json, key: Key, v: Json, n: nat, m: nat)
    requires n <= m && Replaced(c, holder, key, v, n).Some?
    ensures Replaced(c, holder, key, v, m) == Replaced(c, holder, key, v, n)
    decreases n, 0
  {
    hide Replaced, Ready, ElementsReplaced, FieldsReplaced;
    var w, g := Ready(c, holder, key, v), Replaced(c, holder, key, v, n).value;
    ReplacedExactly(c, holder, key, v, n, g);
    if w.Arr? {
      ElementsStay(c, w, g.elems, n - 1, m - 1);
    } else if w.Obj? {
      FieldsStay(c, w, g.members, n - 1, m - 1);
    }
    ReplacedExactly(c, holder, key, v, m, g);
  }

  lemma {:induction false} ElementsStay(c: Client, w: Json, es: seq<Json>, n: nat, m: nat)
    requires n <= m && ElementsReplaced(c, w, es, n)
    ensures ElementsReplaced(c, w, es, m)
    decreases n, 1
  {
    hide Replaced;
    forall i | 0 <= i < |es| ensures Replaced(c, w, Index(i), w.elems[i], m) == Some(es[i]) {
      ReplacedStays(c, w, Index(i), w.elems[i], n, m);
    }
  }

  lemma {:induction false} FieldsStay(c: Client, w: Json, ms: seq<(Chars, Json)>, n: nat, m: nat)
    requires n <= m && FieldsReplaced(c, w, ms, n)
    ensures FieldsReplaced(c, w, ms, m)
    decreases n, 1
  {
    hide Replaced, Fields;
    var fs := Fields(c.rep, w);
    forall i | 0 <= i < |fs| ensures Replaced(c, w, Name(fs[i].0), fs[i].1, m) == Some(ms[i].1) {
      ReplacedStays(c, w, Name(fs[i].0), fs[i].1, n, m);
    }
  }

  lemma ReplacedIsOne(c: Client, holder: Json, key: Key, v: Json, n: nat, m: nat)
    requires Replaced(c, holder, key, v, n).Some? && Replaced(c, holder, key, v, m).Some?
    ensures Replaced(c, holder, key, v, n) == Replaced(c, holder, key, v, m)
  {
    ReplacedStays(c, holder, key, v, if n <= m then n else m, if n <= m then m else n);
  }

  /** What the replacer array lets through: in every object the members it names, in its own order. */
  function Selected(v: Json, rep: Replacer): Json {
    match v
    case Arr(elems) => Arr(seq(|elems|, i requires 0 <= i < |elems| => Selected(elems[i], rep)))
    case Obj(_, _) =>
      var fs := Fields(rep, v);
      Obj(seq(|fs|, i requires 0 <= i < |fs| =>
                (fs[i].0, if fs[i].1 == Absent then Absent else Selected(fs[i].1, rep))), [])
    case _ => v
  }

  /** No toJSON method and no replacer function. */
  ghost predicate Plain(c: Client) {
    !c.rep.Function? && forall key, v :: c.toJSON(key, v) == v
  }

  /** Without client code str always comes to an end, and what it prints is what the array selects. */
  lemma {:induction false} PlainIsSelected(c: Client, holder: Json, key: Key, v: Json) returns (n: nat)
    requires Plain(c)
    ensures Replaced(c, holder, key, v, n) == Some(Selected(v, c.rep))
    decreases v
  {
    hide Replaced, Fields;
    n := 0;
    if v.Arr? {
      n := PlainElements(c, v, |v.elems|);
    } else if v.Obj? {
      n := PlainFields(c, v, |Fields(c.rep, v)|);
    }
    ReplacedExactly(c, holder, key, v, n + 1, Selected(v, c.rep));
    n := n + 1;
  }

  lemma {:induction false} PlainElements(c: Client, v: Json, k: nat) returns (n: nat)
    requires Plain(c) && v.Arr? && k <= |v.elems|
    ensures forall i | 0 <= i < k :: Replaced(c, v, Index(i), v.elems[i], n) == Some(Selected(v.elems[i], c.rep))
    decreases v, k
  {
    hide Replaced, Selected;
    n := 0;
    if k > 0 {
      var before := PlainElements(c, v, k - 1);
      var last := PlainIsSelected(c, v, Index(k - 1), v.elems[k - 1]);
      n := before + last;
      forall i | 0 <= i < k ensures Replaced(c, v, Index(i), v.elems[i], n) == Some(Selected(v.elems[i], c.rep)) {
        ReplacedStays(c, v, Index(i), v.elems[i], if i < k - 1 then before else last, n);
      }
    }
  }

  lemma {:induction false} PlainFields(c: Client, v: Json, k: nat) returns (n: nat)
    requires Plain(c) && v.Obj? && k <= |Fields(c.rep, v)|
    ensures var fs := Fields(c.rep, v);
      forall i | 0 <= i < k :: Replaced(c, v, Name(fs[i].0), fs[i].1, n) == Some(Selected(fs[i].1, c.rep))
    decreases v, k
  {
    n := 0;
    if k > 0 {
      var fs := Fields(c.rep, v);
      var before := PlainFields(c, v, k - 1);
      var last := 1;
      if fs[k - 1].1 != Absent {
        last := PlainIsSelected(c, v, Name(fs[k - 1].0), fs[k - 1].1);
      }
      assert Replaced(c, v, Name(fs[k - 1].0), fs[k - 1].1, last) == Some(Selected(fs[k - 1].1, c.rep));
      hide Replaced, Selected, Fields;
      n := before + last;
      forall i | 0 <= i < k ensures Replaced(c, v, Name(fs[i].0), fs[i].1, n) == Some(Selected(fs[i].1, c.rep)) {
        ReplacedStays(c, v, Name(fs[i].0), fs[i].1, if i < k - 1 then before else last, n);
      }
    }
  }

  /** The variables that the calls of str share. */
  class Printer {
    var gap: Chars
    const indent: Chars
    const client: Client

    constructor (indent: Chars, client: Client)
      ensures this.indent == indent && this.client == client && gap == []
    {
      this.indent := indent;
      this.client := client;
      gap := [];
    }

    /** str, when the calls in it nest no deeper than n. */
    method Str(holder: Json, key: Key, v: Json, ghost n: nat) returns (r: Option<Chars>)
      requires indent == [] ==> gap == []
      requires Replaced(client, holder, key, v, n).Some?
      modifies this
      ensures gap == old(gap)
      ensures r == Printed(Replaced(client, holder, key, v, n).value, gap, indent)
      decreases n, 1
    {
      hide Quote, Text, Tokens, Elements, Members, IsNumber, Replaced, Fields;
      ghost var g := Replaced(client, holder, key, v, n).value;
      ReplacedExactly(client, holder, key, v, n, g);
      TextOfScalar(g, gap, indent);
      var w := Ready(client, holder, key, v);
      match w {
        case Absent => r := None;
        case Null => r := Some(NULL);
        case Bool(b) => r := Some(if b then TRUE else FALSE);
        case NonFinite => r := Some(NULL);
        case Num(s) => r := Some(s);
        case Str(s) =>
          var q := QuoteText(s);
          r := Some(q);
        case Arr(_) => r := StrArray(w, n, g);
        case Obj(_, _) =>
          if client.rep.Names? {
            r := StrSelected(w, n, g);
          } else {
            r := StrObject(w, n, g);
          }
      }
    }

    method StrArray(w: Json, ghost n: nat, ghost g: Json) returns (r: Option<Chars>)
      requires indent == [] ==> gap == []
      requires 0 < n && g.Arr? && ElementsReplaced(client, w, g.elems, n - 1)
      modifies this
      ensures gap == old(gap)
      ensures r == Printed(g, gap, indent)
      decreases n, 0
    {
      hide Text, Tokens, Enclose, SeparatorText, Join, Elements, Replaced;
      var mind := gap;
      gap := gap + indent;
      var partial: seq<Chars> := [];
      NothingYet(g, gap, indent);
      for i := 0 to |w.elems|
        invariant gap == mind + indent
        invariant |partial| == i
        invariant Join(partial, SeparatorText(gap)) == Text(Elements(g, i, gap, indent))
      {
        var e := Str(w, Index(i), w.elems[i], n - 1);
        var s := if Truthy(e) then e.value else NULL;
        ElementIs(g.elems[i], gap, indent);
        JoinOneMore(partial, SeparatorText(gap), s);
        ElementsStep(g, i, gap, indent);
        partial := partial + [s];
      }
      ArrayIs(g, partial, gap, mind, indent);
      r := Some(Enclose(OPEN, CLOSE, partial, gap, mind));
      gap := mind;
    }

    /** The object branch without a replacer array. */
    method StrObject(w: Json, ghost n: nat, ghost g: Json) returns (r: Option<Chars>)
      requires indent == [] ==> gap == []
      requires 0 < n && g.Obj? && FieldsReplaced(client, w, g.members, n - 1) && !client.rep.Names?
      modifies this
      ensures gap == old(gap)
      ensures r == Printed(g, gap, indent)
      decreases n, 0
    {
      hide Text, Tokens, Enclose, SeparatorText, Join, ColonText, Members, Quote, Replaced;
      var mind := gap;
      gap := gap + indent;
      var partial: seq<Chars> := [];
      NothingYet(g, gap, indent);
      for i := 0 to |w.members|
        invariant gap == mind + indent
        invariant partial == [] <==> Members(g, i, gap, indent) == []
        invariant Join(partial, SeparatorText(gap)) == Text(Members(g, i, gap, indent))
      {
        var (k, value) := w.members[i];
        var e := Str(w, Name(k), value, n - 1);
        partial := PushMember(g, i, k, e, partial);
      }
      ObjectIs(g, partial, gap, mind, indent);
      r := Some(Enclose(LBRACE, RBRACE, partial, gap, mind));
      gap := mind;
    }

    /** The object branch when the replacer is an array. */
    method StrSelected(w: Json, ghost n: nat, ghost g: Json) returns (r: Option<Chars>)
      requires indent == [] ==> gap == []
      requires 0 < n && g.Obj? && FieldsReplaced(client, w, g.members, n - 1) && client.rep.Names?
      modifies this
      ensures gap == old(gap)
      ensures r == Printed(g, gap, indent)
      decreases n, 0
    {
      hide Text, Tokens, Enclose, SeparatorText, Join, ColonText, Members, Quote, Replaced;
      var mind := gap;
      gap := gap + indent;
      var partial: seq<Chars> := [];
      NothingYet(g, gap, indent);
      for i := 0 to |client.rep.entries|
        invariant gap == mind + indent
        invariant partial == [] <==> Members(g, i, gap, indent) == []
        invariant Join(partial, SeparatorText(gap)) == Text(Members(g, i, gap, indent))
      {
        assert Fields(client.rep, w)[i] == Field(w, client.rep.entries[i]);
        if client.rep.entries[i].Some? {
          var (k, value) := Field(w, client.rep.entries[i]);
          var e := Str(w, Name(k), value, n - 1);
          partial := PushMember(g, i, k, e, partial);
        } else {
          NothingGiven(client, w, Name([]), n - 1);
          MembersSkip(g, i, gap, indent);
        }
      }
      ObjectIs(g, partial, gap, mind, indent);
      r := Some(Enclose(LBRACE, RBRACE, partial, gap, mind));
      gap := mind;
    }

    /** The end of both loops: a member that has a text is pushed. */
    method PushMember(ghost w: Json, ghost i: nat, k: Chars, e: Option<Chars>, partial: seq<Chars>)
      returns (partial': seq<Chars>)
      requires w.Obj? && i < |w.members| && e == Printed(w.members[i].1, gap, indent)
      requires w.members[i].1 != Absent ==> w.members[i].0 == k
      requires gap == [] <==> indent == []
      requires partial == [] <==> Members(w, i, gap, indent) == []
      requires Join(partial, SeparatorText(gap)) == Text(Members(w, i, gap, indent))
      ensures partial' == [] <==> Members(w, i + 1, gap, indent) == []
      ensures Join(partial', SeparatorText(gap)) == Text(Members(w, i + 1, gap, indent))
    {
      hide Text, Tokens, SeparatorText, Join, ColonText, Members, Quote;
      partial' := partial;
      NothingYet(w, gap, indent);
      ElementIs(w.members[i].1, gap, indent);
      if Truthy(e) {
        var q := QuoteText(k);
        var s := q + ColonText(gap) + e.value;
        JoinOneMore(partial, SeparatorText(gap), s);
        MembersStep(w, i, gap, indent);
        partial' := partial + [s];
      } else {
        MembersSkip(w, i, gap, indent);
      }
    }
  }

  /** Nothing comes of nothing, unless a replacer function makes something of it. */
  lemma NothingGiven(c: Client, holder: Json, key: Key, n: nat)
    requires !c.rep.Function? && Replaced(c, holder, key, Absent, n).Some?
    ensures Replaced(c, holder, key, Absent, n) == Some(Absent)
  {
  }

  /** Join the partial texts and put brackets around them. */
  function Enclose(left: Code, right: Code, partial: seq<Chars>, gap: Chars, mind: Chars): Chars {
    if partial == [] then [left, right]
    else if gap != [] then [left, NEWLINE] + gap + Join(partial, SeparatorText(gap)) + [NEWLINE] + mind + [right]
    else [left] + Join(partial, SeparatorText(gap)) + [right]
  }

  // ---------- JSON.stringify ----------

  /** The third argument: a number of blanks, a string, or something else. */
  datatype SpaceArg = NoSpace | Count(n: real) | Given(chars: Chars)

  /** The least natural number that is not below x. */
  function Ceiling(x: real): (n: nat)
    ensures x <= n as real && (n == 0 || (n - 1) as real < x)
  {
    if x <= 0.0 then 0 else 0 - (0.0 - x).Floor
  }

  function Indentation(space: SpaceArg): Chars {
    match space
    case NoSpace => []
    case Count(n) => seq(Ceiling(n), i => BLANK)
    case Given(s) => s
  }

  /** A number indents by as many blanks, a fraction being rounded up, and a string by itself, whatever its length. */
  lemma IndentationExactly(space: SpaceArg)
    ensures match space
      case NoSpace => Indentation(space) == []
      case Count(n) =>
        var width := |Indentation(space)|;
        && (forall i | 0 <= i < width :: Indentation(space)[i] == 32)
        && n <= width as real && (width == 0 || (width as real) < n + 1.0)
      case Given(s) => Indentation(space) == s
  {
  }

  /** The second argument; one that is neither nothing nor a function nor like an array is unusable. */
  datatype ReplacerArg = Usable(rep: Replacer) | Unusable

  datatype Outcome = Returned(text: Option<Chars>) | Threw

  /** The object that JSON.stringify makes up to hold the value. */
  function Root(value: Json): Json {
    Obj([([], value)], [])
  }

  /**
   JSON.stringify, when the client's calls go no deeper than n: exactly then str comes to an end.  Without
   client code it does for some n; see PlainIsSelected.
   */
  method Stringify(value: Json, replacer: ReplacerArg, space: SpaceArg, toJSON: (Key, Json) -> Json, ghost n: nat)
    returns (r: Outcome)
    requires replacer.Usable? ==> Replaced(Client(toJSON, replacer.rep), Root(value), Name([]), value, n).Some?
    ensures r == if replacer.Unusable? then Threw
                 else Returned(Printed(Replaced(Client(toJSON, replacer.rep), Root(value), Name([]), value, n).value,
                                       [], Indentation(space)))
    ensures replacer.Usable? && Plain(Client(toJSON, replacer.rep)) ==>
      r == Returned(Printed(Selected(value, replacer.rep), [], Indentation(space)))
  {
    var indent: Chars := [];
    match space {
      case NoSpace =>
      case Count(n) =>
        var i: nat := 0;
        while (i as real) < n
          invariant |indent| == i && forall k | 0 <= k < i :: indent[k] == BLANK
          invariant i == 0 || ((i - 1) as real) < n
          decreases Ceiling(n) - i
        {
          indent := indent + [BLANK];
          i := i + 1;
        }
      case Given(s) => indent := s;
    }
    assert indent == Indentation(space);
    if replacer.Unusable? {
      return Threw;
    }
    var printer := new Printer(indent, Client(toJSON, replacer.rep));
    var text := printer.Str(Root(value), Name([]), value, n);
    r := Returned(text);
    if Plain(printer.client) {
      ghost var m := PlainIsSelected(printer.client, Root(value), Name([]), value);
      ReplacedIsOne(printer.client, Root(value), Name([]), value, n, m);
    }
  }
}
