/** The grammar of libconfig as a datatype of derivations, and the proof that the parser accepts exactly the token
    sequences that have one, and builds the tree that it means. */
module ConfigSyntax {
  import opened Text
  import opened ConfigValue
  import opened ConfigTree
  import opened ConfigGrammar

  // ----- the grammar -----

  /** How a value is spelled: one token, some string literals in a row, or a bracketed list of what is in it. */
  datatype Item =
    | One(token: Token)
    | Literals(pieces: seq<string>)
    | Vector(shape: Shape, items: seq<Item>)
    | Fields(fields: seq<Field>)

  /** A setting may end in a comma, in a semicolon, or without either. */
  datatype End = NoEnd | CommaEnd | SemicolonEnd

  datatype Field = Field(name: string, item: Item, end: End)

  function LiteralTokens(pieces: seq<string>): seq<Token> {
    if pieces == [] then [] else [TString(pieces[0])] + LiteralTokens(pieces[1..])
  }

  function ItemTokens(x: Item): seq<Token>
    decreases x, 0
  {
    match x
    case One(t) => [t]
    case Literals(pieces) => LiteralTokens(pieces)
    case Vector(Array, items) => [TArrayStart] + RowTokens(items) + [TArrayEnd]
    case Vector(_, items) => [TListStart] + RowTokens(items) + [TListEnd]
    case Fields(fields) => [TGroupStart] + FieldTokens(fields) + [TGroupEnd]
  }

  /** Commas stand between items, and nowhere else. */
  function RowTokens(items: seq<Item>): seq<Token>
    decreases items, 1
  {
    if items == [] then []
    else ItemTokens(items[0]) + (if |items| > 1 then [TComma] else []) + RowTokens(items[1..])
  }

  function EndTokens(end: End): seq<Token> {
    match end
    case NoEnd => []
    case CommaEnd => [TComma]
    case SemicolonEnd => [TSemicolon]
  }

  function FieldTokens(fields: seq<Field>): seq<Token>
    decreases fields, 1
  {
    if fields == [] then []
    else
      [TName(fields[0].name), TEquals] + ItemTokens(fields[0].item) + EndTokens(fields[0].end)
      + FieldTokens(fields[1..])
  }

  // ----- what it means -----

  function Meaning(x: Item): Value
    decreases x, 0
  {
    match x
    case One(TBool(b)) => VBool(b)
    case One(TInt(i)) => VInt(i, false)
    case One(THex(i)) => VInt(i, true)
    case One(TInt64(ll)) => VInt64(ll, false)
    case One(THex64(ll)) => VInt64(ll, true)
    case One(TFloat(text)) => VFloat(text)
    case One(_) => VNone
    case Literals(pieces) => VString(Concat(pieces))
    case Vector(Array, items) => VArray(Meanings(items))
    case Vector(_, items) => VList(Meanings(items))
    case Fields(fields) => VGroup(FieldMeanings(fields))
  }

  function Meanings(items: seq<Item>): (r: seq<Value>)
    ensures |r| == |items| && forall i | 0 <= i < |r| :: r[i] == Meaning(items[i])
    decreases items, 1
  {
    if items == [] then [] else [Meaning(items[0])] + Meanings(items[1..])
  }

  function FieldMeanings(fields: seq<Field>): (r: seq<Member>)
    ensures |r| == |fields|
    ensures forall i | 0 <= i < |r| :: r[i] == Member(fields[i].name, Meaning(fields[i].item))
    decreases fields, 1
  {
    if fields == [] then []
    else [Member(fields[0].name, Meaning(fields[0].item))] + FieldMeanings(fields[1..])
  }

  // ----- what the grammar leaves to the actions: names are valid and new, arrays hold one type -----

  predicate SimpleItem(x: Item) {
    || (x.One? && (x.token.TBool? || x.token.TInt? || x.token.THex? || x.token.TInt64? || x.token.THex64?
                   || x.token.TFloat?))
    || (x.Literals? && x.pieces != [])
  }

  predicate Good(x: Item)
    decreases x, 0
  {
    match x
    case One(_) => SimpleItem(x)
    case Literals(_) => SimpleItem(x)
    case Vector(Array, items) =>
      forall i | 0 <= i < |items| :: SimpleItem(items[i]) && SameKind(Meaning(items[0]), Meaning(items[i]))
    case Vector(List, items) => forall i | 0 <= i < |items| :: Good(items[i])
    case Vector(Group, _) => false
    case Fields(fields) => GoodFields(fields)
  }

  predicate GoodFields(fields: seq<Field>)
    decreases fields, 1
  {
    && (forall i | 0 <= i < |fields| :: ValidName(fields[i].name) && Good(fields[i].item))
    && (forall i, j | 0 <= i < j < |fields| :: fields[i].name != fields[j].name)
  }

  // ----- the value of a setting depends only on the settings after it -----

  ghost predicate SameFrom(s: Store, t: Store, id: nat) {
    |s| <= |t| && forall i | id <= i < |s| :: t[i] == s[i]
  }

  lemma {:induction false} ValueFrame(s: Store, t: Store, id: nat)
    requires WellFormed(s) && SameFrom(s, t, id) && id < |s|
    ensures ValueAt(t, id) == ValueAt(s, id)
    decreases |s| - id
  {
    assert GoodNode(s, id) && t[id] == s[id];
    match s[id].content
    case Unset =>
    case Scalar(_) =>
    case Aggregate(shape, cs) =>
      forall k | 0 <= k < |cs|
        ensures ChildAt(t, id, cs[k]) == ChildAt(s, id, cs[k]) && NameAt(t, cs[k]) == NameAt(s, cs[k])
      {
        assert GoodChild(s, id, shape, cs[k]);
        ValueFrame(s, t, cs[k]);
      }
      assert ValuesAt(t, id, cs) == ValuesAt(s, id, cs);
      assert MembersAt(t, id, cs) == MembersAt(s, id, cs);
  }

  /** From `s` to `t` only the aggregate `p` changed, and it only got more children. */
  ghost predicate Grew(s: Store, t: Store, p: nat) {
    && |s| <= |t|
    && IsAggregate(s, p) && IsAggregate(t, p)
    && (forall i | 0 <= i < |s| && i != p :: t[i] == s[i])
    && t[p] == s[p].(content := s[p].content.(children := t[p].content.children))
  }

  lemma {:induction false} GrewTransitively(s: Store, t: Store, u: Store, p: nat)
    requires Grew(s, t, p) && Grew(t, u, p)
    ensures Grew(s, u, p)
  {
  }

  function Children(s: Store, p: nat): seq<nat>
    requires IsAggregate(s, p)
  {
    s[p].content.children
  }

  lemma {:induction false} OldChildrenKept(s: Store, t: Store, p: nat)
    requires WellFormed(s) && Grew(s, t, p)
    ensures ValuesAt(t, p, Children(s, p)) == ValuesAt(s, p, Children(s, p))
    ensures MembersAt(t, p, Children(s, p)) == MembersAt(s, p, Children(s, p))
  {
    var cs := Children(s, p);
    assert GoodNode(s, p);
    forall k | 0 <= k < |cs|
      ensures ChildAt(t, p, cs[k]) == ChildAt(s, p, cs[k]) && NameAt(t, cs[k]) == NameAt(s, cs[k])
    {
      assert GoodChild(s, p, s[p].content.shape, cs[k]);
      ValueFrame(s, t, cs[k]);
    }
  }

  /** One more child, the setting `id`, with everything below it. */
  lemma {:induction false} OneMoreChild(s: Store, t: Store, p: nat, id: nat)
    requires WellFormed(s) && Grew(s, t, p) && Children(t, p) == Children(s, p) + [id] && p < id < |t|
    ensures ValuesAt(t, p, Children(t, p)) == ValuesAt(s, p, Children(s, p)) + [ValueAt(t, id)]
    ensures MembersAt(t, p, Children(t, p)) ==
            MembersAt(s, p, Children(s, p)) + [Member(NameAt(t, id), ValueAt(t, id))]
  {
    OldChildrenKept(s, t, p);
    assert (Children(s, p) + [id])[..|Children(s, p)|] == Children(s, p);
  }

  // ----- parsing a value -----

  /** The setting the next value goes to: a new element, or the setting just named. */
  function Slot(ctx: Context): nat
    requires !InVector(ctx) ==> ctx.setting.Some?
  {
    if InVector(ctx) then |ctx.s| else ctx.setting.value
  }

  /** A value is expected, and if it is for a named setting that setting is the last of the store. */
  ghost predicate Ready(ctx: Context) {
    Expecting(ctx) && (!InVector(ctx) ==> ctx.setting.value == |ctx.s| - 1)
  }

  /** `t` is the store with a value in the slot, and with nothing else changed. */
  ghost predicate Placed(ctx: Context, t: Store)
    requires Ready(ctx)
  {
    var id := Slot(ctx);
    && id < |t|
    && (InVector(ctx) ==>
          && Grew(ctx.s, t, ctx.parent.value)
          && Children(t, ctx.parent.value) == Children(ctx.s, ctx.parent.value) + [id])
    && (!InVector(ctx) ==>
          && (forall i | 0 <= i < id :: t[i] == ctx.s[i])
          && t[id].name == ctx.s[id].name)
  }

  ghost predicate Built(ctx: Context, v: Value, rest: seq<Token>, o: Outcome)
    requires Ready(ctx)
  {
    && o.Parsed? && o.rest == rest
    && Placed(ctx, o.ctx.s)
    && ValueAt(o.ctx.s, Slot(ctx)) == v
  }

  // ----- every spelling is read as its meaning -----

  ghost predicate NoString(ts: seq<Token>) { ts == [] || !ts[0].TString? }

  /** String literals are read as far as there are any. */
  ghost predicate MayFollow(x: Item, rest: seq<Token>) { x.Literals? ==> NoString(rest) }

  lemma {:induction false} LiteralsAreJoined(pieces: seq<string>, rest: seq<Token>)
    requires NoString(rest)
    ensures JoinStrings(LiteralTokens(pieces) + rest) == (Concat(pieces), rest)
  {
    if pieces == [] {
      assert LiteralTokens(pieces) + rest == rest;
    } else {
      LiteralsAreJoined(pieces[1..], rest);
      var ts := LiteralTokens(pieces) + rest;
      assert ts[0] == TString(pieces[0]) && ts[1..] == LiteralTokens(pieces[1..]) + rest;
    }
  }

  lemma {:induction false} SimpleIsRead(x: Item, rest: seq<Token>)
    requires SimpleItem(x) && MayFollow(x, rest)
    ensures var ts := ItemTokens(x) + rest; ts != [] && IsSimple(ts[0]) && SimpleValue(ts) == (Meaning(x), rest)
    ensures IsScalar(Meaning(x))
  {
    var ts := ItemTokens(x) + rest;
    if x.Literals? {
      LiteralsAreJoined(x.pieces, rest);
      assert ts[0] == TString(x.pieces[0]);
    } else {
      assert ts[0] == x.token && ts[1..] == rest;
    }
  }

  lemma {:induction false} ScalarIsBuilt(ctx: Context, x: Item, rest: seq<Token>)
    requires Ready(ctx) && SimpleItem(x) && MayFollow(x, rest)
    requires InVector(ctx) ==> CheckType(ctx.s, ctx.parent.value, Meaning(x))
    ensures Built(ctx, Meaning(x), rest, ParseSimple(ctx, ItemTokens(x) + rest))
  {
    SimpleIsRead(x, rest);
  }

  lemma {:induction false} Regroup(open: Token, inner: seq<Token>, close: Token, rest: seq<Token>)
    ensures var ts := [open] + inner + [close] + rest; ts != [] && ts[0] == open && ts[1..] == inner + ([close] + rest)
  {
  }

  /** An empty aggregate in the slot. */
  lemma {:induction false} StartPlaces(ctx: Context, shape: Shape)
    requires Ready(ctx) && !InShape(ctx, Array)
    ensures StartAggregate(ctx, shape).Go?
    ensures var d := StartAggregate(ctx, shape).ctx;
            && Placed(ctx, d.s) && d.parent == Some(Slot(ctx)) && |d.s| == Slot(ctx) + 1
            && d.s[Slot(ctx)].content == Aggregate(shape, [])
  {
    StartingKeeps(ctx, shape);
  }

  lemma {:induction false} PlacedGrows(ctx: Context, s: Store, t: Store)
    requires Ready(ctx) && Placed(ctx, s) && |s| == Slot(ctx) + 1 && Grew(s, t, Slot(ctx))
    ensures Placed(ctx, t)
  {
  }

  /** What parsing the content of the aggregate `ctx.parent` does. */
  ghost predicate BodyBuilt(ctx: Context, rest: seq<Token>, o: Outcome)
    requires Idle(ctx)
  {
    && o.Parsed? && o.rest == rest
    && o.ctx.parent == ctx.parent
    && Grew(ctx.s, o.ctx.s, ctx.parent.value)
    && WellFormed(o.ctx.s)
  }

  lemma {:induction false} AggregateIsBuilt(ctx: Context, shape: Shape, c: Context, o: Outcome, rest: seq<Token>)
    requires Ready(ctx) && !InShape(ctx, Array) && StartAggregate(ctx, shape) == Go(c) && Idle(c)
    requires BodyBuilt(c, [Closing(shape)] + rest, o)
    ensures var r := Close(o, shape); r.Parsed? && r.rest == rest && r.ctx.s == o.ctx.s && Placed(ctx, r.ctx.s)
  {
    StartPlaces(ctx, shape);
    PlacedGrows(ctx, c.s, o.ctx.s);
    assert ([Closing(shape)] + rest)[1..] == rest;
  }

  /** The tokens of a value, followed by others, lead into the rule for its kind. */
  lemma {:induction false} ItemOpens(ctx: Context, x: Item, rest: seq<Token>)
    requires Good(x)
    ensures var o := ParseValue(ctx, ItemTokens(x) + rest);
            match x
            case Vector(shape, items) => o == ParseAggregate(ctx, shape, RowTokens(items) + ([Closing(shape)] + rest))
            case Fields(fields) => o == ParseAggregate(ctx, Group, FieldTokens(fields) + ([TGroupEnd] + rest))
            case _ => o == ParseSimple(ctx, ItemTokens(x) + rest)
  {
    match x
    case Vector(Array, items) => Regroup(TArrayStart, RowTokens(items), TArrayEnd, rest);
    case Vector(_, items) => Regroup(TListStart, RowTokens(items), TListEnd, rest);
    case Fields(fields) => Regroup(TGroupStart, FieldTokens(fields), TGroupEnd, rest);
    case Literals(pieces) => assert (ItemTokens(x) + rest)[0] == TString(pieces[0]);
    case One(t) => assert (ItemTokens(x) + rest)[0] == t;
  }

  lemma {:induction false} ItemIsBuilt(ctx: Context, x: Item, rest: seq<Token>)
    requires Ready(ctx) && !InShape(ctx, Array) && Good(x) && MayFollow(x, rest)
    ensures Built(ctx, Meaning(x), rest, ParseValue(ctx, ItemTokens(x) + rest))
    decreases x, 0
  {
    ItemOpens(ctx, x, rest);
    match x
    case Vector(shape, items) => VectorIsBuilt(ctx, shape, items, rest);
    case Fields(fields) => GroupIsBuilt(ctx, fields, rest);
    case _ =>
      assert InShape(ctx, List) ==> CheckType(ctx.s, ctx.parent.value, Meaning(x));
      ScalarIsBuilt(ctx, x, rest);
  }

  lemma {:induction false} EmptyGroup(s: Store, p: nat, fields: seq<Field>)
    requires p < |s| && s[p].content == Aggregate(Group, [])
    ensures NewNames(s, p, fields)
    ensures MembersAt(s, p, Children(s, p)) + FieldMeanings(fields) == FieldMeanings(fields)
  {
  }

  lemma {:induction false} GroupValue(s: Store, p: nat)
    requires HasShape(s, p, Group)
    ensures ValueAt(s, p) == VGroup(MembersAt(s, p, Children(s, p)))
  {
  }

  lemma {:induction false} GroupIsBuilt(ctx: Context, fields: seq<Field>, rest: seq<Token>)
    requires Ready(ctx) && !InShape(ctx, Array) && GoodFields(fields)
    ensures Built(ctx, VGroup(FieldMeanings(fields)), rest,
                  ParseAggregate(ctx, Group, FieldTokens(fields) + ([TGroupEnd] + rest)))
    decreases fields, 2
  {
    StartPlaces(ctx, Group);
    StartingKeeps(ctx, Group);
    var c := StartAggregate(ctx, Group).ctx;
    var after := [TGroupEnd] + rest;
    EmptyGroup(c.s, Slot(ctx), fields);
    FieldsAreBuilt(c, fields, after);
    var o := ParseSettings(c, FieldTokens(fields) + after);
    AggregateIsBuilt(ctx, Group, c, o, rest);
    GroupValue(o.ctx.s, Slot(ctx));
  }

  lemma {:induction false} VectorIsBuilt(ctx: Context, shape: Shape, items: seq<Item>, rest: seq<Token>)
    requires Ready(ctx) && !InShape(ctx, Array) && Good(Vector(shape, items))
    ensures Built(ctx, Meaning(Vector(shape, items)), rest,
                  ParseAggregate(ctx, shape, RowTokens(items) + ([Closing(shape)] + rest)))
    decreases items, 2
  {
    StartPlaces(ctx, shape);
    StartingKeeps(ctx, shape);
    var c := StartAggregate(ctx, shape).ctx;
    var after := [Closing(shape)] + rest;
    var ts := RowTokens(items) + after;
    var o := ParseBody(c, shape, ts);
    if items == [] {
      assert ts == after;
    } else {
      FirstToken(items[0], items, after, shape);
      RowIsBuilt(c, shape, items, after);
    }
    AggregateIsBuilt(ctx, shape, c, o, rest);
    assert [] + Meanings(items) == Meanings(items);
  }

  lemma {:induction false} FirstToken(x: Item, items: seq<Item>, after: seq<Token>, shape: Shape)
    requires items != [] && x == items[0] && (Good(x) || SimpleItem(x))
    ensures !StartsWithToken(RowTokens(items) + after, Closing(shape))
  {
    var t := ItemTokens(x);
    assert t != [] && RowTokens(items)[0] == t[0];
  }

  /** An item that may come next in a list, or in an array that has its first elements already. */
  ghost predicate ItemFits(ctx: Context, shape: Shape, x: Item)
    requires InShape(ctx, shape)
  {
    if shape == Array then SimpleItem(x) && CheckType(ctx.s, ctx.parent.value, Meaning(x)) else Good(x)
  }

  ghost predicate ItemsFit(ctx: Context, shape: Shape, items: seq<Item>)
    requires InShape(ctx, shape)
  {
    && (forall k | 0 <= k < |items| :: ItemFits(ctx, shape, items[k]))
    && (shape == Array ==> forall k | 0 <= k < |items| :: SameKind(Meaning(items[0]), Meaning(items[k])))
  }

  lemma {:induction false} RowSplit(items: seq<Item>, after: seq<Token>)
    requires items != []
    ensures var more := RowTokens(items[1..]) + after;
            RowTokens(items) + after == ItemTokens(items[0]) + (if |items| > 1 then [TComma] + more else after)
  {
  }

  ghost predicate RowBuilt(ctx: Context, elems: seq<Value>, rest: seq<Token>, o: Outcome)
    requires Idle(ctx)
  {
    var p := ctx.parent.value;
    && BodyBuilt(ctx, rest, o)
    && ValuesAt(o.ctx.s, p, Children(o.ctx.s, p)) == ValuesAt(ctx.s, p, Children(ctx.s, p)) + elems
  }

  lemma {:induction false} ElemsStep(ctx: Context, shape: Shape, ts: seq<Token>, o: Outcome, more: seq<Token>)
    requires o == if shape == Array then ParseSimple(ctx, ts) else ParseValue(ctx, ts)
    requires o.Parsed?
    ensures !StartsWithToken(o.rest, TComma) ==> ParseElems(ctx, shape, ts) == o
    ensures o.rest == [TComma] + more ==> ParseElems(ctx, shape, ts) == ParseElems(o.ctx, shape, more)
  {
    assert ([TComma] + more)[1..] == more;
  }

  lemma {:induction false} ElementAdded(ctx: Context, v: Value, rest: seq<Token>, o: Outcome)
    requires Idle(ctx) && InVector(ctx) && Ready(ctx) && Built(ctx, v, rest, o) && Kept(ctx, o)
    ensures RowBuilt(ctx, [v], rest, o)
  {
    OneMoreChild(ctx.s, o.ctx.s, ctx.parent.value, |ctx.s|);
  }

  lemma {:induction false} ElementIsBuilt(ctx: Context, shape: Shape, x: Item, rest: seq<Token>, o: Outcome)
    requires Idle(ctx) && InShape(ctx, shape) && shape != Group && MayFollow(x, rest) && ItemFits(ctx, shape, x)
    requires o == if shape == Array then ParseSimple(ctx, ItemTokens(x) + rest)
                  else ParseValue(ctx, ItemTokens(x) + rest)
    ensures RowBuilt(ctx, [Meaning(x)], rest, o) && Idle(o.ctx) && InShape(o.ctx, shape)
    decreases x, 1
  {
    if shape == Array {
      ScalarIsBuilt(ctx, x, rest);
      SimpleKeeps(ctx, ItemTokens(x) + rest);
    } else {
      ItemIsBuilt(ctx, x, rest);
      ParsingValueKeeps(ctx, ItemTokens(x) + rest);
    }
    ElementAdded(ctx, Meaning(x), rest, o);
  }

  lemma {:induction false} FinalElement(ctx: Context, shape: Shape, x: Item, after: seq<Token>)
    requires Idle(ctx) && InShape(ctx, shape) && shape != Group && ItemFits(ctx, shape, x)
    requires StartsWithToken(after, Closing(shape))
    ensures RowBuilt(ctx, [Meaning(x)], after, ParseElems(ctx, shape, ItemTokens(x) + after))
    decreases x, 2
  {
    var o := if shape == Array then ParseSimple(ctx, ItemTokens(x) + after) else ParseValue(ctx, ItemTokens(x) + after);
    ElementIsBuilt(ctx, shape, x, after, o);
    ElemsStep(ctx, shape, ItemTokens(x) + after, o, []);
  }

  /** The context after an element that is followed by a comma. */
  lemma {:induction false} FirstElement(ctx: Context, shape: Shape, x: Item, more: seq<Token>) returns (o: Outcome)
    requires Idle(ctx) && InShape(ctx, shape) && shape != Group && ItemFits(ctx, shape, x)
    ensures o.Parsed? && RowBuilt(ctx, [Meaning(x)], o.rest, o) && Idle(o.ctx) && InShape(o.ctx, shape)
    ensures ParseElems(ctx, shape, ItemTokens(x) + ([TComma] + more)) == ParseElems(o.ctx, shape, more)
    decreases x, 2
  {
    var ts := ItemTokens(x) + ([TComma] + more);
    o := if shape == Array then ParseSimple(ctx, ts) else ParseValue(ctx, ts);
    ElementIsBuilt(ctx, shape, x, [TComma] + more, o);
    ElemsStep(ctx, shape, ts, o, more);
  }

  lemma {:induction false} RowIsBuilt(ctx: Context, shape: Shape, items: seq<Item>, after: seq<Token>)
    requires Idle(ctx) && InShape(ctx, shape) && shape != Group && ItemsFit(ctx, shape, items)
    requires items != [] && StartsWithToken(after, Closing(shape))
    ensures RowBuilt(ctx, Meanings(items), after, ParseElems(ctx, shape, RowTokens(items) + after))
    decreases items, 1
  {
    RowSplit(items, after);
    assert ItemFits(ctx, shape, items[0]);
    if |items| == 1 {
      FinalElement(ctx, shape, items[0], after);
      assert Meanings(items) == [Meaning(items[0])];
    } else {
      var more := RowTokens(items[1..]) + after;
      var o := FirstElement(ctx, shape, items[0], more);
      StillFit(ctx, o.ctx, shape, items);
      RowIsBuilt(o.ctx, shape, items[1..], after);
      RowThenMore(ctx, o, Meaning(items[0]), Meanings(items[1..]), after, ParseElems(o.ctx, shape, more));
    }
  }

  /** The type that an array asks for is the same after one more element of that type. */
  lemma {:induction false} KindStays(ctx: Context, d: Context, v: Value, w: Value)
    requires Idle(ctx) && Idle(d) && InShape(ctx, Array) && InShape(d, Array)
    requires d.parent == ctx.parent && Grew(ctx.s, d.s, ctx.parent.value)
    requires var p := ctx.parent.value;
             ValuesAt(d.s, p, Children(d.s, p)) == ValuesAt(ctx.s, p, Children(ctx.s, p)) + [v]
    requires CheckType(ctx.s, ctx.parent.value, v)
    ensures CheckType(d.s, d.parent.value, w) <==> SameKind(v, w) && CheckType(ctx.s, ctx.parent.value, w)
  {
    var p := ctx.parent.value;
    var s, t := ctx.s, d.s;
    var cs, ds := Children(s, p), Children(t, p);
    assert |ds| == |cs| + 1;
    assert GoodNode(t, p) && GoodChild(t, p, Array, ds[0]);
    assert ValueAt(t, ds[0]) == ValuesAt(t, p, ds)[0];
    if cs != [] {
      assert GoodNode(s, p) && GoodChild(s, p, Array, cs[0]);
      assert ValueAt(s, cs[0]) == ValuesAt(s, p, cs)[0];
    }
  }

  lemma {:induction false} StillFit(ctx: Context, d: Context, shape: Shape, items: seq<Item>)
    requires Idle(ctx) && Idle(d) && InShape(ctx, shape) && InShape(d, shape)
    requires items != [] && ItemsFit(ctx, shape, items)
    requires d.parent == ctx.parent && Grew(ctx.s, d.s, ctx.parent.value)
    requires var p := ctx.parent.value;
             ValuesAt(d.s, p, Children(d.s, p)) == ValuesAt(ctx.s, p, Children(ctx.s, p)) + [Meaning(items[0])]
    ensures ItemsFit(d, shape, items[1..])
  {
    var more := items[1..];
    forall k | 0 <= k < |more| ensures ItemFits(d, shape, more[k]) {
      assert more[k] == items[k + 1] && ItemFits(ctx, shape, items[k + 1]) && ItemFits(ctx, shape, items[0]);
      if shape == Array {
        KindStays(ctx, d, Meaning(items[0]), Meaning(more[k]));
      }
    }
    if shape == Array {
      forall k | 0 <= k < |more| ensures SameKind(Meaning(more[0]), Meaning(more[k])) {
        assert more[0] == items[1] && more[k] == items[k + 1];
        assert SameKind(Meaning(items[0]), Meaning(items[1])) && SameKind(Meaning(items[0]), Meaning(items[k + 1]));
      }
    }
  }

  lemma {:induction false} AppendTwice<T>(a: seq<T>, b: seq<T>, x: T, more: seq<T>, c: seq<T>)
    requires b == a + [x] && c == b + more
    ensures c == a + ([x] + more)
  {
  }

  lemma {:induction false} RowThenMore(ctx: Context, o: Outcome, v: Value, more: seq<Value>, after: seq<Token>,
                                       r: Outcome)
    requires Idle(ctx) && o.Parsed? && Idle(o.ctx)
    requires RowBuilt(ctx, [v], o.rest, o) && RowBuilt(o.ctx, more, after, r)
    ensures RowBuilt(ctx, [v] + more, after, r)
  {
    var p := ctx.parent.value;
    GrewTransitively(ctx.s, o.ctx.s, r.ctx.s, p);
    AppendTwice(ValuesAt(ctx.s, p, Children(ctx.s, p)), ValuesAt(o.ctx.s, p, Children(o.ctx.s, p)), v, more,
                ValuesAt(r.ctx.s, p, Children(r.ctx.s, p)));
  }

  // ----- the settings of a group -----

  ghost predicate NewName(s: Store, p: nat, name: string)
    requires IsAggregate(s, p)
  {
    forall j | 0 <= j < |Children(s, p)| :: MembersAt(s, p, Children(s, p))[j].name != name
  }

  ghost predicate NewNames(s: Store, p: nat, fields: seq<Field>)
    requires IsAggregate(s, p)
  {
    forall k | 0 <= k < |fields| :: NewName(s, p, fields[k].name)
  }

  ghost predicate SettingsBuilt(ctx: Context, members: seq<Member>, rest: seq<Token>, o: Outcome)
    requires Idle(ctx)
  {
    var p := ctx.parent.value;
    && BodyBuilt(ctx, rest, o)
    && MembersAt(o.ctx.s, p, Children(o.ctx.s, p)) == MembersAt(ctx.s, p, Children(ctx.s, p)) + members
  }

  /** A name is taken as the name of a new setting exactly when it is valid and new. */
  lemma {:induction false} NameIsTakenExactlyWhen(ctx: Context, name: string)
    requires Idle(ctx) && InShape(ctx, Group)
    ensures NameSetting(ctx, name).Go? <==> ValidName(name) && NewName(ctx.s, ctx.parent.value, name)
  {
    if ValidName(name) {
      var p := ctx.parent.value;
      var cs := Children(ctx.s, p);
      assert GoodNode(ctx.s, p);
      forall k | 0 <= k < |cs|
        ensures cs[k] < |ctx.s| && (ctx.s[cs[k]].name == Some(name) <==> MembersAt(ctx.s, p, cs)[k].name == name)
      {
        assert GoodChild(ctx.s, p, Group, cs[k]);
      }
      NotFoundIsNew(ctx.s, p, name);
    }
  }

  lemma {:induction false} NameIsNew(ctx: Context, name: string)
    requires Idle(ctx) && InShape(ctx, Group) && NameSetting(ctx, name).Go?
    ensures var d := NameSetting(ctx, name).ctx;
            && Ready(d) && !InVector(d) && d.parent == ctx.parent && Slot(d) == |ctx.s| && |d.s| == |ctx.s| + 1
            && Grew(ctx.s, d.s, ctx.parent.value)
            && Children(d.s, ctx.parent.value) == Children(ctx.s, ctx.parent.value) + [|ctx.s|]
            && d.s[|ctx.s|].name == Some(name)
  {
    NamingKeeps(ctx, name);
  }

  lemma {:induction false} SettingAdded(ctx: Context, c: Context, name: string, v: Value, rest: seq<Token>, o: Outcome)
    requires Idle(ctx) && InShape(ctx, Group) && NameSetting(ctx, name) == Go(c)
    requires Ready(c) && !InVector(c) && c.parent == ctx.parent && Slot(c) == |ctx.s| && |c.s| == |ctx.s| + 1
    requires Grew(ctx.s, c.s, ctx.parent.value)
    requires Children(c.s, ctx.parent.value) == Children(ctx.s, ctx.parent.value) + [|ctx.s|]
    requires c.s[|ctx.s|].name == Some(name)
    requires Built(c, v, rest, o) && Kept(c, o)
    ensures SettingsBuilt(ctx, [Member(name, v)], rest, o)
  {
    assert Grew(ctx.s, o.ctx.s, ctx.parent.value);
    OneMoreChild(ctx.s, o.ctx.s, ctx.parent.value, |ctx.s|);
  }

  lemma {:induction false} NamedSplit(a: Token, b: Token, v: seq<Token>, e: seq<Token>, f: seq<Token>,
                                      after: seq<Token>)
    ensures var ts := [a, b] + v + e + f + after;
            |ts| >= 2 && ts[0] == a && ts[1] == b && ts[2..] == v + (e + (f + after))
  {
    var tail := v + (e + (f + after));
    assert v + e + f + after == tail;
    assert [a, b] + v + e + f + after == [a, b] + tail;
  }

  lemma {:induction false} FieldSplit(fields: seq<Field>, after: seq<Token>)
    requires fields != []
    ensures var ts := FieldTokens(fields) + after;
            var more := FieldTokens(fields[1..]) + after;
            && |ts| >= 2 && ts[0] == TName(fields[0].name) && ts[1] == TEquals
            && ts[2..] == ItemTokens(fields[0].item) + (EndTokens(fields[0].end) + more)
  {
    var f := fields[0];
    NamedSplit(TName(f.name), TEquals, ItemTokens(f.item), EndTokens(f.end), FieldTokens(fields[1..]), after);
  }

  /** With one more member, a name is new when it was new and is not the name of that member. */
  lemma {:induction false} NameStaysNew(s: Store, t: Store, p: nat, m: Member, name: string)
    requires IsAggregate(s, p) && IsAggregate(t, p)
    requires MembersAt(t, p, Children(t, p)) == MembersAt(s, p, Children(s, p)) + [m]
    ensures NewName(t, p, name) <==> NewName(s, p, name) && name != m.name
  {
    var before, now := MembersAt(s, p, Children(s, p)), MembersAt(t, p, Children(t, p));
    assert forall j | 0 <= j < |before| :: now[j] == before[j];
    assert now[|before|] == m;
  }

  lemma {:induction false} SettingsThenMore(ctx: Context, o: Outcome, m: Member, more: seq<Member>, after: seq<Token>,
                                            r: Outcome)
    requires Idle(ctx) && o.Parsed? && Idle(o.ctx)
    requires SettingsBuilt(ctx, [m], o.rest, o) && SettingsBuilt(o.ctx, more, after, r)
    ensures SettingsBuilt(ctx, [m] + more, after, r)
  {
    var p := ctx.parent.value;
    GrewTransitively(ctx.s, o.ctx.s, r.ctx.s, p);
    AppendTwice(MembersAt(ctx.s, p, Children(ctx.s, p)), MembersAt(o.ctx.s, p, Children(o.ctx.s, p)), m, more,
                MembersAt(r.ctx.s, p, Children(r.ctx.s, p)));
  }

  ghost predicate NoEndMark(ts: seq<Token>) { !StartsWithToken(ts, TSemicolon) && !StartsWithToken(ts, TComma) }

  lemma {:induction false} EndIsSkipped(end: End, more: seq<Token>)
    requires NoEndMark(more)
    ensures SkipTerminator(EndTokens(end) + more) == more
  {
    match end
    case NoEnd => assert [] + more == more;
    case CommaEnd =>
    case SemicolonEnd =>
  }

  lemma {:induction false} SettingsStep(ctx: Context, ts: seq<Token>, c: Context, o: Outcome, more: seq<Token>)
    requires |ts| >= 2 && ts[0].TName? && ts[1] == TEquals && NameSetting(ctx, ts[0].name) == Go(c)
    requires o == ParseValue(c, ts[2..]) && o.Parsed? && SkipTerminator(o.rest) == more
    ensures ParseSettings(ctx, ts) == ParseSettings(o.ctx, more)
  {
    assert ts[1..][0] == TEquals;
  }

  lemma {:induction false} SettingIsBuilt(ctx: Context, name: string, x: Item, rest: seq<Token>)
    requires Idle(ctx) && InShape(ctx, Group) && Good(x) && MayFollow(x, rest)
    requires NameSetting(ctx, name).Go?
    ensures var o := ParseValue(NameSetting(ctx, name).ctx, ItemTokens(x) + rest);
            SettingsBuilt(ctx, [Member(name, Meaning(x))], rest, o) && Idle(o.ctx) && InShape(o.ctx, Group)
    decreases x, 1
  {
    NameIsNew(ctx, name);
    var c := NameSetting(ctx, name).ctx;
    ItemIsBuilt(c, x, rest);
    ParsingValueKeeps(c, ItemTokens(x) + rest);
    SettingAdded(ctx, c, name, Meaning(x), rest, ParseValue(c, ItemTokens(x) + rest));
  }

  /** What may stand after the settings of a group. */
  ghost predicate EndsGroup(after: seq<Token>) { after == [] || after[0] == TGroupEnd }

  lemma {:induction false} AfterSetting(fields: seq<Field>, end: End, after: seq<Token>)
    requires EndsGroup(after)
    ensures var more := FieldTokens(fields) + after; NoEndMark(more) && NoString(EndTokens(end) + more)
  {
    var more := FieldTokens(fields) + after;
    if fields != [] {
      FieldSplit(fields, after);
      assert more[0] == TName(fields[0].name);
    } else {
      assert more == after;
    }
    assert EndTokens(end) + more == if end == NoEnd then more else EndTokens(end) + more;
  }

  /** The context after the first setting. */
  lemma {:induction false} FirstSetting(ctx: Context, fields: seq<Field>, after: seq<Token>) returns (o: Outcome)
    requires Idle(ctx) && InShape(ctx, Group) && fields != [] && GoodFields(fields)
    requires NewNames(ctx.s, ctx.parent.value, fields) && EndsGroup(after)
    ensures o.Parsed? && Idle(o.ctx) && InShape(o.ctx, Group)
    ensures SettingsBuilt(ctx, [Member(fields[0].name, Meaning(fields[0].item))], o.rest, o)
    ensures NewNames(o.ctx.s, ctx.parent.value, fields[1..])
    ensures ParseSettings(ctx, FieldTokens(fields) + after) == ParseSettings(o.ctx, FieldTokens(fields[1..]) + after)
    decreases fields, 0
  {
    var f := fields[0];
    var more := FieldTokens(fields[1..]) + after;
    var rest := EndTokens(f.end) + more;
    FieldSplit(fields, after);
    AfterSetting(fields[1..], f.end, after);
    EndIsSkipped(f.end, more);
    NameIsTakenExactlyWhen(ctx, f.name);
    SettingIsBuilt(ctx, f.name, f.item, rest);
    var c := NameSetting(ctx, f.name).ctx;
    o := ParseValue(c, ItemTokens(f.item) + rest);
    SettingsStep(ctx, FieldTokens(fields) + after, c, o, more);
    forall k | 0 <= k < |fields[1..]| ensures NewName(o.ctx.s, ctx.parent.value, fields[1..][k].name) {
      assert fields[1..][k] == fields[k + 1];
      NameStaysNew(ctx.s, o.ctx.s, ctx.parent.value, Member(f.name, Meaning(f.item)), fields[k + 1].name);
    }
  }

  lemma {:induction false} FieldsAreBuilt(ctx: Context, fields: seq<Field>, after: seq<Token>)
    requires Idle(ctx) && InShape(ctx, Group) && GoodFields(fields)
    requires NewNames(ctx.s, ctx.parent.value, fields) && EndsGroup(after)
    ensures SettingsBuilt(ctx, FieldMeanings(fields), after, ParseSettings(ctx, FieldTokens(fields) + after))
    decreases fields, 1
  {
    if fields == [] {
      assert FieldTokens(fields) + after == after;
    } else {
      var o := FirstSetting(ctx, fields, after);
      FieldsAreBuilt(o.ctx, fields[1..], after);
      var m := Member(fields[0].name, Meaning(fields[0].item));
      SettingsThenMore(ctx, o, m, FieldMeanings(fields[1..]), after,
                       ParseSettings(o.ctx, FieldTokens(fields[1..]) + after));
    }
  }

  lemma {:induction false} EmptyIsIdle(ctx: Context)
    requires ctx == EMPTY
    ensures Idle(ctx) && InShape(ctx, Group) && MembersAt(ctx.s, 0, Children(ctx.s, 0)) == []
  {
  }

  lemma {:induction false} RootIsBuilt(ctx: Context, fields: seq<Field>)
    requires GoodFields(fields)
    requires Idle(ctx) && ctx.parent == Some(0) && InShape(ctx, Group) && MembersAt(ctx.s, 0, Children(ctx.s, 0)) == []
    ensures var o := ParseSettings(ctx, FieldTokens(fields));
            && o.Parsed? && o.rest == [] && WellFormed(o.ctx.s)
            && ValueAt(o.ctx.s, 0) == VGroup(FieldMeanings(fields))
  {
    FieldsAreBuilt(ctx, fields, []);
    assert FieldTokens(fields) + [] == FieldTokens(fields);
    assert [] + FieldMeanings(fields) == FieldMeanings(fields);
    GroupValue(ParseSettings(ctx, FieldTokens(fields)).ctx.s, 0);
  }

  /** Every spelling of settings is read, and gives the tree it means. */
  lemma {:induction false} SpellingsAreRead(fields: seq<Field>)
    requires GoodFields(fields)
    ensures var o := Parse(FieldTokens(fields));
            && o.Parsed? && WellFormed(o.ctx.s)
            && ValueAt(o.ctx.s, 0) == VGroup(FieldMeanings(fields))
  {
    EmptyIsIdle(EMPTY);
    RootIsBuilt(EMPTY, fields);
  }

  // ----- whatever is read is a spelling -----

  lemma {:induction false} LiteralsAreSpelled(ts: seq<Token>) returns (pieces: seq<string>)
    ensures var (text, rest) := JoinStrings(ts);
            && ts == LiteralTokens(pieces) + rest && NoString(rest)
            && (NoString(ts) <==> pieces == [])
  {
    if NoString(ts) {
      pieces := [];
      assert ts == [] + ts;
    } else {
      var more := LiteralsAreSpelled(ts[1..]);
      pieces := [ts[0].s] + more;
      assert pieces[1..] == more;
      assert ts == [ts[0]] + ts[1..];
    }
  }

  lemma {:induction false} SimpleIsSpelled(ctx: Context, ts: seq<Token>) returns (x: Item)
    requires ParseSimple(ctx, ts).Parsed?
    ensures var rest := ParseSimple(ctx, ts).rest; SimpleItem(x) && MayFollow(x, rest) && ts == ItemTokens(x) + rest
    ensures Good(x) && (InVector(ctx) ==> CheckType(ctx.s, ctx.parent.value, Meaning(x)))
  {
    var (v, rest) := SimpleValue(ts);
    assert ParseSimple(ctx, ts).rest == rest;
    if ts[0].TString? {
      var pieces := LiteralsAreSpelled(ts);
      x := Literals(pieces);
    } else {
      x := One(ts[0]);
      assert ts == [ts[0]] + ts[1..];
    }
    SimpleIsRead(x, rest);
    assert v == Meaning(x);
  }

  lemma {:induction false} Rebracket(open: Token, inner: seq<Token>, close: Token, rest: seq<Token>, ts: seq<Token>,
                                     after: seq<Token>)
    requires ts == inner + after && StartsWithToken(after, close) && rest == after[1..]
    ensures [open] + ts == ([open] + inner + [close]) + rest
  {
    assert after == [close] + rest;
  }

  lemma {:induction false} ValueIsSpelled(ctx: Context, ts: seq<Token>) returns (x: Item)
    requires Ready(ctx) && !InShape(ctx, Array) && ParseValue(ctx, ts).Parsed?
    ensures var rest := ParseValue(ctx, ts).rest; Good(x) && MayFollow(x, rest) && ts == ItemTokens(x) + rest
    decreases |ts|, 0
  {
    assert ts == [ts[0]] + ts[1..];
    match ts[0]
    case TArrayStart => x := VectorIsSpelled(ctx, Array, ts[1..]);
    case TListStart => x := VectorIsSpelled(ctx, List, ts[1..]);
    case TGroupStart => x := GroupIsSpelled(ctx, ts[1..]);
    case _ => x := SimpleIsSpelled(ctx, ts);
  }

  function Opening(shape: Shape): Token {
    match shape
    case Array => TArrayStart
    case List => TListStart
    case Group => TGroupStart
  }

  lemma {:induction false} GroupIsSpelled(ctx: Context, ts: seq<Token>) returns (x: Item)
    requires Ready(ctx) && !InShape(ctx, Array) && ParseAggregate(ctx, Group, ts).Parsed?
    ensures Good(x) && x.Fields? && [TGroupStart] + ts == ItemTokens(x) + ParseAggregate(ctx, Group, ts).rest
    decreases |ts|, 3
  {
    StartPlaces(ctx, Group);
    StartingKeeps(ctx, Group);
    var c := StartAggregate(ctx, Group).ctx;
    var o := ParseSettings(c, ts);
    var fields := SettingsAreSpelled(c, ts);
    x := Fields(fields);
    Rebracket(TGroupStart, FieldTokens(fields), TGroupEnd, o.rest[1..], ts, o.rest);
  }

  lemma {:induction false} VectorIsSpelled(ctx: Context, shape: Shape, ts: seq<Token>) returns (x: Item)
    requires Ready(ctx) && !InShape(ctx, Array) && shape != Group && ParseAggregate(ctx, shape, ts).Parsed?
    ensures Good(x) && x.Vector? && [Opening(shape)] + ts == ItemTokens(x) + ParseAggregate(ctx, shape, ts).rest
    decreases |ts|, 3
  {
    StartPlaces(ctx, shape);
    StartingKeeps(ctx, shape);
    var c := StartAggregate(ctx, shape).ctx;
    var o := ParseBody(c, shape, ts);
    var items := [];
    if StartsWithToken(ts, Closing(shape)) {
      assert ts == [] + ts;
    } else {
      items := RowIsSpelled(c, shape, ts);
      FitIsGood(c, shape, items);
    }
    x := Vector(shape, items);
    Rebracket(Opening(shape), RowTokens(items), Closing(shape), o.rest[1..], ts, o.rest);
  }

  lemma {:induction false} FitIsGood(ctx: Context, shape: Shape, items: seq<Item>)
    requires InShape(ctx, shape) && shape != Group && ItemsFit(ctx, shape, items)
    ensures Good(Vector(shape, items))
  {
    assert forall k | 0 <= k < |items| :: ItemFits(ctx, shape, items[k]);
  }

  lemma {:induction false} ElementIsSpelled(ctx: Context, shape: Shape, ts: seq<Token>, o: Outcome) returns (x: Item)
    requires Idle(ctx) && InShape(ctx, shape) && shape != Group
    requires o == (if shape == Array then ParseSimple(ctx, ts) else ParseValue(ctx, ts)) && o.Parsed?
    ensures ItemFits(ctx, shape, x) && MayFollow(x, o.rest) && ts == ItemTokens(x) + o.rest
    ensures RowBuilt(ctx, [Meaning(x)], o.rest, o) && Idle(o.ctx) && InShape(o.ctx, shape)
    decreases |ts|, 1
  {
    if shape == Array {
      x := SimpleIsSpelled(ctx, ts);
    } else {
      x := ValueIsSpelled(ctx, ts);
    }
    ElementIsBuilt(ctx, shape, x, o.rest, o);
  }

  lemma {:induction false} RowIsSpelled(ctx: Context, shape: Shape, ts: seq<Token>) returns (items: seq<Item>)
    requires Idle(ctx) && InShape(ctx, shape) && shape != Group && ParseElems(ctx, shape, ts).Parsed?
    ensures items != [] && ItemsFit(ctx, shape, items)
    ensures ts == RowTokens(items) + ParseElems(ctx, shape, ts).rest
    decreases |ts|, 2
  {
    var o := if shape == Array then ParseSimple(ctx, ts) else ParseValue(ctx, ts);
    var x := ElementIsSpelled(ctx, shape, ts, o);
    if StartsWithToken(o.rest, TComma) {
      var more := RowIsSpelled(o.ctx, shape, o.rest[1..]);
      items := [x] + more;
      FitBefore(ctx, o.ctx, shape, x, more);
      RowJoin(x, more, ParseElems(ctx, shape, ts).rest, o.rest);
    } else {
      items := [x];
      RowSplit(items, o.rest);
      assert SameKind(Meaning(x), Meaning(x)) || shape == List by {
        if shape == Array {
          SimpleIsRead(x, []);
        }
      }
    }
  }

  lemma {:induction false} RowJoin(x: Item, more: seq<Item>, rest: seq<Token>, after: seq<Token>)
    requires more != [] && StartsWithToken(after, TComma) && after[1..] == RowTokens(more) + rest
    ensures ItemTokens(x) + after == RowTokens([x] + more) + rest
  {
    var items := [x] + more;
    assert items[1..] == more;
    assert after == [TComma] + after[1..];
    RowSplit(items, rest);
  }

  lemma {:induction false} FitBefore(ctx: Context, d: Context, shape: Shape, x: Item, more: seq<Item>)
    requires Idle(ctx) && Idle(d) && InShape(ctx, shape) && InShape(d, shape) && shape != Group
    requires ItemFits(ctx, shape, x) && ItemsFit(d, shape, more)
    requires d.parent == ctx.parent && Grew(ctx.s, d.s, ctx.parent.value)
    requires var p := ctx.parent.value;
             ValuesAt(d.s, p, Children(d.s, p)) == ValuesAt(ctx.s, p, Children(ctx.s, p)) + [Meaning(x)]
    ensures ItemsFit(ctx, shape, [x] + more)
  {
    var items := [x] + more;
    if shape == Array {
      SimpleIsRead(x, []);
    }
    forall k | 0 <= k < |items|
      ensures ItemFits(ctx, shape, items[k]) && (shape == Array ==> SameKind(Meaning(x), Meaning(items[k])))
    {
      if k > 0 {
        assert items[k] == more[k - 1] && ItemFits(d, shape, more[k - 1]);
        if shape == Array {
          KindStays(ctx, d, Meaning(x), Meaning(more[k - 1]));
        }
      }
    }
  }

  lemma {:induction false} EndIsSpelled(ts: seq<Token>) returns (end: End)
    ensures ts == EndTokens(end) + SkipTerminator(ts)
  {
    if StartsWithToken(ts, TSemicolon) {
      end := SemicolonEnd;
      assert ts == [TSemicolon] + ts[1..];
    } else if StartsWithToken(ts, TComma) {
      end := CommaEnd;
      assert ts == [TComma] + ts[1..];
    } else {
      end := NoEnd;
      assert ts == [] + ts;
    }
  }

  lemma {:induction false} FieldJoin(f: Field, fields: seq<Field>, ts: seq<Token>, rest: seq<Token>)
    requires |ts| >= 2 && ts[0] == TName(f.name) && ts[1] == TEquals
    requires ts[2..] == ItemTokens(f.item) + (EndTokens(f.end) + (FieldTokens(fields) + rest))
    ensures ts == FieldTokens([f] + fields) + rest
  {
    var all := [f] + fields;
    assert all[1..] == fields;
    FieldSplit(all, rest);
    assert ts == [ts[0], ts[1]] + ts[2..];
    var us := FieldTokens(all) + rest;
    assert us == [us[0], us[1]] + us[2..];
  }

  lemma {:induction false} SettingsAreSpelled(ctx: Context, ts: seq<Token>) returns (fields: seq<Field>)
    requires Idle(ctx) && InShape(ctx, Group) && ParseSettings(ctx, ts).Parsed?
    ensures GoodFields(fields) && NewNames(ctx.s, ctx.parent.value, fields)
    ensures ts == FieldTokens(fields) + ParseSettings(ctx, ts).rest
    decreases |ts|, 2
  {
    if ts == [] || !ts[0].TName? {
      fields := [];
      assert ts == [] + ts;
    } else {
      var name := ts[0].name;
      var c := NameSetting(ctx, name).ctx;
      NameIsNew(ctx, name);
      NameIsTakenExactlyWhen(ctx, name);
      var o := ParseValue(c, ts[2..]);
      var x := ValueIsSpelled(c, ts[2..]);
      SettingIsBuilt(ctx, name, x, o.rest);
      var end := EndIsSpelled(o.rest);
      var more := SettingsAreSpelled(o.ctx, SkipTerminator(o.rest));
      var f := Field(name, x, end);
      fields := [f] + more;
      FieldJoin(f, more, ts, ParseSettings(ctx, ts).rest);
      NewBefore(ctx.s, o.ctx.s, ctx.parent.value, f, more);
    }
  }

  lemma {:induction false} NewBefore(s: Store, t: Store, p: nat, f: Field, more: seq<Field>)
    requires IsAggregate(s, p) && IsAggregate(t, p)
    requires MembersAt(t, p, Children(t, p)) == MembersAt(s, p, Children(s, p)) + [Member(f.name, Meaning(f.item))]
    requires NewName(s, p, f.name) && NewNames(t, p, more)
    requires ValidName(f.name) && Good(f.item) && GoodFields(more)
    ensures NewNames(s, p, [f] + more) && GoodFields([f] + more)
  {
    var fields := [f] + more;
    forall k | 1 <= k < |fields| ensures NewName(s, p, fields[k].name) && fields[k].name != f.name {
      assert fields[k] == more[k - 1];
      NameStaysNew(s, t, p, Member(f.name, Meaning(f.item)), fields[k].name);
    }
    forall i, j | 0 <= i < j < |fields| ensures fields[i].name != fields[j].name {
      assert i > 0 ==> fields[i] == more[i - 1] && fields[j] == more[j - 1];
    }
  }

  // ----- the theorem -----

  /** The parser accepts exactly the token sequences that the grammar derives with valid names, no name twice in a
      group and one type in each array; and whichever derivation there is, the tree is the one it means. */
  lemma {:induction false} ParsesExactlyWhen(ts: seq<Token>)
    ensures Parse(ts).Parsed? <==> exists fields :: GoodFields(fields) && ts == FieldTokens(fields)
    ensures forall fields | GoodFields(fields) && ts == FieldTokens(fields) ::
              WellFormed(Parse(ts).ctx.s) && ValueAt(Parse(ts).ctx.s, 0) == VGroup(FieldMeanings(fields))
  {
    if Parse(ts).Parsed? {
      EmptyIsIdle(EMPTY);
      var fields := SettingsAreSpelled(EMPTY, ts);
      assert FieldTokens(fields) + [] == FieldTokens(fields);
    }
    forall fields | GoodFields(fields) && ts == FieldTokens(fields)
      ensures Parse(ts).Parsed? && WellFormed(Parse(ts).ctx.s)
      ensures ValueAt(Parse(ts).ctx.s, 0) == VGroup(FieldMeanings(fields))
    {
      SpellingsAreRead(fields);
    }
  }
}
