/** The grammar of libconfig and its semantic actions, which build the tree through `parent` and `setting`. */
module ConfigGrammar {
  import opened Text
  import opened ConfigValue
  import opened ConfigTree

  datatype Context = Context(s: Store, parent: Option<nat>, setting: Option<nat>)

  /** What one action does: go on, abort the parse, or follow a null or dangling pointer. */
  datatype Step = Go(ctx: Context) | Abort | Crash

  datatype Outcome = Parsed(ctx: Context, rest: seq<Token>) | Failed(ctx: Context) | Crashed

  // ----- semantic actions -----

  predicate InShape(ctx: Context, shape: Shape) { ctx.parent.Some? && HasShape(ctx.s, ctx.parent.value, shape) }

  predicate InVector(ctx: Context) { InShape(ctx, Array) || InShape(ctx, List) }

  function NameSetting(ctx: Context, name: string): Step {
    if ctx.parent.None? then Abort
    else
      match Add(ctx.s, ctx.parent.value, Some(name), Unset)
      case Some(t) => Go(ctx.(s := t, setting := Some(|ctx.s|)))
      case None => Abort
  }

  function StartAggregate(ctx: Context, shape: Shape): Step {
    if InShape(ctx, List) then
      match Add(ctx.s, ctx.parent.value, None, Aggregate(shape, []))
      case Some(t) => Go(ctx.(s := t, parent := Some(|ctx.s|)))
      case None => Crash
    else if ctx.setting.None? || ctx.setting.value >= |ctx.s| || ctx.s[ctx.setting.value].content != Unset then Crash
    else
      var id := ctx.setting.value;
      Go(Context(ctx.s[id := ctx.s[id].(content := Aggregate(shape, []))], Some(id), None))
  }

  function EndAggregate(ctx: Context): Step {
    if ctx.parent.None? then Go(ctx)
    else if ctx.parent.value >= |ctx.s| then Crash
    else Go(ctx.(parent := ctx.s[ctx.parent.value].parent))
  }

  function SetValue(ctx: Context, v: Value): Step {
    if InVector(ctx) then
      match Append(ctx.s, ctx.parent.value, v)
      case Some(t) => Go(ctx.(s := t))
      case None => Abort
    else if ctx.setting.None? || ctx.setting.value >= |ctx.s| then Crash
    else
      var id := ctx.setting.value;
      Go(ctx.(s := ctx.s[id := ctx.s[id].(content := SetContent(ctx.s[id].content, v))]))
  }

  // ----- rules -----

  predicate IsSimple(t: Token) {
    t.TBool? || t.TInt? || t.THex? || t.TInt64? || t.THex64? || t.TFloat? || t.TString?
  }

  /** Adjacent string literals are one string. */
  function JoinStrings(ts: seq<Token>): (r: (string, seq<Token>))
    ensures |r.1| <= |ts|
    ensures ts != [] && ts[0].TString? ==> |r.1| < |ts|
  {
    if ts == [] || !ts[0].TString? then ("", ts)
    else
      var (more, rest) := JoinStrings(ts[1..]);
      (ts[0].s + more, rest)
  }

  function SimpleValue(ts: seq<Token>): (r: (Value, seq<Token>))
    requires ts != [] && IsSimple(ts[0])
    ensures |r.1| < |ts| && IsScalar(r.0)
  {
    match ts[0]
    case TBool(b) => (VBool(b), ts[1..])
    case TInt(i) => (VInt(i, false), ts[1..])
    case THex(i) => (VInt(i, true), ts[1..])
    case TInt64(ll) => (VInt64(ll, false), ts[1..])
    case THex64(ll) => (VInt64(ll, true), ts[1..])
    case TFloat(text) => (VFloat(text), ts[1..])
    case TString(_) =>
      var (text, rest) := JoinStrings(ts);
      (VString(text), rest)
  }

  function Continue(step: Step, ctx: Context, rest: seq<Token>): Outcome {
    match step
    case Go(d) => Parsed(d, rest)
    case Abort => Failed(ctx)
    case Crash => Crashed
  }

  function ParseSimple(ctx: Context, ts: seq<Token>): (o: Outcome)
    ensures o.Parsed? ==> |o.rest| < |ts|
  {
    if ts == [] || !IsSimple(ts[0]) then Failed(ctx)
    else
      var (v, rest) := SimpleValue(ts);
      Continue(SetValue(ctx, v), ctx, rest)
  }

  function Closing(shape: Shape): Token {
    match shape
    case Array => TArrayEnd
    case List => TListEnd
    case Group => TGroupEnd
  }

  predicate StartsWithToken(ts: seq<Token>, t: Token) { ts != [] && ts[0] == t }

  function ParseValue(ctx: Context, ts: seq<Token>): (o: Outcome)
    ensures o.Parsed? ==> |o.rest| < |ts|
    decreases |ts|, 0
  {
    if ts == [] then Failed(ctx)
    else
      match ts[0]
      case TArrayStart => ParseAggregate(ctx, Array, ts[1..])
      case TListStart => ParseAggregate(ctx, List, ts[1..])
      case TGroupStart => ParseAggregate(ctx, Group, ts[1..])
      case _ => ParseSimple(ctx, ts)
  }

  /** An array, a list or a group whose opening bracket has been read. */
  function ParseAggregate(ctx: Context, shape: Shape, ts: seq<Token>): (o: Outcome)
    ensures o.Parsed? ==> |o.rest| < |ts|
    decreases |ts|, 3
  {
    match StartAggregate(ctx, shape)
    case Abort => Failed(ctx)
    case Crash => Crashed
    case Go(c) => Close(ParseBody(c, shape, ts), shape)
  }

  function ParseBody(ctx: Context, shape: Shape, ts: seq<Token>): (o: Outcome)
    ensures o.Parsed? ==> |o.rest| <= |ts|
    decreases |ts|, 2
  {
    if shape == Group then ParseSettings(ctx, ts)
    else if StartsWithToken(ts, Closing(shape)) then Parsed(ctx, ts)
    else ParseElems(ctx, shape, ts)
  }

  function Close(o: Outcome, shape: Shape): (r: Outcome)
    ensures r.Parsed? ==> o.Parsed? && |r.rest| < |o.rest|
  {
    if !o.Parsed? then o
    else if StartsWithToken(o.rest, Closing(shape)) then Continue(EndAggregate(o.ctx), o.ctx, o.rest[1..])
    else Failed(o.ctx)
  }

  /** One or more values, with commas between them; an array has simple values only. */
  function ParseElems(ctx: Context, shape: Shape, ts: seq<Token>): (o: Outcome)
    ensures o.Parsed? ==> |o.rest| < |ts|
    decreases |ts|, 1
  {
    var o := if shape == Array then ParseSimple(ctx, ts) else ParseValue(ctx, ts);
    if o.Parsed? && StartsWithToken(o.rest, TComma) then ParseElems(o.ctx, shape, o.rest[1..]) else o
  }

  function SkipTerminator(ts: seq<Token>): (r: seq<Token>)
    ensures |r| <= |ts|
  {
    if StartsWithToken(ts, TSemicolon) || StartsWithToken(ts, TComma) then ts[1..] else ts
  }

  /** Any number of settings. */
  function ParseSettings(ctx: Context, ts: seq<Token>): (o: Outcome)
    ensures o.Parsed? ==> |o.rest| <= |ts|
    decreases |ts|, 1
  {
    if ts == [] || !ts[0].TName? then Parsed(ctx, ts)
    else
      match NameSetting(ctx, ts[0].name)
      case Abort => Failed(ctx)
      case Crash => Crashed
      case Go(c) =>
        if !StartsWithToken(ts[1..], TEquals) then Failed(c)
        else
          var o := ParseValue(c, ts[2..]);
          if o.Parsed? then ParseSettings(o.ctx, SkipTerminator(o.rest)) else o
  }

  const EMPTY: Context := Context([ROOT], Some(0), Some(0))

  /** Reading a file: the settings of the root group, and nothing after them. */
  function Parse(ts: seq<Token>): Outcome {
    var o := ParseSettings(EMPTY, ts);
    if o.Parsed? && o.rest != [] then Failed(o.ctx) else o
  }

  // ----- what every action keeps -----

  /** `t` has the settings of `s`, where they were, and aggregates stay what they are. */
  ghost predicate Extends(s: Store, t: Store) {
    && |s| <= |t|
    && forall i | 0 <= i < |s| ::
         && t[i].parent == s[i].parent
         && (s[i].content.Aggregate? ==> t[i].content.Aggregate? && t[i].content.shape == s[i].content.shape)
  }

  lemma {:induction false} ExtendsTransitively(s: Store, t: Store, u: Store)
    requires Extends(s, t) && Extends(t, u)
    ensures Extends(s, u)
  {
  }

  ghost predicate CompleteBut(s: Store, id: nat) { forall i | 0 <= i < |s| && i != id :: s[i].content != Unset }

  /** Every setting has a value. */
  ghost predicate Complete(s: Store) { CompleteBut(s, |s|) }

  /** Between two settings or two elements. */
  ghost predicate Idle(ctx: Context) {
    && WellFormed(ctx.s) && Complete(ctx.s)
    && ctx.parent.Some? && IsAggregate(ctx.s, ctx.parent.value)
  }

  /** Where a value is expected: in a list or an array, or for the setting just named. */
  ghost predicate Expecting(ctx: Context) {
    if InVector(ctx) then Idle(ctx)
    else
      && WellFormed(ctx.s)
      && InShape(ctx, Group)
      && ctx.setting.Some? && ctx.setting.value < |ctx.s|
      && ctx.s[ctx.setting.value].content == Unset
      && ctx.s[ctx.setting.value].parent == ctx.parent
      && CompleteBut(ctx.s, ctx.setting.value)
  }

  ghost predicate Kept(ctx: Context, o: Outcome) {
    match o
    case Parsed(d, _) => Idle(d) && d.parent == ctx.parent && Extends(ctx.s, d.s)
    case Failed(d) => WellFormed(d.s)
    case Crashed => false
  }

  lemma {:induction false} NamingKeeps(ctx: Context, name: string)
    requires Idle(ctx) && InShape(ctx, Group)
    ensures !NameSetting(ctx, name).Crash?
    ensures NameSetting(ctx, name).Go? ==>
              var d := NameSetting(ctx, name).ctx;
              Expecting(d) && !InVector(d) && d.parent == ctx.parent && Extends(ctx.s, d.s)
  {
    if NameSetting(ctx, name).Go? {
      var p := ctx.parent.value;
      NotFoundIsNew(ctx.s, p, name);
      CreateKeeps(ctx.s, p, Some(name), Unset);
    }
  }

  lemma {:induction false} StartingKeeps(ctx: Context, shape: Shape)
    requires Expecting(ctx) && !InShape(ctx, Array)
    ensures StartAggregate(ctx, shape).Go?
    ensures var d := StartAggregate(ctx, shape).ctx;
            && Idle(d) && Extends(ctx.s, d.s) && InShape(d, shape)
            && d.s[d.parent.value].parent == ctx.parent
  {
    if InShape(ctx, List) {
      CreateKeeps(ctx.s, ctx.parent.value, None, Aggregate(shape, []));
    } else {
      FillKeeps(ctx.s, ctx.setting.value, Aggregate(shape, []));
    }
  }

  lemma {:induction false} ValueKeeps(ctx: Context, v: Value)
    requires Expecting(ctx) && IsScalar(v)
    ensures !SetValue(ctx, v).Crash?
    ensures SetValue(ctx, v).Go? ==>
              var d := SetValue(ctx, v).ctx; Idle(d) && d.parent == ctx.parent && Extends(ctx.s, d.s)
  {
    if InVector(ctx) {
      var p := ctx.parent.value;
      if CheckType(ctx.s, p, v) {
        CreateKeeps(ctx.s, p, None, Scalar(v));
      }
    } else {
      FillKeeps(ctx.s, ctx.setting.value, Scalar(v));
    }
  }

  // ----- what every rule keeps -----

  lemma {:induction false} SimpleKeeps(ctx: Context, ts: seq<Token>)
    requires Expecting(ctx)
    ensures Kept(ctx, ParseSimple(ctx, ts))
  {
    if ts != [] && IsSimple(ts[0]) {
      ValueKeeps(ctx, SimpleValue(ts).0);
    }
  }

  lemma {:induction false} ParsingValueKeeps(ctx: Context, ts: seq<Token>)
    requires Expecting(ctx) && !InShape(ctx, Array)
    ensures Kept(ctx, ParseValue(ctx, ts))
    decreases |ts|, 0
  {
    if ts != [] {
      match ts[0]
      case TArrayStart => AggregateKeeps(ctx, Array, ts[1..]);
      case TListStart => AggregateKeeps(ctx, List, ts[1..]);
      case TGroupStart => AggregateKeeps(ctx, Group, ts[1..]);
      case _ => SimpleKeeps(ctx, ts);
    }
  }

  lemma {:induction false} AggregateKeeps(ctx: Context, shape: Shape, ts: seq<Token>)
    requires Expecting(ctx) && !InShape(ctx, Array)
    ensures Kept(ctx, ParseAggregate(ctx, shape, ts))
    decreases |ts|, 3
  {
    StartingKeeps(ctx, shape);
    var c := StartAggregate(ctx, shape).ctx;
    BodyKeeps(c, shape, ts);
    ClosingKeeps(ctx, c, ParseBody(c, shape, ts), shape);
  }

  lemma {:induction false} ClosingKeeps(ctx: Context, c: Context, o: Outcome, shape: Shape)
    requires Idle(c) && Kept(c, o) && c.s[c.parent.value].parent == ctx.parent && Extends(ctx.s, c.s)
    requires ctx.parent.Some? && IsAggregate(ctx.s, ctx.parent.value)
    ensures Kept(ctx, Close(o, shape))
  {
    if o.Parsed? {
      ExtendsTransitively(ctx.s, c.s, o.ctx.s);
    }
  }

  lemma {:induction false} BodyKeeps(ctx: Context, shape: Shape, ts: seq<Token>)
    requires Idle(ctx) && InShape(ctx, shape)
    ensures Kept(ctx, ParseBody(ctx, shape, ts))
    decreases |ts|, 2
  {
    if shape == Group {
      SettingsKeep(ctx, ts);
    } else if !StartsWithToken(ts, Closing(shape)) {
      ElemsKeep(ctx, shape, ts);
    }
  }

  lemma {:induction false} ElemsKeep(ctx: Context, shape: Shape, ts: seq<Token>)
    requires Idle(ctx) && InShape(ctx, shape) && shape != Group
    ensures Kept(ctx, ParseElems(ctx, shape, ts))
    decreases |ts|, 1
  {
    var o := if shape == Array then ParseSimple(ctx, ts) else ParseValue(ctx, ts);
    if shape == Array {
      SimpleKeeps(ctx, ts);
    } else {
      ParsingValueKeeps(ctx, ts);
    }
    if o.Parsed? && StartsWithToken(o.rest, TComma) {
      ElemsKeep(o.ctx, shape, o.rest[1..]);
      KeptTransitively(ctx, o.ctx, ParseElems(o.ctx, shape, o.rest[1..]));
    }
  }

  lemma {:induction false} KeptTransitively(ctx: Context, d: Context, o: Outcome)
    requires Extends(ctx.s, d.s) && d.parent == ctx.parent && Kept(d, o)
    ensures Kept(ctx, o)
  {
    if o.Parsed? {
      ExtendsTransitively(ctx.s, d.s, o.ctx.s);
    }
  }

  lemma {:induction false} SettingsKeep(ctx: Context, ts: seq<Token>)
    requires Idle(ctx) && InShape(ctx, Group)
    ensures Kept(ctx, ParseSettings(ctx, ts))
    decreases |ts|, 1
  {
    if ts != [] && ts[0].TName? {
      var step := NameSetting(ctx, ts[0].name);
      NamingKeeps(ctx, ts[0].name);
      if step.Go? && StartsWithToken(ts[1..], TEquals) {
        var o := ParseValue(step.ctx, ts[2..]);
        ParsingValueKeeps(step.ctx, ts[2..]);
        KeptTransitively(ctx, step.ctx, o);
        if o.Parsed? {
          SettingsKeep(o.ctx, SkipTerminator(o.rest));
          KeptTransitively(ctx, o.ctx, ParseSettings(o.ctx, SkipTerminator(o.rest)));
        }
      }
    }
  }

  /** Whatever the tokens are, reading them follows no null or dangling pointer and leaves a well-formed tree;
      if it succeeds, every setting has a value and the parser is back at the root. */
  lemma {:induction false} EveryParseKeepsTheTree(ts: seq<Token>)
    ensures !Parse(ts).Crashed?
    ensures WellFormed(Parse(ts).ctx.s)
    ensures Parse(ts).Parsed? ==> Complete(Parse(ts).ctx.s) && Parse(ts).ctx.parent == Some(0)
  {
    SettingsKeep(EMPTY, ts);
  }
}
