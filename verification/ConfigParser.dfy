/** The parser of libconfig as it runs: a parse context whose `parent`, `setting` and tree the semantic actions
    update while tokens are taken from the scanner. */
module ConfigParser {
  import opened Text
  import opened ConfigValue
  import opened ConfigTree
  import G = ConfigGrammar
  import L = ConfigLexer
  import S = ConfigScanner

  class ParseContext {
    var nodes: Store
    var parent: Option<nat>
    var setting: Option<nat>
    var input: seq<Token>

    constructor (tokens: seq<Token>)
      ensures State() == G.EMPTY && input == tokens
    {
      nodes := [ROOT];
      parent := Some(0);
      setting := Some(0);
      input := tokens;
    }

    function State(): G.Context
      reads this
    {
      G.Context(nodes, parent, setting)
    }

    ghost function Outcome(ok: bool): G.Outcome
      reads this
    {
      if ok then G.Parsed(State(), input) else G.Failed(State())
    }

    // ----- semantic actions -----

    /** `config_setting_create` */
    method Create(p: nat, name: Option<string>, content: Content)
      requires IsAggregate(nodes, p)
      modifies this`nodes
      ensures nodes == ConfigTree.Create(old(nodes), p, name, content)
    {
      var id := |nodes|;
      var list := nodes[p].content.children + [id];
      nodes := nodes[p := nodes[p].(content := nodes[p].content.(children := list))];
      nodes := nodes + [Node(name, content, Some(p))];
    }

    method NameSetting(name: string) returns (ok: bool)
      requires G.Idle(State()) && G.InShape(State(), Group)
      modifies this`nodes, this`setting
      ensures G.NameSetting(old(State()), name) == if ok then G.Go(State()) else G.Abort
      ensures !ok ==> State() == old(State())
    {
      ok := ValidName(name) && GetMember(nodes, parent.value, name).None?;
      if ok {
        setting := Some(|nodes|);
        Create(parent.value, Some(name), Unset);
      }
    }

    method StartAggregate(shape: Shape)
      requires G.Expecting(State()) && !G.InShape(State(), Array)
      modifies this`nodes, this`parent, this`setting
      ensures G.StartAggregate(old(State()), shape) == G.Go(State())
    {
      if HasShape(nodes, parent.value, List) {
        var id := |nodes|;
        Create(parent.value, None, Aggregate(shape, []));
        parent := Some(id);
      } else {
        var id := setting.value;
        nodes := nodes[id := nodes[id].(content := Aggregate(shape, []))];
        parent := Some(id);
        setting := None;
      }
    }

    method EndAggregate()
      requires parent.Some? && parent.value < |nodes|
      modifies this`parent
      ensures G.EndAggregate(old(State())) == G.Go(State())
    {
      parent := nodes[parent.value].parent;
    }

    method SetValue(v: Value) returns (ok: bool)
      requires G.Expecting(State())
      modifies this`nodes
      ensures G.SetValue(old(State()), v) == if ok then G.Go(State()) else G.Abort
      ensures !ok ==> State() == old(State())
    {
      ok := true;
      if HasShape(nodes, parent.value, Array) || HasShape(nodes, parent.value, List) {
        if CheckType(nodes, parent.value, v) {
          Create(parent.value, None, Scalar(v));
        } else {
          ok := false;
        }
      } else {
        var id := setting.value;
        nodes := nodes[id := nodes[id].(content := SetContent(nodes[id].content, v))];
      }
    }

    // ----- rules -----

    /** Takes the string literals at the head of the input into one buffer. */
    method JoinStrings() returns (text: string)
      modifies this`input
      ensures (text, input) == G.JoinStrings(old(input))
    {
      text := "";
      ghost var whole := G.JoinStrings(input);
      assert "" + whole.0 == whole.0;
      while input != [] && input[0].TString?
        modifies this`input
        invariant |input| <= |old(input)|
        invariant (text + G.JoinStrings(input).0, G.JoinStrings(input).1) == whole
        decreases |input|
      {
        ghost var more := G.JoinStrings(input[1..]).0;
        assert (text + input[0].s) + more == text + (input[0].s + more);
        text := text + input[0].s;
        input := input[1..];
      }
      assert text + "" == text;
    }

    method ParseSimple() returns (ok: bool)
      requires G.Expecting(State())
      modifies this`nodes, this`input
      ensures Outcome(ok) == G.ParseSimple(old(State()), old(input))
    {
      ok := false;
      if input == [] || !G.IsSimple(input[0]) {
        return;
      }
      var v: Value;
      if input[0].TString? {
        var text := JoinStrings();
        v := VString(text);
      } else {
        v := G.SimpleValue(input).0;
        input := input[1..];
      }
      ghost var now := State();
      assert (v, input) == G.SimpleValue(old(input));
      G.ValueKeeps(now, v);
      ok := SetValue(v);
    }

    method ParseValue() returns (ok: bool)
      requires G.Expecting(State()) && !G.InShape(State(), Array)
      modifies this
      ensures Outcome(ok) == G.ParseValue(old(State()), old(input))
      decreases |input|, 0
    {
      ok := false;
      if input == [] {
        return;
      }
      match input[0]
      case TArrayStart => input := input[1..]; ok := ParseAggregate(Array);
      case TListStart => input := input[1..]; ok := ParseAggregate(List);
      case TGroupStart => input := input[1..]; ok := ParseAggregate(Group);
      case _ => ok := ParseSimple();
    }

    method ParseAggregate(shape: Shape) returns (ok: bool)
      requires G.Expecting(State()) && !G.InShape(State(), Array)
      modifies this
      ensures Outcome(ok) == G.ParseAggregate(old(State()), shape, old(input))
      decreases |input|, 3
    {
      G.StartingKeeps(State(), shape);
      StartAggregate(shape);
      ghost var c := State();
      G.BodyKeeps(c, shape, input);
      ok := ParseBody(shape);
      if ok && G.StartsWithToken(input, G.Closing(shape)) {
        input := input[1..];
        EndAggregate();
      } else {
        ok := false;
      }
    }

    method ParseBody(shape: Shape) returns (ok: bool)
      requires G.Idle(State()) && G.InShape(State(), shape)
      modifies this
      ensures Outcome(ok) == G.ParseBody(old(State()), shape, old(input))
      decreases |input|, 2
    {
      if shape == Group {
        ok := ParseSettings();
      } else if G.StartsWithToken(input, G.Closing(shape)) {
        ok := true;
      } else {
        ok := ParseElems(shape);
      }
    }

    method ParseElems(shape: Shape) returns (ok: bool)
      requires G.Idle(State()) && G.InShape(State(), shape) && shape != Group
      modifies this
      ensures Outcome(ok) == G.ParseElems(old(State()), shape, old(input))
      decreases |input|, 1
    {
      if shape == Array {
        G.SimpleKeeps(State(), input);
        ok := ParseSimple();
      } else {
        G.ParsingValueKeeps(State(), input);
        ok := ParseValue();
      }
      if ok && G.StartsWithToken(input, TComma) {
        input := input[1..];
        ok := ParseElems(shape);
      }
    }

    method ParseSettings() returns (ok: bool)
      requires G.Idle(State()) && G.InShape(State(), Group)
      modifies this
      ensures Outcome(ok) == G.ParseSettings(old(State()), old(input))
      decreases |input|, 1
    {
      if input == [] || !input[0].TName? {
        return true;
      }
      G.NamingKeeps(State(), input[0].name);
      ok := NameSetting(input[0].name);
      if !ok {
        return;
      }
      if !G.StartsWithToken(input[1..], TEquals) {
        return false;
      }
      input := input[2..];
      G.ParsingValueKeeps(State(), input);
      ok := ParseValue();
      if ok {
        input := G.SkipTerminator(input);
        ok := ParseSettings();
      }
    }

    /** `yyparse`: never follows a null pointer, whatever the tokens. */
    method Parse() returns (ok: bool)
      requires State() == G.EMPTY
      modifies this
      ensures Outcome(ok) == G.Parse(old(input))
    {
      ok := ParseSettings();
      if ok && input != [] {
        ok := false;
      }
    }
  }

  /** A whole parse: whatever the tokens, the tree is well formed; on success every setting has a value. */
  method Read(tokens: seq<Token>) returns (ok: bool, s: Store)
    ensures WellFormed(s)
    ensures !G.Parse(tokens).Crashed? && s == G.Parse(tokens).ctx.s
    ensures ok <==> G.Parse(tokens).Parsed?
    ensures ok ==> G.Complete(s)
  {
    var ctx := new ParseContext(tokens);
    ok := ctx.Parse();
    s := ctx.nodes;
    G.EveryParseKeepsTheTree(tokens);
  }

  /** `config_read_string` */
  method ReadString(text: string) returns (ok: bool, s: Store)
    ensures WellFormed(s) && (ok ==> G.Complete(s))
    ensures var o := G.Parse(L.Lex(text)); !o.Crashed? && s == o.ctx.s && (ok <==> o.Parsed?)
  {
    var tokens := S.Scan(text);
    ok, s := Read(tokens);
  }
}
