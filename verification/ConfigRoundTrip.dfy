/** Writing a tree of settings and reading the text back rebuilds the tree. */
module ConfigRoundTrip {
  import opened Text
  import opened ConfigValue
  import opened ConfigTree
  import opened ConfigGrammar
  import opened ConfigSyntax
  import opened ConfigWriter
  import opened ConfigLexer

  // ----- names that the scanner reads as names -----

  predicate NoBooleanNames(v: Value)
    decreases v, 0
  {
    match v
    case VList(elems) => forall i | 0 <= i < |elems| :: NoBooleanNames(elems[i])
    case VGroup(members) => NamesAreNames(members)
    case _ => true
  }

  /** No setting in the tree is called `true` or `false`, in any case. */
  predicate NamesAreNames(members: seq<Member>)
    decreases members, 1
  {
    forall i | 0 <= i < |members| :: !IsBooleanWord(members[i].name) && NoBooleanNames(members[i].value)
  }

  // ----- the writer's tokens are a spelling of the tree -----

  /** How the writer spells a value: a string is one literal, and every setting ends in a semicolon. */
  function Plain(v: Value): Item
    decreases v, 0
  {
    match v
    case VString(s) => Literals([s])
    case VArray(elems) => Vector(Array, PlainRow(elems))
    case VList(elems) => Vector(List, PlainRow(elems))
    case VGroup(members) => Fields(PlainFields(members))
    case _ => One(ScalarToken(v))
  }

  function PlainRow(elems: seq<Value>): (r: seq<Item>)
    ensures |r| == |elems| && forall i | 0 <= i < |r| :: r[i] == Plain(elems[i])
    decreases elems, 1
  {
    if elems == [] then [] else [Plain(elems[0])] + PlainRow(elems[1..])
  }

  function PlainFields(members: seq<Member>): (r: seq<Field>)
    ensures |r| == |members|
    ensures forall i | 0 <= i < |r| :: r[i] == Field(members[i].name, Plain(members[i].value), SemicolonEnd)
    decreases members, 1
  {
    if members == [] then []
    else [Field(members[0].name, Plain(members[0].value), SemicolonEnd)] + PlainFields(members[1..])
  }

  lemma {:induction false} PlainScalar(v: Value)
    requires IsScalar(v) && ScalarFits(v)
    ensures ItemTokens(Plain(v)) == [ScalarToken(v)] && SimpleItem(Plain(v)) && Meaning(Plain(v)) == v
  {
    match v
    case VString(s) =>
      assert [s][1..] == [] && Concat([s]) == s + Concat([]) && s + "" == s;
      assert LiteralTokens([s]) == [TString(s)] + LiteralTokens([]);
    case VInt(_, hex) => if hex {}
    case VInt64(_, hex) => if hex {}
    case _ =>
  }

  lemma {:induction false} PlainIsTheTree(v: Value)
    requires Writable(v)
    ensures Good(Plain(v)) && Meaning(Plain(v)) == v
    ensures NoBooleanNames(v) ==> ItemTokens(Plain(v)) == TokensOf(v)
    decreases v, 0
  {
    match v
    case VArray(elems) =>
      forall i | 0 <= i < |elems| ensures SimpleItem(Plain(elems[i])) {
        PlainScalar(elems[i]);
      }
      PlainRowIsTheRow(elems);
    case VList(elems) => PlainRowIsTheRow(elems);
    case VGroup(members) => PlainFieldsAreTheMembers(members);
    case _ => PlainScalar(v);
  }

  lemma {:induction false} PlainRowIsTheRow(elems: seq<Value>)
    requires forall i | 0 <= i < |elems| :: Writable(elems[i])
    ensures (forall i | 0 <= i < |elems| :: Good(Plain(elems[i]))) && Meanings(PlainRow(elems)) == elems
    ensures (forall i | 0 <= i < |elems| :: NoBooleanNames(elems[i])) ==>
              RowTokens(PlainRow(elems)) == ElemTokens(elems)
    decreases elems, 1
  {
    if elems != [] {
      PlainIsTheTree(elems[0]);
      PlainRowIsTheRow(elems[1..]);
      assert PlainRow(elems)[1..] == PlainRow(elems[1..]);
      forall i | 0 <= i < |elems| ensures Good(Plain(elems[i])) && Meaning(Plain(elems[i])) == elems[i] {
        PlainIsTheTree(elems[i]);
      }
    }
  }

  lemma {:induction false} PlainFieldsAreTheMembers(members: seq<Member>)
    requires WritableMembers(members)
    ensures GoodFields(PlainFields(members)) && FieldMeanings(PlainFields(members)) == members
    ensures NamesAreNames(members) ==> FieldTokens(PlainFields(members)) == MemberTokens(members)
    decreases members, 1
  {
    if members != [] {
      PlainIsTheTree(members[0].value);
      PlainFieldsAreTheMembers(members[1..]);
      assert PlainFields(members)[1..] == PlainFields(members[1..]);
      forall i | 0 <= i < |members|
        ensures Good(Plain(members[i].value)) && Meaning(Plain(members[i].value)) == members[i].value
      {
        PlainIsTheTree(members[i].value);
      }
    }
  }

  /** Reading the tokens of a tree rebuilds it. */
  lemma {:induction false} TokensRebuildTheTree(members: seq<Member>)
    requires WritableMembers(members) && NamesAreNames(members)
    ensures var o := Parse(MemberTokens(members));
            o.Parsed? && WellFormed(o.ctx.s) && ValueAt(o.ctx.s, 0) == VGroup(members)
  {
    PlainFieldsAreTheMembers(members);
    SpellingsAreRead(PlainFields(members));
  }

  // ----- a boolean name is a syntax error -----

  /** Before each equals sign there is a name. */
  ghost predicate NamedEquals(ts: seq<Token>) {
    forall i | 0 <= i < |ts| && ts[i] == TEquals :: i > 0 && ts[i - 1].TName?
  }

  lemma {:induction false} NamedEqualsJoin(a: seq<Token>, b: seq<Token>)
    requires NamedEquals(a) && NamedEquals(b)
    ensures NamedEquals(a + b)
  {
  }

  lemma {:induction false} ItemsNameEquals(x: Item)
    requires Good(x)
    ensures NamedEquals(ItemTokens(x))
    decreases x, 0
  {
    match x
    case One(_) =>
    case Literals(pieces) => LiteralsNameNothing(pieces);
    case Vector(shape, items) =>
      forall i | 0 <= i < |items| ensures Good(items[i]) {
        assert shape == Array ==> SimpleItem(items[i]);
      }
      RowsNameEquals(items);
    case Fields(fields) => FieldsNameEquals(fields);
  }

  lemma {:induction false} LiteralsNameNothing(pieces: seq<string>)
    ensures NamedEquals(LiteralTokens(pieces))
  {
    if pieces != [] {
      LiteralsNameNothing(pieces[1..]);
    }
  }

  lemma {:induction false} RowsNameEquals(items: seq<Item>)
    requires forall i | 0 <= i < |items| :: Good(items[i])
    ensures NamedEquals(RowTokens(items))
    decreases items, 1
  {
    if items != [] {
      ItemsNameEquals(items[0]);
      RowsNameEquals(items[1..]);
      NamedEqualsJoin(ItemTokens(items[0]), if |items| > 1 then [TComma] else []);
    }
  }

  lemma {:induction false} FieldsNameEquals(fields: seq<Field>)
    requires GoodFields(fields)
    ensures NamedEquals(FieldTokens(fields))
    decreases fields, 1
  {
    if fields != [] {
      var f := fields[0];
      ItemsNameEquals(f.item);
      FieldsNameEquals(fields[1..]);
      NamedEqualsJoin([TName(f.name), TEquals], ItemTokens(f.item));
      NamedEqualsJoin([TName(f.name), TEquals] + ItemTokens(f.item), EndTokens(f.end));
    }
  }

  /** Somewhere an equals sign comes after something that is not a name. */
  ghost predicate NamelessEquals(ts: seq<Token>) {
    exists i | 0 < i < |ts| :: ts[i] == TEquals && !ts[i - 1].TName?
  }

  lemma {:induction false} NamelessInside(a: seq<Token>, b: seq<Token>, c: seq<Token>)
    requires NamelessEquals(b)
    ensures NamelessEquals(a + b + c)
  {
    var i :| 0 < i < |b| && b[i] == TEquals && !b[i - 1].TName?;
    var ts := a + b + c;
    assert ts[|a| + i] == b[i] && ts[|a| + i - 1] == b[i - 1];
  }

  lemma {:induction false} BooleanNameInValue(v: Value)
    requires !NoBooleanNames(v)
    ensures NamelessEquals(TokensOf(v))
    decreases v, 0
  {
    match v
    case VList(elems) =>
      BooleanNameInRow(elems);
      NamelessInside([TListStart], ElemTokens(elems), [TListEnd]);
    case VGroup(members) =>
      BooleanNameInMembers(members);
      NamelessInside([TGroupStart], MemberTokens(members), [TGroupEnd]);
    case _ =>
  }

  lemma {:induction false} BooleanNameInRow(elems: seq<Value>)
    requires exists k :: 0 <= k < |elems| && !NoBooleanNames(elems[k])
    ensures NamelessEquals(ElemTokens(elems))
    decreases elems, 1
  {
    var t, comma, more := TokensOf(elems[0]), if |elems| > 1 then [TComma] else [], ElemTokens(elems[1..]);
    if NoBooleanNames(elems[0]) {
      var k :| 0 <= k < |elems| && !NoBooleanNames(elems[k]);
      assert elems[1..][k - 1] == elems[k];
      BooleanNameInRow(elems[1..]);
      NamelessInside(t + comma, more, []);
      assert t + comma + more + [] == ElemTokens(elems);
    } else {
      BooleanNameInValue(elems[0]);
      NamelessInside([], t, comma + more);
      assert [] + t + (comma + more) == ElemTokens(elems);
    }
  }

  lemma {:induction false} BooleanNameInMembers(members: seq<Member>)
    requires !NamesAreNames(members)
    ensures NamelessEquals(MemberTokens(members))
    decreases members, 1
  {
    var m := members[0];
    var head, t, more := [NameToken(m.name), TEquals], TokensOf(m.value), MemberTokens(members[1..]);
    if IsBooleanWord(m.name) {
      assert head[1] == TEquals && !head[0].TName?;
      NamelessInside([], head, t + [TSemicolon] + more);
      assert [] + head + (t + [TSemicolon] + more) == MemberTokens(members);
    } else if !NoBooleanNames(m.value) {
      BooleanNameInValue(m.value);
      NamelessInside(head, t, [TSemicolon] + more);
      assert head + t + ([TSemicolon] + more) == MemberTokens(members);
    } else {
      BooleanNameInMembers(members[1..]);
      NamelessInside(head + t + [TSemicolon], more, []);
      assert head + t + [TSemicolon] + more + [] == MemberTokens(members);
    }
  }

  lemma {:induction false} BooleanNamesAreNotRead(members: seq<Member>)
    requires !NamesAreNames(members)
    ensures !Parse(MemberTokens(members)).Parsed?
  {
    var ts := MemberTokens(members);
    BooleanNameInMembers(members);
    ParsesExactlyWhen(ts);
    if Parse(ts).Parsed? {
      var fields :| GoodFields(fields) && ts == FieldTokens(fields);
      FieldsNameEquals(fields);
    }
  }

  // ----- the round trip -----

  /** Writing a tree, with any indentation, and reading the text back rebuilds the same tree (names, order, types,
      values and number formats) exactly when no setting is called `true` or `false`; otherwise reading fails. */
  lemma {:induction false} ConfigRoundTripsExactlyWhen(members: seq<Member>, width: nat)
    requires WritableMembers(members)
    ensures var o := Parse(Lex(WriteConfig(members, width)));
            && (o.Parsed? <==> NamesAreNames(members))
            && (o.Parsed? ==> WellFormed(o.ctx.s) && ValueAt(o.ctx.s, 0) == VGroup(members))
  {
    WrittenTextIsRead(members, width);
    if NamesAreNames(members) {
      TokensRebuildTheTree(members);
    } else {
      BooleanNamesAreNotRead(members);
    }
  }

  // ----- starting from a store -----

  /** A store whose values can be written without loss: no floats, integers of their width, strings without NUL. */
  ghost predicate ScalarsFit(s: Store) {
    forall id | 0 <= id < |s| :: s[id].content.Scalar? ==> ScalarFits(s[id].content.value)
  }

  lemma {:induction false} TreeIsWritable(s: Store, id: nat)
    requires WellFormed(s) && Complete(s) && ScalarsFit(s) && id < |s|
    ensures Writable(ValueAt(s, id))
    decreases |s| - id
  {
    assert GoodNode(s, id);
    if s[id].content.Aggregate? {
      var shape, cs := s[id].content.shape, s[id].content.children;
      forall k | 0 <= k < |cs|
        ensures id < cs[k] < |s| && Writable(ValueAt(s, cs[k]))
        ensures shape == Group ==> s[cs[k]].name == Some(NameAt(s, cs[k])) && ValidName(NameAt(s, cs[k]))
        ensures shape == Array ==> s[cs[k]].content.Scalar?
      {
        assert GoodChild(s, id, shape, cs[k]);
        TreeIsWritable(s, cs[k]);
      }
    }
  }

  /** For every well-formed store: the text written for it is read back as a store with the same tree, exactly when
      no setting is called `true` or `false`. */
  lemma {:induction false} StoreRoundTrips(s: Store, width: nat)
    requires WellFormed(s) && Complete(s) && ScalarsFit(s)
    ensures ValueAt(s, 0).VGroup?
    ensures var o := Parse(Lex(WriteConfig(ValueAt(s, 0).members, width)));
            && (o.Parsed? <==> NoBooleanNames(ValueAt(s, 0)))
            && (o.Parsed? ==> WellFormed(o.ctx.s) && ValueAt(o.ctx.s, 0) == ValueAt(s, 0))
  {
    assert Held(s, 0);
    TreeIsWritable(s, 0);
    ConfigRoundTripsExactlyWhen(ValueAt(s, 0).members, width);
  }
}
