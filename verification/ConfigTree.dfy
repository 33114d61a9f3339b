/** The setting tree of libconfig. A setting is an index into a store; the semantic actions of the grammar
    add settings and fill them in. */
module ConfigTree {
  import opened Text
  import opened ConfigValue

  datatype Shape = Array | List | Group

  datatype Content =
    | Unset
    | Scalar(value: Value)
    | Aggregate(shape: Shape, children: seq<nat>)

  datatype Node = Node(name: Option<string>, content: Content, parent: Option<nat>)

  type Store = seq<Node>

  const ROOT: Node := Node(None, Aggregate(Group, []), None)

  // ----- comparing names -----

  predicate EndsName(s: string) { s == "" || s[0] == ':' || s[0] == '.' || s[0] == '/' }

  /** `__config_name_compare`: only what comes before the first path separator counts. */
  function NameCompare(a: string, b: string): int {
    if EndsName(a) && EndsName(b) then 0
    else if EndsName(a) then -1
    else if EndsName(b) then 1
    else if a[0] < b[0] then -1
    else if a[0] > b[0] then 1
    else NameCompare(a[1..], b[1..])
  }

  predicate NoSeparator(s: string) { forall i | 0 <= i < |s| :: s[i] != ':' && s[i] != '.' && s[i] != '/' }

  lemma {:induction false} ValidNameHasNoSeparator(s: string)
    requires ValidName(s)
    ensures NoSeparator(s)
  {
    forall i | 0 <= i < |s| ensures s[i] != ':' && s[i] != '.' && s[i] != '/' {
      assert i == 0 || IsNameChar(s[i]);
    }
  }

  lemma {:induction false} CompareIsEquality(a: string, b: string)
    requires NoSeparator(a) && NoSeparator(b)
    ensures NameCompare(a, b) == 0 <==> a == b
  {
    if a != "" && b != "" && a[0] == b[0] {
      CompareIsEquality(a[1..], b[1..]);
      assert a == [a[0]] + a[1..] && b == [b[0]] + b[1..];
    }
  }

  /** On valid names the comparison is zero exactly on equality. */
  lemma {:induction false} ValidNamesCompare(a: string, b: string)
    requires ValidName(a) && ValidName(b)
    ensures NameCompare(a, b) == 0 <==> a == b
  {
    ValidNameHasNoSeparator(a);
    ValidNameHasNoSeparator(b);
    CompareIsEquality(a, b);
  }

  // ----- looking at the store -----

  predicate Valid(s: Store, id: nat) { id < |s| }

  predicate IsAggregate(s: Store, id: nat) { id < |s| && s[id].content.Aggregate? }

  predicate HasShape(s: Store, id: nat, shape: Shape) { IsAggregate(s, id) && s[id].content.shape == shape }

  /** The position, among `children` from `k` on, of the first named `name`. */
  function SearchFrom(s: Store, children: seq<nat>, name: string, k: nat): (r: nat)
    requires k <= |children|
    ensures k <= r <= |children|
    decreases |children| - k
  {
    if k == |children| then k
    else
      var c := children[k];
      if c < |s| && s[c].name.Some? && NameCompare(name, s[c].name.value) == 0 then k
      else SearchFrom(s, children, name, k + 1)
  }

  /** `config_setting_get_member` */
  function GetMember(s: Store, id: nat, name: string): Option<nat> {
    if !HasShape(s, id, Group) then None
    else
      var cs := s[id].content.children;
      var k := SearchFrom(s, cs, name, 0);
      if k == |cs| then None else Some(cs[k])
  }

  /** `config_setting_get_elem` */
  function GetElem(s: Store, id: nat, k: nat): Option<nat> {
    if IsAggregate(s, id) && k < |s[id].content.children| then Some(s[id].content.children[k]) else None
  }

  // ----- changing the store -----

  /** `config_setting_create` on an aggregate */
  function Create(s: Store, p: nat, name: Option<string>, content: Content): Store
    requires IsAggregate(s, p)
  {
    var node := s[p];
    s[p := node.(content := node.content.(children := node.content.children + [|s|]))] + [Node(name, content, Some(p))]
  }

  /** `config_setting_add`; the new setting, when there is one, is the last of the store. */
  function Add(s: Store, p: nat, name: Option<string>, content: Content): Option<Store> {
    var n := if HasShape(s, p, Array) || HasShape(s, p, List) then None else name;
    if n.Some? && !ValidName(n.value) then None
    else if n.Some? && GetMember(s, p, n.value).Some? then None
    else if !IsAggregate(s, p) then None
    else Some(Create(s, p, n, content))
  }

  /** `__config_vector_checktype` */
  predicate CheckType(s: Store, p: nat, v: Value)
    requires IsAggregate(s, p)
  {
    var cs := s[p].content.children;
    cs == [] || s[p].content.shape == List
    || (cs[0] < |s| && s[cs[0]].content.Scalar? && SameKind(s[cs[0]].content.value, v))
  }

  /** `config_setting_set_*_elem` with index -1 */
  function Append(s: Store, p: nat, v: Value): Option<Store> {
    if !(HasShape(s, p, Array) || HasShape(s, p, List)) then None
    else if !CheckType(s, p, v) then None
    else Some(Create(s, p, None, Scalar(v)))
  }

  /** `config_setting_set_*` on a setting that already has a content. An integer keeps its type; nothing else
      is converted, since automatic conversion is off. */
  function SetContent(c: Content, v: Value): Content {
    match c
    case Unset => Scalar(v)
    case Scalar(w) =>
      if SameKind(w, v) then Scalar(v)
      else if w.VInt? && v.VInt64? then Scalar(VInt(if FitsInt32(v.ll) then v.ll else 0, v.hex))
      else c
    case Aggregate(_, _) => c
  }

  /** A setting that has a scalar keeps its type: a value of another type changes nothing, except that an integer takes
      a 64-bit number, or 0 where that does not fit. */
  lemma {:induction false} SettingKeepsItsType(w: Value, v: Value)
    requires IsScalar(w) && IsScalar(v)
    ensures var c := SetContent(Scalar(w), v);
            && c.Scalar? && SameKind(c.value, w)
            && (SameKind(w, v) ==> c.value == v)
            && (w.VInt? && v.VInt64? ==> c.value.i == if -0x8000_0000 <= v.ll < 0x8000_0000 then v.ll else 0)
            && (!SameKind(w, v) && !(w.VInt? && v.VInt64?) ==> c.value == w)
  {
  }

  // ----- what a store must look like -----

  ghost predicate GoodChild(s: Store, p: nat, shape: Shape, c: nat) {
    && p < c < |s|
    && s[c].parent == Some(p)
    && (shape == Group ==> s[c].name.Some? && ValidName(s[c].name.value))
    && (shape != Group ==> s[c].name == None)
    && (shape == Array ==> s[c].content.Scalar? && IsScalar(s[c].content.value))
  }

  ghost predicate GoodChildren(s: Store, p: nat, shape: Shape, cs: seq<nat>) {
    && (forall k | 0 <= k < |cs| :: GoodChild(s, p, shape, cs[k]))
    && (forall j, k | 0 <= j < k < |cs| :: cs[j] < cs[k])
    && (shape == Group ==> forall j, k | 0 <= j < k < |cs| :: s[cs[j]].name != s[cs[k]].name)
    && (shape == Array ==> forall k | 0 <= k < |cs| :: SameKind(s[cs[0]].content.value, s[cs[k]].content.value))
  }

  ghost predicate GoodNode(s: Store, id: nat)
    requires id < |s|
  {
    && (s[id].content.Scalar? ==> IsScalar(s[id].content.value))
    && (s[id].content.Aggregate? ==> GoodChildren(s, id, s[id].content.shape, s[id].content.children))
  }

  ghost predicate Held(s: Store, id: nat)
    requires id < |s|
  {
    if id == 0 then s[id].parent == None && s[id].name == None && HasShape(s, 0, Group)
    else
      && s[id].parent.Some?
      && IsAggregate(s, s[id].parent.value)
      && id in s[s[id].parent.value].content.children
  }

  /** The invariants of the tree: every setting but the root is held by its parent exactly once, members of a
      group have distinct valid names, and an array holds scalars of one type. */
  ghost predicate WellFormed(s: Store) {
    && |s| > 0
    && (forall id | 0 <= id < |s| :: GoodNode(s, id))
    && (forall id | 0 <= id < |s| :: Held(s, id))
  }

  lemma {:induction false} HeldOnce(s: Store, id: nat)
    requires WellFormed(s) && 0 < id < |s|
    ensures var p := s[id].parent;
            && p.Some? && IsAggregate(s, p.value)
            && multiset(s[p.value].content.children)[id] == 1
  {
    assert Held(s, id);
    var p := s[id].parent.value;
    assert GoodNode(s, p);
    IncreasingHoldsOnce(s[p].content.children, id);
  }

  lemma {:induction false} IncreasingHoldsOnce(cs: seq<nat>, c: nat)
    requires c in cs && forall j, k | 0 <= j < k < |cs| :: cs[j] < cs[k]
    ensures multiset(cs)[c] == 1
  {
    var k :| 0 <= k < |cs| && cs[k] == c;
    assert cs == cs[..k] + [c] + cs[k + 1..];
    assert c !in cs[..k] && c !in cs[k + 1..];
  }

  // ----- adding a setting keeps the invariants -----

  /** What `Create` needs to keep the invariants. */
  ghost predicate MayCreate(s: Store, p: nat, name: Option<string>, content: Content)
    requires IsAggregate(s, p)
  {
    var shape, cs := s[p].content.shape, s[p].content.children;
    && (content.Scalar? ==> IsScalar(content.value))
    && (content.Aggregate? ==> content.children == [])
    && (shape == Group ==> name.Some? && ValidName(name.value))
    && (shape == Group ==> forall k | 0 <= k < |cs| :: cs[k] < |s| ==> s[cs[k]].name != name)
    && (shape != Group ==> name == None)
    && (shape == Array ==> content.Scalar? && CheckType(s, p, content.value))
  }

  lemma {:induction false} OthersKept(s: Store, p: nat, name: Option<string>, content: Content, id: nat)
    requires WellFormed(s) && IsAggregate(s, p) && id < |s| && id != p
    ensures GoodNode(Create(s, p, name, content), id)
  {
    var t := Create(s, p, name, content);
    assert GoodNode(s, id) && t[id] == s[id];
    if s[id].content.Aggregate? {
      var cs := s[id].content.children;
      forall k | 0 <= k < |cs| ensures GoodChild(t, id, s[id].content.shape, cs[k]) {
        assert GoodChild(s, id, s[id].content.shape, cs[k]);
        assert cs[k] != p ==> t[cs[k]] == s[cs[k]];
      }
    }
  }

  lemma {:induction false} ParentKept(s: Store, p: nat, name: Option<string>, content: Content)
    requires WellFormed(s) && IsAggregate(s, p) && MayCreate(s, p, name, content)
    ensures GoodNode(Create(s, p, name, content), p)
  {
    var t := Create(s, p, name, content);
    var shape, cs := s[p].content.shape, s[p].content.children;
    assert GoodNode(s, p);
    var ds := cs + [|s|];
    assert t[p].content == Aggregate(shape, ds);
    forall k | 0 <= k < |cs| ensures ds[k] == cs[k] && t[cs[k]] == s[cs[k]] && cs[k] < |s| {
      assert GoodChild(s, p, shape, cs[k]);
    }
    forall k | 0 <= k < |ds| ensures GoodChild(t, p, shape, ds[k]) {
      assert k < |cs| ==> GoodChild(s, p, shape, cs[k]);
    }
  }

  lemma {:induction false} CreateKeeps(s: Store, p: nat, name: Option<string>, content: Content)
    requires WellFormed(s) && IsAggregate(s, p) && MayCreate(s, p, name, content)
    ensures WellFormed(Create(s, p, name, content))
  {
    var t := Create(s, p, name, content);
    forall id | 0 <= id < |t| ensures GoodNode(t, id) {
      if id == p {
        ParentKept(s, p, name, content);
      } else if id < |s| {
        OthersKept(s, p, name, content, id);
      }
    }
    var ds := t[p].content.children;
    assert ds[|ds| - 1] == |s|;
    forall id | 0 <= id < |t| ensures Held(t, id) {
      if id < |s| {
        assert Held(s, id);
      }
    }
  }

  // ----- giving a value to a setting keeps the invariants -----

  lemma {:induction false} FillKeeps(s: Store, id: nat, content: Content)
    requires WellFormed(s) && id < |s| && s[id].content == Unset
    requires content.Scalar? ==> IsScalar(content.value)
    requires content.Aggregate? ==> content.children == []
    ensures WellFormed(s[id := s[id].(content := content)])
  {
    var t := s[id := s[id].(content := content)];
    forall i | 0 <= i < |t| ensures GoodNode(t, i) && Held(t, i) {
      assert GoodNode(s, i) && Held(s, i);
      if i != id && s[i].content.Aggregate? {
        var shape, cs := s[i].content.shape, s[i].content.children;
        forall k | 0 <= k < |cs| ensures GoodChild(t, i, shape, cs[k]) {
          assert GoodChild(s, i, shape, cs[k]);
        }
      }
    }
  }

  // ----- the members of a well-formed group -----

  lemma {:induction false} SearchIsFirst(s: Store, cs: seq<nat>, name: string, k: nat)
    requires k <= |cs|
    ensures var r := SearchFrom(s, cs, name, k);
            && (r < |cs| ==> cs[r] < |s| && s[cs[r]].name.Some? && NameCompare(name, s[cs[r]].name.value) == 0)
            && forall j | k <= j < r :: cs[j] < |s| && s[cs[j]].name.Some? ==>
                                        NameCompare(name, s[cs[j]].name.value) != 0
    decreases |cs| - k
  {
    if k < |cs| {
      SearchIsFirst(s, cs, name, k + 1);
    }
  }

  /** A member that is not found has a new name. */
  lemma {:induction false} NotFoundIsNew(s: Store, p: nat, name: string)
    requires WellFormed(s) && HasShape(s, p, Group) && ValidName(name)
    ensures GetMember(s, p, name).None? <==>
            forall k | 0 <= k < |s[p].content.children| ::
              s[p].content.children[k] < |s| ==> s[s[p].content.children[k]].name != Some(name)
  {
    var cs := s[p].content.children;
    assert GoodNode(s, p);
    SearchIsFirst(s, cs, name, 0);
    forall k | 0 <= k < |cs|
      ensures cs[k] < |s| && s[cs[k]].name.Some?
      ensures NameCompare(name, s[cs[k]].name.value) == 0 <==> s[cs[k]].name == Some(name)
    {
      assert GoodChild(s, p, Group, cs[k]);
      ValidNamesCompare(name, s[cs[k]].name.value);
    }
  }

  /** In a well-formed group a name finds exactly the member that has it. */
  lemma {:induction false} MemberIsFound(s: Store, p: nat, k: nat)
    requires WellFormed(s) && HasShape(s, p, Group) && k < |s[p].content.children|
    ensures var c := s[p].content.children[k];
            c < |s| && s[c].name.Some? && GetMember(s, p, s[c].name.value) == Some(c)
  {
    var cs := s[p].content.children;
    assert GoodNode(s, p) && GoodChild(s, p, Group, cs[k]);
    var name := s[cs[k]].name.value;
    NotFoundIsNew(s, p, name);
    SearchIsFirst(s, cs, name, 0);
    var r := SearchFrom(s, cs, name, 0);
    assert r < |cs|;
    assert GoodChild(s, p, Group, cs[r]);
    ValidNamesCompare(name, s[cs[r]].name.value);
  }

  // ----- the value a setting stands for -----

  function ValueAt(s: Store, id: nat): Value
    requires id < |s|
    decreases |s| - id, 0
  {
    match s[id].content
    case Unset => VNone
    case Scalar(v) => v
    case Aggregate(Array, cs) => VArray(ValuesAt(s, id, cs))
    case Aggregate(List, cs) => VList(ValuesAt(s, id, cs))
    case Aggregate(Group, cs) => VGroup(MembersAt(s, id, cs))
  }

  function ChildAt(s: Store, id: nat, c: nat): Value
    requires id < |s|
    decreases |s| - id, 0, 0
  {
    if id < c < |s| then ValueAt(s, c) else VNone
  }

  function ValuesAt(s: Store, id: nat, cs: seq<nat>): (vs: seq<Value>)
    requires id < |s|
    ensures |vs| == |cs|
    ensures forall k | 0 <= k < |cs| :: vs[k] == ChildAt(s, id, cs[k])
    decreases |s| - id, 0, 1, |cs|
  {
    if cs == [] then [] else ValuesAt(s, id, cs[..|cs| - 1]) + [ChildAt(s, id, cs[|cs| - 1])]
  }

  function NameAt(s: Store, c: nat): string { if c < |s| && s[c].name.Some? then s[c].name.value else "" }

  function MembersAt(s: Store, id: nat, cs: seq<nat>): (ms: seq<Member>)
    requires id < |s|
    ensures |ms| == |cs|
    ensures forall k | 0 <= k < |cs| :: ms[k] == Member(NameAt(s, cs[k]), ChildAt(s, id, cs[k]))
    decreases |s| - id, 0, 1, |cs|
  {
    if cs == [] then []
    else MembersAt(s, id, cs[..|cs| - 1]) + [Member(NameAt(s, cs[|cs| - 1]), ChildAt(s, id, cs[|cs| - 1]))]
  }
}
