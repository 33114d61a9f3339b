/** Path lookup over the setting tree. */
module ConfigLookup {
  import opened Text
  import opened Numerals
  import opened ConfigValue
  import opened ConfigTree

  // ----- the lookup -----

  function SkipSeparators(p: string): (q: string)
    ensures |q| <= |p| && (q != "" ==> !EndsName(q))
  {
    if p != "" && EndsName(p) then SkipSeparators(p[1..]) else p
  }

  function SkipSegment(p: string): (q: string)
    ensures |q| <= |p| && (!EndsName(p) ==> |q| < |p|) && EndsName(q)
  {
    if EndsName(p) then p else SkipSegment(p[1..])
  }

  function Digits(p: string): nat { ValueOf(p[..DigitRun(p, 10)], 10) }

  function Saturate(n: int): int {
    if n < -0x8000_0000_0000_0000 then -0x8000_0000_0000_0000
    else if n > 0x7fff_ffff_ffff_ffff then 0x7fff_ffff_ffff_ffff
    else n
  }

  /** `atoi`, and the conversion of its result to `unsigned int`. */
  function Index(p: string): (k: nat)
    ensures k < 0x1_0000_0000
  {
    var q := SkipSpaces(p);
    var n := if q != "" && q[0] == '-' then 0 - Digits(q[1..])
             else if q != "" && q[0] == '+' then Digits(q[1..])
             else Digits(q);
    Saturate(n) % 0x1_0000_0000
  }

  /** `config_lookup_from`. A path that ends in `[` finds the setting itself when there is no element 0. */
  function LookupFrom(s: Store, id: nat, path: string): Option<nat>
    decreases |path|
  {
    var p := SkipSeparators(path);
    if p == "" then Some(id)
    else
      var q := if p[0] == '[' then p[1..] else p;
      var found := if p[0] == '[' then GetElem(s, id, Index(q)) else GetMember(s, id, p);
      match found
      case Some(c) => LookupFrom(s, c, SkipSegment(q))
      case None => if q == "" then Some(id) else None
  }

  /** The cursor moves past path separators. */
  method PassSeparators(path: string, start: nat) returns (p: nat)
    requires start <= |path|
    ensures start <= p <= |path| && path[p..] == SkipSeparators(path[start..])
  {
    p := start;
    while p < |path| && EndsName(path[p..])
      invariant start <= p <= |path|
      invariant SkipSeparators(path[p..]) == SkipSeparators(path[start..])
    {
      assert path[p..][1..] == path[p + 1..];
      p := p + 1;
    }
  }

  /** The cursor moves to the next path separator. */
  method PassSegment(path: string, start: nat) returns (p: nat)
    requires start <= |path|
    ensures start <= p <= |path| && path[p..] == SkipSegment(path[start..])
  {
    p := start;
    while p < |path| && !EndsName(path[p..])
      invariant start <= p <= |path|
      invariant SkipSegment(path[p..]) == SkipSegment(path[start..])
    {
      assert path[p..][1..] == path[p + 1..];
      p := p + 1;
    }
  }

  /** The lookup as it runs, with a cursor into the path. */
  method Lookup(s: Store, start: nat, path: string) returns (r: Option<nat>)
    ensures r == LookupFrom(s, start, path)
  {
    var p := 0;
    var setting := start;
    assert path[0..] == path;
    while true
      invariant p <= |path|
      invariant LookupFrom(s, setting, path[p..]) == LookupFrom(s, start, path)
      decreases |path| - p
    {
      p := PassSeparators(path, p);
      if p == |path| {
        break;
      }
      var found;
      ghost var p1 := p;
      if path[p] == '[' {
        p := p + 1;
        assert path[p1..][1..] == path[p..];
        found := GetElem(s, setting, Index(path[p..]));
      } else {
        found := GetMember(s, setting, path[p..]);
      }
      if found.None? {
        break;
      }
      setting := found.value;
      p := PassSegment(path, p);
    }
    r := if p < |path| then None else Some(setting);
  }

  // ----- paths and what they mean -----

  /** One step down the tree: to a member by name, or to an element by position. */
  datatype Step = ByName(name: string) | ByIndex(k: nat)

  function StepTo(s: Store, id: nat, step: Step): Option<nat> {
    match step
    case ByName(name) => GetMember(s, id, name)
    case ByIndex(k) => GetElem(s, id, k)
  }

  function Follow(s: Store, id: nat, steps: seq<Step>): Option<nat>
    decreases steps
  {
    if steps == [] then Some(id)
    else
      match StepTo(s, id, steps[0])
      case Some(c) => Follow(s, c, steps[1..])
      case None => None
  }

  function StepText(step: Step): string {
    match step
    case ByName(name) => name
    case ByIndex(k) => "[" + Print(k, 10, true) + "]"
  }

  /** Steps joined by points. */
  function PathText(steps: seq<Step>): string {
    if steps == [] then ""
    else StepText(steps[0]) + (if |steps| == 1 then "" else "." + PathText(steps[1..]))
  }

  predicate Printable(step: Step) {
    match step
    case ByName(name) => ValidName(name)
    case ByIndex(k) => k < 0x8000_0000
  }

  lemma {:induction false} ComparePrefix(name: string, rest: string, other: string)
    requires NoSeparator(name) && EndsName(rest)
    ensures NameCompare(name + rest, other) == NameCompare(name, other)
  {
    if name == "" {
      assert name + rest == rest;
    } else {
      assert (name + rest)[1..] == name[1..] + rest;
      if !EndsName(other) && name[0] == other[0] {
        ComparePrefix(name[1..], rest, other[1..]);
      }
    }
  }

  lemma {:induction false} SearchPrefix(s: Store, cs: seq<nat>, name: string, rest: string, k: nat)
    requires NoSeparator(name) && EndsName(rest) && k <= |cs|
    ensures SearchFrom(s, cs, name + rest, k) == SearchFrom(s, cs, name, k)
    decreases |cs| - k
  {
    if k < |cs| {
      var c := cs[k];
      if c < |s| && s[c].name.Some? {
        ComparePrefix(name, rest, s[c].name.value);
      }
      SearchPrefix(s, cs, name, rest, k + 1);
    }
  }

  lemma {:induction false} MemberPrefix(s: Store, id: nat, name: string, rest: string)
    requires NoSeparator(name) && EndsName(rest)
    ensures GetMember(s, id, name + rest) == GetMember(s, id, name)
  {
    if HasShape(s, id, Group) {
      SearchPrefix(s, s[id].content.children, name, rest, 0);
    }
  }

  lemma {:induction false} SegmentSkipped(segment: string, rest: string)
    requires NoSeparator(segment) && EndsName(rest)
    ensures SkipSegment(segment + rest) == rest
  {
    if segment == "" {
      assert segment + rest == rest;
    } else {
      assert (segment + rest)[1..] == segment[1..] + rest;
      SegmentSkipped(segment[1..], rest);
    }
  }

  lemma {:induction false} IndexIsRead(k: nat, rest: string)
    requires k < 0x8000_0000
    ensures Index(Print(k, 10, true) + "]" + rest) == k
  {
    var d := Print(k, 10, true);
    var after := "]" + rest;
    var t := d + after;
    assert d + "]" + rest == t;
    assert IsDigit(d[0], 10) && t[0] == d[0];
    assert SkipSpaces(t) == t;
    DigitsThenRest(d, after, 10);
    assert t[..|d|] == d;
    PrintIsRead(k, 10, true);
  }

  lemma {:induction false} DigitsHaveNoSeparator(d: string)
    requires AllDigits(d, 10)
    ensures NoSeparator(d + "]")
  {
    forall i | 0 <= i < |d + "]"| ensures (d + "]")[i] != ':' && (d + "]")[i] != '.' && (d + "]")[i] != '/' {
      assert i < |d| ==> IsDigit(d[i], 10);
    }
  }

  /** One step of the lookup, with more path after it. */
  lemma {:induction false} OneStep(s: Store, id: nat, step: Step, rest: string)
    requires Printable(step) && EndsName(rest)
    ensures LookupFrom(s, id, StepText(step) + rest) ==
            match StepTo(s, id, step) case Some(c) => LookupFrom(s, c, rest) case None => None
  {
    var text := StepText(step) + rest;
    match step {
      case ByName(name) =>
        assert text[0] == name[0];
        ValidNameHasNoSeparator(name);
        MemberPrefix(s, id, name, rest);
        SegmentSkipped(name, rest);
        assert SkipSeparators(text) == text;
      case ByIndex(k) =>
        var d := Print(k, 10, true);
        var q := d + "]" + rest;
        assert text == "[" + q && text[1..] == q;
        IndexIsRead(k, rest);
        DigitsHaveNoSeparator(d);
        SegmentSkipped(d + "]", rest);
        assert SkipSeparators(text) == text;
    }
  }

  lemma {:induction false} SeparatorSkipped(s: Store, id: nat, text: string)
    ensures LookupFrom(s, id, "." + text) == LookupFrom(s, id, text)
  {
    assert ("." + text)[1..] == text;
    assert SkipSeparators("." + text) == SkipSeparators(text);
  }

  /** Looking up a printed path follows its steps: it finds what they lead to, and nothing when a step leads
      nowhere. */
  lemma {:induction false} LookupFollowsThePath(s: Store, id: nat, steps: seq<Step>)
    requires forall i | 0 <= i < |steps| :: Printable(steps[i])
    ensures LookupFrom(s, id, PathText(steps)) == Follow(s, id, steps)
    decreases steps
  {
    if steps != [] {
      var rest := if |steps| == 1 then "" else "." + PathText(steps[1..]);
      OneStep(s, id, steps[0], rest);
      if StepTo(s, id, steps[0]).Some? {
        var c := StepTo(s, id, steps[0]).value;
        LookupFollowsThePath(s, c, steps[1..]);
        if |steps| > 1 {
          SeparatorSkipped(s, c, PathText(steps[1..]));
        }
      }
    }
  }

  /** Steps with a gap before each of them and one at the end. */
  function Spread(steps: seq<Step>, gaps: seq<string>): string
    requires |gaps| == |steps| + 1
  {
    gaps[0] + if steps == [] then "" else StepText(steps[0]) + Spread(steps[1..], gaps[1..])
  }

  lemma {:induction false} GapSkipped(s: Store, id: nat, gap: string, text: string)
    requires forall c | c in gap :: c == '.' || c == ':' || c == '/'
    ensures LookupFrom(s, id, gap + text) == LookupFrom(s, id, text)
  {
    if gap == "" {
      assert gap + text == text;
    } else {
      assert (gap + text)[1..] == gap[1..] + text && (gap + text)[0] == gap[0] && gap[0] in gap;
      assert forall c | c in gap[1..] :: c in gap;
      GapSkipped(s, id, gap[1..], text);
      assert SkipSeparators(gap + text) == SkipSeparators(gap[1..] + text);
    }
  }

  /** Points, colons and slashes separate steps alike, in any number, and may also stand at either end of the path. */
  lemma {:induction false} AnySeparatorsWillDo(s: Store, id: nat, steps: seq<Step>, gaps: seq<string>)
    requires |gaps| == |steps| + 1 && (forall i | 0 <= i < |steps| :: Printable(steps[i]))
    requires forall i | 0 <= i <= |steps| :: forall c | c in gaps[i] :: c == '.' || c == ':' || c == '/'
    requires forall i | 0 < i < |steps| :: gaps[i] != ""
    ensures LookupFrom(s, id, Spread(steps, gaps)) == Follow(s, id, steps)
    decreases steps
  {
    if steps == [] {
      GapSkipped(s, id, gaps[0], "");
    } else {
      var rest := Spread(steps[1..], gaps[1..]);
      GapSkipped(s, id, gaps[0], StepText(steps[0]) + rest);
      assert |steps| == 1 ==> rest == gaps[1];
      assert rest != "" ==> gaps[1] != "" && rest[0] == gaps[1][0] && gaps[1][0] in gaps[1];
      OneStep(s, id, steps[0], rest);
      if StepTo(s, id, steps[0]).Some? {
        AnySeparatorsWillDo(s, StepTo(s, id, steps[0]).value, steps[1..], gaps[1..]);
      }
    }
  }

  // ----- the path of a setting -----

  function PositionOf(cs: seq<nat>, c: nat): (k: nat)
    requires c in cs
    ensures k < |cs| && cs[k] == c
  {
    if cs[0] == c then 0 else 1 + PositionOf(cs[1..], c)
  }

  /** How a setting is reached from its parent: by name in a group, by position elsewhere. */
  function StepOf(s: Store, id: nat): Step
    requires WellFormed(s) && 0 < id < |s|
  {
    assert Held(s, id);
    var p := s[id].parent.value;
    assert GoodNode(s, p);
    var k := PositionOf(s[p].content.children, id);
    assert GoodChild(s, p, s[p].content.shape, s[p].content.children[k]);
    if s[p].content.shape == Group then ByName(s[id].name.value) else ByIndex(k)
  }

  function ParentOf(s: Store, id: nat): (p: nat)
    requires WellFormed(s) && 0 < id < |s|
    ensures p < id && IsAggregate(s, p) && id in s[p].content.children
  {
    assert Held(s, id);
    var p := s[id].parent.value;
    assert GoodNode(s, p);
    var k := PositionOf(s[p].content.children, id);
    assert GoodChild(s, p, s[p].content.shape, s[p].content.children[k]);
    p
  }

  function StepsTo(s: Store, id: nat): seq<Step>
    requires WellFormed(s) && id < |s|
    decreases id
  {
    if id == 0 then [] else StepsTo(s, ParentOf(s, id)) + [StepOf(s, id)]
  }

  lemma {:induction false} StepLeadsBack(s: Store, id: nat)
    requires WellFormed(s) && 0 < id < |s|
    ensures StepTo(s, ParentOf(s, id), StepOf(s, id)) == Some(id)
  {
    var p := ParentOf(s, id);
    var k := PositionOf(s[p].content.children, id);
    if s[p].content.shape == Group {
      MemberIsFound(s, p, k);
    }
  }

  lemma {:induction false} FollowOneMore(s: Store, from: nat, steps: seq<Step>, last: Step, mid: nat)
    requires Follow(s, from, steps) == Some(mid)
    ensures Follow(s, from, steps + [last]) == StepTo(s, mid, last)
    decreases steps
  {
    if steps == [] {
      assert steps + [last] == [last];
    } else {
      assert (steps + [last])[1..] == steps[1..] + [last];
      FollowOneMore(s, StepTo(s, from, steps[0]).value, steps[1..], last, mid);
    }
  }

  lemma {:induction false} StepsLeadBack(s: Store, id: nat)
    requires WellFormed(s) && id < |s|
    ensures Follow(s, 0, StepsTo(s, id)) == Some(id)
    decreases id
  {
    if id > 0 {
      var p := ParentOf(s, id);
      StepsLeadBack(s, p);
      StepLeadsBack(s, id);
      FollowOneMore(s, 0, StepsTo(s, p), StepOf(s, id), p);
    }
  }

  /** List positions fit an `int`, as `config_setting_index` assumes. */
  ghost predicate Indexable(s: Store) {
    forall id | 0 <= id < |s| :: s[id].content.Aggregate? ==> |s[id].content.children| < 0x8000_0000
  }

  lemma {:induction false} StepsArePrintable(s: Store, id: nat)
    requires WellFormed(s) && Indexable(s) && id < |s|
    ensures forall i | 0 <= i < |StepsTo(s, id)| :: Printable(StepsTo(s, id)[i])
    decreases id
  {
    if id > 0 {
      var p := ParentOf(s, id);
      StepsArePrintable(s, p);
      assert GoodNode(s, p);
      var k := PositionOf(s[p].content.children, id);
      assert GoodChild(s, p, s[p].content.shape, s[p].content.children[k]);
    }
  }

  /** Path lookup inverts path printing, for every setting of a well-formed tree. */
  lemma {:induction false} LookupInvertsPrinting(s: Store, id: nat)
    requires WellFormed(s) && Indexable(s) && id < |s|
    ensures LookupFrom(s, 0, PathText(StepsTo(s, id))) == Some(id)
  {
    StepsArePrintable(s, id);
    StepsLeadBack(s, id);
    LookupFollowsThePath(s, 0, StepsTo(s, id));
  }

  // ----- any path, printed or not -----

  function Segment(p: string): (r: string)
    ensures p == r + SkipSegment(p) && NoSeparator(r)
  {
    if EndsName(p) then "" else [p[0]] + Segment(p[1..])
  }

  function StepOfSegment(segment: string): Step {
    if segment != "" && segment[0] == '[' then ByIndex(Index(segment[1..])) else ByName(segment)
  }

  /** The steps that a path asks for, segment by segment. */
  function StepsOf(path: string): (r: seq<Step>)
    decreases |path|
  {
    var p := SkipSeparators(path);
    if p == "" then [] else [StepOfSegment(Segment(p))] + StepsOf(SkipSegment(p))
  }

  /** The path ends right after a bracket that opens a segment. */
  predicate EndsInBracket(path: string) {
    |path| > 0 && path[|path| - 1] == '[' && (|path| == 1 || EndsName(path[|path| - 2..]))
  }

  lemma {:induction false} SpacesInSegment(q: string, rest: string)
    requires EndsName(rest)
    ensures SkipSpaces(q + rest) == SkipSpaces(q) + rest
  {
    if q == "" {
      assert q + rest == rest;
      assert SkipSpaces(rest) == rest;
    } else {
      assert (q + rest)[1..] == q[1..] + rest;
      if IsSpace(q[0]) {
        SpacesInSegment(q[1..], rest);
      }
    }
  }

  lemma {:induction false} DigitsInSegment(q: string, rest: string)
    requires EndsName(rest)
    ensures Digits(q + rest) == Digits(q)
  {
    var k := DigitRun(q, 10);
    var t := q + rest;
    assert t[..k] == q[..k];
    assert k < |q| ==> t[k] == q[k];
    assert k == |q| && rest != "" ==> t[k] == rest[0];
    DigitRunStops(t, 10, k);
  }

  lemma {:induction false} IndexInSegment(segment: string, rest: string)
    requires EndsName(rest)
    ensures Index(segment + rest) == Index(segment)
  {
    SpacesInSegment(segment, rest);
    var q := SkipSpaces(segment);
    if q == "" {
      assert q + rest == rest;
    } else {
      assert (q + rest)[1..] == q[1..] + rest;
      DigitsInSegment(q[1..], rest);
    }
    DigitsInSegment(q, rest);
  }

  lemma {:induction false} SpacesAreSkipped(spaces: string, q: string)
    requires (forall i | 0 <= i < |spaces| :: IsSpace(spaces[i])) && (q != "" ==> !IsSpace(q[0]))
    ensures SkipSpaces(spaces + q) == q
  {
    if spaces == "" {
      assert spaces + q == q;
    } else {
      assert (spaces + q)[1..] == spaces[1..] + q;
      SpacesAreSkipped(spaces[1..], q);
    }
  }

  lemma {:induction false} DigitsAre(digits: string, rest: string)
    requires AllDigits(digits, 10) && (rest == "" || !IsDigit(rest[0], 10))
    ensures Digits(digits + rest) == ValueOf(digits, 10)
  {
    DigitsThenRest(digits, rest, 10);
    assert (digits + rest)[..|digits|] == digits;
  }

  lemma {:induction false} SignedIndex(t: string, q: string, sign: string, number: string, n: nat)
    requires SkipSpaces(t) == q && n == Digits(number) < 0x8000_0000_0000_0000
    requires number != "" && IsDigit(number[0], 10)
    requires if sign == "" then q == number
             else (sign[0] == '+' || sign[0] == '-') && q != "" && q[0] == sign[0] && q[1..] == number
    ensures Index(t) == (if sign != "" && sign[0] == '-' then 0 - n else n) % 0x1_0000_0000
  {
  }

  /** An index may have white space and a sign before its digits and anything but a digit after them; a negative one
      wraps around. */
  lemma {:induction false} IndexInAnyForm(spaces: string, sign: string, digits: string, rest: string)
    requires forall i | 0 <= i < |spaces| :: spaces[i] == ' ' || '\t' <= spaces[i] <= '\r'
    requires sign == "" || (|sign| == 1 && (sign[0] == '+' || sign[0] == '-'))
    requires digits != "" && (forall i | 0 <= i < |digits| :: '0' <= digits[i] <= '9')
    requires rest == "" || !('0' <= rest[0] <= '9')
    requires ValueOf(digits, 10) < 0x8000_0000_0000_0000
    ensures var n := ValueOf(digits, 10);
            Index(spaces + (sign + (digits + rest))) ==
            (if sign != "" && sign[0] == '-' then 0 - n else n) % 0x1_0000_0000
  {
    var number := digits + rest;
    var q := sign + number;
    assert number[0] == digits[0];
    assert IsDigit(number[0], 10);
    SpacesAreSkipped(spaces, q);
    DigitsAre(digits, rest);
    assert if sign == "" then q == number else q[0] == sign[0] && q[1..] == number;
    SignedIndex(spaces + q, q, sign, number, ValueOf(digits, 10));
  }

  /** The lookup takes one segment at a time: only the segment decides where it goes. */
  lemma {:induction false} OneSegment(s: Store, id: nat, path: string)
    requires SkipSeparators(path) != ""
    ensures var p := SkipSeparators(path);
            LookupFrom(s, id, path) ==
            match StepTo(s, id, StepOfSegment(Segment(p)))
            case Some(c) => LookupFrom(s, c, SkipSegment(p))
            case None => if p == "[" then Some(id) else None
  {
    var p := SkipSeparators(path);
    var segment, rest := Segment(p), SkipSegment(p);
    assert segment[0] == p[0];
    if p[0] == '[' {
      assert p[1..] == segment[1..] + rest;
      IndexInSegment(segment[1..], rest);
    } else {
      MemberPrefix(s, id, segment, rest);
    }
  }

  lemma {:induction false} BracketInSuffix(path: string, n: nat, q: string)
    requires n < |path| && path[n..] == q && (n > 0 ==> EndsName(path[n - 1..]))
    ensures EndsInBracket(path) <==> EndsInBracket(q)
  {
    assert path[|path| - 1] == q[|q| - 1];
    if |q| >= 2 {
      assert path[|path| - 2..] == q[|q| - 2..];
    }
  }

  lemma {:induction false} BracketInSegment(segment: string, rest: string)
    requires segment != "" && NoSeparator(segment) && EndsName(rest)
    ensures EndsInBracket(segment + rest) <==> segment + rest == "[" || EndsInBracket(rest)
  {
    var p := segment + rest;
    if rest == "" {
      assert p == segment;
    } else {
      assert p[|p| - 1] == rest[|rest| - 1];
      if |rest| >= 2 {
        assert p[|p| - 2..] == rest[|rest| - 2..];
      }
    }
  }

  lemma {:induction false} BracketAfterSegment(path: string)
    requires SkipSeparators(path) != ""
    ensures var p := SkipSeparators(path);
            EndsInBracket(path) <==> p == "[" || EndsInBracket(SkipSegment(p))
  {
    var p := SkipSeparators(path);
    SkippedIsSuffix(path);
    BracketInSuffix(path, |path| - |p|, p);
    BracketInSegment(Segment(p), SkipSegment(p));
  }

  lemma {:induction false} SkippedIsSuffix(path: string)
    ensures var n := |path| - |SkipSeparators(path)|;
            path[n..] == SkipSeparators(path) && (n > 0 ==> EndsName(path[n - 1..]))
  {
    if path != "" && EndsName(path) {
      SkippedIsSuffix(path[1..]);
    }
  }

  predicate EndsInZero(steps: seq<Step>) { steps != [] && steps[|steps| - 1] == ByIndex(0) }

  lemma {:induction false} BareBracket()
    ensures SkipSeparators("[") == "[" && Segment("[") == "[" && SkipSegment("[") == ""
    ensures StepsOf("[") == [ByIndex(0)]
  {
    assert "["[1..] == "" && ""[..DigitRun("", 10)] == "";
  }

  lemma {:induction false} BracketIsNotSkipped(path: string)
    requires EndsInBracket(path)
    ensures SkipSeparators(path) != ""
  {
    SkippedIsSuffix(path);
    assert path[|path| - 1..] == "[";
  }

  lemma {:induction false} BracketIsLast(path: string)
    requires EndsInBracket(path)
    ensures EndsInZero(StepsOf(path))
    decreases |path|
  {
    BracketIsNotSkipped(path);
    BracketAfterSegment(path);
    var p := SkipSeparators(path);
    if p == "[" {
      BareBracket();
    } else {
      BracketIsLast(SkipSegment(p));
    }
  }

  function Front(steps: seq<Step>): seq<Step>
    requires steps != []
  {
    steps[..|steps| - 1]
  }

  lemma {:induction false} FollowMore(s: Store, id: nat, first: Step, later: seq<Step>)
    ensures var next := StepTo(s, id, first);
            && Follow(s, id, [first] + later) == (if next.Some? then Follow(s, next.value, later) else None)
            && (later != [] ==> Front([first] + later) == [first] + Front(later))
  {
    assert ([first] + later)[1..] == later;
  }

  /** Where the lookup gets: the setting that all steps lead to, or the one that all but a last bare bracket do. */
  lemma {:induction false} LookupResult(s: Store, id: nat, path: string)
    ensures var steps := StepsOf(path);
            LookupFrom(s, id, path) ==
            if Follow(s, id, steps).Some? then Follow(s, id, steps)
            else if EndsInBracket(path) && EndsInZero(steps) then Follow(s, id, Front(steps))
            else None
    decreases |path|
  {
    var p := SkipSeparators(path);
    if p != "" {
      var first, rest := StepOfSegment(Segment(p)), SkipSegment(p);
      var later := StepsOf(rest);
      OneSegment(s, id, path);
      BracketAfterSegment(path);
      FollowMore(s, id, first, later);
      if StepTo(s, id, first).Some? {
        LookupResult(s, StepTo(s, id, first).value, rest);
      }
      if p == "[" {
        BareBracket();
      } else if EndsInBracket(rest) {
        BracketIsLast(rest);
        FollowMore(s, id, first, Front(later));
      }
    } else if EndsInBracket(path) {
      BracketIsNotSkipped(path);
    }
  }

  lemma {:induction false} FollowFront(s: Store, id: nat, steps: seq<Step>)
    requires steps != []
    ensures var up := Follow(s, id, Front(steps));
            Follow(s, id, steps) == if up.Some? then StepTo(s, up.value, steps[|steps| - 1]) else None
    decreases steps
  {
    var first, later := steps[0], steps[1..];
    assert steps == [first] + later;
    FollowMore(s, id, first, later);
    if later != [] {
      FollowMore(s, id, first, Front(later));
      if StepTo(s, id, first).Some? {
        FollowFront(s, StepTo(s, id, first).value, later);
      }
    }
  }

  /** A lookup follows the steps of any path, except when the path ends in a bare bracket and the setting that the
      steps before it lead to has no element 0: then it finds that setting instead of nothing. */
  lemma {:induction false} LookupFollowsExactlyWhen(s: Store, id: nat, path: string)
    ensures EndsInBracket(path) ==> EndsInZero(StepsOf(path))
    ensures LookupFrom(s, id, path) == Follow(s, id, StepsOf(path)) <==>
            !(EndsInBracket(path) &&
              var up := Follow(s, id, Front(StepsOf(path))); up.Some? && GetElem(s, up.value, 0).None?)
    ensures LookupFrom(s, id, path) != Follow(s, id, StepsOf(path)) ==>
            LookupFrom(s, id, path) == Follow(s, id, Front(StepsOf(path)))
  {
    LookupResult(s, id, path);
    if EndsInBracket(path) {
      BracketIsLast(path);
      FollowFront(s, id, StepsOf(path));
    }
  }

  /** It does happen: in a group without settings a lone bracket finds the group. */
  lemma {:induction false} LoneBracket(s: Store, id: nat)
    ensures LookupFrom(s, id, "[") == if GetElem(s, id, 0).Some? then GetElem(s, id, 0) else Some(id)
    ensures Follow(s, id, StepsOf("[")) == GetElem(s, id, 0)
  {
    BareBracket();
    assert "["[1..] == "" && ""[..DigitRun("", 10)] == "";
  }
}
