/** What query strings and percent coding mean when somebody else wrote them: every way of coding a text, Unicode
    escapes, blanks around segments, segments that are missing or repeated, and parameters in any order. */
module QueryCodings {
  import opened Text
  import opened Numerals
  import opened Query

  // ----- every way of coding a text -----

  /** A character is written as itself, as a percent sign and two digits, or as a plus sign. */
  datatype Style = Itself | Escaped(upperHigh: bool, upperLow: bool) | Plus

  function CodeAs(c: char, style: Style): string
    requires c as int < 256
  {
    match style
    case Itself => [c]
    case Escaped(high, low) => ['%', DigitChar(c as int / 16, high), DigitChar(c as int % 16, low)]
    case Plus => "+"
  }

  /** A percent sign has to be escaped, and a plus sign too where it stands for a blank. */
  predicate May(c: char, style: Style, plus: bool) {
    match style
    case Itself => c != '%' && (plus ==> c != '+')
    case Escaped(_, _) => true
    case Plus => plus && c == ' '
  }

  function CodeAll(s: string, styles: seq<Style>): string
    requires |styles| == |s| && forall i | 0 <= i < |s| :: s[i] as int < 256
  {
    if s == "" then "" else CodeAs(s[0], styles[0]) + CodeAll(s[1..], styles[1..])
  }

  lemma {:induction false} DigitOf(d: nat, upper: bool)
    requires d < 16
    ensures DigitValue(DigitChar(d, upper)) == d && DigitChar(d, upper) != 'u'
  {
  }

  lemma {:induction false} TwoDigitsAre(hi: char, lo: char)
    requires IsDigit(hi, 16) && IsDigit(lo, 16)
    ensures AllDigits([hi, lo], 16) && ValueOf([hi, lo], 16) == 16 * DigitValue(hi) + DigitValue(lo)
  {
    assert [hi, lo][..1] == [hi] && [hi][..0] == "";
    assert ValueOf([hi], 16) == DigitValue(hi);
  }

  lemma {:induction false} EscapeDecodes(hi: char, lo: char, rest: string, plus: bool)
    requires IsDigit(hi, 16) && IsDigit(lo, 16)
    ensures Decode(['%', hi, lo] + rest, plus) == [(16 * DigitValue(hi) + DigitValue(lo)) as char] + Decode(rest, plus)
  {
    var t := ['%', hi, lo] + rest;
    TwoDigitsAre(hi, lo);
    assert t[1..3] == [hi, lo] && t[3..] == rest;
    assert HexAt(t, 1, 2) == Some(16 * DigitValue(hi) + DigitValue(lo));
  }

  lemma {:induction false} ItselfDecodes(c: char, rest: string, plus: bool)
    requires c != '%'
    ensures Decode([c] + rest, plus) == [if plus && c == '+' then ' ' else c] + Decode(rest, plus)
  {
    assert ([c] + rest)[1..] == rest;
  }

  lemma {:induction false} StyleDecodes(c: char, style: Style, rest: string, plus: bool)
    requires c as int < 256 && May(c, style, plus)
    ensures Decode(CodeAs(c, style) + rest, plus) == [c] + Decode(rest, plus)
  {
    match style
    case Itself => ItselfDecodes(c, rest, plus);
    case Plus => ItselfDecodes('+', rest, plus);
    case Escaped(high, low) =>
      DigitOf(c as int / 16, high);
      DigitOf(c as int % 16, low);
      EscapeDecodes(DigitChar(c as int / 16, high), DigitChar(c as int % 16, low), rest, plus);
  }

  /** Every coding of a text is decoded to it: with plus signs for blanks or without, in digits of either case. */
  lemma {:induction false} EveryCodingIsDecoded(s: string, styles: seq<Style>, plus: bool)
    requires |styles| == |s| && forall i | 0 <= i < |s| :: s[i] as int < 256 && May(s[i], styles[i], plus)
    ensures Decode(CodeAll(s, styles), plus) == s
  {
    if s != "" {
      EveryCodingIsDecoded(s[1..], styles[1..], plus);
      StyleDecodes(s[0], styles[0], CodeAll(s[1..], styles[1..]), plus);
    }
  }

  function StylesOf(s: string): (styles: seq<Style>)
    ensures |styles| == |s|
    ensures forall i | 0 <= i < |s| ::
              styles[i] == if '0' <= s[i] <= '9' || 'A' <= s[i] <= 'Z' || 'a' <= s[i] <= 'z' || s[i] in "-_.!~*'()"
                           then Itself else Escaped(true, true)
  {
    if s == "" then []
    else
      var c := s[0];
      var plain := '0' <= c <= '9' || 'A' <= c <= 'Z' || 'a' <= c <= 'z' || c in "-_.!~*'()";
      [if plain then Itself else Escaped(true, true)] + StylesOf(s[1..])
  }

  lemma {:induction false} CharIsCoded(c: char)
    requires c as int < 256
    ensures EncodeChar(c) == CodeAs(c, StylesOf([c])[0])
  {
    assert c as int % 256 == c as int;
  }

  /** The coder writes letters, digits and nine marks as themselves, and everything else with capital digits. */
  lemma {:induction false} EncodedIsOneCoding(s: string)
    requires forall i | 0 <= i < |s| :: s[i] as int < 256
    ensures Encode(s) == CodeAll(s, StylesOf(s))
  {
    if s != "" {
      CharIsCoded(s[0]);
      EncodedIsOneCoding(s[1..]);
      assert StylesOf(s)[1..] == StylesOf(s[1..]);
      assert StylesOf(s)[0] == StylesOf([s[0]])[0];
    }
  }

  /** The coding of HTML forms: a blank is written as a plus sign, and everything else as the coder writes it. */
  function FormEncode(s: string): string {
    if s == "" then "" else (if s[0] == ' ' then "+" else EncodeChar(s[0])) + FormEncode(s[1..])
  }

  /** Decoding with plus signs undoes form coding for every byte string. */
  lemma {:induction false} FormIsDecoded(s: string)
    requires forall i | 0 <= i < |s| :: s[i] as int < 256
    ensures Decode(FormEncode(s), true) == s
  {
    if s != "" {
      var more := FormEncode(s[1..]);
      FormIsDecoded(s[1..]);
      if s[0] == ' ' {
        ItselfDecodes('+', more, true);
      } else {
        var e := EncodeChar(s[0]);
        CharIsDecoded(s[0], more);
        assert (e + more)[|e|..] == more;
      }
    }
  }

  /** A percent sign that does not start an escape stands for itself. */
  lemma {:induction false} LonePercentIsKept(t: string, plus: bool)
    requires if t != "" && t[0] == 'u' then |t| < 5 || !AllDigits(t[1..5], 16) else |t| < 2 || !AllDigits(t[..2], 16)
    ensures Decode("%" + t, plus) == "%" + Decode(t, plus)
  {
    var s := "%" + t;
    assert s[1..] == t;
    assert |t| >= 5 ==> s[2..6] == t[1..5];
    assert |t| >= 2 ==> s[1..3] == t[..2];
  }

  // ----- Unicode escapes -----

  predicate Continues(c: char) { 0x80 <= c as int < 0xC0 }

  /** The code that a UTF-8 sequence stands for (section 3 of RFC 3629), if it is one of up to three bytes. */
  function CodeOf(b: string): Option<nat> {
    if |b| == 1 && b[0] as int < 0x80 then Some(b[0] as int)
    else if |b| == 2 && 0xC0 <= b[0] as int < 0xE0 && Continues(b[1]) then
      var code := (b[0] as int - 0xC0) * 64 + (b[1] as int - 0x80);
      if code < 0x80 then None else Some(code)
    else if |b| == 3 && 0xE0 <= b[0] as int < 0xF0 && Continues(b[1]) && Continues(b[2]) then
      var code := (b[0] as int - 0xE0) * 4096 + (b[1] as int - 0x80) * 64 + (b[2] as int - 0x80);
      if code < 0x800 then None else Some(code)
    else None
  }

  lemma {:induction false} TwoByteCode(code: nat)
    requires 0x80 <= code < 0x800
    ensures CodeOf(Utf8(code)) == Some(code)
  {
  }

  lemma {:induction false} ThreeByteCode(code: nat)
    requires 0x800 <= code < 0x1_0000 && !(0xD800 <= code < 0xE000)
    ensures CodeOf(Utf8(code)) == Some(code)
  {
    var b := Utf8(code);
    assert b[0] as int == 0xE0 + code / 4096;
    assert b[1] as int == 0x80 + code / 64 % 64;
    assert b[2] as int == 0x80 + code % 64;
    assert code == code / 4096 * 4096 + code / 64 % 64 * 64 + code % 64;
  }

  function FourDigits(code: nat, upper: bool): string
    requires code < 0x1_0000
  {
    [DigitChar(code / 4096, upper), DigitChar(code / 256 % 16, upper), DigitChar(code / 16 % 16, upper),
     DigitChar(code % 16, upper)]
  }

  lemma {:induction false} FourDigitsAre(code: nat, upper: bool)
    requires code < 0x1_0000
    ensures AllDigits(FourDigits(code, upper), 16) && ValueOf(FourDigits(code, upper), 16) == code
  {
    var a, b, c, d := code / 4096, code / 256 % 16, code / 16 % 16, code % 16;
    DigitOf(a, upper);
    DigitOf(b, upper);
    DigitOf(c, upper);
    DigitOf(d, upper);
    FourDigitsValue(DigitChar(a, upper), DigitChar(b, upper), DigitChar(c, upper), DigitChar(d, upper));
    Places(code);
  }

  lemma {:induction false} Places(code: nat)
    requires code < 0x1_0000
    ensures code == 4096 * (code / 4096) + 256 * (code / 256 % 16) + 16 * (code / 16 % 16) + code % 16
  {
    var n := code / 16;
    var m := n / 16;
    assert code == 16 * n + code % 16 && n == 16 * m + n % 16 && m == 16 * (m / 16) + m % 16;
    assert m == code / 256 && m / 16 == code / 4096;
  }

  lemma {:induction false} OneMore(s: string, c: char)
    ensures ValueOf(s + [c], 16) == 16 * ValueOf(s, 16) + DigitValue(c)
  {
    assert (s + [c])[..|s|] == s;
  }

  lemma {:induction false} FourDigitsValue(a: char, b: char, c: char, d: char)
    requires IsDigit(a, 16) && IsDigit(b, 16) && IsDigit(c, 16) && IsDigit(d, 16)
    ensures AllDigits([a, b, c, d], 16)
    ensures ValueOf([a, b, c, d], 16) ==
            4096 * DigitValue(a) + 256 * DigitValue(b) + 16 * DigitValue(c) + DigitValue(d)
  {
    TwoDigitsAre(a, b);
    OneMore([a, b], c);
    OneMore([a, b] + [c], d);
    assert [a, b] + [c] + [d] == [a, b, c, d];
  }

  lemma {:induction false} UnicodeStep(code: nat, upper: bool, rest: string, plus: bool)
    requires code < 0x1_0000
    ensures Decode("%u" + FourDigits(code, upper) + rest, plus) == Utf8(code) + Decode(rest, plus)
  {
    var t := "%u" + FourDigits(code, upper) + rest;
    FourDigitsAre(code, upper);
    assert t[2..6] == FourDigits(code, upper) && t[6..] == rest;
    assert HexAt(t, 2, 4) == Some(code);
  }

  /** A Unicode escape is decoded to bytes that are the UTF-8 sequence of its code; that of a surrogate to nothing. */
  lemma {:induction false} UnicodeIsDecoded(code: nat, upper: bool, rest: string, plus: bool) returns (bytes: string)
    requires code < 0x1_0000
    ensures Decode("%u" + FourDigits(code, upper) + rest, plus) == bytes + Decode(rest, plus)
    ensures if 0xD800 <= code < 0xE000 then bytes == "" else CodeOf(bytes) == Some(code)
  {
    UnicodeStep(code, upper, rest, plus);
    bytes := Utf8(code);
    if 0x80 <= code < 0x800 {
      TwoByteCode(code);
    } else if 0x800 <= code && !(0xD800 <= code < 0xE000) {
      ThreeByteCode(code);
    }
  }

  // ----- segments -----

  predicate Blank(s: string) { forall i | 0 <= i < |s| :: s[i] == ' ' || s[i] == '\t' }

  /** A segment: blanks around a core, which has no blank at its ends. */
  datatype Segment = Segment(before: string, core: string, after: string)

  predicate IsSegment(g: Segment, d: char) {
    && Blank(g.before) && Blank(g.after) && d != ' ' && d != '\t'
    && (forall i | 0 <= i < |g.core| :: g.core[i] != d)
    && (g.core != "" ==>
          g.core[0] != ' ' && g.core[0] != '\t' && g.core[|g.core| - 1] != ' ' && g.core[|g.core| - 1] != '\t')
  }

  function SegmentText(g: Segment): string { g.before + g.core + g.after }

  /** Segments with the delimiter between them. */
  function Joined(gs: seq<Segment>, d: char): string {
    if gs == [] then ""
    else SegmentText(gs[0]) + if |gs| == 1 then "" else [d] + Joined(gs[1..], d)
  }

  /** The cores that are not empty, in order. */
  function Cores(gs: seq<Segment>): seq<string> {
    if gs == [] then [] else (if gs[0].core == "" then [] else [gs[0].core]) + Cores(gs[1..])
  }

  lemma {:induction false} TrimLeftIs(before: string, t: string)
    requires Blank(before) && (t == "" || !IsSpaceOrTab(t[0]))
    ensures TrimLeft(before + t) == t
  {
    if before == "" {
      assert before + t == t;
    } else {
      assert (before + t)[1..] == before[1..] + t;
      TrimLeftIs(before[1..], t);
    }
  }

  lemma {:induction false} TrimRightIs(t: string, after: string)
    requires Blank(after) && (t == "" || !IsSpaceOrTab(t[|t| - 1]))
    ensures TrimRight(t + after) == t
  {
    if after == "" {
      assert t + after == t;
    } else {
      var n := |after| - 1;
      assert (t + after)[..|t| + n] == t + after[..n];
      TrimRightIs(t, after[..n]);
    }
  }

  lemma {:induction false} BlankIsTrimmedAway(s: string)
    requires Blank(s)
    ensures TrimLeft(s) == ""
  {
    if s != "" {
      BlankIsTrimmedAway(s[1..]);
    }
  }

  lemma {:induction false} CoreIsLeft(g: Segment, d: char)
    requires IsSegment(g, d)
    ensures TrimCopy(SegmentText(g)) == g.core
  {
    if g.core == "" {
      BlankIsTrimmedAway(SegmentText(g));
    } else {
      Assoc(g.before, g.core, g.after);
      TrimLeftIs(g.before, g.core + g.after);
      TrimRightIs(g.core, g.after);
    }
  }

  lemma {:induction false} SegmentLacks(g: Segment, d: char)
    requires IsSegment(g, d)
    ensures Lacks(SegmentText(g), d)
  {
  }

  function CoreOf(g: Segment): seq<string> { if g.core == "" then [] else [g.core] }

  lemma {:induction false} LastSegment(g: Segment, d: char)
    requires IsSegment(g, d)
    ensures Split(SegmentText(g), d) == CoreOf(g)
  {
    CoreIsLeft(g, d);
    SegmentLacks(g, d);
    UpToIs(SegmentText(g), d, "");
  }

  lemma {:induction false} FirstSegment(g: Segment, d: char, rest: string)
    requires IsSegment(g, d)
    ensures Split(SegmentText(g) + ([d] + rest), d) == CoreOf(g) + Split(rest, d)
  {
    CoreIsLeft(g, d);
    SegmentLacks(g, d);
    UpToIs(SegmentText(g), d, rest);
    Assoc(SegmentText(g), [d], rest);
  }

  /** Splitting yields exactly the cores that are not empty, whatever blanks stand around them. */
  lemma {:induction false} SplitYieldsTheCores(gs: seq<Segment>, d: char)
    requires gs != [] && forall i | 0 <= i < |gs| :: IsSegment(gs[i], d)
    ensures Split(Joined(gs, d), d) == Cores(gs)
  {
    if |gs| == 1 {
      LastSegment(gs[0], d);
      assert Joined(gs, d) == SegmentText(gs[0]) && Cores(gs[1..]) == [];
    } else {
      SplitYieldsTheCores(gs[1..], d);
      FirstSegment(gs[0], d, Joined(gs[1..], d));
    }
  }

  /** Of a parameter the first segment that is not empty is the key, and the last of the others the value, if any. */
  lemma {:induction false} KeyAndValue(gs: seq<Segment>)
    requires gs != [] && forall i | 0 <= i < |gs| :: IsSegment(gs[i], '=')
    ensures var cores := Cores(gs);
            ReadPair(Joined(gs, '=')) ==
            if cores == [] then None
            else if |cores| == 1 then Some((Decode(cores[0], true), ""))
            else Some((Decode(cores[0], true), Decode(cores[|cores| - 1], true)))
  {
    SplitYieldsTheCores(gs, '=');
    assert Decode("", true) == "";
  }

  // ----- the multimap -----

  /** Keys are ordered by their first difference; a prefix comes first. */
  lemma {:induction false} LessIsLexicographic(a: string, b: string)
    ensures Less(a, b) <==>
            exists k | 0 <= k <= |a| && k < |b| :: a[..k] == b[..k] && (k == |a| || a[k] < b[k])
  {
    if b != "" && a != "" && a[0] == b[0] {
      LessIsLexicographic(a[1..], b[1..]);
      if k :| 0 <= k <= |a[1..]| && k < |b[1..]| && a[1..][..k] == b[1..][..k] &&
              (k == |a[1..]| || a[1..][k] < b[1..][k]) {
        assert a[..k + 1] == [a[0]] + a[1..][..k] && b[..k + 1] == [b[0]] + b[1..][..k];
      }
      if k :| 0 <= k <= |a| && k < |b| && a[..k] == b[..k] && (k == |a| || a[k] < b[k]) {
        assert k > 0;
        assert a[1..][..k - 1] == a[..k][1..] && b[1..][..k - 1] == b[..k][1..];
      }
    } else if b != "" {
      assert a[..0] == b[..0];
      if k :| 0 <= k <= |a| && k < |b| && a[..k] == b[..k] && (k == |a| || a[k] < b[k]) {
        assert k > 0 ==> a[..k][0] == b[..k][0];
      }
    }
  }

  lemma {:induction false} NotLessFollows(a: string, b: string, c: string)
    requires !Less(a, b) && !Less(b, c)
    ensures !Less(a, c)
  {
    if Less(a, c) && a != "" && b != "" {
      NotLessFollows(a[1..], b[1..], c[1..]);
    }
  }

  /** A new pair goes behind the pairs whose keys do not come after its own, and before all others: the multimap stays
      sorted, and equal keys keep the order in which they came. */
  lemma {:induction false} InsertKeepsOrder(p: seq<Pair>, pair: Pair) returns (k: nat)
    requires Sorted(p)
    ensures k <= |p| && Insert(p, pair) == p[..k] + [pair] + p[k..] && Sorted(Insert(p, pair))
    ensures forall i | 0 <= i < k :: !Less(pair.0, p[i].0)
    ensures forall i | k <= i < |p| :: Less(pair.0, p[i].0)
  {
    if p == [] || !Less(pair.0, p[|p| - 1].0) {
      k := |p|;
      forall i | 0 <= i < |p| ensures !Less(pair.0, p[i].0) {
        if i < |p| - 1 {
          NotLessFollows(pair.0, p[|p| - 1].0, p[i].0);
        }
      }
      assert p[..k] == p && p[k..] == [] && p + [pair] + [] == p + [pair];
    } else {
      var n := |p| - 1;
      k := InsertKeepsOrder(p[..n], pair);
      assert p[..n][..k] == p[..k] && p[..n][k..] + [p[n]] == p[k..];
      StillSorted(p, pair, k);
    }
  }

  lemma {:induction false} StillSorted(p: seq<Pair>, pair: Pair, k: nat)
    requires Sorted(p) && k <= |p|
    requires forall i | 0 <= i < k :: !Less(pair.0, p[i].0)
    requires forall i | k <= i < |p| :: Less(pair.0, p[i].0)
    ensures Sorted(p[..k] + [pair] + p[k..])
  {
    var q := p[..k] + [pair] + p[k..];
    forall i, j | 0 <= i < j < |q| ensures !Less(q[j].0, q[i].0) {
      assert i < k ==> q[i] == p[i];
      assert i > k ==> q[i] == p[i - 1];
      assert j < k ==> q[j] == p[j];
      assert j > k ==> q[j] == p[j - 1];
      if i == k {
        LessIsStrict(pair.0, p[j - 1].0);
      }
    }
  }

  lemma {:induction false} LessIsStrict(a: string, b: string)
    requires Less(a, b)
    ensures !Less(b, a)
  {
    if a != "" && a[0] == b[0] {
      LessIsStrict(a[1..], b[1..]);
    }
  }

  lemma {:induction false} ParsingKeepsOrder(kvs: seq<string>, cache: set<string>, p: seq<Pair>)
    requires Sorted(p)
    ensures Sorted(ParseAll(kvs, cache, p))
    decreases kvs
  {
    if kvs != [] {
      var kv, rest := kvs[0], kvs[1..];
      if kv in cache {
        ParsingKeepsOrder(rest, cache, p);
      } else if ReadPair(kv).Some? {
        var k := InsertKeepsOrder(p, ReadPair(kv).value);
        ParsingKeepsOrder(rest, cache + {kv}, Insert(p, ReadPair(kv).value));
      } else {
        ParsingKeepsOrder(rest, cache + {kv}, p);
      }
    }
  }

  /** Whatever the text, the parameters parsed are sorted by their keys. */
  lemma {:induction false} ParsedIsSorted(s: string)
    ensures Sorted(Parse(s))
  {
    ParsingKeepsOrder(Split(s, '&'), {}, []);
  }
}
