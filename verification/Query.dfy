/** Query strings: percent coding (section 2.1 of RFC 3986), splitting, printing and parsing of parameters. */
module Query {
  import opened Text
  import opened Numerals

  // ----- percent coding -----

  predicate IsByte(c: char) { c as int < 256 }

  predicate Bytes(s: string) { forall i | 0 <= i < |s| :: IsByte(s[i]) }

  predicate Unescaped(c: char) {
    || IsAlnum(c) || c == '-' || c == '_' || c == '.' || c == '!' || c == '~' || c == '*' || c == '\''
    || c == '(' || c == ')'
  }

  function EncodeChar(c: char): string {
    if Unescaped(c) then [c]
    else ['%', DigitChar(c as int % 256 / 16, true), DigitChar(c as int % 16, true)]
  }

  /** `encode_query_param` */
  function Encode(s: string): string { if s == "" then "" else EncodeChar(s[0]) + Encode(s[1..]) }

  /** `from_hex_to_i` on `cnt` characters at `i`: all of them must be there and be hexadecimal digits. */
  function HexAt(s: string, i: nat, cnt: nat): Option<nat> {
    if i + cnt <= |s| && AllDigits(s[i..i + cnt], 16) then Some(ValueOf(s[i..i + cnt], 16)) else None
  }

  function ByteChar(n: nat): char { (n % 256) as char }

  /** `to_utf8` for a code of four hexadecimal digits; surrogates give nothing. */
  function Utf8(code: nat): string {
    if code < 0x80 then [ByteChar(code)]
    else if code < 0x800 then [ByteChar(0xC0 + code / 64 % 32), ByteChar(0x80 + code % 64)]
    else if 0xD800 <= code < 0xE000 then ""
    else [ByteChar(0xE0 + code / 4096 % 16), ByteChar(0x80 + code / 64 % 64), ByteChar(0x80 + code % 64)]
  }

  /** What decoding does at the start of a text: what it adds, and how much it takes. */
  function DecodeStep(s: string, plus: bool): (r: (string, nat))
    requires s != ""
    ensures 0 < r.1 <= |s|
  {
    if s[0] == '%' && |s| > 1 then
      if s[1] == 'u' then
        match HexAt(s, 2, 4)
        case Some(code) => (Utf8(code), 6)
        case None => ("%", 1)
      else
        match HexAt(s, 1, 2)
        case Some(code) => ([ByteChar(code)], 3)
        case None => ("%", 1)
    else if plus && s[0] == '+' then (" ", 1)
    else ([s[0]], 1)
  }

  /** `decode_url` */
  function Decode(s: string, plus: bool): string {
    if s == "" then ""
    else
      var (text, n) := DecodeStep(s, plus);
      text + Decode(s[n..], plus)
  }

  lemma {:induction false} TwoDigits(hi: nat, lo: nat)
    requires hi < 16 && lo < 16
    ensures var s := [DigitChar(hi, true), DigitChar(lo, true)];
            AllDigits(s, 16) && ValueOf(s, 16) == 16 * hi + lo && s[0] != 'u'
  {
    var s := [DigitChar(hi, true), DigitChar(lo, true)];
    assert DigitValue(s[0]) == hi && DigitValue(s[1]) == lo;
    assert s[..1] == [s[0]] && s[..1][..0] == "";
    assert ValueOf(s[..1], 16) == hi;
  }

  lemma {:induction false} EscapeIsRead(hi: nat, lo: nat, rest: string)
    requires hi < 16 && lo < 16
    ensures DecodeStep(['%', DigitChar(hi, true), DigitChar(lo, true)] + rest, true) == ([ByteChar(16 * hi + lo)], 3)
  {
    var e := ['%', DigitChar(hi, true), DigitChar(lo, true)];
    var t := e + rest;
    TwoDigits(hi, lo);
    assert t[1] == e[1] && t[1..3] == [DigitChar(hi, true), DigitChar(lo, true)];
    assert HexAt(t, 1, 2) == Some(16 * hi + lo);
  }

  lemma {:induction false} PlainIsRead(c: char, rest: string)
    requires c != '%' && c != '+'
    ensures DecodeStep([c] + rest, true) == ([c], 1)
  {
  }

  lemma {:induction false} CharIsDecoded(c: char, rest: string)
    requires IsByte(c)
    ensures var e := EncodeChar(c); |e| > 0 && DecodeStep(e + rest, true) == ([c], |e|)
  {
    if Unescaped(c) {
      PlainIsRead(c, rest);
    } else {
      var hi, lo := c as int / 16, c as int % 16;
      EscapeIsRead(hi, lo, rest);
      assert 16 * hi + lo == c as int;
    }
  }

  lemma {:induction false} EncodedIsDecoded(s: string)
    requires Bytes(s)
    ensures Decode(Encode(s), true) == s
  {
    if s != "" {
      var e, more := EncodeChar(s[0]), Encode(s[1..]);
      CharIsDecoded(s[0], more);
      EncodedIsDecoded(s[1..]);
      assert (e + more)[|e|..] == more && [s[0]] + s[1..] == s;
    }
  }

  lemma {:induction false} PlainIsDecoded(s: string)
    requires forall i | 0 <= i < |s| :: s[i] != '%' && s[i] != '+'
    ensures Decode(s, true) == s
  {
    if s != "" {
      PlainIsDecoded(s[1..]);
      assert [s[0]] + s[1..] == s;
    }
  }

  predicate EncodedChar(c: char) { Unescaped(c) || c == '%' }

  lemma {:induction false} EncodedAlphabet(s: string)
    ensures forall i | 0 <= i < |Encode(s)| :: EncodedChar(Encode(s)[i])
    ensures s != "" ==> Encode(s) != ""
  {
    if s != "" {
      EncodedAlphabet(s[1..]);
      var e := EncodeChar(s[0]);
      forall i | 0 <= i < |e| ensures EncodedChar(e[i]) {
      }
    }
  }

  // ----- trimming and splitting -----

  predicate Trimmed(s: string) { s != "" && !IsSpaceOrTab(s[0]) && !IsSpaceOrTab(s[|s| - 1]) }

  lemma {:induction false} TrimmedIsKept(s: string)
    requires Trimmed(s)
    ensures TrimCopy(s) == s
  {
  }

  function Piece(s: string): seq<string> { if TrimCopy(s) == "" then [] else [TrimCopy(s)] }

  function UpTo(s: string, d: char): (k: nat)
    ensures k <= |s| && (forall i | 0 <= i < k :: s[i] != d) && (k < |s| ==> s[k] == d)
  {
    if s == "" || s[0] == d then 0 else 1 + UpTo(s[1..], d)
  }

  /** Exactly the trimmed non-empty segments between delimiters. */
  function Split(s: string, d: char): seq<string>
  {
    var k := UpTo(s, d);
    if k == |s| then Piece(s) else Piece(s[..k]) + Split(s[k + 1..], d)
  }

  predicate Lacks(s: string, d: char) { forall i | 0 <= i < |s| :: s[i] != d }

  lemma {:induction false} UpToIs(a: string, d: char, rest: string)
    requires Lacks(a, d)
    ensures UpTo(a, d) == |a| && UpTo(a + [d] + rest, d) == |a|
    ensures (a + [d] + rest)[..|a|] == a && (a + [d] + rest)[|a| + 1..] == rest
  {
    var t := a + [d] + rest;
    var k := UpTo(t, d);
    assert t[|a|] == d;
    assert forall i | 0 <= i < |a| :: t[i] == a[i];
  }

  lemma {:induction false} SplitOne(a: string, d: char)
    requires Lacks(a, d) && Trimmed(a)
    ensures Split(a, d) == [a]
  {
    UpToIs(a, d, "");
    TrimmedIsKept(a);
  }

  lemma {:induction false} SplitFirst(a: string, d: char, rest: string)
    requires Lacks(a, d) && Trimmed(a)
    ensures Split(a + [d] + rest, d) == [a] + Split(rest, d)
  {
    UpToIs(a, d, rest);
    TrimmedIsKept(a);
  }

  // ----- parameters -----

  /** A multimap keeps its pairs sorted by key, equal keys in order of insertion. */
  type Pair = (string, string)

  predicate Less(a: string, b: string) {
    b != "" && (a == "" || a[0] < b[0] || (a[0] == b[0] && Less(a[1..], b[1..])))
  }

  predicate Sorted(p: seq<Pair>) { forall i, j | 0 <= i < j < |p| :: !Less(p[j].0, p[i].0) }

  /** `emplace` */
  function Insert(p: seq<Pair>, pair: Pair): (r: seq<Pair>)
    ensures |r| == |p| + 1
  {
    if p == [] || !Less(pair.0, p[|p| - 1].0) then p + [pair]
    else Insert(p[..|p| - 1], pair) + [p[|p| - 1]]
  }

  function PairText(pair: Pair): string { pair.0 + "=" + Encode(pair.1) }

  /** `params_to_query_str` */
  function Print(p: seq<Pair>): string {
    if p == [] then "" else PairText(p[0]) + (if |p| == 1 then "" else "&" + Print(p[1..]))
  }

  /** The key is the first segment and the value the last of the others. */
  function ReadPair(kv: string): Option<Pair> {
    var parts := Split(kv, '=');
    if parts == [] then None
    else Some((Decode(parts[0], true), Decode(if |parts| == 1 then "" else parts[|parts| - 1], true)))
  }

  function ParseAll(kvs: seq<string>, cache: set<string>, p: seq<Pair>): seq<Pair>
    decreases kvs
  {
    if kvs == [] then p
    else if kvs[0] in cache then ParseAll(kvs[1..], cache, p)
    else
      match ReadPair(kvs[0])
      case Some(pair) => ParseAll(kvs[1..], cache + {kvs[0]}, Insert(p, pair))
      case None => ParseAll(kvs[1..], cache + {kvs[0]}, p)
  }

  /** `parse_query_text` into an empty multimap */
  function Parse(s: string): seq<Pair> { ParseAll(Split(s, '&'), {}, []) }

  // ----- the round trip -----

  /** A key that printing, which does not encode keys, leaves readable. */
  predicate GoodKey(key: string) {
    Trimmed(key) && Lacks(key, '&') && Lacks(key, '=') && Lacks(key, '%') && Lacks(key, '+')
  }

  predicate Printable(p: seq<Pair>) { Sorted(p) && forall i | 0 <= i < |p| :: GoodKey(p[i].0) && Bytes(p[i].1) }

  lemma {:induction false} PairTextIsClean(pair: Pair)
    requires GoodKey(pair.0)
    ensures Trimmed(PairText(pair)) && Lacks(PairText(pair), '&')
    ensures Encode(pair.1) != "" ==> Trimmed(Encode(pair.1)) && Lacks(Encode(pair.1), '=')
  {
    EncodedAlphabet(pair.1);
    var e := Encode(pair.1);
    forall i | 0 <= i < |e| ensures e[i] != '&' && e[i] != '=' && !IsSpaceOrTab(e[i]) {
      assert EncodedChar(e[i]);
    }
    var t := PairText(pair);
    assert t[0] == pair.0[0];
    assert t[|t| - 1] == if e == "" then '=' else e[|e| - 1];
  }

  lemma {:induction false} PairIsRead(pair: Pair)
    requires GoodKey(pair.0) && Bytes(pair.1)
    ensures ReadPair(PairText(pair)) == Some(pair)
  {
    var e := Encode(pair.1);
    PairTextIsClean(pair);
    SplitFirst(pair.0, '=', e);
    PlainIsDecoded(pair.0);
    EncodedIsDecoded(pair.1);
    assert PairText(pair) == pair.0 + ['='] + e;
    if e == "" {
      assert Split("", '=') == [];
      assert Decode("", true) == "";
    } else {
      SplitOne(e, '=');
    }
  }

  function Texts(p: seq<Pair>): (kvs: seq<string>)
    ensures |kvs| == |p| && forall i | 0 <= i < |p| :: kvs[i] == PairText(p[i])
  {
    if p == [] then [] else [PairText(p[0])] + Texts(p[1..])
  }

  lemma {:induction false} JoinIsSplit(kv: string, rest: string)
    requires Trimmed(kv) && Lacks(kv, '&')
    ensures Split(kv + ("&" + rest), '&') == [kv] + Split(rest, '&')
  {
    SplitFirst(kv, '&', rest);
    assert kv + ("&" + rest) == kv + ['&'] + rest;
  }

  lemma {:induction false} PrintIsSplit(p: seq<Pair>)
    requires forall i | 0 <= i < |p| :: GoodKey(p[i].0)
    ensures Split(Print(p), '&') == Texts(p)
  {
    if p != [] {
      PairTextIsClean(p[0]);
      if |p| == 1 {
        SplitOne(PairText(p[0]), '&');
        assert PairText(p[0]) + "" == PairText(p[0]);
      } else {
        PrintIsSplit(p[1..]);
        JoinIsSplit(PairText(p[0]), Print(p[1..]));
      }
    }
  }

  predicate Distinct<T(==)>(s: seq<T>) { forall i, j | 0 <= i < j < |s| :: s[i] != s[j] }

  lemma {:induction false} DistinctTexts(p: seq<Pair>)
    requires Printable(p)
    ensures Distinct(Texts(p)) <==> Distinct(p)
  {
    forall i, j | 0 <= i < j < |p| ensures Texts(p)[i] == Texts(p)[j] <==> p[i] == p[j] {
      PairIsRead(p[i]);
      PairIsRead(p[j]);
    }
  }

  lemma {:induction false} TextsFrom(p: seq<Pair>, k: nat)
    requires k < |p|
    ensures var kvs := Texts(p)[k..]; kvs != [] && kvs[0] == PairText(p[k]) && kvs[1..] == Texts(p)[k + 1..]
    ensures p[..k] + [p[k]] == p[..k + 1]
  {
  }

  /** None of the texts from `k` on is in the cache. */
  predicate Unseen(kvs: seq<string>, k: nat, cache: set<string>) { forall i | k <= i < |kvs| :: kvs[i] !in cache }

  lemma {:induction false} StillUnseen(kvs: seq<string>, k: nat, cache: set<string>)
    requires k < |kvs| && Distinct(kvs) && Unseen(kvs, k, cache)
    ensures kvs[k] !in cache && Unseen(kvs, k + 1, cache + {kvs[k]})
  {
  }

  lemma {:induction false} NextParsed(kvs: seq<string>, cache: set<string>, p: seq<Pair>, pair: Pair)
    requires kvs != [] && kvs[0] !in cache && ReadPair(kvs[0]) == Some(pair)
    requires p == [] || !Less(pair.0, p[|p| - 1].0)
    ensures ParseAll(kvs, cache, p) == ParseAll(kvs[1..], cache + {kvs[0]}, p + [pair])
  {
  }

  lemma {:induction false} ParsesInOrder(p: seq<Pair>, k: nat, cache: set<string>)
    requires Printable(p) && k <= |p| && Distinct(Texts(p)) && Unseen(Texts(p), k, cache)
    ensures ParseAll(Texts(p)[k..], cache, p[..k]) == p
    decreases |p| - k
  {
    if k == |p| {
      assert p[..k] == p;
    } else {
      PairIsRead(p[k]);
      TextsFrom(p, k);
      StillUnseen(Texts(p), k, cache);
      NextParsed(Texts(p)[k..], cache, p[..k], p[k]);
      ParsesInOrder(p, k + 1, cache + {Texts(p)[k]});
    }
  }

  /** A repeated text is dropped. */
  lemma {:induction false} RepeatedIsDropped(kvs: seq<string>, cache: set<string>, p: seq<Pair>)
    ensures |ParseAll(kvs, cache, p)| <= |p| + |kvs|
    ensures (exists i :: 0 <= i < |kvs| && kvs[i] in cache) ==> |ParseAll(kvs, cache, p)| < |p| + |kvs|
    ensures !Distinct(kvs) ==> |ParseAll(kvs, cache, p)| < |p| + |kvs|
    decreases kvs
  {
    if kvs != [] {
      var kv, rest := kvs[0], kvs[1..];
      var next := if kv in cache then cache else cache + {kv};
      var q := if kv !in cache && ReadPair(kv).Some? then Insert(p, ReadPair(kv).value) else p;
      RepeatedIsDropped(rest, next, q);
      if i :| 0 <= i < |kvs| && kvs[i] in cache && kv !in cache {
        assert rest[i - 1] in next;
      }
      if !Distinct(kvs) && kv !in cache {
        var i, j :| 0 <= i < j < |kvs| && kvs[i] == kvs[j];
        assert rest[j - 1] == kvs[j];
        if i > 0 {
          assert rest[i - 1] == kvs[i];
        }
      }
    }
  }

  /** Printing and parsing give the parameters back exactly when no pair occurs twice. */
  lemma {:induction false} QueryRoundTripsExactlyWhen(p: seq<Pair>)
    requires Printable(p)
    ensures Parse(Print(p)) == p <==> Distinct(p)
  {
    PrintIsSplit(p);
    DistinctTexts(p);
    if Distinct(p) {
      ParsesInOrder(p, 0, {});
      assert Texts(p)[0..] == Texts(p) && p[..0] == [];
    } else {
      RepeatedIsDropped(Texts(p), {}, []);
    }
  }

  // ----- the loops -----

  lemma {:induction false} Nothing(a: string)
    ensures a + "" == a && "" + a == a
  {
  }

  method EncodeQueryParam(value: string) returns (escaped: string)
    ensures escaped == Encode(value)
  {
    escaped := "";
    var i := 0;
    assert value[0..] == value;
    Nothing(Encode(value));
    while i < |value|
      invariant 0 <= i <= |value|
      invariant Encode(value) == escaped + Encode(value[i..])
    {
      assert value[i..][1..] == value[i + 1..];
      Assoc(escaped, EncodeChar(value[i]), Encode(value[i + 1..]));
      escaped := escaped + EncodeChar(value[i]);
      i := i + 1;
    }
    Nothing(escaped);
  }

  lemma {:induction false} OneMoreDigit(s: string, i: nat, j: nat, cnt: nat)
    requires i <= j < i + cnt && j < |s| && AllDigits(s[i..j], 16)
    ensures IsDigit(s[j], 16) ==>
              AllDigits(s[i..j + 1], 16) && ValueOf(s[i..j + 1], 16) == 16 * ValueOf(s[i..j], 16) + DigitValue(s[j])
    ensures !IsDigit(s[j], 16) ==> HexAt(s, i, cnt) == None
  {
    var t := s[i..j + 1];
    assert t[..|t| - 1] == s[i..j] && t[|t| - 1] == s[j];
    assert forall k | 0 <= k < |t| :: t[k] == s[i + k];
    if i + cnt <= |s| {
      assert s[i..i + cnt][j - i] == s[j];
    }
  }

  /** `from_hex_to_i`; reading past the end finds the terminating NUL, which is no digit. */
  method FromHexToI(s: string, start: nat, cnt: nat) returns (r: Option<nat>)
    requires cnt > 0
    ensures r == HexAt(s, start, cnt)
  {
    if start >= |s| {
      return None;
    }
    var i, left, val := start, cnt, 0;
    assert s[start..start] == "";
    while left > 0
      invariant start <= i <= |s| && left == start + cnt - i
      invariant AllDigits(s[start..i], 16) && val == ValueOf(s[start..i], 16)
      decreases left
    {
      if i == |s| {
        return None;
      }
      OneMoreDigit(s, start, i, cnt);
      if !IsDigit(s[i], 16) {
        return None;
      }
      val := val * 16 + DigitValue(s[i]);
      i, left := i + 1, left - 1;
    }
    return Some(val);
  }

  lemma {:induction false} HexInSuffix(s: string, i: nat, from: nat, cnt: nat)
    requires i <= |s|
    ensures HexAt(s, i + from, cnt) == HexAt(s[i..], from, cnt)
  {
    if i + from + cnt <= |s| {
      assert s[i..][from..from + cnt] == s[i + from..i + from + cnt];
    }
  }

  method DecodeUrl(s: string, convertPlusToSpace: bool) returns (result: string)
    ensures result == Decode(s, convertPlusToSpace)
  {
    result := "";
    var i := 0;
    assert s[0..] == s;
    Nothing(Decode(s, convertPlusToSpace));
    while i < |s|
      invariant 0 <= i <= |s|
      invariant Decode(s, convertPlusToSpace) == result + Decode(s[i..], convertPlusToSpace)
      decreases |s| - i
    {
      ghost var t := s[i..];
      assert t[0] == s[i] && (i + 1 < |s| ==> t[1] == s[i + 1]);
      var text, n := [s[i]], 1;
      if s[i] == '%' && i + 1 < |s| {
        var unicode := s[i + 1] == 'u';
        HexInSuffix(s, i, if unicode then 2 else 1, if unicode then 4 else 2);
        var code := FromHexToI(s, if unicode then i + 2 else i + 1, if unicode then 4 else 2);
        if code.Some? {
          text := if unicode then Utf8(code.value) else [ByteChar(code.value)];
          n := if unicode then 6 else 3;
        }
      } else if convertPlusToSpace && s[i] == '+' {
        text := " ";
      }
      assert (text, n) == DecodeStep(t, convertPlusToSpace);
      assert t[n..] == s[i + n..];
      Assoc(result, text, Decode(s[i + n..], convertPlusToSpace));
      result := result + text;
      i := i + n;
    }
    Nothing(result);
  }

  /** What surrounds a segment is not blank: the ends of the text, or delimiters. */
  predicate Bounded(b: string, left: nat, right: nat) {
    left <= right <= |b| && (right < |b| ==> !IsSpaceOrTab(b[right])) && (left > 0 ==> !IsSpaceOrTab(b[left - 1]))
  }

  /** `trim`: the indices may cross when there is nothing but blanks. */
  method TrimIndices(b: string, left: nat, right: nat) returns (l: nat, r: nat)
    requires Bounded(b, left, right)
    ensures TrimCopy(b[left..right]) == if l < r <= |b| then b[l..r] else ""
    ensures l < r ==> r <= |b|
  {
    l, r := left, right;
    while l < |b| && IsSpaceOrTab(b[l])
      invariant left <= l <= right
      invariant TrimLeft(b[l..right]) == TrimLeft(b[left..right])
    {
      assert b[l..right][1..] == b[l + 1..right];
      l := l + 1;
    }
    ghost var t := b[l..right];
    assert TrimLeft(t) == t;
    while r > 0 && IsSpaceOrTab(b[r - 1])
      invariant 0 <= r <= right
      invariant l < right ==> l < r && TrimRight(b[l..r]) == TrimRight(t)
    {
      if l < right {
        assert b[l..r][..|b[l..r]| - 1] == b[l..r - 1];
      }
      r := r - 1;
    }
    if l < right {
      assert TrimRight(b[l..r]) == b[l..r];
    }
  }

  /** No delimiter from `beg` to `i`. */
  predicate LacksIn(b: string, beg: nat, i: nat, d: char)
    requires i <= |b|
  {
    forall k | beg <= k < i :: b[k] != d
  }

  /** The pieces so far, and those of the text from `beg` on. */
  ghost predicate SplitsOn(b: string, d: char, pieces: seq<string>, beg: nat)
    requires beg <= |b|
  {
    Split(b, d) == pieces + Split(b[beg..], d)
  }

  lemma {:induction false} SplitStart(b: string, d: char)
    ensures SplitsOn(b, d, [], 0)
  {
    assert b[0..] == b && [] + Split(b, d) == Split(b, d);
  }

  lemma {:induction false} SplitAt(b: string, beg: nat, i: nat, d: char)
    requires beg <= i < |b| && LacksIn(b, beg, i, d) && b[i] == d
    ensures Split(b[beg..], d) == Piece(b[beg..i]) + Split(b[i + 1..], d)
  {
    var s, a := b[beg..], b[beg..i];
    assert s == a + [d] + b[i + 1..];
    assert Lacks(a, d);
    UpToIs(a, d, b[i + 1..]);
  }

  lemma {:induction false} SplitNext(b: string, d: char, pieces: seq<string>, beg: nat, i: nat, piece: seq<string>)
    requires beg <= i < |b| && LacksIn(b, beg, i, d) && b[i] == d
    requires SplitsOn(b, d, pieces, beg) && piece == Piece(b[beg..i])
    ensures SplitsOn(b, d, pieces + piece, i + 1)
  {
    SplitAt(b, beg, i, d);
    AssocPieces(pieces, piece, Split(b[i + 1..], d));
  }

  lemma {:induction false} SplitEnd(b: string, d: char, pieces: seq<string>, beg: nat, piece: seq<string>)
    requires beg <= |b| && LacksIn(b, beg, |b|, d)
    requires SplitsOn(b, d, pieces, beg) && piece == Piece(b[beg..|b|])
    ensures Split(b, d) == pieces + piece
  {
    assert b[beg..|b|] == b[beg..];
    assert UpTo(b[beg..], d) == |b[beg..]|;
  }

  lemma {:induction false} AssocPieces(a: seq<string>, b: seq<string>, c: seq<string>)
    ensures a + (b + c) == a + b + c && a + [] == a && [] + a == a
  {
  }

  /** One segment: its trimmed text, unless that is empty. */
  method Segment(b: string, beg: nat, end: nat) returns (piece: seq<string>)
    requires Bounded(b, beg, end)
    ensures piece == Piece(b[beg..end])
  {
    var l, r := TrimIndices(b, beg, end);
    piece := if l < r then [b[l..r]] else [];
  }

  /** `split`, for a delimiter that is not blank. */
  method SplitText(b: string, d: char) returns (pieces: seq<string>)
    requires !IsSpaceOrTab(d)
    ensures pieces == Split(b, d)
  {
    pieces := [];
    var i, beg := 0, 0;
    SplitStart(b, d);
    while i < |b|
      invariant 0 <= beg <= i <= |b|
      invariant LacksIn(b, beg, i, d) && (beg > 0 ==> b[beg - 1] == d)
      invariant SplitsOn(b, d, pieces, beg)
    {
      if b[i] == d {
        var piece := Segment(b, beg, i);
        SplitNext(b, d, pieces, beg, i, piece);
        pieces := pieces + piece;
        beg := i + 1;
      }
      i := i + 1;
    }
    var piece := Segment(b, beg, i);
    SplitEnd(b, d, pieces, beg, piece);
    if i > 0 {
      pieces := pieces + piece;
    }
  }

  /** The text so far, and what is still to be printed. */
  ghost predicate PrintsOn(params: seq<Pair>, query: string, i: nat)
    requires i <= |params|
  {
    Print(params) == query + (if 0 < i < |params| then "&" else "") + Print(params[i..])
  }

  lemma {:induction false} PrintStart(params: seq<Pair>)
    ensures PrintsOn(params, "", 0)
  {
    assert params[0..] == params;
    Nothing(Print(params));
  }

  lemma {:induction false} PrintNext(params: seq<Pair>, query: string, i: nat)
    requires i < |params| && PrintsOn(params, query, i)
    ensures PrintsOn(params, query + (if i > 0 then "&" else "") + PairText(params[i]), i + 1)
  {
    assert params[i..][1..] == params[i + 1..] && params[i..][0] == params[i];
    var before := query + (if i > 0 then "&" else "");
    var mark := if i + 1 < |params| then "&" else "";
    var rest := Print(params[i + 1..]);
    assert Print(params[i..]) == PairText(params[i]) + (mark + rest);
    Assoc(before, PairText(params[i]), mark + rest);
    Assoc(before + PairText(params[i]), mark, rest);
  }

  lemma {:induction false} PrintEnd(params: seq<Pair>, query: string)
    requires PrintsOn(params, query, |params|)
    ensures Print(params) == query
  {
    assert params[|params|..] == [];
    Nothing(query);
  }

  method ParamsToQueryStr(params: seq<Pair>) returns (query: string)
    ensures query == Print(params)
  {
    query := "";
    var i := 0;
    PrintStart(params);
    while i < |params|
      invariant 0 <= i <= |params|
      invariant PrintsOn(params, query, i)
    {
      PrintNext(params, query, i);
      var value := EncodeQueryParam(params[i].1);
      Nothing(query);
      if i > 0 {
        query := query + "&";
      }
      Assoc(params[i].0, "=", value);
      Assoc(query, params[i].0, "=" + value);
      Assoc(query + params[i].0, "=", value);
      query := query + params[i].0;
      query := query + "=";
      query := query + value;
      i := i + 1;
    }
    PrintEnd(params, query);
  }

  /** The two segments of one parameter. */
  method ReadKeyValue(kv: string) returns (pair: Option<Pair>)
    ensures pair == ReadPair(kv)
  {
    var parts := SplitText(kv, '=');
    var key, val := "", "";
    var i := 0;
    PiecesAreNotEmpty(kv, '=');
    while i < |parts|
      invariant 0 <= i <= |parts|
      invariant key == if i == 0 then "" else parts[0]
      invariant val == if i <= 1 then "" else parts[i - 1]
    {
      if key == "" {
        key := parts[i];
      } else {
        val := parts[i];
      }
      i := i + 1;
    }
    if key == "" {
      return None;
    }
    var k := DecodeUrl(key, true);
    var v := DecodeUrl(val, true);
    return Some((k, v));
  }

  lemma {:induction false} PiecesAreNotEmpty(s: string, d: char)
    ensures forall i | 0 <= i < |Split(s, d)| :: Split(s, d)[i] != ""
  {
    var k := UpTo(s, d);
    if k < |s| {
      PiecesAreNotEmpty(s[k + 1..], d);
    }
  }

  method ParseQueryText(s: string) returns (params: seq<Pair>)
    ensures params == Parse(s)
  {
    params := [];
    var cache: set<string> := {};
    var kvs := SplitText(s, '&');
    var i := 0;
    assert kvs[0..] == kvs;
    while i < |kvs|
      invariant 0 <= i <= |kvs|
      invariant ParseAll(kvs[i..], cache, params) == Parse(s)
    {
      assert kvs[i..][1..] == kvs[i + 1..];
      if kvs[i] !in cache {
        cache := cache + {kvs[i]};
        var pair := ReadKeyValue(kvs[i]);
        if pair.Some? {
          params := Insert(params, pair.value);
        }
      }
      i := i + 1;
    }
  }
}
