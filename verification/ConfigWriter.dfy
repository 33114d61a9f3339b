/** The writer of libconfig, and the proof that the scanner reads its text as the expected tokens. */
module ConfigWriter {
  import opened Text
  import opened Numerals
  import opened ConfigValue
  import opened ConfigLexer

  // ----- what is written -----

  function EscapeChar(c: char): string {
    if c == '"' || c == '\\' then ['\\', c]
    else if c == '\n' then "\\n"
    else if c == '\r' then "\\r"
    else if c == 12 as char then "\\f"
    else if c == '\t' then "\\t"
    else if c >= ' ' then [c]
    else ['\\', 'x', DigitChar(c as int / 16, true), DigitChar(c as int % 16, true)]
  }

  function EscapeAll(s: string): string {
    if s == "" then "" else EscapeChar(s[0]) + EscapeAll(s[1..])
  }

  function Decimal(n: int): string {
    if n < 0 then "-" + Print(0 - n, 10, true) else Print(n, 10, true)
  }

  function Hex(n: nat): string { "0x" + Print(n, 16, true) }

  /** `%X` and `%llX` print the bits of a negative number. */
  function Bits(n: int, width: int): (r: nat)
    requires width > 0
  {
    n % width
  }

  const WIDTH32: int := 0x1_0000_0000
  const WIDTH64: int := 0x1_0000_0000_0000_0000

  function WriteScalar(v: Value): string {
    match v
    case VBool(b) => if b then "true" else "false"
    case VInt(i, hex) =>
      if hex then Hex(Bits(i, WIDTH32)) else Decimal(i)
    case VInt64(ll, hex) =>
      (if hex then Hex(Bits(ll, WIDTH64)) else Decimal(ll)) + "L"
    case VString(s) => "\"" + EscapeAll(s) + "\""
    case VFloat(text) => text
    case _ => "???"
  }

  function Repeat(c: char, n: nat): string { if n == 0 then "" else [c] + Repeat(c, n - 1) }

  function Columns(levels: nat, width: nat): nat { levels * width }

  /** A width of 0 indents with tabs; the first two levels are not indented. */
  function Indent(depth: nat, width: nat): string {
    if depth <= 1 then ""
    else if width > 0 then Repeat(' ', Columns(depth - 1, width))
    else Repeat('\t', depth - 1)
  }

  function WriteValue(v: Value, depth: nat, width: nat): string
    decreases v, 0
  {
    match v
    case VList(elems) => "( " + WriteElems(elems, depth + 1, width) + ")"
    case VArray(elems) => "[ " + WriteElems(elems, depth + 1, width) + "]"
    case VGroup(members) =>
      (if depth > 0 then "\n" + Indent(depth, width) + "{\n" else "")
      + WriteMembers(members, depth + 1, width)
      + Indent(depth, width) + (if depth > 0 then "}" else "")
    case _ => WriteScalar(v)
  }

  function WriteElems(elems: seq<Value>, depth: nat, width: nat): string
    decreases elems, 1
  {
    if elems == [] then ""
    else
      WriteValue(elems[0], depth, width) + (if |elems| > 1 then "," else "") + " "
      + WriteElems(elems[1..], depth, width)
  }

  function WriteMember(m: Member, depth: nat, width: nat): string
    requires depth > 0
    decreases m, 2
  {
    Indent(depth, width) + m.name + (if m.value.VGroup? then " : " else " = ")
    + WriteValue(m.value, depth, width) + ";\n"
  }

  function WriteMembers(members: seq<Member>, depth: nat, width: nat): string
    requires depth > 0
    decreases members, 3
  {
    if members == [] then "" else WriteMember(members[0], depth, width) + WriteMembers(members[1..], depth, width)
  }

  /** The whole file: the members of the root group. */
  function WriteConfig(members: seq<Member>, width: nat): string { WriteValue(VGroup(members), 0, width) }

  // ----- the tokens -----

  function ScalarToken(v: Value): Token {
    match v
    case VBool(b) => TBool(b)
    case VInt(i, hex) => if hex then THex(i) else TInt(i)
    case VInt64(ll, hex) => if hex then THex64(ll) else TInt64(ll)
    case VString(s) => TString(s)
    case _ => TGarbage
  }

  function TokensOf(v: Value): seq<Token>
    decreases v, 0
  {
    match v
    case VList(elems) => [TListStart] + ElemTokens(elems) + [TListEnd]
    case VArray(elems) => [TArrayStart] + ElemTokens(elems) + [TArrayEnd]
    case VGroup(members) => [TGroupStart] + MemberTokens(members) + [TGroupEnd]
    case _ => [ScalarToken(v)]
  }

  function ElemTokens(elems: seq<Value>): seq<Token>
    decreases elems, 1
  {
    if elems == [] then []
    else TokensOf(elems[0]) + (if |elems| > 1 then [TComma] else []) + ElemTokens(elems[1..])
  }

  /** The scanner does not read `true` and `false`, in any case, as names. */
  function NameToken(name: string): Token {
    if EqualsIgnoringCase(name, "true") then TBool(true)
    else if EqualsIgnoringCase(name, "false") then TBool(false)
    else TName(name)
  }

  function MemberTokens(members: seq<Member>): seq<Token>
    decreases members, 1
  {
    if members == [] then []
    else [NameToken(members[0].name), TEquals] + TokensOf(members[0].value) + [TSemicolon] + MemberTokens(members[1..])
  }

  // ----- values that can be written and read back: all but floats, which lose digits -----

  predicate ScalarFits(v: Value) {
    match v
    case VInt(i, _) => FitsInt32(i)
    case VInt64(ll, _) => FitsInt64(ll)
    case VString(s) => NulFree(s)
    case VFloat(_) => false
    case _ => true
  }

  predicate Writable(v: Value)
    decreases v, 0
  {
    match v
    case VArray(elems) =>
      forall i | 0 <= i < |elems| :: IsScalar(elems[i]) && ScalarFits(elems[i]) && SameKind(elems[i], elems[0])
    case VList(elems) => forall i | 0 <= i < |elems| :: Writable(elems[i])
    case VGroup(members) => WritableMembers(members)
    case VNone => false
    case _ => ScalarFits(v)
  }

  predicate WritableMembers(members: seq<Member>)
    decreases members, 1
  {
    && (forall i | 0 <= i < |members| ::
          ValidName(members[i].name) && Writable(members[i].value))
    && (forall i, j | 0 <= i < j < |members| :: members[i].name != members[j].name)
  }

  // ----- texts and the tokens they are read as -----

  predicate Delimits(rest: string) { rest != "" && (rest[0] == ' ' || rest[0] == ',' || rest[0] == ';') }

  /** Wherever `text` stands, the scanner reads it as `toks` and goes on after it. */
  ghost predicate Solid(text: string, toks: seq<Token>) {
    forall rest: string :: Lex(text + rest) == toks + Lex(rest)
  }

  /** The same, when a delimiter follows. */
  ghost predicate Soft(text: string, toks: seq<Token>) {
    forall rest: string | Delimits(rest) :: Lex(text + rest) == toks + Lex(rest)
  }

  lemma {:induction false} SolidEmpty()
    ensures Solid("", [])
  {
    forall rest: string ensures Lex("" + rest) == [] + Lex(rest) {
      assert "" + rest == rest;
    }
  }

  lemma {:induction false} SolidIsSoft(a: string, ta: seq<Token>)
    requires Solid(a, ta)
    ensures Soft(a, ta)
  {
  }

  lemma {:induction false} Glue(a: string, ta: seq<Token>, b: string, tb: seq<Token>, rest: string)
    requires Lex(a + (b + rest)) == ta + Lex(b + rest) && Lex(b + rest) == tb + Lex(rest)
    ensures Lex((a + b) + rest) == (ta + tb) + Lex(rest)
  {
    assert (a + b) + rest == a + (b + rest);
    assert (ta + tb) + Lex(rest) == ta + (tb + Lex(rest));
  }

  lemma {:induction false} SolidSolid(a: string, ta: seq<Token>, b: string, tb: seq<Token>)
    requires Solid(a, ta) && Solid(b, tb)
    ensures Solid(a + b, ta + tb)
  {
    forall rest: string ensures Lex((a + b) + rest) == (ta + tb) + Lex(rest) {
      Glue(a, ta, b, tb, rest);
    }
  }

  lemma {:induction false} SoftSolid(a: string, ta: seq<Token>, b: string, tb: seq<Token>)
    requires Soft(a, ta) && Solid(b, tb) && Delimits(b)
    ensures Solid(a + b, ta + tb)
  {
    forall rest: string ensures Lex((a + b) + rest) == (ta + tb) + Lex(rest) {
      assert Delimits(b + rest);
      Glue(a, ta, b, tb, rest);
    }
  }

  lemma {:induction false} SolidSoft(a: string, ta: seq<Token>, b: string, tb: seq<Token>)
    requires Solid(a, ta) && Soft(b, tb)
    ensures Soft(a + b, ta + tb)
  {
    forall rest: string | Delimits(rest) ensures Lex((a + b) + rest) == (ta + tb) + Lex(rest) {
      Glue(a, ta, b, tb, rest);
    }
  }

  /** A blank in front of a text adds no token. */
  lemma {:induction false} SolidBlank(a: string, b: string, tb: seq<Token>)
    requires Solid(a, []) && Solid(b, tb)
    ensures Solid(a + b, tb)
  {
    SolidSolid(a, [], b, tb);
    assert [] + tb == tb;
  }

  lemma {:induction false} LexStep(s: string)
    requires s != ""
    ensures LexOne(s).Skip? ==> Lex(s) == Lex(LexOne(s).rest)
    ensures LexOne(s).Tok? ==> Lex(s) == [LexOne(s).token] + Lex(LexOne(s).rest)
  {
  }

  lemma {:induction false} BlankIsSkipped(c: char, rest: string)
    requires IsBlank(c)
    ensures LexOne([c] + rest) == Skip(rest)
  {
    assert ([c] + rest)[1..] == rest;
  }

  lemma {:induction false} BlankIsSolid(c: char)
    requires IsBlank(c)
    ensures Solid([c], [])
  {
    forall rest: string ensures Lex([c] + rest) == [] + Lex(rest) {
      BlankIsSkipped(c, rest);
      LexStep([c] + rest);
    }
  }

  lemma {:induction false} PunctuationIsRead(c: char, t: Token, rest: string)
    requires Punctuation(c) == Some(t)
    ensures LexOne([c] + rest) == Tok(t, rest)
  {
    assert ([c] + rest)[1..] == rest;
  }

  lemma {:induction false} PunctuationIsSolid(c: char, t: Token)
    requires Punctuation(c) == Some(t)
    ensures Solid([c], [t])
  {
    forall rest: string ensures Lex([c] + rest) == [t] + Lex(rest) {
      PunctuationIsRead(c, t, rest);
      LexStep([c] + rest);
    }
  }

  lemma {:induction false} OneMoreBlank(c: char, blanks: string)
    requires IsBlank(c) && Solid(blanks, [])
    ensures Solid([c] + blanks, [])
  {
    BlankIsSolid(c);
    SolidBlank([c], blanks, []);
  }

  predicate AllBlank(text: string) { forall i | 0 <= i < |text| :: IsBlank(text[i]) }

  lemma {:induction false} BlanksAreSolid(text: string)
    requires AllBlank(text)
    ensures Solid(text, [])
  {
    if text == "" {
      SolidEmpty();
    } else {
      BlanksAreSolid(text[1..]);
      OneMoreBlank(text[0], text[1..]);
      assert text == [text[0]] + text[1..];
    }
  }

  // ----- string literals -----

  lemma {:induction false} EscapeIsUndone(c: char, rest: string)
    requires c != 0 as char
    ensures var e := EscapeChar(c);
            && e != "" && e[0] != '"'
            && (if e[0] == '\\' then Escape(e + rest) == ([c], |e|) else e == [c])
  {
    var e := EscapeChar(c);
    var t := e + rest;
    assert t[0] == e[0];
    if c < ' ' && |e| == 4 {
      var hi, lo := c as int / 16, c as int % 16;
      assert t[1] == 'x' && t[2] == DigitChar(hi, true) && t[3] == DigitChar(lo, true);
      assert DigitValue(DigitChar(hi, true)) == hi && DigitValue(DigitChar(lo, true)) == lo;
      assert 16 * hi + lo == c as int;
    } else if |e| == 2 {
      assert t[1] == e[1];
    }
  }

  lemma {:induction false} ReadOneMore(c: char, e: string, more: string, s: string, rest: string)
    requires e != "" && e[0] != '"' && ReadString(more) == Some((s, rest))
    requires if e[0] == '\\' then Escape(e + more) == ([c], |e|) else e == [c]
    ensures ReadString(e + more) == Some(([c] + s, rest))
  {
    var t := e + more;
    assert t[0] == e[0] && t[|e|..] == more;
  }

  lemma {:induction false} EscapeHead(s: string, close: string)
    requires s != ""
    ensures EscapeAll(s) + close == EscapeChar(s[0]) + (EscapeAll(s[1..]) + close)
    ensures [s[0]] + s[1..] == s
  {
    Assoc(EscapeChar(s[0]), EscapeAll(s[1..]), close);
  }

  /** String escaping is undone at character level, for every string without NUL. */
  lemma {:induction false} EscapingIsUndone(s: string, rest: string)
    requires NulFree(s)
    ensures ReadString(EscapeAll(s) + ("\"" + rest)) == Some((s, rest))
  {
    var close := "\"" + rest;
    if s == "" {
      assert "" + close == close && close[1..] == rest;
    } else {
      var more := EscapeAll(s[1..]) + close;
      EscapingIsUndone(s[1..], rest);
      EscapeIsUndone(s[0], more);
      ReadOneMore(s[0], EscapeChar(s[0]), more, s[1..], rest);
      EscapeHead(s, close);
    }
  }

  lemma {:induction false} QuotedIsRead(e: string, s: string, rest: string)
    requires ReadString(e + ("\"" + rest)) == Some((s, rest))
    ensures LexOne("\"" + e + "\"" + rest) == Tok(TString(s), rest)
  {
    var t := "\"" + e + "\"" + rest;
    assert t[0] == '"' && t[1..] == e + ("\"" + rest);
    assert LexOne(t) == LexOther(t);
  }

  lemma {:induction false} StringIsRead(s: string, rest: string)
    requires NulFree(s)
    ensures LexOne("\"" + EscapeAll(s) + "\"" + rest) == Tok(TString(s), rest)
  {
    EscapingIsUndone(s, rest);
    QuotedIsRead(EscapeAll(s), s, rest);
  }

  lemma {:induction false} StringIsSolid(s: string)
    requires NulFree(s)
    ensures Solid("\"" + EscapeAll(s) + "\"", [TString(s)])
  {
    forall rest: string ensures Lex("\"" + EscapeAll(s) + "\"" + rest) == [TString(s)] + Lex(rest) {
      StringIsRead(s, rest);
      LexStep("\"" + EscapeAll(s) + "\"" + rest);
    }
  }

  // ----- words -----

  lemma {:induction false} NameRunStops(s: string, k: nat)
    requires k <= |s| && (forall i | 0 <= i < k :: IsNameChar(s[i])) && (k < |s| ==> !IsNameChar(s[k]))
    ensures NameRun(s) == k
  {
    var r := NameRun(s);
  }

  lemma {:induction false} WordEnds(w: string, rest: string)
    requires ValidName(w) && Delimits(rest)
    ensures var t := w + rest; t[0] == w[0] && 1 + NameRun(t[1..]) == |w| && t[..|w|] == w && t[|w|..] == rest
  {
    var t := w + rest;
    assert t[1..] == w[1..] + rest;
    NameRunStops(t[1..], |w| - 1);
  }

  lemma {:induction false} NameStartIsNothingElse(c: char)
    requires IsNameStart(c)
    ensures !IsBlank(c) && Punctuation(c) == None
  {
  }

  lemma {:induction false} WordIsRead(w: string, rest: string)
    requires ValidName(w) && Delimits(rest)
    ensures LexOne(w + rest) == Tok(NameToken(w), rest)
  {
    WordEnds(w, rest);
    NameStartIsNothingElse(w[0]);
    assert LexOne(w + rest) == Word(w + rest);
  }

  lemma {:induction false} NameIsSoft(name: string)
    requires ValidName(name)
    ensures Soft(name, [NameToken(name)])
  {
    forall rest: string | Delimits(rest) ensures Lex(name + rest) == [NameToken(name)] + Lex(rest) {
      WordIsRead(name, rest);
      LexStep(name + rest);
    }
  }

  lemma {:induction false} BoolIsSoft(b: bool)
    ensures Soft(if b then "true" else "false", [TBool(b)])
  {
    var w := if b then "true" else "false";
    assert EqualsIgnoringCase(w, if b then "true" else "false");
    assert !b ==> !EqualsIgnoringCase(w, "true");
    forall rest: string | Delimits(rest) ensures Lex(w + rest) == [TBool(b)] + Lex(rest) {
      WordIsRead(w, rest);
      LexStep(w + rest);
    }
  }

  // ----- numbers -----

  /** What may follow a number that is written: a delimiter, or the suffix of a 64-bit integer. */
  predicate EndsNumber(rest: string) { Delimits(rest) || (rest != "" && rest[0] == 'L') }

  lemma {:induction false} SliceOfConcat(t: string, from: nat, a: string, b: string)
    requires from <= |t| && t[from..] == a + b
    ensures from + |a| <= |t| && t[from..from + |a|] == a && t[from + |a|..] == b
  {
    assert t[from..from + |a|] == t[from..][..|a|];
    assert t[from + |a|..] == t[from..][|a|..];
  }

  lemma {:induction false} AfterDigitsIs(t: string, sign: nat, n: nat, digits: string, rest: string)
    requires sign <= 1 && sign < n <= |t| && t[sign..n] == digits && t[n..] == rest && EndsNumber(rest)
    ensures AfterDigits(t, sign, n) == Whole(Signed(t[0] == '-', ValueOf(digits, 10)), rest)
  {
  }

  lemma {:induction false} DigitsAreRead(t: string, sign: nat, digits: string, rest: string)
    requires sign <= 1 && sign <= |t| && t[sign..] == digits + rest && digits != "" && AllDigits(digits, 10)
    requires EndsNumber(rest)
    ensures sign + DigitRun(t[sign..], 10) == sign + |digits| <= |t| && t[sign..sign + |digits|] == digits
    ensures AfterDigits(t, sign, sign + |digits|) == Whole(Signed(t[0] == '-', ValueOf(digits, 10)), rest)
  {
    DigitsThenRest(digits, rest, 10);
    SliceOfConcat(t, sign, digits, rest);
    AfterDigitsIs(t, sign, sign + |digits|, digits, rest);
  }

  lemma {:induction false} DigitsAreNotHex(t: string, digits: string, rest: string)
    requires t == digits + rest && digits != "" && AllDigits(digits, 10) && EndsNumber(rest)
    ensures IsDigit(t[0], 10) && |t| >= 2 && t[1] != 'x' && t[1] != 'X'
  {
    assert t[0] == digits[0] && IsDigit(digits[0], 10);
    if |digits| > 1 {
      assert t[1] == digits[1] && IsDigit(digits[1], 10);
    } else {
      assert t[1] == rest[0];
    }
  }

  lemma {:induction false} PlainDecimal(t: string, digits: string, rest: string)
    requires t == digits + rest && digits != "" && AllDigits(digits, 10) && EndsNumber(rest)
    ensures Number(t) == Whole(Signed(false, ValueOf(digits, 10)), rest)
  {
    DigitsAreNotHex(t, digits, rest);
    assert t[0..] == t;
    DigitsAreRead(t, 0, digits, rest);
  }

  lemma {:induction false} NegativeDecimal(t: string, digits: string, rest: string)
    requires t == "-" + (digits + rest) && digits != "" && AllDigits(digits, 10) && EndsNumber(rest)
    ensures Number(t) == Whole(Signed(true, ValueOf(digits, 10)), rest)
  {
    assert t[0] == '-' && t[1..] == digits + rest;
    DigitsAreRead(t, 1, digits, rest);
  }

  lemma {:induction false} NegativeIsRead(m: nat, digits: string, rest: string)
    requires digits != "" && AllDigits(digits, 10) && ValueOf(digits, 10) == m && EndsNumber(rest)
    requires m <= 0x8000_0000_0000_0000
    ensures Number("-" + digits + rest) == Whole(0 - m, rest)
  {
    assert "-" + digits + rest == "-" + (digits + rest);
    NegativeDecimal("-" + digits + rest, digits, rest);
  }

  lemma {:induction false} NonNegativeIsRead(m: nat, digits: string, rest: string)
    requires digits != "" && AllDigits(digits, 10) && ValueOf(digits, 10) == m && EndsNumber(rest)
    requires m < 0x8000_0000_0000_0000
    ensures Number(digits + rest) == Whole(m, rest)
  {
    PlainDecimal(digits + rest, digits, rest);
  }

  lemma {:induction false} DecimalIsRead(n: int, rest: string)
    requires EndsNumber(rest) && FitsInt64(n)
    ensures Number(Decimal(n) + rest) == Whole(n, rest)
  {
    if n < 0 {
      PrintIsRead(0 - n, 10, true);
      NegativeIsRead(0 - n, Print(0 - n, 10, true), rest);
    } else {
      PrintIsRead(n, 10, true);
      NonNegativeIsRead(n, Print(n, 10, true), rest);
    }
  }

  lemma {:induction false} HexDigitsAreRead(t: string, digits: string, rest: string)
    requires t == "0x" + (digits + rest) && digits != "" && AllDigits(digits, 16) && EndsNumber(rest)
    ensures 2 + |digits| <= |t| && t[2..2 + |digits|] == digits && t[2 + |digits|..] == rest
    ensures Number(t) == Hexadecimal(t, 2 + |digits|)
  {
    assert t[0] == '0' && t[1] == 'x' && t[2..] == digits + rest;
    DigitsThenRest(digits, rest, 16);
    SliceOfConcat(t, 2, digits, rest);
  }

  function HexLexeme(n: nat, rest: string): Lexeme {
    var l := LongSuffix(rest);
    if l == 0 then Tok(THex(ToInt32(n)), rest) else Tok(THex64(ToInt64(n)), rest[l..])
  }

  lemma {:induction false} HexIsRead(n: nat, rest: string)
    requires EndsNumber(rest) && n < WIDTH64
    ensures Number(Hex(n) + rest) == HexLexeme(n, rest)
  {
    var p := Print(n, 16, true);
    assert Hex(n) + rest == "0x" + (p + rest);
    HexDigitsAreRead(Hex(n) + rest, p, rest);
    PrintIsRead(n, 16, true);
  }

  /** The bits of a number, read back as a signed one, give the number. */
  lemma {:induction false} BitsAreSigned(n: int)
    ensures FitsInt32(n) ==> ToInt32(Bits(n, WIDTH32)) == n
    ensures FitsInt64(n) ==> ToInt64(Bits(n, WIDTH64)) == n
    ensures FitsInt32(n) ==> ToInt32(n) == n
  {
  }

  /** The scanner takes `text`, when a delimiter follows, as the token `t`. */
  ghost predicate ReadAs(text: string, t: Token) {
    text != "" && forall rest: string | Delimits(rest) :: LexOne(text + rest) == Tok(t, rest)
  }

  lemma {:induction false} ReadAsIsSoft(text: string, t: Token)
    requires ReadAs(text, t)
    ensures Soft(text, [t])
  {
    forall rest: string | Delimits(rest) ensures Lex(text + rest) == [t] + Lex(rest) {
      LexStep(text + rest);
    }
  }

  lemma {:induction false} NumberClass(c: char)
    requires c == '-' || IsDecimal(c)
    ensures !IsBlank(c) && Punctuation(c) == None && !IsNameStart(c)
  {
  }

  predicate StartsNumber(text: string) { text != "" && (text[0] == '-' || IsDecimal(text[0])) }

  lemma {:induction false} NumberIsReadAs(text: string, t: Token)
    requires StartsNumber(text)
    requires forall rest: string | Delimits(rest) :: Number(text + rest) == Tok(t, rest)
    ensures Soft(text, [t])
  {
    forall rest: string | Delimits(rest) ensures LexOne(text + rest) == Tok(t, rest) {
      NumberClass((text + rest)[0]);
    }
    ReadAsIsSoft(text, t);
  }

  lemma {:induction false} DecimalStarts(n: int)
    ensures StartsNumber(Decimal(n))
  {
    if n >= 0 {
      assert IsDigit(Print(n, 10, true)[0], 10);
    }
  }

  lemma {:induction false} NoSuffix(rest: string)
    requires Delimits(rest)
    ensures LongSuffix(rest) == 0 && LongSuffix("L" + rest) == 1 && ("L" + rest)[1..] == rest
  {
    var t := "L" + rest;
    assert t[0] == 'L' && t[1..] == rest;
  }

  lemma {:induction false} IntIsSoft(i: int)
    requires FitsInt32(i)
    ensures Soft(Decimal(i), [TInt(i)])
  {
    DecimalStarts(i);
    BitsAreSigned(i);
    forall rest: string | Delimits(rest) ensures Number(Decimal(i) + rest) == Tok(TInt(i), rest) {
      DecimalIsRead(i, rest);
      NoSuffix(rest);
    }
    NumberIsReadAs(Decimal(i), TInt(i));
  }

  lemma {:induction false} HexIsSoft(i: int)
    requires FitsInt32(i)
    ensures Soft(Hex(Bits(i, WIDTH32)), [THex(i)])
  {
    var n := Bits(i, WIDTH32);
    BitsAreSigned(i);
    forall rest: string | Delimits(rest) ensures Number(Hex(n) + rest) == Tok(THex(i), rest) {
      HexIsRead(n, rest);
      NoSuffix(rest);
    }
    NumberIsReadAs(Hex(n), THex(i));
  }

  lemma {:induction false} Int64IsSoft(ll: int)
    requires FitsInt64(ll)
    ensures Soft(Decimal(ll) + "L", [TInt64(ll)])
  {
    DecimalStarts(ll);
    var text := Decimal(ll) + "L";
    forall rest: string | Delimits(rest) ensures Number(text + rest) == Tok(TInt64(ll), rest) {
      NoSuffix(rest);
      assert text + rest == Decimal(ll) + ("L" + rest);
      DecimalIsRead(ll, "L" + rest);
    }
    NumberIsReadAs(text, TInt64(ll));
  }

  lemma {:induction false} Hex64IsSoft(ll: int)
    requires FitsInt64(ll)
    ensures Soft(Hex(Bits(ll, WIDTH64)) + "L", [THex64(ll)])
  {
    var n := Bits(ll, WIDTH64);
    var text := Hex(n) + "L";
    BitsAreSigned(ll);
    forall rest: string | Delimits(rest) ensures Number(text + rest) == Tok(THex64(ll), rest) {
      NoSuffix(rest);
      assert text + rest == Hex(n) + ("L" + rest);
      HexIsRead(n, "L" + rest);
    }
    NumberIsReadAs(text, THex64(ll));
  }

  lemma {:induction false} ScalarIsSoft(v: Value)
    requires IsScalar(v) && ScalarFits(v)
    ensures Soft(WriteScalar(v), [ScalarToken(v)])
  {
    match v
    case VBool(b) => BoolIsSoft(b);
    case VInt(i, hex) => if hex { HexIsSoft(i); } else { IntIsSoft(i); }
    case VInt64(ll, hex) => if hex { Hex64IsSoft(ll); } else { Int64IsSoft(ll); }
    case VString(s) =>
      StringIsSolid(s);
      SolidIsSoft(WriteScalar(v), [ScalarToken(v)]);
  }

  // ----- whole values -----

  lemma {:induction false} RepeatIsBlank(c: char, n: nat)
    requires IsBlank(c)
    ensures AllBlank(Repeat(c, n))
  {
    if n > 0 {
      RepeatIsBlank(c, n - 1);
    }
  }

  lemma {:induction false} IndentIsBlank(depth: nat, width: nat)
    ensures AllBlank(Indent(depth, width))
  {
    if depth > 1 {
      RepeatIsBlank(' ', Columns(depth - 1, width));
      RepeatIsBlank('\t', depth - 1);
    }
  }

  lemma {:induction false} IndentIsSolid(depth: nat, width: nat)
    ensures Solid(Indent(depth, width), [])
  {
    IndentIsBlank(depth, width);
    BlanksAreSolid(Indent(depth, width));
  }

  /** A punctuation mark and a blank after it. */
  lemma {:induction false} MarkIsSolid(c: char, blank: char, t: Token)
    requires Punctuation(c) == Some(t) && IsBlank(blank)
    ensures Solid([c, blank], [t])
  {
    PunctuationIsSolid(c, t);
    BlankIsSolid(blank);
    SolidSolid([c], [t], [blank], []);
    assert [c] + [blank] == [c, blank] && [t] + [] == [t];
  }

  lemma {:induction false} Bracketed(open: char, body: string, close: char, to: Token, toks: seq<Token>, tc: Token)
    requires Punctuation(open) == Some(to) && Punctuation(close) == Some(tc) && Solid(body, toks)
    ensures Solid([open, ' '] + body + [close], [to] + toks + [tc])
  {
    MarkIsSolid(open, ' ', to);
    PunctuationIsSolid(close, tc);
    SolidSolid([open, ' '], [to], body, toks);
    SolidSolid([open, ' '] + body, [to] + toks, [close], [tc]);
  }

  lemma {:induction false} OpenBrace(ind: string)
    requires Solid(ind, [])
    ensures Solid("\n" + ind + "{\n", [TGroupStart])
  {
    BlankIsSolid('\n');
    SolidBlank("\n", ind, []);
    MarkIsSolid('{', '\n', TGroupStart);
    SolidBlank("\n" + ind, "{\n", [TGroupStart]);
  }

  lemma {:induction false} CloseBrace(ind: string)
    requires Solid(ind, [])
    ensures Solid(ind + "}", [TGroupEnd])
  {
    PunctuationIsSolid('}', TGroupEnd);
    SolidBlank(ind, "}", [TGroupEnd]);
  }

  lemma {:induction false} Braced(open: string, ind: string, body: string, toks: seq<Token>)
    requires Solid(open, [TGroupStart]) && Solid(ind, []) && Solid(body, toks)
    ensures Solid(open + body + ind + "}", [TGroupStart] + toks + [TGroupEnd])
  {
    CloseBrace(ind);
    var inner, its := open + body, [TGroupStart] + toks;
    SolidSolid(open, [TGroupStart], body, toks);
    SolidSolid(inner, its, ind + "}", [TGroupEnd]);
    assert inner + (ind + "}") == inner + ind + "}";
  }

  lemma {:induction false} LastElement(a: string, ta: seq<Token>)
    requires Soft(a, ta)
    ensures Solid(a + "" + " " + "", ta + [] + [])
  {
    BlankIsSolid(' ');
    SoftSolid(a, ta, " ", []);
    assert a + "" + " " + "" == a + " ";
  }

  lemma {:induction false} NextElement(a: string, ta: seq<Token>, b: string, tb: seq<Token>)
    requires Soft(a, ta) && Solid(b, tb)
    ensures Solid(a + "," + " " + b, ta + [TComma] + tb)
  {
    MarkIsSolid(',', ' ', TComma);
    SoftSolid(a, ta, ", ", [TComma]);
    SolidSolid(a + ", ", ta + [TComma], b, tb);
    assert a + ", " + b == a + "," + " " + b;
  }

  lemma {:induction false} NamedValue(ind: string, name: string, mark: string, a: string, ta: seq<Token>)
    requires Solid(ind, []) && ValidName(name) && Soft(a, ta)
    requires mark == " : " || mark == " = "
    ensures Solid(ind + name + mark + a + ";\n", [NameToken(name), TEquals] + ta + [TSemicolon])
  {
    var n := NameToken(name);
    NameIsSoft(name);
    SolidSoft(ind, [], name, [n]);
    assert [] + [n] == [n];
    BlankIsSolid(' ');
    MarkIsSolid(mark[1], ' ', TEquals);
    SolidBlank(" ", mark[1..], [TEquals]);
    assert mark == " " + mark[1..] && mark[1..] == [mark[1], ' '];
    SoftSolid(ind + name, [n], mark, [TEquals]);
    assert [n] + [TEquals] == [n, TEquals];
    SolidSoft(ind + name + mark, [n, TEquals], a, ta);
    MarkIsSolid(';', '\n', TSemicolon);
    SoftSolid(ind + name + mark + a, [n, TEquals] + ta, ";\n", [TSemicolon]);
  }

  /** What the writer writes for a value is read as the tokens of the value. */
  lemma {:induction false} ValueIsRead(v: Value, depth: nat, width: nat)
    requires Writable(v) && depth > 0
    ensures Soft(WriteValue(v, depth, width), TokensOf(v))
    decreases v, 0
  {
    match v
    case VList(elems) =>
      ElemsAreRead(elems, depth + 1, width);
      Bracketed('(', WriteElems(elems, depth + 1, width), ')', TListStart, ElemTokens(elems), TListEnd);
    case VArray(elems) =>
      ElemsAreRead(elems, depth + 1, width);
      Bracketed('[', WriteElems(elems, depth + 1, width), ']', TArrayStart, ElemTokens(elems), TArrayEnd);
    case VGroup(members) =>
      MembersAreRead(members, depth + 1, width);
      IndentIsSolid(depth, width);
      OpenBrace(Indent(depth, width));
      Braced("\n" + Indent(depth, width) + "{\n", Indent(depth, width), WriteMembers(members, depth + 1, width),
             MemberTokens(members));
    case _ => ScalarIsSoft(v);
  }

  lemma {:induction false} ElemsAreRead(elems: seq<Value>, depth: nat, width: nat)
    requires depth > 0 && forall i | 0 <= i < |elems| :: Writable(elems[i])
    ensures Solid(WriteElems(elems, depth, width), ElemTokens(elems))
    decreases elems, 1
  {
    if elems == [] {
      SolidEmpty();
    } else {
      var a, ta := WriteValue(elems[0], depth, width), TokensOf(elems[0]);
      ValueIsRead(elems[0], depth, width);
      if |elems| == 1 {
        LastElement(a, ta);
      } else {
        ElemsAreRead(elems[1..], depth, width);
        NextElement(a, ta, WriteElems(elems[1..], depth, width), ElemTokens(elems[1..]));
      }
    }
  }

  lemma {:induction false} MembersAreRead(members: seq<Member>, depth: nat, width: nat)
    requires depth > 0 && WritableMembers(members)
    ensures Solid(WriteMembers(members, depth, width), MemberTokens(members))
    decreases members, 1
  {
    if members == [] {
      SolidEmpty();
    } else {
      var m := members[0];
      ValueIsRead(m.value, depth, width);
      IndentIsSolid(depth, width);
      var ta := TokensOf(m.value);
      NamedValue(Indent(depth, width), m.name, if m.value.VGroup? then " : " else " = ",
                 WriteValue(m.value, depth, width), ta);
      MembersAreRead(members[1..], depth, width);
      SolidSolid(WriteMember(m, depth, width), [NameToken(m.name), TEquals] + ta + [TSemicolon],
                 WriteMembers(members[1..], depth, width), MemberTokens(members[1..]));
    }
  }

  lemma {:induction false} RepeatIs(c: char, n: nat)
    ensures |Repeat(c, n)| == n && forall i | 0 <= i < n :: Repeat(c, n)[i] == c
  {
    if n > 0 {
      RepeatIs(c, n - 1);
    }
  }

  lemma {:induction false} ScalarLine(name: string, v: Value, depth: nat, width: nat)
    requires IsScalar(v) && depth > 0
    ensures WriteMember(Member(name, v), depth, width) == Indent(depth, width) + name + " = " + WriteScalar(v) + ";\n"
    ensures WriteMembers([Member(name, v)], depth, width) == WriteMember(Member(name, v), depth, width)
  {
    var m := Member(name, v);
    assert WriteValue(v, depth, width) == WriteScalar(v);
    OnlyMember(m, depth, width);
  }

  lemma {:induction false} OnlyMember(m: Member, depth: nat, width: nat)
    requires depth > 0
    ensures WriteMembers([m], depth, width) == WriteMember(m, depth, width)
  {
    assert [m][1..] == [];
    assert WriteMembers([m], depth, width) == WriteMember(m, depth, width) + "";
  }

  lemma {:induction false} SecondLevel(width: nat, blanks: string)
    requires |blanks| == (if width == 0 then 1 else width)
    requires forall i | 0 <= i < |blanks| :: blanks[i] == if width == 0 then '\t' else ' '
    ensures Indent(1, width) == "" && Indent(2, width) == blanks
  {
    RepeatIs(if width == 0 then '\t' else ' ', |blanks|);
  }

  lemma {:induction false} GroupText(members: seq<Member>, width: nat, line: string)
    requires WriteMembers(members, 2, width) == line
    ensures WriteValue(VGroup(members), 1, width) == "\n{\n" + line + "}"
  {
    assert Indent(1, width) == "";
    assert "\n" + "" + "{\n" == "\n{\n" && line + "" == line;
  }

  /** How a setting in a group is laid out: the group's braces are not indented, its setting is by one level. */
  lemma {:induction false} LayoutOfAGroup(group: string, name: string, v: Value, width: nat, blanks: string)
    requires IsScalar(v)
    requires |blanks| == (if width == 0 then 1 else width)
    requires forall i | 0 <= i < |blanks| :: blanks[i] == if width == 0 then '\t' else ' '
    ensures WriteConfig([Member(group, VGroup([Member(name, v)]))], width) ==
            group + " : " + ("\n{\n" + (blanks + name + " = " + WriteScalar(v) + ";\n") + "}") + ";\n"
  {
    var inner := Member(name, v);
    var outer := Member(group, VGroup([inner]));
    SecondLevel(width, blanks);
    ScalarLine(name, v, 2, width);
    GroupText([inner], width, WriteMember(inner, 2, width));
    OnlyMember(outer, 1, width);
    OuterText(outer, width);
    RootText(outer, width);
  }

  lemma {:induction false} OuterText(m: Member, width: nat)
    requires m.value.VGroup?
    ensures WriteMember(m, 1, width) == m.name + " : " + WriteValue(m.value, 1, width) + ";\n"
  {
    assert "" + m.name == m.name;
  }

  lemma {:induction false} RootText(m: Member, width: nat)
    ensures WriteConfig([m], width) == WriteMembers([m], 1, width)
  {
    var text := WriteMembers([m], 1, width);
    assert "" + text + "" + "" == text;
  }

  /** Scanning a written file gives exactly the tokens of its settings, for every indentation. */
  lemma {:induction false} WrittenTextIsRead(members: seq<Member>, width: nat)
    requires WritableMembers(members)
    ensures Lex(WriteConfig(members, width)) == MemberTokens(members)
  {
    MembersAreRead(members, 1, width);
    var text := WriteMembers(members, 1, width);
    assert WriteConfig(members, width) == text == text + "";
  }
}
