/** What each way of writing a token is read as: words, numbers, strings, and the gaps between them. */
module ConfigLexemes {
  import opened Text
  import opened Numerals
  import opened ConfigValue
  import opened ConfigLexer
  import opened ConfigWriter

  /** Words and numbers end before a blank, a punctuation mark, a quote or a comment, and where the text ends. */
  predicate Apart(rest: string) {
    rest == "" ||
    var c := rest[0];
    || c == ' ' || c == '\t' || c == '\n' || c == '\r' || c == 12 as char
    || c == '=' || c == ':' || c == ',' || c == ';'
    || c == '{' || c == '}' || c == '[' || c == ']' || c == '(' || c == ')'
    || c == '"' || c == '#' || c == '/'
  }

  // ----- gaps -----

  /** Blanks, tabs, form feeds and line ends of either kind stand between tokens and add none. */
  lemma {:induction false} BlanksAddNothing(blanks: string, rest: string)
    requires forall i | 0 <= i < |blanks| :: blanks[i] == ' ' || blanks[i] == '\t' || blanks[i] == '\n' ||
                                             blanks[i] == '\r' || blanks[i] == 12 as char
    ensures Lex(blanks + rest) == Lex(rest)
  {
    BlanksAreSolid(blanks);
  }

  lemma {:induction false} CommentIsLexed(s: string)
    requires s != "" && (s[0] == '#' || s[0] == '/')
    ensures LexOne(s) == LexOther(s)
  {
  }

  lemma {:induction false} LineCommentIsRead(mark: string, t: string)
    requires mark == "#" || mark == "//"
    ensures Lex(mark + t) ==
            match EndOfLine(t) case Some(rest) => Lex(rest) case None => [TGarbage] + Lex(mark[1..] + t)
  {
    var s := mark + t;
    assert s[0] == mark[0] && s[1..] == mark[1..] + t;
    if mark == "//" {
      assert s[1] == '/' && s[1..][1..] == t;
      assert EndOfLine(s[1..]) == EndOfLine(t);
    } else {
      assert s[1..] == t;
    }
    CommentIsLexed(s);
  }

  /** Both marks open a comment that adds no token when its line ends, with or without a carriage return; on a last line
      that does not end, the first mark is garbage and what follows is read. */
  lemma {:induction false} LineCommentsAddNothing(mark: string, text: string, rest: string)
    requires mark == "#" || mark == "//"
    requires forall i | 0 <= i < |text| :: text[i] != '\n'
    ensures Lex(mark + (text + ("\n" + rest))) == Lex(rest)
    ensures Lex(mark + text) == [TGarbage] + Lex(mark[1..] + text)
  {
    LineEndIsFound(text, rest);
    LineCommentIsRead(mark, text + ("\n" + rest));
    LineCommentIsRead(mark, text);
    BlanksAddNothing("\n", rest);
  }

  lemma {:induction false} NoCommentEndFound(text: string)
    requires forall i | 0 <= i < |text| - 1 :: text[i] != '*' || text[i + 1] != '/'
    ensures AfterComment(text) == None
  {
    if |text| >= 2 {
      assert text[0] != '*' || text[1] != '/';
      NoCommentEndFound(text[1..]);
    }
  }

  /** A block comment that is not closed swallows the rest of the text. */
  lemma {:induction false} OpenCommentEndsTheText(text: string)
    requires forall i | 0 <= i < |text| - 1 :: text[i] != '*' || text[i + 1] != '/'
    ensures Lex("/*" + text) == []
  {
    var s := "/*" + text;
    NoCommentEndFound(text);
    assert s[0] == '/' && s[1] == '*' && s[1..][0] == '*' && s[2..] == text;
    assert LexOne(s) == LexOther(s) == Done;
  }

  /** Any other mark is garbage, which no rule of the grammar takes. */
  lemma {:induction false} OtherMarksAreGarbage(c: char, rest: string)
    requires !Apart([c]) && !('A' <= c <= 'Z') && !('a' <= c <= 'z') && !('0' <= c <= '9')
    requires c != '*' && c != '+' && c != '-' && c != '.'
    ensures Lex([c] + rest) == [TGarbage] + Lex(rest)
  {
    assert ([c] + rest)[1..] == rest;
    assert LexOne([c] + rest) == LexOther([c] + rest);
  }

  // ----- words -----

  predicate Spells(c: char, small: char, big: char) { c == small || c == big }

  predicate SpellsTrue(w: string) {
    |w| == 4 && Spells(w[0], 't', 'T') && Spells(w[1], 'r', 'R') && Spells(w[2], 'u', 'U') && Spells(w[3], 'e', 'E')
  }

  predicate SpellsFalse(w: string) {
    |w| == 5 && Spells(w[0], 'f', 'F') && Spells(w[1], 'a', 'A') && Spells(w[2], 'l', 'L') && Spells(w[3], 's', 'S')
    && Spells(w[4], 'e', 'E')
  }

  lemma {:induction false} BooleanSpellings(w: string)
    ensures EqualsIgnoringCase(w, "true") <==> SpellsTrue(w)
    ensures EqualsIgnoringCase(w, "false") <==> SpellsFalse(w)
  {
  }

  lemma {:induction false} WordEndsApart(w: string, rest: string)
    requires ValidName(w) && Apart(rest)
    ensures LexOne(w + rest) == Tok(NameToken(w), rest)
  {
    var t := w + rest;
    assert t[1..] == w[1..] + rest;
    NameRunStops(t[1..], |w| - 1);
    assert t[..|w|] == w && t[|w|..] == rest && t[0] == w[0];
    NameStartIsNothingElse(w[0]);
    assert LexOne(t) == Word(t);
  }

  /** A letter or a star, and then letters, digits, stars, hyphens and underscores: one name, or a boolean when it reads
      so in whatever case. */
  lemma {:induction false} WordsAreRead(w: string, rest: string)
    requires w != "" && Apart(rest)
    requires 'A' <= w[0] <= 'Z' || 'a' <= w[0] <= 'z' || w[0] == '*'
    requires forall i | 0 <= i < |w| :: 'A' <= w[i] <= 'Z' || 'a' <= w[i] <= 'z' || '0' <= w[i] <= '9' || w[i] == '*'
                                        || w[i] == '-' || w[i] == '_'
    ensures Lex(w + rest) ==
            [if SpellsTrue(w) then TBool(true) else if SpellsFalse(w) then TBool(false) else TName(w)] + Lex(rest)
  {
    WordEndsApart(w, rest);
    BooleanSpellings(w);
    LexStep(w + rest);
  }

  // ----- numbers -----

  predicate SignText(sign: string) { sign == "" || (|sign| == 1 && (sign[0] == '+' || sign[0] == '-')) }

  predicate Minus(sign: string) { sign != "" && sign[0] == '-' }

  predicate SuffixText(suffix: string) { |suffix| <= 2 && forall i | 0 <= i < |suffix| :: suffix[i] == 'L' }

  predicate HexChar(c: char) { '0' <= c <= '9' || 'a' <= c <= 'f' || 'A' <= c <= 'F' }

  predicate Decimals(digits: string) { forall i | 0 <= i < |digits| :: '0' <= digits[i] <= '9' }

  lemma {:induction false} SuffixIsRead(suffix: string, rest: string)
    requires SuffixText(suffix) && Apart(rest)
    ensures LongSuffix(suffix + rest) == |suffix| && (suffix + rest)[|suffix|..] == rest
    ensures suffix + rest != "" ==> (suffix + rest)[0] == (if suffix == "" then rest[0] else 'L')
  {
    var t := suffix + rest;
    assert t[|suffix|..] == rest;
    if |suffix| == 1 {
      assert t[0] == 'L' && t[1..] == rest;
    } else if |suffix| == 2 {
      assert t[0] == 'L' && t[1] == 'L' && t[1..][0] == 'L';
    }
  }

  predicate StartsNumeral(c: char) { c == '+' || c == '-' || c == '.' || '0' <= c <= '9' }

  lemma {:induction false} NumeralClass(c: char)
    requires StartsNumeral(c)
    ensures !IsBlank(c) && Punctuation(c) == None && !IsNameStart(c) && (IsSign(c) || IsDecimal(c) || c == '.')
  {
  }

  lemma {:induction false} NumbersAreLexed(t: string, token: Token, rest: string)
    requires t != "" && StartsNumeral(t[0]) && Number(t) == Tok(token, rest)
    ensures Lex(t) == [token] + Lex(rest)
  {
    NumeralClass(t[0]);
    assert LexOne(t) == Number(t);
  }

  ghost predicate Parts(t: string, sign: string, digits: string, after: string) {
    && |sign| + |digits| + |after| == |t|
    && t[..|sign|] == sign && t[|sign|..|sign| + |digits|] == digits && t[|sign| + |digits|..] == after
  }

  lemma {:induction false} PartsOf(sign: string, digits: string, after: string)
    ensures Parts(sign + digits + after, sign, digits, after)
  {
    var t := sign + digits + after;
    assert t == sign + (digits + after);
  }

  lemma {:induction false} PartsStart(t: string, sign: string, digits: string, after: string)
    requires Parts(t, sign, digits, after) && SignText(sign) && Decimals(digits)
    requires digits == "" ==> after != "" && after[0] == '.'
    ensures t != "" && StartsNumeral(t[0]) && (t[0] == '-' <==> Minus(sign)) && (IsSign(t[0]) <==> sign != "")
  {
    if sign != "" {
      assert t[0] == t[..|sign|][0];
    } else if digits != "" {
      assert t[0] == t[|sign|..|sign| + |digits|][0];
    }
  }

  lemma {:induction false} PartsAreNotHex(t: string, sign: string, digits: string, after: string)
    requires Parts(t, sign, digits, after) && SignText(sign) && Decimals(digits)
    requires digits == "" ==> after != "" && after[0] == '.'
    requires after != "" ==> after[0] != 'x' && after[0] != 'X'
    requires |t| >= 2
    ensures t[0] == '0' ==> t[1] != 'x' && t[1] != 'X'
  {
    if sign != "" {
      assert t[0] == sign[0];
    } else if |digits| > 1 {
      assert t[1] == digits[1];
    } else if |digits| == 1 {
      assert t[1] == t[1..][0] == after[0];
    } else {
      assert t[0] == t[0..][0] == after[0];
    }
  }

  /** A number starts with a sign and digits that end before `n`, and is not hexadecimal. */
  ghost predicate Begins(t: string, sign: nat, n: nat) {
    && t != "" && StartsNumeral(t[0])
    && (|t| >= 2 && t[0] == '0' ==> t[1] != 'x' && t[1] != 'X')
    && sign == (if IsSign(t[0]) then 1 else 0)
    && sign <= n <= |t| && n == sign + DigitRun(t[sign..], 10)
  }

  lemma {:induction false} DigitsBegin(t: string, sign: string, digits: string, after: string)
    requires Parts(t, sign, digits, after) && SignText(sign) && Decimals(digits)
    requires digits == "" ==> after != "" && after[0] == '.'
    requires after != "" ==> !('0' <= after[0] <= '9') && after[0] != 'x' && after[0] != 'X'
    ensures Begins(t, |sign|, |sign| + |digits|) && (t[0] == '-' <==> Minus(sign))
  {
    PartsStart(t, sign, digits, after);
    if |t| >= 2 {
      PartsAreNotHex(t, sign, digits, after);
    }
    assert t[|sign|..] == digits + after;
    DigitsThenRest(digits, after, 10);
  }

  lemma {:induction false} BeginsIsRead(t: string, sign: nat, n: nat)
    requires Begins(t, sign, n)
    ensures Number(t) == AfterDigits(t, sign, n)
  {
    assert HexRun(t) == 0;
    assert BaseTen(t) == AfterDigits(t, sign, n);
  }

  function Value(sign: string, digits: string): int {
    if Minus(sign) then 0 - ValueOf(digits, 10) else ValueOf(digits, 10)
  }

  /** Numbers stop at the ends of the 64-bit range. */
  function Within64(n: int): int {
    if n < -0x8000_0000_0000_0000 then -0x8000_0000_0000_0000
    else if n > 0x7fff_ffff_ffff_ffff then 0x7fff_ffff_ffff_ffff
    else n
  }

  lemma {:induction false} NoPointNoExponent(t: string, sign: nat, n: nat, digits: string, after: string)
    requires Begins(t, sign, n) && sign < n && t[sign..n] == digits && t[n..] == after
    requires after != "" ==> after[0] == 'L' || Apart(after)
    ensures AfterDigits(t, sign, n) == Whole(Signed(t[0] == '-', ValueOf(digits, 10)), after)
  {
    assert Exponent(after) == 0 && !StartsWithChar(after, '.');
  }

  lemma {:induction false} SignedIsWithin(sign: string, digits: string)
    ensures Signed(Minus(sign), ValueOf(digits, 10)) == Within64(Value(sign, digits))
  {
  }

  lemma {:induction false} WholeNumber(t: string, sign: string, digits: string, after: string)
    requires Parts(t, sign, digits, after) && SignText(sign) && Decimals(digits) && digits != ""
    requires after != "" ==> after[0] == 'L' || Apart(after)
    ensures t != "" && StartsNumeral(t[0])
    ensures Number(t) == Whole(Signed(Minus(sign), ValueOf(digits, 10)), after)
  {
    var n := |sign| + |digits|;
    DigitsBegin(t, sign, digits, after);
    BeginsIsRead(t, |sign|, n);
    NoPointNoExponent(t, |sign|, n, digits, after);
  }

  lemma {:induction false} WholeToken(n: int, suffix: string, rest: string)
    requires SuffixText(suffix) && Apart(rest)
    ensures Whole(n, suffix + rest) == Tok(if suffix == "" then TInt(ToInt32(n)) else TInt64(n), rest)
    ensures FitsInt32(n) ==> ToInt32(n) == n
  {
    SuffixIsRead(suffix, rest);
    assert suffix == "" ==> suffix + rest == rest;
  }

  /** A sign, digits and a suffix: an integer that stops at the ends of the 64-bit range, and of 64 bits with the
      suffix. Without one, what does not fit 32 bits is cut. */
  lemma {:induction false} IntegersAreRead(sign: string, digits: string, suffix: string, rest: string)
    requires SignText(sign) && digits != "" && Decimals(digits) && SuffixText(suffix) && Apart(rest)
    ensures var m := Within64(Value(sign, digits));
            Lex(sign + digits + (suffix + rest)) ==
            [if suffix != "" then TInt64(m)
             else if -0x8000_0000 <= m <= 0x7fff_ffff then TInt(m) else TInt(ToInt32(m))] + Lex(rest)
  {
    var after := suffix + rest;
    var t := sign + digits + after;
    SuffixIsRead(suffix, rest);
    assert suffix == "" ==> after == rest;
    PartsOf(sign, digits, after);
    WholeNumber(t, sign, digits, after);
    SignedIsWithin(sign, digits);
    WholeToken(Within64(Value(sign, digits)), suffix, rest);
    NumbersAreLexed(t, if suffix == "" then TInt(ToInt32(Within64(Value(sign, digits))))
                       else TInt64(Within64(Value(sign, digits))), rest);
  }

  lemma {:induction false} HexNumber(t: string, x: char, digits: string, after: string)
    requires (x == 'x' || x == 'X') && digits != "" && AllDigits(digits, 16) && Parts(t, ['0', x], digits, after)
    requires after != "" ==> !IsDigit(after[0], 16)
    ensures StartsNumeral(t[0]) && Number(t) == Hexadecimal(t, 2 + |digits|)
  {
    assert t[..2][0] == '0' && t[..2][1] == x;
    assert t[2..] == digits + after;
    DigitsThenRest(digits, after, 16);
  }

  lemma {:induction false} HexToken(t: string, digits: string, suffix: string, rest: string)
    requires 2 + |digits| <= |t| && t[2..2 + |digits|] == digits && t[2 + |digits|..] == suffix + rest
    requires SuffixText(suffix) && Apart(rest)
    ensures var n := ValueOf(digits, 16);
            var m := if n > 0xffff_ffff_ffff_ffff then 0xffff_ffff_ffff_ffff else n;
            Hexadecimal(t, 2 + |digits|) == Tok(if suffix == "" then THex(ToInt32(m)) else THex64(ToInt64(m)), rest)
  {
    SuffixIsRead(suffix, rest);
    assert t[2 + |digits| + |suffix|..] == (suffix + rest)[|suffix|..];
  }

  /** Digits after `0x` or `0X`, in either case. */
  lemma {:induction false} HexadecimalsAreRead(x: char, digits: string, suffix: string, rest: string)
    requires (x == 'x' || x == 'X') && digits != "" && SuffixText(suffix) && Apart(rest)
    requires forall i | 0 <= i < |digits| :: HexChar(digits[i])
    ensures var n := ValueOf(digits, 16);
            var m := if n > 0xffff_ffff_ffff_ffff then 0xffff_ffff_ffff_ffff else n;
            Lex(['0', x] + digits + (suffix + rest)) ==
            [if suffix == "" then THex(ToInt32(m)) else THex64(ToInt64(m))] + Lex(rest)
  {
    var after := suffix + rest;
    var t := ['0', x] + digits + after;
    SuffixIsRead(suffix, rest);
    PartsOf(['0', x], digits, after);
    HexNumber(t, x, digits, after);
    HexToken(t, digits, suffix, rest);
    NumbersAreLexed(t, Number(t).token, rest);
  }

  /** An exponent, or nothing. */
  predicate ExponentText(e: string, sign: string, digits: string) {
    SignText(sign) && Decimals(digits) &&
    if e == "" then sign == "" && digits == "" else |e| == 1 && (e[0] == 'e' || e[0] == 'E') && digits != ""
  }

  lemma {:induction false} ExponentIsRead(e: string, sign: string, digits: string, rest: string)
    requires ExponentText(e, sign, digits) && Apart(rest)
    ensures var x := e + sign + digits; Exponent(x + rest) == |x| && (x != "" ==> x[0] == e[0])
  {
    var x := e + sign + digits;
    var t := x + rest;
    if e == "" {
      assert t == rest;
    } else {
      var tail := digits + rest;
      assert t == e + sign + tail;
      DigitsThenRest(digits, rest, 10);
      var k := if sign == "" then 0 else 1;
      assert t[1 + k..] == tail;
      assert t[1] == if sign == "" then digits[0] else sign[0];
    }
  }

  lemma {:induction false} FloatEnds(text: string, rest: string)
    requires text != "" && StartsNumeral((text + rest)[0])
    requires Number(text + rest) == Tok(TFloat((text + rest)[..|text|]), (text + rest)[|text|..])
    ensures Lex(text + rest) == [TFloat(text)] + Lex(rest)
  {
    assert (text + rest)[..|text|] == text && (text + rest)[|text|..] == rest;
    NumbersAreLexed(text + rest, TFloat(text), rest);
  }

  /** A number with a point at `n` that ends at `e`. */
  ghost predicate PointAt(t: string, sign: nat, n: nat, e: nat) {
    Begins(t, sign, n) && n < e <= |t| && t[n] == '.' && FractionEnd(t, n + 1) == e
  }

  lemma {:induction false} PointIsRead(t: string, sign: nat, n: nat, e: nat)
    requires t != "" && sign <= 1 && sign <= n < e <= |t| && t[n] == '.' && FractionEnd(t, n + 1) == e
    ensures AfterDigits(t, sign, n) == Tok(TFloat(t[..e]), t[e..])
  {
    assert StartsWithChar(t[n..], '.');
  }

  lemma {:induction false} PointEnds(text: string, rest: string, sign: nat, n: nat)
    requires PointAt(text + rest, sign, n, |text|)
    ensures Lex(text + rest) == [TFloat(text)] + Lex(rest)
  {
    BeginsIsRead(text + rest, sign, n);
    PointIsRead(text + rest, sign, n, |text|);
    FloatEnds(text, rest);
  }

  lemma {:induction false} FractionIsRead(t: string, n: nat, part: string, last: string)
    requires n <= |t| && t[n..] == part + last && Decimals(part) && (last != "" ==> !IsDigit(last[0], 10))
    ensures FractionEnd(t, n) == n + |part| + Exponent(last)
  {
    DigitsThenRest(part, last, 10);
    assert t[n + |part|..] == t[n..][|part|..] == last;
  }

  lemma {:induction false} FloatText(sign: string, whole: string, part: string, x: string, rest: string)
    ensures sign + whole + ("." + (part + x)) + rest == sign + whole + ("." + (part + (x + rest)))
  {
    assert "." + (part + x) + rest == "." + (part + (x + rest));
  }

  lemma {:induction false} FloatBegins(t: string, sign: string, whole: string, after: string)
    requires t == sign + whole + after && SignText(sign) && Decimals(whole) && after != "" && after[0] == '.'
    ensures var n := |sign| + |whole|; Begins(t, |sign|, n) && t[n..] == after
  {
    PartsOf(sign, whole, after);
    DigitsBegin(t, sign, whole, after);
  }

  lemma {:induction false} FloatLength(text: string, sign: string, whole: string, part: string, x: string)
    requires text == sign + whole + ("." + (part + x))
    ensures |text| == |sign| + |whole| + 1 + |part| + |x|
  {
  }

  lemma {:induction false} PointFirst(tail: string)
    ensures var after := "." + tail; after != "" && after[0] == '.' && after[1..] == tail
  {
  }

  lemma {:induction false} FloatIsRead(text: string, rest: string, sign: nat, n: nat, after: string, part: string,
                                       last: string)
    requires Begins(text + rest, sign, n) && (text + rest)[n..] == after
    requires after != "" && after[0] == '.' && after[1..] == part + last && Decimals(part)
    requires n + 1 + |part| + Exponent(last) == |text| && (last != "" ==> !IsDigit(last[0], 10))
    ensures Lex(text + rest) == [TFloat(text)] + Lex(rest)
  {
    var t := text + rest;
    assert t[n] == after[0] && t[n + 1..] == t[n..][1..];
    FractionIsRead(t, n + 1, part, last);
    PointEnds(text, rest, sign, n);
  }

  /** A float keeps its text: a point with digits before it, after it, both or neither, and perhaps an exponent. */
  lemma {:induction false} FloatsAreRead(sign: string, whole: string, part: string, e: string, esign: string,
                                         edigits: string, rest: string)
    requires SignText(sign) && Decimals(whole) && Decimals(part) && ExponentText(e, esign, edigits) && Apart(rest)
    ensures var text := sign + whole + ("." + (part + (e + esign + edigits)));
            Lex(text + rest) == [TFloat(text)] + Lex(rest)
  {
    var x := e + esign + edigits;
    var text := sign + whole + ("." + (part + x));
    ExponentIsRead(e, esign, edigits, rest);
    FloatText(sign, whole, part, x, rest);
    FloatLength(text, sign, whole, part, x);
    PointFirst(part + (x + rest));
    FloatBegins(text + rest, sign, whole, "." + (part + (x + rest)));
    FloatIsRead(text, rest, |sign|, |sign| + |whole|, "." + (part + (x + rest)), part, x + rest);
  }

  lemma {:induction false} ExponentAt(t: string, sign: nat, n: nat, e: nat)
    requires t != "" && sign <= 1 && sign < n < e <= |t| && t[n] != '.' && e == n + Exponent(t[n..])
    ensures AfterDigits(t, sign, n) == Tok(TFloat(t[..e]), t[e..])
  {
  }

  lemma {:induction false} ExponentEnds(text: string, rest: string, sign: nat, n: nat)
    requires Begins(text + rest, sign, n) && sign < n < |text| && text[n] != '.'
    requires Exponent((text + rest)[n..]) == |text| - n
    ensures Lex(text + rest) == [TFloat(text)] + Lex(rest)
  {
    BeginsIsRead(text + rest, sign, n);
    ExponentAt(text + rest, sign, n, |text|);
    FloatEnds(text, rest);
  }

  /** Without a point there must be an exponent. */
  lemma {:induction false} FloatsWithoutPoint(sign: string, whole: string, e: string, esign: string, edigits: string,
                                              rest: string)
    requires SignText(sign) && whole != "" && Decimals(whole) && e != "" && ExponentText(e, esign, edigits)
    requires Apart(rest)
    ensures var text := sign + whole + (e + esign + edigits); Lex(text + rest) == [TFloat(text)] + Lex(rest)
  {
    var x := e + esign + edigits;
    var text := sign + whole + x;
    var after := x + rest;
    assert text + rest == sign + whole + after;
    PartsOf(sign, whole, after);
    ExponentIsRead(e, esign, edigits, rest);
    assert after[0] == e[0];
    DigitsBegin(text + rest, sign, whole, after);
    ExponentEnds(text, rest, |sign|, |sign| + |whole|);
  }

  // ----- strings -----

  /** What a string literal is made of: a bare character, one after a backslash, or one by its code. */
  datatype Piece = Bare(c: char) | Escaped(c: char) | Coded(x: char, high: char, low: char)

  predicate Allowed(p: Piece) {
    match p
    case Bare(c) => c != '"' && c != '\\'
    case Escaped(c) => c != 'x' && c != 'X'
    case Coded(x, high, low) => (x == 'x' || x == 'X') && HexChar(high) && HexChar(low)
  }

  function PieceText(p: Piece): string {
    match p
    case Bare(c) => [c]
    case Escaped(c) => ['\\', c]
    case Coded(x, high, low) => ['\\', x, high, low]
  }

  /** A backslash before a character that needs none stands for itself; the code 0 adds nothing. */
  function PieceMeans(p: Piece): string
    requires Allowed(p)
  {
    match p
    case Bare(c) => [c]
    case Escaped(c) =>
      if c == 'n' then ['\n']
      else if c == 'r' then ['\r']
      else if c == 't' then ['\t']
      else if c == 'f' then [12 as char]
      else if c == '"' || c == '\\' then [c]
      else ['\\', c]
    case Coded(_, high, low) =>
      var n := ValueOf([high, low], 16);
      if n == 0 then "" else if n < 256 then [n as char] else "?"
  }

  function LiteralText(pieces: seq<Piece>): string {
    if pieces == [] then "" else PieceText(pieces[0]) + LiteralText(pieces[1..])
  }

  function LiteralMeans(pieces: seq<Piece>): string
    requires forall i | 0 <= i < |pieces| :: Allowed(pieces[i])
  {
    if pieces == [] then "" else PieceMeans(pieces[0]) + LiteralMeans(pieces[1..])
  }

  lemma {:induction false} CodeIsTwoDigits(high: char, low: char)
    requires HexChar(high) && HexChar(low)
    ensures ValueOf([high, low], 16) == 16 * DigitValue(high) + DigitValue(low) < 256
  {
    assert [high, low][..1] == [high] && [high][..0] == "";
    assert ValueOf([high], 16) == DigitValue(high);
  }

  /** One piece in front of what is read from the rest. */
  function With(means: string, more: Option<(string, string)>): Option<(string, string)> {
    match more
    case Some((text, rest)) => Some((means + text, rest))
    case None => None
  }

  lemma {:induction false} BareIsRead(c: char, s: string)
    requires c != '"' && c != '\\'
    ensures ReadString([c] + s) == With([c], ReadString(s))
  {
    assert ([c] + s)[1..] == s;
  }

  lemma {:induction false} EscapeIsRead(t: string, means: string, n: nat, s: string)
    requires t != "" && t[0] == '\\' && Escape(t) == (means, n) && t[n..] == s
    ensures ReadString(t) == With(means, ReadString(s))
  {
  }

  lemma {:induction false} BackslashStays(c: char, s: string)
    requires Allowed(Escaped(c)) && c != '\\' && PieceMeans(Escaped(c)) == ['\\', c]
    ensures ReadString(['\\', c] + s) == With(['\\', c], ReadString(s))
  {
    var t := ['\\', c] + s;
    assert t[1] == c && t[1..] == [c] + s;
    EscapeIsRead(t, "\\", 1, [c] + s);
    BareIsRead(c, s);
    if ReadString(s).Some? {
      assert "\\" + ([c] + ReadString(s).value.0) == ['\\', c] + ReadString(s).value.0;
    }
  }

  lemma {:induction false} PieceIsRead(p: Piece, s: string)
    requires Allowed(p)
    ensures ReadString(PieceText(p) + s) == With(PieceMeans(p), ReadString(s))
  {
    var t := PieceText(p) + s;
    match p
    case Bare(c) => BareIsRead(c, s);
    case Escaped(c) =>
      assert t[1] == c && t[2..] == s;
      if PieceMeans(p) == ['\\', c] && c != '\\' {
        BackslashStays(c, s);
      } else {
        EscapeIsRead(t, PieceMeans(p), 2, s);
      }
    case Coded(x, high, low) =>
      CodeIsTwoDigits(high, low);
      assert t[1] == x && t[2] == high && t[3] == low && t[4..] == s;
      EscapeIsRead(t, PieceMeans(p), 4, s);
  }

  lemma {:induction false} LiteralIsRead(pieces: seq<Piece>, s: string)
    requires forall i | 0 <= i < |pieces| :: Allowed(pieces[i])
    ensures ReadString(LiteralText(pieces) + s) == With(LiteralMeans(pieces), ReadString(s))
  {
    if pieces == [] {
      assert LiteralText(pieces) + s == s;
      if ReadString(s).Some? {
        assert "" + ReadString(s).value.0 == ReadString(s).value.0;
      }
    } else {
      var more := LiteralText(pieces[1..]) + s;
      assert LiteralText(pieces) + s == PieceText(pieces[0]) + more;
      PieceIsRead(pieces[0], more);
      LiteralIsRead(pieces[1..], s);
      if ReadString(s).Some? {
        Assoc(PieceMeans(pieces[0]), LiteralMeans(pieces[1..]), ReadString(s).value.0);
      }
    }
  }

  lemma {:induction false} ClosedLiteral(text: string, means: string, rest: string)
    requires ReadString(text + ("\"" + rest)) == Some((means, rest))
    ensures Lex("\"" + (text + ("\"" + rest))) == [TString(means)] + Lex(rest)
  {
    var inner := text + ("\"" + rest);
    var t := "\"" + inner;
    assert t[0] == '"' && t[1..] == inner;
    assert LexOne(t) == LexOther(t) == Tok(TString(means), rest);
  }

  lemma {:induction false} OpenLiteral(text: string)
    requires ReadString(text).None?
    ensures Lex("\"" + text) == []
  {
    var t := "\"" + text;
    assert t[0] == '"' && t[1..] == text;
    assert LexOne(t) == LexOther(t) == Done;
  }

  /** A string literal, however its characters are written, is one token with its text; without its closing quote it
      swallows the rest. */
  lemma {:induction false} LiteralsAreRead(pieces: seq<Piece>, rest: string)
    requires forall i | 0 <= i < |pieces| :: Allowed(pieces[i])
    ensures Lex("\"" + (LiteralText(pieces) + ("\"" + rest))) == [TString(LiteralMeans(pieces))] + Lex(rest)
    ensures Lex("\"" + LiteralText(pieces)) == []
  {
    var s := "\"" + rest;
    assert s[0] == '"' && s[1..] == rest;
    assert ReadString(s) == Some(("", rest));
    LiteralIsRead(pieces, s);
    assert LiteralMeans(pieces) + "" == LiteralMeans(pieces);
    ClosedLiteral(LiteralText(pieces), LiteralMeans(pieces), rest);
    LiteralIsRead(pieces, "");
    assert LiteralText(pieces) + "" == LiteralText(pieces);
    OpenLiteral(LiteralText(pieces));
  }
}
