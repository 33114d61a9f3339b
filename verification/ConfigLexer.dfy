/** The scanner of libconfig: the rules of its lexical grammar, longest match first. */
module ConfigLexer {
  import opened Text
  import opened Numerals
  import opened ConfigValue

  /** What one rule does: nothing, return a token, or end the input. */
  datatype Lexeme = Skip(rest: string) | Tok(token: Token, rest: string) | Done

  // ----- comments and strings -----

  /** The text after the end of a block comment, unless the input ends first. */
  function AfterComment(s: string): (r: Option<string>)
    ensures r.Some? ==> |r.value| < |s|
  {
    if |s| < 2 then None
    else if s[0] == '*' && s[1] == '/' then Some(s[2..])
    else AfterComment(s[1..])
  }

  /** An escape at the start of `s`: what it adds to the string, and how long it is. A lone backslash
      stands for itself. */
  function Escape(s: string): (r: (string, nat))
    requires s != "" && s[0] == '\\'
    ensures 0 < r.1 <= |s|
  {
    if |s| == 1 then ("\\", 1)
    else if s[1] == 'n' then ("\n", 2)
    else if s[1] == 'r' then ("\r", 2)
    else if s[1] == 't' then ("\t", 2)
    else if s[1] == 'f' then ([12 as char], 2)
    else if s[1] == '\\' then ("\\", 2)
    else if s[1] == '"' then ("\"", 2)
    else if (s[1] == 'x' || s[1] == 'X') && |s| >= 4 && IsDigit(s[2], 16) && IsDigit(s[3], 16) then
      var code := 16 * DigitValue(s[2]) + DigitValue(s[3]);
      (if code == 0 then "" else [code as char], 4)
    else ("\\", 1)
  }

  /** The string literal whose opening quote has been read: its content and the text after it. */
  function ReadString(s: string): (r: Option<(string, string)>)
    ensures r.Some? ==> |r.value.1| < |s|
  {
    if s == "" then None
    else if s[0] == '"' then Some(("", s[1..]))
    else
      var (text, n) := if s[0] == '\\' then Escape(s) else ([s[0]], 1);
      match ReadString(s[n..])
      case Some((more, rest)) => Some((text + more, rest))
      case None => None
  }

  // ----- words and numbers -----

  function NameRun(s: string): (k: nat)
    ensures k <= |s| && (forall i | 0 <= i < k :: IsNameChar(s[i])) && (k < |s| ==> !IsNameChar(s[k]))
  {
    if s == "" || !IsNameChar(s[0]) then 0 else 1 + NameRun(s[1..])
  }

  function Word(s: string): (r: Lexeme)
    requires s != "" && IsNameStart(s[0])
    ensures r.Tok? && |r.rest| < |s|
  {
    var n := 1 + NameRun(s[1..]);
    var w := s[..n];
    Tok(if EqualsIgnoringCase(w, "true") then TBool(true)
        else if EqualsIgnoringCase(w, "false") then TBool(false)
        else TName(w), s[n..])
  }

  predicate StartsWithChar(s: string, c: char) { s != "" && s[0] == c }

  predicate IsSign(c: char) { c == '+' || c == '-' }

  /** `[eE][-+]?[0-9]+` */
  function Exponent(s: string): (k: nat)
    ensures k <= |s|
  {
    if |s| < 2 || (s[0] != 'e' && s[0] != 'E') then 0
    else
      var sign := if IsSign(s[1]) then 1 else 0;
      var d := DigitRun(s[1 + sign..], 10);
      if d == 0 then 0 else 1 + sign + d
  }

  /** The length of a suffix `L` or `LL`. */
  function LongSuffix(s: string): (k: nat)
    ensures k <= |s|
  {
    if !StartsWithChar(s, 'L') then 0 else if StartsWithChar(s[1..], 'L') then 2 else 1
  }

  function Clamp(n: int, lo: int, hi: int): int { if n < lo then lo else if n > hi then hi else n }

  /** `strtol` and `strtoll` stop at the ends of the 64-bit range. */
  function Signed(negative: bool, n: nat): int {
    Clamp(if negative then 0 - n else n, -0x8000_0000_0000_0000, 0x7fff_ffff_ffff_ffff)
  }

  function Hexadecimal(s: string, n: nat): (r: Lexeme)
    requires 2 <= n <= |s|
    ensures r.Tok? && |r.rest| < |s|
  {
    var value := Clamp(ValueOf(s[2..n], 16), 0, 0xffff_ffff_ffff_ffff);
    var l := LongSuffix(s[n..]);
    if l == 0 then Tok(THex(ToInt32(value)), s[n..]) else Tok(THex64(ToInt64(value)), s[n + l..])
  }

  /** Where the digits from `n` on, and an exponent after them, end. */
  function FractionEnd(s: string, n: nat): (e: nat)
    requires n <= |s|
    ensures n <= e <= |s|
  {
    var f := n + DigitRun(s[n..], 10);
    f + Exponent(s[f..])
  }

  /** A number in base 10: a float, an integer or a 64-bit integer. `n` digits and a sign come first. */
  function AfterDigits(s: string, sign: nat, n: nat): (r: Lexeme)
    requires s != "" && sign <= 1 && sign <= n <= |s|
    ensures r.Tok? && |r.rest| < |s|
  {
    var after := s[n..];
    if StartsWithChar(after, '.') then
      var e := FractionEnd(s, n + 1);
      Tok(TFloat(s[..e]), s[e..])
    else if n == sign then Tok(TGarbage, s[1..])
    else if Exponent(after) > 0 then
      Tok(TFloat(s[..n + Exponent(after)]), s[n + Exponent(after)..])
    else
      Whole(Signed(s[0] == '-', ValueOf(s[sign..n], 10)), after)
  }

  function Whole(value: int, after: string): (r: Lexeme)
    ensures r.Tok? && |r.rest| <= |after|
  {
    var l := LongSuffix(after);
    if l == 0 then Tok(TInt(ToInt32(value)), after) else Tok(TInt64(value), after[l..])
  }

  /** How many digits follow a hexadecimal prefix. */
  function HexRun(s: string): (k: nat)
    ensures k > 0 ==> 2 + k <= |s|
  {
    if |s| >= 2 && s[0] == '0' && (s[1] == 'x' || s[1] == 'X') then DigitRun(s[2..], 16) else 0
  }

  function BaseTen(s: string): (r: Lexeme)
    requires s != ""
    ensures r.Tok? && |r.rest| < |s|
  {
    var sign := if IsSign(s[0]) then 1 else 0;
    AfterDigits(s, sign, sign + DigitRun(s[sign..], 10))
  }

  /** A word that starts with a sign, a digit or a point. */
  function Number(s: string): (r: Lexeme)
    requires s != ""
    ensures r.Tok? && |r.rest| < |s|
  {
    if HexRun(s) > 0 then Hexadecimal(s, 2 + HexRun(s)) else BaseTen(s)
  }

  /** The end of the line a comment runs to; a comment without one is not a comment. */
  function EndOfLine(s: string): (r: Option<string>)
    ensures r.Some? ==> |r.value| <= |s|
  {
    if s == "" then None else if s[0] == '\n' then Some(s) else EndOfLine(s[1..])
  }

  function Punctuation(c: char): Option<Token> {
    if c == '=' || c == ':' then Some(TEquals)
    else if c == ',' then Some(TComma)
    else if c == ';' then Some(TSemicolon)
    else if c == '{' then Some(TGroupStart)
    else if c == '}' then Some(TGroupEnd)
    else if c == '[' then Some(TArrayStart)
    else if c == ']' then Some(TArrayEnd)
    else if c == '(' then Some(TListStart)
    else if c == ')' then Some(TListEnd)
    else None
  }

  predicate IsBlank(c: char) { c == ' ' || c == '\t' || c == '\n' || c == '\r' || c == 12 as char }

  /** Strings, comments and what no rule knows. */
  function LexOther(s: string): (r: Lexeme)
    requires s != ""
    ensures r != Done ==> |r.rest| < |s|
  {
    if s[0] == '"' then
      match ReadString(s[1..])
      case Some((text, rest)) => Tok(TString(text), rest)
      case None => Done
    else if s[0] == '/' && StartsWithChar(s[1..], '*') then
      match AfterComment(s[2..])
      case Some(rest) => Skip(rest)
      case None => Done
    else if (s[0] == '#' || (s[0] == '/' && StartsWithChar(s[1..], '/'))) && EndOfLine(s[1..]).Some? then
      Skip(EndOfLine(s[1..]).value)
    else Tok(TGarbage, s[1..])
  }

  function LexOne(s: string): (r: Lexeme)
    requires s != ""
    ensures r != Done ==> |r.rest| < |s|
  {
    if IsBlank(s[0]) then Skip(s[1..])
    else if Punctuation(s[0]).Some? then Tok(Punctuation(s[0]).value, s[1..])
    else if IsNameStart(s[0]) then Word(s)
    else if IsSign(s[0]) || IsDecimal(s[0]) || s[0] == '.' then Number(s)
    else LexOther(s)
  }

  function Lex(s: string): seq<Token>
    decreases |s|
  {
    if s == "" then []
    else
      match LexOne(s)
      case Skip(rest) => Lex(rest)
      case Tok(token, rest) => [token] + Lex(rest)
      case Done => []
  }

  // ----- comments -----

  /** The end of a block comment does not come before the end of `text`. */
  ghost predicate NoCommentEnd(text: string) {
    forall i | 0 <= i < |text| && text[i] == '*' :: (text + "*/")[i + 1] != '/'
  }

  lemma {:induction false} CommentEndIsFound(text: string, rest: string)
    requires NoCommentEnd(text)
    ensures AfterComment(text + ("*/" + rest)) == Some(rest)
  {
    var t := text + ("*/" + rest);
    if text == "" {
      assert t == "*/" + rest && t[2..] == rest;
    } else {
      var tail := text[1..];
      assert forall i | 0 <= i < |tail| :: (tail + "*/")[i + 1] == (text + "*/")[i + 2] && tail[i] == text[i + 1];
      CommentEndIsFound(tail, rest);
      assert t[1..] == tail + ("*/" + rest);
      assert t[1] == (text + "*/")[1];
    }
  }

  /** A block comment adds no token, whatever stands in it. */
  lemma {:induction false} BlockCommentIsSkipped(text: string, rest: string)
    requires NoCommentEnd(text)
    ensures Lex("/*" + (text + ("*/" + rest))) == Lex(rest)
  {
    var s := "/*" + (text + ("*/" + rest));
    CommentEndIsFound(text, rest);
    assert s[0] == '/' && s[1] == '*' && s[1..][0] == '*' && s[2..] == text + ("*/" + rest);
    assert LexOne(s) == LexOther(s) == Skip(rest);
  }

  lemma {:induction false} LineEndIsFound(text: string, rest: string)
    requires forall i | 0 <= i < |text| :: text[i] != '\n'
    ensures EndOfLine(text + ("\n" + rest)) == Some("\n" + rest) && EndOfLine(text) == None
  {
    var t := text + ("\n" + rest);
    if text == "" {
      assert t == "\n" + rest;
    } else {
      LineEndIsFound(text[1..], rest);
      assert t[1..] == text[1..] + ("\n" + rest);
    }
  }
}
