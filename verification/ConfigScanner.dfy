/** The scanner as it runs: a start condition, a string buffer, and a loop over the text. */
module ConfigScanner {
  import opened Text
  import opened ConfigValue
  import opened Numerals
  import opened ConfigLexer
  import opened ConfigStorage

  datatype Condition = INITIAL | COMMENT | STRING

  /** The tokens still to come in a start condition, with `text` already in the string buffer. */
  function Pending(state: Condition, text: string, s: string): seq<Token> {
    match state
    case INITIAL => Lex(s)
    case COMMENT =>
      (match AfterComment(s) case Some(rest) => Lex(rest) case None => [])
    case STRING =>
      match ReadString(s)
      case Some((more, rest)) => [TString(text + more)] + Lex(rest)
      case None => []
  }

  /** Characters that a string literal takes as they are. */
  predicate IsPlain(c: char) { c != '"' && c != '\\' }

  lemma {:induction false} PlainIsRead(s: string, n: nat)
    requires n <= |s| && forall i | 0 <= i < n :: IsPlain(s[i])
    ensures ReadString(s).Some? <==> ReadString(s[n..]).Some?
    ensures ReadString(s).Some? ==>
              ReadString(s).value == (s[..n] + ReadString(s[n..]).value.0, ReadString(s[n..]).value.1)
  {
    if n == 0 {
      assert s[0..] == s && s[..0] == "";
      if ReadString(s).Some? {
        assert "" + ReadString(s).value.0 == ReadString(s).value.0;
      }
    } else {
      PlainIsRead(s[1..], n - 1);
      assert s[1..][n - 1..] == s[n..];
      assert s[..n] == [s[0]] + s[1..][..n - 1];
      if ReadString(s[n..]).Some? {
        var more := ReadString(s[n..]).value.0;
        assert ([s[0]] + s[1..][..n - 1]) + more == [s[0]] + (s[1..][..n - 1] + more);
      }
    }
  }

  lemma {:induction false} PlainPending(text: string, s: string, n: nat)
    requires n <= |s| && forall i | 0 <= i < n :: IsPlain(s[i])
    ensures Pending(STRING, text, s) == Pending(STRING, text + s[..n], s[n..])
  {
    PlainIsRead(s, n);
    if ReadString(s).Some? {
      assert text + (s[..n] + ReadString(s[n..]).value.0) == (text + s[..n]) + ReadString(s[n..]).value.0;
    }
  }

  lemma {:induction false} PlainSlice(input: string, pos: nat, n: nat, before: string, run: string, after: string)
    requires pos + n <= |input| && forall i | pos <= i < pos + n :: IsPlain(input[i])
    requires run == input[pos..pos + n] && after == before + run
    ensures Pending(STRING, before, input[pos..]) == Pending(STRING, after, input[pos + n..])
  {
    var s := input[pos..];
    assert s[..n] == run && s[n..] == input[pos + n..];
    PlainPending(before, s, n);
  }

  lemma {:induction false} EscapePending(text: string, s: string)
    requires s != "" && s[0] == '\\'
    ensures Pending(STRING, text, s) == Pending(STRING, text + Escape(s).0, s[Escape(s).1..])
  {
    var (e, n) := Escape(s);
    if ReadString(s[n..]).Some? {
      var more := ReadString(s[n..]).value.0;
      assert text + (e + more) == (text + e) + more;
    }
  }

  lemma {:induction false} InitialPending(s: string)
    requires s != ""
    ensures s[0] == '"' ==> Pending(INITIAL, "", s) == Pending(STRING, "", s[1..])
    ensures |s| >= 2 && s[0] == '/' && s[1] == '*' ==> Pending(INITIAL, "", s) == Pending(COMMENT, "", s[2..])
  {
    if s[0] == '"' {
      assert LexOne(s) == LexOther(s);
      if ReadString(s[1..]).Some? {
        assert "" + ReadString(s[1..]).value.0 == ReadString(s[1..]).value.0;
      }
    } else if |s| >= 2 && s[0] == '/' && s[1] == '*' {
      assert LexOne(s) == LexOther(s);
    }
  }

  lemma {:induction false} CommentPending(text: string, s: string)
    requires s != ""
    ensures if |s| >= 2 && s[0] == '*' && s[1] == '/' then Pending(COMMENT, text, s) == Pending(INITIAL, text, s[2..])
            else Pending(COMMENT, text, s) == Pending(COMMENT, text, s[1..])
  {
  }

  // ----- what is left after a token is the end of the text -----

  ghost predicate EndOf(rest: string, s: string) { |rest| <= |s| && rest == s[|s| - |rest|..] }

  lemma {:induction false} CommentEnds(s: string)
    ensures EndOfLine(s).Some? ==> EndOf(EndOfLine(s).value, s)
  {
    if s != "" && s[0] != '\n' {
      CommentEnds(s[1..]);
    }
  }

  lemma {:induction false} DropEnds(s: string, n: nat, l: nat)
    requires n + l <= |s|
    ensures EndOf(s[n..], s) && EndOf(s[n..][l..], s)
  {
    assert s[n..][l..] == s[n + l..];
  }

  lemma {:induction false} WholeEnds(s: string, n: nat, value: int)
    requires n <= |s|
    ensures EndOf(Whole(value, s[n..]).rest, s)
  {
    DropEnds(s, n, LongSuffix(s[n..]));
  }

  lemma {:induction false} DigitsEnd(s: string, sign: nat, n: nat)
    requires s != "" && sign <= 1 && sign <= n <= |s|
    ensures EndOf(AfterDigits(s, sign, n).rest, s)
  {
    WholeEnds(s, n, Signed(s[0] == '-', ValueOf(s[sign..n], 10)));
  }

  lemma {:induction false} NumberEnds(s: string)
    requires s != ""
    ensures EndOf(Number(s).rest, s)
  {
    if HexRun(s) == 0 {
      var sign := if IsSign(s[0]) then 1 else 0;
      DigitsEnd(s, sign, sign + DigitRun(s[sign..], 10));
    }
  }

  lemma {:induction false} OtherEnds(s: string)
    requires s != "" && s[0] != '"' && !(|s| >= 2 && s[0] == '/' && s[1] == '*')
    ensures LexOther(s) != Done && EndOf(LexOther(s).rest, s)
  {
    CommentEnds(s[1..]);
    if EndOfLine(s[1..]).Some? {
      var r := EndOfLine(s[1..]).value;
      assert r == s[1..][|s| - 1 - |r|..];
      DropEnds(s, 1, |s| - 1 - |r|);
    }
    DropEnds(s, 1, 0);
  }

  lemma {:induction false} WordEnds(s: string)
    requires s != "" && IsNameStart(s[0])
    ensures EndOf(Word(s).rest, s)
  {
    DropEnds(s, 1 + NameRun(s[1..]), 0);
  }

  lemma {:induction false} RestEnds(s: string)
    requires s != "" && s[0] != '"' && !(|s| >= 2 && s[0] == '/' && s[1] == '*')
    ensures LexOne(s) != Done && EndOf(LexOne(s).rest, s)
  {
    if IsBlank(s[0]) || Punctuation(s[0]).Some? {
      DropEnds(s, 1, 0);
    } else if IsNameStart(s[0]) {
      WordEnds(s);
    } else if IsSign(s[0]) || IsDecimal(s[0]) || s[0] == '.' {
      NumberEnds(s);
    } else {
      OtherEnds(s);
    }
  }

  /** Scanning `s` gives the token, if any, and then the tokens of what is left. */
  ghost predicate Goes(s: string, token: seq<Token>, left: nat) {
    left <= |s| && forall rest | rest == s[|s| - left..] :: Lex(s) == token + Lex(rest)
  }

  /** One lexeme of the initial condition: its token, if any, and how much is left. */
  method NextLexeme(s: string) returns (token: seq<Token>, left: nat)
    requires s != "" && s[0] != '"' && !(|s| >= 2 && s[0] == '/' && s[1] == '*')
    ensures left < |s| && Goes(s, token, left)
  {
    var lexeme := LexOne(s);
    RestEnds(s);
    left := |lexeme.rest|;
    token := if lexeme.Tok? then [lexeme.token] else [];
  }

  lemma {:induction false} EndOfRest(input: string, pos: nat, left: nat)
    requires left <= |input| - pos
    ensures input[|input| - left..] == input[pos..][|input| - pos - left..]
  {
  }

  lemma {:induction false} OneMore(whole: seq<Token>, tokens: seq<Token>, before: seq<Token>, token: seq<Token>,
                                   after: seq<Token>)
    requires whole == tokens + before && before == token + after
    ensures whole == tokens + token + after
  {
    assert tokens + token + after == tokens + (token + after);
  }

  lemma {:induction false} NothingPending(state: Condition, text: string)
    ensures Pending(state, text, "") == []
  {
  }

  class Scanner {
    const input: string
    var pos: nat
    var state: Condition
    const buffer: StringBuffer

    ghost predicate Valid()
      reads this, buffer, buffer.chars
    {
      pos <= |input| && buffer.Valid() && (state != STRING ==> buffer.Contents() == "")
    }

    ghost function ToCome(): seq<Token>
      requires Valid()
      reads this, buffer, buffer.chars
    {
      Pending(state, buffer.Contents(), input[pos..])
    }

    constructor (text: string)
      ensures Valid() && input == text && ToCome() == Lex(text) && fresh(buffer) && fresh(buffer.chars)
    {
      input := text;
      pos := 0;
      state := INITIAL;
      buffer := new StringBuffer();
      new;
      assert text[0..] == text;
    }

    /** The closing quote: the buffer becomes the token. */
    method CloseString() returns (token: Token)
      requires Valid() && state == STRING && pos < |input| && input[pos] == '"'
      modifies this`pos, this`state, buffer
      ensures Valid() && state == INITIAL && pos > old(pos) && fresh(buffer.chars)
      ensures old(ToCome()) == [token] + ToCome()
    {
      ghost var s, text := input[pos..], buffer.Contents();
      assert s[0] == '"' && s[1..] == input[pos + 1..] && text + "" == text;
      var content := buffer.Release();
      token := TString(content);
      state := INITIAL;
      pos := pos + 1;
    }

    /** An escape sequence. */
    method TakeEscape()
      requires Valid() && state == STRING && pos < |input| && input[pos] == '\\'
      modifies this`pos, buffer, buffer.chars
      ensures Valid() && pos > old(pos) && (buffer.chars == old(buffer.chars) || fresh(buffer.chars))
      ensures ToCome() == old(ToCome())
    {
      ghost var s, text := input[pos..], buffer.Contents();
      EscapePending(text, s);
      var (e, n) := Escape(input[pos..]);
      assert s[n..] == input[pos + n..];
      buffer.Append(e);
      pos := pos + n;
    }

    /** The longest run of characters that stand for themselves. */
    method PlainRun(ghost before: string) returns (run: string)
      requires pos < |input| && IsPlain(input[pos])
      ensures 0 < |run| <= |input| - pos && run == input[pos..pos + |run|]
      ensures pos + |run| < |input| ==> !IsPlain(input[pos + |run|])
      ensures forall after, rest | after == before + run && rest == input[pos + |run|..] ::
                Pending(STRING, before, input[pos..]) == Pending(STRING, after, rest)
    {
      var n := 1;
      while pos + n < |input| && IsPlain(input[pos + n])
        invariant 0 < n <= |input| - pos
        invariant forall i | pos <= i < pos + n :: IsPlain(input[i])
      {
        n := n + 1;
      }
      run := input[pos..pos + n];
      forall after, rest | after == before + run && rest == input[pos + |run|..]
        ensures Pending(STRING, before, input[pos..]) == Pending(STRING, after, rest)
      {
        PlainSlice(input, pos, n, before, run, after);
      }
    }

    method TakePlain()
      requires Valid() && state == STRING && pos < |input| && IsPlain(input[pos])
      modifies this`pos, buffer, buffer.chars
      ensures Valid() && pos > old(pos) && (buffer.chars == old(buffer.chars) || fresh(buffer.chars))
      ensures ToCome() == old(ToCome())
    {
      var run := PlainRun(buffer.Contents());
      buffer.Append(run);
      pos := pos + |run|;
    }

    /** The rules of the string condition; the token, when the closing quote is reached. */
    method InString() returns (token: seq<Token>)
      requires Valid() && state == STRING && pos < |input|
      modifies this`pos, this`state, buffer, buffer.chars
      ensures Valid() && pos > old(pos) && (buffer.chars == old(buffer.chars) || fresh(buffer.chars))
      ensures old(ToCome()) == token + ToCome()
    {
      token := [];
      if input[pos] == '"' {
        var t := CloseString();
        token := [t];
      } else if input[pos] == '\\' {
        TakeEscape();
      } else {
        TakePlain();
      }
      assert [] + ToCome() == ToCome();
    }

    /** The rules of the comment condition. */
    method InComment()
      requires Valid() && state == COMMENT && pos < |input|
      modifies this`pos, this`state
      ensures Valid() && pos > old(pos) && ToCome() == old(ToCome())
    {
      ghost var s := input[pos..];
      CommentPending(buffer.Contents(), s);
      assert s[0] == input[pos] && (|s| >= 2 ==> s[1] == input[pos + 1] && s[2..] == input[pos + 2..]);
      assert s[1..] == input[pos + 1..];
      if pos + 2 <= |input| && input[pos] == '*' && input[pos + 1] == '/' {
        state := INITIAL;
        pos := pos + 2;
      } else {
        pos := pos + 1;
      }
    }

    /** A token of the initial condition that needs no other condition, or a blank or a line comment. */
    method Plain() returns (token: seq<Token>)
      requires Valid() && state == INITIAL && pos < |input|
      requires input[pos] != '"' && !(pos + 2 <= |input| && input[pos] == '/' && input[pos + 1] == '*')
      modifies this`pos
      ensures Valid() && pos > old(pos) && old(ToCome()) == token + ToCome()
    {
      var left;
      token, left := NextLexeme(input[pos..]);
      EndOfRest(input, pos, left);
      pos := |input| - left;
    }

    /** The rules of the initial condition. */
    method InInitial() returns (token: seq<Token>)
      requires Valid() && state == INITIAL && pos < |input|
      modifies this`pos, this`state
      ensures Valid() && pos > old(pos) && old(ToCome()) == token + ToCome()
    {
      token := [];
      ghost var s := input[pos..];
      InitialPending(s);
      assert s[0] == input[pos];
      if input[pos] == '"' {
        assert s[1..] == input[pos + 1..];
        state := STRING;
        pos := pos + 1;
      } else if pos + 2 <= |input| && input[pos] == '/' && input[pos + 1] == '*' {
        assert s[1] == '*' && s[2..] == input[pos + 2..];
        state := COMMENT;
        pos := pos + 2;
      } else {
        token := Plain();
      }
      assert [] + ToCome() == ToCome();
    }

    method Step() returns (token: seq<Token>)
      requires Valid() && pos < |input|
      modifies this`pos, this`state, buffer, buffer.chars
      ensures Valid() && pos > old(pos) && (buffer.chars == old(buffer.chars) || fresh(buffer.chars))
      ensures old(ToCome()) == token + ToCome()
    {
      token := [];
      match state
      case STRING => token := InString();
      case COMMENT =>
        InComment();
        assert [] + ToCome() == ToCome();
      case INITIAL => token := InInitial();
    }

    /** `yylex`, until the text ends: what it returns is exactly what the lexical grammar says. */
    method Tokens() returns (tokens: seq<Token>)
      requires Valid()
      modifies this`pos, this`state, buffer, buffer.chars
      ensures tokens == old(ToCome())
    {
      tokens := [];
      ghost var whole := ToCome();
      ghost var chars := buffer.chars;
      assert [] + whole == whole;
      while pos < |input|
        invariant Valid() && whole == tokens + ToCome()
        invariant buffer.chars == chars || fresh(buffer.chars)
        decreases |input| - pos
      {
        ghost var before := ToCome();
        var token := Step();
        OneMore(whole, tokens, before, token, ToCome());
        tokens := tokens + token;
      }
      assert input[pos..] == "";
      NothingPending(state, buffer.Contents());
      assert tokens + [] == tokens;
    }
  }

  /** Scanning a text gives its tokens. */
  method Scan(text: string) returns (tokens: seq<Token>)
    ensures tokens == Lex(text)
  {
    var scanner := new Scanner(text);
    tokens := scanner.Tokens();
  }
}
