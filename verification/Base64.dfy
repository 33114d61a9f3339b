/** Base64 (section 4 of RFC 4648): the shift accumulator against the coding by blocks of three. */
module Base64 {
  import opened Text

  type Byte = n: nat | n < 256
  type Sextet = n: nat | n < 64

  // ----- the coding by blocks -----

  function Symbol(n: Sextet): char {
    if n < 26 then ('A' as int + n) as char
    else if n < 52 then ('a' as int + n - 26) as char
    else if n < 62 then ('0' as int + n - 52) as char
    else if n == 62 then '+' else '/'
  }

  function Block(a: Byte, b: Byte, c: Byte): string {
    [Symbol(a / 4), Symbol(a % 4 * 16 + b / 16), Symbol(b % 16 * 4 + c / 64), Symbol(c % 64)]
  }

  function Encode(s: seq<Byte>): string {
    if s == [] then ""
    else if |s| == 1 then Block(s[0], 0, 0)[..2] + "=="
    else if |s| == 2 then Block(s[0], s[1], 0)[..3] + "="
    else Block(s[0], s[1], s[2]) + Encode(s[3..])
  }

  // ----- a decoder -----

  function SymbolValue(c: char): Option<Sextet> {
    if 'A' <= c <= 'Z' then Some(c as int - 'A' as int)
    else if 'a' <= c <= 'z' then Some(c as int - 'a' as int + 26)
    else if '0' <= c <= '9' then Some(c as int - '0' as int + 52)
    else if c == '+' then Some(62)
    else if c == '/' then Some(63)
    else None
  }

  /** The bytes of one block of four characters, with up to two of them padding at the end. */
  function DecodeBlock(p: char, q: char, r: char, t: char): Option<seq<Byte>> {
    match (SymbolValue(p), SymbolValue(q))
    case (Some(a), Some(b)) =>
      var first := a * 4 + b / 16;
      if r == '=' && t == '=' then Some([first])
      else
        (match SymbolValue(r)
         case None => None
         case Some(c) =>
           var second := b % 16 * 16 + c / 4;
           if t == '=' then Some([first, second])
           else
             match SymbolValue(t)
             case None => None
             case Some(d) => Some([first, second, c % 4 * 64 + d]))
    case _ => None
  }

  function Decode(s: string): Option<seq<Byte>> {
    if s == "" then Some([])
    else if |s| < 4 then None
    else
      match (DecodeBlock(s[0], s[1], s[2], s[3]), Decode(s[4..]))
      case (Some(block), Some(more)) => Some(block + more)
      case _ => None
  }

  // ----- properties of the coding -----

  lemma {:induction false} SymbolIsRead(n: Sextet)
    ensures SymbolValue(Symbol(n)) == Some(n) && Symbol(n) != '='
  {
  }

  lemma {:induction false} SymbolsAreDecoded(p: Sextet, q: Sextet, r: Sextet, t: Sextet)
    ensures DecodeBlock(Symbol(p), Symbol(q), Symbol(r), Symbol(t)) ==
            Some([p * 4 + q / 16, q % 16 * 16 + r / 4, r % 4 * 64 + t])
    ensures DecodeBlock(Symbol(p), Symbol(q), Symbol(r), '=') == Some([p * 4 + q / 16, q % 16 * 16 + r / 4])
    ensures DecodeBlock(Symbol(p), Symbol(q), '=', '=') == Some([p * 4 + q / 16])
  {
    SymbolIsRead(p);
    SymbolIsRead(q);
    SymbolIsRead(r);
    SymbolIsRead(t);
  }

  lemma {:induction false} SextetsMakeBytes(a: Byte, b: Byte, c: Byte)
    ensures var p, q, r, t := a / 4, a % 4 * 16 + b / 16, b % 16 * 4 + c / 64, c % 64;
            p * 4 + q / 16 == a && q % 16 * 16 + r / 4 == b && r % 4 * 64 + t == c
  {
  }

  lemma {:induction false} BlockIsDecoded(a: Byte, b: Byte, c: Byte)
    ensures var s := Block(a, b, c);
            && DecodeBlock(s[0], s[1], s[2], s[3]) == Some([a, b, c])
            && DecodeBlock(s[0], s[1], s[2], '=') == Some([a, b])
            && DecodeBlock(s[0], s[1], '=', '=') == Some([a])
  {
    SymbolsAreDecoded(a / 4, a % 4 * 16 + b / 16, b % 16 * 4 + c / 64, c % 64);
    SextetsMakeBytes(a, b, c);
  }

  lemma {:induction false} DecodeStep(block: string, more: string, bytes: seq<Byte>, rest: seq<Byte>)
    requires |block| == 4 && DecodeBlock(block[0], block[1], block[2], block[3]) == Some(bytes)
    requires Decode(more) == Some(rest)
    ensures Decode(block + more) == Some(bytes + rest)
  {
    assert (block + more)[4..] == more;
  }

  lemma {:induction false} ShortIsDecoded(s: seq<Byte>)
    requires |s| < 3
    ensures Decode(Encode(s)) == Some(s)
  {
    if s != [] {
      BlockIsDecoded(s[0], if |s| == 2 then s[1] else 0, 0);
      assert s == if |s| == 1 then [s[0]] else [s[0], s[1]];
      DecodeStep(Encode(s), "", s, []);
      assert Encode(s) + "" == Encode(s) && s + [] == s;
    }
  }

  /** A decoder recovers every byte string. */
  lemma {:induction false} EncodingIsDecoded(s: seq<Byte>)
    ensures Decode(Encode(s)) == Some(s)
  {
    if |s| < 3 {
      ShortIsDecoded(s);
    } else {
      BlockIsDecoded(s[0], s[1], s[2]);
      EncodingIsDecoded(s[3..]);
      DecodeStep(Block(s[0], s[1], s[2]), Encode(s[3..]), [s[0], s[1], s[2]], s[3..]);
      assert [s[0], s[1], s[2]] + s[3..] == s;
    }
  }

  ghost predicate Padded(e: string, pad: nat) {
    pad <= |e| && forall i | 0 <= i < |e| :: e[i] == '=' <==> i >= |e| - pad
  }

  lemma {:induction false} BlockIsNotPadded(a: Byte, b: Byte, c: Byte)
    ensures Padded(Block(a, b, c), 0)
  {
    SymbolIsRead(a / 4);
    SymbolIsRead(a % 4 * 16 + b / 16);
    SymbolIsRead(b % 16 * 4 + c / 64);
    SymbolIsRead(c % 64);
  }

  lemma {:induction false} ShortIsPadded(s: seq<Byte>)
    requires 0 < |s| < 3
    ensures |Encode(s)| == 4 && Padded(Encode(s), 3 - |s|)
  {
    var block := Block(s[0], if |s| == 2 then s[1] else 0, 0);
    BlockIsNotPadded(s[0], if |s| == 2 then s[1] else 0, 0);
    assert Encode(s) == block[..1 + |s|] + (if |s| == 1 then "==" else "=");
  }

  lemma {:induction false} PaddedLater(block: string, e: string, pad: nat)
    requires Padded(block, 0) && Padded(e, pad)
    ensures Padded(block + e, pad)
  {
  }

  lemma {:induction false} ThreeLess(n: nat)
    requires n >= 3
    ensures (n - 3) % 3 == n % 3 && (n - 3 + 2) / 3 * 4 + 4 == (n + 2) / 3 * 4
  {
  }

  /** Four characters for every three bytes begun, and padding only at the end. */
  lemma {:induction false} EncodingIsPadded(s: seq<Byte>)
    ensures |Encode(s)| == (|s| + 2) / 3 * 4
    ensures Padded(Encode(s), (3 - |s| % 3) % 3)
  {
    if |s| >= 3 {
      EncodingIsPadded(s[3..]);
      BlockIsNotPadded(s[0], s[1], s[2]);
      ThreeLess(|s|);
      PaddedLater(Block(s[0], s[1], s[2]), Encode(s[3..]), (3 - |s| % 3) % 3);
    } else if s != [] {
      ShortIsPadded(s);
    }
  }

  // ----- the loop -----

  /** What a 32-bit signed addition or shift keeps. */
  function Wrap(n: int): int { (n + 0x8000_0000) % 0x1_0000_0000 - 0x8000_0000 }

  function Shifted(val: int, bits: nat): int
    requires bits <= 8
  {
    if bits == 0 then val
    else if bits == 2 then val / 4
    else if bits == 4 then val / 16
    else if bits == 6 then val / 64
    else val / 256
  }

  function LowSix(n: int): Sextet { n % 64 }

  /** What the loop has written after the bytes `s`: an unfinished block has no last character. */
  function Partial(s: seq<Byte>): string {
    if s == [] then ""
    else if |s| == 1 then [Symbol(s[0] / 4)]
    else if |s| == 2 then [Symbol(s[0] / 4), Symbol(s[0] % 4 * 16 + s[1] / 16)]
    else Block(s[0], s[1], s[2]) + Partial(s[3..])
  }

  /** The pending bits are a count in {-6, -4, -2}. */
  function PendingBits(n: nat): int { if n % 3 == 0 then -6 else if n % 3 == 1 then -4 else -2 }

  /** `high` is a multiple of 64 that a shift leaves above the six bits wanted. */
  lemma {:induction false} Six(v: int, high: int, low: Sextet)
    requires v == 64 * high + low
    ensures v % 64 == low
  {
  }

  lemma {:induction false} LowByte(v: int, high: int, c: Byte)
    requires v == 256 * high + c
    ensures v % 256 == c && v / 4 == 64 * high + c / 4
  {
  }

  lemma {:induction false} LowBits(v: int, m: int, l: Byte, c: Byte)
    requires v == 65536 * m + 256 * l + c
    ensures v % 256 == c && v % 64 == c % 64 && v / 4 % 64 == c / 4
  {
    var high := 256 * m + l;
    LowByte(v, high, c);
    Six(v, 4 * high + c / 64, c % 64);
    Six(v / 4, high, c / 4);
  }

  lemma {:induction false} BitsFromFour(v: int, m: int, l: Byte, c: Byte)
    requires v == 65536 * m + 256 * l + c
    ensures v / 16 % 64 == l % 4 * 16 + c / 16
  {
    var low, high := l % 4 * 16 + c / 16, 64 * m + l / 4;
    assert v == 16 * (64 * high + low) + c % 16;
    Six(v / 16, high, low);
  }

  lemma {:induction false} BitsFromSix(v: int, m: int, l: Byte, c: Byte)
    requires v == 65536 * m + 256 * l + c
    ensures v / 64 % 64 == l % 16 * 4 + c / 64
  {
    var low, high := l % 16 * 4 + c / 64, 16 * m + l / 16;
    assert v == 64 * (64 * high + low) + c % 64;
    Six(v / 64, high, low);
  }

  lemma {:induction false} WrapKeepsLowBits(val: int, c: Byte)
    ensures var v, l := Wrap(val * 256 + c), val % 256;
            && v % 256 == c && v % 64 == c % 64
            && v / 4 % 64 == c / 4
            && v / 16 % 64 == l % 4 * 16 + c / 16
            && v / 64 % 64 == l % 16 * 4 + c / 64
  {
    var x := val * 256 + c;
    var k := (x + 0x8000_0000) / 0x1_0000_0000;
    assert Wrap(x) == x - k * 0x1_0000_0000;
    var m := val / 256 - k * 65536;
    LowBits(Wrap(x), m, val % 256, c);
    BitsFromFour(Wrap(x), m, val % 256, c);
    BitsFromSix(Wrap(x), m, val % 256, c);
  }

  lemma {:induction false} TwoMore(s: string, a: char, b: char)
    ensures s + [a] + [b] == s + [a, b]
  {
  }

  /** What one more byte adds. */
  function Added(s: seq<Byte>, c: Byte): string {
    if |s| % 3 == 0 then [Symbol(c / 4)]
    else if |s| % 3 == 1 then [Symbol(s[|s| - 1] % 4 * 16 + c / 16)]
    else [Symbol(s[|s| - 1] % 16 * 4 + c / 64), Symbol(c % 64)]
  }

  lemma {:induction false} PartialStep(s: seq<Byte>, block: string)
    requires |s| >= 3 && block == Block(s[0], s[1], s[2])
    ensures Partial(s) == block + Partial(s[3..])
  {
  }

  lemma {:induction false} ThirdByte(a: Byte, b: Byte, c: Byte)
    ensures Partial([a, b, c]) == Partial([a, b]) + Added([a, b], c)
  {
    assert [a, b, c][3..] == [];
  }

  lemma {:induction false} SecondByte(a: Byte, c: Byte)
    ensures Partial([a, c]) == Partial([a]) + Added([a], c)
  {
  }

  lemma {:induction false} FirstBlock(s: seq<Byte>, c: Byte)
    requires |s| < 3
    ensures Partial(s + [c]) == Partial(s) + Added(s, c)
  {
    if |s| == 2 {
      assert s == [s[0], s[1]] && s + [c] == [s[0], s[1], c];
      ThirdByte(s[0], s[1], c);
    } else if |s| == 1 {
      assert s == [s[0]] && s + [c] == [s[0], c];
      SecondByte(s[0], c);
    } else {
      assert s == [] && s + [c] == [c];
    }
  }

  lemma {:induction false} AddedLater(s: seq<Byte>, c: Byte)
    requires |s| >= 3
    ensures Added(s, c) == Added(s[3..], c)
  {
    ThreeLess(|s|);
    assert |s| % 3 != 0 ==> s[3..][|s| - 4] == s[|s| - 1];
  }

  lemma {:induction false} OneMoreByte(s: seq<Byte>, c: Byte)
    ensures Partial(s + [c]) == Partial(s) + Added(s, c)
  {
    if |s| < 3 {
      FirstBlock(s, c);
    } else {
      OneMoreByte(s[3..], c);
      AddedLater(s, c);
      assert (s + [c])[3..] == s[3..] + [c];
      PartialStep(s, Block(s[0], s[1], s[2]));
      PartialStep(s + [c], Block(s[0], s[1], s[2]));
      Assoc(Block(s[0], s[1], s[2]), Partial(s[3..]), Added(s, c));
    }
  }

  function Bits(val: int, valb: nat): string
    requires valb <= 8
  {
    [Symbol(LowSix(Shifted(val, valb)))]
  }

  /** The symbols written while `pending` bits and more are there. */
  function Emitted(val: int, pending: int): string
    requires pending == 2 || pending == 4 || pending == 6
  {
    if pending == 6 then [Bits(val, 6)[0], Bits(val, 0)[0]] else Bits(val, pending)
  }

  lemma {:induction false} AddedBits(s: seq<Byte>, c: Byte, val: int)
    requires s != [] ==> val % 256 == s[|s| - 1]
    ensures Wrap(val * 256 + c) % 256 == c
    ensures Added(s, c) == Emitted(Wrap(val * 256 + c), PendingBits(|s|) + 8)
  {
    WrapKeepsLowBits(val, c);
  }

  lemma {:induction false} NextPending(i: nat)
    ensures PendingBits(i + 1) == if PendingBits(i) == -2 then -6 else PendingBits(i) + 2
  {
  }

  /** What one byte adds, in terms of the accumulator after it. */
  lemma {:induction false} ByteStep(input: seq<Byte>, i: nat, val: int)
    requires i < |input| && (i > 0 ==> val % 256 == input[i - 1])
    ensures var v := Wrap(val * 256 + input[i]);
            && v % 256 == input[i]
            && Partial(input[..i + 1]) == Partial(input[..i]) + Emitted(v, PendingBits(i) + 8)
  {
    OneMoreByte(input[..i], input[i]);
    assert input[..i + 1] == input[..i] + [input[i]];
    AddedBits(input[..i], input[i], val);
  }

  function Padding(n: nat): string { if n % 4 == 2 then "==" else if n % 4 == 3 then "=" else "" }

  /** The inner loop: every six bits that are there. */
  method EmitBits(written: string, val: int, pending: int) returns (out: string, valb: int)
    requires pending == 2 || pending == 4 || pending == 6
    ensures valb == if pending == 6 then -6 else pending - 6
    ensures out == written + Emitted(val, pending)
  {
    out, valb := written, pending;
    TwoMore(written, Bits(val, 6)[0], Bits(val, 0)[0]);
    while valb >= 0
      invariant -6 <= valb <= pending
      invariant if valb == pending then out == written
                else if pending == 6 && valb == 0 then out == written + Bits(val, 6)
                else valb == (if pending == 6 then -6 else pending - 6) && out == written + Emitted(val, pending)
      decreases valb + 6
    {
      out := out + [Symbol(LowSix(Shifted(val, valb)))];
      valb := valb - 6;
    }
  }

  method PadToFour(s: string) returns (out: string)
    requires |s| % 4 != 1
    ensures out == s + Padding(|s|)
  {
    out := s;
    while |out| % 4 != 0
      invariant |out| % 4 != 1 && out + Padding(|out|) == s + Padding(|s|)
      decreases (4 - |out| % 4) % 4
    {
      assert out + "=" + "=" == out + "==" && out + "=" + "" == out + "=";
      out := out + "=";
    }
    assert out + "" == out;
  }

  /** What is still missing at the end. */
  function Ending(s: seq<Byte>): string {
    if |s| % 3 == 0 then ""
    else if |s| % 3 == 1 then [Symbol(s[|s| - 1] % 4 * 16)]
    else [Symbol(s[|s| - 1] % 16 * 4)]
  }

  ghost predicate Ends(s: seq<Byte>) {
    var q := Partial(s) + Ending(s);
    |q| % 4 != 1 && Encode(s) == q + Padding(|q|)
  }

  lemma {:induction false} ShortEnds(s: seq<Byte>)
    requires |s| < 3
    ensures Ends(s)
  {
    if s != [] {
      assert Encode(s) == Partial(s) + Ending(s) + Padding(|s| + 1);
    }
  }

  lemma {:induction false} LongerEnds(block: string, p: string, e: string, code: string)
    requires |block| == 4 && |p + e| % 4 != 1 && code == p + e + Padding(|p + e|)
    ensures var q := block + p + e; |q| % 4 != 1 && block + code == q + Padding(|q|)
  {
    assert |block + p + e| % 4 == |p + e| % 4;
    Assoc(block, p, e);
    Assoc(block, p + e, Padding(|p + e|));
  }

  lemma {:induction false} LastBlock(s: seq<Byte>)
    ensures Ends(s)
  {
    if |s| < 3 {
      ShortEnds(s);
    } else {
      LastBlock(s[3..]);
      EndingLater(s);
      PartialStep(s, Block(s[0], s[1], s[2]));
      LongerEnds(Block(s[0], s[1], s[2]), Partial(s[3..]), Ending(s), Encode(s[3..]));
    }
  }

  lemma {:induction false} EndingLater(s: seq<Byte>)
    requires |s| >= 3
    ensures Ending(s) == Ending(s[3..])
  {
    ThreeLess(|s|);
    assert |s| % 3 != 0 ==> s[3..][|s| - 4] == s[|s| - 1];
  }

  lemma {:induction false} EndingBits(s: seq<Byte>, val: int)
    requires |s| % 3 != 0 && val % 256 == s[|s| - 1]
    ensures Bits(Wrap(val * 256), PendingBits(|s|) + 8) == Ending(s)
  {
    WrapKeepsLowBits(val, 0);
  }

  /** `base64_encode`: the accumulator wraps around, but only its low bits are ever used. */
  method Base64Encode(input: seq<Byte>) returns (out: string)
    ensures out == Encode(input)
  {
    out := "";
    var val, valb := 0, -6;
    var i := 0;
    assert input[..0] == [];
    while i < |input|
      invariant 0 <= i <= |input|
      invariant valb == PendingBits(i)
      invariant i > 0 ==> val % 256 == input[i - 1]
      invariant out == Partial(input[..i])
    {
      ByteStep(input, i, val);
      NextPending(i);
      val := Wrap(val * 256 + input[i]);
      valb := valb + 8;
      out, valb := EmitBits(out, val, valb);
      i := i + 1;
    }
    assert input[..i] == input;
    if valb > -6 {
      EndingBits(input, val);
      out := out + Bits(Wrap(val * 256), valb + 8);
    }
    LastBlock(input);
    assert Partial(input) + "" == Partial(input);
    out := PadToFour(out);
  }
}
