/** Decimal and hexadecimal numerals, printed and read back. */
module Numerals {

  type Base = b: nat | b == 10 || b == 16 witness 10

  function Quotient(n: nat, b: Base): nat { if b == 10 then n / 10 else n / 16 }
  function Remainder(n: nat, b: Base): (r: nat)
    ensures r < b
  {
    if b == 10 then n % 10 else n % 16
  }
  function Scale(n: nat, b: Base): nat { if b == 10 then 10 * n else 16 * n }

  function DigitChar(d: nat, upper: bool): char
    requires d < 16
  {
    if d < 10 then ('0' as int + d) as char
    else if upper then ('A' as int + d - 10) as char
    else ('a' as int + d - 10) as char
  }

  /** The value of a digit, or 16 for any other character. */
  function DigitValue(c: char): (v: nat)
    ensures v <= 16
  {
    if '0' <= c <= '9' then c as int - '0' as int
    else if 'a' <= c <= 'f' then c as int - 'a' as int + 10
    else if 'A' <= c <= 'F' then c as int - 'A' as int + 10
    else 16
  }

  predicate IsDigit(c: char, b: Base) { DigitValue(c) < b }

  predicate AllDigits(s: string, b: Base) { forall i | 0 <= i < |s| :: IsDigit(s[i], b) }

  function Print(n: nat, b: Base, upper: bool): (s: string)
    ensures s != "" && AllDigits(s, b)
  {
    var last := [DigitChar(Remainder(n, b), upper)];
    if Quotient(n, b) == 0 then last else Print(Quotient(n, b), b, upper) + last
  }

  function ValueOf(s: string, b: Base): nat {
    if s == "" then 0 else Scale(ValueOf(s[..|s| - 1], b), b) + DigitValue(s[|s| - 1])
  }

  lemma {:induction false} PrintIsRead(n: nat, b: Base, upper: bool)
    ensures ValueOf(Print(n, b, upper), b) == n
  {
    var s := Print(n, b, upper);
    var q := Quotient(n, b);
    if q == 0 {
      assert s[..0] == "";
    } else {
      PrintIsRead(q, b, upper);
      assert s[..|s| - 1] == Print(q, b, upper);
    }
  }

  /** How many characters at the start of `s` are digits. */
  function DigitRun(s: string, b: Base): (k: nat)
    ensures k <= |s| && forall i | 0 <= i < k :: IsDigit(s[i], b)
    ensures k < |s| ==> !IsDigit(s[k], b)
  {
    if s == "" || !IsDigit(s[0], b) then 0 else 1 + DigitRun(s[1..], b)
  }

  lemma {:induction false} DigitRunStops(s: string, b: Base, k: nat)
    requires k <= |s| && AllDigits(s[..k], b) && (k < |s| ==> !IsDigit(s[k], b))
    ensures DigitRun(s, b) == k
  {
    var r := DigitRun(s, b);
    assert forall i | 0 <= i < k :: s[..k][i] == s[i];
    assert forall i | 0 <= i < r :: s[..r][i] == s[i];
  }

  lemma {:induction false} DigitsThenRest(digits: string, rest: string, b: Base)
    requires AllDigits(digits, b) && (rest == "" || !IsDigit(rest[0], b))
    ensures DigitRun(digits + rest, b) == |digits|
  {
    assert (digits + rest)[..|digits|] == digits;
    DigitRunStops(digits + rest, b, |digits|);
  }
}
