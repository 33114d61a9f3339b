/** The values a libconfig file can hold, and the tokens it is read as. */
module ConfigValue {
  import opened Text

  /** `hex` is the stored number format; integers are 32 or 64 bits wide, two's complement. A float keeps
      the digits it was read from; `VNone` is a setting that has a name and no value yet. */
  datatype Value =
    | VBool(b: bool)
    | VInt(i: int, hex: bool)
    | VInt64(ll: int, hex: bool)
    | VString(s: string)
    | VArray(elems: seq<Value>)
    | VList(elems: seq<Value>)
    | VGroup(members: seq<Member>)
    | VFloat(text: string)
    | VNone

  datatype Member = Member(name: string, value: Value)

  datatype Token =
    | TBool(b: bool) | TInt(i: int) | THex(i: int) | TInt64(ll: int) | THex64(ll: int) | TFloat(text: string)
    | TString(s: string) | TName(name: string) | TEquals | TComma | TSemicolon
    | TArrayStart | TArrayEnd | TListStart | TListEnd | TGroupStart | TGroupEnd | TGarbage

  predicate FitsInt32(n: int) { -0x8000_0000 <= n < 0x8000_0000 }
  predicate FitsInt64(n: int) { -0x8000_0000_0000_0000 <= n < 0x8000_0000_0000_0000 }

  /** What a conversion to a narrower signed type keeps. */
  function ToInt32(n: int): int { (n + 0x8000_0000) % 0x1_0000_0000 - 0x8000_0000 }
  function ToInt64(n: int): int { (n + 0x8000_0000_0000_0000) % 0x1_0000_0000_0000_0000 - 0x8000_0000_0000_0000 }

  predicate IsAlpha(c: char) { 'A' <= c <= 'Z' || 'a' <= c <= 'z' }
  predicate IsDecimal(c: char) { '0' <= c <= '9' }
  predicate IsNameStart(c: char) { IsAlpha(c) || c == '*' }
  predicate IsNameChar(c: char) { IsAlpha(c) || IsDecimal(c) || c == '*' || c == '_' || c == '-' }

  /** `__config_validate_name` */
  predicate ValidName(name: string) {
    name != "" && IsNameStart(name[0]) && forall i | 1 <= i < |name| :: IsNameChar(name[i])
  }

  function Lower(c: char): char { if 'A' <= c <= 'Z' then (c as int + 32) as char else c }

  predicate EqualsIgnoringCase(a: string, b: string) {
    |a| == |b| && forall i | 0 <= i < |a| :: Lower(a[i]) == Lower(b[i])
  }

  /** A name that the scanner reads as a boolean. */
  predicate IsBooleanWord(name: string) { EqualsIgnoringCase(name, "true") || EqualsIgnoringCase(name, "false") }

  predicate NulFree(s: string) { forall i | 0 <= i < |s| :: s[i] != 0 as char }

  predicate IsScalar(v: Value) { v.VBool? || v.VInt? || v.VInt64? || v.VFloat? || v.VString? }

  predicate SameKind(a: Value, b: Value) {
    || (a.VBool? && b.VBool?) || (a.VInt? && b.VInt?) || (a.VInt64? && b.VInt64?)
    || (a.VFloat? && b.VFloat?) || (a.VString? && b.VString?)
  }
}
