/** Byte strings and the substring search shared by the stream formats.
    A byte of the C++ program is a `char`; a `std::string` is a `string`. */
module Text {

  datatype Option<+T> = None | Some(value: T)

  // ----- characters and white space -----

  predicate IsAlnum(c: char) { '0' <= c <= '9' || 'A' <= c <= 'Z' || 'a' <= c <= 'z' }

  /** `isspace` */
  predicate IsSpace(c: char) { c == ' ' || '\t' <= c <= '\r' }

  function SkipSpaces(s: string): (r: string)
    ensures |r| <= |s|
  {
    if s != [] && IsSpace(s[0]) then SkipSpaces(s[1..]) else s
  }

  predicate IsSpaceOrTab(c: char) { c == ' ' || c == '\t' }

  function TrimLeft(s: string): (r: string)
    ensures |r| <= |s|
  {
    if s != [] && IsSpaceOrTab(s[0]) then TrimLeft(s[1..]) else s
  }

  function TrimRight(s: string): (r: string)
    ensures |r| <= |s|
  {
    if s != [] && IsSpaceOrTab(s[|s| - 1]) then TrimRight(s[..|s| - 1]) else s
  }

  function TrimCopy(s: string): string { TrimRight(TrimLeft(s)) }

  lemma {:induction false} Assoc(a: string, b: string, c: string)
    ensures a + b + c == a + (b + c)
  {
  }

  // ----- searching -----

  predicate OccursAt(s: string, d: string, i: nat) {
    i + |d| <= |s| && s[i..i + |d|] == d
  }

  /** `k` is where `d` first occurs in `s`, or `|s|` when it occurs nowhere. */
  ghost predicate FirstAt(s: string, d: string, k: nat) {
    && k <= |s|
    && (k < |s| ==> OccursAt(s, d, k))
    && (forall j: nat | j < k :: !OccursAt(s, d, j))
  }

  function FindFrom(s: string, d: string, i: nat): (k: nat)
    requires i <= |s|
    ensures i <= k <= |s| && (k < |s| ==> k + |d| <= |s|)
    decreases |s| - i
  {
    if i == |s| || OccursAt(s, d, i) then i else FindFrom(s, d, i + 1)
  }

  /** The position of the first occurrence of `d`, or the length of `s`. */
  function Find(s: string, d: string): (k: nat)
    ensures k <= |s| && (k < |s| ==> k + |d| <= |s|)
  {
    FindFrom(s, d, 0)
  }

  lemma {:induction false} FindFromIsFirst(s: string, d: string, i: nat)
    requires i <= |s|
    ensures var k := FindFrom(s, d, i);
            (k < |s| ==> OccursAt(s, d, k)) && forall j: nat | i <= j < k :: !OccursAt(s, d, j)
    decreases |s| - i
  {
    if i < |s| && !OccursAt(s, d, i) {
      FindFromIsFirst(s, d, i + 1);
    }
  }

  lemma {:induction false} FindIsFirst(s: string, d: string)
    ensures FirstAt(s, d, Find(s, d))
  {
    FindFromIsFirst(s, d, 0);
  }

  lemma {:induction false} FindIs(s: string, d: string, k: nat)
    requires FirstAt(s, d, k)
    ensures Find(s, d) == k
  {
    FindIsFirst(s, d);
  }

  function Concat(parts: seq<string>): string {
    if parts == [] then [] else parts[0] + Concat(parts[1..])
  }

  lemma {:induction false} ConcatSnoc(parts: seq<string>, p: string)
    ensures Concat(parts + [p]) == Concat(parts) + p
  {
    if parts == [] {
      assert parts + [p] == [p];
      assert Concat([p]) == p + Concat([]);
    } else {
      ConcatSnoc(parts[1..], p);
      assert (parts + [p])[1..] == parts[1..] + [p];
    }
  }

  lemma {:induction false} ConcatAppend(a: seq<string>, b: seq<string>)
    ensures Concat(a + b) == Concat(a) + Concat(b)
  {
    if a == [] {
      assert a + b == b;
    } else {
      ConcatAppend(a[1..], b);
      assert (a + b)[0] == a[0] && (a + b)[1..] == a[1..] + b;
      Assoc(a[0], Concat(a[1..]), Concat(b));
    }
  }

  /** Searching a prefix of a longer text finds the same first occurrence when it
      lies inside the prefix, and nothing otherwise. */
  lemma {:induction false} FindInPrefix(s: string, rest: string, d: string)
    requires d != []
    ensures var q := Find(s + rest, d);
            if q + |d| <= |s| then Find(s, d) == q else Find(s, d) == |s|
  {
    var t := s + rest;
    var q := Find(t, d);
    FindIsFirst(t, d);
    forall j: nat | j + |d| <= |s| ensures OccursAt(s, d, j) == OccursAt(t, d, j) {
      assert s[j..j + |d|] == t[j..j + |d|];
    }
    FindIs(s, d, if q + |d| <= |s| then q else |s|);
  }
}
