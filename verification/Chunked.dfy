/** Chunked transfer coding: what the writer sends and what the reader makes of a byte stream
    (section 4.1 of RFC 7230). */
module Chunked {
  import opened Text
  import opened Numerals

  const CRLF: string := "\r\n"
  const LAST: string := "0\r\n\r\n"
  const ULONG_MAX: nat := 0xffff_ffff_ffff_ffff

  // ----- the writer -----

  /** What a content provider asks of its data sink. */
  datatype Op = Write(data: string) | Done

  function HexSize(n: nat): string { Print(n, 16, false) }

  /** One chunk: its size, its data, and a line end after each. */
  function Frame(data: string): string { HexSize(|data|) + CRLF + data + CRLF }

  function Emitted(op: Op): string {
    match op
    case Write(data) => if data == "" then "" else Frame(data)
    case Done => LAST
  }

  function EmitAll(ops: seq<Op>): string { if ops == [] then "" else Emitted(ops[0]) + EmitAll(ops[1..]) }

  /** The writer asks for more until the last operation was `Done` or an empty write. */
  function Available(before: bool, ops: seq<Op>): bool {
    if ops == [] then before else ops[|ops| - 1].Write? && ops[|ops| - 1].data != ""
  }

  /** The operations of a run over the calls of the provider, and whether the run ends well; when the provider has
      no further call to make it cancels. */
  function Executed(calls: seq<seq<Op>>): (r: (bool, seq<Op>))
    decreases calls
  {
    if calls == [] then (false, [])
    else if !Available(true, calls[0]) then (true, calls[0])
    else
      var (ok, ops) := Executed(calls[1..]);
      (ok, calls[0] + ops)
  }

  function Payload(ops: seq<Op>): string {
    if ops == [] then "" else (if ops[0].Write? then ops[0].data else "") + Payload(ops[1..])
  }

  // ----- the reader, on the bytes still to come -----

  /** The length of the first line, line feed included; a line may also end with the input. */
  function LineLength(s: string): (n: nat)
    ensures n <= |s| && (s != "" ==> n > 0)
    ensures forall i | 0 <= i < n - 1 :: s[i] != '\n'
    ensures n < |s| ==> n > 0 && s[n - 1] == '\n'
  {
    if s == "" then 0 else if s[0] == '\n' then 1 else 1 + LineLength(s[1..])
  }

  function SkipPrefix(s: string): string {
    if |s| >= 3 && s[0] == '0' && (s[1] == 'x' || s[1] == 'X') && IsDigit(s[2], 16) then s[2..] else s
  }

  /** `strtoul` in base 16: nothing when there are no digits, and the largest value when it does not fit. */
  function ReadSize(line: string): Option<nat> {
    var t := SkipSpaces(line);
    var negative := t != "" && t[0] == '-';
    var u := SkipPrefix(if negative || (t != "" && t[0] == '+') then t[1..] else t);
    var k := DigitRun(u, 16);
    if k == 0 then None
    else
      var n := ValueOf(u[..k], 16);
      Some(if n > ULONG_MAX then ULONG_MAX else if negative then (ULONG_MAX + 1 - n) % (ULONG_MAX + 1) else n)
  }

  /** How reading ends: whether it succeeds, the bytes handed on, and the bytes left in the stream. */
  datatype Reading = Reading(ok: bool, data: string, rest: string)

  function Prepend(data: string, r: Reading): Reading { r.(data := data + r.data) }

  /** After the size line of the last chunk. */
  function ReadTerminator(s: string): Reading {
    if s == "" then Reading(false, "", "")
    else
      var n := LineLength(s);
      Reading(s[..n] == CRLF, "", s[n..])
  }

  /** `read_content_chunked`. A chunk that is not followed by an empty line ends the reading, with success. */
  function ReadChunks(s: string): Reading
    decreases |s|
  {
    if s == "" then Reading(false, "", "")
    else
      var n := LineLength(s);
      var body := s[n..];
      match ReadSize(s[..n])
      case None => Reading(false, "", body)
      case Some(size) =>
        if size == ULONG_MAX then Reading(false, "", body)
        else if size == 0 then ReadTerminator(body)
        else if |body| < size then Reading(false, body, "")
        else Prepend(body[..size], AfterChunk(body[size..]))
  }

  function AfterChunk(s: string): Reading
    decreases |s|
  {
    if s == "" then Reading(false, "", "")
    else
      var n := LineLength(s);
      if s[..n] != CRLF then Reading(true, "", s[n..]) else ReadChunks(s[n..])
  }

  // ----- reading back one chunk -----

  /** `line` is what the line reader takes from `line + rest`: up to the first line feed, or to the end of the input. */
  predicate IsLine(line: string, rest: string) {
    && line != ""
    && (forall i | 0 <= i < |line| - 1 :: line[i] != '\n')
    && (line[|line| - 1] == '\n' || rest == "")
  }

  lemma {:induction false} LineIs(line: string, rest: string)
    requires IsLine(line, rest)
    ensures LineLength(line + rest) == |line| && (line + rest)[..|line|] == line && (line + rest)[|line|..] == rest
  {
    var t := line + rest;
    var n := LineLength(t);
    assert forall i | 0 <= i < |line| :: t[i] == line[i];
    assert n < |t| ==> t[n - 1] == '\n';
  }

  lemma {:induction false} SizeIsRead(digits: string)
    requires digits != "" && AllDigits(digits, 16)
    requires ValueOf(digits, 16) <= ULONG_MAX
    ensures ReadSize(digits + CRLF) == Some(ValueOf(digits, 16))
  {
    var t := digits + CRLF;
    assert t[0] == digits[0] && IsDigit(digits[0], 16);
    assert SkipSpaces(t) == t;
    if |digits| > 1 {
      assert t[1] == digits[1] && IsDigit(digits[1], 16);
    } else {
      assert t[1] == CRLF[0];
    }
    assert SkipPrefix(t) == t;
    DigitsThenRest(digits, CRLF, 16);
    assert t[..|digits|] == digits;
  }

  lemma {:induction false} SpacesAreSkipped(spaces: string, t: string)
    requires (forall i | 0 <= i < |spaces| :: IsSpace(spaces[i])) && (t == "" || !IsSpace(t[0]))
    ensures SkipSpaces(spaces + t) == t
  {
    if spaces == "" {
      assert spaces + t == t;
    } else {
      assert (spaces + t)[1..] == spaces[1..] + t;
      SpacesAreSkipped(spaces[1..], t);
    }
  }

  /** `0` and an `x` with a digit behind it are read as a prefix. */
  predicate LooksPrefixed(u: string) { |u| >= 3 && u[0] == '0' && (u[1] == 'x' || u[1] == 'X') && IsDigit(u[2], 16) }

  lemma {:induction false} PrefixIsSkipped(prefix: string, digits: string, rest: string)
    requires digits != "" && AllDigits(digits, 16)
    requires prefix == "0x" || prefix == "0X" || (prefix == "" && !LooksPrefixed(digits + rest))
    ensures SkipPrefix(prefix + (digits + rest)) == digits + rest
  {
    var u := digits + rest;
    assert u[0] == digits[0];
    if prefix == "" {
      assert prefix + u == u;
    } else {
      assert (prefix + u)[2..] == u && (prefix + u)[2] == u[0];
    }
  }

  lemma {:induction false} DigitsAreRead(digits: string, rest: string)
    requires digits != "" && AllDigits(digits, 16) && (rest == "" || !IsDigit(rest[0], 16))
    ensures var u := digits + rest; DigitRun(u, 16) == |digits| && u[..DigitRun(u, 16)] == digits
  {
    DigitsThenRest(digits, rest, 16);
  }

  lemma {:induction false} StartsWithDigit(prefix: string, digits: string, rest: string)
    requires digits != "" && AllDigits(digits, 16) && (prefix == "" || prefix == "0x" || prefix == "0X")
    ensures var v := prefix + (digits + rest); v != "" && IsDigit(v[0], 16)
  {
    var v := prefix + (digits + rest);
    assert v[0] == if prefix == "" then digits[0] else prefix[0];
  }

  lemma {:induction false} AfterSign(sign: string, v: string)
    requires (sign == "" || sign == "+" || sign == "-") && v != "" && IsDigit(v[0], 16)
    ensures var t := sign + v;
            && t != "" && !IsSpace(t[0]) && (t[0] == '-' <==> sign == "-")
            && (if t[0] == '-' || t[0] == '+' then t[1..] else t) == v
  {
    var t := sign + v;
    assert t[0] == if sign == "" then v[0] else sign[0];
    assert sign == "" ==> t == v;
    assert sign != "" ==> t[1..] == v;
  }

  /** A size is read however it is written: with spaces before it, a sign, a prefix, and anything after its digits, such
      as a chunk extension. A size that does not fit is the largest one, and a negative one wraps around. */
  lemma {:induction false} SizeInAnyForm(spaces: string, sign: string, prefix: string, digits: string, rest: string)
    requires (forall i | 0 <= i < |spaces| :: IsSpace(spaces[i])) && (sign == "" || sign == "+" || sign == "-")
    requires digits != "" && AllDigits(digits, 16) && (rest == "" || !IsDigit(rest[0], 16))
    requires prefix == "0x" || prefix == "0X" || (prefix == "" && !LooksPrefixed(digits + rest))
    ensures var n := ValueOf(digits, 16);
            ReadSize(spaces + (sign + (prefix + (digits + rest)))) ==
            Some(if n > 0xffff_ffff_ffff_ffff then 0xffff_ffff_ffff_ffff
                 else if sign == "-" && n > 0 then 0x1_0000_0000_0000_0000 - n else n)
  {
    var v := prefix + (digits + rest);
    StartsWithDigit(prefix, digits, rest);
    AfterSign(sign, v);
    SpacesAreSkipped(spaces, sign + v);
    PrefixIsSkipped(prefix, digits, rest);
    DigitsAreRead(digits, rest);
  }

  /** Without digits there is no size. */
  lemma {:induction false} NoDigitsNoSize(spaces: string, sign: string, rest: string)
    requires (forall i | 0 <= i < |spaces| :: IsSpace(spaces[i])) && (sign == "" || sign == "+" || sign == "-")
    requires rest == "" || (!IsDigit(rest[0], 16)
                            && (sign == "" ==> !IsSpace(rest[0]) && rest[0] != '+' && rest[0] != '-'))
    ensures ReadSize(spaces + (sign + rest)) == None
  {
    var t := sign + rest;
    assert sign != "" ==> t[0] == sign[0] && t[1..] == rest;
    assert sign == "" ==> t == rest;
    SpacesAreSkipped(spaces, t);
  }

  lemma {:induction false} LineIsSize(n: nat, rest: string)
    ensures IsLine(HexSize(n) + CRLF, rest)
  {
    var d := HexSize(n);
    var line := d + CRLF;
    forall i | 0 <= i < |line| - 1 ensures line[i] != '\n' {
      assert i < |d| ==> IsDigit(d[i], 16);
    }
  }

  lemma {:induction false} SizeLine(n: nat, rest: string)
    requires n <= ULONG_MAX
    ensures var line := HexSize(n) + CRLF;
            && LineLength(line + rest) == |line| && (line + rest)[..|line|] == line && (line + rest)[|line|..] == rest
            && ReadSize(line) == Some(n)
  {
    var d := HexSize(n);
    var line := d + CRLF;
    LineIsSize(n, rest);
    LineIs(line, rest);
    PrintIsRead(n, 16, false);
    SizeIsRead(d);
  }

  lemma {:induction false} Regroup(size: string, data: string, rest: string)
    ensures size + CRLF + data + CRLF + rest == (size + CRLF) + (data + (CRLF + rest))
    ensures (data + (CRLF + rest))[..|data|] == data && (data + (CRLF + rest))[|data|..] == CRLF + rest
  {
  }

  lemma {:induction false} FrameIsRead(data: string, rest: string)
    requires 0 < |data| < ULONG_MAX
    ensures ReadChunks(Frame(data) + rest) == Prepend(data, ReadChunks(rest))
  {
    var body := data + (CRLF + rest);
    Regroup(HexSize(|data|), data, rest);
    SizeLine(|data|, body);
    LineIs(CRLF, rest);
    assert AfterChunk(CRLF + rest) == ReadChunks(rest);
  }

  lemma {:induction false} LastIsRead(rest: string)
    ensures ReadChunks(LAST + rest) == Reading(true, "", rest)
  {
    var line := "0\r\n";
    assert LAST + rest == line + (CRLF + rest);
    LineIs(line, CRLF + rest);
    LineIs(CRLF, rest);
    assert line == "0" + CRLF && AllDigits("0", 16) && "0"[..0] == "";
    assert ValueOf("0", 16) == 0;
    SizeIsRead("0");
  }

  // ----- when reading succeeds -----

  /** A size line and as many bytes of data as it says. */
  datatype Chunk = Chunk(line: string, data: string)

  predicate IsChunk(c: Chunk) {
    IsLine(c.line, c.data) && ReadSize(c.line) == Some(|c.data|) && 0 < |c.data| < ULONG_MAX
  }

  predicate AreChunks(cs: seq<Chunk>) { forall i | 0 <= i < |cs| :: IsChunk(cs[i]) }

  /** Chunks, each with a line end after its data, in front of `tail`. */
  function ChunksBefore(cs: seq<Chunk>, tail: string): string {
    if cs == [] then tail else cs[0].line + (cs[0].data + (CRLF + ChunksBefore(cs[1..], tail)))
  }

  function DataOf(cs: seq<Chunk>): string { if cs == [] then "" else cs[0].data + DataOf(cs[1..]) }

  /** A size line that says 0, and a line end. */
  predicate LastChunk(line: string, rest: string) {
    IsLine(line, CRLF + rest) && ReadSize(line) == Some(0)
  }

  /** Something other than a line end comes after the data of a chunk, be it only the end of the input inside of it. */
  predicate NoLineEnd(c: Chunk, line: string, rest: string) { IsChunk(c) && IsLine(line, rest) && line != CRLF }

  ghost predicate Terminates(s: string, cs: seq<Chunk>, line: string, rest: string) {
    AreChunks(cs) && LastChunk(line, rest) && s == ChunksBefore(cs, line + (CRLF + rest))
  }

  /** The body is complete: chunks, the last chunk and a line end. */
  ghost predicate Terminated(s: string) {
    exists cs: seq<Chunk>, line: string, rest: string :: Terminates(s, cs, line, rest)
  }

  ghost predicate Breaks(s: string, cs: seq<Chunk>, c: Chunk, line: string, rest: string) {
    AreChunks(cs) && NoLineEnd(c, line, rest) && s == ChunksBefore(cs, c.line + (c.data + (line + rest)))
  }

  /** The body breaks off at a chunk whose data has no line end after it. */
  ghost predicate BrokenOff(s: string) {
    exists cs: seq<Chunk>, c: Chunk, line: string, rest: string :: Breaks(s, cs, c, line, rest)
  }

  lemma {:induction false} ChunkIsRead(c: Chunk, after: string)
    requires IsChunk(c)
    ensures ReadChunks(c.line + (c.data + after)) == Prepend(c.data, AfterChunk(after))
  {
    var body := c.data + after;
    LineIs(c.line, body);
    assert body[..|c.data|] == c.data && body[|c.data|..] == after;
  }

  lemma {:induction false} ChunksAreRead(cs: seq<Chunk>, tail: string)
    requires AreChunks(cs)
    ensures ReadChunks(ChunksBefore(cs, tail)) == Prepend(DataOf(cs), ReadChunks(tail))
  {
    if cs == [] {
      assert "" + ReadChunks(tail).data == ReadChunks(tail).data;
    } else {
      var more := ChunksBefore(cs[1..], tail);
      ChunksAreRead(cs[1..], tail);
      ChunkIsRead(cs[0], CRLF + more);
      LineIs(CRLF, more);
      Assoc(cs[0].data, DataOf(cs[1..]), ReadChunks(tail).data);
    }
  }

  lemma {:induction false} LastChunkIsRead(line: string, rest: string)
    requires LastChunk(line, rest)
    ensures ReadChunks(line + (CRLF + rest)) == Reading(true, "", rest)
  {
    LineIs(line, CRLF + rest);
    LineIs(CRLF, rest);
  }

  /** A complete body is read as its data, up to its end. */
  lemma {:induction false} TerminatedIsRead(s: string, cs: seq<Chunk>, line: string, rest: string)
    requires Terminates(s, cs, line, rest)
    ensures ReadChunks(s) == Reading(true, DataOf(cs), rest)
  {
    ChunksAreRead(cs, line + (CRLF + rest));
    LastChunkIsRead(line, rest);
    assert DataOf(cs) + "" == DataOf(cs);
  }

  /** A body that breaks off is read as the data so far, without the line after it, and it counts as a success. */
  lemma {:induction false} UnterminatedChunkSucceeds(s: string, cs: seq<Chunk>, c: Chunk, line: string, rest: string)
    requires Breaks(s, cs, c, line, rest)
    ensures ReadChunks(s) == Reading(true, DataOf(cs) + c.data, rest)
  {
    ChunksAreRead(cs, c.line + (c.data + (line + rest)));
    ChunkIsRead(c, line + rest);
    LineIs(line, rest);
    assert c.data + "" == c.data;
  }

  lemma {:induction false} FirstLine(s: string)
    requires s != ""
    ensures var n := LineLength(s); IsLine(s[..n], s[n..]) && s == s[..n] + s[n..]
  {
    var n := LineLength(s);
    assert n == |s| ==> s[n..] == "";
  }

  lemma {:induction false} EndsHere(line: string, body: string)
    requires IsLine(line, body) && ReadSize(line) == Some(0) && ReadTerminator(body).ok
    ensures Terminated(line + body)
  {
    FirstLine(body);
    var rest := body[LineLength(body)..];
    assert Terminates(line + body, [], line, rest);
  }

  /** After the data of a chunk comes a line end and more, or the body breaks off. */
  lemma {:induction false} AfterData(c: Chunk, after: string)
    requires IsChunk(c) && after != ""
    ensures var m := LineLength(after);
            if after[..m] == CRLF then after == CRLF + after[m..] else BrokenOff(c.line + (c.data + after))
  {
    FirstLine(after);
    var m := LineLength(after);
    if after[..m] != CRLF {
      assert Breaks(c.line + (c.data + after), [], c, after[..m], after[m..]);
    }
  }

  lemma {:induction false} SplitData(body: string, size: nat)
    requires size <= |body|
    ensures |body[..size]| == size && body == body[..size] + body[size..]
  {
  }

  /** A success has one of the two reasons. */
  lemma {:induction false} SuccessHasReason(s: string)
    requires ReadChunks(s).ok
    ensures Terminated(s) || BrokenOff(s)
    decreases |s|
  {
    var n := LineLength(s);
    var line, body := s[..n], s[n..];
    FirstLine(s);
    var size := ReadSize(line).value;
    if size == 0 {
      EndsHere(line, body);
    } else {
      var c, after := Chunk(line, body[..size]), body[size..];
      SplitData(body, size);
      assert IsChunk(c);
      AfterData(c, after);
      var m := LineLength(after);
      if after[..m] == CRLF {
        var more := after[m..];
        SuccessHasReason(more);
        MoreChunks(s, c, more);
      }
    }
  }

  lemma {:induction false} OneChunkMore(c: Chunk, cs: seq<Chunk>, tail: string)
    requires IsChunk(c) && AreChunks(cs)
    ensures AreChunks([c] + cs)
    ensures ChunksBefore([c] + cs, tail) == c.line + (c.data + (CRLF + ChunksBefore(cs, tail)))
  {
    assert ([c] + cs)[1..] == cs;
  }

  lemma {:induction false} MoreChunks(s: string, c: Chunk, more: string)
    requires IsChunk(c) && s == c.line + (c.data + (CRLF + more))
    ensures Terminated(more) ==> Terminated(s)
    ensures BrokenOff(more) ==> BrokenOff(s)
  {
    if cs: seq<Chunk>, line: string, rest: string :| Terminates(more, cs, line, rest) {
      OneChunkMore(c, cs, line + (CRLF + rest));
      assert Terminates(s, [c] + cs, line, rest);
    }
    if cs: seq<Chunk>, d: Chunk, line: string, rest: string :| Breaks(more, cs, d, line, rest) {
      OneChunkMore(c, cs, d.line + (d.data + (line + rest)));
      assert Breaks(s, [c] + cs, d, line, rest);
    }
  }

  lemma {:induction false} SameLine(line: string, rest: string, other: string, more: string)
    requires IsLine(line, rest) && IsLine(other, more) && line + rest == other + more
    ensures line == other && rest == more
  {
    LineIs(line, rest);
    LineIs(other, more);
  }

  lemma {:induction false} SameChunk(c: Chunk, after: string, d: Chunk, more: string)
    requires IsChunk(c) && IsChunk(d) && c.line + (c.data + after) == d.line + (d.data + more)
    ensures c == d && after == more
  {
    SameLine(c.line, c.data + after, d.line, d.data + more);
    assert (c.data + after)[|c.data|..] == after && (d.data + more)[|d.data|..] == more;
    assert (c.data + after)[..|c.data|] == c.data && (d.data + more)[..|d.data|] == d.data;
  }

  lemma {:induction false} OneReason(s: string, cs: seq<Chunk>, line: string, rest: string,
                                     ds: seq<Chunk>, d: Chunk, other: string, more: string)
    requires Terminates(s, cs, line, rest)
    ensures !Breaks(s, ds, d, other, more)
    decreases |cs|
  {
    if Breaks(s, ds, d, other, more) {
      var last := line + (CRLF + rest);
      var first := if ds == [] then d else ds[0];
      var after := if ds == [] then other + more else CRLF + ChunksBefore(ds[1..], d.line + (d.data + (other + more)));
      assert s == first.line + (first.data + after);
      if cs == [] {
        SameLine(line, CRLF + rest, first.line, first.data + after);
        assert false;
      } else {
        var tail := ChunksBefore(cs[1..], last);
        SameChunk(cs[0], CRLF + tail, first, after);
        if ds == [] {
          SameLine(CRLF, tail, other, more);
          assert false;
        } else {
          SameLine(CRLF, tail, CRLF, ChunksBefore(ds[1..], d.line + (d.data + (other + more))));
          OneReason(tail, cs[1..], line, rest, ds[1..], d, other, more);
          assert false;
        }
      }
    }
  }

  /** Reading succeeds exactly on complete bodies and on those that break off at a chunk without a line end. No body is
      both, so success means that the body was complete exactly when it does not break off. */
  lemma {:induction false} SucceedsExactlyWhen(s: string)
    ensures ReadChunks(s).ok <==> Terminated(s) || BrokenOff(s)
    ensures !(Terminated(s) && BrokenOff(s))
  {
    if ReadChunks(s).ok {
      SuccessHasReason(s);
    }
    if cs: seq<Chunk>, c: Chunk, line: string, rest: string :| Breaks(s, cs, c, line, rest) {
      UnterminatedChunkSucceeds(s, cs, c, line, rest);
      if cs0: seq<Chunk>, line0: string, rest0: string :| Terminates(s, cs0, line0, rest0) {
        OneReason(s, cs0, line0, rest0, cs, c, line, rest);
      }
    }
    if cs: seq<Chunk>, line: string, rest: string :| Terminates(s, cs, line, rest) {
      TerminatedIsRead(s, cs, line, rest);
    }
  }

  lemma {:induction false} BreaksAtOnce(c: Chunk, line: string, rest: string)
    requires NoLineEnd(c, line, rest)
    ensures Breaks(c.line + (c.data + (line + rest)), [], c, line, rest)
  {
  }

  /** For example: a connection that is cut inside the line end after a chunk counts as a success. */
  lemma {:induction false} CutOffChunkSucceeds(data: string)
    requires 0 < |data| < ULONG_MAX
    ensures var s := (HexSize(|data|) + CRLF) + (data + "\r");
            ReadChunks(s) == Reading(true, data, "") && BrokenOff(s) && !Terminated(s)
  {
    var c := Chunk(HexSize(|data|) + CRLF, data);
    var s := c.line + (data + "\r");
    SizeLine(|data|, data);
    LineIsSize(|data|, data);
    assert NoLineEnd(c, "\r", "");
    BreaksAtOnce(c, "\r", "");
    assert "\r" + "" == "\r" && DataOf([]) + data == data;
    UnterminatedChunkSucceeds(s, [], c, "\r", "");
    SucceedsExactlyWhen(s);
  }

  /** What a failing reading has handed on and left: all data so far, and what stands behind the line that failed. */
  lemma {:induction false} FailuresAre(cs: seq<Chunk>, line: string, rest: string)
    requires AreChunks(cs)
    ensures ReadChunks(ChunksBefore(cs, "")) == Reading(false, DataOf(cs), "")
    ensures IsLine(line, rest) && (ReadSize(line) == None || ReadSize(line) == Some(ULONG_MAX)) ==>
              ReadChunks(ChunksBefore(cs, line + rest)) == Reading(false, DataOf(cs), rest)
    ensures IsLine(line, rest) && ReadSize(line).Some? && |rest| < ReadSize(line).value < ULONG_MAX ==>
              ReadChunks(ChunksBefore(cs, line + rest)) == Reading(false, DataOf(cs) + rest, "")
  {
    ChunksAreRead(cs, "");
    ChunksAreRead(cs, line + rest);
    assert DataOf(cs) + "" == DataOf(cs);
    if IsLine(line, rest) {
      LineIs(line, rest);
    }
  }

  /** After a last chunk only a line end makes the reading succeed. */
  lemma {:induction false} LastChunkNeedsItsLineEnd(cs: seq<Chunk>, last: string, line: string, rest: string)
    requires AreChunks(cs) && IsLine(last, line + rest) && ReadSize(last) == Some(0)
    requires line == "" || IsLine(line, rest)
    requires line == "" ==> rest == ""
    ensures ReadChunks(ChunksBefore(cs, last + (line + rest))) == Reading(line == "\r\n", DataOf(cs), rest)
  {
    ChunksAreRead(cs, last + (line + rest));
    LineIs(last, line + rest);
    assert DataOf(cs) + "" == DataOf(cs);
    if line != "" {
      LineIs(line, rest);
    }
  }

  // ----- reading back what a provider wrote -----

  predicate Sized(ops: seq<Op>) { forall i | 0 <= i < |ops| :: ops[i].Write? ==> |ops[i].data| < ULONG_MAX }

  /** The operations up to and including the first `Done`, or all of them. */
  function UpToDone(ops: seq<Op>): (k: nat)
    ensures k <= |ops|
    ensures Finished(ops) ==> k > 0 && ops[k - 1].Done?
  {
    if ops == [] then 0 else if ops[0].Done? then 1 else 1 + UpToDone(ops[1..])
  }

  predicate Finished(ops: seq<Op>) { ops != [] && (ops[0].Done? || Finished(ops[1..])) }

  lemma {:induction false} WhatTheReaderSees(ops: seq<Op>, rest: string)
    requires Sized(ops)
    ensures var k := UpToDone(ops);
            ReadChunks(EmitAll(ops) + rest) ==
            Prepend(Payload(ops[..k]),
                    if Finished(ops) then Reading(true, "", EmitAll(ops[k..]) + rest) else ReadChunks(rest))
  {
    if ops == [] {
      assert "" + rest == rest && ops[..0] == [];
      assert "" + ReadChunks(rest).data == ReadChunks(rest).data;
    } else {
      var more := EmitAll(ops[1..]) + rest;
      Assoc(Emitted(ops[0]), EmitAll(ops[1..]), rest);
      match ops[0] {
        case Done =>
          LastIsRead(more);
          assert ops[..1] == [Done];
          assert Payload([Done]) == "";
        case Write(data) =>
          WhatTheReaderSees(ops[1..], rest);
          SkipWrite(ops);
          var k := UpToDone(ops);
          OneMoreChunk(data, Payload(ops[1..][..k - 1]), more,
            if Finished(ops) then Reading(true, "", EmitAll(ops[k..]) + rest) else ReadChunks(rest));
      }
    }
  }

  lemma {:induction false} SkipWrite(ops: seq<Op>)
    requires ops != [] && ops[0].Write?
    ensures var k := UpToDone(ops);
            && k == 1 + UpToDone(ops[1..]) && Finished(ops) == Finished(ops[1..])
            && ops[k..] == ops[1..][k - 1..]
            && Payload(ops[..k]) == ops[0].data + Payload(ops[1..][..k - 1])
  {
    var k := UpToDone(ops);
    assert ops[..k][1..] == ops[1..][..k - 1];
  }

  lemma {:induction false} OneMoreChunk(data: string, payload: string, more: string, r: Reading)
    requires |data| < ULONG_MAX && ReadChunks(more) == Prepend(payload, r)
    ensures ReadChunks((if data == "" then "" else Frame(data)) + more) == Prepend(data + payload, r)
  {
    assert data + (payload + r.data) == (data + payload) + r.data;
    if data == "" {
      assert "" + more == more && data + payload == payload;
    } else {
      FrameIsRead(data, more);
    }
  }

  /** Whatever the provider does: the reader succeeds, delivers exactly the concatenated payload and consumes
      exactly the bytes written, if and only if the provider said `Done` and wrote nothing after it. */
  lemma {:induction false} RoundTripExactlyWhen(ops: seq<Op>)
    requires Sized(ops)
    ensures ReadChunks(EmitAll(ops)) == Reading(true, Payload(ops), "") <==>
            Finished(ops) && EmitAll(ops[UpToDone(ops)..]) == ""
  {
    var k := UpToDone(ops);
    WhatTheReaderSees(ops, "");
    assert EmitAll(ops) + "" == EmitAll(ops) && EmitAll(ops[k..]) + "" == EmitAll(ops[k..]);
    assert Payload(ops[..k]) + "" == Payload(ops[..k]);
    if Finished(ops) && EmitAll(ops[k..]) == "" {
      NothingEmitted(ops[k..]);
      PayloadSplits(ops, k);
    }
  }

  lemma {:induction false} NothingEmitted(ops: seq<Op>)
    requires EmitAll(ops) == ""
    ensures Payload(ops) == ""
  {
    if ops != [] {
      NothingEmitted(ops[1..]);
    }
  }

  lemma {:induction false} PayloadSplits(ops: seq<Op>, k: nat)
    requires k <= |ops|
    ensures Payload(ops) == Payload(ops[..k]) + Payload(ops[k..])
  {
    if k == 0 {
      assert ops[..0] == [] && ops[0..] == ops;
    } else {
      PayloadSplits(ops[1..], k - 1);
      assert ops[1..][..k - 1] == ops[..k][1..] && ops[1..][k - 1..] == ops[k..];
    }
  }

  /** A run ends with the operation that makes no more data available. */
  lemma {:induction false} RunEndsUnavailable(calls: seq<seq<Op>>)
    requires Executed(calls).0
    ensures var ops := Executed(calls).1; ops != [] && (ops[|ops| - 1].Done? || ops[|ops| - 1].data == "")
    decreases calls
  {
    if Available(true, calls[0]) {
      RunEndsUnavailable(calls[1..]);
    }
  }

  lemma {:induction false} FinishedAt(ops: seq<Op>)
    requires ops != [] && ops[|ops| - 1].Done? && forall i | 0 <= i < |ops| - 1 :: ops[i].Write?
    ensures Finished(ops) && UpToDone(ops) == |ops|
  {
    if |ops| > 1 {
      FinishedAt(ops[1..]);
    }
  }

  /** In particular, for a run over any calls of a provider that writes no empty data and says `Done` at most as its
      last word: the reader gets exactly what was written, whatever follows in the stream. */
  lemma {:induction false} WritesThenDone(calls: seq<seq<Op>>, rest: string)
    requires Executed(calls).0 && Sized(Executed(calls).1)
    requires var ops := Executed(calls).1;
             && (forall i | 0 <= i < |ops| :: ops[i].Write? ==> ops[i].data != "")
             && (forall i | 0 <= i < |ops| - 1 :: ops[i].Write?)
    ensures var ops := Executed(calls).1;
            ReadChunks(EmitAll(ops) + rest) == Reading(true, Payload(ops), rest)
  {
    var ops := Executed(calls).1;
    RunEndsUnavailable(calls);
    FinishedAt(ops);
    WhatTheReaderSees(ops, rest);
    assert ops[..|ops|] == ops && ops[|ops|..] == [];
    assert "" + rest == rest && Payload(ops) + "" == Payload(ops);
  }
}
