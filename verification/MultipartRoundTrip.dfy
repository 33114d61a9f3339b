/** Parsing what the serializer printed reports the items again, however the text is cut up. */
module MultipartRoundTrip {
  import opened Text
  import opened Multipart

  // ----- the serializer -----

  predicate BoundaryCharsValid(boundary: string) {
    forall c | c in boundary :: IsAlnum(c) || c == '-' || c == '_'
  }

  const DISPOSITION := "Content-Disposition: form-data; name=\""
  const FILENAME := "; filename=\""
  const CONTENT_TYPE := "Content-Type: "

  function DispositionLine(item: FormItem): string {
    DISPOSITION + item.name + "\"" +
    if item.filename == "" then "" else FILENAME + item.filename + "\""
  }

  function HeaderLines(item: FormItem): seq<string> {
    [DispositionLine(item)] + if item.contentType == "" then [] else [CONTENT_TYPE + item.contentType]
  }

  function HeaderText(lines: seq<string>): string {
    if lines == [] then "" else lines[0] + CRLF + HeaderText(lines[1..])
  }

  function Part(item: FormItem, boundary: string): string {
    DASH + boundary + CRLF + HeaderText(HeaderLines(item)) + CRLF + item.content + CRLF
  }

  function Serialize(items: seq<FormItem>, boundary: string): string {
    if items == [] then DASH + boundary + DASH_CRLF
    else Part(items[0], boundary) + Serialize(items[1..], boundary)
  }

  method SerializeMultipartFormdata(items: seq<FormItem>, boundary: string)
    returns (body: string, contentType: string)
    ensures body == Serialize(items, boundary)
    ensures contentType == "multipart/form-data; boundary=" + boundary
  {
    body := "";
    for i := 0 to |items|
      invariant body + Serialize(items[i..], boundary) == Serialize(items, boundary)
    {
      body := AppendItem(body, items[i], boundary);
      assert items[i..][1..] == items[i + 1..];
    }
    body := body + (DASH + boundary + DASH_CRLF);
    contentType := "multipart/form-data; boundary=" + boundary;
    assert items[|items|..] == [];
  }

  method AppendItem(prefix: string, item: FormItem, boundary: string) returns (body: string)
    ensures body == prefix + Part(item, boundary)
  {
    var part := DASH + boundary + CRLF;
    var line := DISPOSITION + item.name + "\"";
    if item.filename != "" {
      line := line + (FILENAME + item.filename + "\"");
    }
    part := part + (line + CRLF);
    if item.contentType != "" {
      part := part + (CONTENT_TYPE + item.contentType + CRLF);
    }
    HeaderTextShape(item);
    assert part == DASH + boundary + CRLF + HeaderText(HeaderLines(item));
    body := prefix + (part + CRLF + item.content + CRLF);
  }

  lemma {:induction false} HeaderTextShape(item: FormItem)
    ensures HeaderText(HeaderLines(item)) == DispositionLine(item) + CRLF +
              if item.contentType == "" then "" else CONTENT_TYPE + item.contentType + CRLF
  {
    var lines := HeaderLines(item);
    if item.contentType == "" {
      assert lines[1..] == [];
      assert HeaderText([]) == "";
    } else {
      assert lines[1..] == [CONTENT_TYPE + item.contentType];
      assert lines[1..][1..] == [];
      assert HeaderText(lines[1..]) == CONTENT_TYPE + item.contentType + CRLF + HeaderText([]);
    }
  }

  // ----- what the round trip asks of the items -----

  predicate PlainField(s: string) {
    forall c | c in s :: c != '\r' && c != '\n' && c != '"'
  }

  predicate Trimmed(s: string) {
    s != "" ==> !IsSpaceOrTab(s[0]) && !IsSpaceOrTab(s[|s| - 1])
  }

  ghost predicate Printable(item: FormItem, boundary: string) {
    && PlainField(item.name) && PlainField(item.filename)
    && (forall c | c in item.contentType :: c != '\r' && c != '\n')
    && Trimmed(item.contentType)
    && (forall line | line in HeaderLines(item) :: |line| < HEADER_MAX_LENGTH)
    && (forall j: nat :: !OccursAt(item.content, Delimiter(boundary), j))
  }

  // ----- the delimiter has no border -----

  /** CR occurs only at the start of `d`, so an occurrence of `d` cannot straddle `c` and `d`. */
  lemma {:induction false} FirstDelimiter(c: string, d: string, rest: string)
    requires d != [] && d[0] == '\r' && forall i | 0 < i < |d| :: d[i] != '\r'
    requires forall j: nat :: !OccursAt(c, d, j)
    ensures Find(c + d + rest, d) == |c|
  {
    var t := c + d + rest;
    forall j: nat | j < |c| ensures !OccursAt(t, d, j) {
      if j + |d| <= |c| {
        assert !OccursAt(c, d, j) && c[j..j + |d|] == t[j..j + |d|];
      } else {
        assert t[|c|] == d[0] && d[|c| - j] != '\r';
        assert j + |d| <= |t| ==> t[j..j + |d|][|c| - j] == t[|c|];
      }
    }
    assert t[|c|..|c| + |d|] == d;
    FindIs(t, d, |c|);
  }

  lemma {:induction false} DelimiterHasNoBorder(boundary: string)
    requires BoundaryCharsValid(boundary)
    ensures var d := Delimiter(boundary);
            |d| == |boundary| + 4 && d[0] == '\r' && forall i | 0 < i < |d| :: d[i] != '\r'
  {
    var d := Delimiter(boundary);
    forall i | 4 <= i < |d| ensures d[i] != '\r' {
      assert d[i] == boundary[i - 4] && boundary[i - 4] in boundary;
    }
  }

  lemma {:induction false} FirstCrlf(line: string, rest: string)
    requires '\r' !in line
    ensures Find(line + CRLF + rest, CRLF) == |line|
  {
    forall j: nat ensures !OccursAt(line, CRLF, j) {
      assert j + 2 <= |line| ==> line[j..j + 2][0] == line[j] && line[j] in line;
    }
    FirstDelimiter(line, CRLF, rest);
  }

  // ----- header lines are read back -----

  lemma {:induction false} MatchNameFinds(t: string, k: nat, n: nat)
    requires k <= n < |t| && t[n] == '"' && PlainField(t[..n]) && MatchAfterName(t[n + 1..]).Some?
    ensures MatchName(t, k) == Some((t[..n], MatchAfterName(t[n + 1..]).value))
    decreases n - k
  {
    if k < n {
      assert t[k] == t[..n][k] && t[k] in t[..n];
      MatchNameFinds(t, k + 1, n);
    }
  }

  lemma {:induction false} MatchFilenameFinds(t: string, k: nat, n: nat)
    requires k <= n < |t| && t[n] == '"' && PlainField(t[..n]) && t[n + 1..] == []
    ensures MatchFilename(t, k) == Some(t[..n])
    decreases n - k
  {
    if k < n {
      assert t[k] == t[..n][k] && t[k] in t[..n];
      MatchFilenameFinds(t, k + 1, n);
    }
  }

  lemma {:induction false} StripPrefix(p: string, b: string, x: string)
    requires |p| == |b| && PrefixIgnoringCase(p, b)
    ensures PrefixIgnoringCase(p + x, b) && (p + x)[|b|..] == x
  {
  }

  lemma {:induction false} SkipOneSpace(x: string)
    requires x != "" && !IsSpace(x[0])
    ensures SkipSpaces(" " + x) == x
  {
    assert (" " + x)[1..] == x;
  }

  lemma {:induction false} MatchAfterNameReads(filename: string)
    requires PlainField(filename)
    ensures MatchAfterName(if filename == "" then "" else FILENAME + filename + "\"") == Some(filename)
  {
    if filename != "" {
      var v := filename + "\"";
      var u := "filename=\"" + v;
      var t := FILENAME + filename + "\"";
      assert t == ";" + (" " + u);
      assert t[1..] == " " + u;
      SkipOneSpace(u);
      StripPrefix("filename=\"", "filename=\"", v);
      assert v[..|filename|] == filename && v[|filename| + 1..] == [];
      MatchFilenameFinds(v, 0, |filename|);
    }
  }

  lemma {:induction false} NameIsRead(item: FormItem)
    requires PlainField(item.name) && PlainField(item.filename)
    ensures var q := item.name + "\"" + if item.filename == "" then "" else FILENAME + item.filename + "\"";
            MatchName(q, 0) == Some((item.name, item.filename))
  {
    var tail := if item.filename == "" then "" else FILENAME + item.filename + "\"";
    var q := item.name + "\"" + tail;
    assert q[..|item.name|] == item.name && q[|item.name| + 1..] == tail;
    MatchAfterNameReads(item.filename);
    MatchNameFinds(q, 0, |item.name|);
  }

  lemma {:induction false} DispositionIsMatched(q: string)
    ensures MatchDisposition("Content-Disposition:" + (" " + ("form-data;" + (" " + ("name=\"" + q))))) ==
            MatchName(q, 0)
  {
    var u := "name=\"" + q;
    var r := "form-data;" + (" " + u);
    StripPrefix("Content-Disposition:", "content-disposition:", " " + r);
    SkipOneSpace(r);
    StripPrefix("form-data;", "form-data;", " " + u);
    SkipOneSpace(u);
    StripPrefix("name=\"", "name=\"", q);
  }

  lemma {:induction false} DispositionIsRead(item: FormItem)
    requires PlainField(item.name) && PlainField(item.filename)
    ensures ReadHeaderLine(NO_FILE, DispositionLine(item)) ==
            NO_FILE.(name := item.name, filename := item.filename)
  {
    var q := item.name + "\"" + if item.filename == "" then "" else FILENAME + item.filename + "\"";
    var h := DispositionLine(item);
    assert h == DISPOSITION + q;
    assert DISPOSITION == "Content-Disposition:" + (" " + ("form-data;" + (" " + "name=\"")));
    assert h == "Content-Disposition:" + (" " + ("form-data;" + (" " + ("name=\"" + q))));
    assert h[8] == 'D' && "content-type:"[8] == 't';
    DispositionIsMatched(q);
    NameIsRead(item);
  }

  lemma {:induction false} ContentTypeIsRead(file: FormItem, ct: string)
    requires ct != "" && Trimmed(ct)
    ensures ReadHeaderLine(file, CONTENT_TYPE + ct) == file.(contentType := ct)
  {
    assert CONTENT_TYPE + ct == "Content-Type:" + (" " + ct);
    StripPrefix("Content-Type:", "content-type:", " " + ct);
    assert (" " + ct)[1..] == ct;
    assert TrimLeft(" " + ct) == TrimLeft(ct) == ct;
    assert TrimCopy(" " + ct) == ct;
    assert (CONTENT_TYPE + ct)[13..] == " " + ct;
  }

  function ReadLines(file: FormItem, lines: seq<string>): FormItem
    decreases |lines|
  {
    if lines == [] then file else ReadLines(ReadHeaderLine(file, lines[0]), lines[1..])
  }

  lemma {:induction false} ReadTwoLines(file: FormItem, a: string, b: string)
    ensures ReadLines(file, [a]) == ReadHeaderLine(file, a)
    ensures ReadLines(file, [a] + [b]) == ReadHeaderLine(ReadHeaderLine(file, a), b)
  {
    assert ([a] + [b])[1..] == [b] && [b][1..] == [] && [a][1..] == [];
    assert ReadLines(ReadHeaderLine(file, a), [b]) == ReadLines(ReadHeaderLine(ReadHeaderLine(file, a), b), []);
  }

  lemma {:induction false} NoCarriageReturn(item: FormItem, boundary: string)
    requires Printable(item, boundary)
    ensures forall line | line in HeaderLines(item) :: '\r' !in line && line != ""
  {
    assert '\r' !in DISPOSITION && '\r' !in FILENAME && '\r' !in CONTENT_TYPE;
  }

  lemma {:induction false} HeadersAreRead(item: FormItem, boundary: string)
    requires Printable(item, boundary)
    ensures ReadLines(NO_FILE, HeaderLines(item)) == item.(content := "")
  {
    var a, b := DispositionLine(item), CONTENT_TYPE + item.contentType;
    DispositionIsRead(item);
    ReadTwoLines(NO_FILE, a, b);
    if item.contentType == "" {
      assert HeaderLines(item) == [a];
    } else {
      ContentTypeIsRead(NO_FILE.(name := item.name, filename := item.filename), item.contentType);
    }
  }

  // ----- where the parser stands in the printed text -----

  /** Ghost position: before item `k`; inside its headers with `lines` to go; inside its content
      with `sent` bytes delivered; right after the delimiter before item `k`; done. */
  datatype Place = AtPart(k: nat) | AtHeaders(k: nat, lines: seq<string>)
                 | InContent(k: nat, sent: nat) | AtBoundary(k: nat) | Finished

  function Body(items: seq<FormItem>, k: nat, b: string): string
    requires k < |items|
    decreases |items| - k, 1
  {
    HeaderText(HeaderLines(items[k])) + CRLF + (items[k].content + Delimiter(b) + AfterDelimiter(items, k + 1, b))
  }

  function AfterDelimiter(items: seq<FormItem>, k: nat, b: string): string
    requires k <= |items|
    decreases |items| - k, 2
  {
    if k == |items| then DASH_CRLF else CRLF + Body(items, k, b)
  }

  /** In the headers of `item`: `lines` are still to come, `before` has been reported. */
  ghost predicate OnHeaders(item: FormItem, d: string, after: string, m: Machine, future: string,
                            lines: seq<string>, before: seq<FormItem>) {
    && m.state == 2 && !m.valid
    && ReadableLines(lines) && ReadLines(m.file, lines) == item.(content := "")
    && m.buf + future == HeaderText(lines) + CRLF + (item.content + d + after)
    && Collect(m.events) == before
  }

  /** In the content of `item`, of which `sent` bytes have been delivered. */
  ghost predicate OnContent(item: FormItem, d: string, after: string, m: Machine, future: string,
                            sent: nat, before: seq<FormItem>) {
    && sent <= |item.content|
    && m.state == 3 && !m.valid
    && m.buf + future == item.content[sent..] + d + after
    && Collect(m.events) == before + [item.(content := item.content[..sent])]
  }

  ghost predicate OnBoundary(text: string, m: Machine, future: string, before: seq<FormItem>) {
    m.state == 4 && !m.valid && m.buf + future == text && Collect(m.events) == before
  }

  /** `texts[k]` is the text after the delimiter before item `k`, and `d` the delimiter. */
  ghost predicate Layout(items: seq<FormItem>, b: string, d: string, texts: seq<string>) {
    && d == Delimiter(b) && |texts| == |items| + 1
    && forall k: nat {:trigger AfterDelimiter(items, k, b)} | k <= |items| :: texts[k] == AfterDelimiter(items, k, b)
  }

  /** The machine stands at `g`: its buffer, followed by the bytes yet to arrive, is the text
      remaining from there, and the callbacks have built exactly what lies before. */
  ghost predicate OnTrack(items: seq<FormItem>, d: string, texts: seq<string>, m: Machine, future: string, g: Place)
    requires |texts| == |items| + 1
  {
    match g
    case AtPart(k) =>
      && k < |items| && m.state == 1 && !m.valid
      && CRLF + (m.buf + future) == texts[k] && Collect(m.events) == items[..k]
    case AtHeaders(k, lines) =>
      k < |items| && OnHeaders(items[k], d, texts[k + 1], m, future, lines, items[..k])
    case InContent(k, sent) =>
      k < |items| && OnContent(items[k], d, texts[k + 1], m, future, sent, items[..k])
    case AtBoundary(k) =>
      k <= |items| && OnBoundary(texts[k], m, future, items[..k])
    case Finished =>
      m.state == 4 && m.valid && m.buf == "" && future == "" && Collect(m.events) == items
  }

  ghost predicate AllPrintable(items: seq<FormItem>, b: string) {
    BoundaryCharsValid(b) && forall i | 0 <= i < |items| :: Printable(items[i], b)
  }

  /** A search in the buffer agrees with a search in the buffer followed by the bytes yet to arrive. */
  lemma {:induction false} FindAhead(buf: string, future: string, c: string, d: string, rest: string)
    requires d != [] && buf + future == c + d + rest && Find(c + d + rest, d) == |c|
    ensures |c| + |d| <= |buf| ==> Find(buf, d) == |c| && buf[..|c|] == c && buf[|c| + |d|..] + future == rest
    ensures |c| + |d| > |buf| ==> Find(buf, d) == |buf| && future != ""
  {
    FindInPrefix(buf, future, d);
    var t := c + d + rest;
    assert |c| + |d| <= |buf| ==> buf[..|c|] == t[..|c|] == c;
    assert |c| + |d| <= |buf| ==> buf[|c| + |d|..] + future == t[|c| + |d|..] == rest;
  }

  ghost predicate ReadableLines(lines: seq<string>) {
    forall line | line in lines :: '\r' !in line && 0 < |line| < HEADER_MAX_LENGTH
  }

  function NextLine(lines: seq<string>): string { if lines == [] then "" else lines[0] }

  function AfterNextLine(lines: seq<string>, content: string): string {
    if lines == [] then content else HeaderText(lines[1..]) + CRLF + content
  }

  /** The next CRLF ends the next header line, or is the empty line itself. */
  lemma {:induction false} NextCrlf(buf: string, future: string, lines: seq<string>, content: string)
    requires ReadableLines(lines) && buf + future == HeaderText(lines) + CRLF + content
    ensures var line := NextLine(lines);
            if |line| + 2 <= |buf| then
              Find(buf, CRLF) == |line| && buf[..|line|] == line &&
                  buf[|line| + 2..] + future == AfterNextLine(lines, content)
            else
              Find(buf, CRLF) == |buf| && future != ""
  {
    var line, rest := NextLine(lines), AfterNextLine(lines, content);
    assert HeaderText(lines) + CRLF + content == line + CRLF + rest;
    FirstCrlf(line, rest);
    FindAhead(buf, future, line, CRLF, rest);
  }

  /** The header loop ended with machine `n`: at the content, or waiting with the lines `left` to go. */
  ghost predicate LoopOutcome(m: Machine, future: string, file: FormItem, content: string, left: seq<string>,
                              n: Machine, o: Outcome) {
    if o == Continue then
      n == Machine(3, m.valid, file, n.buf, m.events + [Header(file)]) && n.buf + future == content
    else
      && o == Return(true) && future != "" && ReadableLines(left)
      && n == m.(file := n.file, buf := n.buf) && n.buf + future == HeaderText(left) + CRLF + content
      && ReadLines(n.file, left) == file
  }

  /** The header loop reads every complete line; it either reaches the content or waits for bytes. */
  lemma {:induction false} HeaderLoop(m: Machine, future: string, lines: seq<string>,
                                      content: string) returns (left: seq<string>)
    requires m.state == 2 && ReadableLines(lines) && m.buf + future == HeaderText(lines) + CRLF + content
    ensures LoopOutcome(m, future, ReadLines(m.file, lines), content, left, ReadHeaders(Always, m).0,
            ReadHeaders(Always, m).1)
    decreases |lines|
  {
    NextCrlf(m.buf, future, lines, content);
    left := lines;
    var line := NextLine(lines);
    if |line| + 2 > |m.buf| {
      assert ReadHeaders(Always, m) == (m, Return(true));
    } else if lines == [] {
      assert ReadHeaders(Always, m) == (Erase(Emit(m, Header(m.file)), 2).(state := 3), Continue);
    } else {
      var n := Erase(m.(file := ReadHeaderLine(m.file, line)), |line| + 2);
      assert ReadHeaders(Always, m) == ReadHeaders(Always, n);
      assert ReadLines(m.file, lines) == ReadLines(n.file, lines[1..]);
      left := HeaderLoop(n, future, lines[1..], content);
    }
  }

  ghost predicate HeadersOutcome(item: FormItem, d: string, after: string, future: string, left: seq<string>,
                                 before: seq<FormItem>, n: Machine, o: Outcome) {
    || (o == Continue && OnContent(item, d, after, n, future, 0, before))
    || (o == Return(true) && future != "" && OnHeaders(item, d, after, n, future, left, before))
  }

  /** In state 2 the header limit is never hit, because no line reaches it. */
  lemma {:induction false} HeadersTurn(item: FormItem, d: string, after: string, m: Machine, future: string,
                    lines: seq<string>, before: seq<FormItem>) returns (left: seq<string>)
    requires OnHeaders(item, d, after, m, future, lines, before)
    ensures Find(m.buf, CRLF) <= HEADER_MAX_LENGTH
    ensures HeadersOutcome(item, d, after, future, left, before, ReadHeaders(Always, m).0, ReadHeaders(Always, m).1)
  {
    var content := item.content + d + after;
    NextCrlf(m.buf, future, lines, content);
    left := HeaderLoop(m, future, lines, content);
    CollectSnoc(m.events, Header(item.(content := "")));
    assert item.content[0..] == item.content && item.content[..0] == "";
  }

  /** What one turn in state 3 does when the content still to come is `c`: it delivers `c` up to the
      delimiter, or all that cannot be part of the delimiter. */
  ghost predicate BodyOutcome(d: string, m: Machine, future: string, c: string, after: string, n: Machine, o: Outcome) {
    if |c| + |d| <= |m.buf| then
      o == Continue && n == m.(state := 4, buf := n.buf, events := m.events + [Content(c)]) && n.buf + future == after
    else
      && o == Return(true) && future != ""
      && var len := if |m.buf| <= |d| then 0 else |m.buf| - |d|;
      && len <= |c| && n.buf + future == c[len..] + d + after
      && n == m.(buf := n.buf, events := if len == 0 then m.events else m.events + [Content(c[..len])])
  }

  lemma {:induction false} CutContent(buf: string, future: string, c: string, tail: string, len: nat)
    requires buf + future == c + tail && len <= |buf| && len <= |c|
    ensures buf[..len] == c[..len] && buf[len..] + future == c[len..] + tail
  {
    var t := buf + future;
    assert buf[..len] == t[..len] == c[..len];
    assert buf[len..] + future == t[len..] == c[len..] + tail;
  }

  lemma {:induction false} BodyTurn(d: string, m: Machine, future: string, c: string, after: string)
    requires m.state == 3 && m.buf != [] && d != []
    requires m.buf + future == c + d + after && Find(c + d + after, d) == |c|
    ensures BodyOutcome(d, m, future, c, after, ReadBody(d, Always, m).0, ReadBody(d, Always, m).1)
  {
    FindAhead(m.buf, future, c, d, after);
    assert c[0..] == c;
    if |d| < |m.buf| < |c| + |d| {
      var len := |m.buf| - |d|;
      Assoc(c, d, after);
      CutContent(m.buf, future, c, d + after, len);
      Assoc(c[len..], d, after);
    }
  }

  lemma {:induction false} NoLaterOccurrence(whole: string, d: string, from: nat)
    requires from <= |whole| && forall j: nat :: !OccursAt(whole, d, j)
    ensures forall j: nat :: !OccursAt(whole[from..], d, j)
  {
    forall j: nat ensures !OccursAt(whole[from..], d, j) {
      assert !OccursAt(whole, d, from + j);
      assert j + |d| <= |whole| - from ==> whole[from..][j..j + |d|] == whole[from + j..from + j + |d|];
    }
  }

  lemma {:induction false} DeliverContent(item: FormItem, events: seq<Event>, sent: nat, len: nat,
                                          before: seq<FormItem>)
    requires sent + len <= |item.content|
    requires Collect(events) == before + [item.(content := item.content[..sent])]
    ensures Collect(events + [Content(item.content[sent..][..len])]) ==
            before + [item.(content := item.content[..sent + len])]
  {
    CollectSnoc(events, Content(item.content[sent..][..len]));
    assert item.content[..sent] + item.content[sent..][..len] == item.content[..sent + len];
  }

  lemma {:induction false} DelimiterAhead(whole: string, sent: nat, d: string, after: string)
    requires sent <= |whole|
    requires d != [] && d[0] == '\r' && forall i | 0 < i < |d| :: d[i] != '\r'
    requires forall j: nat :: !OccursAt(whole, d, j)
    ensures Find(whole[sent..] + d + after, d) == |whole| - sent
  {
    NoLaterOccurrence(whole, d, sent);
    FirstDelimiter(whole[sent..], d, after);
  }

  lemma {:induction false} ContentEnds(item: FormItem, events: seq<Event>, sent: nat, before: seq<FormItem>)
    requires sent <= |item.content|
    requires Collect(events) == before + [item.(content := item.content[..sent])]
    ensures Collect(events + [Content(item.content[sent..])]) == before + [item]
  {
    var c := item.content[sent..];
    assert c[..|c|] == c;
    DeliverContent(item, events, sent, |c|, before);
    assert item.(content := item.content[..sent + |c|]) == item;
  }

  lemma {:induction false} ContentGoesOn(item: FormItem, events: seq<Event>, sent: nat, len: nat,
                                         before: seq<FormItem>)
    requires sent + len <= |item.content|
    requires Collect(events) == before + [item.(content := item.content[..sent])]
    ensures item.content[sent + len..] == item.content[sent..][len..]
    ensures var more := if len == 0 then events else events + [Content(item.content[sent..][..len])];
            Collect(more) == before + [item.(content := item.content[..sent + len])]
  {
    DeliverContent(item, events, sent, len, before);
  }

  lemma {:induction false} ContentTurn(item: FormItem, d: string, after: string, m: Machine, future: string,
                    sent: nat, before: seq<FormItem>, n: Machine, o: Outcome) returns (sent': nat)
    requires OnContent(item, d, after, m, future, sent, before)
    requires BodyOutcome(d, m, future, item.content[sent..], after, n, o)
    ensures || (o == Continue && OnBoundary(after, n, future, before + [item]))
            || (o == Return(true) && future != "" && OnContent(item, d, after, n, future, sent', before))
  {
    if o == Continue {
      sent' := sent;
      ContentEnds(item, m.events, sent, before);
    } else {
      var len := if |m.buf| <= |d| then 0 else |m.buf| - |d|;
      sent' := sent + len;
      ContentGoesOn(item, m.events, sent, len, before);
    }
  }

  lemma {:induction false} BoundaryTurn(text: string, m: Machine, future: string, before: seq<FormItem>)
    requires m.buf != [] && OnBoundary(text, m, future, before)
    requires CRLF <= text || text == DASH_CRLF
    ensures var (n, o) := ReadAfterBoundary(m);
            || (o == Return(true) && future != "" && n == m)
            || (o == Continue && CRLF <= text && n == m.(state := 1, buf := n.buf) && n.buf + future == text[2..])
            || (o == Continue && text == DASH_CRLF && n == m.(valid := true, buf := "") && future == "")
  {
    var t := m.buf + future;
    assert |m.buf| >= 2 ==> m.buf[..2] == t[..2] && m.buf[2..] + future == t[2..];
    if CRLF <= text {
      assert |m.buf| >= 2 ==> CRLF <= m.buf;
    } else {
      assert m.buf[0] == t[0] == '-';
    }
  }

  ghost predicate TurnKeeps(items: seq<FormItem>, d: string, texts: seq<string>, future: string, g': Place,
                            n: Machine, o: Outcome)
    requires |texts| == |items| + 1
  {
    && OnTrack(items, d, texts, n, future, g')
    && (o == Continue || (o == Return(true) && future != ""))
  }

  lemma {:induction false} TurnAtPart(items: seq<FormItem>, b: string, d: string, texts: seq<string>, m: Machine,
                                      future: string, k: nat)
    returns (g': Place)
    requires AllPrintable(items, b) && Layout(items, b, d, texts)
    requires m.buf != [] && OnTrack(items, d, texts, m, future, AtPart(k))
    ensures TurnKeeps(items, d, texts, future, g', Step(b, Always, m).0, Step(b, Always, m).1)
  {
    HeadersAreRead(items[k], b);
    NoCarriageReturn(items[k], b);
    assert texts[k] == AfterDelimiter(items, k, b) && texts[k + 1] == AfterDelimiter(items, k + 1, b);
    assert texts[k][2..] == Body(items, k, b) && texts[k][2..] == m.buf + future;
    g' := AtHeaders(k, HeaderLines(items[k]));
  }

  lemma {:induction false} LeaveHeaders(items: seq<FormItem>, d: string, texts: seq<string>, future: string,
                     k: nat, left: seq<string>, n: Machine, o: Outcome) returns (g': Place)
    requires |texts| == |items| + 1 && k < |items|
    requires HeadersOutcome(items[k], d, texts[k + 1], future, left, items[..k], n, o)
    ensures TurnKeeps(items, d, texts, future, g', n, o)
  {
    if o == Continue {
      g' := InContent(k, 0);
    } else {
      g' := AtHeaders(k, left);
    }
  }

  lemma {:induction false} TurnAtHeaders(items: seq<FormItem>, d: string, texts: seq<string>, m: Machine,
                                         future: string,
                      b: string, k: nat, lines: seq<string>) returns (g': Place)
    requires |texts| == |items| + 1 && m.buf != [] && OnTrack(items, d, texts, m, future, AtHeaders(k, lines))
    ensures TurnKeeps(items, d, texts, future, g', Step(b, Always, m).0, Step(b, Always, m).1)
  {
    var left := HeadersTurn(items[k], d, texts[k + 1], m, future, lines, items[..k]);
    g' := LeaveHeaders(items, d, texts, future, k, left, ReadHeaders(Always, m).0, ReadHeaders(Always, m).1);
  }

  lemma {:induction false} LeaveContent(items: seq<FormItem>, d: string, texts: seq<string>, m: Machine, future: string,
                     k: nat, sent: nat, n: Machine, o: Outcome) returns (g': Place)
    requires |texts| == |items| + 1 && OnTrack(items, d, texts, m, future, InContent(k, sent))
    requires BodyOutcome(d, m, future, items[k].content[sent..], texts[k + 1], n, o)
    ensures TurnKeeps(items, d, texts, future, g', n, o)
  {
    var sent' := ContentTurn(items[k], d, texts[k + 1], m, future, sent, items[..k], n, o);
    if o == Continue {
      g' := AtBoundary(k + 1);
      assert items[..k] + [items[k]] == items[..k + 1];
    } else {
      g' := InContent(k, sent');
    }
  }

  lemma {:induction false} TurnInContent(items: seq<FormItem>, b: string, d: string, texts: seq<string>, m: Machine,
                                         future: string,
                      k: nat, sent: nat) returns (g': Place)
    requires AllPrintable(items, b) && |texts| == |items| + 1 && d == Delimiter(b)
    requires m.buf != [] && OnTrack(items, d, texts, m, future, InContent(k, sent))
    ensures TurnKeeps(items, d, texts, future, g', Step(b, Always, m).0, Step(b, Always, m).1)
  {
    DelimiterHasNoBorder(b);
    DelimiterAhead(items[k].content, sent, d, texts[k + 1]);
    BodyTurn(d, m, future, items[k].content[sent..], texts[k + 1]);
    g' := LeaveContent(items, d, texts, m, future, k, sent, ReadBody(d, Always, m).0, ReadBody(d, Always, m).1);
  }

  lemma {:induction false} TurnAtBoundary(items: seq<FormItem>, b: string, d: string, texts: seq<string>, m: Machine,
                                          future: string, k: nat)
    returns (g': Place)
    requires Layout(items, b, d, texts)
    requires m.buf != [] && OnTrack(items, d, texts, m, future, AtBoundary(k))
    ensures TurnKeeps(items, d, texts, future, g', Step(b, Always, m).0, Step(b, Always, m).1)
  {
    assert texts[k] == AfterDelimiter(items, k, b);
    assert k < |items| ==> CRLF <= texts[k] && texts[k][0] == '\r' && CRLF + texts[k][2..] == texts[k];
    BoundaryTurn(texts[k], m, future, items[..k]);
    var (n, o) := ReadAfterBoundary(m);
    if o != Continue {
      g' := AtBoundary(k);
    } else if k < |items| {
      g' := AtPart(k);
    } else {
      g' := Finished;
      assert texts[k][0] == '-' && items[..|items|] == items;
    }
  }

  /** One turn of the loop keeps the parser on track; it waits only for bytes yet to arrive. */
  lemma {:induction false} Turn(items: seq<FormItem>, b: string, d: string, texts: seq<string>, m: Machine,
                                future: string, g: Place)
    returns (g': Place)
    requires AllPrintable(items, b) && Layout(items, b, d, texts)
    requires m.buf != [] && OnTrack(items, d, texts, m, future, g)
    ensures TurnKeeps(items, d, texts, future, g', Step(b, Always, m).0, Step(b, Always, m).1)
  {
    if g.AtPart? {
      g' := TurnAtPart(items, b, d, texts, m, future, g.k);
    } else if g.AtHeaders? {
      g' := TurnAtHeaders(items, d, texts, m, future, b, g.k, g.lines);
    } else if g.InContent? {
      g' := TurnInContent(items, b, d, texts, m, future, g.k, g.sent);
    } else {
      assert g.AtBoundary?;
      g' := TurnAtBoundary(items, b, d, texts, m, future, g.k);
    }
  }

  lemma {:induction false} RunKeeps(items: seq<FormItem>, b: string, d: string, texts: seq<string>, m: Machine,
                                    future: string, g: Place) returns (g': Place)
    requires AllPrintable(items, b) && Layout(items, b, d, texts) && OnTrack(items, d, texts, m, future, g)
    ensures var (n, ok) := Run(b, Always, m);
            ok && OnTrack(items, d, texts, n, future, g') && (future == "" ==> n.buf == "")
    decreases |m.buf|, if m.state == 1 then 1 else 0
  {
    if m.buf == [] {
      g' := g;
    } else {
      g' := Turn(items, b, d, texts, m, future, g);
      var (n, o) := Step(b, Always, m);
      if o == Continue {
        g' := RunKeeps(items, b, d, texts, n, future, g');
      }
    }
  }

  /** Nothing is left over only at the very end. */
  lemma {:induction false} SomethingRemains(items: seq<FormItem>, b: string, d: string, texts: seq<string>,
                                            m: Machine, g: Place)
    requires Layout(items, b, d, texts) && OnTrack(items, d, texts, m, "", g) && m.buf == ""
    ensures g == Finished
  {
    assert m.buf + "" == "";
    assert g.AtPart? || g.AtBoundary? ==> |AfterDelimiter(items, g.k, b)| >= 4;
  }

  lemma {:induction false} Arrive(items: seq<FormItem>, d: string, texts: seq<string>, m: Machine, chunk: string,
                                  future: string, g: Place)
    requires |texts| == |items| + 1 && OnTrack(items, d, texts, m, chunk + future, g) && g != Finished
    ensures OnTrack(items, d, texts, m.(buf := m.buf + chunk), future, g)
  {
    assert m.buf + (chunk + future) == (m.buf + chunk) + future;
  }

  ghost predicate Delivered(items: seq<FormItem>, r: (Machine, bool)) {
    r.1 && r.0.valid && r.0.buf == "" && Collect(r.0.events) == items
  }

  lemma {:induction false} ChunksKeep(items: seq<FormItem>, b: string, d: string, texts: seq<string>, m: Machine,
                                      chunks: seq<string>, g: Place)
    requires AllPrintable(items, b) && Layout(items, b, d, texts)
    requires OnTrack(items, d, texts, m, Concat(chunks), g) && (chunks == [] ==> m.buf == "")
    ensures Delivered(items, ParseAll(b, Always, m, chunks))
    decreases |chunks|
  {
    if chunks == [] {
      SomethingRemains(items, b, d, texts, m, g);
    } else {
      var future := Concat(chunks[1..]);
      if g == Finished {
        assert chunks[0] + future == "" && m.buf + chunks[0] == "" && m.(buf := "") == m;
        ChunksKeep(items, b, d, texts, m, chunks[1..], g);
      } else {
        Arrive(items, d, texts, m, chunks[0], future, g);
        var m' := m.(buf := m.buf + chunks[0]);
        var g' := RunKeeps(items, b, d, texts, m', future, g);
        assert chunks[1..] == [] ==> future == "";
        ChunksKeep(items, b, d, texts, Run(b, Always, m').0, chunks[1..], g');
      }
    }
  }

  // ----- the round trip -----

  lemma {:induction false} SerializeShape(items: seq<FormItem>, k: nat, b: string)
    requires k <= |items|
    ensures Serialize(items[k..], b) == DASH + b + AfterDelimiter(items, k, b)
    decreases |items| - k
  {
    if k < |items| {
      SerializeShape(items, k + 1, b);
      assert items[k..][1..] == items[k + 1..] && items[k..][0] == items[k];
      Regroup(HeaderText(HeaderLines(items[k])), items[k].content, b, AfterDelimiter(items, k + 1, b));
    }
  }

  lemma {:induction false} Regroup(headers: string, content: string, b: string, after: string)
    ensures DASH + b + CRLF + headers + CRLF + content + CRLF + (DASH + b + after) ==
            DASH + b + (CRLF + (headers + CRLF + (content + Delimiter(b) + after)))
  {
    assert CRLF + (DASH + b + after) == Delimiter(b) + after;
    assert content + CRLF + (DASH + b + after) == content + Delimiter(b) + after;
  }

  /** The first chunk holds the whole first boundary line: the parser enters the first item. */
  lemma {:induction false} FirstTurn(b: string, chunk: string, rest: string)
    requires FirstLine(b) <= chunk
    ensures Step(b, Always, START.(buf := chunk)) == (START.(state := 1, buf := chunk[|FirstLine(b)|..]), Continue)
  {
    var line := FirstLine(b);
    assert OccursAt(chunk, line, 0);
    FindIs(chunk, line, 0);
    assert chunk[0..] == chunk;
  }

  lemma {:induction false} SplitFirst(line: string, body: string, chunk: string, rest: string)
    requires chunk + rest == line + body && |chunk| >= |line|
    ensures line <= chunk && chunk[|line|..] + rest == body
  {
    var whole := chunk + rest;
    assert line == whole[..|line|] == chunk[..|line|];
    assert chunk[|line|..] + rest == whole[|line|..] == body;
  }

  lemma {:induction false} EnterFirstItem(items: seq<FormItem>, b: string, texts: seq<string>, chunk: string,
                                          rest: string)
    requires items != [] && Layout(items, b, Delimiter(b), texts)
    requires chunk + rest == DASH + b + AfterDelimiter(items, 0, b) && |chunk| >= |FirstLine(b)|
    ensures FirstLine(b) <= chunk
    ensures OnTrack(items, Delimiter(b), texts, START.(state := 1, buf := chunk[|FirstLine(b)|..]), rest, AtPart(0))
  {
    Assoc(DASH + b, CRLF, Body(items, 0, b));
    SplitFirst(FirstLine(b), Body(items, 0, b), chunk, rest);
    assert texts[0] == AfterDelimiter(items, 0, b);
  }

  /** Every printed form is read back, item by item and in order, for every way of cutting the text
      into chunks whose first one holds the first boundary line. */
  lemma {:induction false} RoundTrip(items: seq<FormItem>, b: string, chunks: seq<string>)
    requires items != [] && AllPrintable(items, b)
    requires Concat(chunks) == Serialize(items, b)
    requires chunks != [] && |chunks[0]| >= |FirstLine(b)|
    ensures Delivered(items, ParseAll(b, Always, START, chunks))
  {
    var texts := seq(|items| + 1, k requires 0 <= k <= |items| => AfterDelimiter(items, k, b));
    var rest := Concat(chunks[1..]);
    SerializeShape(items, 0, b);
    assert items[0..] == items;
    EnterFirstItem(items, b, texts, chunks[0], rest);
    FirstTurn(b, chunks[0], rest);
    FromFirstItem(items, b, texts, chunks);
  }

  lemma {:induction false} FromFirstItem(items: seq<FormItem>, b: string, texts: seq<string>, chunks: seq<string>)
    requires AllPrintable(items, b) && Layout(items, b, Delimiter(b), texts) && chunks != []
    requires |FirstLine(b)| <= |chunks[0]|
    requires var m := START.(state := 1, buf := chunks[0][|FirstLine(b)|..]);
             && Step(b, Always, START.(buf := chunks[0])) == (m, Continue)
             && OnTrack(items, Delimiter(b), texts, m, Concat(chunks[1..]), AtPart(0))
    ensures Delivered(items, ParseAll(b, Always, START, chunks))
  {
    var m := START.(state := 1, buf := chunks[0][|FirstLine(b)|..]);
    assert START.buf + chunks[0] == chunks[0];
    var g := RunKeeps(items, b, Delimiter(b), texts, m, Concat(chunks[1..]), AtPart(0));
    assert Parse(b, Always, START, chunks[0]) == Run(b, Always, m);
    assert chunks[1..] == [] ==> Concat(chunks[1..]) == "";
    ChunksKeep(items, b, Delimiter(b), texts, Run(b, Always, m).0, chunks[1..], g);
  }

  /** The first chunk must hold the first boundary line: a shorter one is thrown away. */
  lemma {:induction false} ShortFirstChunkIsDropped(b: string, p: Patience, chunk: string, chunks: seq<string>)
    requires |chunk| < |FirstLine(b)|
    ensures ParseAll(b, p, START, [chunk] + chunks) == ParseAll(b, p, START, chunks)
  {
    var line := FirstLine(b);
    assert "" + chunk == chunk && ([chunk] + chunks)[1..] == chunks;
    FindIsFirst(chunk, line);
    assert Parse(b, p, START, chunk) == (START, true) by {
      if chunk != "" {
        assert Find(chunk, line) == |chunk|;
        assert SeekFirstLine(line, START.(buf := chunk)) == (START, Return(true));
      }
    }
  }
}
