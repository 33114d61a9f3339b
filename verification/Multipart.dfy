/** The multipart/form-data parser of httplib: a five-state machine over a sliding
    buffer, and the serializer it undoes. */
module Multipart {
  import opened Text

  const HEADER_MAX_LENGTH := 8192
  const CRLF := "\r\n"
  const DASH := "--"
  const DASH_CRLF := "--\r\n"

  /** One form field: what the serializer prints and what the callbacks rebuild. */
  datatype FormItem = FormItem(name: string, filename: string, contentType: string, content: string)

  /** A call of the header callback (its argument has no content yet) or of the content callback. */
  datatype Event = Header(file: FormItem) | Content(data: string)

  /** The callbacks: they accept every call, or refuse the one after the first `calls`. */
  datatype Patience = Always | RefuseAfter(calls: nat)

  const NO_FILE := FormItem("", "", "", "")

  // ----- header lines -----

  function ToLower(c: char): char {
    if 'A' <= c <= 'Z' then (c as int + 32) as char else c
  }

  predicate PrefixIgnoringCase(a: string, b: string) {
    |b| <= |a| && forall i | 0 <= i < |b| :: ToLower(a[i]) == ToLower(b[i])
  }

  function SkipNonSpaces(s: string): (r: string)
    ensures |r| <= |s|
  {
    if s != [] && !IsSpace(s[0]) then SkipNonSpaces(s[1..]) else s
  }

  /** `(?:;\s*filename\*=\S+)?\s*$` */
  predicate MatchesEnd(t: string) {
    || SkipSpaces(t) == []
    || (&& t != [] && t[0] == ';'
        && var u := SkipSpaces(t[1..]);
           && PrefixIgnoringCase(u, "filename*=")
           && var v := u[10..];
              |SkipNonSpaces(v)| < |v| && SkipSpaces(SkipNonSpaces(v)) == [])
  }

  /** `(.*?)"` and the end of the line: the shortest capture that lets the rest match. */
  function MatchFilename(t: string, k: nat): Option<string>
    requires k <= |t|
    decreases |t| - k
  {
    if k == |t| || t[k] == '\n' || t[k] == '\r' then None
    else if t[k] == '"' && MatchesEnd(t[k + 1..]) then Some(t[..k])
    else MatchFilename(t, k + 1)
  }

  /** What follows the name: `(?:;\s*filename="(.*?)")?` and the end of the line. */
  function MatchAfterName(t: string): Option<string> {
    var quoted :=
      if t != [] && t[0] == ';' then
        var u := SkipSpaces(t[1..]);
        if PrefixIgnoringCase(u, "filename=\"") then MatchFilename(u[10..], 0) else None
      else None;
    if quoted.Some? then quoted else if MatchesEnd(t) then Some("") else None
  }

  function MatchName(t: string, k: nat): Option<(string, string)>
    requires k <= |t|
    decreases |t| - k
  {
    if k == |t| || t[k] == '\n' || t[k] == '\r' then None
    else if t[k] == '"' && MatchAfterName(t[k + 1..]).Some? then
      Some((t[..k], MatchAfterName(t[k + 1..]).value))
    else MatchName(t, k + 1)
  }

  /** The Content-Disposition regular expression as an explicit match: (name, filename). */
  function MatchDisposition(h: string): Option<(string, string)> {
    if !PrefixIgnoringCase(h, "content-disposition:") then None else
    var r := SkipSpaces(h[20..]);
    if !PrefixIgnoringCase(r, "form-data;") then None else
    var u := SkipSpaces(r[10..]);
    if !PrefixIgnoringCase(u, "name=\"") then None else MatchName(u[6..], 0)
  }

  function ReadHeaderLine(file: FormItem, line: string): FormItem {
    if PrefixIgnoringCase(line, "content-type:") then
      file.(contentType := TrimCopy(line[13..]))
    else
      match MatchDisposition(line)
      case Some((name, filename)) => file.(name := name, filename := filename)
      case None => file
  }

  // ----- the machine -----

  /** `events` are the callback calls that were accepted, in order. */
  datatype Machine = Machine(state: nat, valid: bool, file: FormItem, buf: string, events: seq<Event>)

  datatype Outcome = Continue | Return(ok: bool)

  const START := Machine(0, false, NO_FILE, "", [])

  function Delimiter(boundary: string): string { CRLF + DASH + boundary }

  function FirstLine(boundary: string): string { DASH + boundary + CRLF }

  predicate Accepts(p: Patience, m: Machine) { p.Always? || |m.events| < p.calls }

  function Emit(m: Machine, e: Event): Machine { m.(events := m.events + [e]) }

  function Erase(m: Machine, n: nat): (r: Machine)
    requires n <= |m.buf|
  {
    m.(buf := m.buf[n..])
  }

  /** The loop over complete header lines; it leaves state 2 at the empty line. */
  function ReadHeaders(p: Patience, m: Machine): (r: (Machine, Outcome))
    requires m.state == 2
    ensures r.1.Continue? ==> r.0.state == 3 && |r.0.buf| < |m.buf|
    decreases |m.buf|
  {
    var pos := Find(m.buf, CRLF);
    if pos >= |m.buf| then (m, Return(true))
    else if pos == 0 then
      if Accepts(p, m) then (Erase(Emit(m, Header(m.file)), 2).(state := 3), Continue)
      else (m.(valid := false), Return(false))
    else
      ReadHeaders(p, Erase(m.(file := ReadHeaderLine(m.file, m.buf[..pos])), pos + 2))
  }

  /** State 0: drop everything before the first boundary line. */
  function SeekFirstLine(line: string, m: Machine): (r: (Machine, Outcome))
    requires line != []
    ensures r.1.Continue? ==> |r.0.buf| < |m.buf|
  {
    var n := Erase(m, Find(m.buf, line));
    if |line| > |n.buf| then (n, Return(true))
    else if !(line <= n.buf) then (n, Return(false))
    else (Erase(n, |line|).(state := 1), Continue)
  }

  /** State 3: deliver the content before the delimiter `d`, or what cannot be part of one. */
  function ReadBody(d: string, p: Patience, m: Machine): (r: (Machine, Outcome))
    requires d != []
    ensures r.1.Continue? ==> |r.0.buf| < |m.buf|
  {
    if |d| > |m.buf| then (m, Return(true)) else
    var pos := Find(m.buf, d);
    if pos < |m.buf| then
      if Accepts(p, m) then (Erase(Emit(m, Content(m.buf[..pos])), pos + |d|).(state := 4), Continue)
      else (m.(valid := false), Return(false))
    else
      var len := |m.buf| - |d|;
      if len == 0 then (m, Return(true))
      else if Accepts(p, m) then (Erase(Emit(m, Content(m.buf[..len])), len), Return(true))
      else (m.(valid := false), Return(false))
  }

  /** State 4: the delimiter is followed by another item or by the end of the form. */
  function ReadAfterBoundary(m: Machine): (r: (Machine, Outcome))
    ensures r.1.Continue? ==> |r.0.buf| < |m.buf|
  {
    if 2 > |m.buf| then (m, Return(true))
    else if CRLF <= m.buf then (Erase(m, 2).(state := 1), Continue)
    else if 4 > |m.buf| then (m, Return(true))
    else if DASH_CRLF <= m.buf then (m.(valid := true, buf := ""), Continue)
    else (m, Return(true))
  }

  /** One turn of the parser's loop. */
  function Step(boundary: string, p: Patience, m: Machine): (r: (Machine, Outcome))
    requires m.buf != []
    ensures r.1.Continue? ==> |r.0.buf| < |m.buf| || (r.0.buf == m.buf && m.state == 1 && r.0.state == 2)
  {
    if m.state == 0 then SeekFirstLine(FirstLine(boundary), m)
    else if m.state == 1 then (m.(file := NO_FILE, state := 2), Continue)
    else if m.state == 2 then
      if Find(m.buf, CRLF) > HEADER_MAX_LENGTH then (m, Return(false)) else ReadHeaders(p, m)
    else if m.state == 3 then ReadBody(Delimiter(boundary), p, m)
    else ReadAfterBoundary(m)
  }

  /** The parser's loop: it ends because each turn shrinks the buffer, or turns state 1 into state 2. */
  function Run(boundary: string, p: Patience, m: Machine): (Machine, bool)
    decreases |m.buf|, if m.state == 1 then 1 else 0
  {
    if m.buf == [] then (m, true)
    else
      match Step(boundary, p, m)
      case (n, Continue) => Run(boundary, p, n)
      case (n, Return(ok)) => (n, ok)
  }

  /** One call of `parse`. */
  function Parse(boundary: string, p: Patience, m: Machine, chunk: string): (Machine, bool) {
    Run(boundary, p, m.(buf := m.buf + chunk))
  }

  /** The body arrives in chunks; reading stops at the first refusal. */
  function ParseAll(boundary: string, p: Patience, m: Machine, chunks: seq<string>): (Machine, bool)
    decreases |chunks|
  {
    if chunks == [] then (m, true)
    else
      var (n, ok) := Parse(boundary, p, m, chunks[0]);
      if ok then ParseAll(boundary, p, n, chunks[1..]) else (n, false)
  }

  // ----- what the callbacks build -----

  /** The header callback opens an item, the content callback appends to the last one. */
  function Deliver(items: seq<FormItem>, e: Event): seq<FormItem> {
    if e.Header? then items + [e.file]
    else if items == [] then []
    else
      var last := items[|items| - 1];
      items[..|items| - 1] + [last.(content := last.content + e.data)]
  }

  function Collect(events: seq<Event>): seq<FormItem> {
    if events == [] then [] else Deliver(Collect(events[..|events| - 1]), events[|events| - 1])
  }

  /** The bytes handed to the content callback. */
  function ContentOf(events: seq<Event>): string {
    if events == [] then ""
    else
      var e := events[|events| - 1];
      ContentOf(events[..|events| - 1]) + if e.Content? then e.data else ""
  }

  lemma {:induction false} CollectSnoc(events: seq<Event>, e: Event)
    ensures Collect(events + [e]) == Deliver(Collect(events), e)
  {
    assert (events + [e])[..|events|] == events;
  }

  lemma {:induction false} ContentOfSnoc(events: seq<Event>, data: string)
    ensures ContentOf(events + [Content(data)]) == ContentOf(events) + data
  {
    assert (events + [Content(data)])[..|events|] == events;
  }
}
