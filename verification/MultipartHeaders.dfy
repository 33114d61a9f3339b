/** The headers of a part, whoever wrote them: their order and number, the case of their names, blanks and the extended
    filename, and the limit on their length. */
module MultipartHeaders {
  import opened Text
  import opened Multipart
  import opened MultipartRoundTrip

  // ----- names in any case -----

  /** `s` is `lower`, where each letter may also be the capital letter at its place in `upper`. */
  predicate InAnyCase(s: string, lower: string, upper: string)
    requires |lower| == |upper|
  {
    |s| == |lower| && forall i | 0 <= i < |s| :: s[i] == lower[i] || s[i] == upper[i]
  }

  predicate IsTypeField(s: string) { InAnyCase(s, "content-type:", "CONTENT-TYPE:") }

  predicate IsTypeLine(line: string) { |line| >= 13 && IsTypeField(line[..13]) }

  predicate IsDispositionField(s: string) { InAnyCase(s, "content-disposition:", "CONTENT-DISPOSITION:") }

  predicate IsFormData(s: string) { InAnyCase(s, "form-data;", "FORM-DATA;") }

  predicate IsNameField(s: string) { InAnyCase(s, "name=\"", "NAME=\"") }

  predicate IsFilenameField(s: string) { InAnyCase(s, "filename=\"", "FILENAME=\"") }

  predicate IsExtendedField(s: string) { InAnyCase(s, "filename*=", "FILENAME*=") }

  /** Nothing but a capital letter has the lower case of a small one. */
  lemma {:induction false} LowerCaseIs(c: char, l: char)
    ensures ToLower(c) == ToLower(l) <==>
            c == l || ('A' <= c <= 'Z' && l as int == c as int + 32) || ('A' <= l <= 'Z' && c as int == l as int + 32)
  {
  }

  lemma {:induction false} TypeLineIs(line: string)
    ensures PrefixIgnoringCase(line, "content-type:") <==> IsTypeLine(line)
  {
    if |line| >= 13 {
      var s := line[..13];
      forall i | 0 <= i < 13
        ensures ToLower(line[i]) == ToLower("content-type:"[i]) <==>
                s[i] == "content-type:"[i] || s[i] == "CONTENT-TYPE:"[i]
      {
        assert s[i] == line[i];
      }
    }
  }

  // ----- header lines in any order -----

  predicate NoTypeAfter(lines: seq<string>, k: int) { forall j | 0 <= j < |lines| && k < j :: !IsTypeLine(lines[j]) }

  predicate NoDispositionAfter(lines: seq<string>, k: int) {
    forall j | 0 <= j < |lines| && k < j :: MatchDisposition(lines[j]) == None
  }

  predicate TypeAt(lines: seq<string>, k: nat, contentType: string) {
    k < |lines| && IsTypeLine(lines[k]) && contentType == TrimCopy(lines[k][13..]) && NoTypeAfter(lines, k)
  }

  predicate DispositionAt(lines: seq<string>, k: nat, name: string, filename: string) {
    k < |lines| && MatchDisposition(lines[k]) == Some((name, filename)) && NoDispositionAfter(lines, k)
  }

  /** The content type is that of the last content type line. */
  ghost predicate LastType(lines: seq<string>, contentType: string) {
    (contentType == "" && NoTypeAfter(lines, -1)) || exists k: nat :: TypeAt(lines, k, contentType)
  }

  /** Name and filename are those of the last line that the disposition expression matches. */
  ghost predicate LastDisposition(lines: seq<string>, name: string, filename: string) {
    || (name == "" && filename == "" && NoDispositionAfter(lines, -1))
    || exists k: nat :: DispositionAt(lines, k, name, filename)
  }

  lemma {:induction false} TypeIsNoDisposition(line: string)
    requires IsTypeLine(line)
    ensures MatchDisposition(line) == None
  {
    assert line[..13][8] == line[8];
    assert "content-disposition:"[8] == 'd';
  }

  lemma {:induction false} ReadLinesSnoc(file: FormItem, lines: seq<string>, last: string)
    ensures ReadLines(file, lines + [last]) == ReadHeaderLine(ReadLines(file, lines), last)
    decreases |lines|
  {
    if lines == [] {
      assert [] + [last] == [last] && [last][1..] == [];
      assert ReadLines(ReadHeaderLine(file, last), []) == ReadHeaderLine(file, last);
    } else {
      assert (lines + [last])[1..] == lines[1..] + [last];
      ReadLinesSnoc(ReadHeaderLine(file, lines[0]), lines[1..], last);
    }
  }

  lemma {:induction false} LastTypeSnoc(lines: seq<string>, last: string, contentType: string)
    requires LastType(lines, contentType)
    ensures LastType(lines + [last], if IsTypeLine(last) then TrimCopy(last[13..]) else contentType)
  {
    var more := lines + [last];
    assert more[|lines|] == last;
    if IsTypeLine(last) {
      assert TypeAt(more, |lines|, TrimCopy(last[13..]));
    } else if contentType == "" && NoTypeAfter(lines, -1) {
      assert NoTypeAfter(more, -1);
    } else {
      var k: nat :| TypeAt(lines, k, contentType);
      assert TypeAt(more, k, contentType);
    }
  }

  lemma {:induction false} LastDispositionSnoc(lines: seq<string>, last: string, name: string, filename: string)
    requires LastDisposition(lines, name, filename)
    ensures var r := MatchDisposition(last);
            LastDisposition(lines + [last], if r.Some? then r.value.0 else name,
                            if r.Some? then r.value.1 else filename)
  {
    var more := lines + [last];
    var r := MatchDisposition(last);
    assert more[|lines|] == last;
    if r.Some? {
      assert DispositionAt(more, |lines|, r.value.0, r.value.1);
    } else if name == "" && filename == "" && NoDispositionAfter(lines, -1) {
      assert NoDispositionAfter(more, -1);
    } else {
      var k: nat :| DispositionAt(lines, k, name, filename);
      assert DispositionAt(more, k, name, filename);
    }
  }

  lemma {:induction false} FileOfLines(lines: seq<string>)
    ensures var f := ReadLines(NO_FILE, lines);
            LastType(lines, f.contentType) && LastDisposition(lines, f.name, f.filename) && f.content == ""
    decreases |lines|
  {
    if lines != [] {
      var front, last := lines[..|lines| - 1], lines[|lines| - 1];
      var f := ReadLines(NO_FILE, front);
      assert front + [last] == lines;
      FileOfLines(front);
      ReadLinesSnoc(NO_FILE, front, last);
      LastTypeSnoc(front, last, f.contentType);
      LastDispositionSnoc(front, last, f.name, f.filename);
      TypeLineIs(last);
      if IsTypeLine(last) {
        TypeIsNoDisposition(last);
      }
    }
  }

  /** For any header lines, in any order: once they have all arrived the header callback gets the content type of the
      last content type line and the name and filename of the last disposition line, and all other lines change
      nothing. */
  lemma {:induction false} HeadersInAnyOrder(m: Machine, lines: seq<string>, content: string)
    requires m.state == 2 && m.file == NO_FILE && ReadableLines(lines)
    requires m.buf == HeaderText(lines) + CRLF + content
    ensures var (n, o) := ReadHeaders(Always, m);
            && o == Continue && n.state == 3 && n.buf == content && n.valid == m.valid
            && n.events == m.events + [Header(n.file)]
            && LastType(lines, n.file.contentType) && LastDisposition(lines, n.file.name, n.file.filename)
            && n.file.content == ""
  {
    assert m.buf + "" == m.buf;
    var left := HeaderLoop(m, "", lines, content);
    FileOfLines(lines);
    var n := ReadHeaders(Always, m).0;
    assert n.buf + "" == n.buf;
  }

  // ----- the value of a content type, and dispositions -----

  predicate Blanks(s: string) { forall i | 0 <= i < |s| :: s[i] == ' ' || s[i] == '\t' }

  predicate Spaces(s: string) { forall i | 0 <= i < |s| :: IsSpace(s[i]) }

  lemma {:induction false} LeftTrimmed(before: string, t: string)
    requires Blanks(before) && (t == "" || !IsSpaceOrTab(t[0]))
    ensures TrimLeft(before + t) == t
  {
    if before == "" {
      assert before + t == t;
    } else {
      assert (before + t)[1..] == before[1..] + t;
      LeftTrimmed(before[1..], t);
    }
  }

  lemma {:induction false} RightTrimmed(t: string, after: string)
    requires Blanks(after) && (t == "" || !IsSpaceOrTab(t[|t| - 1]))
    ensures TrimRight(t + after) == t
  {
    if after == "" {
      assert t + after == t;
    } else {
      var n := |after| - 1;
      assert (t + after)[..|t| + n] == t + after[..n];
      RightTrimmed(t, after[..n]);
    }
  }

  /** Blanks around a content type are dropped, and the field's name may be in any case. */
  lemma {:induction false} TypeIsRead(file: FormItem, field: string, before: string, t: string, after: string)
    requires IsTypeField(field) && Blanks(before) && Blanks(after)
    requires t != "" && !IsSpaceOrTab(t[0]) && !IsSpaceOrTab(t[|t| - 1])
    ensures ReadHeaderLine(file, field + (before + (t + after))) == file.(contentType := t)
  {
    var line := field + (before + (t + after));
    assert line[..13] == field && line[13..] == before + (t + after);
    TypeLineIs(line);
    LeftTrimmed(before, t + after);
    RightTrimmed(t, after);
  }

  lemma {:induction false} SpacesSkipped(sp: string, t: string)
    requires Spaces(sp) && (t == "" || !IsSpace(t[0]))
    ensures SkipSpaces(sp + t) == t
  {
    if sp == "" {
      assert sp + t == t;
    } else {
      assert (sp + t)[1..] == sp[1..] + t;
      SpacesSkipped(sp[1..], t);
    }
  }

  lemma {:induction false} NonSpacesSkipped(v: string, sp: string)
    requires (forall i | 0 <= i < |v| :: !IsSpace(v[i])) && Spaces(sp)
    ensures SkipNonSpaces(v + sp) == sp
  {
    if v == "" {
      assert v + sp == sp;
    } else {
      assert (v + sp)[1..] == v[1..] + sp;
      NonSpacesSkipped(v[1..], sp);
    }
  }

  lemma {:induction false} FieldIs(s: string, lower: string, upper: string, rest: string)
    requires |lower| == |upper| && InAnyCase(s, lower, upper)
    requires forall i | 0 <= i < |lower| :: ToLower(lower[i]) == ToLower(upper[i])
    ensures PrefixIgnoringCase(s + rest, lower) && (s + rest)[|lower|..] == rest
  {
  }

  /** An extended filename, which is ignored: spaces, the field, and a value without spaces. */
  datatype Extended = Extended(spaces: string, field: string, value: string)

  predicate IsExtended(x: Extended) {
    && Spaces(x.spaces) && IsExtendedField(x.field)
    && x.value != "" && forall i | 0 <= i < |x.value| :: !IsSpace(x.value[i])
  }

  function ExtendedText(x: Option<Extended>): string {
    match x
    case None => ""
    case Some(e) => ";" + (e.spaces + (e.field + e.value))
  }

  lemma {:induction false} AfterSemicolon(sp: string, u: string)
    requires Spaces(sp) && u != "" && !IsSpace(u[0])
    ensures var t := ";" + (sp + u); t[0] == ';' && SkipSpaces(t[1..]) == u
  {
    assert (";" + (sp + u))[1..] == sp + u;
    SpacesSkipped(sp, u);
  }

  lemma {:induction false} ExtendedShape(e: Extended, sp: string)
    ensures ExtendedText(Some(e)) + sp == ";" + (e.spaces + (e.field + (e.value + sp)))
  {
  }

  lemma {:induction false} ExtendedEndMatches(e: Extended, sp: string)
    requires Spaces(sp) && IsExtended(e)
    ensures MatchesEnd(";" + (e.spaces + (e.field + (e.value + sp))))
  {
    var v := e.value + sp;
    AfterSemicolon(e.spaces, e.field + v);
    FieldIs(e.field, "filename*=", "FILENAME*=", v);
    NonSpacesSkipped(e.value, sp);
    SpacesSkipped(sp, "");
    assert sp + "" == sp;
  }

  lemma {:induction false} EndMatches(x: Option<Extended>, sp: string)
    requires Spaces(sp) && (x.Some? ==> IsExtended(x.value))
    ensures MatchesEnd(ExtendedText(x) + sp)
  {
    match x {
      case None =>
        SpacesSkipped(sp, "");
        assert sp + "" == sp && "" + sp == sp;
      case Some(e) =>
        ExtendedShape(e, sp);
        ExtendedEndMatches(e, sp);
    }
  }

  /** A filename: spaces, the field, and the name up to a quote. */
  datatype Quoted = Quoted(spaces: string, field: string, filename: string)

  predicate IsQuoted(q: Quoted) { Spaces(q.spaces) && IsFilenameField(q.field) && PlainField(q.filename) }

  function QuotedText(q: Option<Quoted>): string {
    match q
    case None => ""
    case Some(f) => ";" + (f.spaces + (f.field + (f.filename + "\"")))
  }

  lemma {:induction false} FilenameEnds(filename: string, tail: string)
    requires PlainField(filename) && MatchesEnd(tail)
    ensures MatchFilename(filename + ("\"" + tail), 0) == Some(filename)
  {
    var t := filename + ("\"" + tail);
    var n := |filename|;
    assert t[n] == '"' && t[n + 1..] == tail && t[..n] == filename;
    FilenameFound(t, 0, n);
  }

  lemma {:induction false} FilenameFound(t: string, k: nat, n: nat)
    requires k <= n < |t| && t[n] == '"' && PlainField(t[..n]) && MatchesEnd(t[n + 1..])
    ensures MatchFilename(t, k) == Some(t[..n])
    decreases n - k
  {
    if k < n {
      assert t[k] == t[..n][k] && t[k] in t[..n];
      FilenameFound(t, k + 1, n);
    }
  }

  lemma {:induction false} ExtendedIsNoQuoted(e: Extended, rest: string)
    requires IsExtended(e)
    ensures !PrefixIgnoringCase(e.field + rest, "filename=\"")
  {
    assert (e.field + rest)[8] == e.field[8] == '*';
  }

  lemma {:induction false} FilenameMatches(f: Quoted, tail: string)
    requires IsQuoted(f) && MatchesEnd(tail)
    ensures MatchAfterName(QuotedText(Some(f)) + tail) == Some(f.filename)
  {
    var v := f.filename + ("\"" + tail);
    var u := f.field + v;
    assert QuotedText(Some(f)) + tail == ";" + (f.spaces + u);
    AfterSemicolon(f.spaces, u);
    FieldIs(f.field, "filename=\"", "FILENAME=\"", v);
    FilenameEnds(f.filename, tail);
  }

  lemma {:induction false} NoFilenameMatches(x: Option<Extended>, sp: string)
    requires (x.Some? ==> IsExtended(x.value)) && Spaces(sp)
    ensures MatchAfterName(ExtendedText(x) + sp) == Some("")
  {
    EndMatches(x, sp);
    if x.Some? {
      ExtendedShape(x.value, sp);
      AfterSemicolon(x.value.spaces, x.value.field + (x.value.value + sp));
      ExtendedIsNoQuoted(x.value, x.value.value + sp);
    } else {
      NoSemicolon(sp);
      assert "" + sp == sp;
    }
  }

  lemma {:induction false} NoSemicolon(sp: string)
    requires Spaces(sp)
    ensures sp == "" || sp[0] != ';'
  {
  }

  lemma {:induction false} AfterNameMatches(q: Option<Quoted>, x: Option<Extended>, sp: string)
    requires (q.Some? ==> IsQuoted(q.value)) && (x.Some? ==> IsExtended(x.value)) && Spaces(sp)
    ensures MatchAfterName(QuotedText(q) + (ExtendedText(x) + sp)) ==
            Some(if q.Some? then q.value.filename else "")
  {
    var tail := ExtendedText(x) + sp;
    if q.Some? {
      EndMatches(x, sp);
      FilenameMatches(q.value, tail);
    } else {
      assert "" + tail == tail;
      NoFilenameMatches(x, sp);
    }
  }

  lemma {:induction false} NameEnds(name: string, after: string)
    requires PlainField(name) && MatchAfterName(after).Some?
    ensures MatchName(name + ("\"" + after), 0) == Some((name, MatchAfterName(after).value))
  {
    var t := name + ("\"" + after);
    var n := |name|;
    assert t[n] == '"' && t[n + 1..] == after && t[..n] == name;
    MatchNameFinds(t, 0, n);
  }

  /** Every disposition line of a form is read, with its fields in any case and any spaces between them, with or without
      a filename and an extended filename, and with spaces at the end. */
  lemma {:induction false} DispositionInAnyForm(field: string, sp1: string, form: string, sp2: string,
                                                nameField: string, name: string, q: Option<Quoted>,
                                                x: Option<Extended>, sp3: string)
    requires IsDispositionField(field) && IsFormData(form) && IsNameField(nameField) && PlainField(name)
    requires Spaces(sp1) && Spaces(sp2) && Spaces(sp3)
    requires (q.Some? ==> IsQuoted(q.value)) && (x.Some? ==> IsExtended(x.value))
    ensures var after := QuotedText(q) + (ExtendedText(x) + sp3);
            MatchDisposition(field + (sp1 + (form + (sp2 + (nameField + (name + ("\"" + after))))))) ==
            Some((name, if q.Some? then q.value.filename else ""))
  {
    var after := QuotedText(q) + (ExtendedText(x) + sp3);
    var v := name + ("\"" + after);
    var u := nameField + v;
    var r := form + (sp2 + u);
    FieldIs(field, "content-disposition:", "CONTENT-DISPOSITION:", sp1 + r);
    SpacesSkipped(sp1, r);
    FieldIs(form, "form-data;", "FORM-DATA;", sp2 + u);
    SpacesSkipped(sp2, u);
    FieldIs(nameField, "name=\"", "NAME=\"", v);
    AfterNameMatches(q, x, sp3);
    NameEnds(name, after);
  }
}
