/** A parser that misses the first boundary line never reports what was printed: from wherever it starts later, it is
    behind the printed items, and stays behind, because the contents it would have to report are too long for the text
    that is left. With this the condition for the round trip is exact. */
module MultipartLateStart {
  import opened Text
  import opened Multipart
  import opened MultipartRoundTrip

  // ----- what is left of the printed text -----

  predicate IsSuffix(t: string, whole: string) { |t| <= |whole| && whole[|whole| - |t|..] == t }

  /** How much text is left at the empty line before the content of item `k`. */
  function FromBlank(items: seq<FormItem>, k: nat, b: string): nat
    requires k < |items|
  {
    2 + |items[k].content| + |Delimiter(b)| + |AfterDelimiter(items, k + 1, b)|
  }

  lemma {:induction false} SuffixOfSuffix(a: string, t: string, whole: string)
    requires IsSuffix(a + t, whole)
    ensures IsSuffix(t, whole)
  {
    assert (a + t)[|a|..] == t;
  }

  lemma {:induction false} SuffixAfter(buf: string, future: string, whole: string, pos: nat, x: string)
    requires IsSuffix(buf + future, whole) && pos + |x| <= |buf| && buf[pos..pos + |x|] == x
    ensures IsSuffix(x + (buf[pos + |x|..] + future), whole) && IsSuffix(buf[pos + |x|..] + future, whole)
  {
    var t := x + (buf[pos + |x|..] + future);
    assert (buf + future)[pos..] == t;
    SuffixOfSuffix(x, buf[pos + |x|..] + future, whole);
  }

  lemma {:induction false} SuffixDrop(buf: string, future: string, whole: string, n: nat)
    requires IsSuffix(buf + future, whole) && n <= |buf|
    ensures IsSuffix(buf[n..] + future, whole)
  {
    SuffixAfter(buf, future, whole, n, "");
  }

  lemma {:induction false} DashAhead(x: string, t: string)
    requires |t| >= 4 && t[|t| - 3] == '-'
    ensures |x + t| >= 4 && (x + t)[|x + t| - 3] == '-'
  {
  }

  lemma {:induction false} EndsInDash(items: seq<FormItem>, k: nat, b: string)
    requires k <= |items|
    ensures var t := AfterDelimiter(items, k, b); |t| >= 4 && t[|t| - 3] == '-'
    decreases |items| - k
  {
    if k < |items| {
      var rest := AfterDelimiter(items, k + 1, b);
      EndsInDash(items, k + 1, b);
      DashAhead(items[k].content + Delimiter(b), rest);
      DashAhead(HeaderText(HeaderLines(items[k])) + CRLF, items[k].content + Delimiter(b) + rest);
      DashAhead(CRLF, Body(items, k, b));
    }
  }

  // ----- where a line break stands in the headers -----

  /** In one or two header lines a carriage return ends the first line, or it ends all of them. */
  lemma {:induction false} BreakInLines(a: string, c: string, h: string, j: nat)
    requires '\r' !in a && '\r' !in c && a != "" && c != "" && j < |h| && h[j] == '\r'
    requires h == a + CRLF || h == a + CRLF + c + CRLF
    ensures j + 2 <= |h| && (j == |a| || (h == a + CRLF + c + CRLF && j + 2 == |h|))
    ensures h[|a| - 1] == a[|a| - 1] && (|a| + 2 < |h| ==> h[|a| + 2] == c[0])
  {
    forall i | 0 <= i < |a| ensures h[i] == a[i] != '\r' {
      assert a[i] in a;
    }
    if h == a + CRLF + c + CRLF {
      forall i | 0 <= i < |c| ensures h[|a| + 2 + i] == c[i] != '\r' {
        assert c[i] in c;
      }
    }
  }

  lemma {:induction false} DispositionShape(item: FormItem, b: string)
    requires Printable(item, b)
    ensures var a, c := DispositionLine(item), CONTENT_TYPE + item.contentType;
            && '\r' !in a && a != "" && a[0] == 'C' && a[|a| - 1] == '"'
            && (item.contentType != "" ==> '\r' !in c) && c != "" && c[0] == 'C'
  {
    var a, c := DispositionLine(item), CONTENT_TYPE + item.contentType;
    NoCarriageReturn(item, b);
    assert a in HeaderLines(item);
    assert item.contentType != "" ==> c in HeaderLines(item);
  }

  /** A carriage return at `j` in the headers `h` ends the disposition line, or, when there is one, the content type. */
  predicate LineBreak(h: string, typed: bool, j: nat)
    requires j < |h|
  {
    && 0 < j && j + 2 <= |h| && (j + 2 < |h| ==> h[j + 2] != '-')
    && (h[j - 1] == '"' || (j + 2 == |h| && typed))
  }

  predicate AreHeaders(item: FormItem, h: string) {
    h == DispositionLine(item) + CRLF +
         if item.contentType == "" then "" else CONTENT_TYPE + item.contentType + CRLF
  }

  lemma {:induction false} BreakInHeaders(item: FormItem, b: string, h: string, j: nat)
    requires Printable(item, b) && AreHeaders(item, h) && j < |h| && h[j] == '\r'
    ensures LineBreak(h, item.contentType != "", j)
  {
    var a, c := DispositionLine(item), CONTENT_TYPE + item.contentType;
    DispositionShape(item, b);
    if item.contentType == "" {
      assert h == a + CRLF;
      BreakInLines(a, "C", h, j);
    } else {
      assert h == a + CRLF + c + CRLF;
      BreakInLines(a, c, h, j);
    }
  }

  lemma {:induction false} Spread(h: string, content: string, d: string, rest: string)
    ensures var after := CRLF + (h + CRLF + (content + d + rest));
            && |after| == 2 + |h| + (2 + |content| + |d| + |rest|)
            && after[|h| + 2] == '\r' && after[1] == '\n' && after[|h| + 3] == '\n'
            && forall i | 0 <= i < |h| :: after[i + 2] == h[i]
  {
  }

  /** `after` is a line break, the headers `h` of an item, and `blank` more characters from the empty line on. */
  predicate HasHeaders(h: string, typed: bool, after: string, blank: nat) {
    && |after| == 2 + |h| + blank && blank >= 2
    && after[|h| + 2] == '\r' && after[1] == '\n' && after[|h| + 3] == '\n'
    && h != "" && h[0] == 'C'
    && (forall i | 0 <= i < |h| :: after[i + 2] == h[i])
    && (forall j | 0 <= j < |h| && h[j] == '\r' :: LineBreak(h, typed, j))
  }

  lemma {:induction false} HeadersAfter(items: seq<FormItem>, k: nat, b: string)
    requires AllPrintable(items, b) && k < |items|
    ensures HasHeaders(HeaderText(HeaderLines(items[k])), items[k].contentType != "", AfterDelimiter(items, k, b),
                       FromBlank(items, k, b))
  {
    var item := items[k];
    var h := HeaderText(HeaderLines(item));
    Spread(h, item.content, Delimiter(b), AfterDelimiter(items, k + 1, b));
    HeaderTextShape(item);
    DispositionShape(item, b);
    assert h[0] == DispositionLine(item)[0];
    assert AfterDelimiter(items, k, b) == CRLF + Body(items, k, b);
    forall j | 0 <= j < |h| && h[j] == '\r' ensures LineBreak(h, item.contentType != "", j) {
      BreakInHeaders(item, b, h, j);
    }
  }

  lemma {:induction false} NoDashAfterBreak(h: string, typed: bool, after: string, blank: nat, j: nat)
    requires HasHeaders(h, typed, after, blank) && j < |h| && after[j + 2] == '\r'
    ensures after[j + 4] != '-'
  {
    assert h[j] == '\r' && LineBreak(h, typed, j);
    assert j + 2 < |h| ==> after[j + 4] == h[j + 2];
  }

  /** A line break that a dash follows is not in the headers. */
  lemma {:induction false} DashAfterHeaders(h: string, typed: bool, after: string, blank: nat, j: nat)
    requires HasHeaders(h, typed, after, blank) && j + 2 < |after|
    requires after[j] == '\r' && after[j + 2] == '-'
    ensures j >= |h| + 2
  {
    assert after[2] == h[0];
    if 2 <= j < 2 + |h| {
      NoDashAfterBreak(h, typed, after, blank, j - 2);
    }
  }

  /** A line break after the headers' first line break, with no quote before it, is the last one of the headers and
      ends a content type, or it comes later. */
  lemma {:induction false} NoQuoteInHeaders(h: string, typed: bool, after: string, blank: nat, j: nat)
    requires HasHeaders(h, typed, after, blank) && 0 < j < |after|
    requires after[j] == '\r' && after[j - 1] != '"'
    ensures j >= |h| + 2 || (j == |h| && typed)
  {
    if 2 <= j < 2 + |h| {
      assert after[j] == h[j - 2];
      assert LineBreak(h, typed, j - 2);
      assert after[j - 1] == h[j - 3];
    }
  }

  /** Of two occurrences of the delimiter, the later one starts in what follows the other. */
  lemma {:induction false} LaterDelimiter(b: string, after: string, t: string, whole: string) returns (j: nat)
    requires BoundaryCharsValid(b) && |t| < |after|
    requires IsSuffix(Delimiter(b) + after, whole) && IsSuffix(Delimiter(b) + t, whole)
    ensures j + |Delimiter(b) + t| == |after| && j + 2 < |after|
    ensures after[j] == '\r' && after[j + 2] == '-'
  {
    var d := Delimiter(b);
    var x, i := d + after, |after| - |t|;
    DelimiterHasNoBorder(b);
    assert forall p | 0 <= p < |d| :: x[p] == d[p];
    assert x[i..] == d + t;
    assert x[i] == x[i..][0] == d[0] && x[i + 2] == x[i..][2] == d[2];
    j := i - |d|;
    assert after[j] == x[i] && after[j + 2] == x[i + 2];
  }

  /** After the delimiter before item `k` no delimiter comes before the empty line of that item. */
  lemma {:induction false} NoDelimiterInHeaders(items: seq<FormItem>, k: nat, b: string, whole: string, t: string)
    requires AllPrintable(items, b) && k <= |items|
    requires IsSuffix(Delimiter(b) + AfterDelimiter(items, k, b), whole) && IsSuffix(Delimiter(b) + t, whole)
    requires |t| < |AfterDelimiter(items, k, b)|
    ensures k < |items| && |Delimiter(b) + t| <= FromBlank(items, k, b)
  {
    var after := AfterDelimiter(items, k, b);
    var j := LaterDelimiter(b, after, t, whole);
    if k < |items| {
      HeadersAfter(items, k, b);
      DashAfterHeaders(HeaderText(HeaderLines(items[k])), items[k].contentType != "", after, FromBlank(items, k, b), j);
    }
  }

  lemma {:induction false} LaterLine(b: string, after: string, t: string) returns (j: nat)
    requires BoundaryCharsValid(b) && CRLF <= after && |t| + 2 < |after|
    requires IsSuffix(FirstLine(b) + t, DASH + b + after)
    ensures 0 < j && j + 2 + |t| == |after| && after[j] == '\r' && after[j - 1] != '"'
  {
    var line, whole := FirstLine(b), DASH + b + after;
    var i := |after| - 2 - |t|;
    NoQuoteAtEnd(b);
    assert whole[i..] == line + t;
    assert whole[i..][|line| - 2] == '\r' && whole[i..][|line| - 3] != '"';
    assert whole[i + |line| - 2] == after[i] && i > 0;
    assert whole[i + |line| - 3] == after[i - 1];
    j := i;
  }

  lemma {:induction false} NoQuoteAtEnd(b: string)
    requires BoundaryCharsValid(b)
    ensures var line := FirstLine(b); |line| == |b| + 4 && line[|line| - 2] == '\r' && line[|line| - 3] != '"'
  {
    if b != "" {
      assert FirstLine(b)[|b| + 1] == b[|b| - 1] && b[|b| - 1] in b;
    }
  }

  /** A later first boundary line ends no earlier than the empty line of the first item, and exactly there only as the
      end of its content type. */
  lemma {:induction false} LateFirstLine(items: seq<FormItem>, b: string, whole: string, t: string)
    requires AllPrintable(items, b) && items != [] && whole == DASH + b + AfterDelimiter(items, 0, b)
    requires IsSuffix(FirstLine(b) + t, whole) && |FirstLine(b) + t| < |whole|
    ensures |t| < FromBlank(items, 0, b) || (|t| == FromBlank(items, 0, b) && items[0].contentType != "")
  {
    var after := AfterDelimiter(items, 0, b);
    HeadersAfter(items, 0, b);
    var j := LaterLine(b, after, t);
    NoQuoteInHeaders(HeaderText(HeaderLines(items[0])), items[0].contentType != "", after, FromBlank(items, 0, b), j);
  }

  // ----- a late parser stays behind -----

  /** The items reported so far, of which the last one is still open, may become the printed ones. */
  ghost predicate OpenPrefix(es: seq<FormItem>, items: seq<FormItem>) {
    && 0 < |es| <= |items|
    && var n := |es| - 1;
    && es[..n] == items[..n]
    && items[n] == es[n].(content := items[n].content)
    && es[n].content <= items[n].content
  }

  /** The items in `es` are the printed ones so far only if less than the text from the empty line of the next item on
      is left. */
  ghost predicate Behind(items: seq<FormItem>, b: string, es: seq<FormItem>, left: nat) {
    es <= items ==> |es| < |items| && left < FromBlank(items, |es|, b)
  }

  /** Exactly the text from the empty line of the first item on is left, which has a content type. */
  ghost predicate MissedHeaders(items: seq<FormItem>, b: string, es: seq<FormItem>, left: nat) {
    es == [] && items != [] && left == FromBlank(items, 0, b) && items[0].contentType != ""
  }

  /** If the items in `es`, of which the last one is open, may become the printed ones, then less text is left than from
      the same place in the content of that item. */
  ghost predicate TooLittle(items: seq<FormItem>, b: string, es: seq<FormItem>, left: nat) {
    OpenPrefix(es, items) ==> left + |es[|es| - 1].content| + 2 < FromBlank(items, |es| - 1, b)
  }

  /** What is left of the text is not enough to report the printed items. */
  ghost predicate Late(items: seq<FormItem>, b: string, whole: string, m: Machine, future: string) {
    var t := m.buf + future;
    var es := Collect(m.events);
    && m.state <= 4 && IsSuffix(t, whole)
    && (m.state == 0 ==> es == [] && |t| < |whole|)
    && (m.state == 1 || m.state == 2 ==> IsSuffix(CRLF + t, whole))
    && (m.state == 1 ==> Behind(items, b, es, |t|) || MissedHeaders(items, b, es, |t|))
    && (m.state == 2 ==> Behind(items, b, es, |t|) || (MissedHeaders(items, b, es, |t|) && m.file == NO_FILE))
    && (m.state == 2 ==> m.file.content == "")
    && (m.state == 3 ==> t != "" && es != [] && TooLittle(items, b, es, |t|))
    && (m.state == 4 ==> Behind(items, b, es, |t|))
  }

  ghost predicate StaysLate(items: seq<FormItem>, b: string, whole: string, n: Machine, o: Outcome, future: string) {
    o == Return(false) || Late(items, b, whole, n, future)
  }

  /** The text that the items print. */
  ghost predicate IsPrinted(items: seq<FormItem>, b: string, whole: string) {
    && items != [] && AllPrintable(items, b) && whole == DASH + b + AfterDelimiter(items, 0, b)
  }

  lemma {:induction false} Regrouped(h: string, content: string, d: string, after: string)
    ensures CRLF + (h + CRLF + (content + d + after)) == CRLF + (h + CRLF + content) + (d + after)
  {
  }

  lemma {:induction false} DelimiterInPart(items: seq<FormItem>, b: string, whole: string, k: nat)
    requires k < |items| && IsSuffix(AfterDelimiter(items, k, b), whole)
    ensures IsSuffix(Delimiter(b) + AfterDelimiter(items, k + 1, b), whole)
  {
    var h, content, after := HeaderText(HeaderLines(items[k])), items[k].content, AfterDelimiter(items, k + 1, b);
    Regrouped(h, content, Delimiter(b), after);
    assert AfterDelimiter(items, k, b) == CRLF + (h + CRLF + (content + Delimiter(b) + after));
    SuffixOfSuffix(CRLF + (h + CRLF + content), Delimiter(b) + after, whole);
  }

  lemma {:induction false} DelimiterInWhole(items: seq<FormItem>, b: string, whole: string, k: nat)
    requires IsPrinted(items, b, whole) && k < |items|
    ensures IsSuffix(Delimiter(b) + AfterDelimiter(items, k + 1, b), whole)
    decreases k
  {
    if k == 0 {
      SuffixOfSuffix(DASH + b, AfterDelimiter(items, 0, b), whole);
    } else {
      DelimiterInWhole(items, b, whole, k - 1);
      SuffixOfSuffix(Delimiter(b), AfterDelimiter(items, k, b), whole);
    }
    DelimiterInPart(items, b, whole, k);
  }

  lemma {:induction false} FirstLineFound(items: seq<FormItem>, b: string, whole: string, buf: string, future: string)
    requires IsPrinted(items, b, whole) && IsSuffix(buf + future, whole) && |buf + future| < |whole|
    requires FirstLine(b) <= buf
    ensures var t := buf[|FirstLine(b)|..] + future;
            && IsSuffix(t, whole) && IsSuffix(CRLF + t, whole)
            && (|t| < FromBlank(items, 0, b) || (|t| == FromBlank(items, 0, b) && items[0].contentType != ""))
  {
    var line := FirstLine(b);
    var t := buf[|line|..] + future;
    assert buf[0..0 + |line|] == line;
    SuffixAfter(buf, future, whole, 0, line);
    LateFirstLine(items, b, whole, t);
    Assoc(DASH + b, CRLF, t);
    SuffixOfSuffix(DASH + b, CRLF + t, whole);
  }

  lemma {:induction false} LateSeek(items: seq<FormItem>, b: string, whole: string, m: Machine, future: string)
    requires IsPrinted(items, b, whole) && m.state == 0 && Late(items, b, whole, m, future)
    ensures var (n, o) := SeekFirstLine(FirstLine(b), m); StaysLate(items, b, whole, n, o, future)
  {
    var line := FirstLine(b);
    var pos := Find(m.buf, line);
    var n := Erase(m, pos);
    SuffixDrop(m.buf, future, whole, pos);
    if |line| <= |n.buf| && line <= n.buf {
      FirstLineFound(items, b, whole, n.buf, future);
    }
  }

  lemma {:induction false} NotAtTheEnd(items: seq<FormItem>, b: string, whole: string, t: string)
    requires IsPrinted(items, b, whole) && IsSuffix(CRLF + (CRLF + t), whole)
    ensures t != ""
  {
    EndsInDash(items, 0, b);
    DashAhead(DASH + b, AfterDelimiter(items, 0, b));
    assert whole[|whole| - |t| - 3] == (CRLF + (CRLF + t))[1];
  }

  lemma {:induction false} BlankFound(items: seq<FormItem>, b: string, whole: string, buf: string, future: string)
    requires IsPrinted(items, b, whole) && IsSuffix(CRLF + (buf + future), whole)
    requires |buf| >= 2 && buf[..2] == CRLF
    ensures buf[2..] + future != "" && IsSuffix(buf[2..] + future, whole)
  {
    var t := buf[2..] + future;
    assert buf + future == CRLF + t;
    NotAtTheEnd(items, b, whole, t);
    SuffixOfSuffix(CRLF, CRLF + t, whole);
    SuffixOfSuffix(CRLF, t, whole);
  }

  lemma {:induction false} ItemOpened(items: seq<FormItem>, events: seq<Event>, file: FormItem)
    ensures var es, es' := Collect(events), Collect(events + [Header(file)]);
            && |es'| == |es| + 1 && es'[|es|] == file
            && (OpenPrefix(es', items) ==>
                  es <= items && |es| < |items| && items[|es|] == file.(content := items[|es|].content))
  {
    CollectSnoc(events, Header(file));
    var es := Collect(events);
    assert (es + [file])[..|es|] == es;
  }

  lemma {:induction false} LateBlank(items: seq<FormItem>, b: string, whole: string, m: Machine, future: string)
    requires IsPrinted(items, b, whole) && m.state == 2 && Late(items, b, whole, m, future)
    requires |m.buf| >= 2 && m.buf[..2] == CRLF
    ensures Late(items, b, whole, Erase(Emit(m, Header(m.file)), 2).(state := 3), future)
  {
    BlankFound(items, b, whole, m.buf, future);
    ItemOpened(items, m.events, m.file);
  }

  lemma {:induction false} LateLine(items: seq<FormItem>, b: string, whole: string, m: Machine, future: string,
                                    pos: nat)
    requires IsPrinted(items, b, whole) && m.state == 2 && Late(items, b, whole, m, future)
    requires 0 < pos && pos + 2 <= |m.buf| && m.buf[pos..pos + 2] == CRLF
    ensures Late(items, b, whole, Erase(m.(file := ReadHeaderLine(m.file, m.buf[..pos])), pos + 2), future)
  {
    SuffixAfter(m.buf, future, whole, pos, CRLF);
  }

  lemma {:induction false} HeadersLoop(m: Machine)
    requires m.state == 2
    ensures var pos := Find(m.buf, CRLF);
            && (pos < |m.buf| ==> pos + 2 <= |m.buf| && m.buf[pos..pos + 2] == CRLF)
            && ReadHeaders(Always, m) ==
                 if pos >= |m.buf| then (m, Return(true))
                 else if pos == 0 then (Erase(Emit(m, Header(m.file)), 2).(state := 3), Continue)
                 else ReadHeaders(Always, Erase(m.(file := ReadHeaderLine(m.file, m.buf[..pos])), pos + 2))
  {
    FindIsFirst(m.buf, CRLF);
  }

  lemma {:induction false} LateHeaders(items: seq<FormItem>, b: string, whole: string, m: Machine, future: string)
    requires IsPrinted(items, b, whole) && m.state == 2 && Late(items, b, whole, m, future)
    ensures Late(items, b, whole, ReadHeaders(Always, m).0, future)
    decreases |m.buf|
  {
    var pos := Find(m.buf, CRLF);
    HeadersLoop(m);
    if pos < |m.buf| {
      if pos == 0 {
        LateBlank(items, b, whole, m, future);
      } else {
        LateLine(items, b, whole, m, future, pos);
        LateHeaders(items, b, whole, Erase(m.(file := ReadHeaderLine(m.file, m.buf[..pos])), pos + 2), future);
      }
    }
  }

  lemma {:induction false} MoreContent(items: seq<FormItem>, events: seq<Event>, data: string)
    requires Collect(events) != []
    ensures var es, es' := Collect(events), Collect(events + [Content(data)]);
            && |es'| == |es| && es'[|es| - 1].content == es[|es| - 1].content + data
            && (OpenPrefix(es', items) ==> OpenPrefix(es, items))
            && (es' <= items ==> OpenPrefix(es', items) && items[|es| - 1].content == es[|es| - 1].content + data)
  {
    CollectSnoc(events, Content(data));
    var es := Collect(events);
    var n := |es| - 1;
    var es' := Collect(events + [Content(data)]);
    assert es'[..n] == es[..n];
    assert es[n].content <= es[n].content + data;
    if es' <= items {
      assert es'[..n] == items[..n] && es'[n] == items[n];
    }
  }

  lemma {:induction false} BehindDelimiter(items: seq<FormItem>, b: string, whole: string, k: nat, t: string)
    requires IsPrinted(items, b, whole) && 0 < k <= |items|
    requires IsSuffix(Delimiter(b) + t, whole) && |t| < |AfterDelimiter(items, k, b)|
    ensures k < |items| && |t| < FromBlank(items, k, b)
  {
    DelimiterInWhole(items, b, whole, k - 1);
    NoDelimiterInHeaders(items, k, b, whole, t);
  }

  /** With `left` characters to go, too few for the open item, its content ends at a delimiter that `t` follows. */
  lemma {:induction false} LateContentEnds(items: seq<FormItem>, b: string, whole: string, events: seq<Event>,
                                       data: string, left: nat, t: string)
    requires IsPrinted(items, b, whole) && IsSuffix(Delimiter(b) + t, whole)
    requires Collect(events) != [] && left == |data| + |Delimiter(b)| + |t|
    requires TooLittle(items, b, Collect(events), left)
    ensures Behind(items, b, Collect(events + [Content(data)]), |t|)
  {
    MoreContent(items, events, data);
    if Collect(events + [Content(data)]) <= items {
      BehindDelimiter(items, b, whole, |Collect(events)|, t);
    }
  }

  lemma {:induction false} LateContentGoesOn(items: seq<FormItem>, b: string, events: seq<Event>, data: string,
                                         left: nat)
    requires Collect(events) != [] && TooLittle(items, b, Collect(events), |data| + left)
    ensures Collect(events + [Content(data)]) != [] && TooLittle(items, b, Collect(events + [Content(data)]), left)
  {
    MoreContent(items, events, data);
  }

  function ContentDone(d: string, m: Machine, pos: nat): Machine
    requires pos + |d| <= |m.buf|
  {
    Erase(Emit(m, Content(m.buf[..pos])), pos + |d|).(state := 4)
  }

  function ContentPart(d: string, m: Machine): Machine
    requires |d| <= |m.buf|
  {
    Erase(Emit(m, Content(m.buf[..|m.buf| - |d|])), |m.buf| - |d|)
  }

  lemma {:induction false} DelimiterFound(d: string, buf: string, future: string, whole: string, pos: nat)
    returns (t: string)
    requires IsSuffix(buf + future, whole) && OccursAt(buf, d, pos)
    ensures t == buf[pos + |d|..] + future && |buf + future| == pos + |d| + |t|
    ensures IsSuffix(d + t, whole) && IsSuffix(t, whole)
  {
    SuffixAfter(buf, future, whole, pos, d);
    t := buf[pos + |d|..] + future;
  }

  lemma {:induction false} LateAtBoundary(items: seq<FormItem>, b: string, whole: string, n: Machine, future: string,
                                          t: string)
    requires n.state == 4 && t == n.buf + future && IsSuffix(t, whole) && Behind(items, b, Collect(n.events), |t|)
    ensures Late(items, b, whole, n, future)
  {
  }

  lemma {:induction false} LateDelimiter(items: seq<FormItem>, b: string, whole: string, m: Machine, future: string,
                                         pos: nat)
    requires IsPrinted(items, b, whole) && IsSuffix(m.buf + future, whole)
    requires Collect(m.events) != [] && TooLittle(items, b, Collect(m.events), |m.buf + future|)
    requires OccursAt(m.buf, Delimiter(b), pos)
    ensures Late(items, b, whole, ContentDone(Delimiter(b), m, pos), future)
  {
    var d, n := Delimiter(b), ContentDone(Delimiter(b), m, pos);
    var t := DelimiterFound(d, m.buf, future, whole, pos);
    var data := m.buf[..pos];
    LateContentEnds(items, b, whole, m.events, data, |m.buf + future|, t);
    assert n.events == m.events + [Content(data)];
    LateAtBoundary(items, b, whole, n, future, t);
  }

  lemma {:induction false} LatePart(items: seq<FormItem>, b: string, whole: string, m: Machine, future: string)
    requires IsPrinted(items, b, whole) && m.state == 3 && Late(items, b, whole, m, future)
    requires |Delimiter(b)| < |m.buf|
    ensures Late(items, b, whole, ContentPart(Delimiter(b), m), future)
  {
    var d, len := Delimiter(b), |m.buf| - |Delimiter(b)|;
    var data, rest := m.buf[..len], m.buf[len..];
    SuffixDrop(m.buf, future, whole, len);
    LateContentGoesOn(items, b, m.events, data, |rest + future|);
    var n := Machine(3, m.valid, m.file, rest, m.events + [Content(data)]);
    assert ContentPart(d, m) == n;
    assert rest + future != "";
    assert Late(items, b, whole, n, future);
  }

  /** The three outcomes of a turn in state 3. */
  lemma {:induction false} BodyCases(d: string, m: Machine) returns (pos: nat)
    requires d != []
    ensures var n := ReadBody(d, Always, m).0;
            || n == m
            || (OccursAt(m.buf, d, pos) && n == ContentDone(d, m, pos))
            || (|d| < |m.buf| && n == ContentPart(d, m))
  {
    FindIsFirst(m.buf, d);
    pos := Find(m.buf, d);
  }

  lemma {:induction false} LateBody(items: seq<FormItem>, b: string, whole: string, m: Machine, future: string)
    requires IsPrinted(items, b, whole) && m.state == 3 && Late(items, b, whole, m, future)
    ensures Late(items, b, whole, ReadBody(Delimiter(b), Always, m).0, future)
  {
    var d := Delimiter(b);
    var n := ReadBody(d, Always, m).0;
    var pos := BodyCases(d, m);
    if OccursAt(m.buf, d, pos) && n == ContentDone(d, m, pos) {
      LateDelimiter(items, b, whole, m, future, pos);
    } else if n != m {
      LatePart(items, b, whole, m, future);
    }
  }

  lemma {:induction false} LateAfterBoundary(items: seq<FormItem>, b: string, whole: string, m: Machine,
                                             future: string)
    requires IsPrinted(items, b, whole) && m.state == 4 && Late(items, b, whole, m, future)
    ensures var (n, o) := ReadAfterBoundary(m); StaysLate(items, b, whole, n, o, future)
  {
    if 2 <= |m.buf| && CRLF <= m.buf {
      SuffixAfter(m.buf, future, whole, 0, CRLF);
    } else {
      SuffixDrop(m.buf, future, whole, |m.buf|);
      assert m.buf[|m.buf|..] + future == "" + future;
    }
  }

  lemma {:induction false} LateStep(items: seq<FormItem>, b: string, whole: string, m: Machine, future: string)
    requires IsPrinted(items, b, whole) && m.buf != [] && Late(items, b, whole, m, future)
    ensures var (n, o) := Step(b, Always, m); StaysLate(items, b, whole, n, o, future)
  {
    if m.state == 0 {
      LateSeek(items, b, whole, m, future);
    } else if m.state == 2 {
      LateHeaders(items, b, whole, m, future);
    } else if m.state == 3 {
      LateBody(items, b, whole, m, future);
    } else if m.state == 4 {
      LateAfterBoundary(items, b, whole, m, future);
    }
  }

  lemma {:induction false} LateRun(items: seq<FormItem>, b: string, whole: string, m: Machine, future: string)
    requires IsPrinted(items, b, whole) && Late(items, b, whole, m, future)
    ensures var (n, ok) := Run(b, Always, m); ok ==> Late(items, b, whole, n, future)
    decreases |m.buf|, if m.state == 1 then 1 else 0
  {
    if m.buf != [] {
      LateStep(items, b, whole, m, future);
      var (n, o) := Step(b, Always, m);
      if o == Continue {
        LateRun(items, b, whole, n, future);
      }
    }
  }

  lemma {:induction false} LateNeverDelivers(items: seq<FormItem>, b: string, whole: string, m: Machine,
                                             chunks: seq<string>)
    requires IsPrinted(items, b, whole) && Late(items, b, whole, m, Concat(chunks))
    ensures !Delivered(items, ParseAll(b, Always, m, chunks))
    decreases |chunks|
  {
    if chunks != [] {
      var future := Concat(chunks[1..]);
      var m' := m.(buf := m.buf + chunks[0]);
      Assoc(m.buf, chunks[0], future);
      assert Late(items, b, whole, m', future);
      LateRun(items, b, whole, m', future);
      if Run(b, Always, m').1 {
        LateNeverDelivers(items, b, whole, Run(b, Always, m').0, chunks[1..]);
      }
    }
  }

  // ----- exactly when a printed form is read back -----

  /** The first chunk that is not empty holds the whole first boundary line. */
  predicate HoldsFirstLine(b: string, chunks: seq<string>) {
    chunks != [] && if chunks[0] == "" then HoldsFirstLine(b, chunks[1..]) else |chunks[0]| >= |FirstLine(b)|
  }

  lemma {:induction false} EmptyChunk(b: string, chunks: seq<string>)
    ensures ParseAll(b, Always, START, [""] + chunks) == ParseAll(b, Always, START, chunks)
    ensures Concat([""] + chunks) == Concat(chunks)
  {
    ShortFirstChunkIsDropped(b, Always, "", chunks);
    assert ([""] + chunks)[1..] == chunks;
    assert "" + Concat(chunks) == Concat(chunks);
  }

  lemma {:induction false} WholeText(items: seq<FormItem>, b: string)
    ensures Serialize(items, b) == DASH + b + AfterDelimiter(items, 0, b)
    ensures Serialize(items, b) != "" && Serialize(items, b)[..1] == "-"
  {
    SerializeShape(items, 0, b);
    assert items[0..] == items;
  }

  lemma {:induction false} ShortStartFails(items: seq<FormItem>, b: string, whole: string, chunk: string,
                                           chunks: seq<string>)
    requires IsPrinted(items, b, whole) && whole == chunk + Concat(chunks) && 0 < |chunk| < |FirstLine(b)|
    ensures !Delivered(items, ParseAll(b, Always, START, [chunk] + chunks))
  {
    var rest := Concat(chunks);
    ShortFirstChunkIsDropped(b, Always, chunk, chunks);
    SuffixOfSuffix(chunk, rest, whole);
    assert START.buf + rest == rest;
    assert Late(items, b, whole, START, rest);
    LateNeverDelivers(items, b, whole, START, chunks);
  }

  /** A printed form is read back, for every way of cutting the text into chunks, if and only if the first chunk that is
      not empty holds the whole first boundary line. */
  lemma {:induction false} RoundTripExactlyWhen(items: seq<FormItem>, b: string, chunks: seq<string>)
    requires items != [] && AllPrintable(items, b) && Concat(chunks) == Serialize(items, b)
    ensures Delivered(items, ParseAll(b, Always, START, chunks)) <==> HoldsFirstLine(b, chunks)
    decreases |chunks|
  {
    if chunks != [] {
      assert chunks == [chunks[0]] + chunks[1..];
      if chunks[0] == "" {
        EmptyChunk(b, chunks[1..]);
        RoundTripExactlyWhen(items, b, chunks[1..]);
      } else if |chunks[0]| >= |FirstLine(b)| {
        RoundTrip(items, b, chunks);
      } else {
        WholeText(items, b);
        ShortStartFails(items, b, Serialize(items, b), chunks[0], chunks[1..]);
      }
    }
  }

  lemma {:induction false} ConcatTwo(x: string, y: string)
    ensures Concat([x, y]) == x + y
  {
    assert [x, y][1..] == [y] && [y][1..] == [];
    assert Concat([y]) == y + Concat([]) == y;
  }

  /** For example: cut after its first byte, no printed form is read back. */
  lemma {:induction false} CutAfterFirstByte(items: seq<FormItem>, b: string)
    requires items != [] && AllPrintable(items, b)
    ensures var chunks := ["-", Serialize(items, b)[1..]];
            Concat(chunks) == Serialize(items, b) && !Delivered(items, ParseAll(b, Always, START, chunks))
  {
    WholeText(items, b);
    var text := Serialize(items, b);
    ConcatTwo("-", text[1..]);
    assert text == text[..1] + text[1..];
    RoundTripExactlyWhen(items, b, ["-", text[1..]]);
  }

  /** The smallest of forms: an item "a" with content "x". */
  lemma {:induction false} OneItemIsLost()
    ensures var items := [FormItem("a", "", "", "x")];
            && AllPrintable(items, "b")
            && !Delivered(items, ParseAll("b", Always, START, ["-", Serialize(items, "b")[1..]]))
  {
    var item := FormItem("a", "", "", "x");
    assert HeaderLines(item) == [DispositionLine(item)];
    assert Printable(item, "b");
    CutAfterFirstByte([item], "b");
  }
}
