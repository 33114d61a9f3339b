/** How parsing a form can end, for any text in any chunks: only after a closing delimiter is it valid, a refusing
    callback cuts it short, and a first header line over the limit is always refused. */
module MultipartOutcomes {
  import opened Text
  import opened Multipart
  import opened MultipartRoundTrip
  import opened MultipartLateStart

  // ----- a valid form was closed -----

  /** The delimiter stands in the text, with the closing dashes and line break behind it. */
  ghost predicate Closed(b: string, whole: string) {
    exists i: nat :: OccursAt(whole, Delimiter(b) + DASH_CRLF, i)
  }

  /** Valid only if closed, and while waiting behind a delimiter that delimiter stands in the text. */
  ghost predicate Honest(b: string, whole: string, m: Machine, future: string) {
    && IsSuffix(m.buf + future, whole) && m.state <= 4
    && (m.valid ==> Closed(b, whole))
    && (m.state == 4 ==> m.valid || IsSuffix(Delimiter(b) + (m.buf + future), whole))
  }

  lemma {:induction false} SuffixOccurs(x: string, t: string, whole: string)
    requires IsSuffix(x + t, whole)
    ensures exists i: nat :: OccursAt(whole, x, i)
  {
    var i: nat := |whole| - |x + t|;
    assert whole[i..] == x + t;
    assert whole[i..i + |x|] == whole[i..][..|x|] == x;
    assert OccursAt(whole, x, i);
  }

  lemma {:induction false} HonestSeek(b: string, whole: string, m: Machine, future: string)
    requires Honest(b, whole, m, future) && m.state == 0
    ensures Honest(b, whole, SeekFirstLine(FirstLine(b), m).0, future)
  {
    var line := FirstLine(b);
    var n := Erase(m, Find(m.buf, line));
    SuffixDrop(m.buf, future, whole, Find(m.buf, line));
    if |line| <= |n.buf| && line <= n.buf {
      SuffixDrop(n.buf, future, whole, |line|);
    }
  }

  lemma {:induction false} HonestHeaders(b: string, whole: string, p: Patience, m: Machine, future: string)
    requires Honest(b, whole, m, future) && m.state == 2
    ensures Honest(b, whole, ReadHeaders(p, m).0, future)
    decreases |m.buf|
  {
    var pos := Find(m.buf, CRLF);
    if pos < |m.buf| {
      if pos == 0 {
        SuffixDrop(m.buf, future, whole, 2);
      } else {
        var n := Erase(m.(file := ReadHeaderLine(m.file, m.buf[..pos])), pos + 2);
        SuffixDrop(m.buf, future, whole, pos + 2);
        HonestHeaders(b, whole, p, n, future);
      }
    }
  }

  lemma {:induction false} HonestBody(b: string, whole: string, p: Patience, m: Machine, future: string)
    requires Honest(b, whole, m, future) && m.state == 3
    ensures Honest(b, whole, ReadBody(Delimiter(b), p, m).0, future)
  {
    var d := Delimiter(b);
    var pos := Find(m.buf, d);
    if |d| <= |m.buf| {
      if pos < |m.buf| {
        FindIsFirst(m.buf, d);
        SuffixAfter(m.buf, future, whole, pos, d);
      } else {
        SuffixDrop(m.buf, future, whole, |m.buf| - |d|);
      }
    }
  }

  lemma {:induction false} ClosingFound(b: string, whole: string, buf: string, future: string)
    requires IsSuffix(Delimiter(b) + (buf + future), whole) && DASH_CRLF <= buf
    ensures Closed(b, whole)
  {
    var rest := buf[4..] + future;
    assert Delimiter(b) + (buf + future) == (Delimiter(b) + DASH_CRLF) + rest;
    SuffixOccurs(Delimiter(b) + DASH_CRLF, rest, whole);
  }

  lemma {:induction false} HonestBoundary(b: string, whole: string, m: Machine, future: string)
    requires Honest(b, whole, m, future) && m.state == 4
    ensures Honest(b, whole, ReadAfterBoundary(m).0, future)
  {
    if |m.buf| >= 2 && CRLF <= m.buf {
      SuffixDrop(m.buf, future, whole, 2);
    } else if |m.buf| >= 4 && DASH_CRLF <= m.buf {
      if !m.valid {
        ClosingFound(b, whole, m.buf, future);
      }
      SuffixDrop(m.buf, future, whole, |m.buf|);
      assert m.buf[|m.buf|..] + future == "" + future;
    }
  }

  lemma {:induction false} HonestRun(b: string, whole: string, p: Patience, m: Machine, future: string)
    requires Honest(b, whole, m, future)
    ensures Honest(b, whole, Run(b, p, m).0, future)
    decreases |m.buf|, if m.state == 1 then 1 else 0
  {
    if m.buf != [] {
      if m.state == 0 {
        HonestSeek(b, whole, m, future);
      } else if m.state == 2 {
        HonestHeaders(b, whole, p, m, future);
      } else if m.state == 3 {
        HonestBody(b, whole, p, m, future);
      } else if m.state == 4 {
        HonestBoundary(b, whole, m, future);
      }
      var (n, o) := Step(b, p, m);
      if o == Continue {
        HonestRun(b, whole, p, n, future);
      }
    }
  }

  lemma {:induction false} HonestParse(b: string, whole: string, p: Patience, m: Machine, chunks: seq<string>)
    requires Honest(b, whole, m, Concat(chunks))
    ensures ParseAll(b, p, m, chunks).0.valid ==> Closed(b, whole)
    decreases |chunks|
  {
    if chunks != [] {
      var future := Concat(chunks[1..]);
      var m' := m.(buf := m.buf + chunks[0]);
      Assoc(m.buf, chunks[0], future);
      HonestRun(b, whole, p, m', future);
      HonestParse(b, whole, p, Run(b, p, m').0, chunks[1..]);
    }
  }

  /** Whatever the text, its chunks and the callbacks: a form is only ever valid if its text has a delimiter with the
      closing dashes and line break behind it, so a form that was cut off before them is not. */
  lemma {:induction false} ValidOnlyWhenClosed(b: string, p: Patience, chunks: seq<string>)
    ensures ParseAll(b, p, START, chunks).0.valid ==> Closed(b, Concat(chunks))
  {
    assert START.buf + Concat(chunks) == Concat(chunks);
    HonestParse(b, Concat(chunks), p, START, chunks);
  }

  // ----- refusing callbacks -----

  /** `r` is `full`, or it was cut short at event `n`. */
  ghost predicate CutAt(n: nat, full: Machine, ok: bool, r: Machine, rok: bool) {
    if |full.events| <= n then r == full && rok == ok
    else !rok && !r.valid && r.events == full.events[..n]
  }

  ghost predicate StepCutAt(n: nat, full: (Machine, Outcome), r: (Machine, Outcome)) {
    if |full.0.events| <= n then r == full else r.1 == Return(false) && !r.0.valid && r.0.events == full.0.events[..n]
  }

  lemma {:induction false} HeadersCut(n: nat, m: Machine)
    requires m.state == 2 && |m.events| <= n
    ensures StepCutAt(n, ReadHeaders(Always, m), ReadHeaders(RefuseAfter(n), m))
    ensures m.events <= ReadHeaders(Always, m).0.events
    decreases |m.buf|
  {
    var pos := Find(m.buf, CRLF);
    if 0 < pos < |m.buf| {
      HeadersCut(n, Erase(m.(file := ReadHeaderLine(m.file, m.buf[..pos])), pos + 2));
    } else if pos == 0 && m.buf != [] {
      assert (m.events + [Header(m.file)])[..|m.events|] == m.events;
    }
  }

  lemma {:induction false} BodyCut(n: nat, d: string, m: Machine)
    requires d != [] && |m.events| <= n
    ensures StepCutAt(n, ReadBody(d, Always, m), ReadBody(d, RefuseAfter(n), m))
    ensures m.events <= ReadBody(d, Always, m).0.events
  {
    var pos := Find(m.buf, d);
    assert (m.events + [Content(m.buf[..pos])])[..|m.events|] == m.events;
    if |d| <= |m.buf| {
      assert (m.events + [Content(m.buf[..|m.buf| - |d|])])[..|m.events|] == m.events;
    }
  }

  lemma {:induction false} StepCut(n: nat, b: string, m: Machine)
    requires m.buf != [] && |m.events| <= n
    ensures StepCutAt(n, Step(b, Always, m), Step(b, RefuseAfter(n), m))
    ensures m.events <= Step(b, Always, m).0.events
  {
    if m.state == 2 {
      HeadersCut(n, m);
    } else if m.state == 3 {
      BodyCut(n, Delimiter(b), m);
    }
  }

  lemma {:induction false} EventsGrow(b: string, m: Machine)
    ensures m.events <= Run(b, Always, m).0.events
    decreases |m.buf|, if m.state == 1 then 1 else 0
  {
    if m.buf != [] {
      StepCut(|m.events|, b, m);
      var (k, o) := Step(b, Always, m);
      if o == Continue {
        EventsGrow(b, k);
      }
    }
  }

  lemma {:induction false} RunCut(n: nat, b: string, m: Machine)
    requires |m.events| <= n
    ensures var (full, ok) := Run(b, Always, m);
            var (r, rok) := Run(b, RefuseAfter(n), m);
            CutAt(n, full, ok, r, rok)
    decreases |m.buf|, if m.state == 1 then 1 else 0
  {
    if m.buf != [] {
      StepCut(n, b, m);
      var (k, o) := Step(b, Always, m);
      if o == Continue {
        if |k.events| <= n {
          RunCut(n, b, k);
        } else {
          EventsGrow(b, k);
          assert Run(b, Always, k).0.events[..n] == k.events[..n];
        }
      }
    }
  }

  lemma {:induction false} EventsGrowOn(b: string, m: Machine, chunks: seq<string>)
    ensures m.events <= ParseAll(b, Always, m, chunks).0.events
    decreases |chunks|
  {
    if chunks != [] {
      var m' := m.(buf := m.buf + chunks[0]);
      EventsGrow(b, m');
      EventsGrowOn(b, Run(b, Always, m').0, chunks[1..]);
    }
  }

  lemma {:induction false} ParseCut(n: nat, b: string, m: Machine, chunks: seq<string>)
    requires |m.events| <= n
    ensures var (full, ok) := ParseAll(b, Always, m, chunks);
            var (r, rok) := ParseAll(b, RefuseAfter(n), m, chunks);
            CutAt(n, full, ok, r, rok)
    decreases |chunks|
  {
    if chunks != [] {
      var m' := m.(buf := m.buf + chunks[0]);
      var k := Run(b, Always, m').0;
      RunCut(n, b, m');
      if |k.events| <= n {
        ParseCut(n, b, k, chunks[1..]);
      } else {
        EventsGrowOn(b, k, chunks[1..]);
        assert ParseAll(b, Always, k, chunks[1..]).0.events[..n] == k.events[..n];
      }
    }
  }

  /** When the callbacks refuse their call number `n`, counted from 0, the parse stops there with a failure, it is not
      valid, and exactly the calls before were accepted; when it is never made, the refusal changes nothing. */
  lemma {:induction false} RefusalCutsShort(n: nat, b: string, chunks: seq<string>)
    ensures var (full, ok) := ParseAll(b, Always, START, chunks);
            var (r, rok) := ParseAll(b, RefuseAfter(n), START, chunks);
            if |full.events| <= n then r == full && rok == ok
            else !rok && !r.valid && r.events == full.events[..n]
  {
    ParseCut(n, b, START, chunks);
  }

  // ----- the limit on header lines -----

  /** Before the first header line, which is too long, with no more of it in the buffer than the limit allows. */
  ghost predicate BeforeLongLine(m: Machine, future: string, line: string, rest: string) {
    && (m.state == 1 || m.state == 2)
    && m.buf + future == line + CRLF + rest
    && '\r' !in line && |line| > 8192
  }

  lemma {:induction false} LongLineStops(b: string, m: Machine, future: string, line: string, rest: string)
    requires BeforeLongLine(m, future, line, rest) && m.state == 2 && m.buf != []
    ensures var (n, o) := Step(b, Always, m); o == Return(false) || (o == Return(true) && n == m && |m.buf| <= 8192)
  {
    FirstCrlf(line, rest);
    FindAhead(m.buf, future, line, CRLF, rest);
  }

  lemma {:induction false} LongLineRun(b: string, m: Machine, future: string, line: string, rest: string)
    requires BeforeLongLine(m, future, line, rest)
    ensures var (n, ok) := Run(b, Always, m); ok ==> BeforeLongLine(n, future, line, rest) && |n.buf| <= 8192
  {
    if m.buf != [] {
      var m2 := if m.state == 1 then m.(file := NO_FILE, state := 2) else m;
      LongLineStops(b, m2, future, line, rest);
      assert m.state == 1 ==> Step(b, Always, m) == (m2, Continue);
    }
  }

  lemma {:induction false} LongLineParse(b: string, m: Machine, chunks: seq<string>, line: string, rest: string)
    requires BeforeLongLine(m, Concat(chunks), line, rest) && (chunks == [] ==> |m.buf| <= 8192)
    ensures !ParseAll(b, Always, m, chunks).1
    decreases |chunks|
  {
    assert |m.buf + Concat(chunks)| > 8192;
    if chunks != [] {
      var future := Concat(chunks[1..]);
      var m' := m.(buf := m.buf + chunks[0]);
      Assoc(m.buf, chunks[0], future);
      LongLineRun(b, m', future, line, rest);
      if Run(b, Always, m').1 {
        LongLineParse(b, Run(b, Always, m').0, chunks[1..], line, rest);
      }
    }
  }

  /** A form whose first header line is longer than 8192 characters is refused, however its text is cut. */
  lemma {:induction false} LongFirstLineIsRefused(b: string, chunk: string, chunks: seq<string>, line: string,
                                                  rest: string)
    requires FirstLine(b) <= chunk && '\r' !in line && |line| > 8192
    requires chunk[|FirstLine(b)|..] + Concat(chunks) == line + CRLF + rest
    ensures !ParseAll(b, Always, START, [chunk] + chunks).1
  {
    var m := START.(state := 1, buf := chunk[|FirstLine(b)|..]);
    FirstTurn(b, chunk, "");
    assert START.buf + chunk == chunk && ([chunk] + chunks)[1..] == chunks;
    LongLineRun(b, m, Concat(chunks), line, rest);
    assert chunk != [];
    assert Parse(b, Always, START, chunk) == Run(b, Always, m);
    if Run(b, Always, m).1 {
      LongLineParse(b, Run(b, Always, m).0, chunks, line, rest);
    }
  }
}
