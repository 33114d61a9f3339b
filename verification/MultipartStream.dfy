/** The parser as the program has it, with its buffer shifted and grown in place, and what it
    delivers of an item's content whatever the bytes are. */
module MultipartStream {
  import opened Text
  import opened Multipart

  // ----- content is delivered once, in order, and held back by at most one delimiter -----

  ghost predicate Free(s: string, d: string) { forall j: nat :: !OccursAt(s, d, j) }

  lemma {:induction false} SliceOfSlice(s: string, from: nat, to: nat, j: nat, n: nat)
    requires from <= to <= |s| && j + n <= to - from
    ensures s[from..to][j..j + n] == s[from + j..from + j + n]
  {
    var a, b := s[from..to][j..j + n], s[from + j..from + j + n];
    assert |a| == |b| && forall i | 0 <= i < n :: a[i] == b[i];
  }

  lemma {:induction false} FreePart(s: string, d: string, from: nat, to: nat)
    requires from <= to <= |s| && Free(s, d)
    ensures Free(s[from..to], d)
  {
    forall j: nat ensures !OccursAt(s[from..to], d, j) {
      assert !OccursAt(s, d, from + j);
      if j + |d| <= to - from {
        SliceOfSlice(s, from, to, j, |d|);
      }
    }
  }

  /** Bytes held back after a call: everything, or exactly one delimiter's worth. */
  function Held(buf: string, d: string): nat { if |buf| < |d| then |buf| else |d| }

  lemma {:induction false} BodyRun(b: string, m: Machine)
    requires m.state == 3 && Free(m.buf, Delimiter(b))
    ensures var k := |m.buf| - Held(m.buf, Delimiter(b));
            var (n, ok) := Run(b, Always, m);
            && ok && n.state == 3 && n.buf == m.buf[k..]
            && ContentOf(n.events) == ContentOf(m.events) + m.buf[..k]
  {
    var d := Delimiter(b);
    var k := |m.buf| - Held(m.buf, d);
    if m.buf != "" {
      FindIs(m.buf, d, |m.buf|);
      assert Run(b, Always, m) == (ReadBody(d, Always, m).0, true);
      if k > 0 {
        ContentOfSnoc(m.events, m.buf[..k]);
      } else {
        assert m.buf[..0] == "" && m.buf[0..] == m.buf;
      }
    }
  }

  /** `sent` and what is still held make up the text received, and no more than a delimiter is held. */
  ghost predicate Streamed(b: string, m: Machine, text: string, n: Machine, sent: nat) {
    && n.state == 3 && sent <= |text|
    && n.buf == text[sent..] && ContentOf(n.events) == ContentOf(m.events) + text[..sent]
    && (sent > 0 ==> |n.buf| >= |Delimiter(b)|)
  }

  lemma {:induction false} StreamMore(b: string, m: Machine, text: string, m': Machine, k: nat, n: Machine, rest: nat)
    requires k <= |text| && ContentOf(m'.events) == ContentOf(m.events) + text[..k]
    requires Streamed(b, m', text[k..], n, rest)
    requires rest == 0 && k > 0 ==> |n.buf| >= |Delimiter(b)|
    ensures Streamed(b, m, text, n, k + rest)
  {
    Splice(text, k, rest);
  }

  /** One chunk of a text without a delimiter. */
  lemma {:induction false} ChunkStream(b: string, m: Machine, chunk: string, future: string,
                                       text: string) returns (k: nat)
    requires m.state == 3 && text == m.buf + (chunk + future) && Free(text, Delimiter(b))
    ensures var (n, ok) := Parse(b, Always, m, chunk);
            && ok && n.state == 3 && k <= |text| && n.buf + future == text[k..]
            && ContentOf(n.events) == ContentOf(m.events) + text[..k]
            && Free(n.buf + future, Delimiter(b))
            && |n.buf| <= |Delimiter(b)| && (k > 0 ==> |n.buf| == |Delimiter(b)|)
  {
    var d := Delimiter(b);
    var buf := m.buf + chunk;
    assert text == buf + future;
    assert text[0..|buf|] == buf;
    FreePart(text, d, 0, |buf|);
    BodyRun(b, m.(buf := buf));
    k := |buf| - Held(buf, d);
    assert buf[..k] == text[..k] && buf[k..] + future == text[k..];
    assert text[k..|text|] == text[k..];
    FreePart(text, d, k, |text|);
  }

  /** Without a delimiter in the text, the content callback gets a prefix of it, in order and once,
      and at most one delimiter's length is held back after each call. */
  lemma {:induction false} BodyStream(b: string, m: Machine, chunks: seq<string>) returns (sent: nat)
    requires m.state == 3 && Free(m.buf + Concat(chunks), Delimiter(b))
    ensures var (n, ok) := ParseAll(b, Always, m, chunks);
            ok && Streamed(b, m, m.buf + Concat(chunks), n, sent) && (chunks != [] ==> |n.buf| <= |Delimiter(b)|)
    decreases |chunks|
  {
    var text := m.buf + Concat(chunks);
    if chunks == [] {
      sent := 0;
      assert text == m.buf && text[0..] == text && text[..0] == "";
    } else {
      var future := Concat(chunks[1..]);
      var k := ChunkStream(b, m, chunks[0], future, text);
      var m' := Parse(b, Always, m, chunks[0]).0;
      var rest := BodyStream(b, m', chunks[1..]);
      var n := ParseAll(b, Always, m', chunks[1..]).0;
      assert chunks[1..] == [] ==> n == m';
      sent := k + rest;
      StreamMore(b, m, text, m', k, n, rest);
    }
  }

  lemma {:induction false} Splice(text: string, k: nat, rest: nat)
    requires k + rest <= |text|
    ensures text[k..][rest..] == text[k + rest..] && text[..k] + text[k..][..rest] == text[..k + rest]
  {
  }

  /** When the delimiter arrives, the content callback has received exactly the bytes before its
      first occurrence, and the machine leaves the content with the bytes after it. */
  lemma {:induction false} BodyEnds(b: string, m: Machine, chunks: seq<string>, last: string, q: nat)
    requires m.state == 3 && Free(m.buf + Concat(chunks), Delimiter(b))
    requires var text := m.buf + Concat(chunks) + last; q < |text| && FirstAt(text, Delimiter(b), q)
    ensures Ended(b, m, ParseAll(b, Always, m, chunks).0, m.buf + Concat(chunks) + last, last, q)
  {
    var sent := BodyStream(b, m, chunks);
    LastChunk(b, m, ParseAll(b, Always, m, chunks).0, m.buf + Concat(chunks), last, sent, q);
  }

  /** The turn of the loop on `n` with the chunk `last` appended ends the content at `q`. */
  ghost predicate Ended(b: string, m: Machine, n: Machine, text: string, last: string, q: nat) {
    && q + |Delimiter(b)| <= |text|
    && n.buf + last != ""
    && var (r, o) := Step(b, Always, n.(buf := n.buf + last));
    && o == Continue && r.state == 4 && r.buf == text[q + |Delimiter(b)|..]
    && ContentOf(r.events) == ContentOf(m.events) + text[..q]
  }

  lemma {:induction false} LastChunk(b: string, m: Machine, n: Machine, before: string, last: string, sent: nat, q: nat)
    requires Streamed(b, m, before, n, sent) && Free(before, Delimiter(b))
    requires q < |before + last| && FirstAt(before + last, Delimiter(b), q)
    ensures Ended(b, m, n, before + last, last, q)
  {
    TailOfAppend(before, last, sent);
    NotBeforeTheEnd(before, last, Delimiter(b), q);
    FoundInTail(before + last, Delimiter(b), sent, q);
    LeaveBody(Delimiter(b), n.(buf := n.buf + last), before + last, sent, q);
    BodySoFar(m.events, n.events, before + last, sent, q);
  }

  lemma {:induction false} LeaveBody(d: string, n: Machine, text: string, sent: nat, q: nat)
    requires n.state == 3 && d != "" && sent <= q && q + |d| <= |text|
    requires n.buf == text[sent..] && Find(n.buf, d) == q - sent
    ensures ReadBody(d, Always, n) ==
            (n.(state := 4, buf := text[q + |d|..], events := n.events + [Content(text[sent..q])]), Continue)
  {
    assert n.buf[..q - sent] == text[sent..q];
    assert n.buf[q - sent + |d|..] == text[q + |d|..];
  }

  lemma {:induction false} BodySoFar(events: seq<Event>, events': seq<Event>, text: string, sent: nat, q: nat)
    requires sent <= q <= |text| && ContentOf(events') == ContentOf(events) + text[..sent]
    ensures ContentOf(events' + [Content(text[sent..q])]) == ContentOf(events) + text[..q]
  {
    ContentOfSnoc(events', text[sent..q]);
    Joined(ContentOf(events), text, sent, q);
  }

  lemma {:induction false} Joined(had: string, text: string, sent: nat, q: nat)
    requires sent <= q <= |text|
    ensures (had + text[..sent]) + text[sent..q] == had + text[..q]
  {
  }

  lemma {:induction false} TailOfAppend(before: string, last: string, sent: nat)
    requires sent <= |before|
    ensures before[sent..] + last == (before + last)[sent..] && before[..sent] == (before + last)[..sent]
  {
  }

  lemma {:induction false} NotBeforeTheEnd(before: string, last: string, d: string, q: nat)
    requires Free(before, d) && OccursAt(before + last, d, q)
    ensures q + |d| > |before|
  {
    if q + |d| <= |before| {
      assert before[q..q + |d|] == (before + last)[q..q + |d|];
      assert OccursAt(before, d, q);
    }
  }

  lemma {:induction false} PrefixOccurs(text: string, s: string)
    ensures OccursAt(text, s, 0) <==> s <= text
  {
  }

  /** A complete header line is taken off the buffer. */
  lemma {:induction false} HeaderLineTaken(p: Patience, m: Machine, pos: nat)
    requires m.state == 2 && pos == Find(m.buf, CRLF) && 0 < pos < |m.buf|
    ensures ReadHeaders(p, m) == ReadHeaders(p, LineTaken(m, pos))
  {
  }

  ghost function LineTaken(m: Machine, pos: nat): Machine
    requires pos + 2 <= |m.buf|
  {
    m.(file := ReadHeaderLine(m.file, m.buf[..pos]), buf := m.buf[pos + 2..])
  }

  lemma {:induction false} OccurrenceStarts(text: string, s: string, i: nat)
    requires s != "" && i < |text| && text[i] != s[0]
    ensures !OccursAt(text, s, i)
  {
    assert i + |s| <= |text| ==> text[i..i + |s|][0] == text[i];
  }

  lemma {:induction false} FoundInTail(text: string, d: string, sent: nat, q: nat)
    requires sent <= q < |text| && FirstAt(text, d, q)
    ensures Find(text[sent..], d) == q - sent
  {
    var tail := text[sent..|text|];
    assert tail == text[sent..];
    forall j: nat | j < q - sent ensures !OccursAt(tail, d, j) {
      assert !OccursAt(text, d, sent + j);
      if j + |d| <= |tail| {
        SliceOfSlice(text, sent, |text|, j, |d|);
      }
    }
    SliceOfSlice(text, sent, |text|, q - sent, |d|);
    assert tail[q - sent..q - sent + |d|] == text[q..q + |d|];
    FindIs(tail, d, q - sent);
  }

  // ----- the parser as the program has it -----

  /** The two callbacks: they log what they accept and refuse once their patience is exhausted. */
  class Callbacks {
    const patience: Patience
    var events: seq<Event>

    constructor (patience: Patience)
      ensures this.patience == patience && events == []
    {
      this.patience := patience;
      events := [];
    }

    method Call(e: Event) returns (accepted: bool)
      modifies this
      ensures accepted == (patience.Always? || |old(events)| < patience.calls)
      ensures events == if accepted then old(events) + [e] else old(events)
    {
      accepted := patience.Always? || |events| < patience.calls;
      if accepted {
        events := events + [e];
      }
    }
  }

  class MultipartFormDataParser {
    var boundary: string
    var dashBoundaryCrlf: string
    var crlfDashBoundary: string
    var state: nat
    var isValid: bool
    var file: FormItem
    var buf: array<char>
    var bufSpos: nat
    var bufEpos: nat

    ghost predicate Valid()
      reads this
    {
      && bufSpos <= bufEpos <= buf.Length
      && dashBoundaryCrlf == FirstLine(boundary)
      && crlfDashBoundary == Delimiter(boundary)
    }

    function Buffered(): (s: string)
      requires Valid()
      reads this, buf
      ensures |s| == BufSize()
    {
      buf[bufSpos..bufEpos]
    }

    ghost function Abs(events: seq<Event>): Machine
      requires Valid()
      reads this, buf
    {
      Machine(state, isValid, file, Buffered(), events)
    }

    constructor (boundary: string)
      ensures Valid() && fresh(buf) && this.boundary == boundary
      ensures Abs([]) == START
    {
      this.boundary := boundary;
      dashBoundaryCrlf := FirstLine(boundary);
      crlfDashBoundary := Delimiter(boundary);
      state, isValid, file := 0, false, NO_FILE;
      buf := new char[0];
      bufSpos, bufEpos := 0, 0;
    }

    function BufSize(): nat
      requires Valid()
      reads this
    {
      bufEpos - bufSpos
    }

    method StartWith(spos: nat, s: string) returns (r: bool)
      requires Valid() && bufSpos <= spos <= bufEpos
      ensures r == OccursAt(Buffered(), s, spos - bufSpos)
    {
      ghost var text, at := Buffered(), spos - bufSpos;
      if bufEpos - spos < |s| { return false; }
      for i := 0 to |s|
        invariant forall k | 0 <= k < i :: buf[spos + k] == s[k]
      {
        if buf[i + spos] != s[i] {
          assert text[at..at + |s|][i] != s[i];
          return false;
        }
      }
      assert text[at..at + |s|] == s;
      return true;
    }

    /** The position of the first occurrence of `s`, or the buffer's size. */
    method BufFind(s: string) returns (pos: nat)
      requires Valid() && s != ""
      ensures FirstAt(Buffered(), s, pos) && pos == Find(Buffered(), s)
    {
      ghost var text := Buffered();
      var c := s[0];
      var off := bufSpos;
      while off < bufEpos
        invariant bufSpos <= off <= bufEpos
        invariant forall j: nat | j < off - bufSpos :: !OccursAt(text, s, j)
      {
        var p := off;
        while p < bufEpos && buf[p] != c
          invariant off <= p <= bufEpos
          invariant forall j: nat | j < p - bufSpos :: !OccursAt(text, s, j)
        {
          OccurrenceStarts(text, s, p - bufSpos);
          p := p + 1;
        }
        if p == bufEpos || |s| > bufEpos - p {
          FindIs(text, s, BufSize());
          return BufSize();
        }
        var here := StartWith(p, s);
        if here {
          FindIs(text, s, p - bufSpos);
          return p - bufSpos;
        }
        off := p + 1;
      }
      FindIs(text, s, BufSize());
      return BufSize();
    }

    method ShiftToFront()
      requires Valid()
      modifies this`bufSpos, this`bufEpos, buf
      ensures Valid() && bufSpos == 0 && Buffered() == old(Buffered())
    {
      var remaining := BufSize();
      if remaining > 0 && bufSpos > 0 {
        for i := 0 to remaining
          modifies buf
          invariant forall k | 0 <= k < i :: buf[k] == old(buf[bufSpos + k])
          invariant forall k | i <= k < buf.Length :: buf[k] == old(buf[k])
        {
          buf[i] := buf[bufSpos + i];
        }
      }
      bufSpos := 0;
      bufEpos := remaining;
    }

    method Resize(size: nat)
      requires Valid() && bufSpos == 0 && buf.Length < size
      modifies this`buf
      ensures Valid() && fresh(buf) && buf.Length == size && Buffered() == old(Buffered())
    {
      var grown := new char[size];
      forall k | 0 <= k < buf.Length { grown[k] := buf[k]; }
      buf := grown;
    }

    /** Copies `data` behind what is buffered. */
    method CopyIn(data: string)
      requires Valid() && bufSpos == 0 && bufEpos + |data| <= buf.Length
      modifies this`bufEpos, buf
      ensures Valid() && Buffered() == old(Buffered()) + data
    {
      ghost var before := Buffered();
      for i := 0 to |data|
        modifies buf
        invariant forall k | 0 <= k < |before| :: buf[k] == before[k]
        invariant forall k | 0 <= k < i :: buf[|before| + k] == data[k]
      {
        buf[bufEpos + i] := data[i];
      }
      bufEpos := bufEpos + |data|;
      assert forall k | |before| <= k < bufEpos :: buf[k] == data[k - |before|];
      assert Buffered() == before + data;
    }

    /** Shifts what is buffered to the front, grows the buffer when it is too small, and appends. */
    method BufAppend(data: string)
      requires Valid()
      modifies this`buf, this`bufSpos, this`bufEpos, buf
      ensures Valid() && (buf == old(buf) || fresh(buf))
      ensures Buffered() == old(Buffered()) + data
    {
      ShiftToFront();
      var remaining := BufSize();
      if remaining + |data| > buf.Length {
        Resize(remaining + |data|);
      }
      CopyIn(data);
    }

    method BufErase(size: nat)
      requires Valid() && size <= BufSize()
      modifies this`bufSpos
      ensures Valid() && Buffered() == old(Buffered())[size..]
    {
      bufSpos := bufSpos + size;
    }
  
    // The five states, one method each: a turn of the loop with its outcome.

    method InitialBoundary(ghost events: seq<Event>) returns (o: Outcome)
      requires Valid()
      modifies this`state, this`bufSpos
      ensures Valid()
      ensures (Abs(events), o) == SeekFirstLine(FirstLine(boundary), old(Abs(events)))
    {
      var pos := BufFind(dashBoundaryCrlf);
      BufErase(pos);
      if |dashBoundaryCrlf| > BufSize() { return Return(true); }
      var here := StartWith(bufSpos, dashBoundaryCrlf);
      PrefixOccurs(Buffered(), dashBoundaryCrlf);
      if !here { return Return(false); }
      BufErase(|dashBoundaryCrlf|);
      state := 1;
      return Continue;
    }

    method TakeHeaderLine(pos: nat, ghost events: seq<Event>)
      requires Valid() && pos + 2 <= BufSize()
      modifies this`file, this`bufSpos
      ensures Valid() && Abs(events) == LineTaken(old(Abs(events)), pos)
    {
      file := ReadHeaderLine(file, Buffered()[..pos]);
      BufErase(pos + |CRLF|);
    }

    /** Hands an event to a callback; when it is accepted, `size` bytes leave the buffer. */
    method Deliver(cb: Callbacks, e: Event, size: nat) returns (accepted: bool)
      requires Valid() && size <= BufSize()
      modifies this`isValid, this`bufSpos, cb
      ensures Valid() && accepted == Accepts(cb.patience, old(Abs(cb.events)))
      ensures Abs(cb.events) ==
              if accepted then Erase(Emit(old(Abs(cb.events)), e), size) else old(Abs(cb.events)).(valid := false)
    {
      accepted := cb.Call(e);
      if accepted {
        BufErase(size);
      } else {
        isValid := false;
      }
    }

    method Headers(cb: Callbacks) returns (o: Outcome)
      requires Valid() && state == 2
      modifies this`state, this`isValid, this`file, this`bufSpos, cb
      ensures Valid()
      ensures (Abs(cb.events), o) == ReadHeaders(cb.patience, old(Abs(cb.events)))
    {
      ghost var want := ReadHeaders(cb.patience, Abs(cb.events));
      var pos := BufFind(CRLF);
      while 0 < pos < BufSize()
        modifies this`file, this`bufSpos
        invariant Valid() && state == 2
        invariant pos == Find(Buffered(), CRLF)
        invariant ReadHeaders(cb.patience, Abs(cb.events)) == want
        decreases BufSize()
      {
        HeaderLineTaken(cb.patience, Abs(cb.events), pos);
        TakeHeaderLine(pos, cb.events);
        pos := BufFind(CRLF);
      }
      if pos >= BufSize() { return Return(true); }
      var accepted := Deliver(cb, Header(file), |CRLF|);
      if !accepted { return Return(false); }
      state := 3;
      return Continue;
    }

    method Body(cb: Callbacks) returns (o: Outcome)
      requires Valid()
      modifies this`state, this`isValid, this`bufSpos, cb
      ensures Valid()
      ensures (Abs(cb.events), o) == ReadBody(Delimiter(boundary), cb.patience, old(Abs(cb.events)))
    {
      if |crlfDashBoundary| > BufSize() { return Return(true); }
      var pos := BufFind(crlfDashBoundary);
      if pos < BufSize() {
        var accepted := Deliver(cb, Content(Buffered()[..pos]), pos + |crlfDashBoundary|);
        if !accepted { return Return(false); }
        state := 4;
        return Continue;
      }
      var len := BufSize() - |crlfDashBoundary|;
      if len > 0 {
        var accepted := Deliver(cb, Content(Buffered()[..len]), len);
        if !accepted { return Return(false); }
      }
      return Return(true);
    }

    method Boundary(ghost events: seq<Event>) returns (o: Outcome)
      requires Valid()
      modifies this`state, this`isValid, this`bufSpos
      ensures Valid()
      ensures (Abs(events), o) == ReadAfterBoundary(old(Abs(events)))
    {
      ghost var text := Buffered();
      if |CRLF| > BufSize() { return Return(true); }
      var here := StartWith(bufSpos, CRLF);
      PrefixOccurs(text, CRLF);
      if here {
        BufErase(|CRLF|);
        state := 1;
        return Continue;
      }
      if |DASH_CRLF| > BufSize() { return Return(true); }
      here := StartWith(bufSpos, DASH_CRLF);
      PrefixOccurs(text, DASH_CRLF);
      if here {
        BufErase(|DASH_CRLF|);
        isValid := true;
        BufErase(BufSize());
        return Continue;
      }
      return Return(true);
    }

    /** One turn of the loop: what the state calls for. */
    method Turn(cb: Callbacks) returns (o: Outcome)
      requires Valid() && BufSize() > 0
      modifies this`state, this`isValid, this`file, this`bufSpos, cb
      ensures Valid()
      ensures (Abs(cb.events), o) == Step(boundary, cb.patience, old(Abs(cb.events)))
    {
      if state == 0 {
        o := InitialBoundary(cb.events);
      } else if state == 1 {
        file := NO_FILE;
        state := 2;
        o := Continue;
      } else if state == 2 {
        var pos := BufFind(CRLF);
        if pos > HEADER_MAX_LENGTH { return Return(false); }
        o := Headers(cb);
      } else if state == 3 {
        o := Body(cb);
      } else {
        o := Boundary(cb.events);
      }
    }

    /** One chunk: the machine `Parse` describes, on a buffer changed in place. The loop ends because
        every turn shrinks what is buffered, or turns state 1 into state 2. */
    method Parse(data: string, cb: Callbacks) returns (ok: bool)
      requires Valid()
      modifies this, buf, cb
      ensures Valid() && (buf == old(buf) || fresh(buf)) && boundary == old(boundary)
      ensures (Abs(cb.events), ok) == Multipart.Parse(boundary, cb.patience, old(Abs(cb.events)), data)
    {
      BufAppend(data);
      ghost var start := Abs(cb.events);
      while BufSize() > 0
        modifies this`state, this`isValid, this`file, this`bufSpos, cb
        invariant Valid()
        invariant Run(boundary, cb.patience, Abs(cb.events)) == Run(boundary, cb.patience, start)
        decreases BufSize(), if state == 1 then 1 else 0
      {
        var o := Turn(cb);
        if o != Continue { return o.ok; }
      }
      return true;
    }
  }
}
