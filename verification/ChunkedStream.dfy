/** The chunked reader and writer as they run: a buffered socket stream, a line reader with a fixed and a growing
    buffer, and the loops on top of them. */
module ChunkedStream {
  import opened Text
  import opened Numerals
  import opened Chunked

  const RECV_BUFSIZ: nat := 4096
  const READ_BUFF_SIZE: nat := 4096

  /** A connection whose peer sends `incoming` and then closes it. Unless it is `reliable`, a read may time out. */
  class Socket {
    var incoming: string
    const reliable: bool

    constructor (bytes: string, reliable: bool)
      ensures incoming == bytes && this.reliable == reliable
    {
      incoming := bytes;
      this.reliable := reliable;
    }

    /** `select_read` */
    method IsReadable() returns (ok: bool)
      ensures reliable ==> ok
    {
      ok := true;
      if !reliable {
        ok := *;
      }
    }

    /** `recv`: any non-empty prefix of what is still to come, 0 at the end, or an error. */
    method Recv(buf: array<char>, size: nat) returns (n: int)
      requires 0 < size <= buf.Length
      modifies this`incoming, buf
      ensures n < 0 ==> !reliable && incoming == old(incoming) && buf[..] == old(buf[..])
      ensures n >= 0 ==> n <= size && n <= |old(incoming)| && (n == 0 <==> old(incoming) == "")
      ensures n >= 0 ==> buf[..n] == old(incoming)[..n] && incoming == old(incoming)[n..]
    {
      var ready := IsReadable();
      if !ready {
        return -1;
      }
      if incoming == "" {
        return 0;
      }
      n :| 0 < n <= size && n <= |incoming|;
      var i := 0;
      while i < n
        modifies buf
        invariant 0 <= i <= n
        invariant forall j | 0 <= j < i :: buf[j] == incoming[j]
      {
        buf[i] := incoming[i];
        i := i + 1;
      }
      incoming := incoming[n..];
    }
  }

  class SocketStream {
    const socket: Socket
    const readBuff: array<char>
    var readBuffOff: nat
    var readBuffContentSize: nat

    ghost predicate Valid()
      reads this
    {
      readBuff.Length == READ_BUFF_SIZE && readBuffOff <= readBuffContentSize <= READ_BUFF_SIZE
    }

    /** The bytes received but not yet read, and then those still to be received. */
    ghost function Unread(): string
      requires Valid()
      reads this, readBuff, socket
    {
      readBuff[readBuffOff..readBuffContentSize] + socket.incoming
    }

    constructor (socket: Socket)
      ensures Valid() && this.socket == socket && fresh(readBuff) && Unread() == socket.incoming
    {
      this.socket := socket;
      readBuff := new char[READ_BUFF_SIZE];
      readBuffOff := 0;
      readBuffContentSize := 0;
    }

    /** Copies buffered bytes. */
    method TakeBuffered(buf: array<char>, n: nat)
      requires Valid() && buf != readBuff
      requires n <= buf.Length && readBuffOff + n <= readBuffContentSize
      modifies this`readBuffOff, buf
      ensures Valid() && readBuffOff == old(readBuffOff) + n
      ensures buf[..n] == old(Unread())[..n] && Unread() == old(Unread())[n..]
    {
      ghost var was := Unread();
      var i := 0;
      while i < n
        modifies buf
        invariant i <= n
        invariant forall j | 0 <= j < i :: buf[j] == readBuff[readBuffOff + j]
      {
        buf[i] := readBuff[readBuffOff + i];
        i := i + 1;
      }
      readBuffOff := readBuffOff + n;
      assert buf[..n] == was[..n];
    }

    /** `SocketStream::read`: bytes are delivered in order, none twice and none lost. */
    method Read(buf: array<char>, size: nat) returns (n: int)
      requires Valid() && buf != readBuff && 0 < size <= buf.Length
      modifies this`readBuffOff, this`readBuffContentSize, socket`incoming, readBuff, buf
      ensures Valid()
      ensures n < 0 ==> !socket.reliable && Unread() == old(Unread())
      ensures n >= 0 ==> n <= size && n <= |old(Unread())| && (n == 0 <==> old(Unread()) == "")
      ensures n >= 0 ==> buf[..n] == old(Unread())[..n] && Unread() == old(Unread())[n..]
    {
      if readBuffOff < readBuffContentSize {
        var remaining := readBuffContentSize - readBuffOff;
        n := if size <= remaining then size else remaining;
        TakeBuffered(buf, n);
        return;
      }
      assert Unread() == socket.incoming;
      var ready := socket.IsReadable();
      if !ready {
        return -1;
      }
      readBuffOff := 0;
      readBuffContentSize := 0;
      if size < READ_BUFF_SIZE {
        n := ReadThroughBuffer(buf, size);
      } else {
        n := socket.Recv(buf, size);
        assert Unread() == socket.incoming;
      }
    }

    /** A small read fills the buffer and takes its part from it. */
    method ReadThroughBuffer(buf: array<char>, size: nat) returns (n: int)
      requires Valid() && buf != readBuff && 0 < size <= buf.Length
      requires readBuffOff == 0 && readBuffContentSize == 0
      modifies this`readBuffOff, this`readBuffContentSize, socket`incoming, readBuff, buf
      ensures Valid()
      ensures n < 0 ==> !socket.reliable && Unread() == old(Unread())
      ensures n >= 0 ==> n <= size && n <= |old(Unread())| && (n == 0 <==> old(Unread()) == "")
      ensures n >= 0 ==> buf[..n] == old(Unread())[..n] && Unread() == old(Unread())[n..]
    {
      ghost var was := Unread();
      assert was == socket.incoming;
      var got := socket.Recv(readBuff, READ_BUFF_SIZE);
      if got <= 0 {
        assert Unread() == socket.incoming;
        return got;
      }
      readBuffContentSize := got;
      assert Unread() == was by {
        assert readBuff[..got] == readBuff[0..got] == was[..got];
        assert was == was[..got] + was[got..];
      }
      n := if got <= size then got else size;
      TakeBuffered(buf, n);
      if got <= size {
        readBuffOff := 0;
        readBuffContentSize := 0;
        assert Unread() == was[n..];
      }
    }
  }

  /** `stream_line_reader` over a caller's fixed buffer. */
  class LineReader {
    const stream: SocketStream
    const fixedBuffer: array<char>
    var fixedBufferUsedSize: nat
    var growable: string
    const byte: array<char>

    ghost predicate Valid()
      reads this, stream, fixedBuffer
    {
      && stream.Valid()
      && fixedBuffer.Length > 1 && byte.Length == 1
      && fixedBuffer != stream.readBuff && byte != stream.readBuff && fixedBuffer != byte
      && fixedBufferUsedSize < fixedBuffer.Length
      && (fixedBufferUsedSize > 0 ==> fixedBuffer[fixedBufferUsedSize] == 0 as char)
      && (growable != "" ==> fixedBufferUsedSize == fixedBuffer.Length - 1)
    }

    /** What `ptr` and `size` show. */
    function Line(): string
      requires Valid()
      reads this, stream, fixedBuffer
    {
      if growable == "" then fixedBuffer[..fixedBufferUsedSize] else growable
    }

    constructor (stream: SocketStream, fixedBuffer: array<char>)
      requires stream.Valid() && fixedBuffer.Length > 1 && fixedBuffer != stream.readBuff
      ensures Valid() && Line() == "" && this.stream == stream && this.fixedBuffer == fixedBuffer && fresh(byte)
    {
      this.stream := stream;
      this.fixedBuffer := fixedBuffer;
      fixedBufferUsedSize := 0;
      growable := "";
      byte := new char[1];
    }

    method Append(c: char)
      requires Valid()
      modifies this`fixedBufferUsedSize, this`growable, fixedBuffer
      ensures Valid() && Line() == old(Line()) + [c]
    {
      if fixedBufferUsedSize < fixedBuffer.Length - 1 {
        fixedBuffer[fixedBufferUsedSize] := c;
        fixedBufferUsedSize := fixedBufferUsedSize + 1;
        fixedBuffer[fixedBufferUsedSize] := 0 as char;
      } else {
        if growable == "" {
          growable := fixedBuffer[..fixedBufferUsedSize];
        }
        growable := growable + [c];
      }
    }

    /** `getline`: the first line of what is to come, or false at the end. */
    method GetLine() returns (ok: bool)
      requires Valid()
      modifies this`fixedBufferUsedSize, this`growable, fixedBuffer, byte
      modifies stream`readBuffOff, stream`readBuffContentSize, stream.socket`incoming, stream.readBuff
      ensures Valid()
      ensures ok ==> var s := old(stream.Unread());
                     s != "" && Line() == s[..LineLength(s)] && stream.Unread() == s[LineLength(s)..]
      ensures !ok && stream.socket.reliable ==> old(stream.Unread()) == "" && stream.Unread() == ""
    {
      fixedBufferUsedSize := 0;
      growable := "";
      ghost var s := stream.Unread();
      assert s[..0] == "" && s[0..] == s;
      var i := 0;
      while true
        invariant Valid() && i <= |s|
        invariant Line() == s[..i] && stream.Unread() == s[i..]
        invariant forall j | 0 <= j < i :: s[j] != '\n'
        decreases |s| - i
      {
        var n := stream.Read(byte, 1);
        if n < 0 {
          return false;
        } else if n == 0 {
          assert i == |s|;
          if i == 0 {
            return false;
          }
          break;
        }
        assert byte[..1] == s[i..][..1] && byte[0] == s[i];
        assert s[i..][1..] == s[i + 1..] && s[..i + 1] == s[..i] + [s[i]];
        Append(byte[0]);
        i := i + 1;
        if byte[0] == '\n' {
          break;
        }
      }
      LineLengthIs(s, i);
      return true;
    }
  }

  lemma {:induction false} LineLengthIs(s: string, i: nat)
    requires 0 < i <= |s| && (forall j | 0 <= j < i - 1 :: s[j] != '\n') && (i == |s| || s[i - 1] == '\n')
    ensures LineLength(s) == i
  {
    var n := LineLength(s);
  }

  /** A content receiver that takes everything. */
  class Receiver {
    var received: string

    constructor ()
      ensures received == ""
    {
      received := "";
    }

    method Take(buf: array<char>, n: nat) returns (ok: bool)
      requires n <= buf.Length
      modifies this
      ensures ok && received == old(received) + buf[..n]
    {
      received := received + buf[..n];
      ok := true;
    }
  }

  /** `read_content_with_length` */
  method ReadContentWithLength(stream: SocketStream, len: nat, out: Receiver) returns (ok: bool)
    requires stream.Valid()
    modifies stream`readBuffOff, stream`readBuffContentSize, stream.socket`incoming, stream.readBuff, out
    ensures stream.Valid() && old(out.received) <= out.received
    ensures ok ==> var s := old(stream.Unread());
                   len <= |s| && out.received == old(out.received) + s[..len] && stream.Unread() == s[len..]
    ensures !ok && stream.socket.reliable ==>
              var s := old(stream.Unread()); |s| < len && out.received == old(out.received) + s && stream.Unread() == ""
  {
    var buf := new char[RECV_BUFSIZ];
    ghost var s, before := stream.Unread(), out.received;
    var r := 0;
    assert s[..0] == "" && s[0..] == s;
    while r < len
      invariant stream.Valid() && r <= len && r <= |s|
      invariant out.received == before + s[..r] && stream.Unread() == s[r..]
    {
      var size := if len - r <= RECV_BUFSIZ then len - r else RECV_BUFSIZ;
      var n := stream.Read(buf, size);
      if n <= 0 {
        assert n == 0 ==> s[..r] == s;
        return false;
      }
      assert s[r..][..n] == s[r..r + n] && s[..r + n] == s[..r] + s[r..r + n] && s[r..][n..] == s[r + n..];
      var taken := out.Take(buf, n);
      if !taken {
        return false;
      }
      r := r + n;
    }
    return true;
  }

  /** What the reader has handed on, added to what reading the rest gives. */
  lemma {:induction false} PrependTwice(a: string, b: string, r: Reading)
    ensures Prepend(a, Prepend(b, r)) == Prepend(a + b, r)
  {
    assert a + (b + r.data) == (a + b) + r.data;
  }

  lemma {:induction false} Nothing(a: string, r: Reading)
    ensures a + "" == a && Prepend("", r) == r
  {
    assert "" + r.data == r.data;
  }

  /** Reading `cur` after `done` bytes is what was to be read. */
  ghost predicate Remains(whole: Reading, done: string, cur: string) { Prepend(done, ReadChunks(cur)) == whole }

  lemma {:induction false} OneChunkOn(whole: Reading, done: string, cur: string, data: string, next: string)
    requires Remains(whole, done, cur) && ReadChunks(cur) == Prepend(data, ReadChunks(next))
    ensures Remains(whole, done + data, next)
  {
    PrependTwice(done, data, ReadChunks(next));
  }

  lemma {:induction false} LastChunk(whole: Reading, done: string, cur: string, r: Reading)
    requires Remains(whole, done, cur) && ReadChunks(cur) == r
    ensures Reading(r.ok, done + r.data, r.rest) == whole
  {
  }

  /** The reading of the line at the start of `s` and of what follows it. */
  ghost predicate LineRead(reader: LineReader, s: string)
    reads reader, reader.stream, reader.fixedBuffer, reader.stream.readBuff, reader.stream.socket
  {
    && reader.Valid() && s != ""
    && reader.Line() == s[..LineLength(s)] && reader.stream.Unread() == s[LineLength(s)..]
  }

  /** The line after the last chunk. */
  method ReadLast(lineReader: LineReader) returns (ok: bool)
    requires lineReader.Valid()
    modifies lineReader`fixedBufferUsedSize, lineReader`growable, lineReader.fixedBuffer, lineReader.byte
    modifies lineReader.stream`readBuffOff, lineReader.stream`readBuffContentSize
    modifies lineReader.stream.socket`incoming, lineReader.stream.readBuff
    ensures lineReader.Valid()
    ensures ok || lineReader.stream.socket.reliable ==>
              Reading(ok, "", lineReader.stream.Unread()) == ReadTerminator(old(lineReader.stream.Unread()))
  {
    ok := lineReader.GetLine();
    if ok {
      ok := lineReader.Line() == CRLF;
    }
  }

  /** The line after a chunk, and the size line of the next. */
  method ReadChunkEnd(lineReader: LineReader) returns (ok: bool, more: bool)
    requires lineReader.Valid()
    modifies lineReader`fixedBufferUsedSize, lineReader`growable, lineReader.fixedBuffer, lineReader.byte
    modifies lineReader.stream`readBuffOff, lineReader.stream`readBuffContentSize
    modifies lineReader.stream.socket`incoming, lineReader.stream.readBuff
    ensures lineReader.Valid()
    ensures more ==> var s := old(lineReader.stream.Unread());
                     s != "" && AfterChunk(s) == ReadChunks(s[LineLength(s)..]) &&
                         LineRead(lineReader, s[LineLength(s)..])
    ensures !more && (ok || lineReader.stream.socket.reliable) ==>
              Reading(ok, "", lineReader.stream.Unread()) == AfterChunk(old(lineReader.stream.Unread()))
  {
    more := false;
    ok := lineReader.GetLine();
    if !ok {
      return;
    }
    if lineReader.Line() != CRLF {
      return;
    }
    ok := lineReader.GetLine();
    more := ok;
  }

  /** The reading of a chunk of `size` bytes and of what follows it. */
  function SizedReading(size: nat, body: string): Reading {
    if |body| < size then Reading(false, body, "") else Prepend(body[..size], AfterChunk(body[size..]))
  }

  /** How the size line decides the reading of what follows it. */
  lemma {:induction false} SizeDecides(cur: string)
    requires cur != ""
    ensures var n := LineLength(cur);
            var size, body := ReadSize(cur[..n]), cur[n..];
            && |body| < |cur|
            && ReadChunks(cur) ==
                 if size.None? || size.value == ULONG_MAX then Reading(false, "", body)
                 else if size.value == 0 then ReadTerminator(body)
                 else SizedReading(size.value, body)
  {
  }

  /** A chunk whose size has been read. */
  method ReadSized(lineReader: LineReader, out: Receiver, size: nat)
    returns (ok: bool, more: bool, ghost data: string, ghost next: string)
    requires lineReader.Valid()
    modifies lineReader`fixedBufferUsedSize, lineReader`growable, lineReader.fixedBuffer, lineReader.byte
    modifies lineReader.stream`readBuffOff, lineReader.stream`readBuffContentSize
    modifies lineReader.stream.socket`incoming, lineReader.stream.readBuff, out
    ensures lineReader.Valid() && out.received == old(out.received) + data
    ensures more ==> var body := old(lineReader.stream.Unread());
                     |next| <= |body| && LineRead(lineReader, next) &&
                     SizedReading(size, body) == Prepend(data, ReadChunks(next))
    ensures !more && (ok || lineReader.stream.socket.reliable) ==>
              Reading(ok, data, lineReader.stream.Unread()) == SizedReading(size, old(lineReader.stream.Unread()))
  {
    ghost var body, before := lineReader.stream.Unread(), out.received;
    ok := ReadContentWithLength(lineReader.stream, size, out);
    data, next, more := out.received[|before|..], "", false;
    if ok {
      ghost var after := body[size..];
      assert data == body[..size];
      ok, more := ReadChunkEnd(lineReader);
      next := if after == "" then "" else after[LineLength(after)..];
      Nothing(data, Reading(ok, "", ""));
    }
  }

  /** One turn of the loop: a chunk whose size line has been read, or the end. `data` is what it handed on. */
  method ReadChunk(lineReader: LineReader, out: Receiver, ghost cur: string)
    returns (ok: bool, more: bool, ghost data: string, ghost next: string)
    requires LineRead(lineReader, cur)
    modifies lineReader`fixedBufferUsedSize, lineReader`growable, lineReader.fixedBuffer, lineReader.byte
    modifies lineReader.stream`readBuffOff, lineReader.stream`readBuffContentSize
    modifies lineReader.stream.socket`incoming, lineReader.stream.readBuff, out
    ensures lineReader.Valid() && out.received == old(out.received) + data
    ensures more ==> |next| < |cur| && LineRead(lineReader, next) && ReadChunks(cur) == Prepend(data, ReadChunks(next))
    ensures !more && (ok || lineReader.stream.socket.reliable) ==>
              Reading(ok, data, lineReader.stream.Unread()) == ReadChunks(cur)
  {
    var size := ReadSize(lineReader.Line());
    ok, more, data, next := false, false, "", "";
    SizeDecides(cur);
    Nothing(out.received, Reading(ok, "", ""));
    if size.None? || size.value == ULONG_MAX {
      return;
    }
    if size.value == 0 {
      ok := ReadLast(lineReader);
    } else {
      ok, more, data, next := ReadSized(lineReader, out, size.value);
    }
  }

  /** `read_content_chunked`: for every delivery schedule, what `ReadChunks` says of the bytes to come. */
  method ReadContentChunked(stream: SocketStream, out: Receiver) returns (ok: bool)
    requires stream.Valid()
    modifies stream`readBuffOff, stream`readBuffContentSize, stream.socket`incoming, stream.readBuff, out
    ensures stream.Valid()
    ensures old(out.received) <= out.received
    ensures ok || stream.socket.reliable ==>
              Reading(ok, out.received[|old(out.received)|..], stream.Unread()) == ReadChunks(old(stream.Unread()))
  {
    var buf := new char[16];
    var lineReader := new LineReader(stream, buf);
    ghost var cur := stream.Unread();
    ghost var whole, before, done := ReadChunks(cur), out.received, "";
    Nothing(before, whole);
    ok := lineReader.GetLine();
    if !ok {
      return;
    }
    var more := true;
    while more
      invariant lineReader.Valid() && lineReader.stream == stream && lineReader.fixedBuffer == buf
      invariant fresh(lineReader.byte)
      invariant out.received == before + done
      invariant more ==> LineRead(lineReader, cur) && Remains(whole, done, cur)
      invariant !more && (ok || stream.socket.reliable) ==> Reading(ok, done, stream.Unread()) == whole
      decreases more, |cur|
    {
      ghost var data, next;
      ok, more, data, next := ReadChunk(lineReader, out, cur);
      Assoc(before, done, data);
      if more {
        OneChunkOn(whole, done, cur, data, next);
      } else if ok || stream.socket.reliable {
        LastChunk(whole, done, cur, Reading(ok, data, stream.Unread()));
      }
      done := done + data;
      cur := next;
    }
    assert out.received[|before|..] == done;
  }

  // ----- the writer -----

  /** `from_i_to_hex` */
  method FromIToHex(size: nat) returns (hex: string)
    ensures hex == HexSize(size)
  {
    var n := size;
    hex := [DigitChar(n % 16, false)];
    n := n / 16;
    ghost var left := if n == 0 then "" else Print(n, 16, false);
    while n > 0
      invariant HexSize(size) == (if n == 0 then "" else Print(n, 16, false)) + hex
    {
      ghost var more := if n / 16 == 0 then "" else Print(n / 16, 16, false);
      assert Print(n, 16, false) == more + [DigitChar(n % 16, false)];
      Assoc(more, [DigitChar(n % 16, false)], hex);
      hex := [DigitChar(n % 16, false)] + hex;
      n := n / 16;
    }
  }

  /** The data sink that a content provider writes to. */
  class ChunkedSink {
    var dataAvailable: bool
    var offset: nat
    var sent: string

    constructor ()
      ensures dataAvailable && sent == "" && offset == 0
    {
      dataAvailable := true;
      offset := 0;
      sent := "";
    }

    method Write(data: string)
      modifies this
      ensures dataAvailable == Available(old(dataAvailable), [Op.Write(data)])
      ensures sent == old(sent) + Emitted(Op.Write(data)) && offset == old(offset) + |data|
    {
      dataAvailable := |data| > 0;
      offset := offset + |data|;
      if data == "" {
        Nothing(sent, Reading(true, "", ""));
      } else {
        var size := FromIToHex(|data|);
        sent := sent + (size + CRLF + data + CRLF);
      }
    }

    method Finish()
      modifies this
      ensures !dataAvailable && sent == old(sent) + LAST && offset == old(offset)
    {
      dataAvailable := false;
      sent := sent + LAST;
    }

    /** One call of the provider. */
    method Provide(ops: seq<Op>)
      modifies this
      ensures dataAvailable == Available(old(dataAvailable), ops)
      ensures sent == old(sent) + EmitAll(ops)
    {
      var i := 0;
      ghost var before := sent;
      assert ops[..0] == [];
      Nothing(before, Reading(true, "", ""));
      while i < |ops|
        invariant 0 <= i <= |ops|
        invariant dataAvailable == Available(old(dataAvailable), ops[..i])
        invariant sent == before + EmitAll(ops[..i])
      {
        match ops[i] {
          case Write(data) => Write(data);
          case Done => Finish();
        }
        EmitNext(ops, i, before);
        i := i + 1;
      }
      assert ops[..i] == ops;
    }
  }

  lemma {:induction false} EmitNext(ops: seq<Op>, i: nat, before: string)
    requires i < |ops|
    ensures before + EmitAll(ops[..i + 1]) == before + EmitAll(ops[..i]) + Emitted(ops[i])
    ensures forall available :: Available(available, ops[..i + 1]) == Available(available, [ops[i]])
  {
    assert ops[..i + 1] == ops[..i] + [ops[i]];
    EmitAppend(ops[..i], [ops[i]]);
    Nothing(Emitted(ops[i]), Reading(true, "", ""));
    Assoc(before, EmitAll(ops[..i]), Emitted(ops[i]));
  }

  lemma {:induction false} EmitAppend(a: seq<Op>, b: seq<Op>)
    ensures EmitAll(a + b) == EmitAll(a) + EmitAll(b)
  {
    if a == [] {
      assert a + b == b;
    } else {
      EmitAppend(a[1..], b);
      assert (a + b)[1..] == a[1..] + b;
      Assoc(Emitted(a[0]), EmitAll(a[1..]), EmitAll(b));
    }
  }

  /** After `i` calls, with the operations `done`, the run goes on with the other calls. */
  ghost predicate RunsOn(calls: seq<seq<Op>>, i: nat, done: seq<Op>)
    requires i <= |calls|
  {
    Executed(calls) == (Executed(calls[i..]).0, done + Executed(calls[i..]).1)
  }

  lemma {:induction false} RunStarts(calls: seq<seq<Op>>)
    ensures RunsOn(calls, 0, [])
  {
    assert calls[0..] == calls && [] + Executed(calls).1 == Executed(calls).1;
  }

  lemma {:induction false} RunStops(calls: seq<seq<Op>>, done: seq<Op>)
    requires RunsOn(calls, |calls|, done)
    ensures Executed(calls) == (false, done)
  {
    assert calls[|calls|..] == [] && done + [] == done;
  }

  lemma {:induction false} RunsOneMore(calls: seq<seq<Op>>, i: nat, done: seq<Op>)
    requires i < |calls| && RunsOn(calls, i, done)
    ensures if Available(true, calls[i]) then RunsOn(calls, i + 1, done + calls[i])
            else Executed(calls) == (true, done + calls[i])
  {
    assert calls[i..][1..] == calls[i + 1..] && calls[i..][0] == calls[i];
    var rest := Executed(calls[i + 1..]).1;
    assert (done + calls[i]) + rest == done + (calls[i] + rest);
  }

  /** `write_content_chunked`, for a provider that makes the given calls and then gives up. */
  method WriteContentChunked(calls: seq<seq<Op>>, sink: ChunkedSink) returns (ok: bool)
    requires sink.dataAvailable
    modifies sink
    ensures ok == Executed(calls).0
    ensures sink.sent == old(sink.sent) + EmitAll(Executed(calls).1)
  {
    var i := 0;
    ghost var before := sink.sent;
    ghost var done: seq<Op> := [];
    RunStarts(calls);
    Nothing(before, Reading(true, "", ""));
    while sink.dataAvailable
      invariant 0 <= i <= |calls|
      invariant sink.sent == before + EmitAll(done)
      invariant if sink.dataAvailable then RunsOn(calls, i, done) else Executed(calls) == (true, done)
      decreases sink.dataAvailable, |calls| - i
    {
      if i == |calls| {
        RunStops(calls, done);
        return false;
      }
      sink.Provide(calls[i]);
      EmitAppend(done, calls[i]);
      Assoc(before, EmitAll(done), EmitAll(calls[i]));
      RunsOneMore(calls, i, done);
      done := done + calls[i];
      i := i + 1;
    }
    return true;
  }

  /** A whole transfer; `left` is what then remains in the stream. Whatever calls the provider makes and however the
      socket delivers the bytes, the receiver gets exactly the payload, provided that the provider writes nothing empty
      and says `Done` only at the end. */
  method Transfer(calls: seq<seq<Op>>, follows: string) returns (ok: bool, received: string, ghost left: string)
    requires Executed(calls).0 && Sized(Executed(calls).1)
    requires forall i | 0 <= i < |Executed(calls).1| :: Executed(calls).1[i].Write? ==> Executed(calls).1[i].data != ""
    requires forall i | 0 <= i < |Executed(calls).1| - 1 :: Executed(calls).1[i].Write?
    ensures ok && received == Payload(Executed(calls).1) && left == follows
  {
    var sink := new ChunkedSink();
    var written := WriteContentChunked(calls, sink);
    Nothing(EmitAll(Executed(calls).1), Reading(true, "", ""));
    var socket := new Socket(sink.sent + follows, true);
    var stream := new SocketStream(socket);
    var out := new Receiver();
    WritesThenDone(calls, follows);
    assert sink.sent == EmitAll(Executed(calls).1);
    ok := ReadContentChunked(stream, out);
    received, left := out.received, stream.Unread();
    assert received[0..] == received;
  }
}
