/** The chunked transfer coding of section 7.1 of RFC 9112 as httplib.h writes and reads it (no compressor). */
module Chunked {
  import opened Wrappers
  import opened Scanning
  import opened Streams
  import Query

  const RECV_BUFSIZ := 16384
  const ULONG_MAX := 0xFFFF_FFFF_FFFF_FFFF

  // ---------------------------------------------------------------- hexadecimal lengths

  function HexDigit(n: int): char
    requires 0 <= n < 16
  {
    if n < 10 then (n + 48) as char else (n + 87) as char
  }

  function HexText(n: nat): (s: string)
    ensures s != "" && forall i :: 0 <= i < |s| ==> Query.HexValue(s[i]).Some?
  {
    if n < 16 then [HexDigit(n)] else HexText(n / 16) + [HexDigit(n % 16)]
  }

  method FromIToHex(size: nat) returns (ret: string)
    ensures ret == HexText(size)
  {
    ret := [HexDigit(size % 16)];
    var n := size / 16;
    while n > 0
      invariant HexText(size) == (if n > 0 then HexText(n) + ret else ret)
    {
      ghost var was := ret;
      ret := [HexDigit(n % 16)] + ret;
      n := n / 16;
      assert n > 0 ==> (HexText(n) + [ret[0]]) + was == HexText(n) + ret;
    }
  }

  /** A C string ends at its first NUL. */
  function CString(s: string): string { s[..FindFrom(s, ['\0'], 0)] }

  function HexScan(s: string, acc: nat): (nat, nat) {
    if s != "" && Query.HexValue(s[0]).Some? then
      var (v, n) := HexScan(s[1..], acc * 16 + Query.HexValue(s[0]).value);
      (v, n + 1)
    else (acc, 0)
  }

  /** `strtoul(s, &end, 16)`: nothing when no digit was read; ULONG_MAX on overflow. */
  function Strtoul(line: string): Option<nat> {
    var s := SkipSpace(CString(line));
    var negative := s != "" && s[0] == '-';
    var t := if s != "" && s[0] in "+-" then s[1..] else s;
    var u := if |t| > 2 && t[0] == '0' && t[1] in "xX" && Query.HexValue(t[2]).Some? then t[2..] else t;
    var (v, n) := HexScan(u, 0);
    if n == 0 then None
    else if v > ULONG_MAX then Some(ULONG_MAX)
    else if negative && v > 0 then Some(ULONG_MAX + 1 - v)
    else Some(v)
  }

  // ---------------------------------------------------------------- the writer

  datatype SinkOp = Write(data: string) | Done

  /** One call of the content provider: what it does with the sink, and what it returns. */
  datatype Turn = Turn(ops: seq<SinkOp>, goOn: bool)

  function Chunk(data: string): string { HexText(|data|) + CRLF + data + CRLF }

  const LAST_CHUNK := "0\r\n" + CRLF

  /** What a sink operation puts on the wire; a write of nothing emits no chunk. */
  function Emitted(op: SinkOp): string {
    match op
    case Write(d) => if d == "" then "" else Chunk(d)
    case Done => LAST_CHUNK
  }

  function EmittedAll(ops: seq<SinkOp>): string {
    if ops == [] then "" else EmittedAll(ops[..|ops| - 1]) + Emitted(ops[|ops| - 1])
  }

  /** Whether the provider will be asked again after these operations. */
  function Available(ops: seq<SinkOp>, before: bool): bool {
    if ops == [] then before
    else match ops[|ops| - 1]
         case Write(d) => d != ""
         case Done => false
  }

  /** The provider is asked again after each of these calls. */
  predicate AskedAgain(turns: seq<Turn>) {
    forall i :: 0 <= i < |turns| ==> turns[i].goOn && Available(turns[i].ops, true)
  }

  /** All operations that are performed: turns are taken while data is available and the provider goes on. */
  function Performed(turns: seq<Turn>): seq<SinkOp> {
    if turns == [] then []
    else if !turns[0].goOn || !Available(turns[0].ops, true) then turns[0].ops
    else turns[0].ops + Performed(turns[1..])
  }

  /** The stream that the writer writes to: it takes so many bytes and is broken from then on; one that is not
      steady may also say at any time that it cannot be written. */
  class Transport {
    var sent: string
    var room: nat
    const steady: bool

    constructor (room: nat, steady: bool)
      ensures sent == "" && this.room == room && this.steady == steady
    {
      sent, this.room, this.steady := "", room, steady;
    }

    method IsWritable() returns (b: bool)
      ensures steady ==> b
    {
      b := *;
      b := b || steady;
    }

    /** Writing the part that is taken; success if that is all. */
    method WriteData(data: string) returns (ok: bool)
      modifies this
      ensures ok <==> |data| <= old(room)
      ensures if ok then sent == old(sent) + data && room + |data| == old(room)
              else sent == old(sent) + data[..old(room)] && room == 0
    {
      ok := |data| <= room;
      var k := if ok then |data| else room;
      sent := sent + data[..k];
      room := room - k;
    }
  }

  /** What is on the wire after the attempt to send `all` behind `base` on a stream that had `room`: all of it
      while no write failed, a beginning of it otherwise; on a steady stream with room for it no write fails. */
  ghost predicate Sending(strm: Transport, base: string, room: nat, all: string, ok: bool)
    reads strm
  {
    && strm.sent <= base + all
    && (ok ==> strm.sent == base + all && strm.room + |all| == room)
    && (strm.steady && |all| <= room ==> ok)
  }

  lemma SendingMore(strm: Transport, base: string, room: nat, all: string, more: string, ok: bool)
    requires Sending(strm, base, room, all, ok) && (ok ==> more == "")
    ensures Sending(strm, base, room, all + more, ok)
  {
    Regroup(base, all, more);
    assert all + "" == all;
  }

  /** A piece sent while no write has failed. */
  method Send(strm: Transport, ghost base: string, ghost room: nat, ghost all: string, piece: string)
    returns (ok: bool)
    requires Sending(strm, base, room, all, true)
    modifies strm
    ensures Sending(strm, base, room, all + piece, ok) && (!ok ==> strm.room == 0)
  {
    Regroup(base, all, piece);
    ok := strm.WriteData(piece);
    assert base + all + piece[..|piece|] == base + all + piece;
  }

  /** The sink's `write`: nothing any more after a write has failed. */
  method SinkWrite(strm: Transport, data: string, ok: bool, before: bool, ghost base: string, ghost room: nat,
                   ghost all: string)
    returns (ok': bool, dataAvailable: bool)
    requires Sending(strm, base, room, all, ok)
    modifies strm
    ensures Sending(strm, base, room, all + Emitted(Write(data)), ok') && (ok' ==> ok && dataAvailable == (data != ""))
  {
    ok', dataAvailable := ok, before;
    if ok {
      dataAvailable := |data| > 0;
      assert all + "" == all;
      if data != "" {
        var size := FromIToHex(|data|);
        var chunk := size + CRLF + data + CRLF;
        var writable := strm.IsWritable();
        if !writable {
          SendingNothing(strm, base, room, all, chunk);
          return false, dataAvailable;
        }
        ok' := Send(strm, base, room, all, chunk);
      }
    } else {
      SendingMore(strm, base, room, all, Emitted(Write(data)), false);
    }
  }

  lemma SendingNothing(strm: Transport, base: string, room: nat, all: string, more: string)
    requires Sending(strm, base, room, all, true) && !strm.steady
    ensures Sending(strm, base, room, all + more, false)
  {
    Regroup(base, all, more);
  }

  /** The sink's `done`: both pieces are tried, the second also when the first has failed. */
  method SinkDone(strm: Transport, ok: bool, before: bool, ghost base: string, ghost room: nat, ghost all: string)
    returns (ok': bool, dataAvailable: bool)
    requires Sending(strm, base, room, all, ok)
    modifies strm
    ensures Sending(strm, base, room, all + LAST_CHUNK, ok') && (ok' ==> ok && !dataAvailable)
  {
    if !ok {
      SendingMore(strm, base, room, all, LAST_CHUNK, false);
      return false, before;
    }
    dataAvailable := false;
    Regroup(all, "0\r\n", CRLF);
    ok' := Send(strm, base, room, all, "0\r\n");
    if ok' {
      ok' := Send(strm, base, room, all + "0\r\n", CRLF);
    } else {
      var again := strm.WriteData(CRLF);
      SendingMore(strm, base, room, all + "0\r\n", CRLF, false);
    }
  }

  /** The provider's operations of one call. */
  method RunOps(strm: Transport, ops: seq<SinkOp>, before: bool, ghost base: string, ghost room: nat, ghost all: string)
    returns (ok: bool, dataAvailable: bool)
    requires Sending(strm, base, room, all, true)
    modifies strm
    ensures Sending(strm, base, room, all + EmittedAll(ops), ok) && (ok ==> dataAvailable == Available(ops, before))
  {
    hide Sending, Emitted;
    ok, dataAvailable := true, before;
    assert all + "" == all;
    for i := 0 to |ops|
      invariant Sending(strm, base, room, all + EmittedAll(ops[..i]), ok)
      invariant ok ==> dataAvailable == Available(ops[..i], before)
    {
      assert ops[..i + 1][..i] == ops[..i];
      Regroup(all, EmittedAll(ops[..i]), Emitted(ops[i]));
      match ops[i] {
        case Write(data) =>
          ok, dataAvailable := SinkWrite(strm, data, ok, dataAvailable, base, room, all + EmittedAll(ops[..i]));
        case Done =>
          DoneEmits();
          ok, dataAvailable := SinkDone(strm, ok, dataAvailable, base, room, all + EmittedAll(ops[..i]));
      }
    }
    assert ops[..|ops|] == ops;
  }

  lemma DoneEmits()
    ensures Emitted(Done) == LAST_CHUNK
  {
  }

  lemma {:induction false} EmittedConcat(a: seq<SinkOp>, b: seq<SinkOp>)
    ensures EmittedAll(a + b) == EmittedAll(a) + EmittedAll(b)
  {
    hide Emitted;
    if b == [] {
      assert a + b == a;
    } else {
      EmittedConcat(a, b[..|b| - 1]);
      assert (a + b)[..|a + b| - 1] == a + b[..|b| - 1];
    }
  }

  /** `write_content_chunked`. The script is what the provider does on each call; when it is used up the server is
      shutting down. The operations performed reach the wire, or a beginning of them when the stream breaks, and
      then the answer is false. While the stream holds the answer is true exactly if the provider always goes on. */
  method WriteContentChunked(strm: Transport, turns: seq<Turn>) returns (ok: bool)
    modifies strm
    ensures strm.sent <= old(strm.sent) + EmittedAll(Performed(turns))
    ensures ok || (strm.steady && |EmittedAll(Performed(turns))| <= old(strm.room)) ==>
              strm.sent == old(strm.sent) + EmittedAll(Performed(turns))
    ensures ok ==> forall i :: 0 <= i < |turns| && AskedAgain(turns[..i]) ==> turns[i].goOn
    ensures strm.steady && |EmittedAll(Performed(turns))| <= old(strm.room) ==>
              (ok <==> forall i :: 0 <= i < |turns| && AskedAgain(turns[..i]) ==> turns[i].goOn)
  {
    hide EmittedAll, Available, Performed, Sending, AskedAgain;
    var dataAvailable, i := true, 0;
    NeverAsked();
    ghost var done: seq<SinkOp>, base, room := [], strm.sent, strm.room;
    NothingPerformed();
    NothingSent(strm);
    assert turns[0..] == turns;
    while dataAvailable && i < |turns|
      invariant 0 <= i <= |turns|
      invariant Performed(turns) == if dataAvailable then done + Performed(turns[i..]) else done
      invariant Sending(strm, base, room, EmittedAll(done), true)
      invariant forall j :: 0 <= j < i ==> turns[j].goOn
      invariant if dataAvailable then AskedAgain(turns[..i]) else i > 0 && !Available(turns[i - 1].ops, true)
      decreases |turns| - i
    {
      var turn := turns[i];
      assert turns[i..] == [turn] + turns[i + 1..];
      PerformedStep(turn, turns[i + 1..]);
      EmittedConcat(done, turn.ops);
      Regroup(done, turn.ops, Performed(turns[i + 1..]));
      var writable := strm.IsWritable();
      if !writable {
        Unsent(strm, base, room, done, Performed(turns[i..]), true);
        return false;
      }
      var sent;
      sent, dataAvailable := RunOps(strm, turn.ops, true, base, room, EmittedAll(done));
      done := done + turn.ops;
      assert done + [] == done;
      if !turn.goOn {
        assert AskedAgain(turns[..i]) && !turns[i].goOn;
        Unsent(strm, base, room, done, [], sent);
        return false;
      }
      if !sent {
        Unsent(strm, base, room, done, if Available(turn.ops, true) then Performed(turns[i + 1..]) else [], false);
        return false;
      }
      AskedStep(turns, i);
      i := i + 1;
    }
    assert done + [] == done;
    if dataAvailable {
      assert turns[i..] == [];
    }
    Unsent(strm, base, room, done, [], true);
    if !dataAvailable {
      NotAskedBehind(turns, i);
    }
    ok := true;
  }

  lemma NeverAsked()
    ensures AskedAgain([])
  {
  }

  lemma AskedStep(turns: seq<Turn>, i: nat)
    requires i < |turns| && turns[i].goOn && AskedAgain(turns[..i])
    ensures Available(turns[i].ops, true) ==> AskedAgain(turns[..i + 1])
  {
    assert turns[..i + 1] == turns[..i] + [turns[i]];
  }

  lemma NotAskedBehind(turns: seq<Turn>, i: nat)
    requires 0 < i <= |turns| && !Available(turns[i - 1].ops, true)
    ensures forall j :: i <= j < |turns| ==> !AskedAgain(turns[..j])
  {
    forall j | i <= j < |turns| ensures !AskedAgain(turns[..j]) {
      assert turns[..j][i - 1] == turns[i - 1];
    }
  }

  lemma NothingSent(strm: Transport)
    ensures Sending(strm, strm.sent, strm.room, "", true)
  {
  }

  /** Where the loop stops, seen from all that would be performed. */
  lemma Unsent(strm: Transport, base: string, room: nat, done: seq<SinkOp>, more: seq<SinkOp>, ok: bool)
    requires Sending(strm, base, room, EmittedAll(done), ok)
    ensures strm.sent <= base + EmittedAll(done + more)
    ensures strm.steady && |EmittedAll(done + more)| <= room ==> ok
    ensures ok && more == [] ==> strm.sent == base + EmittedAll(done + more)
  {
    hide EmittedAll;
    EmittedConcat(done, more);
    Regroup(base, EmittedAll(done), EmittedAll(more));
    if more == [] {
      assert done + more == done;
    }
  }

  lemma NothingPerformed()
    ensures Performed([]) == [] && EmittedAll([]) == ""
  {
  }

  lemma PerformedStep(turn: Turn, rest: seq<Turn>)
    ensures Performed([turn] + rest)
         == if turn.goOn && Available(turn.ops, true) then turn.ops + Performed(rest) else turn.ops
  {
    assert ([turn] + rest)[1..] == rest;
  }

  // ---------------------------------------------------------------- the reader

  /** What reading delivers: whether it succeeded, the content, and the bytes it left alone. */
  datatype Delivery = Delivery(ok: bool, content: string, rest: string)

  /** The trailer section: lines up to an empty one, or the end of the stream. */
  function ReadTrailer(line: string, s: string): (bool, string)
    decreases |s|
  {
    if CString(line) == CRLF then (true, s)
    else if |line| > HEADER_MAX_LENGTH then (false, s)
    else if s == "" then (false, s)
    else ReadTrailer(FirstLine(s), AfterLine(s))
  }

  function ReadTail(s: string): (bool, string) {
    if s == "" then (true, s) else ReadTrailer(FirstLine(s), AfterLine(s))
  }

  lemma AfterLineShorter(s: string)
    requires s != ""
    ensures |AfterLine(s)| < |s|
  {
  }

  /** The data of a chunk of size `n`, its CRLF, and whether there is a line to read behind it. */
  function TakenChunk(s: string, n: nat): (d: Delivery)
    ensures |d.rest| <= |s| && (d.ok ==> d.rest != "")
  {
    if |s| < n then Delivery(false, s, "")
    else
      var (data, t) := (s[..n], s[n..]);
      if t == "" then Delivery(false, data, t)
      else Delivery(CString(FirstLine(t)) == CRLF && AfterLine(t) != "", data, AfterLine(t))
  }

  /** Chunk by chunk; `line` is the line that holds the next chunk size. */
  function ReadChunks(line: string, s: string): Delivery
    decreases |s|
  {
    match Strtoul(line)
    case None => Delivery(false, "", s)
    case Some(n) =>
      if n == ULONG_MAX then Delivery(false, "", s)
      else if n == 0 then
        var (ok, rest) := ReadTail(s);
        Delivery(ok, "", rest)
      else
        var d := TakenChunk(s, n);
        if !d.ok then d
        else
          AfterLineShorter(d.rest);
          Prepend(d.content, ReadChunks(FirstLine(d.rest), AfterLine(d.rest)))
  }

  function ReadBody(s: string): Delivery {
    if s == "" then Delivery(false, "", "") else ReadChunks(FirstLine(s), AfterLine(s))
  }

  /** Delivers the next bytes, as many as asked for, to a receiver that is called with one piece at a time and refuses
      when its patience is over; the piece has then been delivered. It fails then, at the end of the stream, and if
      the socket does. */
  method ReadContentWithLength(strm: SocketStream, len: nat, patience: nat) returns (ok: bool, content: string, calls: nat)
    requires strm.Valid()
    modifies strm, strm.readBuff, strm.sock
    ensures strm.Valid() && old(strm.Pending()) == content + strm.Pending() && |content| <= len
    ensures calls <= |content| && calls <= patience + 1
    ensures ok ==> |content| == len && calls <= patience
    ensures !ok && !strm.sock.faulty && calls <= patience ==> |content| < len && strm.Pending() == ""
  {
    content, calls := "", 0;
    ghost var pending := strm.Pending();
    var r := 0;
    while r < len
      invariant strm.Valid() && r == |content| <= len
      invariant pending == content + strm.Pending()
      invariant calls <= |content| && calls <= patience
    {
      var n, piece := strm.Read(if len - r < RECV_BUFSIZ then len - r else RECV_BUFSIZ);
      if n <= 0 {
        return false, content, calls;
      }
      Regroup(content, piece, strm.Pending());
      content, calls := content + piece, calls + 1;
      if calls > patience {
        return false, content, calls;
      }
      r := r + n;
    }
    ok := true;
  }

  /** The loop over trailer lines. What the lines say is not kept. */
  method ReadTrailers(reader: LineReader) returns (ok: bool)
    requires reader.Valid()
    modifies reader, reader.fixedBuffer, reader.strm, reader.strm.readBuff, reader.strm.sock
    ensures reader.Valid()
    ensures !reader.strm.sock.faulty ==> (ok, reader.strm.Pending()) == ReadTail(old(reader.strm.Pending()))
  {
    var got := reader.GetLine();
    if !got { return true; }
    ghost var goal := ReadTail(old(reader.strm.Pending()));
    while CString(reader.Line()) != CRLF
      invariant reader.Valid()
      invariant ReadTrailer(reader.Line(), reader.strm.Pending()) == goal
      decreases |reader.strm.Pending()|
    {
      if |reader.Line()| > HEADER_MAX_LENGTH { return false; }
      got := reader.GetLine();
      if !got { return false; }
    }
    ok := true;
  }

  /** One round of the loop behind the size: the data, its CRLF, and the line that follows. */
  method TakeChunk(reader: LineReader, size: nat, patience: nat) returns (ok: bool, data: string, calls: nat)
    requires reader.Valid()
    modifies reader, reader.fixedBuffer, reader.strm, reader.strm.readBuff, reader.strm.sock
    ensures reader.Valid()
    ensures var d := TakenChunk(old(reader.strm.Pending()), size);
            && data <= d.content
            && (ok ==> d.ok && data == d.content && reader.Line() == FirstLine(d.rest) && reader.strm.Pending() == AfterLine(d.rest))
            && (!ok && !reader.strm.sock.faulty && calls <= patience ==>
                  !d.ok && data == d.content && reader.strm.Pending() == d.rest)
            && calls <= |data| && calls <= patience + 1 && (ok ==> calls <= patience)
  {
    hide CString, FirstLine, AfterLine;
    ghost var pending := reader.strm.Pending();
    ok, data, calls := ReadContentWithLength(reader.strm, size, patience);
    assert pending[..|data|] == data && pending[|data|..] == reader.strm.Pending();
    if !ok {
      assert data + "" == data;
      return;
    }
    ok := reader.GetLine();
    if !ok { return; }
    if CString(reader.Line()) != CRLF { return false, data, calls; }
    ok := reader.GetLine();
  }

  /** `read_content_chunked`, for every input and every fragmentation of it. Unless the socket fails or the receiver
      refuses, it does what the byte-sequence reader does; and even then what has been delivered is a beginning of
      the content, and all of it if the answer is true. A receiver that refuses gets nothing more, and the answer is
      false. */
  method ReadContentChunked(strm: SocketStream, patience: nat) returns (ok: bool, content: string, calls: nat)
    requires strm.Valid()
    modifies strm, strm.readBuff, strm.sock
    ensures strm.Valid()
    ensures !strm.sock.faulty && calls <= patience ==> Delivery(ok, content, strm.Pending()) == ReadBody(old(strm.Pending()))
    ensures content <= ReadBody(old(strm.Pending())).content
    ensures ok ==> content == ReadBody(old(strm.Pending())).content && calls <= patience
    ensures calls <= |content| && calls <= patience + 1
  {
    hide Strtoul, FirstLine, AfterLine, ReadTail, TakenChunk;
    content, calls := "", 0;
    var buf := new char[16];
    var reader := new LineReader(strm, buf);
    ghost var goal := ReadBody(strm.Pending());
    var got := reader.GetLine();
    if !got { return false, "", 0; }
    while true
      invariant reader.Valid() && reader.strm == strm && reader.fixedBuffer == buf
      invariant goal == Prepend(content, ReadChunks(reader.Line(), strm.Pending()))
      invariant calls <= |content| && calls <= patience
      decreases |strm.Pending()|
    {
      ghost var pending, before := strm.Pending(), content;
      var size := Strtoul(reader.Line());
      if size.None? || size.value == ULONG_MAX { return false, content, calls; }
      if size.value == 0 { break; }
      ghost var left := ReadChunks(reader.Line(), pending).content;
      var more, data, n := TakeChunk(reader, size.value, patience - calls);
      content, calls := content + data, calls + n;
      if !more {
        PrefixOf(before, data, TakenChunk(pending, size.value).content, left);
        return false, content, calls;
      }
      AfterLineShorter(TakenChunk(pending, size.value).rest);
      PrependTwice(before, data, ReadChunks(reader.Line(), strm.Pending()));
    }
    assert content + "" == content;
    ok := ReadTrailers(reader);
  }

  lemma PrefixOf(before: string, data: string, chunk: string, left: string)
    requires data <= chunk <= left
    ensures before + data <= before + left
  {
    assert before + left == (before + data) + left[|data|..];
  }

  function Prepend(data: string, d: Delivery): Delivery { Delivery(d.ok, data + d.content, d.rest) }

  lemma PrependTwice(a: string, b: string, d: Delivery)
    ensures Prepend(a, Prepend(b, d)) == Prepend(a + b, d)
  {
    assert a + (b + d.content) == (a + b) + d.content;
  }

  // ---------------------------------------------------------------- the round trip

  /** The value of a string of hexadecimal digits. */
  function HexAcc(s: string, acc: nat): nat
    requires forall i :: 0 <= i < |s| ==> Query.HexValue(s[i]).Some?
  {
    if s == "" then acc else HexAcc(s[1..], acc * 16 + Query.HexValue(s[0]).value)
  }

  lemma {:induction false} HexAccSnoc(s: string, c: char, acc: nat)
    requires Query.HexValue(c).Some? && forall i :: 0 <= i < |s| ==> Query.HexValue(s[i]).Some?
    ensures HexAcc(s + [c], acc) == HexAcc(s, acc) * 16 + Query.HexValue(c).value
  {
    if s == "" {
      assert (s + [c])[1..] == "";
    } else {
      HexAccSnoc(s[1..], c, acc * 16 + Query.HexValue(s[0]).value);
      assert (s + [c])[1..] == s[1..] + [c];
    }
  }

  lemma {:induction false} HexTextValue(n: nat)
    ensures HexAcc(HexText(n), 0) == n
  {
    if n >= 16 {
      HexTextValue(n / 16);
      HexAccSnoc(HexText(n / 16), HexDigit(n % 16), 0);
    } else {
      assert HexText(n)[1..] == "";
    }
  }

  /** The text is printed in lower case and has no leading zero. */
  lemma {:induction false} HexTextShortest(n: nat)
    ensures HexText(n) != "" && (HexText(n)[0] == '0' <==> n == 0) && (n == 0 ==> |HexText(n)| == 1)
    ensures forall i :: 0 <= i < |HexText(n)| ==> HexText(n)[i] in "0123456789abcdef"
  {
    if n >= 16 {
      HexTextShortest(n / 16);
    }
  }

  lemma {:induction false} HexScanStops(a: string, b: string, acc: nat)
    requires forall i :: 0 <= i < |a| ==> Query.HexValue(a[i]).Some?
    requires b != "" && Query.HexValue(b[0]).None?
    ensures HexScan(a + b, acc) == (HexAcc(a, acc), |a|)
  {
    if a == "" {
      assert a + b == b;
    } else {
      HexScanStops(a[1..], b, acc * 16 + Query.HexValue(a[0]).value);
      assert (a + b)[1..] == a[1..] + b;
    }
  }

  /** The size line that the writer prints is read back as the size. */
  lemma SizeLine(n: nat)
    requires n <= ULONG_MAX
    ensures Strtoul(HexText(n) + CRLF) == Some(n)
  {
    hide Strtoul, HexText;
    HexTextValue(n);
    DigitsLine(HexText(n));
  }

  lemma DigitsLine(h: string)
    requires h != "" && forall i :: 0 <= i < |h| ==> Query.HexValue(h[i]).Some?
    requires HexAcc(h, 0) <= ULONG_MAX
    ensures Strtoul(h + CRLF) == Some(HexAcc(h, 0))
  {
    hide HexAcc, HexScan, SkipSpace, CString;
    var s := h + CRLF;
    NoSpace(h);
    assert |s| > 2 && s[1] == (if |h| > 1 then h[1] else '\r') && s[1] !in "xX";
    HexScanStops(h, CRLF, 0);
  }

  lemma NoSpace(h: string)
    requires h != "" && forall i :: 0 <= i < |h| ==> Query.HexValue(h[i]).Some?
    ensures SkipSpace(CString(h + CRLF)) == h + CRLF
  {
    var s := h + CRLF;
    FindCharIs(s, '\0', 0, |s|);
    assert s[..|s|] == s && s[0] == h[0];
  }

  lemma SizeLineFirst(n: nat, rest: string)
    ensures FirstLine((HexText(n) + CRLF) + rest) == HexText(n) + CRLF
    ensures AfterLine((HexText(n) + CRLF) + rest) == rest
  {
    var h := HexText(n);
    var line := h + CRLF;
    assert line[..|line| - 1] == h + "\r";
    FirstLineIs(line, rest);
  }

  lemma EmptyLineFirst(rest: string)
    ensures FirstLine(CRLF + rest) == CRLF && AfterLine(CRLF + rest) == rest && CString(CRLF) == CRLF
  {
    FirstLineIs(CRLF, rest);
    FindCharIs(CRLF, '\0', 0, 2);
  }

  /** The wire form of the nonempty pieces `ds`, front to back, up to `tail`. */
  function Wire(ds: seq<string>, tail: string): string {
    if ds == [] then tail else Emitted(Write(ds[0])) + Wire(ds[1..], tail)
  }

  predicate Sendable(ds: seq<string>) { forall i :: 0 <= i < |ds| ==> |ds[i]| < ULONG_MAX }

  lemma TakeWireChunk(data: string, rest: string)
    ensures TakenChunk(data + CRLF + rest, |data|) == Delivery(rest != "", data, rest)
  {
    hide FirstLine, AfterLine, CString;
    var s := data + CRLF + rest;
    EmptyLineFirst(rest);
    assert s[..|data|] == data && s[|data|..] == CRLF + rest;
  }

  /** Reading one chunk off the wire. */
  lemma ReadWireChunk(data: string, rest: string)
    requires 0 < |data| < ULONG_MAX
    ensures ReadBody(Chunk(data) + rest)
         == if rest == "" then Delivery(false, data, "") else Prepend(data, ReadBody(rest))
  {
    hide FirstLine, AfterLine, TakenChunk, Strtoul, HexText;
    var s := Chunk(data) + rest;
    assert s == (HexText(|data|) + CRLF) + (data + CRLF + rest);
    SizeLineFirst(|data|, data + CRLF + rest);
    SizeLine(|data|);
    TakeWireChunk(data, rest);
  }

  lemma ReadLastChunk(rest: string)
    ensures ReadBody(LAST_CHUNK + rest) == Delivery(true, "", rest)
  {
    hide FirstLine, AfterLine, Strtoul;
    assert HexText(0) == "0";
    assert LAST_CHUNK + rest == (HexText(0) + CRLF) + (CRLF + rest);
    SizeLineFirst(0, CRLF + rest);
    SizeLine(0);
    EmptyLineFirst(rest);
  }

  /** Reading behind one sink write. */
  lemma ReadWritten(data: string, rest: string)
    requires |data| < ULONG_MAX
    ensures rest != "" ==> ReadBody(Emitted(Write(data)) + rest) == Prepend(data, ReadBody(rest))
    ensures rest == "" ==> !ReadBody(Emitted(Write(data)) + rest).ok
  {
    if data == "" {
      assert "" + rest == rest;
      assert "" + ReadBody(rest).content == ReadBody(rest).content;
    } else {
      hide ReadBody, Chunk;
      ReadWireChunk(data, rest);
    }
  }

  lemma {:induction false} ReadWire(ds: seq<string>, rest: string)
    requires Sendable(ds)
    ensures ReadBody(Wire(ds, LAST_CHUNK + rest)) == Delivery(true, Concat(ds), rest)
    ensures Wire(ds, LAST_CHUNK + rest) != ""
    decreases |ds|
  {
    hide ReadBody, Emitted;
    if ds == [] {
      ReadLastChunk(rest);
    } else {
      ReadWire(ds[1..], rest);
      ReadWritten(ds[0], Wire(ds[1..], LAST_CHUNK + rest));
    }
  }

  lemma {:induction false} ReadUnfinished(ds: seq<string>)
    requires Sendable(ds)
    ensures !ReadBody(Wire(ds, "")).ok
    decreases |ds|
  {
    if ds != [] {
      hide ReadBody, Emitted;
      ReadUnfinished(ds[1..]);
      ReadWritten(ds[0], Wire(ds[1..], ""));
    }
  }

  function Writes(ds: seq<string>): (ops: seq<SinkOp>)
    ensures |ops| == |ds|
  {
    if ds == [] then [] else [Write(ds[0])] + Writes(ds[1..])
  }

  lemma {:induction false} EmittedWire(ds: seq<string>, tail: string)
    ensures EmittedAll(Writes(ds)) + tail == Wire(ds, tail)
  {
    hide Emitted;
    if ds != [] {
      EmittedWire(ds[1..], tail);
      EmittedConcat([Write(ds[0])], Writes(ds[1..]));
      assert EmittedAll([Write(ds[0])][..0]) == "" && [Write(ds[0])][..0] == [];
    }
  }

  /** Sink writes followed by `done` are delivered as exactly their concatenation, and reading stops just past
      the final CRLF; without `done` the reader never reports success. Writes of nothing change neither. */
  lemma ChunkedRoundTrip(ds: seq<string>, done: bool, rest: string)
    requires Sendable(ds) && (!done ==> rest == "")
    ensures var ops := Writes(ds) + if done then [Done] else [];
            && (done ==> ReadBody(EmittedAll(ops) + rest) == Delivery(true, Concat(ds), rest))
            && (ReadBody(EmittedAll(ops) + rest).ok <==> done)
  {
    hide EmittedAll, ReadBody, Wire;
    if done {
      ReadWire(ds, rest);
      EmittedConcat(Writes(ds), [Done]);
      EmittedDone();
      EmittedWire(ds, LAST_CHUNK + rest);
      assert (EmittedAll(Writes(ds)) + LAST_CHUNK) + rest == EmittedAll(Writes(ds)) + (LAST_CHUNK + rest);
    } else {
      ReadUnfinished(ds);
      EmittedWire(ds, "");
      assert Writes(ds) + [] == Writes(ds);
      assert EmittedAll(Writes(ds)) + "" == EmittedAll(Writes(ds));
    }
  }

  lemma EmittedDone()
    ensures EmittedAll([Done]) == LAST_CHUNK
  {
    assert [Done][..0] == [];
  }

  /** What the reader makes of any script of operations: it succeeds if and only if there is a `done` among them,
      and then delivers what was written before the first one and stops behind its last chunk. */
  lemma {:induction false} ScriptRead(ds: seq<string>, more: seq<SinkOp>)
    requires Sendable(ds) && (more != [] ==> more[0] == Done)
    ensures ReadBody(EmittedAll(Writes(ds) + more)).ok <==> Done in Writes(ds) + more
    ensures more != [] ==> ReadBody(EmittedAll(Writes(ds) + more)) == Delivery(true, Concat(ds), EmittedAll(more[1..]))
  {
    hide EmittedAll, ReadBody;
    NoDone(ds);
    if more == [] {
      ChunkedRoundTrip(ds, false, "");
      assert Writes(ds) + [] == Writes(ds) && EmittedAll(Writes(ds)) + "" == EmittedAll(Writes(ds));
    } else {
      assert Writes(ds) + more == (Writes(ds) + [Done]) + more[1..];
      EmittedConcat(Writes(ds) + [Done], more[1..]);
      ChunkedRoundTrip(ds, true, EmittedAll(more[1..]));
      assert Done in more;
    }
  }

  lemma {:induction false} NoDone(ds: seq<string>)
    ensures Done !in Writes(ds)
  {
    if ds != [] {
      NoDone(ds[1..]);
    }
  }

  /** For every provider: its `done` is performed if and only if the calls before the one that makes it all went on
      and left data available. */
  lemma {:induction false} DoneReached(turns: seq<Turn>)
    ensures Done in Performed(turns) <==> exists k :: 0 <= k < |turns| && AskedAgain(turns[..k]) && Done in turns[k].ops
    decreases |turns|
  {
    hide Available;
    if turns != [] {
      var rest := turns[1..];
      assert turns == [turns[0]] + rest;
      PerformedStep(turns[0], rest);
      DoneReached(rest);
      if k :| 0 <= k < |rest| && AskedAgain(rest[..k]) && Done in rest[k].ops {
        if AskedAgain(turns[..1]) {
          assert turns[..k + 1] == turns[..1] + rest[..k];
          assert AskedAgain(turns[..k + 1]) && Done in turns[k + 1].ops;
        }
      }
      if k :| 0 <= k < |turns| && AskedAgain(turns[..k]) && Done in turns[k].ops {
        if k > 0 {
          assert turns[..k][0] == turns[0] && rest[..k - 1] == turns[..k][1..];
          assert AskedAgain(rest[..k - 1]) && Done in rest[k - 1].ops;
        }
      }
      assert AskedAgain(turns[..1]) <==> turns[0].goOn && Available(turns[0].ops, true);
      assert turns[..0] == [] && AskedAgain([]);
    }
  }

  lemma {:induction false} AtFirstDone(ops: seq<SinkOp>) returns (ds: seq<string>, more: seq<SinkOp>)
    ensures ops == Writes(ds) + more && (more != [] ==> more[0] == Done)
    ensures forall i :: 0 <= i < |ds| ==> Write(ds[i]) in ops
  {
    if ops == [] || ops[0] == Done {
      ds, more := [], ops;
    } else {
      var rest;
      rest, more := AtFirstDone(ops[1..]);
      ds := [ops[0].data] + rest;
      assert ops == [ops[0]] + (Writes(rest) + more) == Writes(ds) + more;
    }
  }

  /** For every provider and every use of the sink: the reader succeeds if and only if a `done` is performed. */
  lemma AnyProvider(turns: seq<Turn>)
    requires forall data :: Write(data) in Performed(turns) ==> |data| < ULONG_MAX
    ensures ReadBody(EmittedAll(Performed(turns))).ok
            <==> exists k :: 0 <= k < |turns| && AskedAgain(turns[..k]) && Done in turns[k].ops
  {
    hide EmittedAll, ReadBody, Performed, Writes;
    DoneReached(turns);
    var ds, more := AtFirstDone(Performed(turns));
    ScriptRead(ds, more);
  }

  /** The writes of a call do not end with a write of nothing. */
  predicate LeavesData(ds: seq<string>) { ds == [] || ds[|ds| - 1] != "" }

  /** No call but the last ends with a write of nothing; one that does not write at all is harmless. */
  predicate NeverCutOff(ds: seq<seq<string>>) { forall i :: 0 <= i < |ds| - 1 ==> LeavesData(ds[i]) }

  /** The calls that the loop makes: up to the first that ends with a write of nothing. */
  function CallsMade(ds: seq<seq<string>>): (n: nat)
    ensures n <= |ds|
    ensures n < |ds| ==> !NeverCutOff(ds)
  {
    if |ds| <= 1 || !LeavesData(ds[0]) then
      if ds == [] then 0 else 1
    else
      1 + CallsMade(ds[1..])
  }

  /** A provider that goes on until its last call, which calls `done` at its end. */
  ghost predicate Script(turns: seq<Turn>, ds: seq<seq<string>>) {
    && turns != [] && |ds| == |turns|
    && forall i :: 0 <= i < |turns| ==>
         && (i < |turns| - 1 ==> turns[i].goOn)
         && turns[i].ops == Writes(ds[i]) + if i == |turns| - 1 then [Done] else []
  }

  lemma AvailableAfter(ds: seq<string>)
    ensures Available(Writes(ds), true) <==> LeavesData(ds)
  {
    if ds != [] {
      var last := ds[|ds| - 1];
      WritesConcat(ds[..|ds| - 1], [last]);
      assert ds == ds[..|ds| - 1] + [last];
      assert Writes([last]) == [Write(last)] + Writes([]);
      assert Writes(ds)[|ds| - 1] == Write(last);
    }
  }

  /** What such a provider gets performed. */
  lemma {:induction false} ScriptPerformed(turns: seq<Turn>, ds: seq<seq<string>>)
    requires Script(turns, ds)
    ensures CallsMade(ds) == |ds| <==> NeverCutOff(ds)
    ensures Performed(turns) == Writes(Flatten(ds[..CallsMade(ds)])) + if NeverCutOff(ds) then [Done] else []
    decreases |turns|
  {
    assert |ds| == |turns| > 0;
    hide Available, Writes, Flatten, Performed, Script;
    var rest, head := turns[1..], ds[0];
    ScriptHead(turns, ds);
    OneFlat(head);
    if |turns| > 1 && LeavesData(head) {
      ScriptTail(turns, ds);
      ScriptPerformed(rest, ds[1..]);
      CutOffStep(ds);
      var n := CallsMade(ds[1..]);
      MoreFlat(ds, n);
      Regroup(Writes(head), Writes(Flatten(ds[1..][..n])), if NeverCutOff(ds) then [Done] else []);
    } else {
      assert ds[..1] == [head];
    }
  }

  lemma MoreFlat(ds: seq<seq<string>>, n: nat)
    requires ds != [] && n < |ds|
    ensures Writes(Flatten(ds[..n + 1])) == Writes(ds[0]) + Writes(Flatten(ds[1..][..n]))
  {
    hide Writes, Flatten;
    assert ds[..n + 1] == [ds[0]] + ds[1..][..n];
    FlattenStep(ds[0], ds[1..][..n]);
    WritesConcat(ds[0], Flatten(ds[1..][..n]));
  }

  /** The first call of such a provider. */
  lemma ScriptHead(turns: seq<Turn>, ds: seq<seq<string>>)
    requires Script(turns, ds)
    ensures |ds| == |turns| > 0
    ensures Performed(turns) == Writes(ds[0]) + if |turns| == 1 then [Done]
                                                else if LeavesData(ds[0]) then Performed(turns[1..]) else []
  {
    hide Available, Writes, Performed;
    var ops := Writes(ds[0]) + if |turns| == 1 then [Done] else [];
    assert turns[0].ops == ops && (|turns| > 1 ==> turns[0].goOn);
    hide Script;
    assert turns == [turns[0]] + turns[1..];
    PerformedStep(turns[0], turns[1..]);
    AvailableAfter(ds[0]);
    DoneEnds(Writes(ds[0]));
    assert Writes(ds[0]) + [] == Writes(ds[0]);
  }

  lemma ScriptTail(turns: seq<Turn>, ds: seq<seq<string>>)
    requires Script(turns, ds) && |turns| > 1
    ensures Script(turns[1..], ds[1..])
  {
    hide Writes;
    var ts, es := turns[1..], ds[1..];
    forall i | 0 <= i < |ts|
      ensures i < |ts| - 1 ==> ts[i].goOn
      ensures ts[i].ops == Writes(es[i]) + if i == |ts| - 1 then [Done] else []
    {
      assert ts[i] == turns[i + 1] && es[i] == ds[i + 1];
    }
  }

  lemma OneFlat(head: seq<string>)
    ensures Flatten([head]) == head
  {
    assert [head][1..] == [] && head + [] == head;
  }

  lemma DoneEnds(ops: seq<SinkOp>)
    ensures !Available(ops + [Done], true)
  {
  }

  lemma CutOffStep(ds: seq<seq<string>>)
    requires |ds| > 1 && LeavesData(ds[0])
    ensures NeverCutOff(ds) <==> NeverCutOff(ds[1..])
  {
    hide LeavesData;
    assert forall i :: 0 < i < |ds| ==> ds[1..][i - 1] == ds[i];
    assert forall i :: 0 <= i < |ds| - 1 ==> ds[1..][i] == ds[i + 1];
  }

  lemma FlattenStep(head: seq<string>, rest: seq<seq<string>>)
    ensures Flatten([head] + rest) == head + Flatten(rest)
  {
    assert ([head] + rest)[1..] == rest;
  }

  /** What the provider wrote reaches the reader, whole and with success, if and only if no call but the last ends
      with a write of nothing. Otherwise the body is cut off behind that call, and the reader fails. */
  lemma CompleteExactly(turns: seq<Turn>, ds: seq<seq<string>>, rest: string)
    requires Script(turns, ds) && Sendable(Flatten(ds))
    ensures ReadBody(EmittedAll(Performed(turns))).ok <==> NeverCutOff(ds)
    ensures NeverCutOff(ds) ==> ReadBody(EmittedAll(Performed(turns)) + rest) == Delivery(true, Concat(Flatten(ds)), rest)
  {
    hide EmittedAll, ReadBody, Performed, Writes;
    ScriptPerformed(turns, ds);
    var n := CallsMade(ds);
    assert ds == ds[..n] + ds[n..];
    FlattenConcat(ds[..n], ds[n..]);
    var sent := Flatten(ds[..n]);
    assert forall i :: 0 <= i < |sent| ==> sent[i] == Flatten(ds)[i];
    if NeverCutOff(ds) {
      assert ds[..n] == ds;
      ChunkedRoundTrip(sent, true, rest);
      ChunkedRoundTrip(sent, true, "");
      assert EmittedAll(Performed(turns)) + "" == EmittedAll(Performed(turns));
    } else {
      ChunkedRoundTrip(sent, false, "");
      assert EmittedAll(Performed(turns)) + "" == EmittedAll(Performed(turns));
    }
  }

  lemma {:induction false} FlattenConcat(a: seq<seq<string>>, b: seq<seq<string>>)
    ensures Flatten(a + b) == Flatten(a) + Flatten(b)
  {
    if a == [] {
      assert a + b == b;
    } else {
      FlattenConcat(a[1..], b);
      assert (a + b)[1..] == a[1..] + b && (a + b)[0] == a[0];
      Regroup(a[0], Flatten(a[1..]), Flatten(b));
    }
  }

  function Flatten(ds: seq<seq<string>>): seq<string> { if ds == [] then [] else ds[0] + Flatten(ds[1..]) }

  lemma {:induction false} WritesConcat(a: seq<string>, b: seq<string>)
    ensures Writes(a + b) == Writes(a) + Writes(b)
  {
    if a == [] {
      assert a + b == b;
    } else {
      hide Writes;
      var all := a + b;
      assert all[1..] == a[1..] + b && all[0] == a[0];
      WritesCons(all);
      WritesCons(a);
      WritesConcat(a[1..], b);
      Regroup([Write(a[0])], Writes(a[1..]), Writes(b));
    }
  }

  lemma WritesCons(ds: seq<string>)
    requires ds != []
    ensures Writes(ds) == [Write(ds[0])] + Writes(ds[1..])
  {
  }
}
