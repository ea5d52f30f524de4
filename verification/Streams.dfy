/** Buffered socket reading and the line reader on top of it (httplib.h). The socket itself is foreign: it is
    a sequence of bytes still to come, handed out in pieces of any size. */
module Streams {
  import opened Wrappers
  import opened Scanning

  /** The bytes the peer still sends, delivered in arbitrary fragments. A faulty socket may also fail. */
  class Socket {
    var incoming: string
    const faulty: bool

    constructor (incoming: string, faulty: bool)
      ensures this.incoming == incoming && this.faulty == faulty
    {
      this.incoming := incoming;
      this.faulty := faulty;
    }

    /** Nothing is delivered only at the end of the stream; otherwise any nonempty prefix that fits. */
    method Recv(size: nat) returns (n: int, bytes: string)
      requires size > 0
      modifies this
      ensures n < 0 ==> faulty && bytes == "" && incoming == old(incoming)
      ensures n >= 0 ==> n == |bytes| <= size && old(incoming) == bytes + incoming
      ensures n == 0 ==> old(incoming) == ""
    {
      var fails: bool := *;
      if faulty && fails { return -1, ""; }
      var most := if size < |incoming| then size else |incoming|;
      if most == 0 { return 0, ""; }
      var k: nat :| 0 < k <= most;
      n, bytes := k, incoming[..k];
      incoming := incoming[k..];
    }
  }

  const READ_BUFF_SIZE := 4096
  const SSIZE_MAX := 0x7FFF_FFFF_FFFF_FFFF

  /** `SocketStream`: a read buffer of fixed size in front of a socket. */
  class SocketStream {
    const sock: Socket
    const readBuff: array<char>
    var readBuffOff: nat
    var readBuffContentSize: nat

    ghost predicate Valid()
      reads this
    {
      readBuff.Length == READ_BUFF_SIZE && readBuffOff <= readBuffContentSize <= READ_BUFF_SIZE
    }

    /** What a reader of this stream is still going to see: the buffered bytes, then the socket's. */
    ghost function Pending(): string
      reads this, sock, readBuff
      requires Valid()
    {
      readBuff[readBuffOff..readBuffContentSize] + sock.incoming
    }

    constructor (sock: Socket)
      ensures Valid() && this.sock == sock && fresh(readBuff) && Pending() == sock.incoming
    {
      this.sock := sock;
      readBuff := new char[READ_BUFF_SIZE](_ => '\0');
      readBuffOff, readBuffContentSize := 0, 0;
    }

    /** Bytes returned followed by bytes still pending are always the bytes pending before. */
    method Read(wanted: nat) returns (n: int, bytes: string)
      requires Valid()
      modifies this, readBuff, sock
      ensures Valid()
      ensures n < 0 ==> sock.faulty && bytes == "" && Pending() == old(Pending())
      ensures n >= 0 ==> n == |bytes| <= wanted && old(Pending()) == bytes + Pending()
      ensures n == 0 && wanted > 0 ==> old(Pending()) == ""
    {
      var size := if wanted < SSIZE_MAX then wanted else SSIZE_MAX;
      if readBuffOff < readBuffContentSize {
        n, bytes := TakeBuffered(size);
        return;
      }
      assert Pending() == sock.incoming;
      var readable: bool := *;
      if sock.faulty && !readable { return -1, ""; }
      readBuffOff := 0;
      readBuffContentSize := 0;
      if size < READ_BUFF_SIZE {
        n, bytes := FillBuffer(size);
      } else {
        n, bytes := sock.Recv(size);
      }
    }

    /** From what is still buffered. */
    method TakeBuffered(size: nat) returns (n: int, bytes: string)
      requires Valid() && readBuffOff < readBuffContentSize
      modifies this`readBuffOff
      ensures Valid() && n == |bytes| <= size && old(Pending()) == bytes + Pending() && (n == 0 ==> size == 0)
    {
      var remaining := readBuffContentSize - readBuffOff;
      var k := if size <= remaining then size else remaining;
      bytes := readBuff[readBuffOff..readBuffOff + k];
      readBuffOff := readBuffOff + k;
      n := k;
    }

    /** From the socket through the empty buffer, which keeps what was not asked for. */
    method FillBuffer(size: nat) returns (n: int, bytes: string)
      requires Valid() && readBuffOff == readBuffContentSize == 0
      modifies this`readBuffOff, this`readBuffContentSize, readBuff, sock
      ensures Valid()
      ensures n < 0 ==> sock.faulty && bytes == "" && Pending() == old(sock.incoming)
      ensures n >= 0 ==> n == |bytes| <= size && old(sock.incoming) == bytes + Pending()
      ensures n == 0 && size > 0 ==> old(sock.incoming) == ""
    {
      var got, piece := sock.Recv(READ_BUFF_SIZE);
      if got <= 0 { return got, ""; }
      forall i | 0 <= i < |piece| { readBuff[i] := piece[i]; }
      assert readBuff[..|piece|] == piece;
      if got <= size { return got, piece; }
      n, bytes := size, piece[..size];
      readBuffOff := size;
      readBuffContentSize := got;
      assert piece == bytes + readBuff[size..got];
      Regroup(bytes, readBuff[size..got], sock.incoming);
    }
  }

  /** The bytes up to and including the first CRLF; everything when there is none. */
  function FirstLine(s: string): (line: string)
    ensures line <= s
  {
    var k := Find(s, CRLF);
    if k == |s| then s else s[..k + 2]
  }

  function AfterLine(s: string): (rest: string)
    ensures s == FirstLine(s) + rest
  {
    s[|FirstLine(s)|..]
  }

  lemma AfterLineIs(s: string, rest: string)
    requires s == FirstLine(s) + rest
    ensures rest == AfterLine(s)
  {
  }

  predicate NoCrlf(s: string) { forall i :: 0 <= i < |s| - 1 ==> !(s[i] == '\r' && s[i + 1] == '\n') }

  lemma FirstLineIs(line: string, rest: string)
    requires |line| >= 2 && NoCrlf(line[..|line| - 1]) && line[|line| - 2..] == CRLF
    ensures FirstLine(line + rest) == line && AfterLine(line + rest) == rest
  {
    var s, k := line + rest, |line| - 2;
    assert OccursAt(s, CRLF, k);
    forall j: nat | 0 <= j < k ensures !OccursAt(s, CRLF, j) {
      assert s[j..j + 2][0] == line[..|line| - 1][j] && s[j..j + 2][1] == line[..|line| - 1][j + 1];
    }
    FindIs(s, CRLF, 0, k);
  }

  lemma FirstLineAll(s: string)
    requires NoCrlf(s)
    ensures FirstLine(s) == s && AfterLine(s) == ""
  {
    forall j: nat | j + 2 <= |s| ensures !OccursAt(s, CRLF, j) {
      assert s[j..j + 2][0] == s[j] && s[j..j + 2][1] == s[j + 1];
    }
    FindNone(s, CRLF, 0);
  }

  /** `stream_line_reader`: a line is collected in a fixed buffer until that is full, then in a growing one. */
  class LineReader {
    const strm: SocketStream
    const fixedBuffer: array<char>
    var used: nat
    var growable: string

    /** The line read last: what `ptr` and `size` delimit. */
    function Line(): string
      reads this, fixedBuffer
      requires used <= fixedBuffer.Length
    {
      if growable == "" then fixedBuffer[..used] else growable
    }

    ghost predicate Valid()
      reads this, fixedBuffer, strm
    {
      && strm.Valid() && fixedBuffer != strm.readBuff
      && used < fixedBuffer.Length && fixedBuffer.Length >= 2
      && (used > 0 ==> fixedBuffer[used] == '\0')
      && (growable != "" ==> used == fixedBuffer.Length - 1 && fixedBuffer[..used] <= growable)
    }

    constructor (strm: SocketStream, fixedBuffer: array<char>)
      requires strm.Valid() && fixedBuffer != strm.readBuff && fixedBuffer.Length >= 2
      ensures Valid() && this.strm == strm && this.fixedBuffer == fixedBuffer
    {
      this.strm := strm;
      this.fixedBuffer := fixedBuffer;
      used, growable := 0, "";
    }

    method Append(c: char)
      requires Valid()
      modifies this, fixedBuffer
      ensures Valid() && Line() == old(Line()) + [c]
    {
      if used < fixedBuffer.Length - 1 {
        fixedBuffer[used] := c;
        used := used + 1;
        fixedBuffer[used] := '\0';
      } else {
        if growable == "" {
          assert fixedBuffer[used] == '\0';
          growable := fixedBuffer[..used];
        }
        growable := growable + [c];
      }
    }

    /** Reads byte by byte: for every fragmentation of the stream the line is exactly the bytes up to and
        including the next CRLF (or to the end of the stream), and nothing behind it is consumed. */
    method GetLine() returns (ok: bool)
      requires Valid()
      modifies this, fixedBuffer, strm, strm.readBuff, strm.sock
      ensures Valid()
      ensures old(strm.Pending()) == Line() + strm.Pending()
      ensures ok ==> old(strm.Pending()) != "" && Line() == FirstLine(old(strm.Pending()))
                     && strm.Pending() == AfterLine(old(strm.Pending()))
      ensures !ok ==> strm.sock.faulty || old(strm.Pending()) == ""
    {
      hide FirstLine, AfterLine, NoCrlf;
      used := 0;
      growable := "";
      var prev, i := '\0', 0;
      ghost var all := strm.Pending();
      NoCrlfSnoc("", '\0');
      while true
        invariant Valid()
        invariant all == Line() + strm.Pending()
        invariant NoCrlf(Line()) && i == |Line()| && prev == LastOr(Line(), '\0')
        decreases |strm.Pending()|
      {
        ghost var before := Line();
        var n, byte := TakeByte();
        if n < 0 { return false; }
        if n == 0 {
          if i == 0 { return false; }
          assert Line() + "" == Line();
          FirstLineAll(all);
          AfterLineIs(all, strm.Pending());
          return true;
        }
        NoCrlfSnoc(before, byte);
        if prev == '\r' && byte == '\n' {
          FirstLineEnds(before, strm.Pending());
          AfterLineIs(all, strm.Pending());
          return true;
        }
        prev := byte;
        i := i + 1;
      }
    }

    /** One read of one byte; a byte that was read is appended to the line. */
    method TakeByte() returns (n: int, byte: char)
      requires Valid()
      modifies this, fixedBuffer, strm, strm.readBuff, strm.sock
      ensures Valid()
      ensures Line() + strm.Pending() == old(Line() + strm.Pending())
      ensures n < 0 ==> strm.sock.faulty && Line() == old(Line())
      ensures n == 0 ==> old(strm.Pending()) == "" && Line() == old(Line()) && strm.Pending() == ""
      ensures n > 0 ==> Line() == old(Line()) + [byte] && |strm.Pending()| == old(|strm.Pending()|) - 1
    {
      ghost var before := Line();
      var got, bytes := strm.Read(1);
      assert Line() == before;
      n, byte := got, '\0';
      if got > 0 {
        byte := bytes[0];
        assert bytes == [byte];
        assert before + (bytes + strm.Pending()) == (before + [byte]) + strm.Pending();
        Append(byte);
      }
    }
  }

  function LastOr(s: string, c: char): char { if s == "" then c else s[|s| - 1] }

  lemma NoCrlfSnoc(s: string, c: char)
    ensures NoCrlf("") && (NoCrlf(s) && !(LastOr(s, '\0') == '\r' && c == '\n') ==> NoCrlf(s + [c]))
  {
  }

  lemma FirstLineEnds(before: string, rest: string)
    requires NoCrlf(before) && LastOr(before, '\0') == '\r'
    ensures FirstLine((before + ['\n']) + rest) == before + ['\n']
  {
    var line := before + ['\n'];
    assert line[..|line| - 1] == before;
    FirstLineIs(line, rest);
  }
}
