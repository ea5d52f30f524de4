/** Chunked bodies that the writer of httplib.h does not write but section 7.1 of RFC 9112 allows: chunk extensions,
    leading zeros, digits in either case and trailer lines. What the reader makes of them, and of what is not allowed. */
module ChunkedForeign {
  import opened Wrappers
  import opened Scanning
  import opened Streams
  import opened Chunked
  import Query
  import opened UrlDecoding

  // ---------------------------------------------------------------- size lines

  predicate AllHex(h: string) { forall i :: 0 <= i < |h| ==> h[i] in "0123456789abcdefABCDEF" }

  /** White space as `strtoul` skips it. */
  predicate AllSpace(b: string) { forall i :: 0 <= i < |b| ==> b[i] as int in {9, 10, 11, 12, 13, 32} }

  /** What may follow the digits: nothing that reads as a digit, and no `x` that would make them a prefix. */
  predicate Follows(h: string, ext: string) {
    ext != "" && ext[0] !in "0123456789abcdefABCDEF" && (h == "0" ==> ext[0] !in "xX")
  }

  lemma SpaceSkipped(b: string, t: string)
    requires AllSpace(b) && t != "" && !IsSpace(t[0])
    ensures SkipSpace(b + t) == t
    decreases |b|
  {
    if b == "" {
      assert b + t == t;
    } else {
      SpaceSkipped(b[1..], t);
      assert (b + t)[1..] == b[1..] + t && (b + t)[0] == b[0];
    }
  }

  /** The number after blanks, with or without a plus sign or a `0x`, up to the first character that is no digit; the
      greatest number where it does not fit; its complement behind a minus sign. */
  lemma SizeSaid(b: string, sign: string, prefix: string, h: string, ext: string)
    requires AllSpace(b) && sign in {"", "+", "-"} && prefix in {"", "0x", "0X"} && h != "" && AllHex(h) && Follows(h, ext)
    requires '\0' !in ext
    ensures var v := HexAcc(h, 0);
            Strtoul(b + (sign + (prefix + (h + ext))))
            == Some(if v > ULONG_MAX then ULONG_MAX else if sign == "-" && v > 0 then ULONG_MAX + 1 - v else v)
  {
    hide CString, SkipSpace, HexScan, HexAcc, AllHex, Follows, AllSpace, Query.HexValue;
    var s := sign + (prefix + (h + ext));
    SignedText(sign, prefix, h, ext);
    NoNul(b, sign, prefix, h, ext);
    SpaceSkipped(b, s);
    DigitsSaid(h, ext);
    SaidOf(b + s, s, prefix + (h + ext), h + ext);
  }

  /** The number read, given what is left when blanks, sign and prefix have been taken off. */
  lemma SaidOf(line: string, s: string, t: string, u: string)
    requires SkipSpace(CString(line)) == s && s != "" && (if s[0] in "+-" then s[1..] else s) == t
    requires (if |t| > 2 && t[0] == '0' && t[1] in "xX" && Query.HexValue(t[2]).Some? then t[2..] else t) == u
    ensures var (v, n) := HexScan(u, 0);
            Strtoul(line) == if n == 0 then None else if v > ULONG_MAX then Some(ULONG_MAX)
                             else if s[0] == '-' && v > 0 then Some(ULONG_MAX + 1 - v) else Some(v)
  {
    hide CString, SkipSpace, HexScan, Query.HexValue;
  }

  lemma DigitsSaid(h: string, ext: string)
    requires h != "" && AllHex(h) && Follows(h, ext)
    ensures HexScan(h + ext, 0) == (HexAcc(h, 0), |h|)
  {
    hide HexScan, HexAcc;
    forall i | 0 <= i < |h| ensures Query.HexValue(h[i]).Some? { HexDigits(h[i]); }
    HexDigits(ext[0]);
    HexScanStops(h, ext, 0);
  }

  /** How sign and prefix are taken off. */
  lemma SignedText(sign: string, prefix: string, h: string, ext: string)
    requires sign in {"", "+", "-"} && prefix in {"", "0x", "0X"} && h != "" && AllHex(h) && Follows(h, ext)
    ensures var u := h + ext;
            var t := prefix + u;
            var s := sign + t;
            && s != "" && !IsSpace(s[0]) && (s[0] == '-' <==> sign == "-")
            && (if s[0] in "+-" then s[1..] else s) == t
            && (if |t| > 2 && t[0] == '0' && t[1] in "xX" && Query.HexValue(t[2]).Some? then t[2..] else t) == u
  {
    var u := h + ext;
    var t := prefix + u;
    assert h[0] in "0123456789abcdefABCDEF";
    HexDigits(h[0]);
    assert t[0] == (if prefix == "" then h[0] else '0');
    if sign == "" {
      assert sign + t == t;
    } else {
      assert (sign + t)[1..] == t;
    }
    if prefix == "" {
      assert t == u && u[1] == (if |h| > 1 then h[1] else ext[0]);
      assert |h| > 1 ==> h[1] !in "xX";
    } else {
      assert t[1] in "xX" && t[2] == h[0] && t[2..] == u;
    }
  }

  lemma NoNul(b: string, sign: string, prefix: string, h: string, ext: string)
    requires AllSpace(b) && sign in {"", "+", "-"} && prefix in {"", "0x", "0X"} && AllHex(h) && '\0' !in ext
    ensures var line := b + (sign + (prefix + (h + ext))); CString(line) == line
  {
    var line := b + (sign + (prefix + (h + ext)));
    assert '\0' !in line;
    FindCharIs(line, '\0', 0, |line|);
    assert line[..|line|] == line;
  }

  // ---------------------------------------------------------------- messages

  /** A chunk as a sender may write it: the digits of its size, whatever follows them on the line, and the data. */
  datatype ForeignChunk = ForeignChunk(size: string, ext: string, data: string)

  /** Free of line ends and NUL. */
  predicate Plain(s: string) { '\r' !in s && '\n' !in s && '\0' !in s }

  predicate Allowed(c: ForeignChunk) {
    && c.size != "" && AllHex(c.size) && Plain(c.ext) && Follows(c.size, c.ext + CRLF)
    && HexAcc(c.size, 0) == |c.data| && 0 < |c.data| < ULONG_MAX
  }

  /** The chunks, the last one (its digits all zero), the trailer lines and the empty line. */
  function Message(cs: seq<ForeignChunk>, zero: string, ext: string, trailers: seq<string>): string {
    if cs == [] then zero + (ext + CRLF) + (TrailerText(trailers) + CRLF)
    else cs[0].size + (cs[0].ext + CRLF) + (cs[0].data + CRLF + Message(cs[1..], zero, ext, trailers))
  }

  function TrailerText(trailers: seq<string>): string {
    if trailers == [] then "" else trailers[0] + CRLF + TrailerText(trailers[1..])
  }

  function Contents(cs: seq<ForeignChunk>): string { if cs == [] then "" else cs[0].data + Contents(cs[1..]) }

  predicate TrailerLine(t: string) { t != "" && Plain(t) && |t| + 2 <= HEADER_MAX_LENGTH }

  /** The digits of the last chunk, what follows them, and the trailer lines. */
  predicate EndAllowed(zero: string, ext: string, trailers: seq<string>) {
    && zero != "" && AllHex(zero) && HexAcc(zero, 0) == 0 && Plain(ext) && Follows(zero, ext + CRLF)
    && forall i :: 0 <= i < |trailers| ==> TrailerLine(trailers[i])
  }

  lemma LineOff(line: string, rest: string)
    requires '\r' !in line
    ensures FirstLine(line + CRLF + rest) == line + CRLF && AfterLine(line + CRLF + rest) == rest
  {
    var l := line + CRLF;
    assert l[..|l| - 1] == line + "\r";
    FirstLineIs(l, rest);
  }

  /** Trailer lines are read over, up to the empty line and not beyond. */
  lemma {:induction false} TrailersRead(trailers: seq<string>, rest: string)
    requires forall i :: 0 <= i < |trailers| ==> TrailerLine(trailers[i])
    ensures ReadTail(TrailerText(trailers) + CRLF + rest) == (true, rest)
    decreases |trailers|
  {
    hide FirstLine, AfterLine, CString;
    if trailers == [] {
      assert "" + CRLF + rest == CRLF + rest;
      EmptyLineFirst(rest);
    } else {
      var t, more := trailers[0], TrailerText(trailers[1..]) + CRLF + rest;
      TrailersRead(trailers[1..], rest);
      assert TrailerText(trailers) + CRLF + rest == t + CRLF + more;
      LineOff(t, more);
      NotEmptyLine(t);
    }
  }

  /** A line with something before its end is not taken for the empty line. */
  lemma NotEmptyLine(t: string)
    requires t != "" && Plain(t)
    ensures CString(t + CRLF) != CRLF
  {
    FindCharIs(t + CRLF, '\0', 0, |t| + 2);
    assert CString(t + CRLF) == t + CRLF && (t + CRLF)[0] == t[0];
  }

  lemma ReadForeignChunk(c: ForeignChunk, rest: string)
    requires Allowed(c) && rest != ""
    ensures ReadBody(c.size + (c.ext + CRLF) + (c.data + CRLF + rest)) == Prepend(c.data, ReadBody(rest))
  {
    hide FirstLine, AfterLine, TakenChunk, Strtoul, HexAcc, AllHex, Follows, Plain, ReadTail, ReadChunks;
    SizeLineOff(c.size, c.ext, c.data + CRLF + rest);
    TakeWireChunk(c.data, rest);
    ReadSized(c.size + (c.ext + CRLF), c.data + CRLF + rest, |c.data|);
  }

  /** A line that holds a size other than 0 makes the reader take so many bytes. */
  lemma ReadSized(line: string, s: string, n: nat)
    requires Strtoul(line) == Some(n) && 0 < n < ULONG_MAX
    requires line != "" && FirstLine(line + s) == line && AfterLine(line + s) == s
    ensures var d := TakenChunk(s, n); ReadBody(line + s) == if d.ok then Prepend(d.content, ReadBody(d.rest)) else d
  {
    hide FirstLine, AfterLine, TakenChunk, Strtoul;
  }

  lemma SizeLineOff(h: string, ext: string, s: string)
    requires h != "" && AllHex(h) && Plain(ext) && Follows(h, ext + CRLF) && HexAcc(h, 0) < ULONG_MAX
    ensures FirstLine(h + (ext + CRLF) + s) == h + (ext + CRLF) && AfterLine(h + (ext + CRLF) + s) == s
    ensures Strtoul(h + (ext + CRLF)) == Some(HexAcc(h, 0))
  {
    hide FirstLine, AfterLine, Strtoul, HexAcc, Follows;
    assert (h + ext) + CRLF == h + (ext + CRLF);
    assert '\r' !in h + ext;
    LineOff(h + ext, s);
    assert '\0' !in ext + CRLF;
    SizeSaid("", "", "", h, ext + CRLF);
    PlainLine(h, ext + CRLF);
  }

  lemma PlainLine(h: string, ext: string)
    ensures "" + ("" + ("" + (h + ext))) == h + ext
  {
  }

  lemma ReadForeignEnd(zero: string, ext: string, trailers: seq<string>, rest: string)
    requires EndAllowed(zero, ext, trailers)
    ensures ReadBody(zero + (ext + CRLF) + (TrailerText(trailers) + CRLF) + rest) == Delivery(true, "", rest)
  {
    hide FirstLine, AfterLine, ReadTail, Strtoul, HexAcc, AllHex, Follows, Plain, TrailerText, TrailerLine;
    var tail := TrailerText(trailers) + CRLF + rest;
    Regroup(zero + (ext + CRLF), TrailerText(trailers) + CRLF, rest);
    SizeLineOff(zero, ext, tail);
    TrailersRead(trailers, rest);
  }

  /** Every allowed message is read: the content exactly, and not a byte behind its empty line. */
  lemma {:induction false} ForeignRead(cs: seq<ForeignChunk>, zero: string, ext: string, trailers: seq<string>, rest: string)
    requires forall i :: 0 <= i < |cs| ==> Allowed(cs[i])
    requires EndAllowed(zero, ext, trailers)
    ensures ReadBody(Message(cs, zero, ext, trailers) + rest) == Delivery(true, Contents(cs), rest)
    decreases |cs|
  {
    hide ReadBody, Allowed, EndAllowed;
    if cs == [] {
      ReadForeignEnd(zero, ext, trailers, rest);
    } else {
      hide Message;
      var m := Message(cs[1..], zero, ext, trailers);
      ForeignRead(cs[1..], zero, ext, trailers, rest);
      MessageUnfold(cs, zero, ext, trailers);
      MessageStep(cs[0], m, rest);
      ReadForeignChunk(cs[0], m + rest);
    }
  }

  lemma MessageUnfold(cs: seq<ForeignChunk>, zero: string, ext: string, trailers: seq<string>)
    requires cs != []
    ensures var (c, m) := (cs[0], Message(cs[1..], zero, ext, trailers));
            m != "" && Message(cs, zero, ext, trailers) == c.size + (c.ext + CRLF) + (c.data + CRLF + m)
  {
    NonemptyMessage(cs[1..], zero, ext, trailers);
  }

  lemma MessageStep(c: ForeignChunk, m: string, rest: string)
    ensures (c.size + (c.ext + CRLF) + (c.data + CRLF + m)) + rest == c.size + (c.ext + CRLF) + (c.data + CRLF + (m + rest))
  {
  }

  lemma NonemptyMessage(cs: seq<ForeignChunk>, zero: string, ext: string, trailers: seq<string>)
    ensures Message(cs, zero, ext, trailers) != ""
  {
  }

  // ---------------------------------------------------------------- what is refused

  /** A body that ends with the last size line is complete; one that ends anywhere in the trailer section is not. */
  lemma TrailerCutOff(t: string)
    requires t != "" && Plain(t)
    ensures ReadTail("") == (true, "")
    ensures ReadTail(t + CRLF) == (false, "")
    ensures forall rest :: |t| + 2 > HEADER_MAX_LENGTH ==> ReadTail(t + CRLF + rest) == (false, rest)
  {
    hide FirstLine, AfterLine, CString;
    assert t + CRLF + "" == t + CRLF;
    LineOff(t, "");
    NotEmptyLine(t);
    forall rest | |t| + 2 > HEADER_MAX_LENGTH ensures ReadTail(t + CRLF + rest) == (false, rest) {
      LineOff(t, rest);
    }
  }

  /** A size line without a digit is refused, and so is a size that does not fit. */
  lemma BadSize(line: string, rest: string)
    requires '\r' !in line && (Strtoul(line + CRLF).None? || Strtoul(line + CRLF) == Some(ULONG_MAX))
    ensures ReadBody(line + CRLF + rest) == Delivery(false, "", rest)
  {
    LineOff(line, rest);
    hide FirstLine, AfterLine, Strtoul;
  }

  lemma NoDigit(b: string, t: string)
    requires AllSpace(b) && Plain(t) && t != "" && t[0] !in "+-0123456789abcdefABCDEF" && t[0] as int !in {9, 10, 11, 12, 13, 32}
    ensures Strtoul(b + (t + CRLF)) == None
  {
    var s := t + CRLF;
    assert '\0' !in b + s && s[0] == t[0];
    FindCharIs(b + s, '\0', 0, |b + s|);
    assert (b + s)[..|b + s|] == b + s;
    SpaceSkipped(b, s);
    HexDigits(t[0]);
    hide CString, SkipSpace;
  }

  /** Data not followed by an empty line: the content so far is delivered, and the answer is false. */
  lemma DataNotClosed(c: ForeignChunk, line: string, rest: string)
    requires Allowed(c) && line != "" && Plain(line)
    ensures ReadBody(c.size + (c.ext + CRLF) + (c.data + (line + CRLF + rest))) == Delivery(false, c.data, rest)
  {
    hide FirstLine, AfterLine, Strtoul, HexAcc, AllHex, Follows, TakenChunk, ReadBody;
    SizeLineOff(c.size, c.ext, c.data + (line + CRLF + rest));
    TakeUnclosed(c.data, line, rest);
    ReadSized(c.size + (c.ext + CRLF), c.data + (line + CRLF + rest), |c.data|);
  }

  lemma TakeUnclosed(data: string, line: string, rest: string)
    requires line != "" && Plain(line)
    ensures TakenChunk(data + (line + CRLF + rest), |data|) == Delivery(false, data, rest)
  {
    hide FirstLine, AfterLine, CString;
    LineOff(line, rest);
    NotEmptyLine(line);
    var tail := data + (line + CRLF + rest);
    assert tail[..|data|] == data && tail[|data|..] == line + CRLF + rest;
  }
}
