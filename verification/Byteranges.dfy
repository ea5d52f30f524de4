/** Assembly of multipart/byteranges bodies (httplib.h, section 14.6 of RFC 9110): the pass that builds the
    body and the pass that only counts it. */
module Byteranges {
  import opened Wrappers
  import opened Scanning
  import opened Ranges

  /** The head of one part: delimiter line, optional type, Content-Range and the empty line. */
  function PartHead(r: Range, boundary: string, contentType: string, len: nat): string
    requires Within(r, len)
  {
    "--" + boundary + "\r\n"
    + (if contentType != "" then "Content-Type: " + contentType + "\r\n" else "")
    + "Content-Range: " + ContentRange(r, len) + "\r\n" + "\r\n"
  }

  /** `make_content_range_header_field`, by the positions of the range. */
  function ContentRange(r: Range, len: nat): string
    requires Within(r, len)
  {
    "bytes " + Decimal(r.first) + "-" + Decimal(r.last) + "/" + Decimal(len)
  }

  function Part(r: Range, boundary: string, contentType: string, body: string): string
    requires Within(r, |body|)
  {
    PartHead(r, boundary, contentType, |body|) + body[r.first..r.last + 1] + "\r\n"
  }

  predicate AllWithin(rs: seq<Range>, len: nat) { forall i :: 0 <= i < |rs| ==> Within(rs[i], len) }

  function Parts(rs: seq<Range>, boundary: string, contentType: string, body: string): string
    requires AllWithin(rs, |body|)
  {
    if rs == [] then ""
    else Parts(rs[..|rs| - 1], boundary, contentType, body) + Part(rs[|rs| - 1], boundary, contentType, body)
  }

  function Assembled(rs: seq<Range>, boundary: string, contentType: string, body: string): string
    requires AllWithin(rs, |body|)
  {
    Parts(rs, boundary, contentType, body) + "--" + boundary + "--"
  }

  /** The header field computed from an offset and a length, as the source does. */
  method MakeContentRange(offset: nat, length: nat, contentLength: nat) returns (field: string)
    requires length > 0 && offset + length <= contentLength
    ensures field == ContentRange(Range(offset, offset + length - 1), contentLength)
  {
    var st, ed := offset, offset + length - 1;
    field := "bytes ";
    field := field + Decimal(st);
    field := field + "-";
    field := field + Decimal(ed);
    field := field + "/";
    field := field + Decimal(contentLength);
  }

  method MakePart(r: Range, boundary: string, contentType: string, body: string) returns (data: string)
    requires Within(r, |body|) && |body| <= SSIZE_MAX
    ensures data == Part(r, boundary, contentType, body)
  {
    data := "--";
    data := data + boundary;
    data := data + "\r\n";
    if contentType != "" {
      data := data + "Content-Type: ";
      data := data + contentType;
      data := data + "\r\n";
    }
    var (offset, length) := OffsetAndLength(r, |body|);
    var field := MakeContentRange(offset, length, |body|);
    data := data + "Content-Range: ";
    data := data + field;
    data := data + "\r\n";
    data := data + "\r\n";
    assert data == PartHead(r, boundary, contentType, |body|);
    data := data + body[offset..offset + length];
    data := data + "\r\n";
  }

  /** `make_multipart_ranges_data`. */
  method MakeMultipartRangesData(ranges: seq<Range>, boundary: string, contentType: string, body: string)
    returns (data: string)
    requires AllWithin(ranges, |body|) && |body| <= SSIZE_MAX
    ensures data == Assembled(ranges, boundary, contentType, body)
  {
    data := "";
    for i := 0 to |ranges|
      invariant data == Parts(ranges[..i], boundary, contentType, body)
    {
      var part := MakePart(ranges[i], boundary, contentType, body);
      assert ranges[..i + 1][..i] == ranges[..i];
      data := data + part;
    }
    assert ranges[..|ranges|] == ranges;
    data := data + "--";
    data := data + boundary;
    data := data + "--";
  }

  method PartLength(r: Range, boundary: string, contentType: string, contentLength: nat) returns (n: nat)
    requires Within(r, contentLength) && contentLength <= SSIZE_MAX
    ensures n == |PartHead(r, boundary, contentType, contentLength)| + (r.last - r.first + 1) + 2
  {
    n := |"--"|;
    n := n + |boundary|;
    n := n + |"\r\n"|;
    if contentType != "" {
      n := n + |"Content-Type: "|;
      n := n + |contentType|;
      n := n + |"\r\n"|;
    }
    var (offset, length) := OffsetAndLength(r, contentLength);
    var field := MakeContentRange(offset, length, contentLength);
    n := n + |"Content-Range: "|;
    n := n + |field|;
    n := n + |"\r\n"|;
    n := n + |"\r\n"|;
    n := n + length;
    n := n + |"\r\n"|;
  }

  /** `get_multipart_ranges_data_length`: for every body of the given length the counting pass, which never
      sees the body, returns the length of what the building pass produces. */
  method MultipartRangesDataLength(ranges: seq<Range>, boundary: string, contentType: string, contentLength: nat)
    returns (n: nat)
    requires AllWithin(ranges, contentLength) && contentLength <= SSIZE_MAX
    ensures forall body: string :: |body| == contentLength ==> n == |Assembled(ranges, boundary, contentType, body)|
  {
    n := 0;
    for i := 0 to |ranges|
      invariant forall body: string :: |body| == contentLength ==> n == |Parts(ranges[..i], boundary, contentType, body)|
    {
      var part := PartLength(ranges[i], boundary, contentType, contentLength);
      assert ranges[..i + 1][..i] == ranges[..i];
      n := n + part;
    }
    assert ranges[..|ranges|] == ranges;
    n := n + |"--"|;
    n := n + |boundary|;
    n := n + |"--"|;
  }

  /** Where the payload of part `i` starts. */
  function PayloadStart(rs: seq<Range>, i: nat, boundary: string, contentType: string, body: string): nat
    requires i < |rs| && AllWithin(rs, |body|)
  {
    |Parts(rs[..i], boundary, contentType, body)| + |PartHead(rs[i], boundary, contentType, |body|)|
  }

  lemma {:induction false} PartsPrefix(rs: seq<Range>, i: nat, boundary: string, contentType: string, body: string)
    requires i <= |rs| && AllWithin(rs, |body|)
    ensures Parts(rs[..i], boundary, contentType, body) <= Parts(rs, boundary, contentType, body)
    decreases |rs|
  {
    if i < |rs| {
      PartsPrefix(rs[..|rs| - 1], i, boundary, contentType, body);
      assert rs[..|rs| - 1][..i] == rs[..i];
    } else {
      assert rs[..i] == rs;
    }
  }

  /** Part `i` of the assembled body holds its own head, then exactly the requested bytes, then CRLF. */
  predicate PartInPlace(rs: seq<Range>, i: nat, boundary: string, contentType: string, body: string)
    requires i < |rs| && AllWithin(rs, |body|)
  {
    var data := Assembled(rs, boundary, contentType, body);
    var p := PayloadStart(rs, i, boundary, contentType, body);
    var head := PartHead(rs[i], boundary, contentType, |body|);
    var n := RangeBytes(rs[i]);
    && |head| <= p && p + n + 2 <= |data|
    && data[p - |head|..p] == head
    && data[p..p + n] == body[rs[i].first..rs[i].last + 1]
    && data[p + n..p + n + 2] == "\r\n"
  }

  lemma PayloadExact(rs: seq<Range>, i: nat, boundary: string, contentType: string, body: string)
    requires i < |rs| && AllWithin(rs, |body|)
    ensures PartInPlace(rs, i, boundary, contentType, body)
  {
    hide PartHead;
    var before := Parts(rs[..i], boundary, contentType, body);
    var upTo := Parts(rs[..i + 1], boundary, contentType, body);
    var all := Parts(rs, boundary, contentType, body);
    assert rs[..i + 1][..i] == rs[..i];
    PartsPrefix(rs, i + 1, boundary, contentType, body);
    assert upTo == before + Part(rs[i], boundary, contentType, body);
    var data := Assembled(rs, boundary, contentType, body);
    assert data[..|upTo|] == upTo by {
      assert all <= data;
    }
    SlicesOf(data, before, PartHead(rs[i], boundary, contentType, |body|), body[rs[i].first..rs[i].last + 1], "\r\n");
  }

  lemma SlicesOf(data: string, a: string, b: string, c: string, d: string)
    requires a + (b + c + d) <= data
    ensures var p := |a| + |b|;
            data[p - |b|..p] == b && data[p..p + |c|] == c && data[p + |c|..p + |c| + |d|] == d
  {
    var whole := a + (b + c + d);
    assert whole == data[..|whole|];
    assert whole[|a|..|a| + |b|] == b;
    assert whole[|a| + |b|..|a| + |b| + |c|] == c;
    assert whole[|a| + |b| + |c|..] == d;
  }

  /** For every list that the range check accepts, the rewritten ranges meet what the two passes ask of their
      callers, and every part is in place, in request order. */
  lemma AcceptedAssembles(rs: seq<Range>, boundary: string, contentType: string, body: string)
    requires rs != [] && Accepted(rs, |body|)
    ensures var q := RewrittenAll(rs, |body|);
            && AllWithin(q, |body|)
            && (forall i :: 0 <= i < |q| ==> PartInPlace(q, i, boundary, contentType, body))
            && (forall i, j :: 0 <= i < j < |q| ==>
                  PayloadStart(q, i, boundary, contentType, body) < PayloadStart(q, j, boundary, contentType, body))
  {
    hide Assembled, PartInPlace, PayloadStart;
    var q := RewrittenAll(rs, |body|);
    forall i | 0 <= i < |q| ensures PartInPlace(q, i, boundary, contentType, body) {
      PayloadExact(q, i, boundary, contentType, body);
    }
    forall i, j | 0 <= i < j < |q|
      ensures PayloadStart(q, i, boundary, contentType, body) < PayloadStart(q, j, boundary, contentType, body)
    {
      PayloadOrder(q, i, j, boundary, contentType, body);
    }
  }

  lemma PayloadOrder(rs: seq<Range>, i: nat, j: nat, boundary: string, contentType: string, body: string)
    requires i < j < |rs| && AllWithin(rs, |body|)
    ensures PayloadStart(rs, i, boundary, contentType, body) < PayloadStart(rs, j, boundary, contentType, body)
  {
    hide PartHead;
    PartsPrefix(rs[..j], i + 1, boundary, contentType, body);
    assert rs[..j][..i + 1] == rs[..i + 1] && rs[..i + 1][..i] == rs[..i];
  }

  /** The bytes that a range of a request asks for. */
  function AskedBytes(r: Range, body: string): string
    requires r.first != -1 || r.last != -1
    requires r.first != -1 ==> 0 <= r.first <= |body| && (r.last != -1 ==> r.first <= r.last < |body|)
    requires r.first == -1 ==> 0 <= r.last <= |body|
  {
    if r.first == -1 then body[|body| - r.last..]
    else if r.last == -1 then body[r.first..]
    else body[r.first..r.last + 1]
  }

  /** For every accepted list the payload of each part is what its range asked for: a suffix of `n` its last `n` bytes,
      an open range all from its first position on. */
  lemma PayloadAsked(rs: seq<Range>, i: nat, boundary: string, contentType: string, body: string)
    requires i < |rs| && Accepted(rs, |body|) && -1 <= rs[i].first && -1 <= rs[i].last
    ensures var (q, r) := (RewrittenAll(rs, |body|), rs[i]);
            && AllWithin(q, |body|)
            && (r.first != -1 || r.last != -1)
            && (r.first != -1 ==> r.first < |body| && (r.last != -1 ==> r.first <= r.last < |body|))
            && (r.first == -1 ==> 1 <= r.last <= |body|)
            && var (data, p) := (Assembled(q, boundary, contentType, body), PayloadStart(q, i, boundary, contentType, body));
            p + |AskedBytes(r, body)| <= |data| && data[p..p + |AskedBytes(r, body)|] == AskedBytes(r, body)
  {
    hide Accepted, RewrittenAll, Rewritten, Sound, Assembled, PayloadStart, AskedBytes, AsksFor, PartHead;
    AcceptedAt(rs, i, |body|);
    var q := RewrittenAll(rs, |body|);
    AskedIs(rs[i], q[i], body);
    PayloadExact(q, i, boundary, contentType, body);
  }

  lemma AcceptedAt(rs: seq<Range>, i: nat, len: nat)
    requires i < |rs| && Accepted(rs, len)
    ensures var q := RewrittenAll(rs, len); |q| == |rs| && AllWithin(q, len) && Within(q[i], len) && AsksFor(rs[i], q[i], len)
  {
    AcceptedAsks(rs, len);
  }

  lemma AskedIs(r: Range, q: Range, body: string)
    requires AsksFor(r, q, |body|) && Within(q, |body|) && -1 <= r.first && -1 <= r.last
    ensures && (r.first != -1 || r.last != -1)
            && (r.first != -1 ==> r.first < |body| && (r.last != -1 ==> r.first <= r.last < |body|))
            && (r.first == -1 ==> 1 <= r.last <= |body|)
            && AskedBytes(r, body) == body[q.first..q.last + 1]
  {
  }

  // ---------------------------------------------------------------- what a reader of the body finds

  /** The Content-Range field says the range and the length of the content: behind the unit, a range that the parser of
      range headers reads back, and a decimal number. */
  lemma ContentRangeSays(r: Range, len: nat)
    requires Within(r, len) && len <= SSIZE_MAX
    ensures var text := ContentRange(r, len);
            && "bytes " <= text
            && var (range, total) := Divide(text[6..], '/');
               ParseItem(range) == Some(r) && AllDigits(total) && DigitsValue(total) == len
  {
    var a, b, c := Decimal(r.first), Decimal(r.last), Decimal(len);
    DecimalValue(r.first);
    DecimalValue(r.last);
    DecimalValue(len);
    var text := ContentRange(r, len);
    assert text == "bytes " + (a + "-" + b + ['/'] + c);
    assert '/' !in a + "-" + b;
    DivideAt(a + "-" + b, '/', c);
    ItemRoundTrip(r);
    assert ItemText(r) == a + "-" + b;
  }

  /** The head of a part, line by line: the delimiter, the type if there is one, the range, and an empty line. */
  lemma PartHeadLines(r: Range, boundary: string, contentType: string, len: nat, rest: string)
    requires Within(r, len) && NoReturn(boundary) && NoReturn(contentType)
    ensures var lines := ["--" + boundary] + (if contentType == "" then [] else ["Content-Type: " + contentType])
                         + ["Content-Range: " + ContentRange(r, len), ""];
            ReadLines(PartHead(r, boundary, contentType, len) + rest, |lines|) == (lines, rest)
  {
    var a, b, c := "--" + boundary, "Content-Type: " + contentType, "Content-Range: " + ContentRange(r, len);
    RangeNoReturn(r, len);
    HeadText(r, boundary, contentType, len, rest);
    hide ContentRange, PartHead, ReadLines;
    if contentType == "" {
      ThreeLines(a, c, rest);
    } else {
      FourLines(a, b, c, rest);
    }
  }

  lemma ThreeLines(a: string, c: string, rest: string)
    requires NoReturn(a) && NoReturn(c)
    ensures ReadLines(a + CRLF + (c + CRLF + ("" + CRLF + rest)), 3) == ([a] + [] + [c, ""], rest)
  {
    hide ReadLines;
    LastLines(c, rest);
    ReadLine(a, c + CRLF + ("" + CRLF + rest), 3);
    assert [a] + [c, ""] == [a] + [] + [c, ""];
  }

  lemma FourLines(a: string, b: string, c: string, rest: string)
    requires NoReturn(a) && NoReturn(b) && NoReturn(c)
    ensures ReadLines(a + CRLF + (b + CRLF + (c + CRLF + ("" + CRLF + rest))), 4) == ([a] + [b] + [c, ""], rest)
  {
    hide ReadLines;
    LastLines(c, rest);
    var tail := c + CRLF + ("" + CRLF + rest);
    ReadLine(b, tail, 3);
    ReadLine(a, b + CRLF + tail, 4);
    assert [a] + ([b] + [c, ""]) == [a] + [b] + [c, ""];
  }

  lemma RangeNoReturn(r: Range, len: nat)
    requires Within(r, len)
    ensures NoReturn("Content-Range: " + ContentRange(r, len))
  {
    DecimalValue(r.first);
    DecimalValue(r.last);
    DecimalValue(len);
  }

  lemma HeadText(r: Range, boundary: string, contentType: string, len: nat, rest: string)
    requires Within(r, len)
    ensures var (a, b, c) := ("--" + boundary, "Content-Type: " + contentType, "Content-Range: " + ContentRange(r, len));
            var tail := c + CRLF + ("" + CRLF + rest);
            PartHead(r, boundary, contentType, len) + rest
            == if contentType == "" then a + CRLF + tail else a + CRLF + (b + CRLF + tail)
  {
    hide ContentRange;
  }

  lemma LastLines(c: string, rest: string)
    requires NoReturn(c)
    ensures ReadLines(c + CRLF + ("" + CRLF + rest), 2) == ([c, ""], rest)
  {
    assert ReadLines(rest, 0) == ([], rest);
    hide ReadLines;
    ReadLine("", rest, 1);
    ReadLine(c, "" + CRLF + rest, 2);
    assert [c] + ([""] + []) == [c, ""];
  }

  predicate NoReturn(s: string) { '\r' !in s }

  /** A reader that takes `n` lines off a text. */
  function ReadLines(s: string, n: nat): (seq<string>, string) {
    if n == 0 then ([], s)
    else
      var k := Find(s, CRLF);
      if k + 2 > |s| then ([], s)
      else
        var (lines, rest) := ReadLines(s[k + 2..], n - 1);
        ([s[..k]] + lines, rest)
  }

  lemma ReadLine(line: string, more: string, n: nat)
    requires NoReturn(line) && n > 0
    ensures ReadLines(line + CRLF + more, n) == ([line] + ReadLines(more, n - 1).0, ReadLines(more, n - 1).1)
  {
    var s := line + CRLF + more;
    assert s[|line|..|line| + 2] == CRLF;
    forall j: nat | j < |line| ensures !OccursAt(s, CRLF, j) {
      assert s[j..j + 2][0] == line[j];
    }
    FindIs(s, CRLF, 0, |line|);
    assert s[..|line|] == line && s[|line| + 2..] == more;
  }

  /** The assembled body ends with the closing delimiter, behind the last part. */
  lemma ClosingDelimiter(rs: seq<Range>, boundary: string, contentType: string, body: string)
    requires AllWithin(rs, |body|)
    ensures var (data, parts) := (Assembled(rs, boundary, contentType, body), Parts(rs, boundary, contentType, body));
            parts <= data && data[|parts|..] == "--" + boundary + "--"
  {
  }
}
