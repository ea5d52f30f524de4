/** The server's side of multipart forms (httplib.h): reading a body with the parser, its callbacks and its multimap of
    files, and agreeing on the boundary. */
module MultipartForm {
  import opened Wrappers
  import opened Scanning
  import opened Multipart
  import opened RoundTrip = MultipartRoundTrip
  import opened FormHeaders
  import B = Byteranges
  import Q = Query

  const FILE_MAX_COUNT := 1024

  /** The server's callbacks accept so many files. */
  function ServerAccepts(): Receivers { (events: seq<Event>) => |Collect(events)| <= FILE_MAX_COUNT }

  /** The multimap of files: those of one name in the order of their insertion. */
  function Filed(items: seq<Item>): map<string, seq<Item>> {
    if items == [] then map[]
    else
      var files, it := Filed(items[..|items| - 1]), items[|items| - 1];
      files[it.name := (if it.name in files then files[it.name] else []) + [it]]
  }

  function ByName(items: seq<Item>, name: string): seq<Item> {
    if items == [] then []
    else ByName(items[..|items| - 1], name) + if items[|items| - 1].name == name then [items[|items| - 1]] else []
  }

  /** Every file is filed under its name, and files of one name in the order in which they were sent. */
  lemma {:induction false} FiledByName(items: seq<Item>, name: string)
    ensures name in Filed(items) <==> exists i :: 0 <= i < |items| && items[i].name == name
    ensures name in Filed(items) ==> Filed(items)[name] == ByName(items, name)
    ensures name !in Filed(items) ==> ByName(items, name) == []
  {
    if items != [] {
      var n := |items| - 1;
      FiledByName(items[..n], name);
      assert forall i :: 0 <= i < n ==> items[..n][i] == items[i];
    }
  }

  /** `Server::read_content_core` for a multipart body, with the callbacks of `Server::read_content`: the chunks come
      as the transport delivers them. */
  method ReadForm(boundary: string, chunks: seq<string>) returns (ok: bool, files: map<string, seq<Item>>)
    ensures var (q, fed) := FeedAll(FRESH, chunks, boundary, ServerAccepts());
            ok == (fed && q.isValid) && (ok ==> files == Filed(Collect(q.events)))
    ensures forall items | Sent(items, boundary, chunks) :: ok && files == Filed(items)
  {
    var parser := new MultipartFormDataParser();
    parser.SetBoundary(boundary);
    var fed := true;
    var i := 0;
    ghost var whole := FeedAll(FRESH, chunks, boundary, ServerAccepts());
    assert chunks[0..] == chunks;
    while i < |chunks| && fed
      invariant i <= |chunks| && parser.Valid() && fresh(parser) && fresh(parser.buf) && parser.boundary == boundary
      invariant whole == if fed then FeedAll(parser.Abstract(), chunks[i..], boundary, ServerAccepts())
                         else (parser.Abstract(), false)
    {
      assert chunks[i..][1..] == chunks[i + 1..];
      fed := parser.Parse(chunks[i], ServerAccepts());
      i := i + 1;
    }
    forall items | Sent(items, boundary, chunks) ensures whole.1 && whole.0.isValid && Collect(whole.0.events) == items {
      RoundTrip.MultipartRoundTrip(items, boundary, chunks, ServerAccepts());
    }
    ok, files := fed && parser.isValid, Filed(Collect(parser.events));
  }

  /** The chunks are a serialized form, the first of them holding the opening line. */
  ghost predicate Sent(items: seq<Item>, boundary: string, chunks: seq<string>) {
    && 0 < |items| <= FILE_MAX_COUNT && AllCarriable(items, boundary)
    && Concat(chunks) == Serialized(items, boundary) && chunks != [] && |Opening(boundary)| <= |chunks[0]|
  }

  // ---------------------------------------------------------------- the boundary parameter

  const BOUNDARY_KEYWORD := "boundary="

  function ContentTypeOf(boundary: string): string { "multipart/form-data; boundary=" + boundary }

  /** `parse_multipart_boundary`. */
  function ParsedBoundary(contentType: string): Option<string> {
    var pos := Find(contentType, BOUNDARY_KEYWORD);
    if pos == |contentType| then None
    else
      var beg := pos + |BOUNDARY_KEYWORD|;
      KeywordPlain(contentType, pos);
      var boundary := Unquote(contentType[beg..FindFrom(contentType, ";", pos)]);
      if boundary == "" then None else Some(boundary)
  }

  lemma KeywordPlain(contentType: string, pos: nat)
    requires OccursAt(contentType, BOUNDARY_KEYWORD, pos)
    ensures pos + |BOUNDARY_KEYWORD| <= FindFrom(contentType, ";", pos)
    ensures FindFrom(contentType, ";", pos) == FindFrom(contentType, ";", pos + |BOUNDARY_KEYWORD|)
  {
    var beg := pos + |BOUNDARY_KEYWORD|;
    var r := FindFrom(contentType, ";", beg);
    forall j | pos <= j < r ensures contentType[j] != ';' {
      if j < beg {
        assert contentType[pos..beg][j - pos] == contentType[j];
      } else {
        assert !OccursAt(contentType, ";", j);
        assert contentType[j..j + 1] == [contentType[j]];
      }
    }
    if r < |contentType| {
      assert contentType[r..r + 1][0] == contentType[r];
    }
    FindCharIs(contentType, ';', pos, r);
  }

  lemma KeywordAt(boundary: string)
    ensures Find(ContentTypeOf(boundary), BOUNDARY_KEYWORD) == 21
  {
    var t := ContentTypeOf(boundary);
    assert t[21..30] == BOUNDARY_KEYWORD;
    forall j: nat | j < 21 ensures !OccursAt(t, BOUNDARY_KEYWORD, j) {
      assert t[j] == "multipart/form-data; "[j] != 'b';
      assert j + 9 <= |t| && t[j..j + 9][0] == t[j];
    }
    FindIs(t, BOUNDARY_KEYWORD, 0, 21);
  }

  /** The receiver learns the boundary of the sender if and only if that is not empty, holds no semicolon and is
      not put in quotes. */
  lemma BoundaryRoundTrip(boundary: string)
    ensures ParsedBoundary(ContentTypeOf(boundary)) == Some(boundary)
            <==> boundary != "" && ';' !in boundary && Unquote(boundary) == boundary
  {
    var t := ContentTypeOf(boundary);
    KeywordAt(boundary);
    KeywordPlain(t, 21);
    BehindKeyword(boundary);
    hide Find, FindFrom, OccursAt, ContentTypeOf;
    var e := FindFrom(t, ";", 30);
    if ';' in boundary {
      assert |t[30..e]| < |boundary|;
    }
  }

  lemma BehindKeyword(boundary: string)
    ensures var (t, e) := (ContentTypeOf(boundary), FindFrom(ContentTypeOf(boundary), ";", 30));
            && |t| == 30 + |boundary| && 30 <= e <= |t|
            && (if ';' in boundary then e < |t| else t[30..e] == boundary)
  {
    var t := ContentTypeOf(boundary);
    assert t[30..] == boundary;
    if ';' in boundary {
      var k :| 0 <= k < |boundary| && boundary[k] == ';';
      assert t[30 + k..30 + k + 1] == ";" && OccursAt(t, ";", 30 + k);
    } else {
      assert forall j :: 30 <= j < |t| ==> t[j] == boundary[j - 30];
      FindCharIs(t, ';', 30, |t|);
      assert t[30..|t|] == boundary;
    }
  }

  // ---------------------------------------------------------------- what a reader of the form finds

  /** The head of an item, line by line: the delimiter, the disposition with a file name only if there is one, the
      type if there is one, and an empty line. */
  function HeadLines(it: Item, boundary: string): seq<string> {
    var named := if it.filename == "" then "" else "; filename=\"" + it.filename + "\"";
    ["--" + boundary] + ["Content-Disposition: form-data; name=\"" + it.name + "\"" + named]
    + (if it.contentType == "" then [""] else ["Content-Type: " + it.contentType, ""])
  }

  lemma ItemLines(it: Item, boundary: string, rest: string)
    requires B.NoReturn(boundary) && B.NoReturn(it.name) && B.NoReturn(it.filename) && B.NoReturn(it.contentType)
    ensures var lines := HeadLines(it, boundary); B.ReadLines(ItemBegin(it, boundary) + rest, |lines|) == (lines, rest)
  {
    var a, b, c := "--" + boundary, DispositionLine(it.name, it.filename), ContentTypeLine(it.contentType);
    HeadText(it, boundary, rest);
    HeadLinesAre(it, boundary);
    TypedOrNot(a, b, c, rest);
    hide *;
  }

  lemma HeadLinesAre(it: Item, boundary: string)
    requires B.NoReturn(boundary) && B.NoReturn(it.name) && B.NoReturn(it.filename) && B.NoReturn(it.contentType)
    ensures var (a, b, c) := ("--" + boundary, DispositionLine(it.name, it.filename), ContentTypeLine(it.contentType));
            && B.NoReturn(a) && B.NoReturn(b) && B.NoReturn(c)
            && HeadLines(it, boundary) == [a] + [b] + (if it.contentType == "" then [""] else [c, ""])
            && |HeadLines(it, boundary)| == if it.contentType == "" then 3 else 4
  {
    DispositionIs(it.name, it.filename);
    hide DispositionLine;
  }

  lemma TypedOrNot(a: string, b: string, c: string, rest: string)
    requires B.NoReturn(a) && B.NoReturn(b) && B.NoReturn(c)
    ensures B.ReadLines(a + CRLF + (b + CRLF + ("" + CRLF + rest)), 3) == ([a] + [b] + [""], rest)
    ensures B.ReadLines(a + CRLF + (b + CRLF + (c + CRLF + ("" + CRLF + rest))), 4) == ([a] + [b] + [c, ""], rest)
  {
    hide B.ReadLines, B.NoReturn;
    B.ThreeLines(a, b, rest);
    assert [a] + [] + [b, ""] == [a] + [b] + [""];
    B.FourLines(a, b, c, rest);
  }

  lemma DispositionIs(name: string, filename: string)
    requires B.NoReturn(name) && B.NoReturn(filename)
    ensures B.NoReturn(DispositionLine(name, filename))
    ensures DispositionLine(name, filename)
         == "Content-Disposition: form-data; name=\"" + name + "\""
            + if filename == "" then "" else "; filename=\"" + filename + "\""
  {
  }

  lemma HeadText(it: Item, boundary: string, rest: string)
    ensures var (a, b, c) := ("--" + boundary, DispositionLine(it.name, it.filename), ContentTypeLine(it.contentType));
            var tail := "" + CRLF + rest;
            ItemBegin(it, boundary) + rest
            == if it.contentType == "" then a + CRLF + (b + CRLF + tail) else a + CRLF + (b + CRLF + (c + CRLF + tail))
  {
    hide DispositionLine, ContentTypeLine, Joined;
    var a, b, c := "--" + boundary, DispositionLine(it.name, it.filename), ContentTypeLine(it.contentType);
    JoinedOne(b);
    JoinedTwo(b, c);
    assert [b] + [] == [b] && [b] + [c] == [b, c];
    assert Opening(boundary) == a + CRLF;
    if it.contentType == "" {
      assert Lines(it) == [b];
      assert ItemBegin(it, boundary) == a + CRLF + (b + CRLF) + CRLF;
    } else {
      assert Lines(it) == [b, c];
      assert ItemBegin(it, boundary) == a + CRLF + (b + CRLF + c + CRLF) + CRLF;
    }
    LinesText(a, b, c, rest);
  }

  lemma LinesText(a: string, b: string, c: string, rest: string)
    ensures (a + CRLF + (b + CRLF) + CRLF) + rest == a + CRLF + (b + CRLF + ("" + CRLF + rest))
    ensures (a + CRLF + (b + CRLF + c + CRLF) + CRLF) + rest == a + CRLF + (b + CRLF + (c + CRLF + ("" + CRLF + rest)))
  {
  }

  /** Behind the last item comes the closing delimiter. */
  lemma FormEnds(items: seq<Item>, boundary: string)
    ensures var (form, parts) := (Serialized(items, boundary), Parts(items, boundary));
            parts <= form && form[|parts|..] == "--" + boundary + "--\r\n"
  {
  }
}
