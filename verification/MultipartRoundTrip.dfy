/** The multipart serializer of httplib.h, and the round trip: whatever the chunks in which the parser is given
    the serialized items, its callbacks give the items back. */
module MultipartRoundTrip {
  import opened Wrappers
  import opened Scanning
  import opened FormHeaders
  import opened FormNames
  import opened Multipart
  import Q = Query

  datatype Item = Item(name: string, content: string, filename: string, contentType: string)

  // ---------------------------------------------------------------- the serializer

  function ItemBegin(it: Item, boundary: string): string {
    Opening(boundary) + Joined(Lines(it)) + CRLF
  }

  /** The header lines of an item; no content type is written when there is none. */
  function Lines(it: Item): (r: seq<string>) {
    [DispositionLine(it.name, it.filename)] + if it.contentType == "" then [] else [ContentTypeLine(it.contentType)]
  }

  function Joined(lines: seq<string>): string {
    if lines == [] then "" else lines[0] + CRLF + Joined(lines[1..])
  }

  function Parts(items: seq<Item>, boundary: string): string {
    if items == [] then "" else ItemBegin(items[0], boundary) + items[0].content + CRLF + Parts(items[1..], boundary)
  }

  function Finish(boundary: string): string { DASH + boundary + DASH + CRLF }

  function Serialized(items: seq<Item>, boundary: string): string {
    Parts(items, boundary) + Finish(boundary)
  }

  method SerializeItemBegin(item: Item, boundary: string) returns (body: string)
    ensures body == ItemBegin(item, boundary)
  {
    body := "--" + boundary + "\r\n";
    ghost var opening := body;
    var line := "Content-Disposition: form-data; name=\"" + item.name + "\"";
    if item.filename != "" {
      line := line + "; filename=\"" + item.filename + "\"";
    }
    assert line == DispositionLine(item.name, item.filename);
    body := body + line + "\r\n";
    var lines := [line];
    JoinedOne(line);
    if item.contentType != "" {
      body := body + "Content-Type: " + item.contentType + "\r\n";
      JoinedTwo(line, ContentTypeLine(item.contentType));
    }
    body := body + "\r\n";
  }

  lemma JoinedOne(a: string)
    ensures Joined([a]) == a + CRLF
  {
  }

  lemma JoinedTwo(a: string, b: string)
    ensures Joined([a, b]) == a + CRLF + b + CRLF
  {
    JoinedOne(b);
    assert [a, b][1..] == [b];
  }

  method SerializeMultipartFormdata(items: seq<Item>, boundary: string, finish: bool) returns (body: string)
    ensures body == if finish then Serialized(items, boundary) else Parts(items, boundary)
  {
    hide Parts, ItemBegin;
    body := "";
    NoParts(items, boundary);
    for i := 0 to |items|
      invariant Parts(items, boundary) == body + Parts(items[i..], boundary)
    {
      var begin := SerializeItemBegin(items[i], boundary);
      PartsStep(body, items, i, boundary);
      body := body + begin;
      body := body + (items[i].content + CRLF);
    }
    assert body + "" == body;
    if finish {
      body := body + Finish(boundary);
    }
  }

  lemma NoParts(items: seq<Item>, boundary: string)
    ensures items[0..] == items && "" + Parts(items, boundary) == Parts(items, boundary)
    ensures Parts(items[|items|..], boundary) == ""
  {
  }

  lemma PartsStep(body: string, items: seq<Item>, i: nat, boundary: string)
    requires i < |items|
    ensures body + Parts(items[i..], boundary)
         == body + ItemBegin(items[i], boundary) + (items[i].content + CRLF) + Parts(items[i + 1..], boundary)
  {
    assert items[i..][1..] == items[i + 1..];
    Regroup4(body, ItemBegin(items[i], boundary), items[i].content, CRLF, Parts(items[i + 1..], boundary));
  }

  lemma Regroup4(a: string, b: string, c: string, d: string, e: string)
    ensures a + (b + c + d + e) == a + b + (c + d) + e
  {
  }

  // ---------------------------------------------------------------- the stream after the opening line

  /** What follows the delimiter after which `todo` is still to come. */
  function AfterMark(todo: seq<Item>, boundary: string): string
    decreases |todo|, 3
  {
    if todo == [] then DASH + CRLF else CRLF + FromEntry(todo, boundary)
  }

  /** What follows the opening line of the first of `todo`. */
  function FromEntry(todo: seq<Item>, boundary: string): string
    requires todo != []
    decreases |todo|, 2
  {
    Joined(Lines(todo[0])) + FromBlank(todo, boundary)
  }

  function FromBlank(todo: seq<Item>, boundary: string): string
    requires todo != []
    decreases |todo|, 1
  {
    CRLF + (todo[0].content + FromDelimiter(todo, boundary))
  }

  function FromDelimiter(todo: seq<Item>, boundary: string): string
    requires todo != []
    decreases |todo|, 0
  {
    Delimiter(boundary) + AfterMark(todo[1..], boundary)
  }

  lemma {:induction false} SerializedIs(todo: seq<Item>, boundary: string)
    ensures CRLF + Serialized(todo, boundary) == Delimiter(boundary) + AfterMark(todo, boundary)
    ensures todo != [] ==> Serialized(todo, boundary) == Opening(boundary) + FromEntry(todo, boundary)
    decreases |todo|
  {
    if todo == [] {
      FinishIs(boundary);
    } else {
      hide Opening, Delimiter, Lines, Joined, Finish;
      var it, rest := todo[0], todo[1..];
      SerializedIs(rest, boundary);
      OneItem(Opening(boundary), Joined(Lines(it)), it.content, Parts(rest, boundary), Finish(boundary));
      assert FromDelimiter(todo, boundary) == CRLF + (Parts(rest, boundary) + Finish(boundary));
      assert FromBlank(todo, boundary) == CRLF + (it.content + (CRLF + (Parts(rest, boundary) + Finish(boundary))));
      assert Parts(todo, boundary) == ItemBegin(it, boundary) + it.content + CRLF + Parts(rest, boundary);
      assert Serialized(todo, boundary) == Opening(boundary) + FromEntry(todo, boundary);
      OpeningIsDelimiter(boundary, FromEntry(todo, boundary));
    }
  }

  lemma FinishIs(boundary: string)
    ensures CRLF + ("" + Finish(boundary)) == Delimiter(boundary) + (DASH + CRLF)
  {
  }

  lemma OneItem(o: string, h: string, c: string, parts: string, finish: string)
    ensures (o + h + CRLF + c + CRLF + parts) + finish == o + (h + (CRLF + (c + (CRLF + (parts + finish)))))
  {
  }

  lemma OpeningIsDelimiter(boundary: string, t: string)
    ensures CRLF + (Opening(boundary) + t) == Delimiter(boundary) + (CRLF + t)
  {
  }

  // ---------------------------------------------------------------- what the callbacks collect

  /** The server's callbacks: a header opens an item, content is appended to the item opened last. */
  function Collect(events: seq<Event>): seq<Item> {
    if events == [] then []
    else
      var items := Collect(events[..|events| - 1]);
      match events[|events| - 1]
      case Header(f) => items + [Item(f.name, "", f.filename, f.contentType)]
      case Content(data) =>
        if items == [] then [] else items[|items| - 1 := Appended(items[|items| - 1], data)]
  }

  function Appended(it: Item, data: string): Item { it.(content := it.content + data) }

  lemma CollectHeader(events: seq<Event>, f: File)
    ensures Collect(events + [Header(f)]) == Collect(events) + [Item(f.name, "", f.filename, f.contentType)]
  {
    assert (events + [Header(f)])[..|events|] == events;
  }

  lemma CollectContent(events: seq<Event>, data: string, done: seq<Item>, it: Item)
    requires Collect(events) == done + [it]
    ensures Collect(events + [Content(data)]) == done + [Appended(it, data)]
  {
    assert (events + [Content(data)])[..|events|] == events;
  }

  // ---------------------------------------------------------------- what survives

  /** Names and content type come back through their header lines. */
  predicate Sayable(it: Item) {
    NamesSurvive(it.name, it.filename) && (it.contentType != "" ==> TypeSurvives(it.contentType))
  }

  predicate ShortLines(it: Item) { forall n :: 0 <= n < |Lines(it)| ==> |Lines(it)[n]| < HEADER_MAX_LENGTH }

  ghost predicate NoDelimiter(content: string, boundary: string) {
    forall j: nat :: !OccursAt(content, Delimiter(boundary), j)
  }

  /** An item that the format can carry under this boundary. */
  ghost predicate Carriable(it: Item, boundary: string) {
    Sayable(it) && ShortLines(it) && NoDelimiter(it.content, boundary)
  }

  ghost predicate AllCarriable(items: seq<Item>, boundary: string) {
    '\r' !in boundary && forall i :: 0 <= i < |items| ==> Carriable(items[i], boundary)
  }

  /** The file as the first `n` header lines of an item leave it. */
  function FileUpTo(it: Item, n: nat): File {
    if n == 0 then NO_FILE
    else File(it.name, it.filename, if n == 1 then "" else it.contentType)
  }

  /** A text without a line end. */
  ghost predicate OneLine(s: string) { forall j: nat :: !OccursAt(s, CRLF, j) }

  lemma NoReturn(s: string)
    requires '\r' !in s
    ensures OneLine(s)
  {
    forall j: nat ensures !OccursAt(s, CRLF, j) {
      if j + 2 <= |s| {
        assert s[j..j + 2][0] == s[j];
      }
    }
  }

  lemma LineApplies(it: Item, n: nat)
    requires Sayable(it) && n < |Lines(it)|
    ensures Lines(it)[n] != "" && OneLine(Lines(it)[n])
    ensures ApplyHeader(FileUpTo(it, n), Lines(it)[n]) == (true, FileUpTo(it, n + 1))
  {
    hide Q.Decoded, ApplyHeader, DispositionParams, Strip, OneLine;
    if n == 0 {
      ParamsCleanWhole(it.name, it.filename);
      DispositionApplies(NO_FILE, it.name, it.filename);
      ParamsClean(it.name, it.filename);
    } else {
      CleanWhole(it.contentType);
      ContentTypeApplies(FileUpTo(it, 1), it.contentType);
    }
    NoReturn(Lines(it)[n]);
  }

  // ---------------------------------------------------------------- where the delimiters are

  /** Searching in the part of a text that has arrived. */
  lemma FindInPrefix(buf: string, rest: string, pat: string, n: nat)
    requires pat != "" && OccursAt(buf + rest, pat, n) && forall j: nat :: j < n ==> !OccursAt(buf + rest, pat, j)
    ensures Find(buf, pat) == if n + |pat| <= |buf| then n else |buf|
  {
    forall j: nat | OccursAt(buf, pat, j) ensures OccursAt(buf + rest, pat, j) {
      assert (buf + rest)[j..j + |pat|] == buf[j..j + |pat|];
    }
    if n + |pat| <= |buf| {
      assert (buf + rest)[n..n + |pat|] == buf[n..n + |pat|];
      FindIs(buf, pat, 0, n);
    } else {
      FindNone(buf, pat, 0);
    }
  }

  /** A line ends at the first line end. */
  lemma FindLine(buf: string, rest: string, line: string, more: string)
    requires buf + rest == line + CRLF + more && OneLine(line)
    ensures Find(buf, CRLF) == if |line| + 2 <= |buf| then |line| else |buf|
  {
    var t := buf + rest;
    assert t[|line|..|line| + 2] == CRLF;
    forall j: nat | j < |line| ensures !OccursAt(t, CRLF, j) {
      assert !OccursAt(line, CRLF, j);
      if j + 2 <= |line| {
        assert t[j..j + 2] == line[j..j + 2];
      } else {
        assert t[j..j + 2][1] == t[|line|] == '\r' && CRLF[1] == '\n';
      }
    }
    FindInPrefix(buf, rest, CRLF, |line|);
  }

  /** The delimiter has no border: its only carriage return is its first character. So behind content without
      it, it occurs nowhere before its own place. */
  lemma DelimiterFirst(content: string, boundary: string, after: string)
    requires '\r' !in boundary && NoDelimiter(content, boundary)
    ensures var t := content + (Delimiter(boundary) + after);
            OccursAt(t, Delimiter(boundary), |content|) && forall j: nat :: j < |content| ==> !OccursAt(t, Delimiter(boundary), j)
  {
    var d := Delimiter(boundary);
    var t := content + (d + after);
    assert t[|content|..|content| + |d|] == d;
    forall j: nat | j < |content| ensures !OccursAt(t, d, j) {
      if j + |d| <= |content| {
        assert t[j..j + |d|] == content[j..j + |d|];
        assert !OccursAt(content, d, j);
      } else if j + |d| <= |t| {
        var i := |content| - j;
        assert t[j..j + |d|][i] == t[|content|] == d[0] == '\r';
        assert d[i] != '\r';
      }
    }
  }

  lemma NoDelimiterLater(content: string, d: string, sent: nat)
    requires sent <= |content| && forall j: nat :: !OccursAt(content, d, j)
    ensures forall j: nat :: !OccursAt(content[sent..], d, j)
  {
    forall j: nat ensures !OccursAt(content[sent..], d, j) {
      if OccursAt(content[sent..], d, j) {
        assert content[sent..][j..j + |d|] == content[sent + j..sent + j + |d|];
        assert OccursAt(content, d, sent + j);
      }
    }
  }

  // ---------------------------------------------------------------- the places of a run

  /** Where the parser is in the serialized items, `todo` being the item it is in and those behind it (behind a
      delimiter: those still to come): with `n` header lines read, or `sent` bytes of the content delivered. */
  datatype Place =
    | Entry(todo: seq<Item>)
    | Head(todo: seq<Item>, n: nat)
    | InContent(todo: seq<Item>, sent: nat)
    | Mark(todo: seq<Item>)
    | End(tail: string)

  predicate InPlace(pl: Place) {
    match pl
    case Entry(todo) => todo != []
    case Head(todo, n) => todo != [] && n <= |Lines(todo[0])|
    case InContent(todo, sent) => todo != [] && sent <= |todo[0].content|
    case Mark(_) => true
    case End(tail) => tail == CRLF || tail == "\n" || tail == ""
  }

  function Todo(pl: Place): seq<Item> { if pl.End? then [] else pl.todo }

  /** The bytes between this place and the end of the message. */
  function Left(pl: Place, boundary: string): string
    requires InPlace(pl)
  {
    match pl
    case Entry(todo) => FromEntry(todo, boundary)
    case Head(todo, n) => Joined(Lines(todo[0])[n..]) + FromBlank(todo, boundary)
    case InContent(todo, sent) => todo[0].content[sent..] + FromDelimiter(todo, boundary)
    case Mark(todo) => AfterMark(todo, boundary)
    case End(tail) => tail
  }

  predicate At(p: Parser, pl: Place)
    requires InPlace(pl)
  {
    match pl
    case Entry(_) => p.state.NewEntry?
    case Head(todo, n) => p.state.Headers? && p.file == FileUpTo(todo[0], n)
    case InContent(_, _) => p.state.Body?
    case Mark(_) => p.state.Boundary?
    case End(tail) => p.isValid && (p.state.Boundary? || (p.state.NewEntry? && tail == ""))
  }

  /** What the callbacks have collected by then. */
  function Got(pl: Place, done: seq<Item>): seq<Item>
    requires InPlace(pl)
  {
    if pl.InContent? then done + [pl.todo[0].(content := pl.todo[0].content[..pl.sent])] else done
  }

  /** The message, of which `rest` has not arrived. */
  ghost predicate Inv(p: Parser, rest: string, pl: Place, done: seq<Item>, items: seq<Item>, boundary: string) {
    && InPlace(pl) && At(p, pl) && Collect(p.events) == Got(pl, done) && done + Todo(pl) == items
    && p.buf + rest == Left(pl, boundary)
  }

  ghost predicate Accepting(accept: Receivers, items: seq<Item>) {
    forall events :: |Collect(events)| <= |items| ==> accept(events)
  }

  /** A step that returns does so without an error, and not with the whole message before it. */
  ghost predicate Waits(r: Outcome, rest: string, pl: Place) {
    r.Return? ==> r.ok && (rest == "" ==> pl.End?)
  }

  lemma EntryKeeps(p: Parser, rest: string, pl: Place, done: seq<Item>, items: seq<Item>, boundary: string,
                   accept: Receivers)
    returns (pl': Place)
    requires Inv(p, rest, pl, done, items, boundary) && pl.Entry? && p.buf != ""
    ensures var r := Step(p, boundary, accept); Inv(r.p, rest, pl', done, items, boundary) && Waits(r, rest, pl')
  {
    pl' := Head(pl.todo, 0);
    assert Lines(pl.todo[0])[0..] == Lines(pl.todo[0]);
  }

  lemma HeaderStep(it: Item, n: nat, blank: string)
    ensures n < |Lines(it)| ==> Joined(Lines(it)[n..]) + blank == Lines(it)[n] + CRLF + (Joined(Lines(it)[n + 1..]) + blank)
    ensures n == |Lines(it)| ==> Joined(Lines(it)[n..]) + blank == blank
  {
    if n < |Lines(it)| {
      assert Lines(it)[n..][1..] == Lines(it)[n + 1..];
      RegroupLine(Lines(it)[n], CRLF, Joined(Lines(it)[n + 1..]), blank);
    }
  }

  lemma RegroupLine(a: string, b: string, c: string, d: string)
    ensures a + b + c + d == a + b + (c + d)
  {
  }

  /** Dropping what has been read from the bytes that have arrived. */
  lemma DropRead(buf: string, rest: string, read: string, more: string)
    requires buf + rest == read + more && |read| <= |buf|
    ensures buf[..|read|] == read && buf[|read|..] + rest == more
  {
    assert (buf + rest)[..|read|] == read && (buf + rest)[|read|..] == more;
    assert (buf + rest)[..|read|] == buf[..|read|] && (buf + rest)[|read|..] == buf[|read|..] + rest;
  }

  /** A header line is either not complete, or read. */
  lemma LineKeeps(p: Parser, rest: string, todo: seq<Item>, n: nat, done: seq<Item>, items: seq<Item>,
                  boundary: string, accept: Receivers)
    requires todo != [] && n < |Lines(todo[0])| && Inv(p, rest, Head(todo, n), done, items, boundary)
    requires AllCarriable(items, boundary)
    ensures var size := |Lines(todo[0])[n]| + 2;
            if |p.buf| < size then rest != "" && HeaderLines(p, accept) == Return(p, true)
            else var q := p.(file := FileUpTo(todo[0], n + 1), buf := p.buf[size..]);
                 HeaderLines(p, accept) == HeaderLines(q, accept) && Inv(q, rest, Head(todo, n + 1), done, items, boundary)
  {
    hide Joined, FromBlank, FindFrom, ApplyHeader, Collect, Lines, OccursAt, FileUpTo, Sayable, ShortLines, NoDelimiter;
    var it := todo[0];
    assert items[|done|] == it;
    HeaderStep(it, n, FromBlank(todo, boundary));
    var line, more := Lines(it)[n], Joined(Lines(it)[n + 1..]) + FromBlank(todo, boundary);
    LineApplies(it, n);
    FindLine(p.buf, rest, line, more);
    if |line| + 2 <= |p.buf| {
      DropRead(p.buf, rest, line + CRLF, more);
      assert p.buf[..|line|] == line;
    }
  }

  lemma {:induction false} HeaderLinesKeep(p: Parser, rest: string, todo: seq<Item>, n: nat, done: seq<Item>,
                                           items: seq<Item>, boundary: string, accept: Receivers)
    returns (pl': Place)
    requires todo != [] && n <= |Lines(todo[0])| && Inv(p, rest, Head(todo, n), done, items, boundary)
    requires AllCarriable(items, boundary) && Accepting(accept, items)
    ensures var r := HeaderLines(p, accept); Inv(r.p, rest, pl', done, items, boundary) && Waits(r, rest, pl')
    decreases |p.buf|
  {
    hide Inv, HeaderLines, AllCarriable, Accepting, Lines, FileUpTo;
    var it := todo[0];
    if n < |Lines(it)| {
      LineKeeps(p, rest, todo, n, done, items, boundary, accept);
      var size := |Lines(it)[n]| + 2;
      if |p.buf| < size {
        pl' := Head(todo, n);
      } else {
        var q := p.(file := FileUpTo(it, n + 1), buf := p.buf[size..]);
        pl' := HeaderLinesKeep(q, rest, todo, n + 1, done, items, boundary, accept);
      }
    } else {
      pl' := BlankLineKeeps(p, rest, todo, done, items, boundary, accept);
    }
  }

  lemma BlankLineKeeps(p: Parser, rest: string, todo: seq<Item>, done: seq<Item>, items: seq<Item>, boundary: string,
                       accept: Receivers)
    returns (pl': Place)
    requires todo != [] && Inv(p, rest, Head(todo, |Lines(todo[0])|), done, items, boundary)
    requires Accepting(accept, items)
    ensures var r := HeaderLines(p, accept); Inv(r.p, rest, pl', done, items, boundary) && Waits(r, rest, pl')
  {
    var it, more := todo[0], todo[0].content + FromDelimiter(todo, boundary);
    HeaderStep(it, |Lines(it)|, FromBlank(todo, boundary));
    assert "" + CRLF + more == CRLF + more;
    FindLine(p.buf, rest, "", more);
    if |p.buf| < 2 {
      pl' := Head(todo, |Lines(it)|);
    } else {
      DropRead(p.buf, rest, CRLF, more);
      CollectHeader(p.events, p.file);
      pl' := InContent(todo, 0);
      assert it.content[0..] == it.content && it.content[..0] == "";
    }
  }

  /** The check of the length of the buffered line never fails: a line of the message is shorter, and a line
      end that has arrived only in part does not count. */
  lemma LineShort(p: Parser, rest: string, todo: seq<Item>, n: nat, done: seq<Item>, items: seq<Item>, boundary: string)
    requires todo != [] && n <= |Lines(todo[0])| && Inv(p, rest, Head(todo, n), done, items, boundary)
    requires AllCarriable(items, boundary)
    ensures Find(p.buf, CRLF) <= HEADER_MAX_LENGTH
  {
    hide Joined, FromBlank, FindFrom, Collect, Lines, OccursAt, Sayable, NoDelimiter;
    var it := todo[0];
    assert items[|done|] == it;
    HeaderStep(it, n, FromBlank(todo, boundary));
    if n < |Lines(it)| {
      LineApplies(it, n);
      FindLine(p.buf, rest, Lines(it)[n], Joined(Lines(it)[n + 1..]) + FromBlank(todo, boundary));
    } else {
      BlankShort(p.buf, rest, todo, boundary);
    }
  }

  lemma BlankShort(buf: string, rest: string, todo: seq<Item>, boundary: string)
    requires todo != [] && buf + rest == FromBlank(todo, boundary)
    ensures Find(buf, CRLF) <= 1
  {
    var more := todo[0].content + FromDelimiter(todo, boundary);
    assert "" + CRLF + more == CRLF + more;
    FindLine(buf, rest, "", more);
  }

  lemma HeadKeeps(p: Parser, rest: string, pl: Place, done: seq<Item>, items: seq<Item>, boundary: string,
                  accept: Receivers)
    returns (pl': Place)
    requires Inv(p, rest, pl, done, items, boundary) && pl.Head? && p.buf != ""
    requires AllCarriable(items, boundary) && Accepting(accept, items)
    ensures var r := Step(p, boundary, accept); Inv(r.p, rest, pl', done, items, boundary) && Waits(r, rest, pl')
  {
    LineShort(p, rest, pl.todo, pl.n, done, items, boundary);
    pl' := HeaderLinesKeep(p, rest, pl.todo, pl.n, done, items, boundary, accept);
    hide HeaderLines, Find, AllCarriable, Accepting;
  }

  /** Where the delimiter is found in what has arrived of the content and the bytes behind it. */
  lemma FindDelimiter(buf: string, rest: string, todo: seq<Item>, sent: nat, boundary: string)
    requires todo != [] && sent <= |todo[0].content| && Carriable(todo[0], boundary) && '\r' !in boundary
    requires buf + rest == todo[0].content[sent..] + FromDelimiter(todo, boundary)
    ensures var (n, d) := (|todo[0].content| - sent, Delimiter(boundary));
            Find(buf, d) == if n + |d| <= |buf| then n else |buf|
  {
    var d := Delimiter(boundary);
    NoDelimiterLater(todo[0].content, d, sent);
    DelimiterFirst(todo[0].content[sent..], boundary, AfterMark(todo[1..], boundary));
    FindInPrefix(buf, rest, d, |todo[0].content| - sent);
  }

  lemma BodyKeeps(p: Parser, rest: string, pl: Place, done: seq<Item>, items: seq<Item>, boundary: string,
                  accept: Receivers)
    returns (pl': Place, done': seq<Item>)
    requires Inv(p, rest, pl, done, items, boundary) && pl.InContent? && p.buf != ""
    requires AllCarriable(items, boundary) && Accepting(accept, items)
    ensures var r := Step(p, boundary, accept); Inv(r.p, rest, pl', done', items, boundary) && Waits(r, rest, pl')
  {
    hide Collect, Carriable, AfterMark, Delimiter, Find;
    var it, d := pl.todo[0], Delimiter(boundary);
    var left := it.content[pl.sent..];
    assert items[|done|] == it;
    FindDelimiter(p.buf, rest, pl.todo, pl.sent, boundary);
    DelimiterLength(boundary);
    if |left| + |d| <= |p.buf| {
      DropRead(p.buf, rest, left + d, AfterMark(pl.todo[1..], boundary)) by {
        Regroup(left, d, AfterMark(pl.todo[1..], boundary));
      }
      assert p.buf[..|left|] == left;
      DeliverKeeps(p, pl.todo, pl.sent, |left|, done);
      pl', done' := Mark(pl.todo[1..]), done + [it];
    } else if |p.buf| <= |d| {
      pl', done' := pl, done;
    } else {
      done' := done;
      pl' := PartKeeps(p, rest, pl, done, items, boundary, accept);
    }
  }

  lemma DelimiterLength(boundary: string)
    ensures |Delimiter(boundary)| == |boundary| + 4
  {
  }

  /** Content that is delivered extends the item in progress. */
  lemma DeliverKeeps(p: Parser, todo: seq<Item>, sent: nat, len: nat, done: seq<Item>)
    requires todo != [] && sent + len <= |todo[0].content| && len <= |p.buf|
    requires p.buf[..len] == todo[0].content[sent..][..len]
    requires Collect(p.events) == Got(InContent(todo, sent), done)
    ensures Collect(Deliver(p, len).events) == Got(InContent(todo, sent + len), done)
    ensures sent + len == |todo[0].content| ==> Got(InContent(todo, sent + len), done) == done + [todo[0]]
  {
    var c := todo[0].content;
    CollectContent(p.events, p.buf[..len], done, todo[0].(content := c[..sent]));
    assert c[..sent] + c[sent..][..len] == c[..sent + len];
    assert c[..|c|] == c;
  }

  /** Without the delimiter in the buffer, the last bytes, as many as it is long, are kept back: what is
      delivered is content. */
  lemma PartKeeps(p: Parser, rest: string, pl: Place, done: seq<Item>, items: seq<Item>, boundary: string,
                  accept: Receivers)
    returns (pl': Place)
    requires Inv(p, rest, pl, done, items, boundary) && pl.InContent? && Accepting(accept, items)
    requires var d := Delimiter(boundary);
             |d| < |p.buf| < |pl.todo[0].content| - pl.sent + |d| && Find(p.buf, d) == |p.buf|
    ensures var r := AtBody(p, boundary, accept); Inv(r.p, rest, pl', done, items, boundary) && Waits(r, rest, pl')
  {
    hide Collect, FromDelimiter, Delimiter, Find, FindFrom, OccursAt, Lines, Joined, AfterMark, FromEntry, FromBlank;
    var len := |p.buf| - |Delimiter(boundary)|;
    DropPart(p.buf, rest, pl.todo[0].content, pl.sent, len, FromDelimiter(pl.todo, boundary));
    DelimiterComes(pl.todo, boundary);
    AtBodyPart(p, boundary, accept);
    hide AtBody;
    DeliverKeeps(p, pl.todo, pl.sent, len, done);
    pl' := InContent(pl.todo, pl.sent + len);
  }

  lemma AtBodyPart(p: Parser, boundary: string, accept: Receivers)
    requires |Delimiter(boundary)| < |p.buf| && Find(p.buf, Delimiter(boundary)) == |p.buf|
    ensures var len := |p.buf| - |Delimiter(boundary)|;
            var q := Deliver(p, len);
            accept(q.events) ==> AtBody(p, boundary, accept) == Return(q.(buf := p.buf[len..]), true)
  {
  }

  lemma DelimiterComes(todo: seq<Item>, boundary: string)
    requires todo != []
    ensures |Delimiter(boundary)| <= |FromDelimiter(todo, boundary)|
  {
  }

  lemma DropPart(buf: string, rest: string, c: string, sent: nat, len: nat, more: string)
    requires sent + len <= |c| && len <= |buf| && buf + rest == c[sent..] + more
    ensures buf[..len] == c[sent..][..len] && buf[len..] + rest == c[sent + len..] + more
  {
    var left := c[sent..];
    assert left == left[..len] + left[len..] && left[len..] == c[sent + len..];
    Regroup(left[..len], left[len..], more);
    DropRead(buf, rest, left[..len], left[len..] + more);
  }

  lemma MarkKeeps(p: Parser, rest: string, pl: Place, done: seq<Item>, items: seq<Item>, boundary: string,
                  accept: Receivers)
    returns (pl': Place)
    requires Inv(p, rest, pl, done, items, boundary) && pl.Mark? && p.buf != ""
    ensures var r := Step(p, boundary, accept); Inv(r.p, rest, pl', done, items, boundary) && Waits(r, rest, pl')
  {
    hide Collect, FromEntry;
    if |p.buf| < 2 {
      pl' := pl;
    } else if pl.todo != [] {
      DropRead(p.buf, rest, CRLF, FromEntry(pl.todo, boundary));
      pl' := Entry(pl.todo);
    } else {
      DropRead(p.buf, rest, DASH, CRLF);
      TailOf(p.buf[2..], rest);
      assert p.buf[..2][0] == '-' && DASH <= p.buf && !(CRLF <= p.buf);
      assert "" + rest == rest && done + [] == done;
      pl' := End(rest);
    }
  }

  lemma TailOf(a: string, b: string)
    requires a + b == CRLF
    ensures b == CRLF || b == "\n" || b == ""
  {
    var t := a + b;
    assert t[|a|..] == b && |t| == 2 && t == CRLF;
    if |a| == 0 {
      assert t[0..] == t;
    } else if |a| == 1 {
      assert t[1..] == ['\n'] == "\n";
    } else {
      assert t[2..] == "";
    }
  }

  /** The last line end may still come; it does no harm. */
  lemma EndKeeps(p: Parser, rest: string, pl: Place, done: seq<Item>, items: seq<Item>, boundary: string,
                 accept: Receivers)
    returns (pl': Place)
    requires Inv(p, rest, pl, done, items, boundary) && pl.End? && p.buf != ""
    ensures var r := Step(p, boundary, accept); Inv(r.p, rest, pl', done, items, boundary) && Waits(r, rest, pl')
  {
    hide Collect;
    if |p.buf| < 2 {
      pl' := pl;
    } else {
      assert p.buf + rest == CRLF && rest == "" && p.buf == CRLF;
      pl' := End("");
    }
  }

  lemma StepKeeps(p: Parser, rest: string, pl: Place, done: seq<Item>, items: seq<Item>, boundary: string,
                  accept: Receivers)
    returns (pl': Place, done': seq<Item>)
    requires Inv(p, rest, pl, done, items, boundary) && p.buf != ""
    requires AllCarriable(items, boundary) && Accepting(accept, items)
    ensures var r := Step(p, boundary, accept); Inv(r.p, rest, pl', done', items, boundary) && Waits(r, rest, pl')
  {
    hide Inv, Step, Waits, AllCarriable, Accepting;
    done' := done;
    match pl {
      case Entry(_) => pl' := EntryKeeps(p, rest, pl, done, items, boundary, accept);
      case Head(_, _) => pl' := HeadKeeps(p, rest, pl, done, items, boundary, accept);
      case InContent(_, _) => pl', done' := BodyKeeps(p, rest, pl, done, items, boundary, accept);
      case Mark(_) => pl' := MarkKeeps(p, rest, pl, done, items, boundary, accept);
      case End(_) => pl' := EndKeeps(p, rest, pl, done, items, boundary, accept);
    }
  }

  lemma {:induction false} RunKeeps(p: Parser, rest: string, pl: Place, done: seq<Item>, items: seq<Item>,
                                    boundary: string, accept: Receivers)
    returns (pl': Place, done': seq<Item>)
    requires Inv(p, rest, pl, done, items, boundary)
    requires AllCarriable(items, boundary) && Accepting(accept, items)
    ensures var (q, ok) := Run(p, boundary, accept);
            ok && Inv(q, rest, pl', done', items, boundary) && (rest == "" ==> pl'.End?)
    decreases |p.buf|, if p.state.NewEntry? then 1 else 0
  {
    if p.buf == "" {
      SomethingLeft(p, rest, pl, done, items, boundary);
      pl', done' := pl, done;
    } else {
      pl', done' := StepKeeps(p, rest, pl, done, items, boundary, accept);
      var r := Step(p, boundary, accept);
      hide Inv, Step, AllCarriable, Accepting;
      if r.Next? {
        pl', done' := RunKeeps(r.p, rest, pl', done', items, boundary, accept);
      }
    }
  }

  lemma SomethingLeft(p: Parser, rest: string, pl: Place, done: seq<Item>, items: seq<Item>, boundary: string)
    requires Inv(p, rest, pl, done, items, boundary) && p.buf == ""
    ensures rest == "" ==> pl.End?
  {
    hide Collect;
    assert "" + rest == rest;
  }

  // ---------------------------------------------------------------- the round trip

  /** `parse` on one chunk after the other, until it fails. */
  function FeedAll(p: Parser, chunks: seq<string>, boundary: string, accept: Receivers): (Parser, bool)
    decreases |chunks|
  {
    if chunks == [] then (p, true)
    else
      var (q, ok) := Feed(p, chunks[0], boundary, accept);
      if ok then FeedAll(q, chunks[1..], boundary, accept) else (q, false)
  }

  lemma {:induction false} FeedAllKeeps(p: Parser, chunks: seq<string>, pl: Place, done: seq<Item>, items: seq<Item>,
                                        boundary: string, accept: Receivers)
    requires Inv(p, Concat(chunks), pl, done, items, boundary) && (Concat(chunks) == "" ==> pl.End?)
    requires AllCarriable(items, boundary) && Accepting(accept, items)
    ensures var (q, ok) := FeedAll(p, chunks, boundary, accept); ok && q.isValid && Collect(q.events) == items
    decreases |chunks|
  {
    if chunks == [] {
      assert done + [] == done;
    } else {
      var q := p.(buf := p.buf + chunks[0]);
      var rest := Concat(chunks[1..]);
      Regroup(p.buf, chunks[0], rest);
      assert Inv(q, rest, pl, done, items, boundary);
      hide Inv, AllCarriable, Accepting, Run;
      var pl', done' := RunKeeps(q, rest, pl, done, items, boundary, accept);
      FeedAllKeeps(Feed(p, chunks[0], boundary, accept).0, chunks[1..], pl', done', items, boundary, accept);
    }
  }

  /** Items that the format can carry come back: in every chunking of the serialized items whose first chunk holds
      the opening line, and with receivers that accept up to as many items, the parser ends valid and its
      callbacks have collected exactly the items, in order, each with its exact content. */
  lemma MultipartRoundTrip(items: seq<Item>, boundary: string, chunks: seq<string>, accept: Receivers)
    requires items != [] && AllCarriable(items, boundary) && Accepting(accept, items)
    requires Concat(chunks) == Serialized(items, boundary)
    requires chunks != [] && |Opening(boundary)| <= |chunks[0]|
    ensures var (q, ok) := FeedAll(FRESH, chunks, boundary, accept);
            ok && q.isValid && Collect(q.events) == items
  {
    var o, c, rest := Opening(boundary), chunks[0], Concat(chunks[1..]);
    SerializedIs(items, boundary);
    DropRead(c, rest, o, FromEntry(items, boundary));
    var p := FRESH.(buf := FRESH.buf + c);
    assert p.buf == c;
    OpeningStep(p, boundary, accept);
    hide AllCarriable, Accepting, Step, Opening, FromEntry;
    ReadFromEntry(items, boundary, chunks, c[|o|..], accept);
  }

  /** Once the parser is past an opening line, it reads all that is to come. */
  lemma ReadFromEntry(items: seq<Item>, boundary: string, chunks: seq<string>, tail: string, accept: Receivers)
    requires items != [] && AllCarriable(items, boundary) && Accepting(accept, items) && chunks != []
    requires tail + Concat(chunks[1..]) == FromEntry(items, boundary)
    requires Feed(FRESH, chunks[0], boundary, accept) == Run(FRESH.(state := NewEntry, buf := tail), boundary, accept)
    ensures var (q, ok) := FeedAll(FRESH, chunks, boundary, accept);
            ok && q.isValid && Collect(q.events) == items
  {
    var q := FRESH.(state := NewEntry, buf := tail);
    EntryInv(q, Concat(chunks[1..]), items, boundary);
    hide Inv, AllCarriable, Accepting, Feed, Run, FromEntry, Collect, Concat;
    var pl', done' := RunKeeps(q, Concat(chunks[1..]), Entry(items), [], items, boundary, accept);
    FeedAllKeeps(Feed(FRESH, chunks[0], boundary, accept).0, chunks[1..], pl', done', items, boundary, accept);
  }

  lemma EntryInv(q: Parser, rest: string, todo: seq<Item>, boundary: string)
    requires todo != [] && q.state.NewEntry? && q.events == [] && q.buf + rest == FromEntry(todo, boundary)
    ensures Inv(q, rest, Entry(todo), [], todo, boundary)
  {
    assert [] + todo == todo;
  }

  lemma OpeningStep(p: Parser, boundary: string, accept: Receivers)
    requires p.state.InitialBoundary? && Opening(boundary) <= p.buf
    ensures p.buf != "" && Step(p, boundary, accept) == Next(p.(buf := p.buf[|Opening(boundary)|..], state := NewEntry))
  {
    var o := Opening(boundary);
    assert p.buf[0..|o|] == o && p.buf[0..] == p.buf;
    FindIs(p.buf, o, 0, 0);
  }
}
