/** Exactly which forms the multipart parser of httplib.h gives back in every chunking: for every form that it does
    not, a chunking that shows it. */
module MultipartExact {
  import opened Scanning
  import opened FormHeaders
  import opened FormNames
  import opened Multipart
  import opened RoundTrip = MultipartRoundTrip
  import opened MultipartChunks
  import opened MultipartClean
  import Q = Query

  // ---------------------------------------------------------------- what is collected stays

  predicate SameHead(a: Item, b: Item) { a.name == b.name && a.filename == b.filename && a.contentType == b.contentType }

  /** The items `a` are still there: the last of them with its header at least, while it is `open`, and otherwise
      unchanged, new content going to items behind it. */
  ghost predicate Grown(a: seq<Item>, open: bool, p: Parser) {
    var c := Collect(p.events);
    && |a| <= |c| && (forall i :: 0 <= i < |a| ==> SameHead(a[i], c[i]))
    && (!open ==> c[..|a|] == a && (p.state.Body? ==> |c| > |a|))
  }

  lemma GrownHeader(a: seq<Item>, open: bool, p: Parser, q: Parser, f: File)
    requires Grown(a, open, p) && q.events == p.events + [Header(f)]
    ensures Grown(a, open, q)
  {
    CollectHeader(p.events, f);
    assert Collect(q.events)[..|a|] == Collect(p.events)[..|a|];
  }

  lemma GrownContent(a: seq<Item>, open: bool, p: Parser, q: Parser, data: string)
    requires Grown(a, open, p) && p.state.Body? && q.events == p.events + [Content(data)]
    ensures Grown(a, open, q)
  {
    var c := Collect(p.events);
    assert (p.events + [Content(data)])[..|p.events|] == p.events;
    assert Collect(q.events) == if c == [] then [] else c[|c| - 1 := Appended(c[|c| - 1], data)];
  }

  lemma GrownSame(a: seq<Item>, open: bool, p: Parser, q: Parser)
    requires Grown(a, open, p) && q.events == p.events && (q.state.Body? ==> p.state.Body?)
    ensures Grown(a, open, q)
  {
  }

  lemma {:induction false} HeaderLinesEvents(p: Parser, accept: Receivers)
    requires p.state.Headers?
    ensures var q := HeaderLines(p, accept).p;
            (q.events == p.events && q.state.Headers?) || (exists f :: q.events == p.events + [Header(f)])
    decreases |p.buf|
  {
    hide HeaderLines, Find, ApplyHeader;
    HeaderLinesUnfold(p, accept);
    var pos := Find(p.buf, CRLF);
    if 0 < pos < |p.buf| {
      HeaderLinesEvents(p.(file := ApplyHeader(p.file, p.buf[..pos]).1, buf := p.buf[pos + 2..]), accept);
    }
  }

  lemma GrownStep(a: seq<Item>, open: bool, p: Parser, boundary: string, accept: Receivers)
    requires Grown(a, open, p) && p.buf != ""
    ensures Grown(a, open, Step(p, boundary, accept).p)
  {
    hide Grown, HeaderLines, Find, Collect;
    var q := Step(p, boundary, accept).p;
    if p.state.Headers? {
      HeaderLinesEvents(p, accept);
      if q.events == p.events {
        GrownSame(a, open, p, q);
      } else {
        var f :| q.events == p.events + [Header(f)];
        GrownHeader(a, open, p, q, f);
      }
    } else if p.state.Body? && q.events != p.events {
      GrownContent(a, open, p, q, q.events[|p.events|].data);
    } else {
      GrownSame(a, open, p, q);
    }
  }

  lemma {:induction false} GrownRun(a: seq<Item>, open: bool, p: Parser, boundary: string, accept: Receivers)
    requires Grown(a, open, p)
    ensures Grown(a, open, Run(p, boundary, accept).0)
    decreases |p.buf|, if p.state.NewEntry? then 1 else 0
  {
    if p.buf != "" {
      GrownStep(a, open, p, boundary, accept);
      var r := Step(p, boundary, accept);
      hide Grown, Step;
      if r.Next? {
        GrownRun(a, open, r.p, boundary, accept);
      }
    }
  }

  // ---------------------------------------------------------------- reading item by item

  lemma RunStep(p: Parser, q: Parser, boundary: string, accept: Receivers)
    requires p.buf != "" && Step(p, boundary, accept) == Next(q)
    ensures Run(p, boundary, accept) == Run(q, boundary, accept)
  {
    hide Step;
  }

  lemma RunReturn(p: Parser, q: Parser, ok: bool, boundary: string, accept: Receivers)
    requires p.buf != "" && Step(p, boundary, accept) == Return(q, ok)
    ensures Run(p, boundary, accept) == (q, ok)
  {
    hide Step;
  }

  /** The state in which header lines are read: directly, or behind a delimiter. */
  function AtLine(p: Parser): Parser {
    if p.state.NewEntry? then p.(state := Headers, file := NO_FILE) else p
  }

  lemma RunAtLine(p: Parser, boundary: string, accept: Receivers)
    requires p.state.NewEntry? || p.state.Headers?
    ensures p.buf != "" ==> Run(p, boundary, accept) == Run(AtLine(p), boundary, accept)
  {
    if p.buf != "" && p.state.NewEntry? {
      assert Step(p, boundary, accept) == Next(AtLine(p));
      hide Step;
    }
  }

  /** A chunk that is one header line. */
  lemma FeedLine(p: Parser, line: string, boundary: string, accept: Receivers)
    requires (p.state.NewEntry? || p.state.Headers?) && p.buf == ""
    requires line != "" && |line| <= HEADER_MAX_LENGTH && OneLine(line)
    ensures var (ok, f) := ApplyHeader(AtLine(p).file, line);
            && Feed(p, line + CRLF, boundary, accept).1 == ok
            && (ok ==> Feed(p, line + CRLF, boundary, accept).0 == AtLine(p).(file := f))
  {
    var chunk, q := line + CRLF, AtLine(p).(buf := line + CRLF);
    assert p.buf + chunk == chunk;
    RunAtLine(p.(buf := chunk), boundary, accept);
    assert chunk + "" == line + CRLF + "";
    FindLine(chunk, "", line, "");
    assert chunk[..|line|] == line && chunk[|line| + 2..] == "";
    hide Find, ApplyHeader, Run, HeaderLines;
    var (ok, f) := ApplyHeader(q.file, line);
    HeaderLinesUnfold(q, accept);
    LinesOfNothing(q.(file := f, buf := ""), accept);
    if ok {
      RunReturn(q, q.(file := f, buf := ""), true, boundary, accept);
    } else {
      RunReturn(q, q.(file := f, isValid := false), false, boundary, accept);
    }
  }

  lemma LinesOfNothing(p: Parser, accept: Receivers)
    requires p.buf == ""
    ensures HeaderLines(p, accept) == Return(p, true)
  {
  }

  /** A chunk that ends between the two characters of the line end of a line that is too long. */
  lemma FeedHalfLine(p: Parser, line: string, boundary: string, accept: Receivers)
    requires (p.state.NewEntry? || p.state.Headers?) && p.buf == ""
    requires |line| >= HEADER_MAX_LENGTH && OneLine(line)
    ensures !Feed(p, line + "\r", boundary, accept).1
  {
    var chunk, q := line + "\r", AtLine(p).(buf := line + "\r");
    assert p.buf + chunk == chunk;
    RunAtLine(p.(buf := chunk), boundary, accept);
    assert chunk + "\n" == line + CRLF + "";
    FindLine(chunk, "\n", line, "");
    hide Find, Run;
    RunReturn(q, q, false, boundary, accept);
  }

  /** All header lines and the blank line, when they are in the buffer. */
  lemma {:induction false} ReadLines(p: Parser, it: Item, n: nat, tail: string, accept: Receivers)
    requires Sayable(it) && n <= |Lines(it)| && p.file == FileUpTo(it, n)
    requires p.buf == Joined(Lines(it)[n..]) + (CRLF + tail)
    requires accept(p.events + [Header(FileUpTo(it, |Lines(it)|))])
    ensures var f := FileUpTo(it, |Lines(it)|);
            HeaderLines(p, accept) == Next(p.(file := f, buf := tail, state := Body, events := p.events + [Header(f)]))
    decreases |Lines(it)| - n
  {
    hide Find, HeaderLines, ApplyHeader, Joined, Lines, FileUpTo, Sayable;
    HeaderStep(it, n, CRLF + tail);
    HeaderLinesUnfold(p, accept);
    assert p.buf + "" == p.buf;
    if n < |Lines(it)| {
      var line, more := Lines(it)[n], Joined(Lines(it)[n + 1..]) + (CRLF + tail);
      LineApplies(it, n);
      FindLine(p.buf, "", line, more);
      assert p.buf[..|line|] == line && p.buf[|line| + 2..] == more;
      ReadLines(p.(file := FileUpTo(it, n + 1), buf := more), it, n + 1, tail, accept);
    } else {
      assert p.buf == "" + CRLF + tail && p.buf[2..] == tail;
      FindLine(p.buf, "", "", tail);
    }
  }

  /** The text of an item behind the opening line, with the delimiter and line end that open the next. */
  function ItemText(it: Item, boundary: string): string {
    Joined(Lines(it)) + (CRLF + (it.content + (Delimiter(boundary) + CRLF)))
  }

  lemma EntrySplits(todo: seq<Item>, boundary: string)
    requires |todo| > 1
    ensures FromEntry(todo, boundary) == ItemText(todo[0], boundary) + FromEntry(todo[1..], boundary)
  {
    hide Joined, Lines, Delimiter;
    Regroup5(Joined(Lines(todo[0])), todo[0].content, Delimiter(boundary), FromEntry(todo[1..], boundary));
    assert AfterMark(todo[1..], boundary) == CRLF + FromEntry(todo[1..], boundary);
    assert FromBlank(todo, boundary) == CRLF + (todo[0].content + (Delimiter(boundary) + AfterMark(todo[1..], boundary)));
  }

  lemma Regroup5(a: string, c: string, d: string, e: string)
    ensures a + (CRLF + (c + (d + (CRLF + e)))) == (a + (CRLF + (c + (d + CRLF)))) + e
  {
  }

  /** The limit is checked once, against the first line in the buffer: the lines behind it are read whatever their
      length. */
  lemma StepLines(p: Parser, it: Item, tail: string, boundary: string, accept: Receivers)
    requires p.state.Headers? && p.file == NO_FILE && Sayable(it) && |Lines(it)[0]| <= HEADER_MAX_LENGTH
    requires p.buf == Joined(Lines(it)) + (CRLF + tail) && accept(p.events + [Header(FileUpTo(it, |Lines(it)|))])
    ensures var f := FileUpTo(it, |Lines(it)|);
            Step(p, boundary, accept) == Next(p.(file := f, buf := tail, state := Body, events := p.events + [Header(f)]))
  {
    assert Lines(it)[0..] == Lines(it);
    hide Lines, Joined, Sayable, HeaderLines, Find;
    ReadLines(p, it, 0, tail, accept);
    FindFirstLine(p.buf, it, tail);
  }

  lemma FindFirstLine(buf: string, it: Item, tail: string)
    requires Sayable(it) && buf == Joined(Lines(it)) + (CRLF + tail)
    ensures Find(buf, CRLF) == |Lines(it)[0]|
  {
    assert Lines(it)[0..] == Lines(it);
    hide Sayable, Joined, Lines, Find, ApplyHeader;
    HeaderStep(it, 0, CRLF + tail);
    LineApplies(it, 0);
    assert buf + "" == buf;
    FindLine(buf, "", Lines(it)[0], Joined(Lines(it)[1..]) + (CRLF + tail));
  }

  lemma StepContent(p: Parser, content: string, boundary: string, accept: Receivers)
    requires p.state.Body? && '\r' !in boundary && NoDelimiter(content, boundary)
    requires p.buf == content + (Delimiter(boundary) + CRLF) && accept(p.events + [Content(content)])
    ensures Step(p, boundary, accept) == Next(p.(buf := CRLF, state := Boundary, events := p.events + [Content(content)]))
  {
    var d := Delimiter(boundary);
    DelimiterFirst(content, boundary, CRLF);
    FindIs(p.buf, d, 0, |content|);
    assert p.buf[..|content|] == content && p.buf[|content| + |d|..] == CRLF;
  }

  /** A chunk that is one whole item leads from one entry to the next. */
  lemma FeedItem(p: Parser, it: Item, done: seq<Item>, items: seq<Item>, boundary: string, accept: Receivers)
    requires p.state.NewEntry? && p.buf == "" && Collect(p.events) == done && |done| < |items| && Accepting(accept, items)
    requires Carriable(it, boundary) && '\r' !in boundary
    ensures var (q, ok) := Feed(p, ItemText(it, boundary), boundary, accept);
            ok && q.state.NewEntry? && q.buf == "" && Collect(q.events) == done + [it]
  {
    var f := FileUpTo(it, |Lines(it)|);
    var tail := it.content + (Delimiter(boundary) + CRLF);
    var e1 := p.events + [Header(f)];
    var e2 := e1 + [Content(it.content)];
    CollectHeader(p.events, f);
    CollectContent(e1, it.content, done, it.(content := ""));
    assert "" + it.content == it.content;
    hide Collect, Joined, Lines, Delimiter, Run, NoDelimiter, Sayable, ShortLines;
    assert p.buf + ItemText(it, boundary) == ItemText(it, boundary);
    var p0 := p.(buf := ItemText(it, boundary));
    RunAtLine(p0, boundary, accept);
    var p1 := AtLine(p0);
    StepLines(p1, it, tail, boundary, accept);
    var p2 := p1.(file := f, buf := tail, state := Body, events := e1);
    NonemptyText(it, boundary);
    RunStep(p1, p2, boundary, accept);
    StepContent(p2, it.content, boundary, accept);
    var p3 := p2.(buf := CRLF, state := Boundary, events := e2);
    RunStep(p2, p3, boundary, accept);
    RunNextEntry(p3, boundary, accept);
  }

  lemma NonemptyText(it: Item, boundary: string)
    ensures ItemText(it, boundary) != "" && it.content + (Delimiter(boundary) + CRLF) != ""
  {
  }

  lemma RunNextEntry(p: Parser, boundary: string, accept: Receivers)
    requires p.state.Boundary? && p.buf == CRLF
    ensures Run(p, boundary, accept) == (p.(buf := "", state := NewEntry), true)
  {
    assert Step(p, boundary, accept) == Next(p.(buf := "", state := NewEntry));
  }

  // ---------------------------------------------------------------- the item that does not come back

  ghost predicate Recovers(p: Parser, chunks: seq<string>, items: seq<Item>, boundary: string, accept: Receivers) {
    var (q, ok) := FeedAll(p, chunks, boundary, accept);
    ok && Collect(q.events) == items
  }

  /** Behind header lines that gave a wrong file, or before content with a delimiter in it, all is lost. */
  lemma BadRest(p: Parser, todo: seq<Item>, done: seq<Item>, boundary: string, accept: Receivers)
    requires todo != [] && p.state.Headers? && p.buf == "" && Collect(p.events) == done
    requires p.file != FileUpTo(todo[0], |Lines(todo[0])|) || !NoDelimiter(todo[0].content, boundary)
    ensures !Recovers(p, [FromBlank(todo, boundary)], done + todo, boundary, accept)
  {
    var it, more := todo[0], todo[0].content + FromDelimiter(todo, boundary);
    var chunk, e := CRLF + more, p.events + [Header(p.file)];
    assert FromBlank(todo, boundary) == chunk && p.buf + chunk == chunk;
    FeedAllStep(p, chunk, [], boundary, accept);
    assert [chunk] + [] == [chunk];
    var q := Feed(p, chunk, boundary, accept).0;
    StepBlank(p.(buf := chunk), more, boundary, accept);
    if accept(e) {
      var p1 := p.(buf := more, state := Body, events := e);
      RunStep(p.(buf := chunk), p1, boundary, accept);
      CollectHeader(p.events, p.file);
      var a := done + [Item(p.file.name, "", p.file.filename, p.file.contentType)];
      hide FeedAll, Run, Lines, Collect, FromDelimiter, FromBlank;
      if p.file != FileUpTo(it, |Lines(it)|) {
        assert Grown(a, true, p1);
        GrownRun(a, true, p1, boundary, accept);
        WrongHead(it, p.file);
        assert SameHead(a[|done|], Collect(q.events)[|done|]);
        assert (done + todo)[|done|] == it;
      } else {
        BadContent(p1, todo, done, a, boundary, accept);
      }
    } else {
      RunReturn(p.(buf := chunk), p.(buf := chunk, isValid := false, events := e), false, boundary, accept);
    }
  }

  lemma WrongHead(it: Item, f: File)
    requires f != FileUpTo(it, |Lines(it)|)
    ensures !SameHead(Item(f.name, "", f.filename, f.contentType), it)
  {
  }

  lemma StepBlank(p: Parser, more: string, boundary: string, accept: Receivers)
    requires p.state.Headers? && p.buf == CRLF + more
    ensures var e := p.events + [Header(p.file)];
            Step(p, boundary, accept) == if accept(e) then Next(p.(buf := more, state := Body, events := e))
                                         else Return(p.(isValid := false, events := e), false)
  {
    assert p.buf + "" == "" + CRLF + more;
    FindLine(p.buf, "", "", more);
    hide Find, HeaderLines;
    HeaderLinesUnfold(p, accept);
  }

  /** Content with a delimiter in it ends there. */
  lemma BadContent(p: Parser, todo: seq<Item>, done: seq<Item>, a: seq<Item>, boundary: string, accept: Receivers)
    requires todo != [] && p.state.Body? && p.buf == todo[0].content + FromDelimiter(todo, boundary)
    requires |a| == |done| + 1 && a[..|done|] == done && a[|done|].content == "" && Collect(p.events) == a
    requires !NoDelimiter(todo[0].content, boundary)
    ensures var (q, ok) := Run(p, boundary, accept); !(ok && Collect(q.events) == done + todo)
  {
    var pos := FindEarly(p.buf, todo[0].content, FromDelimiter(todo, boundary), boundary);
    var e := p.events + [Content(p.buf[..pos])];
    hide Find, Run, Collect, FromDelimiter, Grown;
    if accept(e) {
      var p1 := p.(buf := p.buf[pos + |Delimiter(boundary)|..], state := Boundary, events := e);
      RunStep(p, p1, boundary, accept);
      assert a == done + [a[|done|]];
      CollectContent(p.events, p.buf[..pos], done, a[|done|]);
      var b := done + [Appended(a[|done|], p.buf[..pos])];
      JustCollected(b, p1);
      GrownRun(b, false, p1, boundary, accept);
      StaysShort(b, Run(p1, boundary, accept).0, done, todo, pos);
    } else {
      RunReturn(p, Deliver(p, pos).(isValid := false), false, boundary, accept);
    }
  }

  lemma JustCollected(a: seq<Item>, p: Parser)
    requires Collect(p.events) == a && !p.state.Body?
    ensures Grown(a, false, p)
  {
    assert a[..|a|] == a;
  }

  lemma StaysShort(a: seq<Item>, q: Parser, done: seq<Item>, todo: seq<Item>, pos: nat)
    requires Grown(a, false, q) && |a| == |done| + 1 && todo != [] && |a[|done|].content| == pos < |todo[0].content|
    ensures Collect(q.events) != done + todo
  {
    assert Collect(q.events)[..|a|][|done|] == a[|done|];
    assert (done + todo)[|done|] == todo[0];
  }

  lemma FindEarly(buf: string, content: string, more: string, boundary: string) returns (pos: nat)
    requires buf == content + more && !NoDelimiter(content, boundary)
    ensures pos == Find(buf, Delimiter(boundary)) && pos < |content| && pos + |Delimiter(boundary)| <= |buf|
  {
    var d := Delimiter(boundary);
    var j: nat :| OccursAt(content, d, j);
    assert buf[j..j + |d|] == content[j..j + |d|];
    pos := Find(buf, d);
    assert OccursAt(buf, d, j) && pos <= j;
  }

  /** Each header line is one line: no name and no type brings in a line end of its own. */
  ghost predicate OneLineEach(it: Item) { forall n :: 0 <= n < |Lines(it)| ==> OneLine(Lines(it)[n]) }

  /** A line that is too long. */
  lemma BadLine(p: Parser, line: string, more: string, items: seq<Item>, boundary: string, accept: Receivers)
    returns (chunks: seq<string>)
    requires (p.state.NewEntry? || p.state.Headers?) && p.buf == "" && OneLine(line) && |line| >= HEADER_MAX_LENGTH
    ensures Concat(chunks) == line + CRLF + more && !Recovers(p, chunks, items, boundary, accept)
  {
    chunks := [line + "\r"] + ["\n" + more];
    FeedHalfLine(p, line, boundary, accept);
    FeedAllStep(p, line + "\r", ["\n" + more], boundary, accept);
    FeedAllStep(p, "\n" + more, [], boundary, accept);
    assert ["\n" + more] + [] == ["\n" + more];
    assert (line + "\r") + (("\n" + more) + "") == line + CRLF + more;
  }

  /** A line that is short enough, and what comes behind it. */
  lemma LineThen(p: Parser, line: string, rest: seq<string>, items: seq<Item>, boundary: string, accept: Receivers)
    requires (p.state.NewEntry? || p.state.Headers?) && p.buf == ""
    requires line != "" && OneLine(line) && |line| <= HEADER_MAX_LENGTH
    requires var (ok, f) := ApplyHeader(AtLine(p).file, line);
             ok ==> !Recovers(AtLine(p).(file := f), rest, items, boundary, accept)
    ensures Concat([line + CRLF] + rest) == line + CRLF + Concat(rest)
    ensures !Recovers(p, [line + CRLF] + rest, items, boundary, accept)
  {
    hide Feed, FeedAll, ApplyHeader, OneLine;
    FeedLine(p, line, boundary, accept);
    FeedAllStep(p, line + CRLF, rest, boundary, accept);
  }

  /** The chunks that lose an item: line by line, and cut within the line end of a line that is too long. */
  lemma BadItem(p: Parser, todo: seq<Item>, done: seq<Item>, boundary: string, accept: Receivers)
    returns (chunks: seq<string>)
    requires todo != [] && p.state.NewEntry? && p.buf == "" && Collect(p.events) == done
    requires OneLineEach(todo[0]) && !Carriable(todo[0], boundary)
    ensures Concat(chunks) == FromEntry(todo, boundary) && !Recovers(p, chunks, done + todo, boundary, accept)
  {
    var it, body, items := todo[0], FromBlank(todo, boundary), done + todo;
    var line := Lines(it)[0];
    var p0 := AtLine(p);
    var (ok, f) := ApplyHeader(NO_FILE, line);
    var q := p0.(file := f);
    LinesSplit(it, body);
    DispositionExact(it.name, it.filename);
    DispositionKeepsType(NO_FILE, it.name, it.filename);
    OnePiece(body);
    assert OneLine(line) && line != "";
    hide Recovers, ApplyHeader, Lines, Joined, FromBlank, OneLine, Concat, Collect, NamesSurvive, TypeSurvives;
    if |line| >= HEADER_MAX_LENGTH {
      chunks := BadLine(p, line, Joined(Lines(it)[1..]) + body, items, boundary, accept);
    } else if it.contentType == "" {
      if ok { BadRest(q, todo, done, boundary, accept); }
      LineThen(p, line, [body], items, boundary, accept);
      chunks := [line + CRLF] + [body];
    } else {
      var rest := BadType(q, todo, done, ok, boundary, accept);
      LineThen(p, line, rest, items, boundary, accept);
      chunks := [line + CRLF] + rest;
    }
  }

  /** What is behind the disposition line of an item with a content type. */
  lemma BadType(p: Parser, todo: seq<Item>, done: seq<Item>, ok: bool, boundary: string, accept: Receivers)
    returns (chunks: seq<string>)
    requires todo != [] && p.state.Headers? && p.buf == "" && Collect(p.events) == done
    requires todo[0].contentType != "" && p.file.contentType == "" && OneLineEach(todo[0])
    requires ok ==> (p.file == FileUpTo(todo[0], 1) <==> NamesSurvive(todo[0].name, todo[0].filename))
    requires ok ==> !Carriable(todo[0], boundary) && |Lines(todo[0])[0]| < HEADER_MAX_LENGTH
    ensures Concat(chunks) == ContentTypeLine(todo[0].contentType) + CRLF + FromBlank(todo, boundary)
    ensures ok ==> !Recovers(p, chunks, done + todo, boundary, accept)
  {
    var it, body, items := todo[0], FromBlank(todo, boundary), done + todo;
    var line := ContentTypeLine(it.contentType);
    assert Lines(it)[1] == line;
    OnePiece(body);
    if |line| >= HEADER_MAX_LENGTH {
      chunks := BadLine(p, line, body, items, boundary, accept);
    } else {
      chunks := [line + CRLF] + [body];
      FeedAllStep(p, line + CRLF, [body], boundary, accept);
      if ok {
        var (ok2, f) := ApplyHeader(p.file, line);
        ContentTypeExact(p.file, it.contentType);
        TypeKeepsNames(p.file, it.contentType);
        if ok2 {
          assert ShortLines(it);
          BadRest(p.(file := f), todo, done, boundary, accept);
        }
        LineThen(p, line, [body], items, boundary, accept);
      }
    }
  }

  lemma LinesSplit(it: Item, body: string)
    ensures Lines(it)[0] == DispositionLine(it.name, it.filename)
    ensures Joined(Lines(it)) + body == Lines(it)[0] + CRLF + (Joined(Lines(it)[1..]) + body)
    ensures it.contentType == "" ==> |Lines(it)| == 1 && Joined(Lines(it)[1..]) + body == body
    ensures it.contentType != "" ==> |Lines(it)| == 2
    ensures it.contentType != "" ==> Joined(Lines(it)[1..]) + body == ContentTypeLine(it.contentType) + CRLF + body
  {
    HeaderStep(it, 0, body);
    HeaderStep(it, 1, body);
    assert Lines(it)[0..] == Lines(it);
    if it.contentType != "" {
      HeaderStep(it, 2, body);
    }
  }

  lemma DispositionKeepsType(f: File, name: string, filename: string)
    ensures ApplyHeader(f, DispositionLine(name, filename)).1.contentType == f.contentType
  {
    NotContentType(DispositionLine(name, filename));
    hide ParsedHeader, StartsIgnoringCase, DispositionText, ParsedDisposition, ApplyDisposition;
    var text := DispositionText(DispositionLine(name, filename));
    if text.Some? {
      ParamsKeepType(f, ParsedDisposition(text.value));
    }
  }

  lemma ParamsKeepType(f: File, params: seq<Q.Param>)
    ensures ApplyDisposition(f, params).1.contentType == f.contentType
  {
    hide Lookup, ExtendedText;
  }

  lemma TypeKeepsNames(f: File, contentType: string)
    ensures var g := ApplyHeader(f, ContentTypeLine(contentType)).1; g.name == f.name && g.filename == f.filename
  {
    IsContentType(contentType);
  }

  // ---------------------------------------------------------------- the exact condition

  lemma {:induction false} BadForm(p: Parser, todo: seq<Item>, done: seq<Item>, boundary: string, accept: Receivers)
    returns (chunks: seq<string>)
    requires p.state.NewEntry? && p.buf == "" && Collect(p.events) == done && Accepting(accept, done + todo)
    requires '\r' !in boundary && forall i :: 0 <= i < |todo| ==> OneLineEach(todo[i])
    requires exists i :: 0 <= i < |todo| && !Carriable(todo[i], boundary)
    ensures todo != [] && Concat(chunks) == FromEntry(todo, boundary)
    ensures !Recovers(p, chunks, done + todo, boundary, accept)
    decreases |todo|
  {
    hide Carriable, OneLineEach, FromEntry, Collect, Feed;
    if !Carriable(todo[0], boundary) {
      chunks := BadItem(p, todo, done, boundary, accept);
    } else {
      var it, text := todo[0], ItemText(todo[0], boundary);
      FeedItem(p, it, done, done + todo, boundary, accept);
      EntrySplits(todo, boundary);
      assert done + todo == (done + [it]) + todo[1..];
      var rest := BadForm(Feed(p, text, boundary, accept).0, todo[1..], done + [it], boundary, accept);
      chunks := [text] + rest;
      FeedAllStep(p, text, rest, boundary, accept);
    }
  }

  /** The form comes back from every chunking whose first chunk holds the opening line. */
  ghost predicate AlwaysBack(items: seq<Item>, boundary: string, accept: Receivers) {
    forall chunks :: chunks != [] && |Opening(boundary)| <= |chunks[0]| && Concat(chunks) == Serialized(items, boundary) ==>
      FeedAll(FRESH, chunks, boundary, accept).0.isValid && Recovers(FRESH, chunks, items, boundary, accept)
  }

  /** A form whose names and types are clean, and which cannot be carried, is lost in some chunking. */
  lemma LostSomewhere(items: seq<Item>, boundary: string, accept: Receivers)
    requires items != [] && '\r' !in boundary && Accepting(accept, items) && !AllCarriable(items, boundary)
    requires forall i :: 0 <= i < |items| ==> OneLineEach(items[i])
    ensures !AlwaysBack(items, boundary, accept)
  {
    var chunks := LosingChunks(items, boundary, accept);
  }

  /** One whose names or types are not is lost in every chunking, for instance in one piece. */
  lemma UncleanLost(items: seq<Item>, boundary: string, accept: Receivers)
    requires exists i :: 0 <= i < |items| && !CleanHead(items[i])
    ensures !AlwaysBack(items, boundary, accept)
    ensures forall chunks :: !Recovers(FRESH, chunks, items, boundary, accept)
  {
    var i :| 0 <= i < |items| && !CleanHead(items[i]);
    forall chunks ensures !Recovers(FRESH, chunks, items, boundary, accept) {
      NotRecovered(items, i, chunks, boundary, accept);
    }
    SerializedIs(items, boundary);
    OnePiece(Serialized(items, boundary));
    hide Recovers;
    assert |Opening(boundary)| <= |[Serialized(items, boundary)][0]|;
  }

  lemma NotRecovered(items: seq<Item>, i: nat, chunks: seq<string>, boundary: string, accept: Receivers)
    requires i < |items| && !CleanHead(items[i])
    ensures !Recovers(FRESH, chunks, items, boundary, accept)
  {
    NothingUncleanGiven(chunks, boundary, accept);
    assert items[i] !in Collect(FeedAll(FRESH, chunks, boundary, accept).0.events);
    assert items[i] in items;
  }

  lemma OnePiece(s: string)
    ensures Concat([s]) == s
  {
    assert s + "" == s && [s][1..] == [];
  }

  lemma CleanIsOneLine(it: Item)
    requires CleanHead(it)
    ensures OneLineEach(it)
  {
    ParamsClean(it.name, it.filename);
    hide DispositionParams, OneLine;
    forall n | 0 <= n < |Lines(it)| ensures OneLine(Lines(it)[n]) {
      NoReturn(Lines(it)[n]);
    }
  }

  /** Exactly the forms whose items can all be carried come back from every chunking. */
  lemma ComesBackExactly(items: seq<Item>, boundary: string, accept: Receivers)
    requires items != [] && '\r' !in boundary && Accepting(accept, items)
    ensures AlwaysBack(items, boundary, accept) <==> AllCarriable(items, boundary)
  {
    if AllCarriable(items, boundary) {
      hide FeedAll, Collect, AllCarriable, Accepting, Opening, Serialized;
      forall chunks | chunks != [] && |Opening(boundary)| <= |chunks[0]| && Concat(chunks) == Serialized(items, boundary)
        ensures FeedAll(FRESH, chunks, boundary, accept).0.isValid && Recovers(FRESH, chunks, items, boundary, accept)
      {
        RoundTrip.MultipartRoundTrip(items, boundary, chunks, accept);
      }
    } else if exists i :: 0 <= i < |items| && !CleanHead(items[i]) {
      UncleanLost(items, boundary, accept);
    } else {
      hide AlwaysBack, CleanHead, AllCarriable, Accepting, OneLineEach;
      forall i | 0 <= i < |items| ensures OneLineEach(items[i]) {
        CleanIsOneLine(items[i]);
      }
      LostSomewhere(items, boundary, accept);
    }
  }

  lemma LosingChunks(items: seq<Item>, boundary: string, accept: Receivers) returns (chunks: seq<string>)
    requires items != [] && '\r' !in boundary && Accepting(accept, items) && !AllCarriable(items, boundary)
    requires forall i :: 0 <= i < |items| ==> OneLineEach(items[i])
    ensures chunks != [] && |Opening(boundary)| <= |chunks[0]| && Concat(chunks) == Serialized(items, boundary)
    ensures !Recovers(FRESH, chunks, items, boundary, accept)
  {
    var o, p := Opening(boundary), FRESH.(state := NewEntry);
    SerializedIs(items, boundary);
    assert o[0..|o|] == o;
    FeedOpening(o, 0, "", boundary, accept);
    hide Opening, Serialized, FromEntry, OneLineEach, Carriable, Feed;
    assert [] + items == items && Collect(p.events) == [];
    var rest := BadForm(p, items, [], boundary, accept);
    chunks := [o] + rest;
    FeedAllStep(FRESH, o, rest, boundary, accept);
  }

  /** In particular, of forms that could be carried but for the length of their header lines, exactly those always
      come back in which every line is shorter than the limit. */
  lemma LimitExactly(items: seq<Item>, boundary: string, accept: Receivers)
    requires items != [] && '\r' !in boundary && Accepting(accept, items)
    requires forall i :: 0 <= i < |items| ==> Sayable(items[i]) && NoDelimiter(items[i].content, boundary)
    ensures AlwaysBack(items, boundary, accept) <==> forall i :: 0 <= i < |items| ==> ShortLines(items[i])
  {
    hide Sayable, NoDelimiter, ShortLines, AlwaysBack;
    ComesBackExactly(items, boundary, accept);
  }
}
