/** Whatever bytes arrive, in whatever chunks, the multipart parser of httplib.h gives its callbacks no name, file name
    or content type with CR, LF or NUL in it. */
module MultipartClean {
  import opened Scanning
  import opened FormHeaders
  import opened FormNames
  import opened FormClean
  import opened Multipart
  import opened RoundTrip = MultipartRoundTrip

  /** What the header callback has been given. */
  predicate GivenClean(events: seq<Event>) {
    forall i :: 0 <= i < |events| && events[i].Header? ==> CleanFile(events[i].file)
  }

  lemma {:induction false} HeaderLinesClean(p: Parser, accept: Receivers)
    requires CleanFile(p.file) && GivenClean(p.events)
    ensures var r := HeaderLines(p, accept);
            GivenClean(r.p.events) && (r.Next? || r.ok ==> CleanFile(r.p.file))
    decreases |p.buf|
  {
    hide HeaderLines, Find, ApplyHeader, CleanFile;
    HeaderLinesUnfold(p, accept);
    var pos := Find(p.buf, CRLF);
    if 0 < pos < |p.buf| {
      var (ok, f) := ApplyHeader(p.file, p.buf[..pos]);
      if ok {
        HeaderKeepsClean(p.file, p.buf[..pos]);
        HeaderLinesClean(p.(file := f, buf := p.buf[pos + 2..]), accept);
      }
    }
  }

  lemma StepClean(p: Parser, boundary: string, accept: Receivers)
    requires CleanFile(p.file) && GivenClean(p.events) && p.buf != ""
    ensures var r := Step(p, boundary, accept);
            GivenClean(r.p.events) && (r.Next? || r.ok ==> CleanFile(r.p.file))
  {
    hide HeaderLines, Find, CleanFile, ApplyHeader;
    if p.state.Headers? {
      HeaderLinesClean(p, accept);
    } else if p.state.NewEntry? {
      NoFileClean();
    } else {
      var q := Step(p, boundary, accept).p;
      assert q.file == p.file && forall i :: |p.events| <= i < |q.events| ==> q.events[i].Content?;
      assert forall i :: 0 <= i < |p.events| ==> q.events[i] == p.events[i];
    }
  }

  lemma NoFileClean()
    ensures CleanFile(NO_FILE)
  {
  }

  lemma {:induction false} RunClean(p: Parser, boundary: string, accept: Receivers)
    requires CleanFile(p.file) && GivenClean(p.events)
    ensures var (q, ok) := Run(p, boundary, accept); GivenClean(q.events) && (ok ==> CleanFile(q.file))
    decreases |p.buf|, if p.state.NewEntry? then 1 else 0
  {
    if p.buf != "" {
      StepClean(p, boundary, accept);
      var r := Step(p, boundary, accept);
      hide Step, GivenClean, CleanFile;
      if r.Next? {
        RunClean(r.p, boundary, accept);
      }
    }
  }

  lemma {:induction false} FeedAllClean(p: Parser, chunks: seq<string>, boundary: string, accept: Receivers)
    requires CleanFile(p.file) && GivenClean(p.events)
    ensures GivenClean(FeedAll(p, chunks, boundary, accept).0.events)
    decreases |chunks|
  {
    if chunks != [] {
      hide Run, GivenClean, CleanFile;
      RunClean(p.(buf := p.buf + chunks[0]), boundary, accept);
      var (q, ok) := Feed(p, chunks[0], boundary, accept);
      if ok {
        FeedAllClean(q, chunks[1..], boundary, accept);
      }
    }
  }

  predicate CleanHead(it: Item) { Clean(it.name) && Clean(it.filename) && Clean(it.contentType) }

  lemma {:induction false} CollectClean(events: seq<Event>)
    requires GivenClean(events)
    ensures forall i :: 0 <= i < |Collect(events)| ==> CleanHead(Collect(events)[i])
  {
    if events != [] {
      hide Clean;
      CollectClean(events[..|events| - 1]);
    }
  }

  /** No bytes and no chunking give the callbacks a name, a file name or a content type with a forbidden character. */
  lemma NothingUncleanGiven(chunks: seq<string>, boundary: string, accept: Receivers)
    ensures forall it :: it in Collect(FeedAll(FRESH, chunks, boundary, accept).0.events) ==> CleanHead(it)
  {
    FeedAllClean(FRESH, chunks, boundary, accept);
    CollectClean(FeedAll(FRESH, chunks, boundary, accept).0.events);
  }
}
