/** What receivers of the multipart parser of httplib.h can rely on, whatever bytes arrive in whatever chunks: a refused
    call is the last one, and it makes the parse fail. */
module MultipartCallbacks {
  import opened Scanning
  import opened FormHeaders
  import opened Multipart
  import opened RoundTrip = MultipartRoundTrip
  import F = MultipartForm

  /** Every call has been accepted. */
  ghost predicate AllAccepted(events: seq<Event>, accept: Receivers) {
    forall n :: 0 < n <= |events| ==> accept(events[..n])
  }

  /** The last call, and no other, was refused. */
  ghost predicate LastRefused(events: seq<Event>, accept: Receivers) {
    events != [] && !accept(events) && AllAccepted(events[..|events| - 1], accept)
  }

  /** Either every call was accepted, or the parser has stopped, invalid, at the first refusal. */
  ghost predicate Obeyed(p: Parser, going: bool, accept: Receivers) {
    AllAccepted(p.events, accept) || (!going && !p.isValid && LastRefused(p.events, accept))
  }

  lemma OneMore(events: seq<Event>, e: Event, accept: Receivers)
    requires AllAccepted(events, accept)
    ensures accept(events + [e]) ==> AllAccepted(events + [e], accept)
    ensures !accept(events + [e]) ==> LastRefused(events + [e], accept)
  {
    var more := events + [e];
    assert more[..|events|] == events && more[..|more|] == more;
    assert forall n :: 0 < n <= |events| ==> more[..n] == events[..n];
  }

  lemma {:induction false} HeaderLinesObey(p: Parser, accept: Receivers)
    requires AllAccepted(p.events, accept)
    ensures var r := HeaderLines(p, accept); Obeyed(r.p, r.Next? || r.ok, accept)
    decreases |p.buf|
  {
    hide HeaderLines, Find, ApplyHeader, AllAccepted, LastRefused;
    HeaderLinesUnfold(p, accept);
    OneMore(p.events, Header(p.file), accept);
    var pos := Find(p.buf, CRLF);
    if 0 < pos < |p.buf| {
      var (ok, f) := ApplyHeader(p.file, p.buf[..pos]);
      if ok {
        HeaderLinesObey(p.(file := f, buf := p.buf[pos + 2..]), accept);
      }
    }
  }

  lemma StepObeys(p: Parser, boundary: string, accept: Receivers)
    requires AllAccepted(p.events, accept) && p.buf != ""
    ensures var r := Step(p, boundary, accept); Obeyed(r.p, r.Next? || r.ok, accept)
  {
    hide HeaderLines, Find, ApplyHeader, AllAccepted, LastRefused;
    if p.state.Headers? {
      HeaderLinesObey(p, accept);
    } else if p.state.Body? {
      var pos, d := Find(p.buf, Delimiter(boundary)), |Delimiter(boundary)|;
      if pos < |p.buf| {
        OneMore(p.events, Content(p.buf[..pos]), accept);
      } else if d < |p.buf| {
        OneMore(p.events, Content(p.buf[..|p.buf| - d]), accept);
      }
    }
  }

  lemma {:induction false} RunObeys(p: Parser, boundary: string, accept: Receivers)
    requires AllAccepted(p.events, accept)
    ensures var (q, ok) := Run(p, boundary, accept); Obeyed(q, ok, accept)
    decreases |p.buf|, if p.state.NewEntry? then 1 else 0
  {
    if p.buf != "" {
      StepObeys(p, boundary, accept);
      var r := Step(p, boundary, accept);
      hide Step, AllAccepted, LastRefused;
      if r.Next? {
        RunObeys(r.p, boundary, accept);
      }
    }
  }

  lemma {:induction false} FeedAllObeys(p: Parser, chunks: seq<string>, boundary: string, accept: Receivers)
    requires AllAccepted(p.events, accept)
    ensures var (q, ok) := FeedAll(p, chunks, boundary, accept); Obeyed(q, ok, accept)
    decreases |chunks|
  {
    if chunks != [] {
      hide Run, AllAccepted, LastRefused;
      RunObeys(p.(buf := p.buf + chunks[0]), boundary, accept);
      var (q, ok) := Feed(p, chunks[0], boundary, accept);
      if ok {
        FeedAllObeys(q, chunks[1..], boundary, accept);
      }
    }
  }

  /** A refusal ends the parse: it is the last call made, the answer is false and the parser is not valid. So a parse
      that does not fail had all its calls accepted. */
  lemma RefusalEnds(chunks: seq<string>, boundary: string, accept: Receivers)
    ensures var (q, ok) := FeedAll(FRESH, chunks, boundary, accept);
            && (forall n :: 0 < n < |q.events| ==> accept(q.events[..n]))
            && (q.events != [] && !accept(q.events) ==> !ok && !q.isValid)
  {
    FeedAllObeys(FRESH, chunks, boundary, accept);
    var q := FeedAll(FRESH, chunks, boundary, accept).0;
    assert q.events[..|q.events|] == q.events;
    forall n | 0 < n < |q.events| ensures accept(q.events[..n]) {
      assert q.events[..|q.events| - 1][..n] == q.events[..n];
    }
  }

  /** The server never files more than so many, whatever is sent to it. */
  lemma FileLimit(chunks: seq<string>, boundary: string)
    ensures var (q, ok) := FeedAll(FRESH, chunks, boundary, F.ServerAccepts()); ok ==> |Collect(q.events)| <= 1024
  {
    hide FeedAll;
    RefusalEnds(chunks, boundary, F.ServerAccepts());
  }
}
