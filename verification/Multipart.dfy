/** The streaming multipart parser of httplib.h. First what it computes, as a step function over the unread
    bytes; then the object with its compacting buffer, proved to compute just that. */
module Multipart {
  import opened Scanning
  import opened FormHeaders
  import Q = Query

  const DASH := "--"

  function Opening(boundary: string): string { DASH + boundary + CRLF }
  function Delimiter(boundary: string): string { CRLF + DASH + boundary }

  datatype State = InitialBoundary | NewEntry | Headers | Body | Boundary

  /** One call of a callback. */
  datatype Event = Header(file: File) | Content(data: string)

  /** The parser between two steps: `buf` are the unread bytes, `events` the calls made so far. */
  datatype Parser = Parser(state: State, isValid: bool, file: File, buf: string, events: seq<Event>)

  const FRESH := Parser(InitialBoundary, false, NO_FILE, "", [])

  datatype Outcome = Next(p: Parser) | Return(p: Parser, ok: bool)

  /** The callbacks: whether they accept the last of the calls made. */
  type Receivers = seq<Event> -> bool

  // ---------------------------------------------------------------- what a step does

  function AtOpening(p: Parser, boundary: string): Outcome {
    var o := Opening(boundary);
    var q := p.(buf := p.buf[Find(p.buf, o)..]);
    if |o| > |q.buf| then Return(q, true)
    else if !(o <= q.buf) then Return(q, false)
    else Next(q.(buf := q.buf[|o|..], state := NewEntry))
  }

  /** The header lines that are complete in the buffer. */
  function HeaderLines(p: Parser, accept: Receivers): (r: Outcome)
    ensures r.Next? ==> |r.p.buf| < |p.buf|
    decreases |p.buf|
  {
    var pos := Find(p.buf, CRLF);
    if pos == |p.buf| then Return(p, true)
    else if pos == 0 then
      var events := p.events + [Header(p.file)];
      if accept(events) then Next(p.(buf := p.buf[2..], state := Body, events := events))
      else Return(p.(isValid := false, events := events), false)
    else
      var (ok, file) := ApplyHeader(p.file, p.buf[..pos]);
      if ok then HeaderLines(p.(file := file, buf := p.buf[pos + 2..]), accept)
      else Return(p.(file := file, isValid := false), false)
  }

  lemma HeaderLinesUnfold(p: Parser, accept: Receivers)
    ensures var pos, events := Find(p.buf, CRLF), p.events + [Header(p.file)];
            && (pos == |p.buf| ==> HeaderLines(p, accept) == Return(p, true))
            && (pos < |p.buf| ==> pos + 2 <= |p.buf|)
            && (0 == pos < |p.buf| ==>
                  HeaderLines(p, accept) == if accept(events) then Next(p.(buf := p.buf[2..], state := Body, events := events))
                                            else Return(p.(isValid := false, events := events), false))
            && (0 < pos < |p.buf| ==>
                  var (ok, file) := ApplyHeader(p.file, p.buf[..pos]);
                  HeaderLines(p, accept) == if ok then HeaderLines(p.(file := file, buf := p.buf[pos + 2..]), accept)
                                            else Return(p.(file := file, isValid := false), false))
  {
  }

  function AtHeaders(p: Parser, accept: Receivers): Outcome {
    if Find(p.buf, CRLF) > HEADER_MAX_LENGTH then Return(p, false) else HeaderLines(p, accept)
  }

  /** A callback is given the first `len` bytes. */
  function Deliver(p: Parser, len: nat): Parser
    requires len <= |p.buf|
  {
    p.(events := p.events + [Content(p.buf[..len])])
  }

  /** Content up to the delimiter; without one, all but as many bytes as it is long. */
  function AtBody(p: Parser, boundary: string, accept: Receivers): Outcome {
    var d := Delimiter(boundary);
    var pos := Find(p.buf, d);
    if |d| > |p.buf| then Return(p, true)
    else if pos < |p.buf| then
      var q := Deliver(p, pos);
      if accept(q.events) then Next(q.(buf := p.buf[pos + |d|..], state := Boundary)) else Return(q.(isValid := false), false)
    else if |p.buf| == |d| then Return(p, true)
    else
      var q := Deliver(p, |p.buf| - |d|);
      if accept(q.events) then Return(q.(buf := p.buf[|p.buf| - |d|..]), true) else Return(q.(isValid := false), false)
  }

  /** After a delimiter: a new entry, or the end, after which everything is dropped. */
  function AtBoundary(p: Parser): Outcome {
    if |p.buf| < 2 then Return(p, true)
    else if CRLF <= p.buf then Next(p.(buf := p.buf[2..], state := NewEntry))
    else if DASH <= p.buf then Next(p.(buf := "", isValid := true))
    else Return(p, true)
  }

  function Step(p: Parser, boundary: string, accept: Receivers): (r: Outcome)
    requires p.buf != ""
    ensures r.Next? ==> |r.p.buf| < |p.buf| || (r.p.buf == p.buf && p.state.NewEntry? && !r.p.state.NewEntry?)
  {
    match p.state
    case InitialBoundary => AtOpening(p, boundary)
    case NewEntry => Next(p.(file := NO_FILE, state := Headers))
    case Headers => AtHeaders(p, accept)
    case Body => AtBody(p, boundary, accept)
    case Boundary => AtBoundary(p)
  }

  /** Steps until the buffer is empty or a step returns. */
  function Run(p: Parser, boundary: string, accept: Receivers): (Parser, bool)
    decreases |p.buf|, if p.state.NewEntry? then 1 else 0
  {
    if p.buf == "" then (p, true)
    else match Step(p, boundary, accept)
      case Next(q) => Run(q, boundary, accept)
      case Return(q, ok) => (q, ok)
  }

  /** One call of `parse`. */
  function Feed(p: Parser, chunk: string, boundary: string, accept: Receivers): (Parser, bool) {
    Run(p.(buf := p.buf + chunk), boundary, accept)
  }

  // ---------------------------------------------------------------- the object

  class MultipartFormDataParser {
    var boundary: string
    var dashBoundaryCrlf: string
    var crlfDashBoundary: string
    var state: State
    var isValid: bool
    var file: File
    var buf: array<char>
    var bufSpos: nat
    var bufEpos: nat
    /** The calls of the two callbacks. */
    var events: seq<Event>

    ghost predicate Valid()
      reads this
    {
      && bufSpos <= bufEpos <= buf.Length
      && dashBoundaryCrlf == Opening(boundary) && crlfDashBoundary == Delimiter(boundary)
    }

    /** The unread bytes. */
    ghost function Unread(): string
      reads this, buf
      requires Valid()
    {
      buf[bufSpos..bufEpos]
    }

    ghost function Abstract(): Parser
      reads this, buf
      requires Valid()
    {
      Parser(state, isValid, file, Unread(), events)
    }

    constructor ()
      ensures Valid() && Abstract() == FRESH && fresh(buf)
    {
      boundary, dashBoundaryCrlf, crlfDashBoundary := "", Opening(""), Delimiter("");
      state, isValid, file := InitialBoundary, false, NO_FILE;
      buf := new char[0];
      bufSpos, bufEpos, events := 0, 0, [];
    }

    method SetBoundary(boundary: string)
      requires Valid()
      modifies this`boundary, this`dashBoundaryCrlf, this`crlfDashBoundary
      ensures Valid() && this.boundary == boundary && Abstract() == old(Abstract())
    {
      this.boundary := boundary;
      dashBoundaryCrlf := DASH + boundary + CRLF;
      crlfDashBoundary := CRLF + DASH + boundary;
    }

    function BufSize(): nat
      reads this
      requires bufSpos <= bufEpos
    {
      bufEpos - bufSpos
    }

    method BufHead(l: nat) returns (s: string)
      requires Valid() && l <= BufSize()
      ensures s == Unread()[..l]
    {
      s := buf[bufSpos..bufSpos + l];
    }

    /** Dropping bytes never passes the end: that is every caller's obligation. */
    method BufErase(size: nat)
      requires Valid() && size <= BufSize()
      modifies this`bufSpos
      ensures Valid() && Unread() == old(Unread())[size..]
    {
      bufSpos := bufSpos + size;
    }

    /** Shifts the unread bytes to the front, over themselves, grows the buffer when it must, and appends. */
    method BufAppend(data: string)
      requires Valid()
      modifies this`buf, this`bufSpos, this`bufEpos, buf
      ensures Valid() && Unread() == old(Unread()) + data
      ensures buf == old(buf) || fresh(buf)
    {
      var remaining := BufSize();
      hide Opening, Delimiter;
      ghost var unread := Unread();
      ShiftDown(remaining);
      bufSpos, bufEpos := 0, remaining;
      if remaining + |data| > buf.Length {
        Resize(remaining + |data|);
      }
      assert buf[..remaining] == unread;
      for i := 0 to |data|
        modifies buf
        invariant buf[..remaining] == unread
        invariant forall j :: 0 <= j < i ==> buf[remaining + j] == data[j]
      {
        buf[bufEpos + i] := data[i];
      }
      bufEpos := bufEpos + |data|;
      assert Unread() == buf[..remaining] + buf[remaining..remaining + |data|];
    }

    method ShiftDown(remaining: nat)
      requires Valid() && remaining == BufSize()
      modifies buf
      ensures buf[..remaining] == old(Unread())
    {
      ghost var unread := Unread();
      if remaining > 0 && bufSpos > 0 {
        for i := 0 to remaining
          invariant forall j :: 0 <= j < i ==> buf[j] == unread[j]
          invariant forall j :: i <= j < remaining ==> buf[bufSpos + j] == unread[j]
        {
          buf[i] := buf[bufSpos + i];
        }
      }
    }

    method Resize(n: nat)
      requires n >= buf.Length
      modifies this`buf
      ensures fresh(buf) && buf.Length == n && buf[..old(buf.Length)] == old(buf[..])
    {
      var small := buf;
      buf := new char[n](i requires i >= 0 reads small => if i < small.Length then small[i] else '\0');
    }

    method BufStartWith(s: string) returns (r: bool)
      requires Valid()
      ensures r <==> s <= Unread()
    {
      r := StartWith(bufSpos, s);
    }

    method StartWith(spos: nat, s: string) returns (r: bool)
      requires Valid() && spos <= bufEpos
      ensures r <==> s <= buf[spos..bufEpos]
    {
      if bufEpos - spos < |s| { return false; }
      for i := 0 to |s|
        invariant forall j :: 0 <= j < i ==> buf[spos + j] == s[j]
      {
        if buf[spos + i] != s[i] {
          assert buf[spos..bufEpos][i] == buf[spos + i];
          return false;
        }
      }
      r := true;
    }

    /** The least position of `s` in the unread bytes, their number when there is none. */
    method BufFind(s: string) returns (r: nat)
      requires Valid() && s != ""
      ensures r == Find(Unread(), s)
    {
      var c, off := s[0], bufSpos;
      ghost var u := Unread();
      while off < bufEpos
        invariant bufSpos <= off <= bufEpos
        invariant forall j: nat :: j < off - bufSpos ==> !OccursAt(u, s, j)
      {
        var pos := off;
        while pos < bufEpos && buf[pos] != c
          invariant off <= pos <= bufEpos
          invariant forall j: nat :: j < pos - bufSpos ==> !OccursAt(u, s, j)
        {
          NotHere(u, s, pos - bufSpos);
          pos := pos + 1;
        }
        if pos == bufEpos {
          NotFound(u, s, pos - bufSpos);
          return BufSize();
        }
        if |s| > bufEpos - pos {
          NotFound(u, s, pos - bufSpos);
          return BufSize();
        }
        var here := StartWith(pos, s);
        assert buf[pos..bufEpos][..|s|] == u[pos - bufSpos..pos - bufSpos + |s|];
        if here {
          FindIs(u, s, 0, pos - bufSpos);
          return pos - bufSpos;
        }
        off := pos + 1;
      }
      NotFound(u, s, off - bufSpos);
      r := BufSize();
    }

    /** One call of `parse`: appends the chunk, then steps through the states. */
    method Parse(data: string, accept: Receivers) returns (ok: bool)
      requires Valid()
      modifies this, buf
      ensures Valid() && boundary == old(boundary) && (buf == old(buf) || fresh(buf))
      ensures (Abstract(), ok) == Feed(old(Abstract()), data, boundary, accept)
    {
      hide OccursAt, Find, FindFrom, ApplyHeader, Opening, Delimiter;
      ghost var all := Run(Abstract().(buf := Unread() + data), boundary, accept);
      BufAppend(data);
      label Appended:
      while BufSize() > 0
        modifies this
        invariant Valid() && boundary == old(boundary) && buf == old@Appended(buf)
        invariant Run(Abstract(), boundary, accept) == all
        decreases BufSize(), if state.NewEntry? then 1 else 0
      {
        ghost var p := Abstract();
        var stop;
        stop, ok := ParseStep(accept);
        if stop { return ok; }
      }
      ok := true;
    }

    /** One round of the loop of `parse`. */
    method ParseStep(accept: Receivers) returns (stop: bool, ok: bool)
      requires Valid() && BufSize() > 0
      modifies this
      ensures Valid() && boundary == old(boundary) && buf == old(buf)
      ensures (if stop then Return(Abstract(), ok) else Next(Abstract())) == Step(old(Abstract()), boundary, accept)
    {
      hide OccursAt, Find, FindFrom, ApplyHeader, Opening, Delimiter, HeaderLines;
      match state {
        case InitialBoundary => stop, ok := ParseOpening();
        case NewEntry =>
          file, state := NO_FILE, Headers;
          stop, ok := false, true;
        case Headers => stop, ok := ParseHeaders(accept);
        case Body => stop, ok := ParseBody(accept);
        case Boundary => stop, ok := ParseBoundary();
      }
    }

    method ParseOpening() returns (stop: bool, ok: bool)
      requires Valid()
      modifies this`state, this`bufSpos
      ensures Valid()
      ensures (if stop then Return(Abstract(), ok) else Next(Abstract())) == AtOpening(old(Abstract()), boundary)
    {
      var pos := BufFind(dashBoundaryCrlf);
      BufErase(pos);
      if |dashBoundaryCrlf| > BufSize() { return true, true; }
      var opens := BufStartWith(dashBoundaryCrlf);
      if !opens { return true, false; }
      BufErase(|dashBoundaryCrlf|);
      state := NewEntry;
      stop, ok := false, true;
    }

    method ParseHeaders(accept: Receivers) returns (stop: bool, ok: bool)
      requires Valid()
      modifies this`state, this`isValid, this`file, this`bufSpos, this`events
      ensures Valid()
      ensures (if stop then Return(Abstract(), ok) else Next(Abstract())) == AtHeaders(old(Abstract()), accept)
    {
      hide FindFrom, Find, OccursAt, ApplyHeader, Opening, Delimiter, HeaderLines;
      var pos := BufFind(CRLF);
      if pos > HEADER_MAX_LENGTH { return true, false; }
      while pos < BufSize()
        invariant Valid() && pos == Find(Unread(), CRLF) && state == old(state)
        invariant HeaderLines(Abstract(), accept) == HeaderLines(old(Abstract()), accept)
        decreases BufSize()
      {
        FoundFits(Unread(), CRLF);
        HeaderLinesUnfold(Abstract(), accept);
        if pos == 0 {
          events := events + [Header(file)];
          if !accept(events) {
            isValid := false;
            return true, false;
          }
          BufErase(|CRLF|);
          state := Body;
          return false, true;
        }
        var accepted := ParseLine(pos);
        if !accepted { return true, false; }
        pos := BufFind(CRLF);
      }
      HeaderLinesUnfold(Abstract(), accept);
      stop, ok := true, true;
    }

    /** One header line, and its line end. */
    method ParseLine(pos: nat) returns (accepted: bool)
      requires Valid() && pos + 2 <= BufSize()
      modifies this`isValid, this`file, this`bufSpos
      ensures Valid()
      ensures var p := old(Abstract());
              var (ok, f) := ApplyHeader(p.file, p.buf[..pos]);
              && accepted == ok
              && Abstract() == if ok then p.(file := f, buf := p.buf[pos + 2..]) else p.(file := f, isValid := false)
    {
      hide ApplyHeader, Opening, Delimiter;
      var header := BufHead(pos);
      accepted, file := ProcessHeader(file, header);
      if !accepted {
        isValid := false;
        return;
      }
      BufErase(pos + |CRLF|);
    }

    method ParseBody(accept: Receivers) returns (stop: bool, ok: bool)
      requires Valid()
      modifies this`state, this`isValid, this`bufSpos, this`events
      ensures Valid()
      ensures (if stop then Return(Abstract(), ok) else Next(Abstract())) == AtBody(old(Abstract()), boundary, accept)
    {
      hide FindFrom, Find, OccursAt, Opening;
      if |crlfDashBoundary| > BufSize() { return true, true; }
      var pos := BufFind(crlfDashBoundary);
      FoundFits(Unread(), crlfDashBoundary);
      if pos < BufSize() {
        var data := BufHead(pos);
        events := events + [Content(data)];
        if !accept(events) {
          isValid := false;
          return true, false;
        }
        BufErase(pos + |crlfDashBoundary|);
        state := Boundary;
        stop, ok := false, true;
      } else {
        var len := BufSize() - |crlfDashBoundary|;
        if len > 0 {
          var data := BufHead(len);
          events := events + [Content(data)];
          if !accept(events) {
            isValid := false;
            return true, false;
          }
          BufErase(len);
        }
        return true, true;
      }
    }

    method ParseBoundary() returns (stop: bool, ok: bool)
      requires Valid()
      modifies this`state, this`isValid, this`bufSpos
      ensures Valid()
      ensures (if stop then Return(Abstract(), ok) else Next(Abstract())) == AtBoundary(old(Abstract()))
    {
      if |CRLF| > BufSize() { return true, true; }
      var newEntry := BufStartWith(CRLF);
      if newEntry {
        BufErase(|CRLF|);
        state := NewEntry;
        return false, true;
      }
      var last := BufStartWith(DASH);
      if last {
        BufErase(|DASH|);
        isValid := true;
        BufErase(BufSize());
        return false, true;
      }
      stop, ok := true, true;
    }
  }

  lemma FoundFits(u: string, s: string)
    requires s != ""
    ensures Find(u, s) < |u| ==> Find(u, s) + |s| <= |u|
  {
  }

  lemma NotHere(u: string, s: string, i: nat)
    requires s != "" && i < |u| && u[i] != s[0]
    ensures !OccursAt(u, s, i)
  {
    if i + |s| <= |u| {
      assert u[i..i + |s|][0] == u[i];
    }
  }

  lemma NotFound(u: string, s: string, i: nat)
    requires s != "" && i + |s| > |u| && forall j: nat :: j < i ==> !OccursAt(u, s, j)
    ensures Find(u, s) == |u|
  {
    FindNone(u, s, 0);
  }
}
