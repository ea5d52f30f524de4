/** No header line of a multipart section, whatever it holds, gives a name, a file name or a content type with CR, LF
    or NUL in it: the check of `parse_header` on the decoded value covers everything that is taken from the line. */
module FormClean {
  import opened Wrappers
  import opened Scanning
  import opened FormHeaders
  import opened FormNames
  import Q = Query

  // ---------------------------------------------------------------- decoding, place by place

  /** What the character at one place contributes to the decoded text is clean; no escape swallows a percent sign, so
      every percent sign counts. */
  predicate CleanAt(s: string, j: nat)
    requires j < |s|
  {
    if s[j] == '%' then Clean(Q.DecodeStep(s, j, false).0) else Clean([s[j]])
  }

  lemma CleanConcat(a: string, b: string)
    ensures Clean(a + b) <==> Clean(a) && Clean(b)
  {
    if Clean(a + b) { CleanSplit(a, b); }
  }

  lemma CleanRoundAt(s: string, i: nat)
    requires i < |s|
    ensures var step := Q.DecodeStep(s, i, false);
            Clean(step.0) <==> forall j :: i <= j < i + step.1 ==> CleanAt(s, j)
  {
    var step := Q.DecodeStep(s, i, false);
    forall j | i < j < i + step.1 ensures CleanAt(s, j) {
      EatenDigits(s, i, j);
    }
    FirstRound(s, i);
  }

  lemma FirstRound(s: string, i: nat)
    requires i < |s|
    ensures CleanAt(s, i) <==> Clean(Q.DecodeStep(s, i, false).0)
  {
    hide Q.HexRun, Q.Utf8;
  }

  lemma {:induction false} DecodesClean(s: string, i: nat)
    requires i <= |s|
    ensures Clean(Q.DecodedFrom(s, i, false)) <==> forall j :: i <= j < |s| ==> CleanAt(s, j)
    decreases |s| - i
  {
    hide Clean, CleanAt, Q.DecodeStep, Q.DecodedFrom;
    if i < |s| {
      var step := Q.DecodeStep(s, i, false);
      Q.DecodeUnfold(s, i, false);
      CleanConcat(step.0, Q.DecodedFrom(s, i + step.1, false));
      CleanRoundAt(s, i);
      DecodesClean(s, i + step.1);
    } else {
      Q.DecodeEnd(s, false);
      CleanEmpty();
    }
  }

  lemma CleanEmpty()
    ensures Clean("")
  {
  }

  /** Digits read inside a slice are read in the whole, and the other way round. */
  lemma {:induction false} RunInSlice(s: string, a: nat, b: nat, i: nat, cnt: nat, acc: nat)
    requires a <= b <= |s| && (Q.HexRun(s[a..b], i, cnt, acc).Some? || a + i + cnt <= b)
    ensures Q.HexRun(s[a..b], i, cnt, acc) == Q.HexRun(s, a + i, cnt, acc)
    decreases cnt
  {
    if cnt > 0 {
      assert s[a..b][i] == s[a + i];
      match Q.HexValue(s[a + i]) {
        case None =>
        case Some(v) => RunInSlice(s, a, b, i + 1, cnt - 1, acc * 16 + v);
      }
    }
  }

  /** An escape in a slice is the same escape in the whole. */
  lemma EscapeInSlice(s: string, a: nat, b: nat, i: nat)
    requires a <= b <= |s| && i < b - a && s[a + i] == '%'
    ensures var e := Q.DecodeStep(s[a..b], i, false).0; e == "%" || e == Q.DecodeStep(s, a + i, false).0
  {
    hide Q.HexRun, Q.Utf8;
    var x := s[a..b];
    assert x[i] == s[a + i];
    if i + 1 < |x| {
      assert x[i + 1] == s[a + i + 1];
      if Q.HexRun(x, i + 2, 4, 0).Some? { RunInSlice(s, a, b, i + 2, 4, 0); }
      if Q.HexRun(x, i + 1, 2, 0).Some? { RunInSlice(s, a, b, i + 1, 2, 0); }
    }
  }

  lemma SliceAt(s: string, a: nat, b: nat, i: nat)
    requires a <= b <= |s| && i < b - a && CleanAt(s, a + i)
    ensures CleanAt(s[a..b], i)
  {
    hide Q.DecodeStep;
    assert s[a..b][i] == s[a + i];
    if s[a + i] == '%' {
      EscapeInSlice(s, a, b, i);
    }
  }

  /** Every part of a text that decodes clean decodes clean by itself, wherever it is cut. */
  lemma CleanSlice(s: string, a: nat, b: nat)
    requires a <= b <= |s| && Clean(Q.Decoded(s, false))
    ensures Clean(Q.Decoded(s[a..b], false))
  {
    hide Clean, CleanAt, Q.DecodedFrom;
    DecodesClean(s, 0);
    forall j | 0 <= j < b - a ensures CleanAt(s[a..b], j) {
      SliceAt(s, a, b, j);
    }
    DecodesClean(s[a..b], 0);
  }

  /** An escape ends before blanks. */
  lemma EscapeBeforeBlanks(s: string, a: nat, b: nat, i: nat)
    requires a <= b <= |s| && i < b - a && s[a + i] == '%' && forall j :: b <= j < |s| ==> IsBlank(s[j])
    ensures var e := Q.DecodeStep(s, a + i, false).0; e == "%" || e == Q.DecodeStep(s[a..b], i, false).0
  {
    hide Q.HexRun, Q.Utf8;
    var x, k := s[a..b], a + i;
    assert x[i] == s[k];
    DigitsBeforeBlanks(s, a, b, k + 2, 4);
    DigitsBeforeBlanks(s, a, b, k + 1, 2);
    if k + 1 < b { assert x[i + 1] == s[k + 1]; }
  }

  lemma DigitsBeforeBlanks(s: string, a: nat, b: nat, k: nat, cnt: nat)
    requires a <= b <= |s| && a <= k && cnt > 0 && forall j :: b <= j < |s| ==> IsBlank(s[j])
    ensures Q.HexRun(s, k, cnt, 0).Some? ==> k + cnt <= b && Q.HexRun(s[a..b], k - a, cnt, 0) == Q.HexRun(s, k, cnt, 0)
  {
    if Q.HexRun(s, k, cnt, 0).Some? {
      RunDigits(s, k, cnt, 0);
      assert Q.HexValue(s[k + cnt - 1]).Some?;
      RunInSlice(s, a, b, k - a, cnt, 0);
    }
  }

  lemma PaddedAt(s: string, a: nat, b: nat, i: nat)
    requires a <= b <= |s| && i < b - a && CleanAt(s[a..b], i)
    requires forall j :: b <= j < |s| ==> IsBlank(s[j])
    ensures CleanAt(s, a + i)
  {
    hide Q.DecodeStep;
    assert s[a..b][i] == s[a + i];
    if s[a + i] == '%' {
      EscapeBeforeBlanks(s, a, b, i);
    }
  }

  lemma BlankAt(s: string, j: nat)
    requires j < |s| && IsBlank(s[j])
    ensures CleanAt(s, j)
  {
  }

  /** Blanks around it change nothing. */
  lemma CleanPadded(s: string, a: nat, b: nat)
    requires a <= b <= |s| && Clean(Q.Decoded(s[a..b], false))
    requires forall j :: 0 <= j < a || b <= j < |s| ==> IsBlank(s[j])
    ensures Clean(Q.Decoded(s, false))
  {
    hide Q.DecodedFrom, CleanAt, Clean;
    DecodesClean(s[a..b], 0);
    forall j | 0 <= j < |s| ensures CleanAt(s, j) {
      if a <= j < b {
        PaddedAt(s, a, b, j - a);
      } else {
        BlankAt(s, j);
      }
    }
    DecodesClean(s, 0);
  }

  // ---------------------------------------------------------------- slices

  ghost predicate SliceOf(x: string, s: string) { exists a, b :: 0 <= a <= b <= |s| && x == s[a..b] }

  lemma SliceOfSlice(x: string, y: string, s: string)
    requires SliceOf(x, y) && SliceOf(y, s)
    ensures SliceOf(x, s)
  {
    var a, b :| 0 <= a <= b <= |y| && x == y[a..b];
    var c, d :| 0 <= c <= d <= |s| && y == s[c..d];
    var z := s[c + a..c + b];
    assert forall i :: 0 <= i < |x| ==> x[i] == y[a + i] == s[c + (a + i)] == z[i];
    assert x == z;
  }

  lemma SliceSelf(s: string)
    ensures SliceOf(s, s) && SliceOf("", s)
  {
    assert s[0..|s|] == s && s[0..0] == "";
  }

  lemma SliceFrom(s: string, k: nat)
    requires k <= |s|
    ensures SliceOf(s[k..], s) && SliceOf(s[..k], s)
  {
    assert s[k..|s|] == s[k..] && s[0..k] == s[..k];
  }

  lemma StripLeftSlice(s: string) returns (k: nat)
    ensures k <= |s| && StripLeft(s) == s[k..] && forall j :: 0 <= j < k ==> IsBlank(s[j])
  {
    k := 0;
    while k < |s| && IsBlank(s[k])
      invariant k <= |s| && forall j :: 0 <= j < k ==> IsBlank(s[j])
    {
      k := k + 1;
    }
    StripLeftIs(s, k);
  }

  lemma StripRightSlice(s: string) returns (k: nat)
    ensures k <= |s| && StripRight(s) == s[..k] && forall j :: k <= j < |s| ==> IsBlank(s[j])
  {
    k := |s|;
    while k > 0 && IsBlank(s[k - 1])
      invariant k <= |s| && forall j :: k <= j < |s| ==> IsBlank(s[j])
    {
      k := k - 1;
    }
    StripRightIs(s, k);
  }

  lemma StripSlice(s: string)
    ensures SliceOf(Strip(s), s)
  {
    var t := StripLeft(s);
    var k := StripLeftSlice(s);
    SliceFrom(s, k);
    var m := StripRightSlice(t);
    SliceFrom(t, m);
    SliceOfSlice(t[..m], t, s);
  }

  lemma UnquoteSlice(s: string)
    ensures SliceOf(Unquote(s), s)
  {
    SliceSelf(s);
  }

  lemma {:induction false} SkipSpaceSlice(s: string)
    ensures SliceOf(SkipSpace(s), s)
  {
    SliceSelf(s);
    if s != "" && IsSpace(s[0]) {
      SkipSpaceSlice(s[1..]);
      SliceFrom(s, 1);
      SliceOfSlice(SkipSpace(s[1..]), s[1..], s);
    }
  }

  lemma {:induction false} FieldsSlice(s: string, d: char)
    ensures forall f :: f in Fields(s, d) ==> SliceOf(f, s)
    decreases |s|
  {
    var k := Find(s, [d]);
    FirstPiece(s, d);
    hide SliceOf, Find, Kept, Fields;
    if k < |s| {
      var head, rest := s[..k], s[k + 1..];
      assert s == head + [d] + rest;
      FieldsStep(head, d, rest);
      SliceFrom(s, k);
      KeptSlice(head, s);
      FieldsSlice(rest, d);
      SliceFrom(s, k + 1);
      forall f | f in Fields(rest, d) ensures SliceOf(f, s) {
        SliceOfSlice(f, rest, s);
      }
    } else {
      assert s[..k] == s;
      FieldsStep(s, d, "");
      SliceSelf(s);
      KeptSlice(s, s);
    }
  }

  lemma KeptSlice(head: string, s: string)
    requires SliceOf(head, s)
    ensures forall f :: f in Kept(head) ==> SliceOf(f, s)
  {
    hide SliceOf;
    StripSlice(head);
    SliceOfSlice(Strip(head), head, s);
  }

  /** All values are parts of the text. */
  ghost predicate ValuesFrom(params: seq<Q.Param>, t: string) { forall q :: q in params ==> SliceOf(q.value, t) }

  lemma PartSlice(kv: string, t: string)
    requires SliceOf(kv, t)
    ensures SliceOf(Unquote(ValueOf(Fields(kv, '='))), t)
  {
    var fields := Fields(kv, '=');
    FieldsSlice(kv, '=');
    SliceSelf(kv);
    assert |fields| > 1 ==> fields[|fields| - 1] in fields;
    var v := ValueOf(fields);
    UnquoteSlice(v);
    hide SliceOf, Fields;
    SliceOfSlice(Unquote(v), v, kv);
    SliceOfSlice(Unquote(v), kv, t);
  }

  lemma {:induction false} EmplaceSlices(params: seq<Q.Param>, p: Q.Param, t: string)
    requires SliceOf(p.value, t) && ValuesFrom(params, t)
    ensures ValuesFrom(Q.Emplace(params, p), t)
  {
    hide SliceOf;
    Q.EmplaceMembers(params, p);
  }

  lemma {:induction false} ParseSlices(parts: seq<string>, cache: set<string>, params: seq<Q.Param>, t: string)
    requires forall kv :: kv in parts ==> SliceOf(kv, t)
    requires ValuesFrom(params, t)
    ensures ValuesFrom(ParseParts(parts, cache, params), t)
    decreases |parts|
  {
    if parts != [] {
      hide SliceOf, Fields;
      var kv := parts[0];
      assert kv in parts;
      var fields := Fields(kv, '=');
      var p := Q.Param(Unquote(KeyOf(fields)), Unquote(ValueOf(fields)));
      PartSlice(kv, t);
      EmplaceSlices(params, p, t);
      ParseSlices(parts[1..], cache, params, t);
      ParseSlices(parts[1..], cache + {kv}, params, t);
      ParseSlices(parts[1..], cache + {kv}, Q.Emplace(params, p), t);
    }
  }

  lemma {:induction false} LookupSlice(params: seq<Q.Param>, key: string, t: string)
    requires ValuesFrom(params, t)
    ensures Lookup(params, key).Some? ==> SliceOf(Lookup(params, key).value, t)
  {
    if params != [] {
      hide SliceOf;
      assert params[0] in params;
      LookupSlice(params[1..], key, t);
    }
  }

  // ---------------------------------------------------------------- header lines

  predicate CleanFile(f: File) { Clean(f.name) && Clean(f.filename) && Clean(f.contentType) }

  /** Everything behind the colon of an accepted line decodes clean, the blanks around the value included. */
  lemma TailClean(line: string, n: nat)
    requires ParsedHeader(line).Some? && n < |line| && line[n] == ':' && forall j :: 0 <= j < n ==> line[j] != ':'
    requires !SameIgnoringCase(line[..n], "Location")
    ensures Clean(Q.Decoded(line[n + 1..], false))
  {
    hide Clean, Q.Decoded, StripLeft, StripRight;
    var e := StripRightSlice(line);
    assert e > n;
    ValueClean(line, n, e);
    CutBoth(line, n + 1, e);
    var tail := line[n + 1..];
    assert forall j :: 0 <= j < |tail| ==> tail[j] == line[n + 1 + j];
    ValueWithin(tail, e - n - 1);
  }

  lemma CutBoth(s: string, a: nat, b: nat)
    requires a <= b <= |s|
    ensures s[..b][a..] == s[a..][..b - a]
  {
  }

  /** A tail that decodes clean when it is stripped. */
  lemma ValueWithin(tail: string, m: nat)
    requires m <= |tail| && forall j :: m <= j < |tail| ==> IsBlank(tail[j])
    requires Clean(Q.Decoded(StripLeft(tail[..m]), false))
    ensures Clean(Q.Decoded(tail, false))
  {
    hide Clean, Q.Decoded, StripLeft;
    var u := tail[..m];
    var k := StripLeftSlice(u);
    assert u[k..] == tail[k..m];
    CleanPadded(tail, k, m);
  }

  lemma ValueClean(line: string, n: nat, e: nat)
    requires ParsedHeader(line).Some? && n < e <= |line| && line[n] == ':' && forall j :: 0 <= j < n ==> line[j] != ':'
    requires !SameIgnoringCase(line[..n], "Location") && StripRight(line) == line[..e]
    ensures Clean(Q.Decoded(StripLeft(line[..e][n + 1..]), false))
  {
    hide Clean, Q.Decoded, StripLeft, StripRight, SameIgnoringCase;
    var t := line[..e];
    FindCharIs(t, ':', 0, n);
    assert t[..n] == line[..n];
  }

  /** Where the colon is in a line that starts like a known header. */
  lemma ColonAt(line: string, name: string, n: nat)
    requires n < |name| && StartsIgnoringCase(line, name)
    requires name[n] == ':' && forall j :: 0 <= j < n ==> name[j] != ':'
    ensures n < |line| && line[n] == ':' && forall j :: 0 <= j < n ==> line[j] != ':'
  {
    var head := line[..|name|];
    assert forall j :: 0 <= j < |name| ==> line[j] == head[j];
  }

  lemma CleanPart(x: string, s: string)
    requires SliceOf(x, s) && Clean(Q.Decoded(s, false))
    ensures Clean(x) && Clean(Q.Decoded(x, false))
  {
    var a, b :| 0 <= a <= b <= |s| && x == s[a..b];
    CleanSlice(s, a, b);
    CleanWhole(x);
  }

  lemma DispositionSlice(line: string)
    requires DispositionText(line).Some?
    ensures |CONTENT_DISPOSITION| <= |line| && SliceOf(DispositionText(line).value, line[|CONTENT_DISPOSITION|..])
  {
    var s := line[|CONTENT_DISPOSITION|..];
    var a := SkipSpace(s);
    var b := a[|FORM_DATA|..];
    SkipSpaceSlice(s);
    SliceFrom(a, |FORM_DATA|);
    SkipSpaceSlice(b);
    hide SliceOf, SkipSpace;
    SliceOfSlice(b, a, s);
    SliceOfSlice(SkipSpace(b), b, s);
  }

  /** What is taken from clean parameters is clean, an extended file name after its own decoding too. */
  lemma CleanDisposition(f: File, params: seq<Q.Param>, s: string)
    requires CleanFile(f) && Clean(Q.Decoded(s, false)) && ValuesFrom(params, s)
    ensures CleanFile(ApplyDisposition(f, params).1)
  {
    hide Clean, Lookup, Q.Decoded;
    CleanFound(params, "name", s);
    CleanFound(params, "filename", s);
    CleanFound(params, "filename*", s);
  }

  lemma CleanFound(params: seq<Q.Param>, key: string, s: string)
    requires ValuesFrom(params, s) && Clean(Q.Decoded(s, false))
    ensures Lookup(params, key).Some? ==> CleanValue(Lookup(params, key).value)
  {
    hide Clean, Q.Decoded, Lookup, ValuesFrom, SliceOf;
    LookupSlice(params, key, s);
    if Lookup(params, key).Some? {
      CleanValueOf(Lookup(params, key).value, s);
    }
  }

  /** Clean as it stands, and as an extended file name. */
  predicate CleanValue(value: string) {
    Clean(value) && (ExtendedText(value).Some? ==> Clean(Q.Decoded(ExtendedText(value).value, false)))
  }

  lemma CleanValueOf(value: string, s: string)
    requires SliceOf(value, s) && Clean(Q.Decoded(s, false))
    ensures CleanValue(value)
  {
    hide Clean, Q.Decoded, SliceOf;
    CleanPart(value, s);
    if ExtendedText(value).Some? {
      SliceFrom(value, |UTF_8|);
      CleanPart(value[|UTF_8|..], value);
    }
  }

  /** A header line, accepted, keeps the file clean. */
  lemma HeaderKeepsClean(f: File, line: string)
    requires CleanFile(f) && ApplyHeader(f, line).0
    ensures CleanFile(ApplyHeader(f, line).1)
  {
    hide ParsedHeader, Clean, Strip, ParsedDisposition, DispositionText, ApplyDisposition, Q.Decoded;
    if StartsIgnoringCase(line, CONTENT_TYPE) {
      TypeClean(line);
    } else if DispositionText(line).Some? {
      DispositionClean(line);
      CleanDisposition(f, ParsedDisposition(DispositionText(line).value), line[20..]);
    }
  }

  lemma TypeClean(line: string)
    requires ParsedHeader(line).Some? && StartsIgnoringCase(line, CONTENT_TYPE)
    ensures Clean(Strip(line[|CONTENT_TYPE|..]))
  {
    hide ParsedHeader, Clean, Strip, Q.Decoded;
    ColonAt(line, CONTENT_TYPE, 12);
    assert |line[..12]| != |"Location"|;
    TailClean(line, 12);
    StripSlice(line[13..]);
    CleanPart(Strip(line[13..]), line[13..]);
  }

  lemma DispositionStarts(line: string)
    requires DispositionText(line).Some?
    ensures 19 < |line| && line[19] == ':' && forall j :: 0 <= j < 19 ==> line[j] != ':'
    ensures !SameIgnoringCase(line[..19], "Location") && |CONTENT_DISPOSITION| == 20
  {
    ColonAt(line, CONTENT_DISPOSITION, 19);
    assert |line[..19]| != |"Location"|;
  }

  lemma DispositionClean(line: string)
    requires ParsedHeader(line).Some? && DispositionText(line).Some?
    ensures |line| >= 20 && Clean(Q.Decoded(line[20..], false))
    ensures ValuesFrom(ParsedDisposition(DispositionText(line).value), line[20..])
  {
    DispositionStarts(line);
    hide *;
    TailClean(line, 19);
    var s, t := line[20..], DispositionText(line).value;
    DispositionSlice(line);
    ParametersSlice(t);
    ValuesFromPart(ParsedDisposition(t), t, s);
  }

  lemma ValuesFromPart(params: seq<Q.Param>, t: string, s: string)
    requires ValuesFrom(params, t) && SliceOf(t, s)
    ensures ValuesFrom(params, s)
  {
    hide SliceOf;
    forall q | q in params ensures SliceOf(q.value, s) {
      SliceOfSlice(q.value, t, s);
    }
  }

  lemma ParametersSlice(t: string)
    ensures ValuesFrom(ParsedDisposition(t), t)
  {
    hide SliceOf, Fields;
    FieldsSlice(t, ';');
    ParseSlices(Fields(t, ';'), {}, [], t);
  }
}
