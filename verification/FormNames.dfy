/** Exactly which names and content types come back through the header lines of a multipart section. */
module FormNames {
  import opened Wrappers
  import opened Scanning
  import opened FormHeaders
  import Q = Query

  // ---------------------------------------------------------------- decoding hides nothing forbidden

  /** What a round of the decoder eats besides the character it stands on are digits. */
  lemma EatenDigits(s: string, i: nat, j: nat)
    requires i < |s| && i < j < i + Q.DecodeStep(s, i, false).1
    ensures s[i] == '%' && (s[j] == 'u' || Q.HexValue(s[j]).Some?)
  {
    if s[i + 1] == 'u' {
      RunDigits(s, i + 2, 4, 0);
    } else {
      RunDigits(s, i + 1, 2, 0);
    }
  }

  lemma {:induction false} RunDigits(s: string, i: nat, cnt: nat, acc: nat)
    ensures Q.HexRun(s, i, cnt, acc).Some? ==>
              forall j :: i <= j < i + cnt ==> j < |s| && Q.HexValue(s[j]).Some?
    decreases cnt
  {
    if cnt > 0 && i < |s| && Q.HexValue(s[i]).Some? {
      RunDigits(s, i + 1, cnt - 1, acc * 16 + Q.HexValue(s[i]).value);
    }
  }

  lemma CleanRound(s: string, i: nat)
    requires i < |s| && Clean(Q.DecodeStep(s, i, false).0)
    ensures Clean(s[i..i + Q.DecodeStep(s, i, false).1])
  {
    var step := Q.DecodeStep(s, i, false);
    forall j | i <= j < i + step.1 ensures s[j] != '\r' && s[j] != '\n' && s[j] != '\0' {
      if j > i {
        EatenDigits(s, i, j);
      } else if step.1 == 1 {
        assert step.0 == [s[i]];
        assert s[i] in step.0;
      }
    }
  }

  /** A forbidden character in the text is also in the decoded text. */
  lemma {:induction false} CleanBefore(s: string, i: nat)
    requires i <= |s| && Clean(Q.DecodedFrom(s, i, false))
    ensures Clean(s[i..])
    decreases |s| - i
  {
    if i < |s| {
      hide *;
      var k := i + Q.DecodeStep(s, i, false).1;
      CleanFirst(s, i);
      CleanRound(s, i);
      CleanBefore(s, k);
      CleanTail(s, i, k);
    }
  }

  lemma CleanFirst(s: string, i: nat)
    requires i < |s| && Clean(Q.DecodedFrom(s, i, false))
    ensures var step := Q.DecodeStep(s, i, false); Clean(step.0) && Clean(Q.DecodedFrom(s, i + step.1, false))
  {
    hide Q.DecodeStep, Q.DecodedFrom;
    Q.DecodeUnfold(s, i, false);
    CleanSplit(Q.DecodeStep(s, i, false).0, Q.DecodedFrom(s, i + Q.DecodeStep(s, i, false).1, false));
  }

  lemma CleanTail(s: string, i: nat, k: nat)
    requires i <= k <= |s| && Clean(s[i..k]) && Clean(s[k..])
    ensures Clean(s[i..])
  {
    assert s[i..] == s[i..k] + s[k..];
  }

  lemma CleanSplit(a: string, b: string)
    requires Clean(a + b)
    ensures Clean(a) && Clean(b)
  {
    assert forall c :: c in a || c in b ==> c in a + b;
  }

  lemma CleanWhole(s: string)
    requires Clean(Q.Decoded(s, false))
    ensures Clean(s)
  {
    CleanBefore(s, 0);
    assert s[0..] == s;
  }

  // ---------------------------------------------------------------- the content type

  predicate TypeSurvives(contentType: string) {
    Strip(contentType) == contentType && Clean(Q.Decoded(contentType, false))
  }

  lemma ContentTypeExact(f: File, contentType: string)
    requires contentType != ""
    ensures ApplyHeader(f, ContentTypeLine(contentType)) == (true, f.(contentType := contentType))
            <==> TypeSurvives(contentType)
  {
    hide Strip, Clean, Q.Decoded, StartsIgnoringCase, ParsedHeader, DispositionText, ApplyDisposition;
    if TypeSurvives(contentType) {
      ContentTypeApplies(f, contentType);
    }
    if ApplyHeader(f, ContentTypeLine(contentType)) == (true, f.(contentType := contentType)) {
      var line := ContentTypeLine(contentType);
      IsContentType(contentType);
      StripAfterBlank(contentType);
      StripEnds(contentType);
      assert line == "Content-Type" + ": " + contentType;
      HeaderParses("Content-Type", contentType);
    }
  }

  lemma IsContentType(contentType: string)
    ensures StartsIgnoringCase(ContentTypeLine(contentType), CONTENT_TYPE)
    ensures ContentTypeLine(contentType)[|CONTENT_TYPE|..] == " " + contentType
    ensures "Content-Type" != "" && ':' !in "Content-Type" && !SameIgnoringCase("Content-Type", "Location")
  {
    var line := ContentTypeLine(contentType);
    assert line[..|CONTENT_TYPE|] == CONTENT_TYPE;
    assert |"Content-Type"| == 12 && |"Location"| == 8;
  }

  lemma StripAfterBlank(s: string)
    ensures Strip(" " + s) == Strip(s)
  {
    assert (" " + s)[1..] == s;
  }

  // ---------------------------------------------------------------- fields are short and plain

  function Weight(fields: seq<string>): nat {
    if fields == [] then 0 else |fields[0]| + 1 + Weight(fields[1..])
  }

  lemma {:induction false} WeightSnoc(fields: seq<string>, f: string)
    ensures Weight(fields + [f]) == Weight(fields) + |f| + 1
  {
    if fields == [] {
      assert [] + [f] == [f];
    } else {
      assert (fields + [f])[1..] == fields[1..] + [f];
      WeightSnoc(fields[1..], f);
    }
  }

  lemma {:induction false} WeightFields(s: string, d: char)
    ensures Weight(Fields(s, d)) <= |s| + 1
    decreases |s|
  {
    var k := Find(s, [d]);
    if k < |s| {
      WeightFields(s[k + 1..], d);
      KeptShort(s[..k], Fields(s[k + 1..], d));
    } else {
      KeptShort(s, []);
      assert Trimmed([s]) == Kept(s) + Trimmed([s][1..]);
    }
  }

  lemma KeptShort(piece: string, rest: seq<string>)
    ensures Weight(Kept(piece) + rest) <= |piece| + 1 + Weight(rest)
  {
    StripLeftShrinks(piece);
    StripRightShrinks(StripLeft(piece));
    if Kept(piece) == [] {
      assert Kept(piece) + rest == rest;
    } else {
      assert (Kept(piece) + rest)[1..] == rest;
    }
  }

  /** First and last of several fields. */
  lemma FirstAndLast(fields: seq<string>)
    requires |fields| >= 2
    ensures |fields[0]| + |fields[|fields| - 1]| + 2 <= Weight(fields)
  {
    var n := |fields| - 1;
    assert fields == fields[..n] + [fields[n]];
    WeightSnoc(fields[..n], fields[n]);
    FieldShort(fields[..n], 0);
  }

  lemma {:induction false} FieldShort(fields: seq<string>, i: nat)
    requires i < |fields|
    ensures |fields[i]| < Weight(fields)
  {
    if i > 0 {
      FieldShort(fields[1..], i - 1);
    }
  }

  /** A character that is nowhere in the text is in no field. */
  lemma {:induction false} FieldsWithout(s: string, d: char, c: char)
    requires c !in s || c == d
    ensures forall f :: f in Fields(s, d) ==> c !in f
    decreases |s|
  {
    var k := Find(s, [d]);
    var head := if k < |s| then s[..k] else s;
    assert c !in head by {
      forall j | 0 <= j < |head| ensures head[j] != c {
        assert !OccursAt(s, [d], j);
        assert s[j..j + 1] == [s[j]];
      }
    }
    KeptWithout(head, c);
    assert Trimmed([head]) == Kept(head);
    if k < |s| {
      FieldsWithout(s[k + 1..], d, c);
      TrimmedConcat([head], Pieces(s[k + 1..], d));
    }
  }

  lemma KeptWithout(piece: string, c: char)
    requires c !in piece
    ensures forall f :: f in Kept(piece) ==> c !in f
  {
    StripLeftPart(piece);
    StripRightPart(StripLeft(piece));
  }

  lemma {:induction false} StripLeftPart(s: string)
    ensures forall c :: c in StripLeft(s) ==> c in s
  {
    if s != "" {
      StripLeftPart(s[1..]);
    }
  }

  lemma {:induction false} StripRightPart(s: string)
    ensures forall c :: c in StripRight(s) ==> c in s
  {
    if s != "" {
      StripRightPart(s[..|s| - 1]);
    }
  }

  // ---------------------------------------------------------------- the parameters

  /** A parameter that came from a part of at most `m` characters. */
  predicate Bounded(p: Q.Param, m: nat) {
    ';' !in p.value && '=' !in p.value && (p.key == "filename*" ==> |p.value| + 10 <= m)
  }

  lemma PartBounded(kv: string, m: nat)
    requires ';' !in kv && 10 <= m && |kv| <= m
    ensures var fields := Fields(kv, '='); Bounded(Q.Param(Unquote(KeyOf(fields)), Unquote(ValueOf(fields))), m)
  {
    var fields := Fields(kv, '=');
    FieldsWithout(kv, '=', '=');
    FieldsWithout(kv, '=', ';');
    WeightFields(kv, '=');
    hide Fields, Weight;
    if |fields| >= 2 {
      assert fields[|fields| - 1] in fields;
      FirstAndLast(fields);
      Unquoted(fields[0]);
      Unquoted(fields[|fields| - 1]);
      hide Unquote;
      assert |"filename*"| == 9;
    }
  }

  lemma Unquoted(s: string)
    ensures |Unquote(s)| <= |s| && forall c :: c in Unquote(s) ==> c in s
    ensures Unquote("") == ""
  {
  }

  lemma {:induction false} EmplaceBounded(params: seq<Q.Param>, p: Q.Param, m: nat)
    requires Bounded(p, m) && forall q :: q in params ==> Bounded(q, m)
    ensures forall q :: q in Q.Emplace(params, p) ==> Bounded(q, m)
  {
    if params != [] {
      EmplaceBounded(params[1..], p, m);
    }
  }

  lemma {:induction false} ParseBounded(parts: seq<string>, cache: set<string>, params: seq<Q.Param>, m: nat)
    requires 10 <= m && forall kv :: kv in parts ==> ';' !in kv && |kv| <= m
    requires forall q :: q in params ==> Bounded(q, m)
    ensures forall q :: q in ParseParts(parts, cache, params) ==> Bounded(q, m)
    decreases |parts|
  {
    if parts != [] {
      var kv := parts[0];
      assert kv in parts;
      var fields := Fields(kv, '=');
      var p := Q.Param(Unquote(KeyOf(fields)), Unquote(ValueOf(fields)));
      PartBounded(kv, m);
      EmplaceBounded(params, p, m);
      hide Bounded, Fields;
      ParseBounded(parts[1..], cache, params, m);
      ParseBounded(parts[1..], cache + {kv}, params, m);
      ParseBounded(parts[1..], cache + {kv}, Q.Emplace(params, p), m);
    }
  }

  lemma PartsBounded(s: string)
    ensures forall kv :: kv in Fields(s, ';') ==> ';' !in kv && |kv| <= |s|
  {
    FieldsWithout(s, ';', ';');
    WeightFields(s, ';');
    var fields := Fields(s, ';');
    hide Fields, Weight;
    forall kv | kv in fields ensures |kv| <= |s| {
      var i :| 0 <= i < |fields| && fields[i] == kv;
      FieldShort(fields, i);
    }
  }

  lemma {:induction false} LookupBounded(params: seq<Q.Param>, key: string, m: nat)
    requires forall q :: q in params ==> Bounded(q, m)
    ensures Lookup(params, key).Some? ==> Bounded(Q.Param(key, Lookup(params, key).value), m)
  {
    if params != [] {
      assert params[0] in params;
      LookupBounded(params[1..], key, m);
    }
  }

  // ---------------------------------------------------------------- the disposition line

  /** Names that a disposition line can carry. */
  predicate NamesSurvive(name: string, filename: string) {
    && ';' !in name && '=' !in name && ';' !in filename && '=' !in filename
    && Clean(Q.Decoded("form-data; " + DispositionParams(name, filename), false))
  }

  lemma ParamsCleanWhole(name: string, filename: string)
    requires Clean(Q.Decoded("form-data; " + DispositionParams(name, filename), false))
    ensures Clean(name) && Clean(filename)
  {
    var t := "form-data; " + DispositionParams(name, filename);
    CleanWhole(t);
    assert forall c :: c in name || (c in filename && filename != "") ==> c in DispositionParams(name, filename);
    assert forall c :: c in DispositionParams(name, filename) ==> c in t;
  }

  /** An extended file name smuggled in with a file name is shorter than that. */
  lemma ExtendedShort(name: string, filename: string)
    requires ';' !in name && '=' !in name
    ensures var it := Lookup(ParsedDisposition(DispositionParams(name, filename)), "filename*");
            it.Some? ==> |it.value| <= |filename| + 2
  {
    hide Fields, Bounded, ParseParts, Quoted, DispositionParams, Q.Emplace, Lookup;
    var n, f, p := Quoted("name", name), " " + Quoted("filename", filename), Q.Param("name", name);
    var rest := if filename == "" then [] else Fields(f, ';');
    QuotedLength(filename);
    NameBounded(name, |f|);
    FirstPart(name, filename);
    ParsePart("name", name, rest, {}, []);
    FirstEmplaced(p);
    PartsBounded(f);
    ParseBounded(rest, {} + {n}, [p], |f|);
    ExtendedBound(ParseParts(rest, {} + {n}, [p]), |f|);
  }

  lemma QuotedLength(filename: string)
    ensures |" " + Quoted("filename", filename)| == |filename| + 12
  {
  }

  lemma NameBounded(name: string, m: nat)
    requires ';' !in name && '=' !in name
    ensures Bounded(Q.Param("name", name), m)
  {
    assert |"name"| == 4 && |"filename*"| == 9;
  }

  lemma FirstEmplaced(p: Q.Param)
    ensures Q.Emplace([], p) == [p]
  {
  }

  lemma ExtendedBound(params: seq<Q.Param>, m: nat)
    requires forall q :: q in params ==> Bounded(q, m)
    ensures var it := Lookup(params, "filename*"); it.Some? ==> |it.value| + 10 <= m
  {
    LookupBounded(params, "filename*", m);
  }

  lemma FirstPart(name: string, filename: string)
    requires ';' !in name
    ensures Fields(DispositionParams(name, filename), ';')
         == [Quoted("name", name)] + if filename == "" then [] else Fields(" " + Quoted("filename", filename), ';')
  {
    var n, f := Quoted("name", name), " " + Quoted("filename", filename);
    StripNone(n);
    if filename == "" {
      assert DispositionParams(name, filename) == n;
      FieldsStep(n, ';', "");
    } else {
      assert DispositionParams(name, filename) == n + [';'] + f;
      FieldsStep(n, ';', f);
    }
  }

  /** Values of parameters hold no separator. */
  lemma ValuesPlain(text: string, key: string)
    ensures var it := Lookup(ParsedDisposition(text), key); it.Some? ==> ';' !in it.value && '=' !in it.value
  {
    var m := |text| + 10;
    PartsBounded(text);
    hide Fields, Lookup;
    assert forall kv :: kv in Fields(text, ';') ==> |kv| <= m;
    ParseBounded(Fields(text, ';'), {}, [], m);
    LookupBounded(ParsedDisposition(text), key, m);
  }

  lemma AppliedNames(name: string, filename: string)
    requires ApplyDisposition(NO_FILE, ParsedDisposition(DispositionParams(name, filename))) == (true, File(name, filename, ""))
    ensures ';' !in name && '=' !in name && ';' !in filename && '=' !in filename
  {
    hide ParsedDisposition, Lookup, DispositionParams;
    var text := DispositionParams(name, filename);
    var params := ParsedDisposition(text);
    ValuesPlain(text, "name");
    ValuesPlain(text, "filename");
    ExtendedShort(name, filename);
    var it := Lookup(params, "filename*");
    if it.Some? {
      Q.DecodeShrinks(it.value[|UTF_8|..], 0, false);
    }
  }

  /** The disposition line gives both names back if and only if they hold no separator and the line decodes
      without a forbidden character. */
  lemma DispositionExact(name: string, filename: string)
    ensures ApplyHeader(NO_FILE, DispositionLine(name, filename)) == (true, File(name, filename, ""))
            <==> NamesSurvive(name, filename)
  {
    if NamesSurvive(name, filename) {
      ParamsCleanWhole(name, filename);
      DispositionApplies(NO_FILE, name, filename);
    }
    if ApplyHeader(NO_FILE, DispositionLine(name, filename)) == (true, File(name, filename, "")) {
      OnlyNames(name, filename);
    }
  }

  lemma OnlyNames(name: string, filename: string)
    requires ApplyHeader(NO_FILE, DispositionLine(name, filename)) == (true, File(name, filename, ""))
    ensures NamesSurvive(name, filename)
  {
    var params, line := DispositionParams(name, filename), DispositionLine(name, filename);
    ParamsClean(name, filename);
    hide DispositionParams, ParsedDisposition, DispositionText, StartsIgnoringCase, ApplyDisposition, ParsedHeader, Clean, Q.Decoded;
    DispositionAccepted(line, params);
    ParamsCleanWhole(name, filename);
    NotContentType(line);
    CleanParams(name, filename);
    DispositionMatches(line, params);
    ApplyParams(NO_FILE, line, params);
    AppliedNames(name, filename);
  }

  lemma CleanParams(name: string, filename: string)
    requires Clean(name) && Clean(filename)
    ensures Clean(DispositionParams(name, filename))
  {
  }
}
