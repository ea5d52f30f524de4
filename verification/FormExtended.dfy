/** Header lines of a multipart section as any sender may write them: names in every letter case, parameters in every
    order and more of them than the serializer writes, extended file names, and headers that are not looked at. */
module FormExtended {
  import opened Wrappers
  import opened Scanning
  import opened FormHeaders
  import opened FormNames
  import Q = Query
  import QueryForeign

  // ---------------------------------------------------------------- letter case

  const UPPER := "ABCDEFGHIJKLMNOPQRSTUVWXYZ"
  const LOWER := "abcdefghijklmnopqrstuvwxyz"
  const ACCENTED_UPPER := "ÀÁÂÃÄÅÆÇÈÉÊËÌÍÎÏÐÑÒÓÔÕÖØÙÚÛÜÝÞ"
  const ACCENTED_LOWER := "àáâãäåæçèéêëìíîïðñòóôõöøùúûüýþ"

  /** One letter in its two cases. */
  predicate TwoCases(upper: string, lower: string, a: char, b: char)
    requires |upper| == |lower|
  {
    exists i :: 0 <= i < |upper| && ((a == upper[i] && b == lower[i]) || (a == lower[i] && b == upper[i]))
  }

  lemma PairedLetters()
    ensures |UPPER| == |LOWER| == 26 && |ACCENTED_UPPER| == |ACCENTED_LOWER| == 30
    ensures forall i :: 0 <= i < 26 ==> UPPER[i] as int == 65 + i && LOWER[i] as int == 97 + i
    ensures forall i :: 0 <= i < 23 ==> ACCENTED_UPPER[i] as int == 192 + i && ACCENTED_LOWER[i] as int == 224 + i
    ensures forall i :: 23 <= i < 30 ==> ACCENTED_UPPER[i] as int == 193 + i && ACCENTED_LOWER[i] as int == 225 + i
  {
  }

  /** Two characters are the same ignoring case exactly if they are equal or one letter in its two cases. */
  lemma SameLetter(a: char, b: char)
    ensures ToLower(a) == ToLower(b) <==>
              a == b || TwoCases(UPPER, LOWER, a, b) || TwoCases(ACCENTED_UPPER, ACCENTED_LOWER, a, b)
  {
    PairedLetters();
    hide UPPER, LOWER, ACCENTED_UPPER, ACCENTED_LOWER;
    if ToLower(a) == ToLower(b) && a != b {
      var n := (if ToLower(a) != a then a else b) as int;
      var i := if n < 192 then n - 65 else if n < 215 then n - 192 else n - 193;
      if n < 192 {
        assert UPPER[i] as int == n && LOWER[i] as int == n + 32;
      } else {
        assert ACCENTED_UPPER[i] as int == n && ACCENTED_LOWER[i] as int == n + 32;
      }
    }
  }

  // ---------------------------------------------------------------- parameters

  /** A parameter as a sender writes it, its value in quotes or bare. */
  datatype Written = Written(key: string, value: string, quoted: bool)

  function ValueText(p: Written): string { if p.quoted then "\"" + p.value + "\"" else p.value }

  function PartText(p: Written): string { p.key + ['='] + ValueText(p) }

  /** The parameters as they stand on the line. */
  function ParamsText(ps: seq<Written>): string {
    if ps == [] then "" else if |ps| == 1 then PartText(ps[0]) else PartText(ps[0]) + [';'] + (" " + ParamsText(ps[1..]))
  }

  /** A value that needs no quotes. */
  predicate Bare(value: string) {
    value != "" && value[0] !in "\" \t" && value[|value| - 1] !in " \t"
  }

  predicate Writable(p: Written) {
    IsToken(p.key) && !IsSpace(p.key[0]) && Quotable(p.key) && Quotable(p.value) && (p.quoted || Bare(p.value))
  }

  predicate AllWritable(ps: seq<Written>) { forall i :: 0 <= i < |ps| ==> Writable(ps[i]) }

  /** The first value that is given for a key. */
  function Given(ps: seq<Written>, key: string): Option<string> {
    if ps == [] then None else if ps[0].key == key then Some(ps[0].value) else Given(ps[1..], key)
  }

  function Parts(ps: seq<Written>): seq<string> { if ps == [] then [] else [PartText(ps[0])] + Parts(ps[1..]) }

  lemma PartShape(p: Written)
    requires Writable(p)
    ensures var t := PartText(p);
            t != "" && t[0] == p.key[0] && !IsBlank(t[0]) && !IsBlank(t[|t| - 1]) && ';' !in t && ';' !in " " + t && Clean(t)
    ensures var v := ValueText(p); v != "" && '=' !in v && !IsBlank(v[0]) && !IsBlank(v[|v| - 1]) && Unquote(v) == p.value
    ensures Unquote(p.key) == p.key && p.key != ""
  {
    var v, t := ValueText(p), PartText(p);
    if p.quoted {
      assert v[1..|v| - 1] == p.value;
    }
    assert t[|t| - 1] == v[|v| - 1];
  }

  lemma {:induction false} ParamsParts(b: string, ps: seq<Written>)
    requires b in {"", " "} && AllWritable(ps)
    ensures Fields(b + ParamsText(ps), ';') == Parts(ps)
    decreases |ps|
  {
    hide Fields, PartText, Writable;
    if ps == [] {
      NoParts(b);
    } else {
      var t := PartText(ps[0]);
      PartKept(b, ps[0]);
      ParamsParts(" ", ps[1..]);
      if |ps| == 1 {
        FieldsStep(b + t, ';', "");
      } else {
        FieldsStep(b + t, ';', " " + ParamsText(ps[1..]));
        Regroup(b, t + [';'], " " + ParamsText(ps[1..]));
        Regroup(b, t, [';']);
      }
    }
  }

  lemma NoParts(b: string)
    requires b in {"", " "}
    ensures Fields(b + "", ';') == []
  {
    assert ';' !in b + "";
    FieldsStep(b + "", ';', "");
    assert Strip("") == "" && Strip(" ") == "";
  }

  lemma PartKept(b: string, p: Written)
    requires b in {"", " "} && Writable(p)
    ensures Kept(b + PartText(p)) == [PartText(p)] && ';' !in b + PartText(p)
  {
    hide PartText, Kept;
    PartShape(p);
    KeptAlone(PartText(p));
    assert "" + PartText(p) == PartText(p);
  }

  // ---------------------------------------------------------------- the multimap

  /** A new entry is found under its key unless the key was there. */
  lemma {:induction false} LookupEmplaced(ps: seq<Q.Param>, p: Q.Param, key: string)
    requires Q.Sorted(ps)
    ensures Lookup(Q.Emplace(ps, p), key)
         == if Lookup(ps, key).Some? then Lookup(ps, key) else if p.key == key then Some(p.value) else None
  {
    hide Q.LexLess;
    if ps != [] && !Q.LexLess(p.key, ps[0].key) {
      LookupEmplaced(ps[1..], p, key);
    } else {
      assert ([p] + ps)[1..] == ps;
      if Lookup(ps, p.key).Some? {
        LookupAt(ps, p.key);
        QueryForeign.LexIrreflexive(p.key);
      }
    }
  }

  lemma {:induction false} LookupAt(ps: seq<Q.Param>, key: string)
    requires Lookup(ps, key).Some?
    ensures exists i :: 0 <= i < |ps| && ps[i].key == key
  {
    if ps[0].key != key {
      LookupAt(ps[1..], key);
      var i :| 0 <= i < |ps[1..]| && ps[1..][i].key == key;
      assert ps[i + 1].key == key;
    }
  }

  /** The keys of the parts seen before are in the multimap. */
  predicate Seen(cache: set<string>, params: seq<Q.Param>) {
    forall t :: t in cache ==> Lookup(params, Unquote(KeyOf(Fields(t, '=')))).Some?
  }

  lemma PartRead(p: Written)
    requires Writable(p)
    ensures Fields(PartText(p), '=') == [p.key, ValueText(p)]
  {
    PartShape(p);
    QuotedFields(p.key, ValueText(p));
  }

  lemma {:induction false} PartsMean(ps: seq<Written>, cache: set<string>, params: seq<Q.Param>, key: string)
    requires AllWritable(ps) && Q.Sorted(params) && Seen(cache, params)
    ensures Lookup(ParseParts(Parts(ps), cache, params), key)
         == if Lookup(params, key).Some? then Lookup(params, key) else Given(ps, key)
    decreases |ps|
  {
    hide Fields, PartText, ValueText, Writable, Unquote, Q.Sorted, Q.Emplace;
    if ps != [] {
      var p, t := ps[0], PartText(ps[0]);
      PartRead(p);
      PartShape(p);
      assert ([t] + Parts(ps[1..]))[1..] == Parts(ps[1..]);
      if t in cache {
        PartsMean(ps[1..], cache, params, key);
      } else {
        var q := Q.Param(p.key, p.value);
        QueryForeign.EmplaceSorted(params, q);
        LookupEmplaced(params, q, key);
        SeenMore(cache, params, p);
        PartsMean(ps[1..], cache + {t}, Q.Emplace(params, q), key);
      }
    }
  }

  lemma SeenMore(cache: set<string>, params: seq<Q.Param>, p: Written)
    requires Q.Sorted(params) && Seen(cache, params) && Writable(p)
    ensures Seen(cache + {PartText(p)}, Q.Emplace(params, Q.Param(p.key, p.value)))
  {
    hide Fields, PartText, ValueText, Writable, Unquote, Q.Sorted, Q.Emplace, Lookup;
    PartRead(p);
    PartShape(p);
    forall t | t in cache + {PartText(p)}
      ensures Lookup(Q.Emplace(params, Q.Param(p.key, p.value)), Unquote(KeyOf(Fields(t, '=')))).Some?
    {
      LookupEmplaced(params, Q.Param(p.key, p.value), Unquote(KeyOf(Fields(t, '='))));
    }
  }

  /** Of any list of parameters, in any order and with repetitions, the first value of every key is found. */
  lemma ParametersGiven(ps: seq<Written>, key: string)
    requires AllWritable(ps)
    ensures Lookup(ParsedDisposition(ParamsText(ps)), key) == Given(ps, key)
  {
    ParamsParts("", ps);
    assert "" + ParamsText(ps) == ParamsText(ps);
    PartsMean(ps, {}, [], key);
  }

  // ---------------------------------------------------------------- the line

  /** What a sender writes behind the name of the header, and the whole line. */
  function DispositionValue(kind: string, b: string, ps: seq<Written>): string { kind + b + ParamsText(ps) }

  function SentLine(header: string, gap: string, value: string): string { header + gap + value }

  /** Header and kind may be in any letter case, blanks may follow both, and there is a parameter. */
  predicate Disposition(header: string, gap: string, kind: string, b: string, ps: seq<Written>) {
    && SameIgnoringCase(header, CONTENT_DISPOSITION) && SameIgnoringCase(kind, FORM_DATA) && Blanks(gap) && Blanks(b)
    && ps != [] && AllWritable(ps) && Clean(Q.Decoded(DispositionValue(kind, b, ps), false))
  }

  lemma {:induction false} ParamsShape(ps: seq<Written>)
    requires AllWritable(ps) && ps != []
    ensures var t := ParamsText(ps); t != "" && !IsSpace(t[0]) && !IsBlank(t[|t| - 1]) && Clean(t)
    decreases |ps|
  {
    hide PartText, Writable;
    PartShape(ps[0]);
    KeyStarts(ps[0]);
    if |ps| > 1 {
      ParamsShape(ps[1..]);
    }
  }

  lemma KeyStarts(p: Written)
    requires Writable(p)
    ensures !IsSpace(PartText(p)[0])
  {
  }

  lemma NameOfHeader(header: string, name: string)
    requires |name| > 0 && SameIgnoringCase(header, name + ":") && ':' !in name
    ensures |header| == |name| + 1 && header[|name|] == ':' && ':' !in header[..|name|]
  {
    forall i | 0 <= i <= |name| ensures header[i] == ':' <==> i == |name| {
      assert ToLower(header[i]) == ToLower((name + ":")[i]);
    }
  }

  /** Any header line with a name in front of the first colon, blanks and a value. */
  lemma LineParses(header: string, gap: string, value: string)
    requires |header| > 1 && header[|header| - 1] == ':' && ':' !in header[..|header| - 1]
    requires Blanks(gap) && value != "" && !IsBlank(value[0]) && !IsBlank(value[|value| - 1])
    requires !SameIgnoringCase(header[..|header| - 1], "Location")
    ensures ParsedHeader(SentLine(header, gap, value))
         == if Clean(Q.Decoded(value, false)) then Some((header[..|header| - 1], Q.Decoded(value, false))) else None
  {
    var line, n := SentLine(header, gap, value), |header| - 1;
    StripRightIs(line, |line|);
    assert line[..|line|] == line;
    assert forall j :: 0 <= j < n ==> line[j] == header[..n][j];
    FindCharIs(line, ':', 0, n);
    assert line[..n] == header[..n];
    assert line[n + 1..] == gap + value;
    StripLeadingBlanks(|gap|, value, gap);
  }

  lemma SpaceBefore(gap: string, t: string)
    requires Blanks(gap) && (t != "" ==> !IsSpace(t[0]))
    ensures SkipSpace(gap + t) == t
    decreases |gap|
  {
    if gap == "" {
      assert gap + t == t;
    } else {
      SpaceBefore(gap[1..], t);
      assert (gap + t)[1..] == gap[1..] + t;
    }
  }

  lemma CaseStart(a: string, rest: string, b: string)
    requires SameIgnoringCase(a, b)
    ensures StartsIgnoringCase(a + rest, b) && (a + rest)[|b|..] == rest
  {
    assert (a + rest)[..|b|] == a;
  }

  /** The line is taken for a content disposition with just these parameters. */
  lemma LineTaken(f: File, header: string, gap: string, kind: string, b: string, ps: seq<Written>)
    requires Disposition(header, gap, kind, b, ps)
    ensures ApplyHeader(f, SentLine(header, gap, DispositionValue(kind, b, ps)))
         == ApplyDisposition(f, ParsedDisposition(ParamsText(ps)))
  {
    var t, value := ParamsText(ps), DispositionValue(kind, b, ps);
    var line := SentLine(header, gap, value);
    ParamsShape(ps);
    LineAccepted(header, gap, kind, b, ps);
    LineMatches(header, gap, kind, b, t);
    hide ApplyDisposition, ParsedHeader, DispositionText, ParsedDisposition, StartsIgnoringCase, Disposition, ParamsText;
    ApplyParams(f, line, t);
  }

  lemma LineAccepted(header: string, gap: string, kind: string, b: string, ps: seq<Written>)
    requires Disposition(header, gap, kind, b, ps)
    ensures var line := SentLine(header, gap, DispositionValue(kind, b, ps));
            ParsedHeader(line).Some? && !StartsIgnoringCase(line, CONTENT_TYPE)
  {
    var value := DispositionValue(kind, b, ps);
    ParamsShape(ps);
    hide ParamsText, Clean, ParsedHeader, SameIgnoringCase, AllWritable;
    HeaderNamed(header);
    ValueStarts(kind, b, ParamsText(ps));
    LineParses(header, gap, value);
    NotTypeHeader(header, gap + value);
    Regroup(header, gap, value);
  }

  lemma HeaderNamed(header: string)
    requires SameIgnoringCase(header, CONTENT_DISPOSITION)
    ensures |header| == 20 && header[19] == ':' && ':' !in header[..19] && !SameIgnoringCase(header[..19], "Location")
  {
    assert CONTENT_DISPOSITION == "Content-Disposition" + ":" && |"Location"| == 8;
    NameOfHeader(header, "Content-Disposition");
  }

  lemma ValueStarts(kind: string, b: string, t: string)
    requires SameIgnoringCase(kind, FORM_DATA) && t != "" && !IsBlank(t[|t| - 1])
    ensures var v := kind + b + t; v != "" && !IsBlank(v[0]) && !IsBlank(v[|v| - 1])
  {
    assert ToLower(kind[0]) == 'f';
  }

  lemma NotTypeHeader(header: string, rest: string)
    requires SameIgnoringCase(header, CONTENT_DISPOSITION)
    ensures !StartsIgnoringCase(header + rest, CONTENT_TYPE)
  {
    var line := header + rest;
    assert line[8] == header[8] && ToLower(header[8]) == 'd' && ToLower(CONTENT_TYPE[8]) == 't';
    if |line| >= |CONTENT_TYPE| {
      assert line[..|CONTENT_TYPE|][8] == line[8];
    }
  }

  lemma LineMatches(header: string, gap: string, kind: string, b: string, t: string)
    requires SameIgnoringCase(header, CONTENT_DISPOSITION) && SameIgnoringCase(kind, FORM_DATA) && Blanks(gap) && Blanks(b)
    requires Clean(t) && t != "" && !IsSpace(t[0])
    ensures DispositionText(SentLine(header, gap, kind + b + t)) == Some(t)
  {
    var a := kind + (b + t);
    assert SentLine(header, gap, kind + b + t) == header + (gap + a);
    assert ToLower(kind[0]) == 'f';
    CaseStart(header, gap + a, CONTENT_DISPOSITION);
    CaseStart(kind, b + t, FORM_DATA);
    SpaceBefore(gap, a);
    SpaceBefore(b, t);
  }

  // ---------------------------------------------------------------- what the line does

  /** The name and the plain file name that the first parameters of these keys give. */
  function Named(f: File, ps: seq<Written>, name: string): File {
    match Given(ps, "filename") case None => f.(name := name) case Some(filename) => f.(name := name, filename := filename)
  }

  /** With no extended file name, the line gives the name and the file name, wherever they stand; it is refused
      without a name. */
  lemma NamesGiven(f: File, header: string, gap: string, kind: string, b: string, ps: seq<Written>)
    requires Disposition(header, gap, kind, b, ps)
    ensures var (ok, g) := ApplyHeader(f, SentLine(header, gap, DispositionValue(kind, b, ps)));
            && (ok ==> Given(ps, "name").Some?)
            && (Given(ps, "name").Some? && Given(ps, "filename*").None? ==> ok && g == Named(f, ps, Given(ps, "name").value))
  {
    hide ApplyHeader, SentLine, Disposition, ParsedDisposition;
    LineTaken(f, header, gap, kind, b, ps);
    ThreeGiven(header, gap, kind, b, ps);
  }

  lemma ThreeGiven(header: string, gap: string, kind: string, b: string, ps: seq<Written>)
    requires Disposition(header, gap, kind, b, ps)
    ensures forall key :: key in {"name", "filename", "filename*"} ==>
              Lookup(ParsedDisposition(ParamsText(ps)), key) == Given(ps, key)
  {
    ParametersGiven(ps, "name");
    ParametersGiven(ps, "filename");
    ParametersGiven(ps, "filename*");
  }

  /** An extended file name in UTF-8 overrides the plain one: whatever its bytes, and in whatever letter case the
      charset is written. */
  lemma ExtendedNameGiven(
    f: File, header: string, gap: string, kind: string, b: string, ps: seq<Written>, charset: string, t: string)
    requires Disposition(header, gap, kind, b, ps) && Given(ps, "name").Some?
    requires SameIgnoringCase(charset, "UTF-8") && t != "" && Q.IsBytes(t)
    requires Given(ps, "filename*") == Some(charset + "''" + Q.Encoded(t))
    ensures ApplyHeader(f, SentLine(header, gap, DispositionValue(kind, b, ps)))
         == (true, f.(name := Given(ps, "name").value, filename := t))
  {
    hide ApplyHeader, SentLine, Disposition, ParsedDisposition, ExtendedText, Q.Encoded, Q.Decoded;
    LineTaken(f, header, gap, kind, b, ps);
    ThreeGiven(header, gap, kind, b, ps);
    CharsetText(charset, t);
    Q.DecodeUndoesEncode(t, false);
  }

  lemma {:induction false} EncodedPlain(t: string)
    requires Q.IsBytes(t)
    ensures t != "" ==> Q.Encoded(t) != ""
    ensures forall i :: 0 <= i < |Q.Encoded(t)| ==> Q.Encoded(t)[i] !in "; =\t\"\r\n\0"
  {
    if t != "" {
      EncodedPlain(t[1..]);
      EncodedBytePlain(t[0]);
    }
  }

  lemma EncodedBytePlain(c: char)
    requires Q.IsByte(c)
    ensures var e := Q.EncodeByte(c); e != "" && forall i :: 0 <= i < |e| ==> e[i] !in "; =\t\"\r\n\0"
  {
  }

  lemma CharsetText(charset: string, t: string)
    requires SameIgnoringCase(charset, "UTF-8") && t != "" && Q.IsBytes(t)
    ensures ExtendedText(charset + "''" + Q.Encoded(t)) == Some(Q.Encoded(t))
  {
    var e := Q.Encoded(t);
    var value := charset + "''" + e;
    EncodedPlain(t);
    hide Q.Encoded;
    assert value[..7] == charset + "''" && value[7..] == e;
    CharsetStarts(charset);
    assert value[..|UTF_8|] == charset + "''";
    EitherPart(charset, e);
  }

  lemma EitherPart(charset: string, e: string)
    requires SameIgnoringCase(charset, "UTF-8") && forall i :: 0 <= i < |e| ==> e[i] !in "; =\t\"\r\n\0"
    ensures '\r' !in charset + "''" + e && '\n' !in charset + "''" + e
  {
    assert charset[0] in "uU" && charset[1] in "tT" && charset[2] in "fF" && charset[3] == '-' && charset[4] == '8';
    assert '\r' !in e && '\n' !in e && '\r' !in charset && '\n' !in charset;
  }

  lemma CharsetStarts(charset: string)
    requires SameIgnoringCase(charset, "UTF-8")
    ensures SameIgnoringCase(charset + "''", UTF_8) && |UTF_8| == 7
  {
    var c := charset + "''";
    assert forall i :: 0 <= i < 5 ==> c[i] == charset[i] && UTF_8[i] == "UTF-8"[i];
  }

  /** Any other charset is refused, and so is an extended name without a text. */
  lemma ExtendedNameRefused(f: File, header: string, gap: string, kind: string, b: string, ps: seq<Written>)
    requires Disposition(header, gap, kind, b, ps) && Given(ps, "filename*").Some?
    requires var v := Given(ps, "filename*").value; |v| <= 7 || !SameIgnoringCase(v[..5], "UTF-8") || v[5..7] != "''"
    ensures !ApplyHeader(f, SentLine(header, gap, DispositionValue(kind, b, ps))).0
  {
    hide ApplyHeader, SentLine, Disposition, ParsedDisposition, ExtendedText;
    LineTaken(f, header, gap, kind, b, ps);
    ThreeGiven(header, gap, kind, b, ps);
    OtherCharset(Given(ps, "filename*").value);
  }

  lemma OtherCharset(v: string)
    requires |v| <= 7 || !SameIgnoringCase(v[..5], "UTF-8") || v[5..7] != "''"
    ensures ExtendedText(v) == None
  {
    assert |UTF_8| == 7 && forall i :: 0 <= i < 5 ==> UTF_8[i] == "UTF-8"[i];
  }

  /** A content type is taken from its header in any letter case, blanks around it taken off. */
  lemma ContentTypeGiven(f: File, header: string, gap: string, contentType: string)
    requires SameIgnoringCase(header, CONTENT_TYPE) && Blanks(gap) && Bare(contentType)
    requires Clean(Q.Decoded(contentType, false))
    ensures ApplyHeader(f, SentLine(header, gap, contentType)) == (true, f.(contentType := contentType))
  {
    var line := SentLine(header, gap, contentType);
    assert CONTENT_TYPE == "Content-Type" + ":" && |"Content-Type"| == 12 && |"Location"| == 8;
    NameOfHeader(header, "Content-Type");
    hide Clean, ParsedHeader, Q.Decoded;
    LineParses(header, gap, contentType);
    assert line == header + (gap + contentType);
    CaseStart(header, gap + contentType, CONTENT_TYPE);
    StripLeadingBlanks(|gap|, contentType, gap);
    StripRightIs(contentType, |contentType|);
    assert contentType[..|contentType|] == contentType;
  }

  /** Any other header whose value is clean is accepted and changes nothing. */
  lemma OtherHeaderIgnored(f: File, name: string, gap: string, value: string)
    requires name != "" && ':' !in name
    requires !SameIgnoringCase(name, "Content-Type") && !SameIgnoringCase(name, "Content-Disposition")
    requires !SameIgnoringCase(name, "Location")
    requires Blanks(gap) && value != "" && !IsBlank(value[0]) && !IsBlank(value[|value| - 1])
    requires Clean(Q.Decoded(value, false))
    ensures ApplyHeader(f, SentLine(name + ":", gap, value)) == (true, f)
  {
    hide ParsedHeader, Clean, StartsIgnoringCase, SameIgnoringCase, Blanks;
    var header := name + ":";
    assert header[..|header| - 1] == name;
    LineParses(header, gap, value);
    Regroup(header, gap, value);
    OtherStarts(name, gap + value);
  }

  lemma OtherStarts(name: string, rest: string)
    requires ':' !in name && !SameIgnoringCase(name, "Content-Type") && !SameIgnoringCase(name, "Content-Disposition")
    ensures !StartsIgnoringCase(name + ":" + rest, CONTENT_TYPE) && DispositionText(name + ":" + rest) == None
  {
    assert CONTENT_TYPE == "Content-Type" + ":" && CONTENT_DISPOSITION == "Content-Disposition" + ":";
    hide StartsIgnoringCase, SameIgnoringCase;
    OtherStart(name, rest, "Content-Type");
    OtherStart(name, rest, "Content-Disposition");
  }

  /** The colon stands behind the name, so that no other name can start the line. */
  lemma OtherStart(name: string, rest: string, known: string)
    requires ':' !in name && ':' !in known && !SameIgnoringCase(name, known)
    ensures !StartsIgnoringCase(name + ":" + rest, known + ":")
  {
    var line, k := name + ":" + rest, known + ":";
    assert forall i :: 0 <= i < |name| ==> line[i] == name[i];
    assert forall i :: 0 <= i < |known| ==> k[i] == known[i];
    assert line[|name|] == ':' && k[|known|] == ':';
    if |k| <= |line| && |name| == |known| {
      var i :| 0 <= i < |name| && ToLower(name[i]) != ToLower(known[i]);
      assert line[..|k|][i] == name[i] && k[i] == known[i];
    } else if |k| <= |line| {
      var i := if |name| < |known| then |name| else |known|;
      assert line[..|k|][i] == line[i] && (line[i] == ':' <==> k[i] != ':');
    }
  }
}
