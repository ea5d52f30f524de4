/** The header lines of a multipart section (httplib.h): `parse_header`, the content disposition with its
    parameters, and the two lines that the serializer writes. */
module FormHeaders {
  import opened Wrappers
  import opened Scanning
  import Q = Query

  /** The part of a form item that its header describes. */
  datatype File = File(name: string, filename: string, contentType: string)

  const NO_FILE := File("", "", "")

  // ---------------------------------------------------------------- letter case

  /** The table of `case_ignore::to_lower`: Latin letters of ISO 8859-1. */
  function ToLower(c: char): char {
    if 'A' <= c <= 'Z' || (192 <= c as int <= 222 && c as int != 215) then (c as int + 32) as char else c
  }

  predicate SameIgnoringCase(a: string, b: string) {
    |a| == |b| && forall i :: 0 <= i < |a| ==> ToLower(a[i]) == ToLower(b[i])
  }

  predicate StartsIgnoringCase(a: string, b: string) {
    |b| <= |a| && SameIgnoringCase(a[..|b|], b)
  }

  method StartWithCaseIgnore(a: string, b: string) returns (r: bool)
    ensures r <==> StartsIgnoringCase(a, b)
  {
    if |a| < |b| { return false; }
    for i := 0 to |b|
      invariant forall j :: 0 <= j < i ==> ToLower(a[j]) == ToLower(b[j])
    {
      if ToLower(a[i]) != ToLower(b[i]) {
        assert a[..|b|][i] == a[i];
        return false;
      }
    }
    r := true;
  }

  // ---------------------------------------------------------------- one header line

  /** Free of the characters that a field value must not contain. */
  predicate Clean(s: string) { '\r' !in s && '\n' !in s && '\0' !in s }

  /** Key and value of a header line, unless it is refused: trailing blanks do not count, the key ends at the
      first colon and is not empty, and the value, percent-decoded except for a location, is clean. */
  function ParsedHeader(line: string): Option<(string, string)> {
    var t := StripRight(line);
    var k := Find(t, ":");
    if k == |t| || k == 0 then None
    else
      var raw := StripLeft(t[k + 1..]);
      var val := if SameIgnoringCase(t[..k], "Location") then raw else Q.Decoded(raw, false);
      if Clean(val) then Some((t[..k], val)) else None
  }

  method ParseHeader(line: string) returns (r: Option<(string, string)>)
    ensures r == ParsedHeader(line)
  {
    var end := |line|;
    while 0 < end && IsBlank(line[end - 1])
      invariant 0 <= end <= |line|
      invariant forall j :: end <= j < |line| ==> IsBlank(line[j])
    {
      end := end - 1;
    }
    StripRightIs(line, end);
    ghost var t := line[..end];
    var p := 0;
    while p < end && line[p] != ':'
      invariant 0 <= p <= end
      invariant forall j :: 0 <= j < p ==> t[j] != ':'
    {
      p := p + 1;
    }
    FindCharIs(t, ':', 0, p);
    if p == end { return None; }
    var keyEnd := p;
    p := p + 1;
    while p < end && IsBlank(line[p])
      invariant keyEnd < p <= end
      invariant forall j :: keyEnd < j < p ==> IsBlank(line[j])
    {
      p := p + 1;
    }
    ValueIs(line, end, keyEnd, p);
    if keyEnd == 0 { return None; }
    var key := line[..keyEnd];
    assert t[..keyEnd] == key;
    var val := line[p..end];
    hide StripLeft, Clean, SameIgnoringCase;
    if !SameIgnoringCase(key, "Location") {
      val := Q.DecodeUrl(val, false);
    }
    r := if Clean(val) then Some((key, val)) else None;
  }

  lemma ValueIs(line: string, end: nat, keyEnd: nat, p: nat)
    requires keyEnd < p <= end <= |line| && forall j :: keyEnd < j < p ==> IsBlank(line[j])
    requires p < end ==> !IsBlank(line[p])
    ensures StripLeft(line[..end][keyEnd + 1..]) == line[p..end]
  {
    var u := line[..end][keyEnd + 1..];
    assert forall j :: 0 <= j < |u| ==> u[j] == line[keyEnd + 1 + j];
    StripLeftIs(u, p - keyEnd - 1);
    assert u[p - keyEnd - 1..] == line[p..end];
  }

  // ---------------------------------------------------------------- content disposition

  const CONTENT_TYPE := "Content-Type:"
  const CONTENT_DISPOSITION := "Content-Disposition:"
  const FORM_DATA := "form-data;"
  const UTF_8 := "UTF-8''"

  /** What the pattern of the content disposition captures, where it matches: the parameters. */
  function DispositionText(line: string): Option<string> {
    if !StartsIgnoringCase(line, CONTENT_DISPOSITION) then None
    else
      var a := SkipSpace(line[|CONTENT_DISPOSITION|..]);
      if !StartsIgnoringCase(a, FORM_DATA) then None
      else
        var t := SkipSpace(a[|FORM_DATA|..]);
        if '\r' in t || '\n' in t then None else Some(t)
  }

  /** What the pattern of an extended file name captures. */
  function ExtendedText(value: string): Option<string> {
    if StartsIgnoringCase(value, UTF_8) && |value| > |UTF_8| && '\r' !in value && '\n' !in value
    then Some(value[|UTF_8|..]) else None
  }

  /** The key of a parameter is its first field, the value its last one. */
  function KeyOf(fields: seq<string>): string { if fields == [] then "" else fields[0] }
  function ValueOf(fields: seq<string>): string { if |fields| <= 1 then "" else fields[|fields| - 1] }

  function ParseParts(parts: seq<string>, cache: set<string>, params: seq<Q.Param>): seq<Q.Param>
    decreases |parts|
  {
    if parts == [] then params
    else if parts[0] in cache then ParseParts(parts[1..], cache, params)
    else
      var fields := Fields(parts[0], '=');
      ParseParts(parts[1..], cache + {parts[0]},
                 if KeyOf(fields) == "" then params
                 else Q.Emplace(params, Q.Param(Unquote(KeyOf(fields)), Unquote(ValueOf(fields)))))
  }

  function ParsedDisposition(s: string): seq<Q.Param> { ParseParts(Fields(s, ';'), {}, []) }

  lemma {:induction false} TrimmedNonempty(ps: seq<string>)
    ensures "" !in Trimmed(ps)
  {
    if ps != [] {
      TrimmedNonempty(ps[1..]);
    }
  }

  method ParseDispositionParams(s: string) returns (params: seq<Q.Param>)
    ensures params == ParsedDisposition(s)
  {
    var cache: set<string> := {};
    params := [];
    var parts := Split(s, ';');
    assert parts[0..] == parts;
    for i := 0 to |parts|
      invariant ParseParts(parts[i..], cache, params) == ParsedDisposition(s)
    {
      assert parts[i..][1..] == parts[i + 1..];
      var kv := parts[i];
      if kv !in cache {
        cache := cache + {kv};
        var key, val := KeyAndValue(kv);
        if key != "" {
          params := Q.EmplaceInto(params, Q.Param(Unquote(key), Unquote(val)));
        }
      }
    }
  }

  method KeyAndValue(kv: string) returns (key: string, val: string)
    ensures key == KeyOf(Fields(kv, '=')) && val == ValueOf(Fields(kv, '='))
  {
    key, val := "", "";
    var fields := Split(kv, '=');
    TrimmedNonempty(Pieces(kv, '='));
    assert forall j :: 0 <= j < |fields| ==> fields[j] in fields && fields[j] != "";
    hide Fields;
    for i := 0 to |fields|
      invariant key == (if i == 0 then "" else fields[0]) && val == (if i <= 1 then "" else fields[i - 1])
    {
      if key == "" {
        key := fields[i];
      } else {
        val := fields[i];
      }
    }
  }

  /** The first entry with a key. */
  function Lookup(params: seq<Q.Param>, key: string): Option<string> {
    if params == [] then None
    else if params[0].key == key then Some(params[0].value)
    else Lookup(params[1..], key)
  }

  /** What the disposition parameters do to the file, and whether they are accepted. */
  function ApplyDisposition(f: File, params: seq<Q.Param>): (bool, File) {
    match Lookup(params, "name")
    case None => (false, f)
    case Some(name) =>
      var g := f.(name := name);
      var h := match Lookup(params, "filename") case None => g case Some(filename) => g.(filename := filename);
      match Lookup(params, "filename*")
      case None => (true, h)
      case Some(value) =>
        match ExtendedText(value)
        case None => (false, h)
        case Some(text) => (true, h.(filename := Q.Decoded(text, false)))
  }

  /** What a header line does to the file, and whether it is accepted. */
  function ApplyHeader(f: File, line: string): (bool, File) {
    if ParsedHeader(line).None? then (false, f)
    else if StartsIgnoringCase(line, CONTENT_TYPE) then (true, f.(contentType := Strip(line[|CONTENT_TYPE|..])))
    else
      match DispositionText(line)
      case None => (true, f)
      case Some(text) => ApplyDisposition(f, ParsedDisposition(text))
  }

  method ProcessHeader(file: File, line: string) returns (ok: bool, f: File)
    ensures (ok, f) == ApplyHeader(file, line)
  {
    f := file;
    var header := ParseHeader(line);
    if header.None? { return false, f; }
    var isType := StartWithCaseIgnore(line, CONTENT_TYPE);
    if isType {
      var contentType := TrimCopy(line[|CONTENT_TYPE|..]);
      return true, f.(contentType := contentType);
    }
    var text := DispositionText(line);
    if text.None? { return true, f; }
    var params := ParseDispositionParams(text.value);
    var it := Lookup(params, "name");
    if it.None? { return false, f; }
    f := f.(name := it.value);
    it := Lookup(params, "filename");
    if it.Some? { f := f.(filename := it.value); }
    it := Lookup(params, "filename*");
    if it.Some? {
      var extended := ExtendedText(it.value);
      if extended.None? { return false, f; }
      var filename := Q.DecodeUrl(extended.value, false);
      f := f.(filename := filename);
    }
    ok := true;
  }

  // ---------------------------------------------------------------- the lines the serializer writes

  function DispositionParams(name: string, filename: string): string {
    "name=\"" + name + "\"" + (if filename == "" then "" else "; filename=\"" + filename + "\"")
  }

  function DispositionLine(name: string, filename: string): string {
    "Content-Disposition: form-data; " + DispositionParams(name, filename)
  }

  function ContentTypeLine(contentType: string): string { "Content-Type: " + contentType }

  lemma HeaderParses(key: string, value: string)
    requires key != "" && ':' !in key && !SameIgnoringCase(key, "Location")
    requires value != "" && !IsBlank(value[0]) && !IsBlank(value[|value| - 1])
    ensures ParsedHeader(key + ": " + value)
         == if Clean(Q.Decoded(value, false)) then Some((key, Q.Decoded(value, false))) else None
  {
    var line, n := key + ": " + value, |key|;
    StripRightIs(line, |line|);
    assert line[..|line|] == line;
    FindCharIs(line, ':', 0, n);
    assert line[..n] == key;
    StripLeftIs(line[n + 1..], 1);
    assert line[n + 1..][1..] == value;
  }

  /** One parameter as it is written. */
  function Quoted(key: string, value: string): string { key + "=\"" + value + "\"" }

  predicate IsToken(key: string) {
    key != "" && key[0] != '"' && !IsBlank(key[0]) && !IsBlank(key[|key| - 1]) && '=' !in key
  }

  lemma QuotedParses(key: string, value: string)
    requires IsToken(key) && '=' !in value
    ensures Fields(Quoted(key, value), '=') == [key, "\"" + value + "\""]
    ensures Unquote("\"" + value + "\"") == value && Unquote(key) == key
  {
    var q := "\"" + value + "\"";
    QuotedFields(key, q);
    assert q[1..|q| - 1] == value;
    assert Quoted(key, value) == key + ['='] + q;
  }

  lemma QuotedFields(key: string, q: string)
    requires IsToken(key) && '=' !in q && q != "" && !IsBlank(q[0]) && !IsBlank(q[|q| - 1])
    ensures Fields(key + ['='] + q, '=') == [key, q]
  {
    hide Fields, Strip;
    FieldsStep(key, '=', q);
    FieldsStep(q, '=', "");
    StripNone(key);
    StripNone(q);
  }

  lemma PartsOf(name: string, filename: string)
    requires ';' !in name && ';' !in filename
    ensures Fields(DispositionParams(name, filename), ';')
         == [Quoted("name", name)] + if filename == "" then [] else [Quoted("filename", filename)]
  {
    var n, f := Quoted("name", name), Quoted("filename", filename);
    ParamsText(name, filename);
    KeptAlone(n);
    KeptAlone(f);
    hide Fields, Kept, DispositionParams, Quoted;
    if filename == "" {
      FieldsStep(n, ';', "");
    } else {
      FieldsStep(n, ';', " " + f);
      FieldsStep(" " + f, ';', "");
    }
  }

  lemma ParamsText(name: string, filename: string)
    ensures var (n, f, t) := (Quoted("name", name), Quoted("filename", filename), DispositionParams(name, filename));
            && t == (if filename == "" then n else n + [';'] + (" " + f))
            && n[0] == 'n' && n[|n| - 1] == '"' && f[0] == 'f' && f[|f| - 1] == '"'
            && (';' !in name ==> ';' !in n) && (';' !in filename ==> ';' !in f && ';' !in " " + f)
  {
  }

  /** A part that starts and ends with no blank, alone or with a blank before it. */
  lemma KeptAlone(s: string)
    requires s != "" && !IsBlank(s[0]) && !IsBlank(s[|s| - 1])
    ensures Kept(s) == [s] && Kept(" " + s) == [s]
  {
    StripNone(s);
    StripLeadingBlanks(1, s, " ");
    StripLeftIs(s, 0);
  }

  /** Parsing one part that is a quoted parameter. */
  lemma ParsePart(key: string, value: string, rest: seq<string>, cache: set<string>, params: seq<Q.Param>)
    requires IsToken(key) && '=' !in value && Quoted(key, value) !in cache
    ensures ParseParts([Quoted(key, value)] + rest, cache, params)
         == ParseParts(rest, cache + {Quoted(key, value)}, Q.Emplace(params, Q.Param(key, value)))
  {
    QuotedParses(key, value);
    hide Fields, Unquote, Q.Emplace;
    assert ([Quoted(key, value)] + rest)[1..] == rest;
  }

  /** The multimap keeps a file name before a name. */
  lemma EmplaceFilename(name: string, filename: string)
    ensures Q.Emplace([], Q.Param("name", name)) == [Q.Param("name", name)]
    ensures Q.Emplace([Q.Param("name", name)], Q.Param("filename", filename))
         == [Q.Param("filename", filename), Q.Param("name", name)]
  {
    assert Q.LexLess("filename", "name");
  }

  lemma ParamsOf(name: string, filename: string)
    requires ';' !in name && ';' !in filename && '=' !in name && '=' !in filename
    ensures ParsedDisposition(DispositionParams(name, filename))
         == (if filename == "" then [] else [Q.Param("filename", filename)]) + [Q.Param("name", name)]
  {
    PartsOf(name, filename);
    EmplaceFilename(name, filename);
    var n, f := Quoted("name", name), Quoted("filename", filename);
    assert n[0] == 'n' && f[0] == 'f';
    TwoParts(name, filename);
    hide Fields, DispositionParams, Q.Emplace, ParseParts, Quoted;
  }

  lemma TwoParts(name: string, filename: string)
    requires '=' !in name && '=' !in filename && Quoted("name", name) != Quoted("filename", filename)
    ensures var (n, f) := (Quoted("name", name), Quoted("filename", filename));
            && ParseParts([n], {}, []) == Q.Emplace([], Q.Param("name", name))
            && ParseParts([n, f], {}, [])
               == Q.Emplace(Q.Emplace([], Q.Param("name", name)), Q.Param("filename", filename))
  {
    var n, f, p := Quoted("name", name), Quoted("filename", filename), Q.Emplace([], Q.Param("name", name));
    ParsePart("name", name, [], {}, []);
    ParsePart("name", name, [f], {}, []);
    ParsePart("filename", filename, [], {} + {n}, p);
    hide Quoted, Q.Emplace, Fields;
    assert [n] + [] == [n] && [f] + [] == [f] && [n] + [f] == [n, f];
  }

  /** A name or file name that a disposition line can carry. */
  predicate Quotable(s: string) { ';' !in s && '=' !in s && Clean(s) }

  /** The line is accepted and gives both names back. */
  lemma DispositionApplies(f: File, name: string, filename: string)
    requires Quotable(name) && Quotable(filename)
    requires Clean(Q.Decoded("form-data; " + DispositionParams(name, filename), false))
    ensures ApplyHeader(f, DispositionLine(name, filename))
         == (true, f.(name := name, filename := if filename == "" then f.filename else filename))
  {
    hide DispositionParams, ParsedDisposition, ParsedHeader, DispositionText, StartsIgnoringCase, ApplyHeader, ApplyDisposition;
    var params, line := DispositionParams(name, filename), DispositionLine(name, filename);
    ParamsClean(name, filename);
    DispositionAccepted(line, params);
    NotContentType(line);
    DispositionMatches(line, params);
    ApplyParams(f, line, params);
    ParamsOf(name, filename);
    ApplyFound(f, name, filename);
  }

  lemma ApplyParams(f: File, line: string, params: string)
    requires ParsedHeader(line).Some? && !StartsIgnoringCase(line, CONTENT_TYPE) && DispositionText(line) == Some(params)
    ensures ApplyHeader(f, line) == ApplyDisposition(f, ParsedDisposition(params))
  {
  }

  lemma ParamsClean(name: string, filename: string)
    ensures var t := DispositionParams(name, filename);
            (Clean(name) && Clean(filename) ==> Clean(t)) && t != "" && t[0] == 'n' && t[|t| - 1] == '"'
  {
  }

  lemma ApplyFound(f: File, name: string, filename: string)
    ensures ApplyDisposition(f, (if filename == "" then [] else [Q.Param("filename", filename)]) + [Q.Param("name", name)])
         == (true, f.(name := name, filename := if filename == "" then f.filename else filename))
  {
    var ps := (if filename == "" then [] else [Q.Param("filename", filename)]) + [Q.Param("name", name)];
    LookupIs(ps, "name", |ps| - 1);
    LookupNone(ps, "filename*");
    if filename == "" {
      LookupNone(ps, "filename");
    } else {
      LookupIs(ps, "filename", 0);
    }
  }

  lemma {:induction false} LookupIs(ps: seq<Q.Param>, key: string, i: nat)
    requires i < |ps| && ps[i].key == key && forall j :: 0 <= j < i ==> ps[j].key != key
    ensures Lookup(ps, key) == Some(ps[i].value)
  {
    if i > 0 {
      LookupIs(ps[1..], key, i - 1);
    }
  }

  lemma {:induction false} LookupNone(ps: seq<Q.Param>, key: string)
    requires forall j :: 0 <= j < |ps| ==> ps[j].key != key
    ensures Lookup(ps, key) == None
  {
    if ps != [] {
      LookupNone(ps[1..], key);
    }
  }

  lemma DispositionAccepted(line: string, params: string)
    requires line == "Content-Disposition: form-data; " + params
    requires params != "" && params[|params| - 1] == '"'
    ensures ParsedHeader(line).Some? <==> Clean(Q.Decoded("form-data; " + params, false))
  {
    var key, value := "Content-Disposition", "form-data; " + params;
    assert line == key + ": " + value;
    assert |"Location"| == 8 && |key| == 19;
    HeaderParses(key, value);
  }

  lemma NotContentType(line: string)
    requires |line| > 8 && line[8] == 'D'
    ensures !StartsIgnoringCase(line, CONTENT_TYPE)
  {
    if |line| >= |CONTENT_TYPE| {
      assert line[..|CONTENT_TYPE|][8] == 'D' && CONTENT_TYPE[8] == 'T';
    }
  }

  lemma DispositionMatches(line: string, params: string)
    requires line == "Content-Disposition: form-data; " + params
    requires Clean(params) && params != "" && !IsSpace(params[0])
    ensures DispositionText(line) == Some(params)
  {
    var n := |CONTENT_DISPOSITION|;
    assert line[..n] == CONTENT_DISPOSITION;
    var a := line[n + 1..];
    assert line[n..] == [' '] + a;
    assert SkipSpace(line[n..]) == SkipSpace(a) == a;
    assert a[..|FORM_DATA|] == FORM_DATA;
    assert a[|FORM_DATA|..] == [' '] + params;
    assert SkipSpace([' '] + params) == SkipSpace(params) == params;
  }

  lemma ContentTypeApplies(f: File, contentType: string)
    requires contentType != "" && Strip(contentType) == contentType && Clean(Q.Decoded(contentType, false))
    ensures ApplyHeader(f, ContentTypeLine(contentType)) == (true, f.(contentType := contentType))
  {
    var line := ContentTypeLine(contentType);
    assert line == "Content-Type" + ": " + contentType;
    StripEnds(contentType);
    hide Clean, ParsedHeader, Q.Decoded;
    HeaderParses("Content-Type", contentType);
    assert line[..|CONTENT_TYPE|] == CONTENT_TYPE;
    assert line[|CONTENT_TYPE|..] == " " + contentType;
    StripLeadingBlanks(1, contentType, " ");
    StripLeftIs(contentType, 0);
  }

  lemma StripEnds(s: string)
    requires s != "" && Strip(s) == s
    ensures !IsBlank(s[0]) && !IsBlank(s[|s| - 1])
  {
    StripShrinks(s);
    StripLeftShrinks(s);
  }

  lemma {:induction false} StripLeftShrinks(s: string)
    ensures |StripLeft(s)| <= |s| && (s != "" && IsBlank(s[0]) ==> |StripLeft(s)| < |s|)
    ensures StripLeft(s) != "" ==> !IsBlank(StripLeft(s)[0])
  {
    if s != "" {
      StripLeftShrinks(s[1..]);
    }
  }

  lemma {:induction false} StripRightShrinks(s: string)
    ensures |StripRight(s)| <= |s| && (s != "" && IsBlank(s[|s| - 1]) ==> |StripRight(s)| < |s|)
  {
    if s != "" {
      StripRightShrinks(s[..|s| - 1]);
    }
  }

  lemma StripShrinks(s: string)
    ensures Strip(s) == s ==> StripLeft(s) == s && StripRight(s) == s
    ensures StripRight(s) == s && s != "" ==> !IsBlank(s[|s| - 1])
  {
    StripLeftShrinks(s);
    StripRightShrinks(StripLeft(s));
    StripRightShrinks(s);
    StripLeftKeeps(s);
  }

  lemma {:induction false} StripLeftKeeps(s: string)
    ensures |StripLeft(s)| == |s| ==> StripLeft(s) == s
  {
    if s != "" {
      StripLeftShrinks(s[1..]);
    }
  }
}
