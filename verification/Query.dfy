/** Percent coding of query parameters and the printer/parser pair for query strings (httplib.h). */
module Query {
  import opened Wrappers
  import opened Scanning

  /** A byte; only the printer needs to know that there are 256 of them. */
  predicate IsByte(c: char) { c as int < 256 }
  predicate IsBytes(s: string) { forall i :: 0 <= i < |s| ==> IsByte(s[i]) }

  // ---------------------------------------------------------------- percent coding

  predicate IsAlnum(c: char) { '0' <= c <= '9' || 'A' <= c <= 'Z' || 'a' <= c <= 'z' }

  predicate Unreserved(c: char) {
    IsAlnum(c) || c in "-_.!~*'()"
  }

  function HexUpper(n: int): char
    requires 0 <= n < 16
  {
    if n < 10 then (n + 48) as char else (n + 55) as char
  }

  function EncodeByte(c: char): string
    requires IsByte(c)
  {
    if Unreserved(c) then [c] else ['%', HexUpper(c as int / 16), HexUpper(c as int % 16)]
  }

  function Encoded(s: string): string
    requires IsBytes(s)
  {
    if s == "" then "" else EncodeByte(s[0]) + Encoded(s[1..])
  }

  lemma {:induction false} EncodedSnoc(s: string, c: char)
    requires IsBytes(s) && IsByte(c)
    ensures Encoded(s + [c]) == Encoded(s) + EncodeByte(c)
  {
    if s == "" {
      assert s + [c] == [c];
      assert Encoded([c][1..]) == "";
    } else {
      EncodedSnoc(s[1..], c);
      assert (s + [c])[1..] == s[1..] + [c];
    }
  }

  method EncodeQueryParam(value: string) returns (escaped: string)
    requires IsBytes(value)
    ensures escaped == Encoded(value)
  {
    escaped := "";
    for i := 0 to |value|
      invariant escaped == Encoded(value[..i])
    {
      EncodedSnoc(value[..i], value[i]);
      assert value[..i + 1] == value[..i] + [value[i]];
      escaped := escaped + EncodeByte(value[i]);
    }
    assert value[..|value|] == value;
  }

  /** The digit value of a hexadecimal character, if it is one. */
  function HexValue(c: char): (r: Option<nat>)
    ensures r.Some? ==> r.value < 16
  {
    if '0' <= c <= '9' then Some(c as int - 48)
    else if 'A' <= c <= 'F' then Some(c as int - 55)
    else if 'a' <= c <= 'f' then Some(c as int - 87)
    else None
  }

  /** The number written by exactly `cnt` hexadecimal digits from position `i` on, if they are there. */
  function HexRun(s: string, i: nat, cnt: nat, acc: nat): (r: Option<nat>)
    ensures r.Some? && cnt > 0 ==> i + cnt <= |s|
    ensures r.Some? && cnt == 0 ==> r.value == acc
    ensures r.Some? && cnt == 1 ==> r.value < acc * 16 + 16
    ensures r.Some? && cnt == 2 ==> r.value < acc * 256 + 256
    ensures r.Some? && cnt == 3 ==> r.value < acc * 4096 + 4096
    ensures r.Some? && cnt == 4 ==> r.value < acc * 65536 + 65536
    decreases cnt
  {
    if cnt == 0 then Some(acc)
    else if i >= |s| then None
    else match HexValue(s[i])
      case None => None
      case Some(v) => HexRun(s, i + 1, cnt - 1, acc * 16 + v)
  }

  /** `from_hex_to_i`: the loop over the digits. */
  method FromHexToI(s: string, start: nat, count: nat) returns (r: Option<nat>)
    requires count > 0
    ensures r == HexRun(s, start, count, 0)
  {
    var i: nat, cnt: nat, val: nat := start, count, 0;
    while cnt > 0
      invariant HexRun(s, i, cnt, val) == HexRun(s, start, count, 0)
    {
      if i >= |s| { return None; }
      match HexValue(s[i]) {
        case None => return None;
        case Some(v) => val := val * 16 + v;
      }
      i, cnt := i + 1, cnt - 1;
    }
    r := Some(val);
  }

  /** UTF-8 bytes of a code point; nothing for a surrogate or a number past the last code point. */
  function Utf8(code: nat): (r: string)
    ensures |r| <= 4 && IsBytes(r)
    ensures code < 0x10000 ==> |r| <= 3
  {
    if code < 0x80 then [code as char]
    else if code < 0x800 then [(0xC0 + code / 64) as char, (0x80 + code % 64) as char]
    else if code < 0xD800 || 0xE000 <= code < 0x10000 then
      [(0xE0 + code / 4096) as char, (0x80 + code / 64 % 64) as char, (0x80 + code % 64) as char]
    else if code < 0xE000 || code >= 0x110000 then ""
    else [(0xF0 + code / 262144 % 8) as char, (0x80 + code / 4096 % 64) as char,
          (0x80 + code / 64 % 64) as char, (0x80 + code % 64) as char]
  }

  /** What one round of the decoder emits, and how many characters it eats. */
  function DecodeStep(s: string, i: nat, plus: bool): (r: (string, nat))
    requires i < |s|
    ensures 0 < r.1 && i + r.1 <= |s|
  {
    if s[i] == '%' && i + 1 < |s| then
      if s[i + 1] == 'u' then
        match HexRun(s, i + 2, 4, 0)
        case Some(v) => (Utf8(v), 6)
        case None => ("%", 1)
      else
        match HexRun(s, i + 1, 2, 0)
        case Some(v) => ([v as char], 3)
        case None => ("%", 1)
    else if plus && s[i] == '+' then (" ", 1)
    else ([s[i]], 1)
  }

  function DecodedFrom(s: string, i: nat, plus: bool): string
    requires i <= |s|
    decreases |s| - i
  {
    if i == |s| then ""
    else DecodeStep(s, i, plus).0 + DecodedFrom(s, i + DecodeStep(s, i, plus).1, plus)
  }

  function Decoded(s: string, plus: bool): string { DecodedFrom(s, 0, plus) }

  /** The branches of the decoder's loop body. */
  method DecodeOne(s: string, i: nat, convertPlusToSpace: bool) returns (emit: string, eaten: nat)
    requires i < |s|
    ensures (emit, eaten) == DecodeStep(s, i, convertPlusToSpace)
  {
    hide HexRun, Utf8;
    if s[i] == '%' && i + 1 < |s| {
      if s[i + 1] == 'u' {
        var val := FromHexToI(s, i + 2, 4);
        if val.Some? {
          emit, eaten := Utf8(val.value), 6;
        } else {
          emit, eaten := [s[i]], 1;
        }
      } else {
        var val := FromHexToI(s, i + 1, 2);
        if val.Some? {
          emit, eaten := [val.value as char], 3;
        } else {
          emit, eaten := [s[i]], 1;
        }
      }
    } else if convertPlusToSpace && s[i] == '+' {
      emit, eaten := " ", 1;
    } else {
      emit, eaten := [s[i]], 1;
    }
  }

  method DecodeUrl(s: string, convertPlusToSpace: bool) returns (result: string)
    ensures result == Decoded(s, convertPlusToSpace)
  {
    hide DecodedFrom, DecodeStep;
    result := "";
    var i := 0;
    ghost var all := DecodedFrom(s, 0, convertPlusToSpace);
    assert "" + all == all;
    while i < |s|
      invariant i <= |s|
      invariant all == result + DecodedFrom(s, i, convertPlusToSpace)
    {
      var emit, eaten := DecodeOne(s, i, convertPlusToSpace);
      DecodeUnfold(s, i, convertPlusToSpace);
      Regroup(result, emit, DecodedFrom(s, i + eaten, convertPlusToSpace));
      result := result + emit;
      i := i + eaten;
    }
    DecodeEnd(s, convertPlusToSpace);
    assert result + "" == result;
  }

  /** One encoded byte decodes to itself, wherever it stands and whatever the plus setting. */
  lemma DecodeEncodedByte(pre: string, c: char, post: string, plus: bool)
    requires IsByte(c)
    ensures DecodeStep(pre + EncodeByte(c) + post, |pre|, plus) == ([c], |EncodeByte(c)|)
  {
    var s, i := pre + EncodeByte(c) + post, |pre|;
    if !Unreserved(c) {
      var hi, lo := c as int / 16, c as int % 16;
      assert s[i] == '%' && s[i + 1] == HexUpper(hi) && s[i + 2] == HexUpper(lo);
      TwoDigits(s, i + 1, hi, lo);
      hide HexRun, Utf8;
      assert (hi * 16 + lo) as char == c;
    } else {
      assert s[i] == c;
    }
  }

  lemma TwoDigits(s: string, i: nat, hi: nat, lo: nat)
    requires hi < 16 && lo < 16 && i + 2 <= |s| && s[i] == HexUpper(hi) && s[i + 1] == HexUpper(lo)
    ensures HexRun(s, i, 2, 0) == Some(hi * 16 + lo)
  {
    assert HexValue(HexUpper(hi)) == Some(hi) && HexValue(HexUpper(lo)) == Some(lo);
    assert HexRun(s, i, 2, 0) == HexRun(s, i + 1, 1, hi) == HexRun(s, i + 2, 0, hi * 16 + lo);
  }

  lemma DecodeUnfold(s: string, i: nat, plus: bool)
    requires i < |s|
    ensures DecodedFrom(s, i, plus) == DecodeStep(s, i, plus).0 + DecodedFrom(s, i + DecodeStep(s, i, plus).1, plus)
  {
  }

  lemma {:induction false} DecodeEncodedFrom(pre: string, v: string, plus: bool)
    requires IsBytes(v)
    ensures DecodedFrom(pre + Encoded(v), |pre|, plus) == v
    decreases |v|
  {
    if v != "" {
      var e, rest := EncodeByte(v[0]), Encoded(v[1..]);
      hide DecodeStep, EncodeByte;
      assert Encoded(v) == e + rest && v == [v[0]] + v[1..];
      hide Encoded, IsBytes;
      Regroup(pre, e, rest);
      DecodeEncodedByte(pre, v[0], rest, plus);
      DecodeEncodedFrom(pre + e, v[1..], plus);
      DecodeUnfold(pre + e + rest, |pre|, plus);
    } else {
      assert pre + Encoded(v) == pre;
    }
  }

  /** Decoding undoes encoding, on every byte string and for both plus settings. */
  lemma DecodeUndoesEncode(v: string, plus: bool)
    requires IsBytes(v)
    ensures Decoded(Encoded(v), plus) == v
  {
    DecodeEncodedFrom("", v, plus);
    assert "" + Encoded(v) == Encoded(v);
  }

  /** A round emits no more than it eats; as much only where it copies a character or turns a plus into a blank. */
  lemma StepShrinks(s: string, i: nat, plus: bool)
    requires i < |s|
    ensures var (emit, eaten) := DecodeStep(s, i, plus);
            |emit| <= eaten && (|emit| == eaten ==> eaten == 1 && emit == [if plus && s[i] == '+' then ' ' else s[i]])
  {
    hide HexRun, Utf8;
  }

  /** Decoding never makes a text longer. */
  lemma {:induction false} DecodeShrinks(s: string, i: nat, plus: bool)
    requires i <= |s|
    ensures |DecodedFrom(s, i, plus)| <= |s| - i
    decreases |s| - i
  {
    if i < |s| {
      hide DecodeStep, DecodedFrom;
      DecodeUnfold(s, i, plus);
      StepShrinks(s, i, plus);
      DecodeShrinks(s, i + DecodeStep(s, i, plus).1, plus);
    } else {
      DecodeEnd(s, plus);
    }
  }

  lemma DecodeEnd(s: string, plus: bool)
    ensures DecodedFrom(s, |s|, plus) == ""
  {
  }

  lemma {:induction false} EncodedChars(v: string, d: char)
    requires IsBytes(v)
    requires d in "&= \t"
    ensures d !in Encoded(v)
  {
    if v != "" {
      EncodedChars(v[1..], d);
    }
  }

  // ---------------------------------------------------------------- parameters

  datatype Param = Param(key: string, value: string)

  /** The order of byte strings that a `std::multimap` keeps its keys in. */
  predicate LexLess(a: string, b: string) {
    b != "" && (a == "" || a[0] < b[0] || (a[0] == b[0] && LexLess(a[1..], b[1..])))
  }

  /** A multimap, as the sequence in which it is iterated. */
  predicate Sorted(ps: seq<Param>) {
    forall i, j :: 0 <= i < j < |ps| ==> !LexLess(ps[j].key, ps[i].key)
  }

  /** Inserting into a multimap: behind every entry whose key is not greater. */
  function Emplace(ps: seq<Param>, p: Param): seq<Param> {
    if ps == [] || LexLess(p.key, ps[0].key) then [p] + ps else [ps[0]] + Emplace(ps[1..], p)
  }

  lemma {:induction false} EmplaceLast(ps: seq<Param>, p: Param)
    requires forall q :: q in ps ==> !LexLess(p.key, q.key)
    ensures Emplace(ps, p) == ps + [p]
  {
    if ps != [] {
      EmplaceLast(ps[1..], p);
    }
  }

  predicate BytesOnly(ps: seq<Param>) { forall i :: 0 <= i < |ps| ==> IsBytes(ps[i].value) }

  function PairText(p: Param): string
    requires IsBytes(p.value)
  {
    p.key + "=" + Encoded(p.value)
  }

  function QueryText(ps: seq<Param>): string
    requires BytesOnly(ps)
  {
    if ps == [] then ""
    else if |ps| == 1 then PairText(ps[0])
    else PairText(ps[0]) + "&" + QueryText(ps[1..])
  }

  lemma {:induction false} QueryTextSnoc(ps: seq<Param>, p: Param)
    requires BytesOnly(ps) && IsBytes(p.value) && ps != []
    ensures BytesOnly(ps + [p])
    ensures QueryText(ps + [p]) == QueryText(ps) + "&" + PairText(p)
  {
    assert (ps + [p])[1..] == ps[1..] + [p];
    if |ps| > 1 {
      QueryTextSnoc(ps[1..], p);
      assert QueryText(ps + [p]) == PairText(ps[0]) + "&" + (QueryText(ps[1..]) + "&" + PairText(p));
    } else {
      assert ps[1..] + [p] == [p];
    }
  }

  method ParamsToQueryStr(params: seq<Param>) returns (query: string)
    requires BytesOnly(params)
    ensures query == QueryText(params)
  {
    hide Encoded;
    query := "";
    for i := 0 to |params|
      invariant query == QueryText(params[..i])
    {
      assert params[..i + 1] == params[..i] + [params[i]];
      if i != 0 {
        QueryTextSnoc(params[..i], params[i]);
        query := query + "&";
      }
      ghost var before := query;
      query := query + params[i].key;
      query := query + "=";
      var value := EncodeQueryParam(params[i].value);
      query := query + value;
      assert query == before + PairText(params[i]);
    }
    assert params[..|params|] == params;
  }

  /** Parsing the fields of a query string: a field seen before is skipped, and so is one with an empty key. */
  function ParseFields(fields: seq<string>, cache: set<string>, params: seq<Param>): seq<Param>
    decreases |fields|
  {
    if fields == [] then params
    else if fields[0] in cache then ParseFields(fields[1..], cache, params)
    else
      var (key, val) := Divide(fields[0], '=');
      ParseFields(fields[1..], cache + {fields[0]},
                  if key == "" then params else Emplace(params, Param(Decoded(key, true), Decoded(val, true))))
  }

  function ParsedQuery(s: string): seq<Param> { ParseFields(Fields(s, '&'), {}, []) }

  method EmplaceInto(params: seq<Param>, p: Param) returns (r: seq<Param>)
    ensures r == Emplace(params, p)
  {
    var i := 0;
    ghost var rest := Emplace(params, p);
    assert params[0..] == params;
    while i < |params| && !LexLess(p.key, params[i].key)
      invariant i <= |params|
      invariant rest == Emplace(params[i..], p)
      invariant Emplace(params, p) == params[..i] + rest
    {
      assert params[i..][1..] == params[i + 1..];
      rest := Emplace(params[i + 1..], p);
      assert params[..i] + ([params[i]] + rest) == params[..i + 1] + rest;
      i := i + 1;
    }
    r := params[..i] + [p] + params[i..];
  }

  method ParseQueryText(s: string) returns (params: seq<Param>)
    ensures params == ParsedQuery(s)
  {
    var cache: set<string> := {};
    params := [];
    var fields := Split(s, '&');
    assert fields[0..] == fields;
    for i := 0 to |fields|
      invariant ParseFields(fields[i..], cache, params) == ParsedQuery(s)
    {
      assert fields[i..][1..] == fields[i + 1..];
      var kv := fields[i];
      if kv !in cache {
        cache := cache + {kv};
        var (key, val) := Divide(kv, '=');
        if key != "" {
          var k := DecodeUrl(key, true);
          var v := DecodeUrl(val, true);
          params := EmplaceInto(params, Param(k, v));
        }
      }
    }
  }

  // ---------------------------------------------------------------- the round trip

  /** A key that a query string can carry: it is written as it stands, so it must hold neither of the two
      separators, must not be trimmed, and must decode to itself. */
  predicate KeySurvives(key: string) {
    key != "" && '&' !in key && '=' !in key && !IsBlank(key[0]) && Decoded(key, true) == key
  }

  /** Nonempty alphanumeric keys survive. */
  lemma {:induction false} AlnumKeySurvives(key: string)
    requires key != "" && forall i :: 0 <= i < |key| ==> IsAlnum(key[i])
    ensures KeySurvives(key)
  {
    PlainDecodes(key, 0);
  }

  lemma {:induction false} PlainDecodes(s: string, i: nat)
    requires i <= |s| && forall j :: 0 <= j < |s| ==> s[j] != '%' && s[j] != '+'
    ensures DecodedFrom(s, i, true) == s[i..]
    decreases |s| - i
  {
    if i < |s| {
      PlainDecodes(s, i + 1);
      assert [s[i]] + s[i + 1..] == s[i..];
    }
  }

  /** Keep the first of every group of equal entries. */
  function Dedup(ps: seq<Param>, seen: set<Param>): seq<Param> {
    if ps == [] then []
    else if ps[0] in seen then Dedup(ps[1..], seen)
    else [ps[0]] + Dedup(ps[1..], seen + {ps[0]})
  }

  predicate Printable(p: Param) { IsBytes(p.value) && KeySurvives(p.key) }

  predicate AllPrintable(ps: seq<Param>)
    ensures AllPrintable(ps) ==> BytesOnly(ps)
  {
    forall i :: 0 <= i < |ps| ==> Printable(ps[i])
  }

  lemma PairTextClean(p: Param)
    requires Printable(p)
    ensures '&' !in PairText(p) && Strip(PairText(p)) == PairText(p) != ""
    ensures Divide(PairText(p), '=') == (p.key, Encoded(p.value))
  {
    EncodedChars(p.value, '&');
    EncodedChars(p.value, ' ');
    EncodedChars(p.value, '\t');
    var t := PairText(p);
    assert t[0] == p.key[0];
    assert t[|t| - 1] == if p.value == "" then '=' else Encoded(p.value)[|Encoded(p.value)| - 1];
    StripNone(t);
    DivideAt(p.key, '=', Encoded(p.value));
  }

  lemma PairTextInjective(p: Param, q: Param)
    requires Printable(p) && Printable(q) && PairText(p) == PairText(q)
    ensures p == q
  {
    PairTextClean(p);
    PairTextClean(q);
    DecodeUndoesEncode(p.value, true);
    DecodeUndoesEncode(q.value, true);
  }

  function Texts(ps: seq<Param>): (r: seq<string>)
    requires BytesOnly(ps)
    ensures |r| == |ps|
  {
    if ps == [] then [] else [PairText(ps[0])] + Texts(ps[1..])
  }

  /** `split` sees one field for every entry, for all that its trimming scans past the field. */
  lemma {:induction false} QueryFields(ps: seq<Param>)
    requires AllPrintable(ps)
    ensures Fields(QueryText(ps), '&') == Texts(ps)
  {
    if ps == [] {
      FieldsStep("", '&', "");
      assert Strip("") == "";
    } else {
      var t := PairText(ps[0]);
      PairTextClean(ps[0]);
      assert Texts([ps[0]]) == [t];
      if |ps| == 1 {
        FieldsStep(t, '&', "");
        assert ps == [ps[0]];
      } else {
        QueryFields(ps[1..]);
        FieldsStep(t, '&', QueryText(ps[1..]));
        assert QueryText(ps) == t + ['&'] + QueryText(ps[1..]);
      }
    }
  }

  /** The cache holds exactly the texts of the entries seen so far. */
  ghost predicate Remembers(cache: set<string>, seen: set<Param>) {
    && (forall p :: p in seen ==> Printable(p) && PairText(p) in cache)
    && (forall t :: t in cache ==> exists p :: p in seen && Printable(p) && PairText(p) == t)
  }

  lemma RememberedOnce(cache: set<string>, seen: set<Param>, p: Param)
    requires Remembers(cache, seen) && Printable(p)
    ensures PairText(p) in cache <==> p in seen
    ensures Remembers(cache + {PairText(p)}, seen + {p})
  {
    if PairText(p) in cache {
      var q :| q in seen && Printable(q) && PairText(q) == PairText(p);
      PairTextInjective(p, q);
    }
    var cache', seen' := cache + {PairText(p)}, seen + {p};
    forall t | t in cache' ensures exists q :: q in seen' && Printable(q) && PairText(q) == t {
      if t in cache {
        var q :| q in seen && Printable(q) && PairText(q) == t;
        assert q in seen';
      } else {
        assert p in seen';
      }
    }
  }

  lemma ParseOne(p: Param, rest: seq<string>, cache: set<string>, params: seq<Param>)
    requires Printable(p)
    requires forall q :: q in params ==> !LexLess(p.key, q.key)
    ensures ParseFields([PairText(p)] + rest, cache, params)
         == if PairText(p) in cache then ParseFields(rest, cache, params)
            else ParseFields(rest, cache + {PairText(p)}, params + [p])
  {
    PairTextClean(p);
    DecodeUndoesEncode(p.value, true);
    EmplaceLast(params, p);
    assert ([PairText(p)] + rest)[1..] == rest;
  }

  lemma {:induction false} ParseTexts(ps: seq<Param>, seen: set<Param>, cache: set<string>, params: seq<Param>)
    requires AllPrintable(ps) && Remembers(cache, seen)
    requires Sorted(ps) && forall p, i :: p in params && 0 <= i < |ps| ==> !LexLess(ps[i].key, p.key)
    ensures ParseFields(Texts(ps), cache, params) == params + Dedup(ps, seen)
    decreases |ps|
  {
    if ps != [] {
      var p := ps[0];
      ParseOne(p, Texts(ps[1..]), cache, params);
      RememberedOnce(cache, seen, p);
      if p in seen {
        ParseTexts(ps[1..], seen, cache, params);
      } else {
        ParseTexts(ps[1..], seen + {p}, cache + {PairText(p)}, params + [p]);
        Regroup(params, [p], Dedup(ps[1..], seen + {p}));
      }
    }
  }

  /** Parsing the printed query gives the multimap back, repeated equal entries collapsed to the first. */
  lemma QueryRoundTrip(ps: seq<Param>)
    requires Sorted(ps) && AllPrintable(ps)
    ensures ParsedQuery(QueryText(ps)) == Dedup(ps, {})
  {
    QueryFields(ps);
    ParseTexts(ps, {}, {}, []);
  }

  // ---------------------------------------------------------------- which keys survive

  /** A parsed entry comes from a field whose text before the first equals sign decodes to its key. */
  predicate KeyFrom(fields: seq<string>, key: string) {
    exists i :: 0 <= i < |fields| && Divide(fields[i], '=').0 != "" && Decoded(Divide(fields[i], '=').0, true) == key
  }

  lemma {:induction false} EmplaceMembers(ps: seq<Param>, p: Param)
    ensures forall q :: q in Emplace(ps, p) ==> q == p || q in ps
  {
    if ps != [] {
      EmplaceMembers(ps[1..], p);
    }
  }

  lemma {:induction false} ParsedKeys(fields: seq<string>, cache: set<string>, params: seq<Param>)
    ensures forall q :: q in ParseFields(fields, cache, params) ==> q in params || KeyFrom(fields, q.key)
    decreases |fields|
  {
    if fields != [] {
      hide Decoded, Divide;
      var rest, f := fields[1..], fields[0];
      forall key | KeyFrom(rest, key) ensures KeyFrom(fields, key) {
        var i :| 0 <= i < |rest| && Divide(rest[i], '=').0 != "" && Decoded(Divide(rest[i], '=').0, true) == key;
        assert fields[i + 1] == rest[i];
      }
      var p := Param(Decoded(Divide(f, '=').0, true), Decoded(Divide(f, '=').1, true));
      EmplaceMembers(params, p);
      ParsedKeys(rest, cache, params);
      ParsedKeys(rest, cache + {f}, params);
      ParsedKeys(rest, cache + {f}, Emplace(params, p));
    }
  }

  /** A key read from the text of one pair is shorter than the one written, or is it, unharmed. */
  predicate NoLonger(f: string, key: string) {
    var k := Divide(f, '=').0;
    |k| <= |key| && (|k| == |key| > 0 ==> k == key && '&' !in key && '=' !in key && !IsBlank(key[0]))
  }

  lemma DividedShort(f: string)
    ensures |Divide(f, '=').0| <= |f|
  {
  }

  lemma {:induction false} StripLeftPair(key: string, t: string)
    requires t != "" && !IsBlank(t[0])
    ensures StripLeft(key + t) == StripLeft(key) + t
    ensures |StripLeft(key)| <= |key| && (|StripLeft(key)| == |key| > 0 ==> StripLeft(key) == key && !IsBlank(key[0]))
  {
    if key == "" {
      assert key + t == t;
    } else if IsBlank(key[0]) {
      assert (key + t)[1..] == key[1..] + t;
      StripLeftPair(key[1..], t);
    } else {
      assert (key + t)[0] == key[0];
    }
  }

  lemma OnePiece(key: string, enc: string)
    requires '&' !in key && (enc != "" ==> !IsBlank(enc[|enc| - 1]))
    ensures NoLonger(Strip(key + ("=" + enc)), key)
  {
    var t := "=" + enc;
    var a := StripLeft(key);
    StripLeftPair(key, t);
    StripRightIs(a + t, |a + t|);
    assert (a + t)[..|a + t|] == a + t;
    var f := a + t;
    assert f[|a|] == '=';
    var k := Find(f, "=");
    assert OccursAt(f, "=", |a|) by { assert f[|a|..|a| + 1] == "="; }
    assert f[..k] == a[..k];
    if k == |a| {
      forall j | 0 <= j < |a| ensures a[j] != '=' {
        assert !OccursAt(f, "=", j);
        assert f[j..j + 1] == [a[j]];
      }
      assert a[..k] == a;
    }
  }

  lemma {:induction false} FieldsNoLonger(key: string, enc: string)
    requires '&' !in enc && (enc != "" ==> !IsBlank(enc[|enc| - 1]))
    ensures forall f :: f in Fields(key + ("=" + enc), '&') ==> NoLonger(f, key)
    decreases |key|
  {
    var x := key + ("=" + enc);
    if '&' !in key {
      FieldsStep(x, '&', "");
      OnePiece(key, enc);
    } else {
      var k := Find(key, "&");
      FirstOf(key, '&');
      var rest := key[k + 1..];
      assert x == key[..k] + ['&'] + (rest + ("=" + enc));
      FieldsStep(key[..k], '&', rest + ("=" + enc));
      FieldsNoLonger(rest, enc);
      KeptNoLonger(key[..k], key);
    }
  }

  lemma FirstOf(key: string, d: char)
    requires d in key
    ensures var k := Find(key, [d]); k < |key| && key[k] == d && d !in key[..k]
  {
    var i :| 0 <= i < |key| && key[i] == d;
    assert key[i..i + 1] == [d];
    var k := Find(key, [d]);
    assert OccursAt(key, [d], i);
    assert key[k..k + 1][0] == key[k];
    forall j | 0 <= j < k ensures key[..k][j] != d {
      assert !OccursAt(key, [d], j);
      assert key[j..j + 1] == [key[j]];
    }
  }

  lemma {:induction false} StripShort(s: string)
    ensures |StripLeft(s)| <= |s| && |StripRight(s)| <= |s|
  {
    if s != "" {
      StripShort(s[1..]);
      StripShort(s[..|s| - 1]);
    }
  }

  lemma KeptNoLonger(piece: string, key: string)
    requires |piece| < |key|
    ensures forall f :: f in Kept(piece) ==> NoLonger(f, key)
  {
    StripShort(piece);
    StripShort(StripLeft(piece));
    DividedShort(Strip(piece));
  }

  lemma PairFields(p: Param)
    requires IsBytes(p.value)
    ensures forall f :: f in Fields(QueryText([p]), '&') ==> NoLonger(f, p.key)
  {
    EncodedChars(p.value, '&');
    EncodedChars(p.value, ' ');
    EncodedChars(p.value, '\t');
    var e := Encoded(p.value);
    assert QueryText([p]) == p.key + ("=" + e);
    assert e != "" ==> e[|e| - 1] in e;
    hide Fields, Encoded, NoLonger, QueryText;
    FieldsNoLonger(p.key, e);
  }

  // ---------------------------------------------------------------- which multimaps survive

  /** Fields on both sides of a separator. */
  lemma {:induction false} FieldsConcat(a: string, d: char, b: string)
    ensures Fields(a + [d] + b, d) == Fields(a, d) + Fields(b, d)
    decreases |a|
  {
    if d in a {
      var k := Find(a, [d]);
      FirstOf(a, d);
      var head, rest := a[..k], a[k + 1..];
      assert a == head + [d] + rest && a + [d] + b == head + [d] + (rest + [d] + b);
      hide Fields;
      FieldsStep(head, d, rest);
      FieldsStep(head, d, rest + [d] + b);
      FieldsConcat(rest, d, b);
      Regroup(Kept(head), Fields(rest, d), Fields(b, d));
    } else {
      FieldsStep(a, d, b);
    }
  }

  lemma {:induction false} FieldsOfPairs(ps: seq<Param>)
    requires BytesOnly(ps)
    ensures forall f :: f in Fields(QueryText(ps), '&') ==>
              exists i :: 0 <= i < |ps| && f in Fields(PairText(ps[i]), '&')
  {
    if |ps| == 0 {
      NoFields('&');
    } else if |ps| > 1 {
      var head, rest := PairText(ps[0]), QueryText(ps[1..]);
      assert QueryText(ps) == head + ['&'] + rest;
      FieldsOfPairs(ps[1..]);
      FieldsConcat(head, '&', rest);
      hide Fields, QueryText, PairText;
      forall f | f in Fields(QueryText(ps), '&')
        ensures exists i :: 0 <= i < |ps| && f in Fields(PairText(ps[i]), '&')
      {
        if f !in Fields(head, '&') {
          var i :| 0 <= i < |ps| - 1 && f in Fields(PairText(ps[1..][i]), '&');
          assert ps[1..][i] == ps[i + 1];
        }
      }
    }
  }

  function Pluses(s: string): nat { if s == "" then 0 else (if s[0] == '+' then 1 else 0) + Pluses(s[1..]) }

  /** Decoding that keeps the length only turns plus signs into blanks. */
  lemma {:induction false} SameLength(s: string, i: nat)
    requires i <= |s| && |DecodedFrom(s, i, true)| == |s| - i
    ensures DecodedFrom(s, i, true) == s[i..] || Pluses(DecodedFrom(s, i, true)) < Pluses(s[i..])
    ensures Pluses(DecodedFrom(s, i, true)) <= Pluses(s[i..])
    decreases |s| - i
  {
    if i < |s| {
      FirstKept(s, i);
      hide *;
      SameLength(s, i + 1);
      OneMore(s[i], s[i + 1..], DecodedFrom(s, i + 1, true));
    }
  }

  /** The first round of such a decoding. */
  lemma FirstKept(s: string, i: nat)
    requires i < |s| && |DecodedFrom(s, i, true)| == |s| - i
    ensures |DecodedFrom(s, i + 1, true)| == |s| - (i + 1)
    ensures DecodedFrom(s, i, true) == [if s[i] == '+' then ' ' else s[i]] + DecodedFrom(s, i + 1, true)
    ensures s[i..] == [s[i]] + s[i + 1..]
  {
    hide DecodeStep, DecodedFrom;
    var step := DecodeStep(s, i, true);
    DecodeUnfold(s, i, true);
    StepShrinks(s, i, true);
    DecodeShrinks(s, i + step.1, true);
    assert |step.0| == step.1;
  }

  lemma OneMore(c: char, t: string, more: string)
    requires (more == t || Pluses(more) < Pluses(t)) && Pluses(more) <= Pluses(t)
    ensures var (d, s) := ([if c == '+' then ' ' else c] + more, [c] + t);
            (d == s || Pluses(d) < Pluses(s)) && Pluses(d) <= Pluses(s)
  {
    hide Pluses;
    PlusesCons(c, t);
    PlusesCons(if c == '+' then ' ' else c, more);
  }

  lemma PlusesCons(c: char, s: string)
    ensures Pluses([c] + s) == (if c == '+' then 1 else 0) + Pluses(s)
  {
    assert ([c] + s)[1..] == s;
  }

  /** The order in which keys that do not survive are ruled out. */
  predicate Before(a: string, b: string) { |a| < |b| || (|a| == |b| && Pluses(a) <= Pluses(b)) }

  lemma {:induction false} LastBad(ps: seq<Param>) returns (m: nat)
    requires exists i :: 0 <= i < |ps| && !KeySurvives(ps[i].key)
    ensures m < |ps| && !KeySurvives(ps[m].key)
    ensures forall i :: 0 <= i < |ps| && !KeySurvives(ps[i].key) ==> Before(ps[i].key, ps[m].key)
  {
    hide KeySurvives;
    var n := |ps| - 1;
    if exists i :: 0 <= i < n && !KeySurvives(ps[i].key) {
      var i :| 0 <= i < n && !KeySurvives(ps[i].key);
      assert ps[..n][i] == ps[i];
      m := LastBad(ps[..n]);
      assert forall i :: 0 <= i < n ==> ps[..n][i] == ps[i];
      if !KeySurvives(ps[n].key) && !Before(ps[n].key, ps[m].key) {
        m := n;
      }
    } else {
      m := n;
    }
  }

  lemma {:induction false} DedupKeeps(ps: seq<Param>, seen: set<Param>)
    ensures forall p :: p in ps ==> p in seen || p in Dedup(ps, seen)
    decreases |ps|
  {
    if ps != [] {
      DedupKeeps(ps[1..], seen);
      DedupKeeps(ps[1..], seen + {ps[0]});
    }
  }

  /** The last bad key is read from no pair. */
  lemma BadKeyLost(ps: seq<Param>, m: nat, i: nat, f: string)
    requires BytesOnly(ps) && m < |ps| && i < |ps| && !KeySurvives(ps[m].key)
    requires forall j :: 0 <= j < |ps| && !KeySurvives(ps[j].key) ==> Before(ps[j].key, ps[m].key)
    requires f in Fields(PairText(ps[i]), '&')
    ensures Divide(f, '=').0 == "" || Decoded(Divide(f, '=').0, true) != ps[m].key
  {
    var k, key := Divide(f, '=').0, ps[i].key;
    if KeySurvives(key) {
      PairTextClean(ps[i]);
      FieldsStep(PairText(ps[i]), '&', "");
      assert k == key;
    } else if k != "" && Decoded(k, true) == ps[m].key {
      PairNoLonger(ps[i]);
      DecodeShrinks(k, 0, true);
      assert |k| == |key| == |ps[m].key|;
      assert k[0..] == k;
      SameLength(k, 0);
    }
  }

  lemma PairNoLonger(p: Param)
    requires IsBytes(p.value)
    ensures forall f :: f in Fields(PairText(p), '&') ==> NoLonger(f, p.key)
  {
    assert QueryText([p]) == PairText(p);
    PairFields(p);
  }

  /** A multimap comes back from its query, repeated equal entries collapsed, if and only if all its keys survive. */
  lemma QueryRoundTripExactly(ps: seq<Param>)
    requires Sorted(ps) && BytesOnly(ps)
    ensures ParsedQuery(QueryText(ps)) == Dedup(ps, {}) <==> AllPrintable(ps)
  {
    if AllPrintable(ps) {
      QueryRoundTrip(ps);
    } else {
      var m := LastBad(ps);
      var fields, key := Fields(QueryText(ps), '&'), ps[m].key;
      DedupKeeps(ps, {});
      FieldsOfPairs(ps);
      ParsedKeys(fields, {}, []);
      hide Fields, QueryText, PairText, Divide, Decoded, KeySurvives, ParseFields, Dedup;
      assert ps[m] in Dedup(ps, {});
      forall j | 0 <= j < |fields| && Divide(fields[j], '=').0 != ""
        ensures Decoded(Divide(fields[j], '=').0, true) != key
      {
        assert fields[j] in fields;
        var i :| 0 <= i < |ps| && fields[j] in Fields(PairText(ps[i]), '&');
        BadKeyLost(ps, m, i, fields[j]);
      }
      assert !KeyFrom(fields, key);
    }
  }

  /** A single pair comes back if and only if its key survives; its value always does. */
  lemma SurvivesExactly(p: Param)
    requires IsBytes(p.value)
    ensures ParsedQuery(QueryText([p])) == [p] <==> KeySurvives(p.key)
  {
    QueryRoundTripExactly([p]);
    assert Dedup([p], {}) == [p] + Dedup([p][1..], {} + {p});
  }
}
