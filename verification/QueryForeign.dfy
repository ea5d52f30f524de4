/** Query strings as any client may write them: fields in any order, repeated, with encoded keys, with an empty key or
    with no equals sign at all. What the parser of httplib.h makes of them. */
module QueryForeign {
  import opened Wrappers
  import opened Scanning
  import opened Query

  // ---------------------------------------------------------------- the multimap is a stable sort

  lemma {:induction false} LexTrans(a: string, b: string, c: string)
    requires !LexLess(c, b) && LexLess(a, b)
    ensures LexLess(a, c)
  {
    if a != "" && c != "" && a[0] == c[0] {
      LexTrans(a[1..], b[1..], c[1..]);
    }
  }

  lemma {:induction false} LexAsym(a: string, b: string)
    requires LexLess(a, b)
    ensures !LexLess(b, a)
  {
    if a != "" && a[0] == b[0] {
      LexAsym(a[1..], b[1..]);
    }
  }

  lemma LexIrreflexive(a: string)
    ensures !LexLess(a, a)
  {
    if LexLess(a, a) {
      LexAsym(a, a);
    }
  }

  lemma {:induction false} EmplaceSorted(ps: seq<Param>, p: Param)
    requires Sorted(ps)
    ensures Sorted(Emplace(ps, p))
  {
    hide LexLess;
    if ps != [] && !LexLess(p.key, ps[0].key) {
      EmplaceSorted(ps[1..], p);
      EmplaceMembers(ps[1..], p);
      var r := Emplace(ps[1..], p);
      forall j | 0 <= j < |r| ensures !LexLess(r[j].key, ps[0].key) {
        assert r[j] in r;
        assert r[j] in ps[1..] ==> exists i :: 1 <= i < |ps| && ps[i] == r[j];
      }
    } else if ps != [] {
      SortedBefore(ps, p);
    }
  }

  lemma SortedBefore(ps: seq<Param>, p: Param)
    requires Sorted(ps) && ps != [] && LexLess(p.key, ps[0].key)
    ensures Sorted([p] + ps)
  {
    hide LexLess;
    forall j | 0 <= j < |ps| ensures !LexLess(ps[j].key, p.key) {
      LexIrreflexive(ps[0].key);
      LexTrans(p.key, ps[0].key, ps[j].key);
      if LexLess(ps[j].key, p.key) {
        LexAsym(ps[j].key, p.key);
      }
    }
  }

  /** The values under a key, in order. */
  function Values(ps: seq<Param>, key: string): seq<string> {
    if ps == [] then [] else (if ps[0].key == key then [ps[0].value] else []) + Values(ps[1..], key)
  }

  lemma {:induction false} ValuesNone(ps: seq<Param>, key: string)
    requires forall i :: 0 <= i < |ps| ==> ps[i].key != key
    ensures Values(ps, key) == []
  {
    if ps != [] {
      ValuesNone(ps[1..], key);
    }
  }

  /** A new entry comes last under its key. */
  lemma {:induction false} ValuesEmplaced(ps: seq<Param>, p: Param, key: string)
    requires Sorted(ps)
    ensures Values(Emplace(ps, p), key) == Values(ps, key) + if p.key == key then [p.value] else []
  {
    hide LexLess;
    if ps != [] && !LexLess(p.key, ps[0].key) {
      ValuesEmplaced(ps[1..], p, key);
    } else {
      assert ([p] + ps)[1..] == ps;
      if p.key == key {
        LexIrreflexive(key);
        ValuesNone(ps, key);
      }
    }
  }

  // ---------------------------------------------------------------- fields

  datatype Field = Pair(key: string, value: string) | Flag(key: string)

  predicate Sent(f: Field) { IsBytes(f.key) && (f.Pair? ==> IsBytes(f.value)) }

  predicate AllSent(fs: seq<Field>) { forall i :: 0 <= i < |fs| ==> Sent(fs[i]) }

  function FieldText(f: Field): string
    requires Sent(f)
  {
    match f
    case Pair(key, value) => Encoded(key) + ['='] + Encoded(value)
    case Flag(key) => Encoded(key)
  }

  function FieldsText(fs: seq<Field>): string
    requires AllSent(fs)
  {
    if fs == [] then "" else if |fs| == 1 then FieldText(fs[0]) else FieldText(fs[0]) + ['&'] + FieldsText(fs[1..])
  }

  /** The first occurrences. */
  function Distinct(fs: seq<Field>, seen: set<Field>): seq<Field> {
    if fs == [] then []
    else if fs[0] in seen then Distinct(fs[1..], seen)
    else [fs[0]] + Distinct(fs[1..], seen + {fs[0]})
  }

  /** What the fields say under a key, in order; a field without an equals sign says the empty text. */
  function Said(fs: seq<Field>, key: string): seq<string> {
    if fs == [] then []
    else (if fs[0].key == key then [if fs[0].Pair? then fs[0].value else ""] else []) + Said(fs[1..], key)
  }

  lemma FieldShape(f: Field)
    requires Sent(f)
    ensures '&' !in FieldText(f) && Strip(FieldText(f)) == FieldText(f)
    ensures FieldText(f) == "" <==> f == Flag("")
    ensures Divide(FieldText(f), '=') == (Encoded(f.key), if f.Pair? then Encoded(f.value) else "")
    ensures f.Pair? <==> '=' in FieldText(f)
  {
    hide Encoded, Divide;
    PlainText(f.key);
    if f.Pair? {
      PlainText(f.value);
      DivideAt(Encoded(f.key), '=', Encoded(f.value));
    } else {
      DivideNowhere(Encoded(f.key), '=');
    }
    StripNone(FieldText(f));
  }

  lemma DivideNowhere(s: string, d: char)
    requires d !in s
    ensures Divide(s, d) == (s, "")
  {
    FindCharIs(s, d, 0, |s|);
  }

  lemma PlainText(v: string)
    requires IsBytes(v)
    ensures '&' !in Encoded(v) && '=' !in Encoded(v) && (forall i :: 0 <= i < |Encoded(v)| ==> !IsBlank(Encoded(v)[i]))
    ensures Encoded(v) == "" <==> v == ""
  {
    EncodedChars(v, '&');
    EncodedChars(v, '=');
    EncodedChars(v, ' ');
    EncodedChars(v, '\t');
    if v != "" {
      ByteText(v[0]);
    }
  }

  lemma ByteText(c: char)
    requires IsByte(c)
    ensures EncodeByte(c) != ""
  {
  }

  lemma FieldTextInjective(f: Field, g: Field)
    requires Sent(f) && Sent(g) && FieldText(f) == FieldText(g)
    ensures f == g
  {
    hide Encoded, Divide, Decoded, FieldText;
    FieldShape(f);
    FieldShape(g);
    DecodeUndoesEncode(f.key, true);
    DecodeUndoesEncode(g.key, true);
    if f.Pair? {
      DecodeUndoesEncode(f.value, true);
      DecodeUndoesEncode(g.value, true);
    }
  }

  function Texts(fs: seq<Field>): seq<string>
    requires AllSent(fs)
  {
    if fs == [] then [] else (if fs[0] == Flag("") then [] else [FieldText(fs[0])]) + Texts(fs[1..])
  }

  lemma {:induction false} FieldsSplit(fs: seq<Field>)
    requires AllSent(fs)
    ensures Fields(FieldsText(fs), '&') == Texts(fs)
    decreases |fs|
  {
    hide Fields, FieldText;
    if fs == [] {
      FieldsStep("", '&', "");
      assert Strip("") == "";
    } else {
      FieldShape(fs[0]);
      FieldsSplit(fs[1..]);
      FieldsStep(FieldText(fs[0]), '&', FieldsText(fs[1..]));
    }
  }

  // ---------------------------------------------------------------- the meaning

  /** The fields met so far, and the parser's memory of their texts. */
  ghost predicate Remembered(cache: set<string>, seen: set<Field>) {
    forall f :: Sent(f) && f != Flag("") ==> (f in seen <==> FieldText(f) in cache)
  }

  lemma {:induction false} FieldsMean(
    fs: seq<Field>, seen: set<Field>, cache: set<string>, params: seq<Param>, key: string)
    requires AllSent(fs) && Remembered(cache, seen) && Sorted(params)
    ensures var r := ParseFields(Texts(fs), cache, params);
            && Sorted(r)
            && Values(r, key) == Values(params, key) + if key == "" then [] else Said(Distinct(fs, seen), key)
    decreases |fs|
  {
    hide FieldText, Sorted, Emplace, Remembered, ParseFields, Distinct, Said, Texts, Values;
    if fs == [] {
      NoFields(seen, cache, params, key);
    } else {
      var f, p := fs[0], Read(fs[0]);
      var seen', rest := seen + {f}, Texts(fs[1..]);
      FirstRead(f, seen, cache, params, rest);
      FirstSaid(fs, seen, key);
      if f in seen {
        FieldsMean(fs[1..], seen, cache, params, key);
      } else if f == Flag("") {
        FieldsMean(fs[1..], seen', cache, params, key);
      } else {
        var params' := if f.key == "" then params else Emplace(params, p);
        EmplaceSorted(params, p);
        ValuesEmplaced(params, p, key);
        FieldsMean(fs[1..], seen', cache + {FieldText(f)}, params', key);
        Regroup(Values(params, key), if f.key == key then [p.value] else [], Said(Distinct(fs[1..], seen'), key));
      }
    }
  }

  lemma FirstSaid(fs: seq<Field>, seen: set<Field>, key: string)
    requires fs != [] && AllSent(fs)
    ensures Texts(fs) == if fs[0] == Flag("") then Texts(fs[1..]) else [FieldText(fs[0])] + Texts(fs[1..])
    ensures var f := fs[0];
            Said(Distinct(fs, seen), key)
            == if f in seen then Said(Distinct(fs[1..], seen), key)
               else (if f.key == key then [Read(f).value] else []) + Said(Distinct(fs[1..], seen + {f}), key)
  {
    hide FieldText;
    var f := fs[0];
    assert [] + Texts(fs[1..]) == Texts(fs[1..]);
    assert ([f] + Distinct(fs[1..], seen + {f}))[1..] == Distinct(fs[1..], seen + {f});
  }

  lemma NoFields(seen: set<Field>, cache: set<string>, params: seq<Param>, key: string)
    ensures ParseFields(Texts([]), cache, params) == params && Said(Distinct([], seen), key) == []
    ensures Values(params, key) + [] == Values(params, key)
  {
  }

  /** The entry of one field. */
  function Read(f: Field): Param { Param(f.key, if f.Pair? then f.value else "") }

  lemma FirstRead(f: Field, seen: set<Field>, cache: set<string>, params: seq<Param>, rest: seq<string>)
    requires Sent(f) && Remembered(cache, seen)
    ensures f == Flag("") ==> Remembered(cache, seen + {f})
    ensures f != Flag("") ==> Remembered(cache + {FieldText(f)}, seen + {f})
    ensures f in seen && f != Flag("") ==> ParseFields([FieldText(f)] + rest, cache, params) == ParseFields(rest, cache, params)
    ensures f !in seen && f != Flag("") ==>
              ParseFields([FieldText(f)] + rest, cache, params)
              == ParseFields(rest, cache + {FieldText(f)}, if f.key == "" then params else Emplace(params, Read(f)))
  {
    hide FieldText, Decoded, Encoded, Divide, Emplace;
    FieldShape(f);
    DecodeUndoesEncode(f.key, true);
    if f.Pair? {
      DecodeUndoesEncode(f.value, true);
    } else {
      DecodedNothing();
    }
    PlainText(f.key);
    assert ([FieldText(f)] + rest)[1..] == rest;
    if f != Flag("") {
      forall g | Sent(g) && g != Flag("") ensures g in seen + {f} <==> FieldText(g) in cache + {FieldText(f)} {
        if FieldText(g) == FieldText(f) {
          FieldTextInjective(f, g);
        }
      }
    }
  }

  lemma DecodedNothing()
    ensures Decoded("", true) == ""
  {
  }

  /** Whatever fields a query holds, in whatever order, the multimap is sorted by key and has under every key just the
      values that its distinct fields give, in their order; nothing is stored under the empty key. */
  lemma QueryMeans(fs: seq<Field>, key: string)
    requires AllSent(fs)
    ensures var ps := ParsedQuery(FieldsText(fs));
            Sorted(ps) && Values(ps, key) == if key == "" then [] else Said(Distinct(fs, {}), key)
  {
    FieldsSplit(fs);
    FieldsMean(fs, {}, {}, [], key);
    assert [] + Said(Distinct(fs, {}), key) == Said(Distinct(fs, {}), key);
  }

  // ---------------------------------------------------------------- the alphabet of the encoder

  /** A byte that stands for itself. */
  predicate Plain(c: char) { c in "ABCDEFGHIJKLMNOPQRSTUVWXYZ" || c in "abcdefghijklmnopqrstuvwxyz" || c in "0123456789-_.!~*'()" }

  lemma PlainIs(c: char)
    ensures Plain(c) <==> Unreserved(c)
  {
    Capitals(c);
    Smalls(c);
    Others(c);
  }

  lemma Capitals(c: char)
    ensures c in "ABCDEFGHIJKLMNOPQRSTUVWXYZ" <==> 'A' <= c <= 'Z'
  {
    if 'A' <= c <= 'Z' {
      assert "ABCDEFGHIJKLMNOPQRSTUVWXYZ"[c as int - 65] == c;
    }
  }

  lemma Smalls(c: char)
    ensures c in "abcdefghijklmnopqrstuvwxyz" <==> 'a' <= c <= 'z'
  {
    if 'a' <= c <= 'z' {
      assert "abcdefghijklmnopqrstuvwxyz"[c as int - 97] == c;
    }
  }

  lemma Others(c: char)
    ensures c in "0123456789-_.!~*'()" <==> '0' <= c <= '9' || c in "-_.!~*'()"
  {
    if '0' <= c <= '9' {
      assert "0123456789-_.!~*'()"[c as int - 48] == c;
    }
  }

  /** A byte is written as itself or as a percent sign and two digits, in upper case. */
  lemma ByteExactly(c: char)
    requires IsByte(c)
    ensures EncodeByte(c) == if Plain(c) then [c]
                             else ['%', "0123456789ABCDEF"[c as int / 16], "0123456789ABCDEF"[c as int % 16]]
  {
    PlainIs(c);
  }

  /** A text is its own encoding if and only if all its characters are letters, digits or one of the nine marks. */
  lemma {:induction false} EncodedExactly(v: string)
    requires IsBytes(v)
    ensures Encoded(v) == v <==> forall i :: 0 <= i < |v| ==> Plain(v[i])
    ensures |v| <= |Encoded(v)| <= 3 * |v|
  {
    if v != "" {
      hide Encoded, Plain, EncodeByte;
      EncodedExactly(v[1..]);
      ByteExactly(v[0]);
      EncodedFirst(v);
      assert v == [v[0]] + v[1..];
    }
  }

  lemma EncodedFirst(v: string)
    requires IsBytes(v) && v != ""
    ensures Encoded(v) == EncodeByte(v[0]) + Encoded(v[1..])
  {
  }
}
