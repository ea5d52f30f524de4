/** The route matcher with path parameters of httplib.h, against substitution into the pattern. */
module PathMatcher {
  import opened Wrappers
  import opened Scanning

  // ---------------------------------------------------------------- substitution

  /** As many fragments as values, or one more for the text behind the last parameter. */
  predicate Shape(frags: seq<string>, values: seq<string>) {
    |values| <= |frags| <= |values| + 1
  }

  /** The path with the values in the places of the parameters; the `/` behind a parameter belongs to no
      fragment. */
  function Fill(frags: seq<string>, values: seq<string>): string
    requires Shape(frags, values)
  {
    if frags == [] then ""
    else if values == [] then frags[0]
    else if |frags| == 1 then frags[0] + values[0]
    else frags[0] + values[0] + "/" + Fill(frags[1..], values[1..])
  }

  predicate EndsInParameter(frags: seq<string>, values: seq<string>) { |frags| == |values| > 0 }

  /** `path` is the filled pattern, up to one trailing slash when that ends in a parameter. */
  predicate Instance(frags: seq<string>, values: seq<string>, path: string)
    requires Shape(frags, values)
  {
    || path == Fill(frags, values)
    || (EndsInParameter(frags, values) && path == Fill(frags, values) + "/")
  }

  predicate SlashFree(values: seq<string>) { forall i :: 0 <= i < |values| ==> '/' !in values[i] }

  // ---------------------------------------------------------------- reading the pattern

  /** Fragments and names from position `from` on, one past the end of the last parameter. */
  function ParsedFrom(pattern: string, from: nat): (r: (seq<string>, seq<string>))
    requires from <= |pattern| + 1
    ensures Shape(r.0, r.1)
    decreases |pattern| + 1 - from
  {
    var marker := FindFrom(pattern, "/:", if from == 0 then 0 else from - 1);
    if marker == |pattern| then
      (if from < |pattern| then [pattern[from..]] else [], [])
    else
      var sep := FindFrom(pattern, "/", marker + 2);
      var (frags, names) := ParsedFrom(pattern, sep + 1);
      ([pattern[from..marker + 1]] + frags, [pattern[marker + 2..sep]] + names)
  }

  function Marker(pattern: string, from: nat): (m: nat)
    requires from <= |pattern| + 1
    ensures m <= |pattern| && (m < |pattern| ==> OccursAt(pattern, "/:", m) && from <= m + 1 && m + 2 <= |pattern|)
  {
    FindFrom(pattern, "/:", if from == 0 then 0 else from - 1)
  }

  lemma ParsedUnfold(pattern: string, from: nat)
    requires from <= |pattern| + 1
    ensures var marker := Marker(pattern, from);
            ParsedFrom(pattern, from) ==
              if marker == |pattern| then (if from < |pattern| then [pattern[from..]] else [], [])
              else
                var sep := FindFrom(pattern, "/", marker + 2);
                ([pattern[from..marker + 1]] + ParsedFrom(pattern, sep + 1).0,
                 [pattern[marker + 2..sep]] + ParsedFrom(pattern, sep + 1).1)
  {
    hide FindFrom, OccursAt;
  }

  function ColonNames(names: seq<string>): (r: seq<string>)
    ensures |r| == |names| && forall i :: 0 <= i < |r| ==> r[i] == ":" + names[i]
  {
    seq(|names|, i requires 0 <= i < |names| => ":" + names[i])
  }

  lemma SlashAt(s: string, from: nat)
    requires from <= |s|
    ensures var k := FindFrom(s, "/", from); '/' !in s[from..k] && (k < |s| ==> s[k] == '/')
  {
    var k := FindFrom(s, "/", from);
    if k < |s| {
      assert OccursAt(s, "/", k) && s[k..k + 1][0] == s[k];
    }
    forall j: nat | from <= j < k ensures s[j] != '/' {
      assert !OccursAt(s, "/", j) && s[j..j + 1] == [s[j]];
    }
  }

  lemma FillStep(frag: string, frags: seq<string>, value: string, values: seq<string>, rest: string)
    requires Shape(frags, values) && Instance(frags, values, rest)
    ensures Instance([frag] + frags, [value] + values, frag + value + "/" + rest)
  {
    assert ([frag] + frags)[1..] == frags && ([value] + values)[1..] == values;
    if frags == [] {
      assert Fill([frag] + frags, [value] + values) == frag + value;
      assert frag + value + "/" + "" == frag + value + "/";
    } else if rest != Fill(frags, values) {
      assert frag + value + "/" + (Fill(frags, values) + "/") == (frag + value + "/" + Fill(frags, values)) + "/";
    }
  }

  lemma FillBase(frag: string, value: string)
    ensures Instance([], [], "") && Instance([frag], [], frag) && Instance([frag], [value], frag + value)
  {
  }

  lemma MarkerText(pattern: string, from: nat, marker: nat)
    requires marker < |pattern| && OccursAt(pattern, "/:", marker) && from <= marker + 1
    ensures marker + 2 <= |pattern|
    ensures var sep := FindFrom(pattern, "/", marker + 2);
            && '/' !in pattern[marker + 2..sep]
            && pattern[from..] == pattern[from..marker + 1] + (":" + pattern[marker + 2..sep])
                                  + if sep < |pattern| then "/" + pattern[sep + 1..] else ""
  {
    assert pattern[marker..marker + 2][1] == pattern[marker + 1];
    SlashAt(pattern, marker + 2);
  }

  /** Reading is the inverse of filling: the pattern is its own fragments filled with the colon names. */
  lemma {:induction false} ParsedRefills(pattern: string, from: nat)
    requires from <= |pattern|
    ensures var (frags, names) := ParsedFrom(pattern, from);
            Instance(frags, ColonNames(names), pattern[from..]) && SlashFree(names)
    decreases |pattern| - from
  {
    hide Instance, Fill, ParsedFrom, FindFrom, OccursAt;
    var marker := Marker(pattern, from);
    ParsedUnfold(pattern, from);
    if marker < |pattern| {
      MarkerText(pattern, from, marker);
      var sep := FindFrom(pattern, "/", marker + 2);
      var frag, name := pattern[from..marker + 1], pattern[marker + 2..sep];
      var (frags, names) := ParsedFrom(pattern, sep + 1);
      assert ColonNames([name] + names) == [":" + name] + ColonNames(names);
      if sep < |pattern| {
        ParsedRefills(pattern, sep + 1);
        FillStep(frag, frags, ":" + name, ColonNames(names), pattern[sep + 1..]);
        assert (frag + (":" + name)) + ("/" + pattern[sep + 1..]) == frag + (":" + name) + "/" + pattern[sep + 1..];
      } else {
        FillBase(frag, ":" + name);
        ParsedUnfold(pattern, sep + 1);
        assert frags == [] && names == [];
        assert pattern[from..] == frag + (":" + name);
        assert [frag] + [] == [frag] && ColonNames([name] + []) == [":" + name];
      }
    } else {
      FillBase(pattern[from..], "");
      assert ColonNames([]) == [];
    }
  }

  /** Of pieces between slashes, those that start with a colon, without it. */
  function Parameters(pieces: seq<string>): seq<string> {
    if pieces == [] then [] else Parameter(pieces[0]) + Parameters(pieces[1..])
  }

  /** The names that a pattern's text has: behind its first slash. */
  function NamesIn(s: string): seq<string> { Parameters(Pieces(s, '/')[1..]) }

  function Parameter(piece: string): seq<string> {
    if piece != "" && piece[0] == ':' then [piece[1..]] else []
  }

  lemma {:induction false} ParametersConcat(a: seq<string>, b: seq<string>)
    ensures Parameters(a + b) == Parameters(a) + Parameters(b)
  {
    if a == [] {
      assert a + b == b;
    } else {
      ParametersConcat(a[1..], b);
      assert (a + b)[1..] == a[1..] + b && (a + b)[0] == a[0];
      hide Parameter;
      Regroup(Parameter(a[0]), Parameters(a[1..]), Parameters(b));
    }
  }

  /** Where there is no marker, no piece but perhaps the first starts with a colon. */
  lemma {:induction false} NoParameters(s: string)
    requires forall j: nat :: !OccursAt(s, "/:", j)
    ensures Parameters(Pieces(s, '/')[1..]) == []
    decreases |s|
  {
    var k := Find(s, "/");
    FirstPiece(s, '/');
    if k < |s| {
      var rest := s[k + 1..];
      forall j: nat ensures !OccursAt(rest, "/:", j) {
        assert !OccursAt(s, "/:", k + 1 + j);
        if j + 2 <= |rest| { assert rest[j..j + 2] == s[k + 1 + j..k + 1 + j + 2]; }
      }
      NoParameters(rest);
      var pieces := Pieces(rest, '/');
      assert Pieces(s, '/') == [s[..k]] + pieces && Pieces(s, '/')[1..] == pieces;
      assert !OccursAt(s, "/:", k);
      FirstPiece(rest, '/');
      assert rest != "" ==> s[k..k + 2] == ['/', rest[0]];
      assert pieces == [pieces[0]] + pieces[1..] && pieces[0] <= rest;
    }
  }

  lemma {:induction false} PiecesConcat(a: string, d: char, b: string)
    ensures Pieces(a + [d] + b, d) == Pieces(a, d) + Pieces(b, d)
    decreases |a|
  {
    var k := Find(a, [d]);
    FirstPiece(a, d);
    if k < |a| {
      var head, rest := a[..k], a[k + 1..];
      assert a == head + [d] + rest && a + [d] + b == head + [d] + (rest + [d] + b);
      PiecesStep(head, d, rest);
      PiecesStep(head, d, rest + [d] + b);
      PiecesConcat(rest, d, b);
      Regroup([head], Pieces(rest, d), Pieces(b, d));
    } else {
      assert a[..k] == a;
      PiecesStep(a, d, b);
    }
  }

  /** One parameter: before it none, behind it what follows its slash. */
  lemma ParametersStep(a: string, name: string, rest: string)
    requires (forall j: nat :: !OccursAt(a, "/:", j)) && '/' !in name && (rest != "" ==> rest[0] == '/')
    ensures NamesIn(a + "/" + (":" + name + rest)) == [name] + if rest == "" then [] else NamesIn(rest)
  {
    var x := ":" + name + rest;
    PiecesConcat(a, '/', x);
    assert a + ['/'] + x == a + "/" + x;
    NoParameters(a);
    LeadingParameter(name, rest);
    BehindFirst(Pieces(a, '/'), Pieces(x, '/'));
  }

  lemma BehindFirst(ps: seq<string>, xs: seq<string>)
    requires ps != [] && Parameters(ps[1..]) == []
    ensures Parameters((ps + xs)[1..]) == Parameters(xs)
  {
    hide Parameters;
    assert (ps + xs)[1..] == ps[1..] + xs;
    ParametersConcat(ps[1..], xs);
    assert [] + Parameters(xs) == Parameters(xs);
  }

  lemma LeadingParameter(name: string, rest: string)
    requires '/' !in name && (rest != "" ==> rest[0] == '/')
    ensures Parameters(Pieces(":" + name + rest, '/')) == [name] + if rest == "" then [] else NamesIn(rest)
  {
    hide Pieces, Parameter, Parameters, NamesIn;
    if rest == "" {
      assert ":" + name + rest == ":" + name;
      OnlyParameter(name);
    } else {
      assert rest == ['/'] + rest[1..] && ":" + name + rest == ":" + name + ['/'] + rest[1..];
      ParameterAndMore(name, rest[1..]);
    }
  }

  lemma OnlyParameter(name: string)
    requires '/' !in name
    ensures Parameters(Pieces(":" + name, '/')) == [name]
  {
    var first := ":" + name;
    PiecesStep(first, '/', "");
    FirstParameter(first, []);
    assert first[1..] == name && [first] + [] == [first];
  }

  lemma ParameterAndMore(name: string, tail: string)
    requires '/' !in name
    ensures Parameters(Pieces(":" + name + ['/'] + tail, '/')) == [name] + NamesIn(['/'] + tail)
  {
    var first := ":" + name;
    assert first[1..] == name && "" + ['/'] + tail == ['/'] + tail;
    hide Pieces, Parameters;
    PiecesStep(first, '/', tail);
    PiecesStep("", '/', tail);
    FirstParameter(first, Pieces(tail, '/'));
    FirstParameter("", Pieces(tail, '/'));
  }

  lemma FirstParameter(piece: string, more: seq<string>)
    ensures Parameters([piece] + more) == Parameter(piece) + Parameters(more) && ([piece] + more)[1..] == more
  {
    assert ([piece] + more)[1..] == more;
  }

  /** Every parameter is found and nothing else is one: the names are, in order, the pieces of the pattern between
      slashes, behind the first piece, that start with a colon. */
  lemma NamesExactly(pattern: string)
    ensures ParsedFrom(pattern, 0).1 == Parameters(Pieces(pattern, '/')[1..])
  {
    NamesFrom(pattern, 0);
    assert pattern[0..] == pattern;
  }

  lemma {:induction false} NamesFrom(pattern: string, from: nat)
    requires from <= |pattern| + 1
    requires 0 < from <= |pattern| ==> pattern[from - 1] == '/'
    ensures ParsedFrom(pattern, from).1
         == if from > |pattern| then [] else NamesIn(pattern[Start(from)..])
    decreases |pattern| + 1 - from
  {
    hide ParsedFrom, NamesIn, FindFrom, OccursAt, Marker;
    var start, marker := Start(from), Marker(pattern, from);
    NamesUnfold(pattern, from);
    if marker < |pattern| {
      var sep := FindFrom(pattern, "/", marker + 2);
      NamesFrom(pattern, sep + 1);
      NamesStep(pattern, start, marker, sep);
    } else {
      NoMarker(pattern, start);
      if from <= |pattern| {
        NoNames(pattern[start..]);
      }
    }
  }

  /** Where the search for the next marker starts: at the slash that ended the last parameter. */
  function Start(from: nat): nat { if from == 0 then 0 else from - 1 }

  lemma NamesUnfold(pattern: string, from: nat)
    requires from <= |pattern| + 1
    ensures var marker := Marker(pattern, from);
            && marker == FindFrom(pattern, "/:", Start(from)) <= |pattern|
            && (marker == |pattern| ==> ParsedFrom(pattern, from).1 == [])
            && (marker < |pattern| ==>
                  && from <= marker + 1 && marker + 2 <= |pattern|
                  && var sep := FindFrom(pattern, "/", marker + 2);
                     && marker + 2 <= sep <= |pattern| && (sep < |pattern| ==> pattern[sep] == '/')
                     && ParsedFrom(pattern, from).1 == [pattern[marker + 2..sep]] + ParsedFrom(pattern, sep + 1).1)
  {
    ParsedUnfold(pattern, from);
    var marker := Marker(pattern, from);
    if marker < |pattern| { SlashAt(pattern, marker + 2); }
    hide ParsedFrom, FindFrom, OccursAt;
  }

  lemma NamesStep(pattern: string, start: nat, marker: nat, sep: nat)
    requires start <= |pattern| && marker == FindFrom(pattern, "/:", start) < |pattern|
    requires marker + 2 <= |pattern| && sep == FindFrom(pattern, "/", marker + 2)
    ensures NamesIn(pattern[start..])
         == [pattern[marker + 2..sep]] + if sep < |pattern| then NamesIn(pattern[sep..]) else []
  {
    hide NamesIn, FindFrom, OccursAt;
    SlashAt(pattern, marker + 2);
    var a, name, rest := CutParameter(pattern, start, marker, sep);
    ParametersStep(a, name, rest);
  }

  lemma NoNames(s: string)
    requires forall j: nat :: !OccursAt(s, "/:", j)
    ensures NamesIn(s) == []
  {
    NoParameters(s);
  }

  lemma NoMarker(pattern: string, start: nat)
    requires start <= |pattern| && FindFrom(pattern, "/:", start) == |pattern|
    ensures forall j: nat :: !OccursAt(pattern[start..], "/:", j)
  {
    var s := pattern[start..];
    forall j: nat ensures !OccursAt(s, "/:", j) {
      assert !OccursAt(pattern, "/:", start + j);
      if j + 2 <= |s| { assert s[j..j + 2] == pattern[start + j..start + j + 2]; }
    }
  }

  lemma CutFour(s: string, a: nat, b: nat, c: nat)
    requires a <= b && b + 2 <= c <= |s|
    ensures s[a..] == s[a..b] + (s[b..b + 2] + (s[b + 2..c] + s[c..]))
  {
  }

  lemma MarkerBetween(a: string, name: string, rest: string)
    ensures a + ("/:" + (name + rest)) == a + "/" + (":" + name + rest)
  {
  }

  lemma CutParameter(pattern: string, start: nat, marker: nat, sep: nat) returns (a: string, name: string, rest: string)
    requires start <= |pattern| && marker == FindFrom(pattern, "/:", start) < |pattern|
    requires marker + 2 <= |pattern| && sep == FindFrom(pattern, "/", marker + 2)
    ensures pattern[start..] == a + "/" + (":" + name + rest)
    ensures name == pattern[marker + 2..sep] && rest == pattern[sep..]
    ensures forall j: nat :: !OccursAt(a, "/:", j)
  {
    a, name, rest := pattern[start..marker], pattern[marker + 2..sep], pattern[sep..];
    assert pattern[marker..marker + 2] == "/:";
    CutFour(pattern, start, marker, sep);
    MarkerBetween(a, name, rest);
    forall j: nat ensures !OccursAt(a, "/:", j) {
      if j + 2 <= |a| {
        assert !OccursAt(pattern, "/:", start + j);
        assert a[j..j + 2] == pattern[start + j..start + j + 2];
      }
    }
  }

  // ---------------------------------------------------------------- matching

  /** `strncmp` over the length of `f` finds no difference; it stops at a NUL that both hold. */
  predicate StrncmpEqual(p: string, f: string)
    requires |f| <= |p|
  {
    f == "" || (p[0] == f[0] && (f[0] == '\0' || StrncmpEqual(p[1..], f[1..])))
  }

  /** No NUL, unless it is the last character. */
  predicate Comparable(f: string) { f == "" || '\0' !in f[..|f| - 1] }

  predicate AllComparable(frags: seq<string>) { forall i :: 0 <= i < |frags| ==> Comparable(frags[i]) }

  lemma {:induction false} StrncmpPrefix(p: string, f: string)
    requires |f| <= |p|
    ensures f <= p ==> StrncmpEqual(p, f)
    ensures Comparable(f) && StrncmpEqual(p, f) ==> f <= p
    decreases |f|
  {
    if f != "" {
      StrncmpPrefix(p[1..], f[1..]);
      if |f| > 1 {
        assert f[..|f| - 1] == [f[0]] + f[1..][..|f| - 2];
      }
      if f <= p { assert f[1..] <= p[1..]; }
    }
  }

  /** Matching from position `pos` on, with `k` parameters to come: success and the values captured. */
  function Captured(frags: seq<string>, k: nat, path: string, pos: nat): (r: (bool, seq<string>))
    requires k <= |frags|
    ensures r.0 ==> |r.1| == k
    decreases |frags|
  {
    if frags == [] then (pos >= |path|, [])
    else if pos + |frags[0]| > |path| || !StrncmpEqual(path[pos..], frags[0]) then (false, [])
    else
      var next := pos + |frags[0]|;
      if k == 0 then Captured(frags[1..], 0, path, next)
      else
        var sep := FindFrom(path, "/", next);
        var (ok, values) := Captured(frags[1..], k - 1, path, sep + 1);
        (ok, [path[next..sep]] + values)
  }

  lemma CapturedUnfold(frags: seq<string>, k: nat, path: string, pos: nat)
    requires k <= |frags| && frags != []
    ensures var next := pos + |frags[0]|;
            Captured(frags, k, path, pos) ==
              if next > |path| || !StrncmpEqual(path[pos..], frags[0]) then (false, [])
              else if k == 0 then Captured(frags[1..], 0, path, next)
              else
                var sep := FindFrom(path, "/", next);
                (Captured(frags[1..], k - 1, path, sep + 1).0,
                 [path[next..sep]] + Captured(frags[1..], k - 1, path, sep + 1).1)
  {
  }

  lemma CapturedEnd(path: string, pos: nat)
    ensures Captured([], 0, path, pos) == (pos >= |path|, [])
  {
  }

  /** What a filled pattern with a parameter looks like from the left. */
  lemma InstanceSplit(frags: seq<string>, values: seq<string>, text: string)
    requires Shape(frags, values) && values != [] && Instance(frags, values, text)
    ensures var head := frags[0] + values[0];
            && head <= text
            && (|text| > |head| ==> text[|head|] == '/')
            && if |frags| == 1 then |text| <= |head| + 1
               else |text| > |head| && Instance(frags[1..], values[1..], text[|head| + 1..])
  {
    var head := frags[0] + values[0];
    if |frags| > 1 {
      var fill := Fill(frags[1..], values[1..]);
      var rest := if text == Fill(frags, values) then fill else fill + "/";
      assert text == head + "/" + rest;
      assert text[|head| + 1..] == rest;
    }
  }

  /** A filled pattern matches and gives its values back, with or without the optional trailing slash. */
  lemma {:induction false} InstanceMatches(frags: seq<string>, values: seq<string>, path: string, pos: nat)
    requires Shape(frags, values) && SlashFree(values)
    requires pos <= |path| && Instance(frags, values, path[pos..])
    ensures Captured(frags, |values|, path, pos) == (true, values)
    decreases |frags|
  {
    hide Instance, Fill, Captured, FindFrom, StrncmpEqual;
    if values == [] {
      InstancePlain(frags, path, pos);
    } else {
      var text, f, v := path[pos..], frags[0], values[0];
      InstanceSplit(frags, values, text);
      StrncmpPrefix(text, f);
      var next, sep := pos + |f|, pos + |f| + |v|;
      assert text[|f|..|f| + |v|] == path[next..sep];
      assert path[next..sep] == v;
      assert sep < |path| ==> path[sep] == text[|f + v|];
      FindCharIs(path, '/', next, sep);
      CapturedUnfold(frags, |values|, path, pos);
      assert values == [v] + values[1..];
      if |frags| > 1 {
        assert path[sep + 1..] == text[|f + v| + 1..];
        InstanceMatches(frags[1..], values[1..], path, sep + 1);
      } else {
        assert frags[1..] == [] && values[1..] == [];
        CapturedEnd(path, sep + 1);
      }
      assert Captured(frags[1..], |values| - 1, path, sep + 1) == (true, values[1..]);
    }
  }

  lemma InstancePlain(frags: seq<string>, path: string, pos: nat)
    requires |frags| <= 1 && pos <= |path| && Instance(frags, [], path[pos..])
    ensures Captured(frags, 0, path, pos) == (true, [])
  {
    if frags != [] {
      StrncmpPrefix(path[pos..], frags[0]);
      assert frags[1..] == [];
    }
  }

  /** Whatever matches is an instance of the pattern, with slash-free captures. */
  lemma {:induction false} MatchIsInstance(frags: seq<string>, k: nat, path: string, pos: nat)
    requires k <= |frags| <= k + 1 && AllComparable(frags)
    requires Captured(frags, k, path, pos).0
    ensures pos <= |path| || frags == []
    ensures pos <= |path| ==> var values := Captured(frags, k, path, pos).1;
                              SlashFree(values) && Instance(frags, values, path[pos..])
    decreases |frags|
  {
    hide Instance, Fill, Captured, FindFrom, StrncmpEqual;
    if frags == [] {
      FillBase("", "");
      CapturedEnd(path, pos);
      assert pos <= |path| ==> path[pos..] == "";
      return;
    }
    CapturedUnfold(frags, k, path, pos);
    var f := frags[0];
    var next := pos + |f|;
    StrncmpPrefix(path[pos..], f);
    assert path[pos..next] == f && frags == [f] + frags[1..];
    if k == 0 {
      assert frags[1..] == [] && frags == [f];
      CapturedEnd(path, next);
      FillBase(f, "");
      assert path[pos..] == f;
    } else {
      var sep := FindFrom(path, "/", next);
      SlashAt(path, next);
      MatchIsInstance(frags[1..], k - 1, path, sep + 1);
      var v, values := path[next..sep], Captured(frags[1..], k - 1, path, sep + 1).1;
      if sep < |path| {
        SliceThree(path, pos, next, sep);
        FillStep(f, frags[1..], v, values, path[sep + 1..]);
      } else {
        CapturedEnd(path, sep + 1);
        FillBase(f, v);
        assert path[pos..] == f + v && [v] + values == [v] && frags == [f];
      }
    }
  }

  lemma SliceThree(s: string, a: nat, b: nat, c: nat)
    requires a <= b <= c < |s| && s[c] == '/'
    ensures s[a..] == s[a..b] + s[b..c] + "/" + s[c + 1..]
  {
  }

  /** Captures as the unordered map keeps them: a name that is there already is not overwritten. */
  function Bound(names: seq<string>, values: seq<string>): map<string, string>
    requires |names| == |values|
  {
    if names == [] then map[]
    else
      var m := Bound(names[..|names| - 1], values[..|values| - 1]);
      var n := names[|names| - 1];
      if n in m then m else m[n := values[|values| - 1]]
  }

  predicate Distinct(names: seq<string>) {
    forall i, j :: 0 <= i < j < |names| ==> names[i] != names[j]
  }

  lemma {:induction false} BoundExact(names: seq<string>, values: seq<string>)
    requires |names| == |values|
    ensures forall n :: n in Bound(names, values) <==> n in names
    ensures forall i :: 0 <= i < |names| && names[i] !in names[..i] ==> Bound(names, values)[names[i]] == values[i]
  {
    if names != [] {
      var n := |names| - 1;
      var ns, vs := names[..n], values[..n];
      BoundExact(ns, vs);
      assert names == ns + [names[n]];
      forall i | 0 <= i < |names| && names[i] !in names[..i] ensures Bound(names, values)[names[i]] == values[i] {
        if i < n {
          assert ns[i] == names[i] && ns[..i] == names[..i] && ns[i] in ns;
        }
      }
    }
  }

  lemma DistinctFirst(names: seq<string>)
    requires Distinct(names)
    ensures forall i :: 0 <= i < |names| ==> names[i] !in names[..i]
  {
  }

  /** `PathParamsMatcher`. */
  class PathParamsMatcher {
    var staticFragments: seq<string>
    var paramNames: seq<string>

    constructor (pattern: string)
      ensures (staticFragments, paramNames) == ParsedFrom(pattern, 0)
    {
      hide ParsedFrom, FindFrom, OccursAt;
      var frags: seq<string>, names: seq<string>, lastParamEnd := [], [], 0;
      // The source looks every name up in a set of names seen, but never puts one in, so the check is left out.
      ghost var all := ParsedFrom(pattern, 0);
      while true
        invariant lastParamEnd <= |pattern| + 1
        invariant all.0 == frags + ParsedFrom(pattern, lastParamEnd).0
        invariant all.1 == names + ParsedFrom(pattern, lastParamEnd).1
        decreases |pattern| + 1 - lastParamEnd
      {
        ParsedUnfold(pattern, lastParamEnd);
        var marker := Marker(pattern, lastParamEnd);
        if marker == |pattern| { break; }
        var sep := FindFrom(pattern, "/", marker + 2);
        var frag, name := pattern[lastParamEnd..marker + 1], pattern[marker + 2..sep];
        Regroup(frags, [frag], ParsedFrom(pattern, sep + 1).0);
        Regroup(names, [name], ParsedFrom(pattern, sep + 1).1);
        frags := frags + [frag];
        names := names + [name];
        lastParamEnd := sep + 1;
      }
      assert names + [] == names && frags + [] == frags;
      if lastParamEnd < |pattern| {
        frags := frags + [pattern[lastParamEnd..]];
      }
      staticFragments, paramNames := frags, names;
    }

    /** Success, and the captures; a match that fails leaves the captures made so far. */
    method Match(path: string) returns (matched: bool, pathParams: map<string, string>)
      requires Shape(staticFragments, paramNames)
      ensures matched == Captured(staticFragments, |paramNames|, path, 0).0
      ensures matched ==> pathParams == Bound(paramNames, Captured(staticFragments, |paramNames|, path, 0).1)
    {
      hide Captured, FindFrom, StrncmpEqual, Bound;
      pathParams := map[];
      BoundEmpty();
      var startingPos: nat, i := 0, 0;
      ghost var values: seq<string>, k: nat := [], |paramNames|;
      ghost var all := Captured(staticFragments, k, path, 0);
      assert staticFragments[0..] == staticFragments;
      while i < |staticFragments|
        invariant 0 <= i <= |staticFragments|
        invariant k == (if i < |paramNames| then |paramNames| - i else 0)
        invariant all.0 == Captured(staticFragments[i..], k, path, startingPos).0
        invariant all.1 == values + Captured(staticFragments[i..], k, path, startingPos).1
        invariant |values| == |paramNames| - k && pathParams == Bound(paramNames[..|values|], values)
      {
        var fragment := staticFragments[i];
        assert staticFragments[i..][1..] == staticFragments[i + 1..];
        CapturedUnfold(staticFragments[i..], k, path, startingPos);
        if startingPos + |fragment| > |path| { return false, pathParams; }
        if !StrncmpEqual(path[startingPos..], fragment) { return false, pathParams; }
        startingPos := startingPos + |fragment|;
        if i < |paramNames| {
          var sep := FindFrom(path, "/", startingPos);
          var value := path[startingPos..sep];
          Regroup(values, [value], Captured(staticFragments[i + 1..], k - 1, path, sep + 1).1);
          BoundSnoc(paramNames[..i], values, paramNames[i], value);
          assert paramNames[..i + 1] == paramNames[..i] + [paramNames[i]];
          if paramNames[i] !in pathParams {
            pathParams := pathParams[paramNames[i] := value];
          }
          values := values + [value];
          k := k - 1;
          startingPos := sep + 1;
        }
        i := i + 1;
      }
      assert staticFragments[i..] == [] && values + [] == values;
      CapturedEnd(path, startingPos);
      matched := startingPos >= |path|;
      assert paramNames[..|paramNames|] == paramNames;
    }
  }

  lemma BoundEmpty()
    ensures Bound([], []) == map[]
  {
  }

  lemma BoundSnoc(names: seq<string>, values: seq<string>, n: string, v: string)
    requires |names| == |values|
    ensures Bound(names + [n], values + [v]) ==
            var m := Bound(names, values); if n in m then m else m[n := v]
  {
    assert (names + [n])[..|names|] == names && (values + [v])[..|names|] == values;
  }

  /** What the matcher of a pattern answers for a path. */
  function Answer(pattern: string, path: string): (r: (bool, map<string, string>))
  {
    var (frags, names) := ParsedFrom(pattern, 0);
    var (ok, values) := Captured(frags, |names|, path, 0);
    (ok, if ok then Bound(names, values) else map[])
  }

  /** Substituting slash-free values into a pattern with distinct names gives a path that matches and captures
      exactly those values. */
  lemma SubstitutionMatches(pattern: string, values: seq<string>, path: string)
    requires var (frags, names) := ParsedFrom(pattern, 0);
             |values| == |names| && SlashFree(values) && Distinct(names) && Instance(frags, values, path)
    ensures var (frags, names) := ParsedFrom(pattern, 0);
            && Answer(pattern, path).0
            && Answer(pattern, path).1.Keys == (set n | n in names)
            && forall i :: 0 <= i < |names| ==> Answer(pattern, path).1[names[i]] == values[i]
  {
    var (frags, names) := ParsedFrom(pattern, 0);
    assert path[0..] == path;
    InstanceMatches(frags, values, path, 0);
    BoundExact(names, values);
    DistinctFirst(names);
  }

  /** The path is the pattern with slash-free values in the places of its parameters. */
  ghost predicate IsSubstitution(pattern: string, path: string) {
    var (frags, names) := ParsedFrom(pattern, 0);
    exists values :: |values| == |names| && SlashFree(values) && Instance(frags, values, path)
  }

  /** Conversely a path that matches is the pattern with its captures substituted, up to one trailing slash
      where the pattern ends in a parameter; and the captures are the only slash-free values with that property. */
  lemma MatchIsSubstitution(pattern: string, path: string)
    ensures IsSubstitution(pattern, path) ==> Answer(pattern, path).0
    ensures Answer(pattern, path).0 && AllComparable(ParsedFrom(pattern, 0).0) ==> IsSubstitution(pattern, path)
    ensures var (frags, names) := ParsedFrom(pattern, 0);
            forall values :: |values| == |names| && SlashFree(values) && Instance(frags, values, path)
                             ==> values == Captured(frags, |names|, path, 0).1
  {
    var (frags, names) := ParsedFrom(pattern, 0);
    assert path[0..] == path;
    if Answer(pattern, path).0 && AllComparable(frags) {
      MatchIsInstance(frags, |names|, path, 0);
      var values := Captured(frags, |names|, path, 0).1;
      assert |values| == |names| && SlashFree(values) && Instance(frags, values, path);
    }
    forall values | |values| == |names| && SlashFree(values) && Instance(frags, values, path)
      ensures Captured(frags, |names|, path, 0) == (true, values)
    {
      InstanceMatches(frags, values, path, 0);
    }
  }

  // ---------------------------------------------------------------- NUL in a pattern

  /** Two fragments that `strncmp` cannot tell apart pass and fail the same texts. */
  lemma {:induction false} SameTest(p: string, f: string, g: string)
    requires |f| == |g| <= |p| && StrncmpEqual(g, f)
    ensures StrncmpEqual(p, f) <==> StrncmpEqual(p, g)
    decreases |f|
  {
    if f != "" && f[0] != '\0' {
      SameTest(p[1..], f[1..], g[1..]);
    }
  }

  lemma {:induction false} CapturedSame(frags: seq<string>, i: nat, g: string, k: nat, path: string, pos: nat)
    requires k <= |frags| && i < |frags| && |g| == |frags[i]| && StrncmpEqual(g, frags[i])
    ensures Captured(frags[i := g], k, path, pos) == Captured(frags, k, path, pos)
    decreases |frags|
  {
    hide Captured, StrncmpEqual, FindFrom;
    var other := frags[i := g];
    CapturedUnfold(frags, k, path, pos);
    CapturedUnfold(other, k, path, pos);
    var next := pos + |frags[0]|;
    if i == 0 {
      assert other[1..] == frags[1..];
      if next <= |path| { SameTest(path[pos..], frags[0], g); }
    } else if next <= |path| {
      assert other[1..] == frags[1..][i - 1 := g];
      CapturedSame(frags[1..], i - 1, g, if k == 0 then 0 else k - 1, path,
                   if k == 0 then next else FindFrom(path, "/", next) + 1);
    }
  }

  lemma {:induction false} FillDiffers(frags: seq<string>, i: nat, g: string, values: seq<string>)
    requires Shape(frags, values) && i < |frags| && |g| == |frags[i]| && g != frags[i]
    ensures |Fill(frags[i := g], values)| == |Fill(frags, values)| && Fill(frags[i := g], values) != Fill(frags, values)
    decreases |frags|
  {
    var other := frags[i := g];
    if |frags| > 1 {
      var t, u := Fill(frags[1..], values[1..]), Fill(other[1..], values[1..]);
      if i > 0 {
        assert other[1..] == frags[1..][i - 1 := g];
        FillDiffers(frags[1..], i - 1, g, values[1..]);
      } else {
        assert other[1..] == frags[1..];
      }
      HeadsDiffer(frags[0], other[0], values[0] + "/" + t, values[0] + "/" + u);
      TailsDiffer(values[0] + "/", t, u);
      assert Fill(frags, values) == frags[0] + (values[0] + "/" + t);
      assert Fill(other, values) == other[0] + (values[0] + "/" + u);
    } else if values != [] {
      HeadsDiffer(frags[0], other[0], values[0], values[0]);
    }
  }

  lemma HeadsDiffer(f: string, g: string, t: string, u: string)
    requires |f| == |g| && |t| == |u|
    ensures |f + t| == |g + u| && (f != g || t != u ==> f + t != g + u)
  {
    assert (f + t)[..|f|] == f && (g + u)[..|f|] == g;
    assert (f + t)[|f|..] == t && (g + u)[|f|..] == u;
  }

  lemma TailsDiffer(v: string, t: string, u: string)
    requires |t| == |u|
    ensures t != u ==> v + t != v + u
  {
    HeadsDiffer(v, v, t, u);
  }

  /** A fragment with a NUL before its end passes a text that is not the fragment. */
  lemma {:induction false} Confusable(f: string) returns (g: string)
    requires !Comparable(f)
    ensures |g| == |f| && g != f && StrncmpEqual(g, f)
  {
    if f[0] == '\0' {
      g := f[1 := if f[1] == 'a' then 'b' else 'a'];
      assert g[1] != f[1];
    } else {
      assert f[..|f| - 1] == [f[0]] + f[1..][..|f| - 2];
      var rest := Confusable(f[1..]);
      g := [f[0]] + rest;
      assert g[1..] == rest;
    }
  }

  /** Exactly when only instances match: when no fragment holds a NUL before its last character, for that is where
      `strncmp` stops. */
  lemma OnlyInstancesMatch(pattern: string)
    ensures (forall path :: Answer(pattern, path).0 ==> IsSubstitution(pattern, path))
            <==> AllComparable(ParsedFrom(pattern, 0).0)
  {
    var (frags, names) := ParsedFrom(pattern, 0);
    if AllComparable(frags) {
      forall path | Answer(pattern, path).0 ensures IsSubstitution(pattern, path) {
        MatchIsSubstitution(pattern, path);
      }
    } else {
      var i :| 0 <= i < |frags| && !Comparable(frags[i]);
      var path := FalseMatch(frags, i, |names|);
      assert Answer(pattern, path).0 && !IsSubstitution(pattern, path);
    }
  }

  lemma FalseMatch(frags: seq<string>, i: nat, k: nat) returns (path: string)
    requires k <= |frags| <= k + 1 && i < |frags| && !Comparable(frags[i])
    ensures Captured(frags, k, path, 0).0
    ensures forall values :: |values| == k && SlashFree(values) ==> !Instance(frags, values, path)
  {
    var g := Confusable(frags[i]);
    var other, none: seq<string> := frags[i := g], seq(k, _ => "");
    path := Fill(other, none);
    assert path[0..] == path;
    InstanceMatches(other, none, path, 0);
    CapturedSame(frags, i, g, k, path, 0);
    FillDiffers(frags, i, g, none);
    assert Captured(frags, k, path, 0) == (true, none);
    forall values | |values| == k && SlashFree(values) ensures Instance(frags, values, path) ==> values == none {
      if Instance(frags, values, path) {
        InstanceMatches(frags, values, path, 0);
      }
    }
    assert !Instance(frags, none, path);
  }

  // ---------------------------------------------------------------- repeated names

  /** Repeated names are not refused, for all that the constructor means to; of every name the first value is kept,
      in every pattern and every path that matches it. */
  lemma FirstValueKept(pattern: string, path: string)
    requires Answer(pattern, path).0
    ensures var names := ParsedFrom(pattern, 0).1;
            var values := Captured(ParsedFrom(pattern, 0).0, |names|, path, 0).1;
            && |values| == |names| && Answer(pattern, path).1.Keys == (set n | n in names)
            && forall i :: 0 <= i < |names| && names[i] !in names[..i] ==> Answer(pattern, path).1[names[i]] == values[i]
  {
    var (frags, names) := ParsedFrom(pattern, 0);
    BoundExact(names, Captured(frags, |names|, path, 0).1);
  }

  /** Every path that the values give when they are put in matches, and gives every value back. */
  ghost predicate AllComeBack(pattern: string) {
    var (frags, names) := ParsedFrom(pattern, 0);
    forall values, path ::
      |values| == |names| && SlashFree(values) && Instance(frags, values, path) ==>
        && Answer(pattern, path).0 && Answer(pattern, path).1.Keys == (set n | n in names)
        && forall i :: 0 <= i < |names| ==> Answer(pattern, path).1[names[i]] == values[i]
  }

  /** Exactly the patterns with distinct names give all values back. */
  lemma ValuesComeBackExactly(pattern: string)
    ensures AllComeBack(pattern) <==> Distinct(ParsedFrom(pattern, 0).1)
  {
    var (frags, names) := ParsedFrom(pattern, 0);
    if Distinct(names) {
      forall values, path | |values| == |names| && SlashFree(values) && Instance(frags, values, path)
        ensures && Answer(pattern, path).0 && Answer(pattern, path).1.Keys == (set n | n in names)
                && forall i :: 0 <= i < |names| ==> Answer(pattern, path).1[names[i]] == values[i]
      {
        SubstitutionMatches(pattern, values, path);
      }
    } else {
      var i, j :| 0 <= i < j < |names| && names[i] == names[j];
      var values := seq(|names|, k => if k == j then "x" else "");
      var path := Fill(frags, values);
      assert |values| == |names| && SlashFree(values) && Instance(frags, values, path);
      assert values[i] != values[j];
    }
  }
}
