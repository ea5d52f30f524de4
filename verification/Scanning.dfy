/** Searching, trimming and splitting of byte strings: the helpers that the query, range-header and
    multipart code of httplib.h share.

    Every loop of the source is a method here; the functions say what the loops compute. */
module Scanning {
  import opened Wrappers

  const CRLF := "\r\n"
  const HEADER_MAX_LENGTH := 8192

  function Concat(pieces: seq<string>): string { if pieces == [] then "" else pieces[0] + Concat(pieces[1..]) }

  // ---------------------------------------------------------------- searching

  /** `pat` occurs in `s` at position `i`. */
  predicate OccursAt(s: string, pat: string, i: nat) {
    i + |pat| <= |s| && s[i..i + |pat|] == pat
  }

  /** The least position, not below `i`, where `pat` occurs in `s`; the length of `s` when there is none. */
  function FindFrom(s: string, pat: string, i: nat): (r: nat)
    requires i <= |s| && pat != ""
    ensures i <= r <= |s|
    ensures r < |s| ==> OccursAt(s, pat, r)
    ensures forall j: nat :: i <= j < r ==> !OccursAt(s, pat, j)
    ensures r == |s| ==> forall j: nat :: i <= j ==> !OccursAt(s, pat, j)
    decreases |s| - i
  {
    if i + |pat| > |s| then |s|
    else if s[i..i + |pat|] == pat then i
    else FindFrom(s, pat, i + 1)
  }

  function Find(s: string, pat: string): (r: nat)
    requires pat != ""
    ensures r <= |s|
  {
    FindFrom(s, pat, 0)
  }

  /** `FindFrom` is the only position with its two defining properties. */
  lemma FindIs(s: string, pat: string, i: nat, r: nat)
    requires pat != "" && i <= r
    requires OccursAt(s, pat, r)
    requires forall j: nat :: i <= j < r ==> !OccursAt(s, pat, j)
    ensures i <= |s| && FindFrom(s, pat, i) == r
  {
    var f := FindFrom(s, pat, i);
    assert f < |s| ==> OccursAt(s, pat, f);
  }

  lemma FindNone(s: string, pat: string, i: nat)
    requires pat != "" && i <= |s|
    requires forall j: nat :: i <= j ==> !OccursAt(s, pat, j)
    ensures FindFrom(s, pat, i) == |s|
  {
  }

  /** Looking for one character: the first position that holds it. */
  lemma FindCharIs(s: string, c: char, i: nat, r: nat)
    requires i <= r <= |s|
    requires forall j :: i <= j < r ==> s[j] != c
    requires r < |s| ==> s[r] == c
    ensures FindFrom(s, [c], i) == r
  {
    forall j: nat | i <= j < r ensures !OccursAt(s, [c], j) {
      assert s[j..j + 1][0] == s[j];
    }
    if r < |s| {
      assert s[r..r + 1] == [c];
      FindIs(s, [c], i, r);
    } else {
      FindNone(s, [c], i);
    }
  }

  // ---------------------------------------------------------------- trimming

  predicate IsBlank(c: char) { c == ' ' || c == '\t' }

  /** White space as the C library has it. */
  predicate IsSpace(c: char) { c == ' ' || 9 <= c as int <= 13 }

  function SkipSpace(s: string): string {
    if s != "" && IsSpace(s[0]) then SkipSpace(s[1..]) else s
  }

  function StripLeft(s: string): (r: string) {
    if s != "" && IsBlank(s[0]) then StripLeft(s[1..]) else s
  }

  function StripRight(s: string): (r: string) {
    if s != "" && IsBlank(s[|s| - 1]) then StripRight(s[..|s| - 1]) else s
  }

  function Strip(s: string): string { StripRight(StripLeft(s)) }

  lemma {:induction false} StripLeftIs(s: string, k: nat)
    requires k <= |s|
    requires forall j :: 0 <= j < k ==> IsBlank(s[j])
    requires k < |s| ==> !IsBlank(s[k])
    ensures StripLeft(s) == s[k..]
  {
    if k > 0 {
      StripLeftIs(s[1..], k - 1);
      assert s[1..][k - 1..] == s[k..];
    } else {
      assert s[0..] == s;
    }
  }

  lemma {:induction false} StripRightIs(s: string, k: nat)
    requires k <= |s|
    requires forall j :: k <= j < |s| ==> IsBlank(s[j])
    requires k > 0 ==> !IsBlank(s[k - 1])
    ensures StripRight(s) == s[..k]
  {
    if k < |s| {
      StripRightIs(s[..|s| - 1], k);
      assert s[..|s| - 1][..k] == s[..k];
    } else {
      assert s[..k] == s;
    }
  }

  /** A string that neither starts nor ends with a blank is left as it is. */
  lemma StripNone(s: string)
    requires s != "" ==> !IsBlank(s[0]) && !IsBlank(s[|s| - 1])
    ensures Strip(s) == s
  {
    StripLeftIs(s, 0);
    StripRightIs(s, |s|);
  }

  lemma StripLeadingBlanks(k: nat, s: string, b: string)
    requires |b| == k && forall j :: 0 <= j < k ==> IsBlank(b[j])
    requires s != "" ==> !IsBlank(s[0])
    ensures StripLeft(b + s) == s
  {
    StripLeftIs(b + s, k);
    assert (b + s)[k..] == s;
  }

  /** Blanks and tabs. */
  predicate Blanks(b: string) { forall i :: 0 <= i < |b| ==> b[i] in " \t" }

  /** Stripping takes off just the blanks and tabs at both ends. */
  lemma StripExactly(a: string, t: string, b: string)
    requires Blanks(a) && Blanks(b) && (t != "" ==> t[0] !in " \t" && t[|t| - 1] !in " \t")
    ensures Strip(a + t + b) == t
  {
    var s := a + t + b;
    if t == "" {
      StripLeftIs(s, |s|);
    } else {
      StripLeftIs(s, |a|);
      assert s[|a|..] == t + b;
      StripRightIs(t + b, |t|);
    }
  }

  /** The scan of `trim`. The left scan runs to the end of the whole buffer, not of the field, and the
      right scan runs to the start of the whole buffer; so on a blank field the two cross. */
  method Trim(b: string, beg: nat, end: nat) returns (left: nat, right: nat)
    requires beg <= end <= |b|
    ensures left <= |b| && right <= |b|
    ensures Strip(b[beg..end]) == "" <==> left >= right
    ensures left < right ==> beg <= left && right <= end && b[left..right] == Strip(b[beg..end])
  {
    left := beg;
    while left < |b| && IsBlank(b[left])
      invariant beg <= left <= |b|
      invariant forall j :: beg <= j < left ==> IsBlank(b[j])
    {
      left := left + 1;
    }
    right := end;
    while right > 0 && IsBlank(b[right - 1])
      invariant right <= end
      invariant forall j :: right <= j < end ==> IsBlank(b[j])
    {
      right := right - 1;
    }
    TrimMeaning(b, beg, end, left, right);
  }

  lemma TrimMeaning(b: string, beg: nat, end: nat, left: nat, right: nat)
    requires beg <= end <= |b| && beg <= left <= |b| && right <= end
    requires forall j :: beg <= j < left ==> IsBlank(b[j])
    requires left < |b| ==> !IsBlank(b[left])
    requires forall j :: right <= j < end ==> IsBlank(b[j])
    requires right > 0 ==> !IsBlank(b[right - 1])
    ensures Strip(b[beg..end]) == "" <==> left >= right
    ensures left < right ==> beg <= left && right <= end && b[left..right] == Strip(b[beg..end])
  {
    var s := b[beg..end];
    if left < end {
      assert right > left;
      StripLeftIs(s, left - beg);
      var t := s[left - beg..];
      assert t == b[left..end];
      StripRightIs(t, right - left);
      assert t[..right - left] == b[left..right];
    } else {
      assert right <= beg;
      StripLeftIs(s, |s|);
      assert s[|s|..] == "";
    }
  }

  method TrimCopy(s: string) returns (r: string)
    ensures r == Strip(s)
  {
    var left, right := Trim(s, 0, |s|);
    assert s[0..|s|] == s;
    r := if left < right then s[left..right] else "";
  }

  function Unquote(s: string): string {
    if |s| >= 2 && s[0] == '"' && s[|s| - 1] == '"' then s[1..|s| - 1] else s
  }

  // ---------------------------------------------------------------- splitting

  /** The pieces between the separators, blanks and empty pieces included. */
  function Pieces(s: string, d: char): (r: seq<string>)
    ensures |r| >= 1
    decreases |s|
  {
    var k := Find(s, [d]);
    if k == |s| then [s] else [s[..k]] + Pieces(s[k + 1..], d)
  }

  function Kept(piece: string): seq<string> {
    if Strip(piece) == "" then [] else [Strip(piece)]
  }

  function Trimmed(ps: seq<string>): seq<string> {
    if ps == [] then [] else Kept(ps[0]) + Trimmed(ps[1..])
  }

  /** The nonempty trimmed fields of `s`, in order. */
  function Fields(s: string, d: char): seq<string> { Trimmed(Pieces(s, d)) }

  lemma {:induction false} TrimmedConcat(a: seq<string>, b: seq<string>)
    ensures Trimmed(a + b) == Trimmed(a) + Trimmed(b)
  {
    if a == [] {
      assert a + b == b;
    } else {
      hide Kept;
      TrimmedConcat(a[1..], b);
      assert (a + b)[1..] == a[1..] + b && (a + b)[0] == a[0];
      Regroup(Kept(a[0]), Trimmed(a[1..]), Trimmed(b));
    }
  }

  /** Text without the separator is one piece; text up to a separator is the first piece. */
  lemma PiecesStep(a: string, d: char, rest: string)
    requires d !in a
    ensures Pieces(a + [d] + rest, d) == [a] + Pieces(rest, d)
    ensures Pieces(a, d) == [a]
  {
    var s := a + [d] + rest;
    FindCharIs(s, d, 0, |a|);
    assert s[..|a|] == a && s[|a| + 1..] == rest;
    FindCharIs(a, d, 0, |a|);
  }

  lemma FieldsStep(a: string, d: char, rest: string)
    requires d !in a
    ensures Fields(a + [d] + rest, d) == Kept(a) + Fields(rest, d)
    ensures Fields(a, d) == Kept(a)
  {
    PiecesStep(a, d, rest);
    TrimmedConcat([a], Pieces(rest, d));
  }

  /** One callback of `split`: made with the trimmed text, and only when there is some. */
  method Emit(s: string, beg: nat, end: nat, fields: seq<string>) returns (r: seq<string>)
    requires beg <= end <= |s|
    ensures r == fields + Kept(s[beg..end])
  {
    var left, right := Trim(s, beg, end);
    r := if left < right then fields + [s[left..right]] else fields;
  }

  /** The pieces when there may be at most `m` of them; the last one may hold separators. */
  function PiecesUpTo(s: string, d: char, m: nat): (r: seq<string>)
    ensures 1 <= |r| && (m > 0 ==> |r| <= m)
    decreases |s|
  {
    var k := Find(s, [d]);
    if m <= 1 || k == |s| then [s] else [s[..k]] + PiecesUpTo(s[k + 1..], d, m - 1)
  }

  function FieldsUpTo(s: string, d: char, m: nat): seq<string> { Trimmed(PiecesUpTo(s, d, m)) }

  /** Cutting at the separators that the limit leaves loses nothing: the pieces, joined, are the text. */
  lemma {:induction false} PiecesJoin(s: string, d: char, m: nat)
    ensures Rejoined(PiecesUpTo(s, d, m), d) == s
    ensures forall i :: 0 <= i < |PiecesUpTo(s, d, m)| - 1 ==> d !in PiecesUpTo(s, d, m)[i]
    ensures d in PiecesUpTo(s, d, m)[|PiecesUpTo(s, d, m)| - 1] ==> |PiecesUpTo(s, d, m)| >= m
    decreases |s|
  {
    var k := Find(s, [d]);
    FirstPiece(s, d);
    hide Find;
    if m > 1 && k < |s| {
      var rest := PiecesUpTo(s[k + 1..], d, m - 1);
      PiecesJoin(s[k + 1..], d, m - 1);
      RejoinedCons(s[..k], rest, d);
      var all := [s[..k]] + rest;
      assert forall i :: 0 < i < |all| ==> all[i] == rest[i - 1];
    }
  }

  lemma FirstPiece(s: string, d: char)
    ensures var k := Find(s, [d]); d !in s[..k] && (k < |s| ==> s == s[..k] + ([d] + s[k + 1..]))
  {
    var k := Find(s, [d]);
    forall j | 0 <= j < k ensures s[..k][j] != d {
      assert !OccursAt(s, [d], j);
      assert s[j..j + 1] == [s[j]];
    }
    if k < |s| {
      assert s[k..k + 1] == [d];
      assert s == s[..k] + (s[k..k + 1] + s[k + 1..]);
    } else {
      assert s[..k] == s;
    }
  }

  lemma RejoinedCons(p: string, rest: seq<string>, d: char)
    requires rest != []
    ensures Rejoined([p] + rest, d) == p + ([d] + Rejoined(rest, d))
  {
    assert ([p] + rest)[1..] == rest;
  }

  function Rejoined(ps: seq<string>, d: char): string {
    if ps == [] then "" else if |ps| == 1 then ps[0] else ps[0] + ([d] + Rejoined(ps[1..], d))
  }

  /** A limit beyond the length of the text is none. */
  lemma {:induction false} NoLimit(s: string, d: char, m: nat)
    requires m > |s|
    ensures FieldsUpTo(s, d, m) == Fields(s, d)
    decreases |s|
  {
    PiecesNoLimit(s, d, m);
  }

  lemma {:induction false} PiecesNoLimit(s: string, d: char, m: nat)
    requires m > |s|
    ensures PiecesUpTo(s, d, m) == Pieces(s, d)
    decreases |s|
  {
    var k := Find(s, [d]);
    if k < |s| {
      PiecesNoLimit(s[k + 1..], d, m - 1);
    }
  }

  lemma SplitStep(s: string, d: char, beg: nat, i: nat, m: nat)
    requires beg <= i < |s| && s[i] == d && m > 1
    requires forall j :: beg <= j < i ==> s[j] != d
    ensures FieldsUpTo(s[beg..], d, m) == Kept(s[beg..i]) + FieldsUpTo(s[i + 1..], d, m - 1)
  {
    var t, n := s[beg..], i - beg;
    FindCharIs(t, d, 0, n);
    assert t[..n] == s[beg..i] && t[n + 1..] == s[i + 1..];
    TrimmedConcat([t[..n]], PiecesUpTo(t[n + 1..], d, m - 1));
    assert Trimmed([t[..n]]) == Kept(t[..n]);
  }

  lemma SplitEnd(s: string, d: char, beg: nat, m: nat)
    requires beg <= |s| && (m <= 1 || forall j :: beg <= j < |s| ==> s[j] != d)
    ensures FieldsUpTo(s[beg..], d, m) == Kept(s[beg..])
  {
    if m > 1 {
      FindCharIs(s[beg..], d, 0, |s| - beg);
    }
    assert PiecesUpTo(s[beg..], d, m) == [s[beg..]];
    assert Trimmed([s[beg..]]) == Kept(s[beg..]);
  }

  /** The loop of `split`: it cuts at the first separators, so that at most `m` pieces arise, and calls back on
      exactly their nonempty trimmed forms, in order. */
  method SplitUpTo(s: string, d: char, m: nat) returns (fields: seq<string>)
    ensures fields == FieldsUpTo(s, d, m)
  {
    hide FieldsUpTo, Kept;
    fields := [];
    var i, beg, count := 0, 0, 1;
    ghost var all, left := FieldsUpTo(s, d, m), m;
    ghost var rest := all;
    assert s[0..] == s;
    while i < |s|
      invariant beg <= i <= |s| && 1 <= count && left == if m >= count then m - count + 1 else m
      invariant m >= count || (count == 1 && m == 0)
      invariant left > 1 ==> forall j :: beg <= j < i ==> s[j] != d
      invariant rest == FieldsUpTo(s[beg..], d, left)
      invariant all == fields + rest
    {
      if s[i] == d && count < m {
        SplitStep(s, d, beg, i, left);
        rest := FieldsUpTo(s[i + 1..], d, left - 1);
        Regroup(fields, Kept(s[beg..i]), rest);
        fields := Emit(s, beg, i, fields);
        beg, count, left := i + 1, count + 1, left - 1;
      }
      i := i + 1;
    }
    SplitEnd(s, d, beg, left);
    assert s[beg..i] == s[beg..];
    if i > 0 {
      fields := Emit(s, beg, i, fields);
    } else {
      NoKept();
    }
  }

  lemma NoKept()
    ensures Kept("") == []
  {
  }

  /** `split` without a limit: the source passes one that is longer than every string. */
  method Split(s: string, d: char) returns (fields: seq<string>)
    ensures fields == Fields(s, d)
  {
    NoLimit(s, d, |s| + 1);
    fields := SplitUpTo(s, d, |s| + 1);
  }

  lemma NoFields(d: char)
    ensures Fields("", d) == []
  {
    FieldsStep("", d, "");
  }

  // ---------------------------------------------------------------- dividing

  /** The text before the first `d` and the text after it (all of `s` and nothing, when there is none). */
  function Divide(s: string, d: char): (string, string) {
    var k := Find(s, [d]);
    if k == |s| then (s, "") else (s[..k], s[k + 1..])
  }

  lemma DivideAt(a: string, d: char, b: string)
    requires d !in a
    ensures Divide(a + [d] + b, d) == (a, b)
  {
    var s := a + [d] + b;
    FindCharIs(s, d, 0, |a|);
    assert s[..|a|] == a && s[|a| + 1..] == b;
  }
}
