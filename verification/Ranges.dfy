/** Byte ranges of httplib.h: the check of section 14.2 of RFC 9110 that rewrites a request's ranges in
    place, and the printer/parser pair for the Range header. */
module Ranges {
  import opened Wrappers
  import opened Scanning

  /** First and last position; -1 stands for "not given". */
  datatype Range = Range(first: int, last: int)

  const RANGE_MAX_COUNT := 1024
  const SSIZE_MAX := 0x7FFF_FFFF_FFFF_FFFF

  /** The conversion from `size_t` to `ssize_t`. */
  function ToSsize(n: nat): int {
    (n + 0x8000_0000_0000_0000) % 0x1_0000_0000_0000_0000 - 0x8000_0000_0000_0000
  }

  // ---------------------------------------------------------------- the check and what it accepts

  /** One range as the loop rewrites it, statement by statement. */
  function Rewritten(r: Range, len: int): Range {
    var r1 := if r.first == -1 && r.last == -1 then Range(0, len) else r;
    var r2 := if r1.first == -1 then Range(len - r1.last, len - 1) else r1;
    if r2.last == -1 then Range(r2.first, len - 1) else r2
  }

  function RewrittenAll(rs: seq<Range>, len: int): (q: seq<Range>)
    ensures |q| == |rs| && forall i :: 0 <= i < |rs| ==> q[i] == Rewritten(rs[i], len)
  {
    seq(|rs|, i requires 0 <= i < |rs| => Rewritten(rs[i], len))
  }

  /** The positions that a range of a request asks for, by section 14.1.2 of RFC 9110: from first to last, from first
      to the end, or the last so many. */
  predicate AsksFor(r: Range, q: Range, len: int) {
    && (r.first != -1 && r.last != -1 ==> q == r)
    && (r.first != -1 && r.last == -1 ==> q == Range(r.first, len - 1))
    && (r.first == -1 && r.last != -1 ==> q == Range(len - r.last, len - 1))
    && !(r.first == -1 && r.last == -1)
  }

  /** What the check leaves behind when it accepts are the positions asked for. */
  lemma AcceptedAsks(rs: seq<Range>, len: int)
    requires Accepted(rs, len)
    ensures forall i :: 0 <= i < |rs| ==> AsksFor(rs[i], RewrittenAll(rs, len)[i], len)
  {
    var q := RewrittenAll(rs, len);
    forall i | 0 <= i < |rs| ensures AsksFor(rs[i], q[i], len) {
      assert Within(q[i], len);
    }
  }

  predicate Within(r: Range, len: int) { 0 <= r.first <= r.last < len }

  /** Some earlier range reaches the first position of range `i`. */
  ghost predicate Overlapping(rs: seq<Range>, i: nat)
    requires i < |rs|
  {
    exists j :: 0 <= j < i && rs[j].last >= rs[i].first
  }

  ghost function Overlaps(rs: seq<Range>, n: nat): (c: nat)
    requires n <= |rs|
    ensures c <= n
  {
    if n == 0 then 0 else Overlaps(rs, n - 1) + if Overlapping(rs, n - 1) then 1 else 0
  }

  ghost predicate Ascending(rs: seq<Range>) {
    forall i, j :: 0 <= i < j < |rs| ==> rs[i].first < rs[j].first
  }

  /** What the check accepts, said without its loop. */
  ghost predicate Accepted(rs: seq<Range>, len: int) {
    |rs| <= RANGE_MAX_COUNT && Sound(RewrittenAll(rs, len), len)
  }

  /** Every range lies within the content, first positions ascend, and at most two ranges overlap earlier ones. */
  ghost predicate Sound(q: seq<Range>, len: int) {
    && (forall i :: 0 <= i < |q| ==> Within(q[i], len))
    && Ascending(q)
    && Overlaps(q, |q|) <= 2
  }

  predicate Applies(count: nat, status: int) { count > 0 && 200 <= status < 300 }

  /** What holds of the first `n` rewritten ranges while the loop has not rejected. */
  ghost predicate Progress(q: seq<Range>, n: nat, len: int, prevFirst: int, prevLast: int, count: int)
    requires n <= |q|
  {
    && (forall i :: 0 <= i < n ==> Within(q[i], len) && q[i].first <= prevFirst && q[i].last <= prevLast)
    && (n == 0 ==> prevFirst == prevLast == -1)
    && (n > 0 ==> prevFirst == q[n - 1].first && exists i :: 0 <= i < n && prevLast == q[i].last)
    && (forall i, j :: 0 <= i < j < n ==> q[i].first < q[j].first)
    && Overlaps(q, n) == count <= 2
  }

  lemma {:induction false} OverlapsGrow(q: seq<Range>, n: nat, m: nat)
    requires n <= m <= |q|
    ensures Overlaps(q, n) <= Overlaps(q, m)
  {
    if n < m {
      OverlapsGrow(q, n, m - 1);
    }
  }

  function Max(a: int, b: int): int { if a < b then b else a }

  /** The greatest last position so far tells whether the next range overlaps an earlier one. */
  lemma OverlapSeen(q: seq<Range>, n: nat, len: int, prevFirst: int, prevLast: int, count: int)
    requires n < |q| && Progress(q, n, len, prevFirst, prevLast, count) && 0 <= q[n].first
    ensures q[n].first <= prevLast <==> Overlapping(q, n)
  {
    hide Overlaps;
    if n > 0 && q[n].first <= prevLast {
      var i :| 0 <= i < n && prevLast == q[i].last;
      assert q[i].last >= q[n].first;
    }
  }

  lemma ReachWitness(q: seq<Range>, n: nat, prevLast: int)
    requires n < |q| && (if n == 0 then prevLast <= q[0].last else exists i :: 0 <= i < n && prevLast == q[i].last)
    ensures exists i :: 0 <= i < n + 1 && Max(prevLast, q[n].last) == q[i].last
  {
    if prevLast <= q[n].last {
      assert Max(prevLast, q[n].last) == q[n].last;
    }
  }

  /** One round of the loop that does not reject. */
  lemma ProgressStep(q: seq<Range>, n: nat, len: int, prevFirst: int, prevLast: int, count: int)
    requires n < |q| && Progress(q, n, len, prevFirst, prevLast, count)
    requires Within(q[n], len) && prevFirst < q[n].first
    ensures q[n].first <= prevLast <==> Overlapping(q, n)
    ensures var c := count + if q[n].first <= prevLast then 1 else 0;
            Overlaps(q, n + 1) == c
            && (c <= 2 ==> Progress(q, n + 1, len, Max(prevFirst, q[n].first), Max(prevLast, q[n].last), c))
  {
    OverlapSeen(q, n, len, prevFirst, prevLast, count);
    OverlapsNext(q, n);
    hide Overlapping, Overlaps;
    ReachWitness(q, n, prevLast);
    BoundsStep(q, n, len, prevFirst, prevLast);
  }

  lemma OverlapsNext(q: seq<Range>, n: nat)
    requires n < |q|
    ensures Overlaps(q, n + 1) == Overlaps(q, n) + if Overlapping(q, n) then 1 else 0
  {
  }

  lemma BoundsStep(q: seq<Range>, n: nat, len: int, prevFirst: int, prevLast: int)
    requires n < |q| && Within(q[n], len) && prevFirst < q[n].first
    requires forall i :: 0 <= i < n ==> Within(q[i], len) && q[i].first <= prevFirst && q[i].last <= prevLast
    requires forall i, j :: 0 <= i < j < n ==> q[i].first < q[j].first
    ensures var (f, l) := (Max(prevFirst, q[n].first), Max(prevLast, q[n].last));
            && f == q[n].first
            && (forall i :: 0 <= i < n + 1 ==> Within(q[i], len) && q[i].first <= f && q[i].last <= l)
            && (forall i, j :: 0 <= i < j < n + 1 ==> q[i].first < q[j].first)
  {
  }

  lemma ProgressStart(q: seq<Range>, len: int)
    ensures Progress(q, 0, len, -1, -1, 0)
  {
  }

  lemma ProgressEnd(q: seq<Range>, len: int, prevFirst: int, prevLast: int, count: int)
    requires Progress(q, |q|, len, prevFirst, prevLast, count)
    ensures Sound(q, len)
  {
  }

  /** The reasons to reject: no list that starts with these ranges is sound. */
  lemma RejectPosition(q: seq<Range>, n: nat, len: int, prevFirst: int, prevLast: int, count: int)
    requires n < |q| && Progress(q, n, len, prevFirst, prevLast, count)
    requires !Within(q[n], len) || q[n].first <= prevFirst
    ensures !Sound(q, len)
  {
    if Within(q[n], len) {
      assert n > 0 && !(q[n - 1].first < q[n].first);
    }
  }

  lemma RejectOverlap(q: seq<Range>, n: nat, len: int)
    requires n < |q| && Overlaps(q, n + 1) > 2
    ensures !Sound(q, len)
  {
    OverlapsGrow(q, n + 1, |q|);
  }

  method RewriteOne(r: Range, len: int) returns (res: Range)
    ensures res == Rewritten(r, len)
  {
    var first, last := r.first, r.last;
    if first == -1 && last == -1 {
      first := 0;
      last := len;
    }
    if first == -1 {
      first := len - last;
      last := len - 1;
    }
    if last == -1 { last := len - 1; }
    res := Range(first, last);
  }

  /** The state a run of the loop leaves behind: some ranges rewritten, the others as they were. */
  ghost predicate RewrittenUpTo(now: seq<Range>, was: seq<Range>, len: int, k: nat) {
    && k <= |was| == |now|
    && (forall i :: 0 <= i < k ==> now[i] == Rewritten(was[i], len))
    && (forall i :: k <= i < |was| ==> now[i] == was[i])
  }

  /** `range_error`: true exactly when the ranges are not acceptable; otherwise every range is rewritten. */
  method RangeError(ranges: array<Range>, status: int, contentLength: nat, bodySize: nat) returns (error: bool)
    modifies ranges
    ensures var len := ToSsize(if contentLength != 0 then contentLength else bodySize);
            if ranges.Length == 0 || status < 200 || 300 <= status then !error && ranges[..] == old(ranges[..])
            else
              && (error <==> !Accepted(old(ranges[..]), len))
              && (!error ==> ranges[..] == RewrittenAll(old(ranges[..]), len))
              && (!error ==> forall i :: 0 <= i < ranges.Length ==> AsksFor(old(ranges[i]), ranges[i], len))
              && exists k :: RewrittenUpTo(ranges[..], old(ranges[..]), len, k)
  {
    hide Rewritten, Progress, Sound, Overlaps, Overlapping, ToSsize;
    if !Applies(ranges.Length, status) { return false; }
    var len := ToSsize(if contentLength != 0 then contentLength else bodySize);
    ghost var rs := ranges[..];
    ghost var q := RewrittenAll(rs, len);
    assert RewrittenUpTo(ranges[..], rs, len, 0);
    if ranges.Length > RANGE_MAX_COUNT { return true; }
    var prevFirst, prevLast, count := -1, -1, 0;
    ProgressStart(q, len);
    var n := 0;
    while n < ranges.Length
      invariant 0 <= n <= ranges.Length
      invariant forall i :: 0 <= i < n ==> ranges[i] == q[i]
      invariant forall i :: n <= i < ranges.Length ==> ranges[i] == rs[i]
      invariant count <= 2
      invariant Progress(q, n, len, prevFirst, prevLast, count)
    {
      var r := RewriteOne(ranges[n], len);
      ranges[n] := r;
      assert r == q[n];
      if !(0 <= r.first <= r.last <= len - 1) || r.first <= prevFirst {
        RejectPosition(q, n, len, prevFirst, prevLast, count);
        assert RewrittenUpTo(ranges[..], rs, len, n + 1);
        return true;
      }
      ProgressStep(q, n, len, prevFirst, prevLast, count);
      if r.first <= prevLast {
        if count + 1 > 2 {
          RejectOverlap(q, n, len);
          assert RewrittenUpTo(ranges[..], rs, len, n + 1);
          return true;
        }
        count := count + 1;
      }
      prevFirst := Max(prevFirst, r.first);
      prevLast := Max(prevLast, r.last);
      n := n + 1;
    }
    ProgressEnd(q, len, prevFirst, prevLast, count);
    assert ranges[..] == q;
    assert RewrittenUpTo(ranges[..], rs, len, n);
    AcceptedAsks(rs, len);
    error := false;
  }

  /** Lengths are converted without loss up to the greatest `ssize_t`; beyond it they become negative, and then no
      range is accepted. */
  lemma SsizeIs(n: nat)
    requires n < 0x1_0000_0000_0000_0000
    ensures ToSsize(n) == if n <= 0x7FFF_FFFF_FFFF_FFFF then n else n - 0x1_0000_0000_0000_0000
    ensures forall rs :: rs != [] && 0x7FFF_FFFF_FFFF_FFFF < n ==> !Accepted(rs, ToSsize(n))
  {
    forall rs: seq<Range> | rs != [] && 0x7FFF_FFFF_FFFF_FFFF < n ensures !Accepted(rs, ToSsize(n)) {
      assert !Within(RewrittenAll(rs, ToSsize(n))[0], ToSsize(n));
    }
  }

  /** Single bytes in ascending order: as many as 1024 are accepted, and no more. */
  lemma CountExactly(n: nat, len: int)
    requires n <= len
    ensures Accepted(seq(n, i => Range(i, i)), len) <==> n <= 1024
  {
    var rs := seq(n, i => Range(i, i));
    assert RewrittenAll(rs, len) == rs;
    NoOverlaps(rs, n);
    hide RewrittenAll;
  }

  lemma {:induction false} NoOverlaps(rs: seq<Range>, n: nat)
    requires n <= |rs| && forall i :: 0 <= i < |rs| ==> rs[i] == Range(i, i)
    ensures Overlaps(rs, n) == 0
  {
    if n > 0 {
      NoOverlaps(rs, n - 1);
    }
  }

  // ---------------------------------------------------------------- consequences of acceptance

  function RangeBytes(r: Range): int { r.last - r.first + 1 }

  function TotalBytes(rs: seq<Range>, n: nat): int
    requires n <= |rs|
  {
    if n == 0 then 0 else TotalBytes(rs, n - 1) + RangeBytes(rs[n - 1])
  }

  /** One past the greatest last position of the first `n` ranges. */
  function Reach(rs: seq<Range>, n: nat): (m: int)
    requires n <= |rs|
    ensures forall i :: 0 <= i < n ==> rs[i].last < m
    ensures m == 0 || exists i :: 0 <= i < n && m == rs[i].last + 1
  {
    if n == 0 then 0
    else
      var m := Reach(rs, n - 1);
      if m < rs[n - 1].last + 1 then rs[n - 1].last + 1 else m
  }

  /** What `c` overlapping ranges can add. */
  function Extra(c: nat, len: int): int {
    if c == 0 then 0 else if c == 1 then len - 1 else 2 * len - 3
  }

  /** Ranges that overlap nothing before them are pairwise disjoint, so together they fit below the reach;
      the k-th overlapping one starts at k or later. */
  lemma {:induction false} TotalBound(q: seq<Range>, n: nat, len: int)
    requires n <= |q| && Overlaps(q, n) <= 2
    requires forall i :: 0 <= i < |q| ==> Within(q[i], len)
    requires Ascending(q)
    ensures TotalBytes(q, n) <= Reach(q, n) + Extra(Overlaps(q, n), len)
    ensures n > 0 ==> Overlaps(q, n) <= n - 1 <= q[n - 1].first && Reach(q, n) <= len
  {
    if n > 0 {
      TotalBound(q, n - 1, len);
      ReachStep(q, n - 1, len);
      assert Within(q[n - 1], len) && (n > 1 ==> q[n - 2].first < q[n - 1].first);
      var c, over := Overlaps(q, n - 1), Overlapping(q, n - 1);
      OneMore(TotalBytes(q, n - 1), Reach(q, n - 1), Reach(q, n), c, over, q[n - 1], n, len);
      hide Overlapping, Ascending, Reach, Extra, Within;
    }
  }

  /** Adding one range to the sum. */
  lemma OneMore(total: int, reach: int, reach': int, c: nat, over: bool, r: Range, n: nat, len: int)
    requires n > 0 && total <= reach + Extra(c, len) && reach <= reach' && r.last < reach' && r.last < len
    requires c <= 2 && (over ==> c <= 1 && (n > 1 ==> c <= n - 2 < r.first) && n > 1) && (!over ==> reach <= r.first)
    ensures total + RangeBytes(r) <= reach' + Extra(if over then c + 1 else c, len)
  {
  }

  lemma ReachStep(q: seq<Range>, n: nat, len: int)
    requires n < |q| && forall i :: 0 <= i < |q| ==> Within(q[i], len)
    ensures Reach(q, n) <= Reach(q, n + 1) <= len && q[n].last < Reach(q, n + 1)
    ensures !Overlapping(q, n) ==> Reach(q, n) <= q[n].first
  {
  }

  /** An accepted nonempty list asks for at most three times the content: at most `3 * len - 3` bytes, unless
      nothing overlaps and it is at most `len`. */
  lemma AcceptedBound(rs: seq<Range>, len: int)
    requires rs != [] && Accepted(rs, len)
    ensures var q, t := RewrittenAll(rs, len), TotalBytes(RewrittenAll(rs, len), |rs|);
            && Ascending(q)
            && (forall i :: 0 <= i < |q| ==> Within(q[i], len))
            && t <= 3 * len && (t <= len || t <= 3 * len - 3)
  {
    var q := RewrittenAll(rs, len);
    TotalBound(q, |q|, len);
    var c := Overlaps(q, |q|);
    assert c == 0 || c == 1 || c == 2;
  }

  /** The bound is attained: for every content of at least three bytes, three suffixes reach it. */
  lemma BoundAttained(len: int)
    requires len >= 3
    ensures var rs := [Range(0, -1), Range(1, -1), Range(2, -1)];
            Accepted(rs, len) && TotalBytes(RewrittenAll(rs, len), 3) == 3 * len - 3
  {
    var rs := [Range(0, -1), Range(1, -1), Range(2, -1)];
    var q := RewrittenAll(rs, len);
    assert q == [Range(0, len - 1), Range(1, len - 1), Range(2, len - 1)];
    assert Overlaps(q, 3) <= Overlaps(q, 2) + 1 <= Overlaps(q, 1) + 2;
    assert !Overlapping(q, 0);
    assert TotalBytes(q, 3) == TotalBytes(q, 2) + (len - 2) == TotalBytes(q, 1) + (len - 1) + (len - 2);
  }

  /** Exactly which single ranges are accepted. A suffix longer than the content, a last position past its
      end and a range with neither bound are all refused. */
  lemma SingleAccepted(r: Range, len: int)
    requires -1 <= r.first && -1 <= r.last
    ensures Accepted([r], len) <==>
            || (0 <= r.first <= r.last < len)
            || (r.last == -1 && 0 <= r.first < len)
            || (r.first == -1 && 1 <= r.last <= len)
  {
    var q := RewrittenAll([r], len);
    assert q == [Rewritten(r, len)];
    SingleSound(q[0], len);
    hide Sound, Within, RewrittenAll;
    SingleWithin(r, len);
  }

  lemma SingleSound(r: Range, len: int)
    ensures Sound([r], len) <==> Within(r, len)
  {
    var q := [r];
    assert Overlaps(q, 1) <= 1;
    assert Sound(q, len) ==> Within(q[0], len);
  }

  lemma SingleWithin(r: Range, len: int)
    requires -1 <= r.first && -1 <= r.last
    ensures Within(Rewritten(r, len), len) <==>
            || (0 <= r.first <= r.last < len)
            || (r.last == -1 && 0 <= r.first < len)
            || (r.first == -1 && 1 <= r.last <= len)
  {
  }

  /** Checking a rewritten list again accepts it and changes nothing. */
  lemma RewriteStable(rs: seq<Range>, len: int)
    requires Accepted(rs, len)
    ensures var q := RewrittenAll(rs, len); Accepted(q, len) && RewrittenAll(q, len) == q
  {
    var q := RewrittenAll(rs, len);
    assert forall i :: 0 <= i < |q| ==> Rewritten(q[i], len) == q[i];
    assert RewrittenAll(q, len) == q;
  }

  /** `get_range_offset_and_length`; its three assertions are its precondition. */
  function OffsetAndLength(r: Range, contentLength: nat): (res: (nat, nat))
    requires r.first != -1 && r.last != -1
    requires 0 <= r.first < ToSsize(contentLength)
    requires r.first <= r.last < ToSsize(contentLength)
    ensures res.0 == r.first && res.0 + res.1 == r.last + 1
    ensures res.1 > 0 && res.0 + res.1 <= contentLength
  {
    (r.first, r.last - r.first + 1)
  }

  // ---------------------------------------------------------------- the Range header

  predicate IsDigit(c: char) { '0' <= c <= '9' }

  function Digit(n: int): char
    requires 0 <= n < 10
  {
    (n + 48) as char
  }

  function Decimal(n: nat): (s: string)
    ensures s != "" && forall i :: 0 <= i < |s| ==> IsDigit(s[i])
  {
    if n < 10 then [Digit(n)] else Decimal(n / 10) + [Digit(n % 10)]
  }

  /** `std::to_string`. */
  function IntText(n: int): string { if n < 0 then "-" + Decimal(-n) else Decimal(n) }

  predicate AllDigits(s: string) { forall i :: 0 <= i < |s| ==> IsDigit(s[i]) }

  function DigitsValue(s: string): nat
    requires AllDigits(s)
  {
    if s == "" then 0 else DigitsValue(s[..|s| - 1]) * 10 + (s[|s| - 1] as int - 48)
  }

  /** The number is printed without a leading zero. */
  lemma {:induction false} DecimalShortest(n: nat)
    ensures Decimal(n)[0] == '0' <==> n == 0
    ensures n == 0 ==> |Decimal(n)| == 1
  {
    if n >= 10 {
      DecimalShortest(n / 10);
    }
  }

  lemma {:induction false} DecimalValue(n: nat)
    ensures DigitsValue(Decimal(n)) == n
  {
    if n >= 10 {
      DecimalValue(n / 10);
      assert Decimal(n)[..|Decimal(n)| - 1] == Decimal(n / 10);
    } else {
      assert Decimal(n)[..0] == "";
    }
  }

  function BoundText(n: int): string { if n != -1 then IntText(n) else "" }

  function ItemText(r: Range): string { BoundText(r.first) + "-" + BoundText(r.last) }

  function ListText(rs: seq<Range>): string {
    if rs == [] then "" else ItemText(rs[0]) + if |rs| == 1 then "" else ", " + ListText(rs[1..])
  }

  function HeaderText(rs: seq<Range>): string { "bytes=" + ListText(rs) }

  lemma {:induction false} ListTextSnoc(rs: seq<Range>, r: Range)
    requires rs != []
    ensures ListText(rs + [r]) == ListText(rs) + ", " + ItemText(r)
  {
    hide ItemText, ListText;
    var all := rs + [r];
    assert all[1..] == rs[1..] + [r] && all[0] == rs[0];
    ListTextCons(all);
    ListTextCons(rs);
    if |rs| == 1 {
      assert all[1..] == [r];
      ListTextCons([r]);
      RegroupList(ItemText(rs[0]), "", ItemText(r));
    } else {
      ListTextSnoc(rs[1..], r);
      RegroupList(ItemText(rs[0]), ListText(rs[1..]), ItemText(r));
    }
  }

  lemma ListTextCons(rs: seq<Range>)
    requires rs != []
    ensures |rs| == 1 ==> ListText(rs) == ItemText(rs[0])
    ensures |rs| > 1 ==> ListText(rs) == ItemText(rs[0]) + (", " + ListText(rs[1..]))
  {
    hide ItemText;
  }

  lemma RegroupList(a: string, b: string, c: string)
    ensures a + (", " + (b + ", " + c)) == (a + (", " + b)) + ", " + c
    ensures a + (", " + c) == a + ", " + c
  {
  }

  method MakeItem(r: Range) returns (field: string)
    ensures field == ItemText(r)
  {
    field := "";
    if r.first != -1 { field := field + IntText(r.first); }
    field := field + "-";
    if r.last != -1 { field := field + IntText(r.last); }
  }

  method MakeRangeHeader(ranges: seq<Range>) returns (field: string)
    ensures field == HeaderText(ranges)
  {
    hide ItemText;
    var list := "";
    for i := 0 to |ranges|
      invariant list == ListText(ranges[..i])
    {
      var item := MakeItem(ranges[i]);
      assert ranges[..i + 1] == ranges[..i] + [ranges[i]];
      if i != 0 {
        ListTextSnoc(ranges[..i], ranges[i]);
        list := list + ", ";
      }
      list := list + item;
    }
    assert ranges[..|ranges|] == ranges;
    field := "bytes=" + list;
  }

  /** `std::stoll` on a string of digits: nothing when the number does not fit. */
  function Bound(s: string): Option<int>
    requires AllDigits(s)
  {
    if s == "" then Some(-1)
    else if DigitsValue(s) > SSIZE_MAX then None
    else Some(DigitsValue(s))
  }

  predicate WellFormed(r: Range) {
    && -1 <= r.first <= SSIZE_MAX && -1 <= r.last <= SSIZE_MAX
    && !(r.first == -1 && r.last == -1)
    && (r.first != -1 && r.last != -1 ==> r.first <= r.last)
  }

  function ParseItem(f: string): (r: Option<Range>)
    ensures r.Some? ==> WellFormed(r.value)
  {
    if Find(f, "-") == |f| then None
    else
      var (lhs, rhs) := Divide(f, '-');
      if !AllDigits(lhs) || !AllDigits(rhs) then None
      else
        match (Bound(lhs), Bound(rhs))
        case (Some(first), Some(last)) =>
          if (first == -1 && last == -1) || (first != -1 && last != -1 && first > last) then None
          else Some(Range(first, last))
        case _ => None
  }

  function ParseItems(fs: seq<string>): (r: Option<seq<Range>>)
    ensures r.Some? ==> forall i :: 0 <= i < |r.value| ==> WellFormed(r.value[i])
  {
    if fs == [] then Some([])
    else
      match (ParseItem(fs[0]), ParseItems(fs[1..]))
      case (Some(r), Some(rs)) => Some([r] + rs)
      case _ => None
  }

  /** The ranges that the parser reads from a header value; nothing where it returns false. */
  function ParsedHeader(s: string): Option<seq<Range>> {
    if |s| > 7 && s[..6] == "bytes=" then
      match ParseItems(Fields(s[6..], ','))
      case Some(rs) => if rs == [] then None else Some(rs)
      case None => None
    else None
  }

  function Joined(a: Option<seq<Range>>, b: Option<seq<Range>>): Option<seq<Range>> {
    if a.Some? && b.Some? then Some(a.value + b.value) else None
  }

  lemma {:induction false} ParseItemsSplit(a: seq<string>, b: seq<string>)
    ensures ParseItems(a + b) == Joined(ParseItems(a), ParseItems(b))
  {
    if a == [] {
      assert a + b == b;
      assert ParseItems(b).Some? ==> [] + ParseItems(b).value == ParseItems(b).value;
    } else {
      hide ParseItem;
      ParseItemsSplit(a[1..], b);
      assert (a + b)[1..] == a[1..] + b && (a + b)[0] == a[0];
      if ParseItem(a[0]).Some? && ParseItems(a[1..]).Some? && ParseItems(b).Some? {
        Regroup([ParseItem(a[0]).value], ParseItems(a[1..]).value, ParseItems(b).value);
      }
    }
  }

  lemma ParseSingle(f: string)
    ensures ParseItems([f]) == match ParseItem(f) case Some(r) => Some([r]) case None => None
  {
    assert [f][1..] == [];
    if ParseItem(f).Some? {
      assert [ParseItem(f).value] + [] == [ParseItem(f).value];
    }
  }

  /** One field more, and what a bad one does to the whole list. */
  lemma ParseUpTo(fields: seq<string>, i: nat)
    requires i < |fields|
    ensures ParseItem(fields[i]).Some? && ParseItems(fields[..i]).Some? ==>
              ParseItems(fields[..i + 1]) == Some(ParseItems(fields[..i]).value + [ParseItem(fields[i]).value])
    ensures ParseItem(fields[i]).None? ==> ParseItems(fields) == None
  {
    hide ParseItem, ParseItems;
    var single := [fields[i]];
    ParseItemsSplit(fields[..i], single + fields[i + 1..]);
    assert fields == fields[..i] + (single + fields[i + 1..]);
    ParseItemsSplit(single, fields[i + 1..]);
    ParseItemsSplit(fields[..i], single);
    assert fields[..i + 1] == fields[..i] + single;
    ParseSingle(fields[i]);
  }

  lemma DigitsAre(c: char)
    ensures IsDigit(c) <==> c in "0123456789"
  {
  }

  /** A field says a range: two numbers or one, around a dash, within bounds and in order. */
  ghost predicate Says(f: string, r: Range) {
    exists a, b ::
      && f == a + "-" + b && AllDigits(a) && AllDigits(b)
      && r.first == (if a == "" then -1 else DigitsValue(a)) <= SSIZE_MAX
      && r.last == (if b == "" then -1 else DigitsValue(b)) <= SSIZE_MAX
      && !(a == "" && b == "") && (a != "" && b != "" ==> r.first <= r.last)
  }

  lemma ItemExactly(f: string, r: Range)
    ensures ParseItem(f) == Some(r) <==> Says(f, r)
  {
    if ParseItem(f) == Some(r) {
      ItemSays(f, r);
    }
    if Says(f, r) {
      SaysItem(f, r);
    }
  }

  lemma ItemSays(f: string, r: Range)
    requires ParseItem(f) == Some(r)
    ensures Says(f, r)
  {
    FirstPiece(f, '-');
    var (a, b) := Divide(f, '-');
    assert f == a + "-" + b;
    hide Find, Divide, AllDigits;
    BoundIs(a);
    BoundIs(b);
  }

  lemma SaysItem(f: string, r: Range)
    requires Says(f, r)
    ensures ParseItem(f) == Some(r)
  {
    var a, b :|
      && f == a + "-" + b && AllDigits(a) && AllDigits(b)
      && r.first == (if a == "" then -1 else DigitsValue(a)) <= SSIZE_MAX
      && r.last == (if b == "" then -1 else DigitsValue(b)) <= SSIZE_MAX
      && !(a == "" && b == "") && (a != "" && b != "" ==> r.first <= r.last);
    assert '-' !in a && f == a + ['-'] + b;
    DivideAt(a, '-', b);
    FindCharIs(f, '-', 0, |a|);
    BoundIs(a);
    BoundIs(b);
    hide Find, Divide, AllDigits, Bound;
  }

  lemma {:induction false} BoundIs(s: string)
    requires AllDigits(s)
    ensures DigitsValue(s) >= 0
    ensures s == "" ==> Bound(s) == Some(-1)
    ensures s != "" ==> Bound(s) == if DigitsValue(s) <= SSIZE_MAX then Some(DigitsValue(s)) else None
  {
    if s != "" {
      BoundIs(s[..|s| - 1]);
    }
  }

  lemma {:induction false} ItemsExactly(fs: seq<string>, rs: seq<Range>)
    ensures ParseItems(fs) == Some(rs) <==> |fs| == |rs| && forall i :: 0 <= i < |fs| ==> Says(fs[i], rs[i])
    decreases |fs|
  {
    hide ParseItem, Says;
    if fs == [] {
      assert ParseItems(fs) == Some([]);
    } else if rs != [] {
      ItemExactly(fs[0], rs[0]);
      ItemsExactly(fs[1..], rs[1..]);
      ItemsStep(fs, rs);
    }
  }

  lemma ItemsStep(fs: seq<string>, rs: seq<Range>)
    requires fs != [] && rs != []
    ensures ParseItems(fs) == Some(rs) <==> ParseItem(fs[0]) == Some(rs[0]) && ParseItems(fs[1..]) == Some(rs[1..])
  {
    hide ParseItem;
    assert rs == [rs[0]] + rs[1..];
    if ParseItem(fs[0]).Some? && ParseItems(fs[1..]).Some? {
      var r, more := ParseItem(fs[0]).value, ParseItems(fs[1..]).value;
      assert ([r] + more)[0] == r && ([r] + more)[1..] == more;
    }
  }

  /** Exactly which header values are read, and as what: `bytes=` and one field or more, every one saying a range. */
  lemma HeaderExactly(s: string, rs: seq<Range>)
    ensures ParsedHeader(s) == Some(rs)
            <==> && "bytes=" <= s && rs != [] && |Fields(s[6..], ',')| == |rs|
                 && forall i :: 0 <= i < |rs| ==> Says(Fields(s[6..], ',')[i], rs[i])
  {
    assert |s| >= 6 ==> (s[..6] == "bytes=" <==> "bytes=" <= s);
    if "bytes=" <= s {
      var fs := Fields(s[6..], ',');
      ItemsExactly(fs, rs);
      if |s| <= 7 {
        ShortFields(s[6..]);
        assert rs != [] && |fs| == |rs| ==> fs[0] in fs;
      }
    }
  }

  /** One character is no range. */
  lemma ShortFields(t: string)
    requires |t| <= 1
    ensures forall f, r :: f in Fields(t, ',') ==> !Says(f, r)
  {
    if ',' in t {
      assert t == "" + [','] + "";
      FieldsStep("", ',', "");
    } else {
      FieldsStep(t, ',', "");
    }
    KeptOne(t);
    forall f, r | f in Fields(t, ',') ensures !Says(f, r) {
      OneCharacter(f, r);
    }
  }

  lemma OneCharacter(f: string, r: Range)
    requires |f| <= 1
    ensures !Says(f, r)
  {
  }

  lemma KeptOne(t: string)
    requires |t| <= 1
    ensures forall f :: f in Kept(t) ==> |f| <= 1
  {
    assert StripLeft("") == "" && StripRight("") == "";
    if t != "" {
      assert t[1..] == "" && t[..|t| - 1] == "";
      assert StripLeft(t) == t || StripLeft(t) == "";
      assert StripRight(t) == t || StripRight(t) == "";
    }
  }

  method ParseRangeHeader(s: string) returns (r: Option<seq<Range>>)
    ensures r == ParsedHeader(s)
  {
    if |s| > 7 && s[..6] == "bytes=" {
      var allValid, ranges: seq<Range> := true, [];
      var fields := Split(s[6..], ',');
      for i := 0 to |fields|
        invariant allValid ==> ParseItems(fields[..i]) == Some(ranges)
        invariant !allValid ==> ParseItems(fields) == None
      {
        if allValid {
          ParseUpTo(fields, i);
          hide ParseItems, ParseItem;
          match ParseItem(fields[i]) {
            case None => allValid := false;
            case Some(range) => ranges := ranges + [range];
          }
        }
      }
      assert fields[..|fields|] == fields;
      return if allValid && ranges != [] then Some(ranges) else None;
    }
    r := None;
  }

  lemma BoundRoundTrip(n: int)
    requires -1 <= n <= SSIZE_MAX
    ensures AllDigits(BoundText(n)) && Bound(BoundText(n)) == Some(n)
  {
    if n != -1 {
      DecimalValue(n);
    }
  }

  lemma ItemRoundTrip(r: Range)
    requires WellFormed(r)
    ensures ParseItem(ItemText(r)) == Some(r)
    ensures var t := ItemText(r); |t| >= 2 && ',' !in t && !IsBlank(t[0]) && !IsBlank(t[|t| - 1])
  {
    BoundRoundTrip(r.first);
    BoundRoundTrip(r.last);
    var a, b := BoundText(r.first), BoundText(r.last);
    assert ItemText(r) == a + ['-'] + b;
    DivideAt(a, '-', b);
    FindCharIs(a + ['-'] + b, '-', 0, |a|);
  }

  lemma {:induction false} ListRoundTrip(rs: seq<Range>, lead: string)
    requires rs != [] && (lead == "" || lead == " ")
    requires forall i :: 0 <= i < |rs| ==> WellFormed(rs[i])
    ensures |ListText(rs)| >= 2
    ensures ParseItems(Fields(lead + ListText(rs), ',')) == Some(rs)
    decreases |rs|
  {
    hide ItemText, ParseItem, Strip, Fields;
    var t := ItemText(rs[0]);
    ItemRoundTrip(rs[0]);
    ItemField(lead, t);
    ParseSingle(t);
    if |rs| == 1 {
      FieldsStep(lead + t, ',', "");
      assert rs == [rs[0]] && ListText(rs) == t;
    } else {
      ListRoundTrip(rs[1..], " ");
      FieldsStep(lead + t, ',', " " + ListText(rs[1..]));
      ListTextLead(rs, lead);
      ParseItemsSplit([t], Fields(" " + ListText(rs[1..]), ','));
      assert [rs[0]] + rs[1..] == rs;
    }
  }

  lemma ListTextLead(rs: seq<Range>, lead: string)
    requires |rs| > 1
    ensures lead + ListText(rs) == (lead + ItemText(rs[0])) + [','] + (" " + ListText(rs[1..]))
  {
    CommaLead(lead, ItemText(rs[0]), ListText(rs[1..]));
  }

  lemma CommaLead(lead: string, t: string, x: string)
    ensures lead + (t + (", " + x)) == (lead + t) + [','] + (" " + x)
  {
  }

  /** The blank that the printer puts behind a comma is trimmed off. */
  lemma ItemField(lead: string, t: string)
    requires lead == "" || lead == " "
    requires t != "" && !IsBlank(t[0]) && !IsBlank(t[|t| - 1])
    ensures Kept(lead + t) == [t]
  {
    StripLeadingBlanks(|lead|, t, lead);
    StripRightIs(t, |t|);
    assert t[..|t|] == t;
  }

  /** Parsing the printed header gives the ranges back exactly for the lists the header can say. */
  lemma HeaderRoundTrip(rs: seq<Range>)
    ensures ParsedHeader(HeaderText(rs)) == Some(rs)
            <==> rs != [] && forall i :: 0 <= i < |rs| ==> WellFormed(rs[i])
  {
    if rs != [] && forall i :: 0 <= i < |rs| ==> WellFormed(rs[i]) {
      ListRoundTrip(rs, "");
      assert "" + ListText(rs) == ListText(rs);
      assert HeaderText(rs)[6..] == ListText(rs);
      assert HeaderText(rs)[..6] == "bytes=";
    }
  }
}
