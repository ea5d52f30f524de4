/** How the chunks matter to the multipart parser of httplib.h: which items it reads when opening lines are cut, and
    exactly which forms it reads in every chunking. */
module MultipartChunks {
  import opened Wrappers
  import opened Scanning
  import opened FormHeaders
  import opened FormNames
  import opened Multipart
  import opened MultipartRoundTrip
  import Q = Query

  lemma FeedAllStep(p: Parser, c: string, chunks: seq<string>, boundary: string, accept: Receivers)
    ensures var (q, ok) := Feed(p, c, boundary, accept);
            FeedAll(p, [c] + chunks, boundary, accept) == if ok then FeedAll(q, chunks, boundary, accept) else (q, false)
    ensures Concat([c] + chunks) == c + Concat(chunks)
  {
    hide Feed;
    assert ([c] + chunks)[1..] == chunks;
  }

  // ---------------------------------------------------------------- opening lines in pieces

  /** Where item `i` starts in the serialized form. */
  function Start(items: seq<Item>, i: nat, boundary: string): nat
    requires i <= |items|
  {
    |Parts(items[..i], boundary)|
  }

  lemma {:induction false} SerializedFrom(items: seq<Item>, i: nat, boundary: string)
    requires i <= |items|
    ensures Start(items, i, boundary) <= |Serialized(items, boundary)|
    ensures Serialized(items, boundary)[Start(items, i, boundary)..] == Serialized(items[i..], boundary)
    decreases i
  {
    hide ItemBegin, Finish;
    if i == 0 {
      assert items[0..] == items && items[..0] == [];
    } else {
      var head := ItemBegin(items[0], boundary) + items[0].content + CRLF;
      SerializedFrom(items[1..], i - 1, boundary);
      assert items[..i][1..] == items[1..][..i - 1] && items[..i][0] == items[0] && items[1..][i - 1..] == items[i..];
      Regroup(head, Parts(items[1..], boundary), Finish(boundary));
      var tail, n := Serialized(items[1..], boundary), Start(items[1..], i - 1, boundary);
      assert (head + tail)[|head| + n..] == tail[n..];
    }
  }

  lemma {:induction false} StartsAscend(items: seq<Item>, i: nat, j: nat, boundary: string)
    requires i < j <= |items|
    ensures Start(items, i, boundary) < Start(items, j, boundary)
    decreases i
  {
    assert items[..j][1..] == items[1..][..j - 1] && items[..j][0] == items[0];
    if i > 0 {
      assert items[..i][1..] == items[1..][..i - 1] && items[..i][0] == items[0];
      StartsAscend(items[1..], i - 1, j - 1, boundary);
    }
  }

  /** The opening line occurs nowhere but where an item starts. */
  ghost predicate OpensOnlyItems(items: seq<Item>, boundary: string) {
    forall j: nat :: OccursAt(Serialized(items, boundary), Opening(boundary), j) ==>
      exists i :: 0 <= i < |items| && j == Start(items, i, boundary)
  }

  /** Of a text that comes in chunks from position `off` on, the `len` bytes at `pos` lie in one chunk. */
  predicate Whole(off: nat, chunks: seq<string>, pos: nat, len: nat)
    decreases |chunks|
  {
    chunks != [] &&
    ((off <= pos && pos + len <= off + |chunks[0]|) || Whole(off + |chunks[0]|, chunks[1..], pos, len))
  }

  lemma {:induction false} WholeIsAhead(off: nat, chunks: seq<string>, pos: nat, len: nat)
    requires Whole(off, chunks, pos, len)
    ensures off <= pos
    decreases |chunks|
  {
    if !(off <= pos && pos + len <= off + |chunks[0]|) {
      WholeIsAhead(off + |chunks[0]|, chunks[1..], pos, len);
    }
  }

  /** The first item, from `i` on, whose opening line lies whole in one chunk; their number if there is none. */
  function FirstWhole(items: seq<Item>, boundary: string, chunks: seq<string>, i: nat): (k: nat)
    requires i <= |items|
    ensures i <= k <= |items|
    ensures forall j :: i <= j < k ==> !Whole(0, chunks, Start(items, j, boundary), |Opening(boundary)|)
    ensures k < |items| ==> Whole(0, chunks, Start(items, k, boundary), |Opening(boundary)|)
    decreases |items| - i
  {
    if i == |items| || Whole(0, chunks, Start(items, i, boundary), |Opening(boundary)|) then i
    else FirstWhole(items, boundary, chunks, i + 1)
  }

  /** What does not hold the whole opening line is dropped. */
  lemma FeedUnopened(c: string, boundary: string, accept: Receivers)
    requires forall j: nat :: !OccursAt(c, Opening(boundary), j)
    ensures Feed(FRESH, c, boundary, accept) == (FRESH, true)
  {
    var p := FRESH.(buf := FRESH.buf + c);
    assert p.buf == c;
    if c != "" {
      FindNone(c, Opening(boundary), 0);
      assert c[|c|..] == "";
      assert AtOpening(p, boundary) == Return(FRESH, true);
    }
  }

  /** What stands before the opening line is dropped. */
  lemma FeedOpening(c: string, r: nat, tail: string, boundary: string, accept: Receivers)
    requires OccursAt(c, Opening(boundary), r) && forall j: nat :: j < r ==> !OccursAt(c, Opening(boundary), j)
    requires r + |Opening(boundary)| <= |c| && tail == c[r + |Opening(boundary)|..]
    ensures Feed(FRESH, c, boundary, accept) == Run(FRESH.(state := NewEntry, buf := tail), boundary, accept)
  {
    var o, p := Opening(boundary), FRESH.(buf := FRESH.buf + c);
    assert p.buf == c;
    FindIs(c, o, 0, r);
    hide Find, FindFrom, OccursAt, Opening;
    CutOpening(c, o, r);
    assert AtOpening(p, boundary) == Next(FRESH.(state := NewEntry, buf := c[r + |o|..]));
  }

  lemma CutOpening(c: string, o: string, r: nat)
    requires OccursAt(c, o, r)
    ensures r + |o| <= |c| && o <= c[r..] && c[r..][|o|..] == c[r + |o|..]
  {
    assert c[r..][..|o|] == c[r..r + |o|];
  }

  /** Occurrences in a chunk are item starts that lie whole in it. */
  lemma ChunkOccurrence(items: seq<Item>, boundary: string, pre: string, c: string, rest: string, j: nat)
    returns (i: nat)
    requires pre + (c + rest) == Serialized(items, boundary) && OpensOnlyItems(items, boundary)
    requires OccursAt(c, Opening(boundary), j)
    ensures i < |items| && Start(items, i, boundary) == |pre| + j
  {
    var s, o := Serialized(items, boundary), Opening(boundary);
    assert s[|pre| + j..|pre| + j + |o|] == c[j..j + |o|];
    assert OccursAt(s, o, |pre| + j);
    i :| 0 <= i < |items| && |pre| + j == Start(items, i, boundary);
  }

  lemma OpeningAt(items: seq<Item>, boundary: string, k: nat)
    requires k < |items|
    ensures var (s, n, o) := (Serialized(items, boundary), Start(items, k, boundary), Opening(boundary));
            n + |o| <= |s| && s[n..n + |o|] == o && s[n + |o|..] == FromEntry(items[k..], boundary)
  {
    var s, n, o := Serialized(items, boundary), Start(items, k, boundary), Opening(boundary);
    SerializedFrom(items, k, boundary);
    SerializedIs(items[k..], boundary);
    var t := s[n..];
    assert t[..|o|] == o && t[|o|..] == FromEntry(items[k..], boundary);
    assert s[n..n + |o|] == t[..|o|] && s[n + |o|..] == t[|o|..];
  }

  lemma {:induction false} ReadsFrom(items: seq<Item>, boundary: string, pre: string, chunks: seq<string>, k: nat,
                                     accept: Receivers)
    requires AllCarriable(items, boundary) && Accepting(accept, items) && OpensOnlyItems(items, boundary)
    requires pre + Concat(chunks) == Serialized(items, boundary) && k <= |items|
    requires forall i :: 0 <= i < k ==> !Whole(|pre|, chunks, Start(items, i, boundary), |Opening(boundary)|)
    requires k < |items| ==> Whole(|pre|, chunks, Start(items, k, boundary), |Opening(boundary)|)
    ensures var (q, ok) := FeedAll(FRESH, chunks, boundary, accept);
            ok && Collect(q.events) == items[k..] && (q.isValid <==> k < |items|)
    decreases |chunks|
  {
    hide AllCarriable, Accepting, OpensOnlyItems, Collect, Serialized, Opening, OccursAt, Feed;
    if chunks == [] {
      NothingCollected();
    } else {
      var c, rest, o := chunks[0], Concat(chunks[1..]), |Opening(boundary)|;
      assert chunks == [c] + chunks[1..];
      FeedAllStep(FRESH, c, chunks[1..], boundary, accept);
      if k < |items| && |pre| <= Start(items, k, boundary) && Start(items, k, boundary) + o <= |pre| + |c| {
        ReadsHere(items, boundary, pre, chunks, k, accept);
      } else {
        forall j: nat ensures !OccursAt(c, Opening(boundary), j) {
          if OccursAt(c, Opening(boundary), j) {
            Fits(c, Opening(boundary), j);
            var i := ChunkOccurrence(items, boundary, pre, c, rest, j);
            assert k < |items| ==> |pre| <= Start(items, k, boundary) by {
              if k < |items| { WholeIsAhead(|pre|, chunks, Start(items, k, boundary), o); }
            }
            if k < i { StartsAscend(items, k, i, boundary); }
            assert Whole(|pre|, chunks, Start(items, i, boundary), o);
            assert false;
          }
        }
        FeedUnopened(c, boundary, accept);
        Regroup(pre, c, rest);
        ReadsFrom(items, boundary, pre + c, chunks[1..], k, accept);
      }
    }
  }

  lemma NothingCollected()
    ensures Collect(FRESH.events) == []
  {
  }

  lemma Fits(s: string, pat: string, j: nat)
    requires OccursAt(s, pat, j)
    ensures j + |pat| <= |s|
  {
  }

  /** The chunk in which item `k` is the first to open. */
  lemma ReadsHere(items: seq<Item>, boundary: string, pre: string, chunks: seq<string>, k: nat, accept: Receivers)
    requires AllCarriable(items, boundary) && Accepting(accept, items) && OpensOnlyItems(items, boundary)
    requires pre + Concat(chunks) == Serialized(items, boundary) && k < |items| && chunks != []
    requires forall i :: 0 <= i < k ==> !Whole(|pre|, chunks, Start(items, i, boundary), |Opening(boundary)|)
    requires |pre| <= Start(items, k, boundary)
    requires Start(items, k, boundary) + |Opening(boundary)| <= |pre| + |chunks[0]|
    ensures var (q, ok) := FeedAll(FRESH, chunks, boundary, accept); ok && q.isValid && Collect(q.events) == items[k..]
  {
    hide *;
    var todo := items[k..];
    var r, tail := FirstHere(items, boundary, pre, chunks, k);
    FeedOpening(chunks[0], r, tail, boundary, accept);
    SomeAccepted(items, k, boundary, accept);
    ReadFromEntry(todo, boundary, chunks, tail, accept);
  }

  lemma FirstHere(items: seq<Item>, boundary: string, pre: string, chunks: seq<string>, k: nat)
    returns (r: nat, tail: string)
    requires OpensOnlyItems(items, boundary)
    requires pre + Concat(chunks) == Serialized(items, boundary) && k < |items| && chunks != []
    requires forall i :: 0 <= i < k ==> !Whole(|pre|, chunks, Start(items, i, boundary), |Opening(boundary)|)
    requires |pre| <= Start(items, k, boundary)
    requires Start(items, k, boundary) + |Opening(boundary)| <= |pre| + |chunks[0]|
    ensures OccursAt(chunks[0], Opening(boundary), r) && r + |Opening(boundary)| <= |chunks[0]|
    ensures tail == chunks[0][r + |Opening(boundary)|..]
    ensures forall j: nat :: j < r ==> !OccursAt(chunks[0], Opening(boundary), j)
    ensures tail + Concat(chunks[1..]) == FromEntry(items[k..], boundary)
  {
    var c, rest, n := chunks[0], Concat(chunks[1..]), Start(items, k, boundary);
    r := n - |pre|;
    assert Concat(chunks) == c + rest;
    hide Serialized, Opening, FromEntry, Concat, Start;
    tail := OpeningIn(items, boundary, k, pre, c, rest);
    forall j: nat | j < r ensures !OccursAt(c, Opening(boundary), j) {
      if OccursAt(c, Opening(boundary), j) {
        NoneBefore(items, boundary, pre, chunks, k, j);
      }
    }
  }

  lemma OpeningIn(items: seq<Item>, boundary: string, k: nat, pre: string, c: string, rest: string)
    returns (tail: string)
    requires k < |items| && pre + (c + rest) == Serialized(items, boundary)
    requires |pre| <= Start(items, k, boundary)
    requires Start(items, k, boundary) + |Opening(boundary)| <= |pre| + |c|
    ensures var (r, o) := (Start(items, k, boundary) - |pre|, Opening(boundary));
            OccursAt(c, o, r) && tail == c[r + |o|..] && tail + rest == FromEntry(items[k..], boundary)
  {
    hide Serialized, Opening, FromEntry, Start;
    OpeningAt(items, boundary, k);
    tail := Shifted(pre, c, rest, Start(items, k, boundary), |Opening(boundary)|);
  }

  /** A slice of the whole as a slice of its middle part. */
  lemma Shifted(pre: string, c: string, rest: string, n: nat, len: nat) returns (tail: string)
    requires |pre| <= n && n + len <= |pre| + |c|
    ensures var (s, r) := (pre + (c + rest), n - |pre|);
            c[r..r + len] == s[n..n + len] && tail == c[r + len..] && tail + rest == s[n + len..]
  {
    tail := c[n - |pre| + len..];
  }

  lemma NoneBefore(items: seq<Item>, boundary: string, pre: string, chunks: seq<string>, k: nat, j: nat)
    requires OpensOnlyItems(items, boundary)
    requires pre + Concat(chunks) == Serialized(items, boundary) && k < |items| && chunks != []
    requires forall i :: 0 <= i < k ==> !Whole(|pre|, chunks, Start(items, i, boundary), |Opening(boundary)|)
    requires OccursAt(chunks[0], Opening(boundary), j)
    ensures |pre| + j >= Start(items, k, boundary)
  {
    assert Concat(chunks) == chunks[0] + Concat(chunks[1..]);
    var i := ChunkOccurrence(items, boundary, pre, chunks[0], Concat(chunks[1..]), j);
    hide Serialized, Opening, Concat, Start, OpensOnlyItems;
    Fits(chunks[0], Opening(boundary), j);
    if k < i { StartsAscend(items, k, i, boundary); }
    assert Whole(|pre|, chunks, Start(items, i, boundary), |Opening(boundary)|);
  }

  lemma SomeAccepted(items: seq<Item>, k: nat, boundary: string, accept: Receivers)
    requires k <= |items| && AllCarriable(items, boundary) && Accepting(accept, items)
    ensures AllCarriable(items[k..], boundary) && Accepting(accept, items[k..])
  {
  }

  /** For every chunking: the parser reads the items from the first one on whose opening line lies whole in one
      chunk, and is valid if there is such an item. All items before are lost without an error. */
  lemma ReadsFromFirstWhole(items: seq<Item>, boundary: string, chunks: seq<string>, accept: Receivers)
    requires AllCarriable(items, boundary) && Accepting(accept, items) && OpensOnlyItems(items, boundary)
    requires Concat(chunks) == Serialized(items, boundary)
    ensures var k := FirstWhole(items, boundary, chunks, 0);
            var (q, ok) := FeedAll(FRESH, chunks, boundary, accept);
            ok && Collect(q.events) == items[k..] && (q.isValid <==> k < |items|)
  {
    assert "" + Concat(chunks) == Concat(chunks);
    hide AllCarriable, Accepting, OpensOnlyItems, FeedAll, Collect, Serialized, Opening, Concat, Start;
    ReadsFrom(items, boundary, "", chunks, FirstWhole(items, boundary, chunks, 0), accept);
  }

  /** So nothing is lost if and only if the first opening line comes in one chunk. */
  lemma OpeningLineMustBeWhole(items: seq<Item>, boundary: string, chunks: seq<string>, accept: Receivers)
    requires items != [] && AllCarriable(items, boundary) && Accepting(accept, items) && OpensOnlyItems(items, boundary)
    requires Concat(chunks) == Serialized(items, boundary)
    ensures var (q, ok) := FeedAll(FRESH, chunks, boundary, accept);
            ok && (q.isValid && Collect(q.events) == items <==> Whole(0, chunks, 0, |Opening(boundary)|))
  {
    ReadsFromFirstWhole(items, boundary, chunks, accept);
    hide FeedAll, AllCarriable, Accepting, OpensOnlyItems, Whole;
    var k := FirstWhole(items, boundary, chunks, 0);
    assert items[..0] == [] && Start(items, 0, boundary) == 0;
    assert k == 0 ==> items[0..] == items;
    assert k > 0 ==> |items[k..]| < |items|;
  }
}
