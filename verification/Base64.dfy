/** The base64 encoder of httplib.h: a bit accumulator that is never masked, against the block form of
    section 4 of RFC 4648 and a reference decoder. */
module Base64 {
  import opened Wrappers

  const ALPHABET := "ABCDEFGHIJKLMNOPQRSTUVWXYZ" + "abcdefghijklmnopqrstuvwxyz" + "0123456789+/"

  /** The table look-up, as arithmetic on character codes. */
  function Lookup(n: bv6): char {
    if n < 26 then (n as int + 65) as char
    else if n < 52 then (n as int + 71) as char
    else if n < 62 then (n as int - 4) as char
    else if n == 62 then '+' else '/'
  }

  lemma LookupIsTable(n: bv6)
    ensures |ALPHABET| == 64 && ALPHABET[n as int] == Lookup(n)
  {
  }

  // ---------------------------------------------------------------- the block form

  /** The four sextets of a three-byte block. */
  function S0(a: bv8): bv6 { (a >> 2) as bv6 }
  function S1(a: bv8, b: bv8): bv6 { (((a & 0x03) << 4) | (b >> 4)) as bv6 }
  function S2(b: bv8, c: bv8): bv6 { (((b & 0x0F) << 2) | (c >> 6)) as bv6 }
  function S3(c: bv8): bv6 { (c & 0x3F) as bv6 }

  function Quad(a: bv8, b: bv8, c: bv8): (r: string)
    ensures |r| == 4
  {
    [Lookup(S0(a)), Lookup(S1(a, b)), Lookup(S2(b, c)), Lookup(S3(c))]
  }

  /** Three bytes at a time; a last block of one or two bytes is padded with zero bits and `=`. */
  function Blocks(s: seq<bv8>): string
    decreases |s|
  {
    if |s| == 0 then ""
    else if |s| == 1 then Quad(s[0], 0, 0)[..2] + "=="
    else if |s| == 2 then Quad(s[0], s[1], 0)[..3] + "="
    else Quad(s[0], s[1], s[2]) + Blocks(s[3..])
  }

  lemma {:induction false} BlocksLength(s: seq<bv8>)
    ensures |Blocks(s)| == (|s| + 2) / 3 * 4
    decreases |s|
  {
    if |s| >= 3 {
      BlocksLength(s[3..]);
    }
  }

  // ---------------------------------------------------------------- the reference decoder

  /** The position of a character in the alphabet. */
  function Index(c: char): bv6 {
    if 'A' <= c <= 'Z' then (c as int - 65) as bv6
    else if 'a' <= c <= 'z' then (c as int - 71) as bv6
    else if '0' <= c <= '9' then (c as int + 4) as bv6
    else if c == '+' then 62
    else 63
  }

  lemma IndexLookup(n: bv6)
    ensures Index(Lookup(n)) == n && Lookup(n) != '='
  {
  }

  /** The three bytes of a block, from its sextets. */
  function B0(w: bv6, x: bv6): bv8 { ((w as bv8) << 2) | ((x as bv8) >> 4) }
  function B1(x: bv6, y: bv6): bv8 { ((x as bv8) << 4) | ((y as bv8) >> 2) }
  function B2(y: bv6, z: bv6): bv8 { ((y as bv8) << 6) | (z as bv8) }

  /** Reads four characters at a time, dropping the bytes that padding says are not there. */
  function Decode(t: string): seq<bv8>
    requires |t| % 4 == 0
    decreases |t|
  {
    if |t| == 0 then []
    else if t[2] == '=' then [B0(Index(t[0]), Index(t[1]))]
    else if t[3] == '=' then [B0(Index(t[0]), Index(t[1])), B1(Index(t[1]), Index(t[2]))]
    else [B0(Index(t[0]), Index(t[1])), B1(Index(t[1]), Index(t[2])), B2(Index(t[2]), Index(t[3]))] + Decode(t[4..])
  }

  lemma BytesOfSextets(a: bv8, b: bv8, c: bv8)
    ensures B0(S0(a), S1(a, b)) == a && B1(S1(a, b), S2(b, c)) == b && B2(S2(b, c), S3(c)) == c
  {
  }

  lemma DecodeQuad(a: bv8, b: bv8, c: bv8, rest: string)
    requires |rest| % 4 == 0
    ensures |Quad(a, b, c) + rest| % 4 == 0 && Decode(Quad(a, b, c) + rest) == [a, b, c] + Decode(rest)
    ensures c == 0 ==> Decode(Quad(a, b, 0)[..3] + "=") == [a, b]
    ensures b == c == 0 ==> Decode(Quad(a, 0, 0)[..2] + "==") == [a]
  {
    BytesOfSextets(a, b, c);
    IndexLookup(S0(a));
    IndexLookup(S1(a, b));
    IndexLookup(S2(b, c));
    IndexLookup(S3(c));
    assert (Quad(a, b, c) + rest)[4..] == rest;
  }

  lemma {:induction false} DecodeBlocks(s: seq<bv8>)
    ensures |Blocks(s)| % 4 == 0 && Decode(Blocks(s)) == s
    decreases |s|
  {
    hide Quad, Index, B0, B1, B2;
    BlocksLength(s);
    if |s| == 1 {
      DecodeQuad(s[0], 0, 0, "");
    } else if |s| == 2 {
      DecodeQuad(s[0], s[1], 0, "");
    } else if |s| >= 3 {
      DecodeBlocks(s[3..]);
      DecodeQuad(s[0], s[1], s[2], Blocks(s[3..]));
      assert s == [s[0], s[1], s[2]] + s[3..];
    }
  }

  // ---------------------------------------------------------------- the accumulator form

  /** `(val >> shift) & 0x3F`. The accumulator is a signed int; its sign bit is copied only into bits that
      the mask clears, so the bit pattern is all that matters. */
  function Take6(val: bv32, shift: nat): bv6
    requires shift <= 6
  {
    ((val >> shift) & 0x3F) as bv6
  }

  /** The bits that are ever read survive the overflow: the low sixteen hold the last two bytes. */
  lemma AccumulatorLow(val: bv32, c: bv8)
    ensures var v, prev := (val << 8) + c as bv32, (val & 0xFF) as bv8;
            && (v & 0xFF) as bv8 == c
            && Take6(v, 2) == S0(c) && Take6(v, 4) == S1(prev, c)
            && Take6(v, 6) == S2(prev, c) && Take6(v, 0) == S3(c)
  {
  }

  /** What has been pushed after the bytes `s`, before the last partial sextet and the padding. */
  function Pushed(s: seq<bv8>): string
    decreases |s|
  {
    if |s| == 0 then ""
    else if |s| == 1 then Quad(s[0], 0, 0)[..1]
    else if |s| == 2 then Quad(s[0], s[1], 0)[..2]
    else Quad(s[0], s[1], s[2]) + Pushed(s[3..])
  }

  function Last(s: seq<bv8>): bv8 { if s == [] then 0 else s[|s| - 1] }

  /** What one more byte pushes. */
  function Step(s: seq<bv8>, c: bv8): string {
    if |s| % 3 == 0 then [Lookup(S0(c))]
    else if |s| % 3 == 1 then [Lookup(S1(Last(s), c))]
    else [Lookup(S2(Last(s), c)), Lookup(S3(c))]
  }

  lemma {:induction false} PushedSnoc(s: seq<bv8>, c: bv8)
    ensures Pushed(s + [c]) == Pushed(s) + Step(s, c)
    decreases |s|
  {
    if |s| >= 3 {
      hide Quad, Lookup, S0, S1, S2, S3;
      PushedSnoc(s[3..], c);
      assert (s + [c])[3..] == s[3..] + [c];
      assert Step(s[3..], c) == Step(s, c) by {
        assert |s| > 3 ==> Last(s[3..]) == Last(s);
      }
      Regroup(Quad(s[0], s[1], s[2]), Pushed(s[3..]), Step(s, c));
    } else if |s| == 2 {
      assert (s + [c])[3..] == [];
    }
  }

  /** What the encoder appends at the end. */
  function Closing(s: seq<bv8>): string {
    if |s| % 3 == 0 then ""
    else if |s| % 3 == 1 then [Lookup(S1(Last(s), 0)), '=', '=']
    else [Lookup(S2(Last(s), 0)), '=']
  }

  lemma {:induction false} PushedLength(s: seq<bv8>)
    ensures |Pushed(s)| == |s| / 3 * 4 + |s| % 3
    decreases |s|
  {
    hide Quad;
    if |s| >= 3 {
      PushedLength(s[3..]);
    }
  }

  lemma {:induction false} PushedBlocks(s: seq<bv8>)
    ensures Blocks(s) == Pushed(s) + Closing(s)
    decreases |s|
  {
    if |s| >= 3 {
      hide Quad, Lookup;
      PushedBlocks(s[3..]);
      assert |s| > 3 ==> Last(s[3..]) == Last(s);
      Regroup(Quad(s[0], s[1], s[2]), Pushed(s[3..]), Closing(s));
    }
  }

  /** The inner loop of the encoder: while at least six bits are unread, push the top six. */
  method PushSextets(val: bv32, start: int, ghost s: seq<bv8>, ghost c: bv8) returns (pushed: string, valb: int)
    requires start == if |s| % 3 == 0 then 2 else if |s| % 3 == 1 then 4 else 6
    requires Take6(val, 2) == S0(c) && Take6(val, 4) == S1(Last(s), c)
    requires Take6(val, 6) == S2(Last(s), c) && Take6(val, 0) == S3(c)
    ensures pushed == Step(s, c)
    ensures valb == if |s| % 3 == 0 then -4 else if |s| % 3 == 1 then -2 else -6
  {
    pushed, valb := "", start;
    while valb >= 0
      invariant (valb == start && pushed == "")
             || (valb == start - 6 && pushed == [Step(s, c)[0]])
             || (valb == start - 12 == -6 && pushed == Step(s, c))
    {
      pushed := pushed + [Lookup(Take6(val, valb))];
      valb := valb - 6;
    }
  }

  /** The main loop: after it everything but the last partial sextet is out. */
  method Accumulate(input: seq<bv8>) returns (out: string, val: bv32, valb: int)
    ensures out == Pushed(input)
    ensures valb == if |input| % 3 == 0 then -6 else if |input| % 3 == 1 then -4 else -2
    ensures (val & 0xFF) as bv8 == Last(input)
  {
    hide Pushed, Step, Take6, S0, S1, S2, S3;
    out, val, valb := "", 0, -6;
    PushedEmpty();
    for i := 0 to |input|
      invariant out == Pushed(input[..i])
      invariant valb == if i % 3 == 0 then -6 else if i % 3 == 1 then -4 else -2
      invariant (val & 0xFF) as bv8 == Last(input[..i])
    {
      PushedSnoc(input[..i], input[i]);
      assert input[..i + 1] == input[..i] + [input[i]];
      AccumulatorLow(val, input[i]);
      val := (val << 8) + input[i] as bv32;
      var pushed;
      pushed, valb := PushSextets(val, valb + 8, input[..i], input[i]);
      out := out + pushed;
    }
    assert input[..|input|] == input;
  }

  lemma PushedEmpty()
    ensures Pushed([]) == ""
  {
  }

  /** `base64_encode`: for every input the accumulator form equals the block form. */
  method Encode(input: seq<bv8>) returns (out: string)
    ensures out == Blocks(input)
    ensures |out| == (|input| + 2) / 3 * 4
    ensures Decode(out) == input
  {
    hide Pushed, Take6, Lookup, S0, S1, S2, S3, Blocks, Decode;
    var val, valb;
    out, val, valb := Accumulate(input);
    PushedLength(input);
    ghost var pushed := out;
    if valb > -6 {
      AccumulatorLow(val, 0);
      out := out + [Lookup(Take6(val << 8, valb + 8))];
      ClosingIs(input, Take6(val << 8, valb + 8), pushed);
    }
    out := Pad(out);
    PushedBlocks(input);
    BlocksLength(input);
    DecodeBlocks(input);
  }

  lemma ClosingIs(s: seq<bv8>, last: bv6, pushed: string)
    requires |s| % 3 != 0 && last == if |s| % 3 == 1 then S1(Last(s), 0) else S2(Last(s), 0)
    ensures pushed + [Lookup(last)] + Padding(|s| % 3 + 1) == pushed + Closing(s)
  {
    hide Lookup, S1, S2;
  }

  /** The `=` signs that bring a text of length `n` modulo four to a multiple of four. */
  function Padding(n: nat): (r: string)
    ensures n < 4 ==> |r| == (4 - n) % 4
  {
    if n == 1 then "===" else if n == 2 then "==" else if n == 3 then "=" else ""
  }

  method Pad(s: string) returns (out: string)
    ensures out == s + Padding(|s| % 4)
  {
    hide Padding;
    out := s;
    ghost var k := 0;
    while |out| % 4 != 0
      invariant k <= |Padding(|s| % 4)| && out == s + Padding(|s| % 4)[..k]
      decreases 4 - k
    {
      PadMore(s, k);
      out := out + ['='];
      k := k + 1;
    }
  }

  lemma PadMore(s: string, k: nat)
    requires k < |Padding(|s| % 4)|
    ensures (s + Padding(|s| % 4)[..k]) + ['='] == s + Padding(|s| % 4)[..k + 1]
  {
    assert Padding(|s| % 4)[k] == '=';
  }
}
