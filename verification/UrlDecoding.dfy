/** What the percent decoder of httplib.h makes of any text at all: bytes, code points written as `%u` and four digits,
    percent signs that start nothing, and plus signs. */
module UrlDecoding {
  import opened Wrappers
  import opened Query

  // ---------------------------------------------------------------- digits

  lemma HexDigits(c: char)
    ensures HexValue(c).Some? <==> c in "0123456789abcdefABCDEF"
  {
  }

  /** A digit has the value of its place among the sixteen, in either letter case. */
  lemma HexMeans(c: char)
    requires c in "0123456789abcdefABCDEF"
    ensures var v := HexValue(c).value;
            v < 16 && ("0123456789abcdef"[v] == c || "0123456789ABCDEF"[v] == c)
  {
    HexDigits(c);
  }

  // ---------------------------------------------------------------- UTF-8

  predicate Tail(c: char) { 0x80 <= c as int < 0xC0 }

  /** The code point of a well-formed sequence of bytes, by the syntax in section 4 of RFC 3629. */
  function CodePoint(b: string): Option<nat> {
    match |b|
    case 1 => if b[0] as int < 0x80 then Some(b[0] as int) else None
    case 2 => CodePoint2(b[0] as int, b[1])
    case 3 => CodePoint3(b[0] as int, b[1], b[2])
    case 4 => CodePoint4(b[0] as int, b[1], b[2], b[3])
    case _ => None
  }

  function CodePoint2(a: int, b: char): Option<nat> {
    if 0xC2 <= a < 0xE0 && Tail(b) then Some((a - 0xC0) * 0x40 + (b as int - 0x80)) else None
  }

  function CodePoint3(a: int, b: char, c: char): Option<nat> {
    if 0xE0 <= a < 0xF0 && Tail(b) && Tail(c) && (a == 0xE0 ==> 0xA0 <= b as int) && (a == 0xED ==> b as int < 0xA0)
    then Some((a - 0xE0) * 0x1000 + (b as int - 0x80) * 0x40 + (c as int - 0x80)) else None
  }

  function CodePoint4(a: int, b: char, c: char, d: char): Option<nat> {
    if 0xF0 <= a < 0xF5 && Tail(b) && Tail(c) && Tail(d) && (a == 0xF0 ==> 0x90 <= b as int) && (a == 0xF4 ==> b as int < 0x90)
    then Some((a - 0xF0) * 0x40000 + (b as int - 0x80) * 0x1000 + (c as int - 0x80) * 0x40 + (d as int - 0x80)) else None
  }

  lemma Digits2(code: nat)
    requires 0x80 <= code < 0x800
    ensures CodePoint2(0xC0 + code / 64, (0x80 + code % 64) as char) == Some(code)
  {
  }

  lemma Digits3(code: nat)
    requires 0x800 <= code < 0x10000 && !(0xD800 <= code < 0xE000)
    ensures CodePoint3(0xE0 + code / 4096, (0x80 + code / 64 % 64) as char, (0x80 + code % 64) as char) == Some(code)
  {
    var a, b, c := code / 4096, code / 64 % 64, code % 64;
    assert code == a * 4096 + b * 64 + c;
  }

  lemma Digits4(code: nat)
    requires 0x10000 <= code < 0x110000
    ensures CodePoint4(0xF0 + code / 262144 % 8, (0x80 + code / 4096 % 64) as char,
                       (0x80 + code / 64 % 64) as char, (0x80 + code % 64) as char) == Some(code)
  {
    var a, b, c, d := code / 262144, code / 4096 % 64, code / 64 % 64, code % 64;
    assert a < 8 && code / 64 == a * 4096 + b * 64 + c && code == a * 262144 + b * 4096 + c * 64 + d;
  }

  /** Every code point but a surrogate is written as the sequence that stands for it, and nothing else is written. */
  lemma Utf8Exactly(code: nat)
    ensures Utf8(code) == "" <==> 0xD800 <= code < 0xE000 || code >= 0x110000
    ensures Utf8(code) != "" ==> CodePoint(Utf8(code)) == Some(code)
  {
    hide CodePoint2, CodePoint3, CodePoint4;
    if 0x80 <= code < 0x800 {
      Digits2(code);
    } else if 0x800 <= code < 0x10000 && !(0xD800 <= code < 0xE000) {
      Digits3(code);
    } else if 0x10000 <= code < 0x110000 {
      Digits4(code);
    }
  }

  // ---------------------------------------------------------------- tokens

  /** What a text consists of: characters, escaped bytes, escaped code points. */
  datatype Token = Single(c: char) | Byte(hex: string) | Unicode(hex: string)

  predicate Hex(c: char) { HexValue(c).Some? }

  predicate StartsHex(s: string, n: nat) { n <= |s| && forall i :: 0 <= i < n ==> Hex(s[i]) }

  function TokenText(t: Token): string {
    match t
    case Single(c) => [c]
    case Byte(hex) => "%" + hex
    case Unicode(hex) => "%u" + hex
  }

  function Text(ts: seq<Token>): string { if ts == [] then "" else TokenText(ts[0]) + Text(ts[1..]) }

  /** Escapes have two or four digits. */
  predicate Shaped(t: Token) {
    match t
    case Single(_) => true
    case Byte(hex) => |hex| == 2 && StartsHex(hex, 2)
    case Unicode(hex) => |hex| == 4 && StartsHex(hex, 4)
  }

  /** What would make a percent sign in front of it an escape. */
  predicate Escape(rest: string) { if rest != "" && rest[0] == 'u' then StartsHex(rest[1..], 4) else StartsHex(rest, 2) }

  /** Tokens as the decoder sees them: a percent sign stands alone only where it starts no escape. */
  predicate Proper(ts: seq<Token>) {
    ts == [] || (Shaped(ts[0]) && (ts[0] == Single('%') ==> !Escape(Text(ts[1..]))) && Proper(ts[1..]))
  }

  function Two(h: string): (v: nat)
    requires |h| == 2 && StartsHex(h, 2)
    ensures v < 256
  {
    HexValue(h[0]).value * 16 + HexValue(h[1]).value
  }

  function Meaning(t: Token, plus: bool): string
    requires Shaped(t)
  {
    match t
    case Single(c) => if plus && c == '+' then " " else [c]
    case Byte(hex) => [Two(hex) as char]
    case Unicode(hex) => Utf8(Two(hex[..2]) * 256 + Two(hex[2..]))
  }

  function Meanings(ts: seq<Token>, plus: bool): string
    requires Proper(ts)
  {
    if ts == [] then "" else Meaning(ts[0], plus) + Meanings(ts[1..], plus)
  }

  lemma RunOfTwo(s: string, i: nat)
    requires i <= |s|
    ensures HexRun(s, i, 2, 0) == if StartsHex(s[i..], 2) then Some(Two(s[i..i + 2])) else None
  {
    if i < |s| && Hex(s[i]) {
      var v := HexValue(s[i]).value;
      assert HexRun(s, i, 2, 0) == HexRun(s, i + 1, 1, v);
      assert i + 1 < |s| && Hex(s[i + 1]) ==> HexRun(s, i + 1, 1, v) == HexRun(s, i + 2, 0, v * 16 + HexValue(s[i + 1]).value);
    }
  }

  lemma RunOfFour(s: string, i: nat)
    requires i <= |s|
    ensures HexRun(s, i, 4, 0) == if StartsHex(s[i..], 4) then Some(Two(s[i..i + 2]) * 256 + Two(s[i + 2..i + 4])) else None
  {
    if StartsHex(s[i..], 4) {
      var a, b, c, d := s[i..][0], s[i..][1], s[i..][2], s[i..][3];
      assert s[i] == a && s[i + 1] == b && s[i + 2] == c && s[i + 3] == d;
      hide HexValue, StartsHex;
      FourDigits(s, i);
    } else {
      NotFour(s, i, 4, 0);
    }
  }

  lemma FourDigits(s: string, i: nat)
    requires i + 4 <= |s| && Hex(s[i]) && Hex(s[i + 1]) && Hex(s[i + 2]) && Hex(s[i + 3])
    ensures HexRun(s, i, 4, 0) == Some(Two(s[i..i + 2]) * 256 + Two(s[i + 2..i + 4]))
  {
    hide HexValue;
    var v := HexValue(s[i]).value * 16 + HexValue(s[i + 1]).value;
    var w := v * 16 + HexValue(s[i + 2]).value;
    assert HexRun(s, i, 4, 0) == HexRun(s, i + 1, 3, HexValue(s[i]).value) == HexRun(s, i + 2, 2, v);
    assert HexRun(s, i + 2, 2, v) == HexRun(s, i + 3, 1, w) == HexRun(s, i + 4, 0, w * 16 + HexValue(s[i + 3]).value);
  }

  lemma {:induction false} NotFour(s: string, i: nat, cnt: nat, acc: nat)
    requires i <= |s| && !StartsHex(s[i..], cnt)
    ensures HexRun(s, i, cnt, acc) == None
    decreases cnt
  {
    if i < |s| && Hex(s[i]) {
      assert s[i + 1..] == s[i..][1..];
      NotFour(s, i + 1, cnt - 1, acc * 16 + HexValue(s[i]).value);
    }
  }

  /** One round of the decoder takes one token. */
  lemma StepTakes(s: string, i: nat, t: Token, rest: string, plus: bool)
    requires i <= |s| && s[i..] == TokenText(t) + rest && Shaped(t) && (t == Single('%') ==> !Escape(rest))
    ensures i < |s| && DecodeStep(s, i, plus) == (Meaning(t, plus), |TokenText(t)|)
  {
    match t
    case Single(c) => StepSingle(s, i, c, rest, plus);
    case Byte(hex) => StepByte(s, i, hex, rest, plus);
    case Unicode(hex) => StepUnicode(s, i, hex, rest, plus);
  }

  lemma StepSingle(s: string, i: nat, c: char, rest: string, plus: bool)
    requires i <= |s| && s[i..] == [c] + rest && (c == '%' ==> !Escape(rest))
    ensures i < |s| && DecodeStep(s, i, plus) == (Meaning(Single(c), plus), 1)
  {
    hide HexRun, Utf8, Two;
    assert s[i] == s[i..][0] && s[i + 1..] == s[i..][1..] == rest;
    if c == '%' && rest != "" {
      RunOfTwo(s, i + 1);
      assert s[i + 1..][1..] == s[i + 2..];
      RunOfFour(s, i + 2);
    }
  }

  lemma StepByte(s: string, i: nat, hex: string, rest: string, plus: bool)
    requires i <= |s| && s[i..] == "%" + hex + rest && Shaped(Byte(hex))
    ensures i < |s| && DecodeStep(s, i, plus) == (Meaning(Byte(hex), plus), 3)
  {
    hide HexRun, Utf8, Two;
    NotU(hex);
    assert s[i] == s[i..][0] && s[i + 1..] == s[i..][1..] == hex + rest;
    assert s[i + 1] == s[i + 1..][0] && s[i + 1..i + 3] == (hex + rest)[..2] == hex;
    RunOfTwo(s, i + 1);
  }

  lemma StepUnicode(s: string, i: nat, hex: string, rest: string, plus: bool)
    requires i <= |s| && s[i..] == "%u" + hex + rest && Shaped(Unicode(hex))
    ensures i < |s| && DecodeStep(s, i, plus) == (Meaning(Unicode(hex), plus), 6)
  {
    hide HexRun, Utf8, Two;
    assert s[i] == s[i..][0] && s[i + 1] == s[i..][1] && s[i + 2..] == s[i..][2..] == hex + rest;
    assert s[i + 2..i + 4] == (hex + rest)[..2] == hex[..2] && s[i + 4..i + 6] == (hex + rest)[2..4] == hex[2..];
    RunOfFour(s, i + 2);
  }

  lemma NotU(hex: string)
    requires StartsHex(hex, 2)
    ensures hex[0] != 'u'
  {
  }

  lemma {:induction false} DecodesTokens(pre: string, ts: seq<Token>, plus: bool)
    requires Proper(ts)
    ensures DecodedFrom(pre + Text(ts), |pre|, plus) == Meanings(ts, plus)
    decreases |ts|
  {
    if ts == [] {
      assert pre + "" == pre;
    } else {
      hide DecodeStep, DecodedFrom, Meaning, TokenText, Escape, Shaped;
      var t, rest := TokenText(ts[0]), Text(ts[1..]);
      Regroup(pre, t, rest);
      var s := pre + t + rest;
      assert s[|pre|..] == t + rest && |pre + t| == |pre| + |t|;
      StepTakes(s, |pre|, ts[0], rest, plus);
      DecodeUnfold(s, |pre|, plus);
      DecodesTokens(pre + t, ts[1..], plus);
    }
  }

  /** Any text, read as its tokens: each contributes its meaning, in order. */
  lemma DecodeMeans(ts: seq<Token>, plus: bool)
    requires Proper(ts)
    ensures Decoded(Text(ts), plus) == Meanings(ts, plus)
  {
    DecodesTokens("", ts, plus);
    assert "" + Text(ts) == Text(ts);
  }

  /** Every text is the text of some proper tokens, so that the decoder's meaning is fixed on all inputs. */
  lemma {:induction false} EveryText(s: string) returns (ts: seq<Token>)
    ensures Proper(ts) && Text(ts) == s
    decreases |s|
  {
    if s == "" {
      ts := [];
    } else {
      var t := FirstToken(s);
      var n := |TokenText(t)|;
      var more := EveryText(s[n..]);
      ts := [t] + more;
      hide TokenText, Escape, Shaped;
      assert ts[1..] == more;
    }
  }

  lemma FirstToken(s: string) returns (t: Token)
    requires s != ""
    ensures TokenText(t) <= s && TokenText(t) != "" && Shaped(t) && (t == Single('%') ==> !Escape(s[1..]))
  {
    if s[0] == '%' && Escape(s[1..]) {
      if s[1] == 'u' {
        assert s[1..][1..][..4] == s[2..6];
        t := Unicode(s[2..6]);
        assert s[..6] == "%u" + s[2..6];
        assert forall i :: 0 <= i < 4 ==> s[2..6][i] == s[1..][1..][i];
      } else {
        t := Byte(s[1..3]);
        assert s[..3] == "%" + s[1..3];
        assert forall i :: 0 <= i < 2 ==> s[1..3][i] == s[1..][i];
      }
    } else {
      t := Single(s[0]);
    }
  }
}
