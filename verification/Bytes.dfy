/** Big-endian byte strings, hexadecimal text and digits in a base, each with its reference value. */
module Bytes {
  import opened Powers
  import opened WideArithmetic
  import opened Wrappers

  type Byte = x: int | 0 <= x < 256

  // ------------------------------------------------ big-endian bytes

  function BeValue(b: seq<Byte>): nat {
    if b == [] then 0 else BeValue(b[..|b| - 1]) * 256 + b[|b| - 1]
  }

  /** The `n` low bytes of a number, most significant first. */
  function BeBytes(x: nat, n: nat): (b: seq<Byte>)
    ensures |b| == n
  {
    if n == 0 then [] else BeBytes(x / 256, n - 1) + [x % 256]
  }

  lemma {:induction false} BeValueBound(b: seq<Byte>)
    ensures BeValue(b) < Pow(256, |b|)
  {
    if b != [] { BeValueBound(b[..|b| - 1]); }
  }

  /** Writing then reading. */
  lemma {:induction false} BeRoundTrip(x: nat, n: nat)
    requires x < Pow(256, n)
    ensures BeValue(BeBytes(x, n)) == x
  {
    if n > 0 {
      BeRoundTrip(x / 256, n - 1);
      assert BeBytes(x, n)[..n - 1] == BeBytes(x / 256, n - 1);
    }
  }

  /** Reading then writing. */
  lemma {:induction false} BeBytesOfValue(b: seq<Byte>)
    ensures BeBytes(BeValue(b), |b|) == b
  {
    if b != [] {
      BeBytesOfValue(b[..|b| - 1]);
      assert b == b[..|b| - 1] + [b[|b| - 1]];
    }
  }

  lemma {:induction false} BeValueConcat(a: seq<Byte>, b: seq<Byte>)
    ensures BeValue(a + b) == BeValue(a) * Pow(256, |b|) + BeValue(b)
  {
    if b == [] {
      assert a + b == a && Pow(256, 0) == 1;
    } else {
      var front := b[..|b| - 1];
      BeValueConcat(a, front);
      assert (a + b)[..|a + b| - 1] == a + front;
      var p := Pow(256, |front|);
      assert BeValue(a) * (256 * p) == BeValue(a) * p * 256 by { MulAssoc(BeValue(a), p, 256); }
    }
  }

  lemma {:induction false} BeBytesConcat(x: nat, y: nat, m: nat, n: nat)
    requires y < Pow(256, n)
    ensures BeBytes(x * Pow(256, n) + y, m + n) == BeBytes(x, m) + BeBytes(y, n)
  {
    if n == 0 {
      assert Pow(256, 0) == 1;
    } else {
      var p := Pow(256, n - 1);
      assert x * (256 * p) == x * p * 256 by { MulAssoc(x, p, 256); }
      assert (x * p * 256 + y) / 256 == x * p + y / 256 && (x * p * 256 + y) % 256 == y % 256;
      BeBytesConcat(x, y / 256, m, n - 1);
    }
  }

  /** Or-ing in the next byte of a word that was read so far. */
  lemma OrNextByte(acc: nat, b: Byte, k: nat)
    ensures BitOr(acc * Pow2(k + 8), b * Pow2(k)) == (acc * 256 + b) * Pow2(k)
  {
    assert Pow2(8) == 256;
    Pow2Add(8, k);
    MulMono(b + 1, 256, Pow2(k));
    MulDistrib(b, 1, Pow2(k));
    BitOrDisjoint(acc, b * Pow2(k), k + 8);
    MulAssoc(acc, 256, Pow2(k));
    MulDistrib(acc * 256, b, Pow2(k));
  }

  function Shifted(b: nat, k: nat): nat { b * Pow2(k) }

  function ReadUint64BE(b: seq<Byte>): nat
    requires |b| == 8
  {
    BitOr(BitOr(BitOr(BitOr(BitOr(BitOr(BitOr(
      Shifted(b[0], 56), Shifted(b[1], 48)), Shifted(b[2], 40)), Shifted(b[3], 32)),
      Shifted(b[4], 24)), Shifted(b[5], 16)), Shifted(b[6], 8)), b[7])
  }

  function Next(v: nat, b: nat): nat { v * 256 + b }

  lemma OrNext(acc: nat, b: Byte, k: nat, k8: nat)
    requires k8 == k + 8
    ensures BitOr(Shifted(acc, k8), Shifted(b, k)) == Shifted(Next(acc, b), k)
  {
    OrNextByte(acc, b, k);
  }

  /** The number built up byte by byte. */
  function EightNexts(b: seq<Byte>): nat
    requires |b| == 8
  {
    Next(Next(Next(Next(Next(Next(Next(b[0], b[1]), b[2]), b[3]), b[4]), b[5]), b[6]), b[7])
  }

  lemma ReadUint64Value(b: seq<Byte>)
    requires |b| == 8
    ensures ReadUint64BE(b) == BeValue(b)
  {
    OrsAreNexts(b);
    ValueIsNexts(b);
  }

  lemma OrsAreNexts(b: seq<Byte>)
    requires |b| == 8
    ensures ReadUint64BE(b) == EightNexts(b)
  {
    var v1 := Next(b[0], b[1]);
    var v2 := Next(v1, b[2]);
    var v3 := Next(v2, b[3]);
    var v4 := Next(v3, b[4]);
    var v5 := Next(v4, b[5]);
    var v6 := Next(v5, b[6]);
    OrNext(b[0], b[1], 48, 56);
    OrNext(v1, b[2], 40, 48);
    OrNext(v2, b[3], 32, 40);
    OrNext(v3, b[4], 24, 32);
    OrNext(v4, b[5], 16, 24);
    OrNext(v5, b[6], 8, 16);
    OrNext(v6, b[7], 0, 8);
    assert Shifted(b[7], 0) == b[7] && Shifted(Next(v6, b[7]), 0) == Next(v6, b[7]) by { assert Pow2(0) == 1; }
  }

  lemma ValueIsNexts(b: seq<Byte>)
    requires |b| == 8
    ensures BeValue(b) == EightNexts(b)
  {
    BeValueStep(b[..1], b[1]);
    BeValueStep(b[..2], b[2]);
    BeValueStep(b[..3], b[3]);
    BeValueStep(b[..4], b[4]);
    BeValueStep(b[..5], b[5]);
    BeValueStep(b[..6], b[6]);
    BeValueStep(b[..7], b[7]);
    assert b[..1][..0] == [] && BeValue([]) == 0;
    assert b[..1] + [b[1]] == b[..2] && b[..2] + [b[2]] == b[..3] && b[..3] + [b[3]] == b[..4];
    assert b[..4] + [b[4]] == b[..5] && b[..5] + [b[5]] == b[..6] && b[..6] + [b[6]] == b[..7] && b[..7] + [b[7]] == b;
  }

  lemma BeValueStep(front: seq<Byte>, last: Byte)
    ensures BeValue(front + [last]) == Next(BeValue(front), last)
  {
    assert (front + [last])[..|front|] == front;
  }

  lemma ByteWords()
    ensures Pow(256, 8) == 0x1_0000_0000_0000_0000 && Pow(256, 16) == B && Pow(256, 32) == B * B
    ensures Pow(256, 24) == 0x1_0000_0000_0000_0000 * B
  {
    assert Pow(256, 2) == 0x1_0000;
    PowAdd(256, 2, 2);
    PowAdd(256, 4, 4);
    PowAdd(256, 8, 8);
    PowAdd(256, 8, 16);
    PowAdd(256, 16, 16);
  }

  // ------------------------------------------------ digits in a base

  const HEX_DIGITS: string := "0123456789abcdef"

  /** The value of a digit character, upper or lower case. */
  function FromHexChar(c: char): Option<nat> {
    if '0' <= c <= '9' then Some(c as nat - '0' as nat)
    else if 'a' <= c <= 'f' then Some(c as nat - 'a' as nat + 10)
    else if 'A' <= c <= 'F' then Some(c as nat - 'A' as nat + 10)
    else None
  }

  ghost predicate HexText(s: string) { forall i | 0 <= i < |s| :: FromHexChar(s[i]).Some? }

  function HexDigit(d: nat): (c: char)
    requires d < 16
    ensures FromHexChar(c) == Some(d) && ('0' <= c <= '9' || 'a' <= c <= 'f')
  {
    HEX_DIGITS[d]
  }

  /** The number a text denotes in a base, most significant digit first. */
  function Parse(s: string, base: nat): nat {
    if s == [] then 0
    else Parse(s[..|s| - 1], base) * base +
         match FromHexChar(s[|s| - 1]) case Some(d) => d case None => 0
  }

  lemma {:induction false} ParseConcat(s: string, t: string, base: nat)
    ensures Parse(s + t, base) == Parse(s, base) * Pow(base, |t|) + Parse(t, base)
  {
    if t == [] {
      assert s + t == s && Pow(base, 0) == 1;
    } else {
      var front := t[..|t| - 1];
      ParseConcat(s, front, base);
      assert (s + t)[..|s + t| - 1] == s + front;
      var p := Pow(base, |front|);
      assert Parse(s, base) * (base * p) == Parse(s, base) * p * base by { MulAssoc(Parse(s, base), p, base); }
      MulDistrib(Parse(s, base) * p, Parse(front, base), base);
    }
  }

  /** The shortest text for a number in a base, most significant digit first. */
  function Digits(v: nat, base: nat): (s: string)
    requires 2 <= base <= 16
    ensures |s| >= 1
    decreases v
  {
    if v < base then [HexDigit(v)] else DivSmaller(v, base); Digits(v / base, base) + [HexDigit(v % base)]
  }

  lemma DivSmaller(v: nat, base: nat)
    requires base >= 2 && v >= 1
    ensures v / base < v
  {
    DivModParts(v, base);
    MulMono(2, base, v / base);
  }

  /** Digits as they are written: no upper case, and so no terminator among them. */
  ghost predicate LowerCase(s: string) {
    forall i | 0 <= i < |s| :: '0' <= s[i] <= '9' || 'a' <= s[i] <= 'f'
  }

  /** Parsing gives the number back, every character is a digit, and there are no superfluous leading zeros. */
  lemma {:induction false} ParseDigits(v: nat, base: nat)
    requires 2 <= base <= 16
    ensures Parse(Digits(v, base), base) == v
    ensures HexText(Digits(v, base)) && LowerCase(Digits(v, base))
    ensures Digits(v, base)[0] == '0' ==> v == 0 && |Digits(v, base)| == 1
    decreases v
  {
    var s := Digits(v, base);
    DivModParts(v, base);
    if v < base {
      assert s[..0] == [] && Parse([], base) == 0;
    } else {
      DivSmaller(v, base);
      ParseDigits(v / base, base);
      assert s[..|s| - 1] == Digits(v / base, base);
      var q, r := v / base, v % base;
      assert v == q * base + r && r < base;
      assert q == 0 ==> q * base == 0;
    }
  }

  /** A number below base^n takes at most n digits. */
  lemma {:induction false} DigitsLength(v: nat, base: nat, n: nat)
    requires 2 <= base <= 16 && n >= 1 && v < Pow(base, n)
    ensures |Digits(v, base)| <= n
  {
    if v >= base {
      assert Pow(base, 0) == 1 && Pow(base, 1) == base;
      DivModParts(v, base);
      if v / base >= Pow(base, n - 1) { MulMono(Pow(base, n - 1), v / base, base); }
      DivSmaller(v, base);
      DigitsLength(v / base, base, n - 1);
    }
  }

  // ------------------------------------------------ hexadecimal

  function Prepend(b: seq<Byte>, rest: Option<seq<Byte>>): Option<seq<Byte>> {
    match rest case None => None case Some(r) => Some(b + r)
  }

  lemma PrependNext(b: seq<Byte>, x: Byte, rest: Option<seq<Byte>>)
    ensures Prepend(b, Prepend([x], rest)) == Prepend(b + [x], rest)
    ensures Prepend([], rest) == rest
  {
    if rest.Some? { assert b + ([x] + rest.value) == b + [x] + rest.value && [] + rest.value == rest.value; }
  }

  /** `from_hex` on a whole text: two characters a byte, a lone last one in the high half, at most `room` bytes. */
  function DecodeHex(s: string, room: nat): Option<seq<Byte>>
    decreases |s|
  {
    if s == [] || room == 0 then Some([])
    else match FromHexChar(s[0])
      case None => None
      case Some(high) =>
        if |s| == 1 then Some([high * 16])
        else match FromHexChar(s[1])
          case None => None
          case Some(low) =>
            Prepend([high * 16 + low], DecodeHex(s[2..], room - 1))
  }

  lemma ParseStep(front: string, c: char, base: nat)
    requires FromHexChar(c).Some?
    ensures Parse(front + [c], base) == Parse(front, base) * base + FromHexChar(c).value
  {
    assert (front + [c])[..|front|] == front;
  }

  lemma ParseTwo(c: char, d: char)
    requires FromHexChar(c).Some? && FromHexChar(d).Some?
    ensures Parse([c, d], 16) == FromHexChar(c).value * 16 + FromHexChar(d).value
  {
    ParseStep([], c, 16);
    ParseStep([c], d, 16);
    assert [] + [c] == [c] && [c] + [d] == [c, d];
  }

  lemma ParseBehind(front: string, x: nat, rest: string, s: string)
    requires Parse(front, 16) == x && s == front + rest
    ensures Parse(s, 16) == x * Pow(16, |rest|) + Parse(rest, 16)
  {
    ParseConcat(front, rest, 16);
  }

  lemma TwoDigitsFirst(s: string)
    requires HexText(s) && |s| >= 2
    ensures Parse(s, 16) ==
      (FromHexChar(s[0]).value * 16 + FromHexChar(s[1]).value) * Pow(16, |s| - 2) + Parse(s[2..], 16)
  {
    ParseTwo(s[0], s[1]);
    ParseBehind([s[0], s[1]], FromHexChar(s[0]).value * 16 + FromHexChar(s[1]).value, s[2..], s);
  }

  lemma {:induction false} DecodeHexValue(s: string, room: nat)
    requires HexText(s) && |s| % 2 == 0 && |s| / 2 <= room
    ensures var r := DecodeHex(s, room);
      r.Some? && |r.value| == |s| / 2 && BeValue(r.value) == Parse(s, 16)
    decreases |s|
  {
    if s != [] {
      var rest := s[2..];
      DecodeHexValue(rest, room - 1);
      var high, low := FromHexChar(s[0]).value, FromHexChar(s[1]).value;
      var first: seq<Byte> := [high * 16 + low];
      var bytes := DecodeHex(rest, room - 1).value;
      BeValueConcat(first, bytes);
      assert first[..0] == [] && BeValue([]) == 0;
      TwoDigitsFirst(s);
      SquareOfSixteen(|bytes|);
    }
  }

  lemma {:induction false} SquareOfSixteen(n: nat)
    ensures Pow(256, n) == Pow(16, 2 * n)
  {
    if n > 0 { SquareOfSixteen(n - 1); }
  }

  /** A lone last digit counts as if a zero followed it. */
  lemma {:induction false} LoneDigit(s: string, room: nat)
    requires |s| % 2 == 1
    ensures DecodeHex(s, room) == DecodeHex(s + ['0'], room)
    decreases |s|
  {
    var t := s + ['0'];
    if room == 0 {
    } else if |s| == 1 {
      assert t[0] == s[0] && t[1] == '0' && t[2..] == [];
      if FromHexChar(s[0]).Some? {
        var high: seq<Byte> := [FromHexChar(s[0]).value * 16];
        assert Prepend(high, Some([])) == Some(high + []) && high + [] == high;
      }
    } else {
      LoneDigit(s[2..], room - 1);
      assert t[0] == s[0] && t[1] == s[1] && t[2..] == s[2..] + ['0'];
    }
  }

  /** The sixteen digits mean what they say, in either case. */
  lemma DigitValues()
    ensures Parse("0123", 16) == 0x0123 && Parse("4567", 16) == 0x4567 && Parse("89ab", 16) == 0x89ab
    ensures Parse("cdef", 16) == 0xcdef && Parse("ABCD", 16) == 0xabcd && Parse("EFef", 16) == 0xefef
  {
    ParseFour('0', '1', '2', '3');
    ParseFour('4', '5', '6', '7');
    ParseFour('8', '9', 'a', 'b');
    ParseFour('c', 'd', 'e', 'f');
    ParseFour('A', 'B', 'C', 'D');
    ParseFour('E', 'F', 'e', 'f');
  }

  lemma ParseFour(a: char, b: char, c: char, d: char)
    requires FromHexChar(a).Some? && FromHexChar(b).Some? && FromHexChar(c).Some? && FromHexChar(d).Some?
    ensures Parse([a, b, c, d], 16) ==
      0x1000 * FromHexChar(a).value + 0x100 * FromHexChar(b).value + 0x10 * FromHexChar(c).value + FromHexChar(d).value
  {
    ParseTwo(a, b);
    ParseStep([a, b], c, 16);
    ParseStep([a, b, c], d, 16);
    assert [a, b] + [c] == [a, b, c] && [a, b, c] + [d] == [a, b, c, d];
  }

  function EncodeHex(b: seq<Byte>): (s: string)
    ensures |s| == 2 * |b|
  {
    if b == [] then "" else [HexDigit(b[0] / 16), HexDigit(b[0] % 16)] + EncodeHex(b[1..])
  }

  lemma EncodeStep(b: seq<Byte>)
    requires b != []
    ensures EncodeHex(b) == [HexDigit(b[0] / 16), HexDigit(b[0] % 16)] + EncodeHex(b[1..])
  {}

  lemma DecodePair(c: char, d: char, rest: string, room: nat, high: nat, low: nat, bytes: seq<Byte>)
    requires room >= 1 && FromHexChar(c) == Some(high) && FromHexChar(d) == Some(low)
    requires DecodeHex(rest, room - 1) == Some(bytes)
    ensures high < 16 && low < 16 && DecodeHex([c, d] + rest, room) == Some([high * 16 + low] + bytes)
  {
    var s := [c, d] + rest;
    assert s[0] == c && s[1] == d && s[2..] == rest;
  }

  /** Decoding what was encoded. */
  lemma {:induction false} HexRoundTrip(b: seq<Byte>, room: nat)
    requires |b| <= room
    ensures DecodeHex(EncodeHex(b), room) == Some(b)
    decreases |b|
  {
    if b != [] {
      var rest := b[1..];
      HexRoundTrip(rest, room - 1);
      EncodeStep(b);
      OneByteRoundTrip(b[0], EncodeHex(rest), room, rest);
      assert b == [b[0]] + rest;
    }
  }

  lemma OneByteRoundTrip(x: Byte, text: string, room: nat, bytes: seq<Byte>)
    requires room >= 1 && DecodeHex(text, room - 1) == Some(bytes)
    ensures DecodeHex([HexDigit(x / 16), HexDigit(x % 16)] + text, room) == Some([x] + bytes)
  {
    DecodePair(HexDigit(x / 16), HexDigit(x % 16), text, room, x / 16, x % 16, bytes);
  }
}
