/** Text and byte forms of 256-bit numbers, and the split of a commitment into two field elements. */
module Uint256Codec {
  import opened Powers
  import opened WideArithmetic
  import opened Uint256
  import opened Uint256Division
  import opened Bytes
  import opened Sequences

  // ------------------------------------------------ big-endian buffers

  method ReadU256BE(buffer: seq<Byte>, target: U256)
    requires |buffer| == 32
    modifies target
    ensures target.Value() == BeValue(buffer)
  {
    var b0, b1, b2, b3 := buffer[..8], buffer[8..16], buffer[16..24], buffer[24..];
    WordValues(b0, b1, b2, b3);
    assert b0 + b1 + (b2 + b3) == buffer;
    var hi := ReadU128BE(b0, b1);
    var lo := ReadU128BE(b2, b3);
    target.hi := hi;
    target.lo := lo;
  }

  /** `readu128BE`: the upper word shifted by 64, or-ed with the lower one. */
  method ReadU128BE(b0: seq<Byte>, b1: seq<Byte>) returns (r: U128)
    requires |b0| == 8 && |b1| == 8
    ensures r == BeValue(b0 + b1)
  {
    ReadUint64Value(b0);
    ReadUint64Value(b1);
    TwoWords(b0, b1);
    r := BitOr(ReadUint64BE(b0) * 0x1_0000_0000_0000_0000, ReadUint64BE(b1));
  }

  lemma TwoWords(a: seq<Byte>, b: seq<Byte>)
    requires |a| == 8 && |b| == 8
    ensures BeValue(a) < 0x1_0000_0000_0000_0000 && BeValue(b) < 0x1_0000_0000_0000_0000
    ensures BitOr(BeValue(a) * 0x1_0000_0000_0000_0000, BeValue(b)) == BeValue(a + b) < B
  {
    ByteWords();
    BeValueBound(a);
    BeValueBound(b);
    BeValueConcat(a, b);
    BitOrWord(BeValue(a), BeValue(b));
  }

  lemma BitOrWord(x: nat, y: nat)
    requires y < 0x1_0000_0000_0000_0000
    ensures BitOr(x * 0x1_0000_0000_0000_0000, y) == x * 0x1_0000_0000_0000_0000 + y
  {
    assert Pow2(8) == 256;
    Pow2Square(8, 256);
    Pow2Square(16, 0x1_0000);
    Pow2Square(32, 0x1_0000_0000);
    BitOrDisjoint(x, y, 64);
  }

  lemma WordValues(a: seq<Byte>, b: seq<Byte>, c: seq<Byte>, d: seq<Byte>)
    requires |a| == |b| == |c| == |d| == 8
    ensures BeValue(a + b) * B + BeValue(c + d) == BeValue(a + b + (c + d))
  {
    ByteWords();
    BeValueConcat(a + b, c + d);
  }

  /** Byte `i` from the right. */
  lemma {:induction false} BeBytesAt(x: nat, n: nat, i: nat)
    requires i < n
    ensures BeBytes(x, n)[n - 1 - i] == x / Pow(256, i) % 256
  {
    if i > 0 {
      BeBytesAt(x / 256, n - 1, i - 1);
      DivDiv(x, 256, Pow(256, i - 1));
    }
  }

  lemma BytePowers()
    ensures Pow(256, 0) == 1 && Pow(256, 1) == 0x100 && Pow(256, 2) == 0x1_0000 && Pow(256, 3) == 0x100_0000
    ensures Pow(256, 4) == 0x1_0000_0000 && Pow(256, 5) == 0x100_0000_0000
    ensures Pow(256, 6) == 0x1_0000_0000_0000 && Pow(256, 7) == 0x100_0000_0000_0000
  {}

  /** `fast_write_uint64_be_buffer`: byte k from the right is the value shifted by 8k, masked. */
  method WriteUint64BE(x: nat, buffer: array<Byte>, at: nat)
    requires at + 8 <= buffer.Length
    modifies buffer
    ensures buffer[..] == old(buffer[..at]) + BeBytes(x, 8) + old(buffer[at + 8..])
  {
    BytePowers();
    BeBytesAt(x, 8, 0);
    BeBytesAt(x, 8, 1);
    BeBytesAt(x, 8, 2);
    BeBytesAt(x, 8, 3);
    BeBytesAt(x, 8, 4);
    BeBytesAt(x, 8, 5);
    BeBytesAt(x, 8, 6);
    BeBytesAt(x, 8, 7);
    PutBytes(buffer, at, x % 256, x / 0x100 % 256, x / 0x1_0000 % 256, x / 0x100_0000 % 256,
             x / 0x1_0000_0000 % 256, x / 0x100_0000_0000 % 256, x / 0x1_0000_0000_0000 % 256,
             x / 0x100_0000_0000_0000 % 256);
  }

  lemma EightStores(s: seq<Byte>, at: nat,
                    b0: Byte, b1: Byte, b2: Byte, b3: Byte, b4: Byte, b5: Byte, b6: Byte, b7: Byte)
    requires at + 8 <= |s|
    ensures s[at + 7 := b0][at + 6 := b1][at + 5 := b2][at + 4 := b3]
             [at + 3 := b4][at + 2 := b5][at + 1 := b6][at := b7] ==
            s[..at] + [b7, b6, b5, b4, b3, b2, b1, b0] + s[at + 8..]
  {}

  /** The eight stores, lowest byte first. */
  method PutBytes(buffer: array<Byte>, at: nat,
                  b0: Byte, b1: Byte, b2: Byte, b3: Byte, b4: Byte, b5: Byte, b6: Byte, b7: Byte)
    requires at + 8 <= buffer.Length
    modifies buffer
    ensures buffer[..] == old(buffer[..at]) + [b7, b6, b5, b4, b3, b2, b1, b0] + old(buffer[at + 8..])
  {
    EightStores(buffer[..], at, b0, b1, b2, b3, b4, b5, b6, b7);
    buffer[at + 7] := b0;
    buffer[at + 6] := b1;
    buffer[at + 5] := b2;
    buffer[at + 4] := b3;
    buffer[at + 3] := b4;
    buffer[at + 2] := b5;
    buffer[at + 1] := b6;
    buffer[at] := b7;
  }

  /** `fast_write_uint128_be_buffer`: the low word first. */
  method WriteUint128BE(x: U128, buffer: array<Byte>, at: nat)
    requires at + 16 <= buffer.Length
    modifies buffer
    ensures buffer[..] == old(buffer[..at]) + BeBytes(x, 16) + old(buffer[at + 16..])
  {
    BytesOfWords(x);
    var low, high := x % 0x1_0000_0000_0000_0000, x / 0x1_0000_0000_0000_0000;
    ghost var before, after := buffer[..at], buffer[at + 16..];
    WriteUint64BE(low, buffer, at + 8);
    ghost var middle := buffer[..];
    WriteUint64BE(high, buffer, at);
    WordsWritten(before, after, BeBytes(high, 8), BeBytes(low, 8), at, middle, buffer[..]);
  }

  lemma WordsWritten(before: seq<Byte>, after: seq<Byte>, high: seq<Byte>, low: seq<Byte>, at: nat,
                 middle: seq<Byte>, end: seq<Byte>)
    requires |before| == at && |high| == |low| == 8 && |middle| == at + 16 + |after|
    requires middle[..at] == before && middle[at + 8..] == low + after
    requires end == middle[..at] + high + middle[at + 8..]
    ensures end == before + (high + low) + after
  {}

  lemma BytesOfWords(x: nat)
    ensures BeBytes(x, 16) == BeBytes(x / 0x1_0000_0000_0000_0000, 8) + BeBytes(x % 0x1_0000_0000_0000_0000, 8)
  {
    ByteWords();
    BeBytesConcat(x / 0x1_0000_0000_0000_0000, x % 0x1_0000_0000_0000_0000, 8, 8);
  }

  /** `fast_write_u256_be_buffer`. */
  method WriteU256BE(x: U256, buffer: array<Byte>)
    requires buffer.Length == 32
    modifies buffer
    ensures buffer[..] == BeBytes(x.Value(), 32)
  {
    BytesOfHalves(x.hi, x.lo);
    WriteUint128BE(x.hi, buffer, 0);
    assert buffer[..16] == BeBytes(x.hi, 16);
    WriteUint128BE(x.lo, buffer, 16);
  }

  lemma BytesOfHalves(hi: U128, lo: U128)
    ensures BeBytes(hi * B + lo, 32) == BeBytes(hi, 16) + BeBytes(lo, 16)
  {
    ByteWords();
    BeBytesConcat(hi, lo, 16, 16);
  }

  // ------------------------------------------------ field elements

  /** Order of the field the proof's point coordinates live in. */
  const BASE_FIELD: nat := 0x30644e72e131a029_b85045b68181585d_97816a916871ca8d_3c208c16d87cfd47

  /** Order of the field the public inputs live in. */
  const SCALAR_FIELD: nat := 0x30644e72e131a029_b85045b68181585d_2833e84879b97091_43e1f593f0000001

  /** Both orders are polynomials in the parameter of the curve. */
  lemma FieldOrders()
    ensures var t := 4965661367192848881;
      && BASE_FIELD == 36 * t * t * t * t + 36 * t * t * t + 24 * t * t + 6 * t + 1
      && SCALAR_FIELD == 36 * t * t * t * t + 36 * t * t * t + 18 * t * t + 6 * t + 1
  {}

  lemma {:induction false} ZeroBytes(b: seq<Byte>)
    ensures BeValue(b) == 0 <==> forall i | 0 <= i < |b| :: b[i] == 0
  {
    if b != [] { ZeroBytes(b[..|b| - 1]); }
  }

  /** `negate_y_field` on 32-byte buffers. */
  method NegateYFieldBytes(pointY: seq<Byte>, negated: array<Byte>)
    requires |pointY| == 32 && negated.Length == 32
    modifies negated
    ensures negated[..] == BeBytes(Negated(BASE_FIELD, BeValue(pointY)), 32)
  {
    ZeroBytes(pointY);
    var output := new U256(0, 0);
    if exists i :: 0 <= i < 32 && pointY[i] != 0 {
      var fieldC := new U256(0x30644e72e131a029_b85045b68181585d, 0x97816a916871ca8d_3c208c16d87cfd47);
      var input := new U256(0, 0);
      ReadU256BE(pointY, input);
      NegateYField(fieldC, input, output);
    }
    WriteU256BE(output, negated);
  }

  /** `is_input_be_in_snark_field`: a word-by-word comparison. */
  predicate InSnarkField(input: seq<Byte>)
    requires |input| == 32
  {
    var a0, a1 := ReadUint64BE(input[..8]), ReadUint64BE(input[8..16]);
    var a2, a3 := ReadUint64BE(input[16..24]), ReadUint64BE(input[24..]);
    if a0 < 0x30644e72e131a029 then true
    else if a0 == 0x30644e72e131a029 then
      if a1 < 0xb85045b68181585d then true
      else if a1 == 0xb85045b68181585d then
        if a2 < 0x2833e84879b97091 then true
        else if a2 == 0x2833e84879b97091 then a3 < 0x43e1f593f0000001
        else false
      else false
    else false
  }

  const WORD: nat := 0x1_0000_0000_0000_0000

  lemma AppendWord(a: seq<Byte>, b: seq<Byte>)
    requires |b| == 8
    ensures BeValue(a + b) == BeValue(a) * WORD + BeValue(b) && BeValue(b) < WORD
  {
    ByteWords();
    BeValueBound(b);
    BeValueConcat(a, b);
  }

  lemma CompareWords(a0: nat, a1: nat, a2: nat, a3: nat)
    requires a1 < WORD && a2 < WORD && a3 < WORD
    ensures (((a0 * WORD + a1) * WORD + a2) * WORD + a3 < SCALAR_FIELD) <==>
      (a0 < 0x30644e72e131a029 ||
       (a0 == 0x30644e72e131a029 &&
        (a1 < 0xb85045b68181585d ||
         (a1 == 0xb85045b68181585d &&
          (a2 < 0x2833e84879b97091 || (a2 == 0x2833e84879b97091 && a3 < 0x43e1f593f0000001))))))
  {
    assert SCALAR_FIELD == ((0x30644e72e131a029 * WORD + 0xb85045b68181585d) * WORD + 0x2833e84879b97091) * WORD
                           + 0x43e1f593f0000001;
  }

  lemma FourWords(input: seq<Byte>)
    requires |input| == 32
    ensures BeValue(input[8..16]) < WORD && BeValue(input[16..24]) < WORD && BeValue(input[24..]) < WORD
    ensures BeValue(input) == ((BeValue(input[..8]) * WORD + BeValue(input[8..16])) * WORD
                               + BeValue(input[16..24])) * WORD + BeValue(input[24..])
  {
    AppendWord(input[..8], input[8..16]);
    AppendWord(input[..16], input[16..24]);
    AppendWord(input[..24], input[24..]);
    assert input[..8] + input[8..16] == input[..16] && input[..16] + input[16..24] == input[..24];
    assert input[..24] + input[24..] == input;
  }

  lemma InSnarkFieldExact(input: seq<Byte>)
    requires |input| == 32
    ensures InSnarkField(input) <==> BeValue(input) < SCALAR_FIELD
  {
    ReadUint64Value(input[..8]);
    ReadUint64Value(input[8..16]);
    ReadUint64Value(input[16..24]);
    ReadUint64Value(input[24..]);
    FourWords(input);
    CompareWords(BeValue(input[..8]), BeValue(input[8..16]), BeValue(input[16..24]), BeValue(input[24..]));
  }

  // ------------------------------------------------ text

  method ReverseString(str: array<char>, length: nat)
    requires 1 <= length <= str.Length
    modifies str
    ensures str[..length] == Reverse(old(str[..length]))
    ensures str[length..] == old(str[length..])
  {
    var i, j := 0, length - 1;
    while i < j
      invariant 0 <= i <= length && i + j == length - 1
      invariant forall k | 0 <= k < length && (k < i || k > j) :: str[k] == old(str[length - 1 - k])
      invariant forall k | 0 <= k < str.Length && (i <= k <= j || k >= length) :: str[k] == old(str[k])
    {
      str[i], str[j] := str[j], str[i];
      i := i + 1;
      j := j - 1;
    }
    ghost var was := old(str[..length]);
    ReverseLength(was);
    forall k: nat | k < length ensures str[..length][k] == Reverse(was)[k] { ReverseAt(was, k); }
    assert str[..length] == Reverse(was);
    assert forall k | length <= k < str.Length :: str[k] == old(str[k]);
  }

  /** The digits of a number in the order the division produces them. */
  function LowFirst(v: nat, base: nat): string
    requires 2 <= base <= 16
    decreases v
  {
    if v < base then [HexDigit(v)] else DivSmaller(v, base); [HexDigit(v % base)] + LowFirst(v / base, base)
  }

  lemma {:induction false} LowFirstReversed(v: nat, base: nat)
    requires 2 <= base <= 16
    ensures Reverse(LowFirst(v, base)) == Digits(v, base)
    decreases v
  {
    if v < base {
      assert LowFirst(v, base)[..0] == [];
    } else {
      DivSmaller(v, base);
      LowFirstReversed(v / base, base);
      ReverseCons(HexDigit(v % base), LowFirst(v / base, base));
    }
  }

  lemma {:induction false} LowFirstLength(v: nat, base: nat)
    requires 2 <= base <= 16
    ensures |LowFirst(v, base)| == |Digits(v, base)|
    decreases v
  {
    if v >= base { DivSmaller(v, base); LowFirstLength(v / base, base); }
  }

  lemma SmallQuotient(v: nat, base: nat)
    requires 2 <= base <= 16
    ensures v / base == 0 <==> v < base
    ensures v > 0 ==> v / base < v
    ensures 0 <= v % base < base && (v < base ==> v % base == v)
  {
    if v < base { DivModUnique(v, base, 0, v); } else { QuotientPositive(v, base); DivSmaller(v, base); }
  }

  lemma QuotientPositive(v: nat, base: nat)
    requires 1 <= base <= v
    ensures v / base >= 1
  {
    DivModParts(v, base);
    assert 0 * base == 0;
  }

  /** One digit of the loop. */
  lemma NextDigit(v: nat, base: nat, done: string, q: nat, r: nat)
    requires 2 <= base <= 16 && q == v / base && r == v % base
    ensures (q == 0 <==> v < base) && (v > 0 ==> q < v) && r < 16
    ensures done + LowFirst(v, base) ==
            done + [HexDigit(r)] + (if q == 0 then "" else LowFirst(q, base))
    ensures |LowFirst(v, base)| == 1 + if q == 0 then 0 else |LowFirst(q, base)|
  {
    SmallQuotient(v, base);
  }

  /** Division by a small base, the quotient replacing the dividend. */
  method DivideBySmall(rDiv: U256, base: nat, rMod: U256, ghost v: nat, ghost q: nat, ghost r: nat)
    requires rDiv != rMod && 2 <= base <= 16 && rDiv.Value() == v && q == v / base && r == v % base
    modifies rDiv, rMod
    ensures rDiv.Value() == q && rMod.Value() == r
  {
    var baseNumber := new U256(0, base);
    DivMod256(rDiv, baseNumber, rDiv, rMod);
  }

  /** The end of `tostring256`. */
  method Terminate(out: array<char>, offset: nat, ghost v: nat, ghost base: nat)
    requires 1 <= offset < out.Length && 2 <= base <= 16 && out[..offset] == LowFirst(v, base)
    modifies out
    ensures offset == |Digits(v, base)| && out[..offset] == Digits(v, base) && out[offset] == '\0'
  {
    LowFirstReversed(v, base);
    LowFirstLength(v, base);
    out[offset] := '\0';
    assert out[..offset] == LowFirst(v, base) && out[offset..][0] == '\0';
    ReverseString(out, offset);
    assert out[offset] == out[offset..][0];
  }

  /** How many digits the length check lets through: 32-bit `outLength - 1` wraps around at zero. */
  function Room(outLength: nat): nat { if outLength == 0 then 0x1_0000_0000 else outLength }

  /** The characters `tostring256` writes: all digits and a terminator, or as many digits as the check lets through. */
  function Written(digits: nat, outLength: nat): nat {
    if digits <= Room(outLength) then digits + 1 else Room(outLength)
  }

  /**
   `tostring256`: digits by repeated division with the quotient written back over the dividend, then a terminator,
   then reversal in place. The buffer must hold what is written, which the length check alone does not ensure.
   */
  method ToString256(number: U256, base: nat, out: array<char>, outLength: nat) returns (ok: bool)
    requires outLength < 0x1_0000_0000
    requires 2 <= base <= 16 ==> Written(|Digits(number.Value(), base)|, outLength) <= out.Length
    modifies out
    ensures ok <==> 2 <= base <= 16 && |Digits(number.Value(), base)| <= Room(outLength)
    ensures ok ==> var n := |Digits(number.Value(), base)|;
      n < out.Length && out[..n] == Digits(number.Value(), base) && out[n] == '\0'
  {
    if base < 2 || base > 16 { return false; }
    ghost var v := number.Value();
    var rDiv := new U256(number.hi, number.lo);
    var rMod := new U256(0, 0);
    var offset := 0;
    LowFirstLength(v, base);
    LastDigit(outLength);
    var more := true;
    ghost var w := v;
    while more
      invariant fresh(rDiv) && fresh(rMod) && rDiv != rMod
      invariant rDiv.Value() == w && 0 <= offset <= Room(outLength) && offset <= out.Length
      invariant offset + (if more then |LowFirst(w, base)| else 0) == |LowFirst(v, base)|
      invariant out[..offset] + (if more then LowFirst(w, base) else "") == LowFirst(v, base)
      invariant !more ==> offset > 0
      decreases w + (if more then 1 else 0)
    {
      // 32-bit subtraction
      if offset > (outLength - 1) % 0x1_0000_0000 {
        return false;
      }
      DivBound(w, base);
      ghost var q, r := w / base, w % base;
      NextDigit(w, base, out[..offset], q, r);
      DivideBySmall(rDiv, base, rMod, w, q, r);
      SmallValue(rMod);
      out[offset] := HexDigit(rMod.lo % 256);
      offset := offset + 1;
      w := q;
      more := !Zero256(rDiv);
      assert out[..offset] == out[..offset - 1] + [HexDigit(r)];
    }
    Terminate(out, offset, v, base);
    ok := true;
  }

  lemma LastDigit(outLength: nat)
    requires outLength < 0x1_0000_0000
    ensures (outLength - 1) % 0x1_0000_0000 == Room(outLength) - 1
  {}

  lemma SmallValue(x: U256)
    requires x.Value() < 16
    ensures x.lo == x.Value() && x.lo % 256 == x.Value()
  {}
}
