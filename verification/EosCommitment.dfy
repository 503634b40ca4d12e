/** How the EOS contract turns a SHA-256 commitment into the two public inputs of its proof. */
module EosCommitment {
  import opened Powers
  import opened WideArithmetic
  import opened Uint256
  import opened Bytes
  import opened Wrappers
  import opened Uint256Codec

  /** `from_hex` into a buffer; `None` stands for the abort on an invalid character. */
  method FromHex(hexStr: string, out: array<Byte>) returns (size: Option<nat>)
    modifies out
    ensures match DecodeHex(hexStr, out.Length)
      case None => size.None?
      case Some(b) => size == Some(|b|) && |b| <= out.Length && out[..|b|] == b && out[|b|..] == old(out[|b|..])
  {
    var i, pos := 0, 0;
    assert hexStr[0..] == hexStr && out[..0] == [];
    PrependNext([], 0, DecodeHex(hexStr, out.Length));
    while i < |hexStr| && pos < out.Length
      invariant 0 <= i <= |hexStr| && 0 <= pos <= out.Length
      invariant forall k | pos <= k < out.Length :: out[k] == old(out[k])
      invariant DecodeHex(hexStr, out.Length) == Prepend(out[..pos], DecodeHex(hexStr[i..], out.Length - pos))
      decreases |hexStr| - i
    {
      ghost var rest, done := hexStr[i..], out[..pos];
      var high := FromHexChar(hexStr[i]);
      if high.None? { return None; }
      out[pos] := high.value * 16;
      i := i + 1;
      if i < |hexStr| {
        var low := FromHexChar(hexStr[i]);
        if low.None? { return None; }
        OrNibble(high.value, low.value);
        out[pos] := BitOr(out[pos], low.value);
        i := i + 1;
        assert rest[2..] == hexStr[i..];
        PrependNext(done, out[pos], DecodeHex(hexStr[i..], out.Length - pos - 1));
      } else {
        assert hexStr[i..] == [] && |rest| == 1;
        PrependNext(done, out[pos], Some([]));
        assert [out[pos]] + [] == [out[pos]];
      }
      pos := pos + 1;
      assert out[..pos] == done + [out[pos - 1]];
    }
    size := Some(pos);
    assert out[..pos] + [] == out[..pos];
  }

  lemma OrNibble(high: nat, low: nat)
    requires low < 16
    ensures BitOr(high * 16, low) == high * 16 + low
  {
    assert Pow2(4) == 16;
    BitOrDisjoint(high, low, 4);
  }

  function Repeat(c: char, n: nat): (s: string)
    ensures |s| == n && forall i | 0 <= i < n :: s[i] == c
  {
    if n == 0 then "" else Repeat(c, n - 1) + [c]
  }

  lemma {:induction false} LeadingZeros(n: nat, s: string)
    ensures Parse(Repeat('0', n) + s, 16) == Parse(s, 16)
  {
    ParseConcat(Repeat('0', n), s, 16);
    ZerosAreZero(n);
  }

  lemma {:induction false} ZerosAreZero(n: nat)
    ensures Parse(Repeat('0', n), 16) == 0
  {
    if n > 0 {
      ZerosAreZero(n - 1);
      assert Repeat('0', n)[..n - 1] == Repeat('0', n - 1);
    }
  }

  /** The largest value of 32 bytes shifted right by 3 has at most 64 hexadecimal (and 78 decimal) digits. */
  lemma FirstFits(v: nat)
    requires v < Pow(256, 32)
    ensures |Digits(v / 8, 16)| <= 64 && |Digits(v / 8, 10)| <= 78 && v / 8 < SCALAR_FIELD
  {
    ByteWords();
    SquareOfSixteen(32);
    DigitsLength(v / 8, 16, 64);
    TenToSeventyEight();
    DigitsLength(v / 8, 10, 78);
  }

  lemma TenToSeventyEight()
    ensures Pow(10, 78) >= B * B
  {
    assert Pow(10, 13) == 10_000_000_000_000;
    PowAdd(10, 13, 13);
    PowAdd(10, 26, 26);
    PowAdd(10, 26, 52);
  }

  method HexOf(bytes: seq<Byte>) returns (text: string)
    ensures text == EncodeHex(bytes)
  {
    text := "";
    for i := 0 to |bytes|
      invariant text + EncodeHex(bytes[i..]) == EncodeHex(bytes)
    {
      assert bytes[i..][0] == bytes[i] && bytes[i..][1..] == bytes[i + 1..];
      text := text + [HexDigit(bytes[i] / 16)];
      text := text + [HexDigit(bytes[i] % 16)];
    }
  }

  /** The commitment read back from its hexadecimal text and shifted right by 3 in place. */
  method FirstNumber(commitment: seq<Byte>, ghost v: nat) returns (first: U256)
    requires |commitment| == 32 && v == BeValue(commitment)
    ensures fresh(first) && first.Value() == v / 8
  {
    var commitmentHex := HexOf(commitment);
    var buffer := new Byte[32];
    HexRoundTrip(commitment, 32);
    var size := FromHex(commitmentHex, buffer);
    assert buffer[..] == commitment;
    first := new U256(0, 0);
    ReadU256BE(buffer[..], first);
    assert Pow2(3) == 8;
    Shiftr256(first, 3, first);
  }

  /** Its text, padded to 64 digits; the decimal text written first is overwritten. */
  method PaddedText(first: U256, ghost v: nat) returns (firstHex: string)
    requires first.Value() == v && |Digits(v, 16)| <= 64 && |Digits(v, 10)| <= 78
    ensures |firstHex| == 64 && HexText(firstHex) && Parse(firstHex, 16) == v
  {
    var firstStr := new char[100];
    var ok := ToString256(first, 10, firstStr, 100);
    ok := ToString256(first, 16, firstStr, 100);
    firstHex := TextBeforeTerminator(firstStr, v);
    ParseDigits(v, 16);
    LeadingZeros(64 - |firstHex|, firstHex);
    firstHex := Repeat('0', 64 - |firstHex|) + firstHex;
  }

  /** The 253-bit part of a commitment as 64 hexadecimal digits. */
  method FirstInput(commitment: seq<Byte>) returns (firstHex: string)
    requires |commitment| == 32
    ensures |firstHex| == 64 && HexText(firstHex) && Parse(firstHex, 16) == BeValue(commitment) / 8
  {
    ghost var v := BeValue(commitment);
    BeValueBound(commitment);
    FirstFits(v);
    var first := FirstNumber(commitment, v);
    firstHex := PaddedText(first, v / 8);
  }

  /** A C string: the characters before the terminator. */
  method TextBeforeTerminator(a: array<char>, ghost v: nat) returns (s: string)
    requires |Digits(v, 16)| < a.Length
    requires a[..|Digits(v, 16)|] == Digits(v, 16) && a[|Digits(v, 16)|] == '\0'
    ensures s == Digits(v, 16)
  {
    ParseDigits(v, 16);
    ghost var n := |Digits(v, 16)|;
    assert forall k | 0 <= k < n :: a[k] == Digits(v, 16)[k];
    var i := 0;
    while a[i] != '\0'
      invariant 0 <= i <= n
      decreases n - i
    {
      i := i + 1;
    }
    s := a[..i];
  }

  /** The low three bits as 64 hexadecimal digits. */
  method SecondInput(commitment: seq<Byte>) returns (secondHex: string)
    requires |commitment| == 32
    ensures |secondHex| == 64 && HexText(secondHex) && Parse(secondHex, 16) == BeValue(commitment) % 8
  {
    secondHex := "";
    for i := 0 to 63
      invariant secondHex == Repeat('0', i)
    {
      secondHex := secondHex + ['0'];
    }
    // the last byte masked with (1 << 3) - 1, added to the character '0'
    var last := commitment[31] % 8;
    var digit := ('0' as int + last) as char;
    assert commitment[..31] + [commitment[31]] == commitment;
    BeValueStep(commitment[..31], commitment[31]);
    LeadingZeros(63, [digit]);
    assert [digit][..0] == [] && Parse([], 16) == 0;
    secondHex := secondHex + [digit];
  }

  /** Both inputs decode to field elements that together are the commitment. */
  lemma InputsRecompose(commitment: seq<Byte>, firstHex: string, secondHex: string)
    requires |commitment| == 32 && |firstHex| == 64 && |secondHex| == 64
    requires HexText(firstHex) && Parse(firstHex, 16) == BeValue(commitment) / 8
    requires HexText(secondHex) && Parse(secondHex, 16) == BeValue(commitment) % 8
    ensures var a, b := DecodeHex(firstHex, 32), DecodeHex(secondHex, 32);
      a.Some? && b.Some? && |a.value| == 32 && |b.value| == 32 &&
      BeValue(a.value) * 8 + BeValue(b.value) == BeValue(commitment) &&
      InSnarkField(a.value) && InSnarkField(b.value)
  {
    DecodeHexValue(firstHex, 32);
    DecodeHexValue(secondHex, 32);
    BeValueBound(commitment);
    FirstFits(BeValue(commitment));
    InSnarkFieldExact(DecodeHex(firstHex, 32).value);
    InSnarkFieldExact(DecodeHex(secondHex, 32).value);
  }

  /** Two commitments with equal inputs are equal: nothing is lost by the split. */
  lemma SplitIsInjective(c: seq<Byte>, d: seq<Byte>)
    requires |c| == |d| == 32 && BeValue(c) / 8 == BeValue(d) / 8 && BeValue(c) % 8 == BeValue(d) % 8
    ensures c == d
  {
    BeBytesOfValue(c);
    BeBytesOfValue(d);
  }

  // ------------------------------------------------ the linear combination of the inputs

  /** The 32-byte buffer after the first `n` inputs were decoded into it, one over the other. */
  function Decoded(inputs: seq<string>, n: nat): (r: Option<seq<Byte>>)
    requires n <= |inputs|
    ensures r.Some? ==> |r.value| == 32
  {
    if n == 0 then Some(seq(32, (i: nat) => 0))
    else
      var before, b := Decoded(inputs, n - 1), DecodeHex(inputs[n - 1], 32);
      DecodedAtMost(inputs[n - 1], 32);
      if before.None? || b.None? then None else Some(b.value + before.value[|b.value|..])
  }

  /** A full text of 64 digits does not depend on what the buffer held before. */
  lemma FullTextDecoded(inputs: seq<string>, n: nat)
    requires 1 <= n <= |inputs| && |inputs[n - 1]| == 64 && Decoded(inputs, n).Some?
    ensures Decoded(inputs, n) == DecodeHex(inputs[n - 1], 32)
  {
    DecodedLength(inputs[n - 1], 32);
    var b, before := DecodeHex(inputs[n - 1], 32).value, Decoded(inputs, n - 1).value;
    assert b + before[32..] == b;
  }

  /** zero + ic[1] * x[0] + ... + ic[n] * x[n-1], added from the left; `None` once a check or an operation fails. */
  function Accumulated<P>(add: (P, P) -> Option<P>, mul: (P, seq<Byte>) -> Option<P>, zero: P, ic: seq<P>,
                          inputs: seq<string>, n: nat): Option<P>
    requires n <= |inputs| && n < |ic|
  {
    if n == 0 then Some(zero)
    else
      var sum, x := Accumulated(add, mul, zero, ic, inputs, n - 1), Decoded(inputs, n);
      if sum.None? || x.None? || BeValue(x.value) >= SCALAR_FIELD then None
      else
        var term := mul(ic[n], x.value);
        if term.None? then None else add(sum.value, term.value)
  }

  /**
   The whole computation, step by step: `x[i]` is the buffer after `i` inputs, `t[i]` the point of input `i` times the
   field element in it, `s[i]` the sum of the first `i` terms from the left.
   */
  ghost predicate Computes<P>(add: (P, P) -> Option<P>, mul: (P, seq<Byte>) -> Option<P>, zero: P, ic: seq<P>,
                              inputs: seq<string>, x: seq<seq<Byte>>, t: seq<P>, s: seq<P>)
  {
    && |ic| > |t| && |inputs| >= |t| && |x| == |s| == |t| + 1
    && x[0] == seq(32, (i: nat) => 0) && s[0] == zero
    && forall i: nat | i < |t| :: OneTerm(add, mul, ic, inputs, x, t, s, i)
  }

  ghost predicate OneTerm<P>(add: (P, P) -> Option<P>, mul: (P, seq<Byte>) -> Option<P>, ic: seq<P>,
                             inputs: seq<string>, x: seq<seq<Byte>>, t: seq<P>, s: seq<P>, i: nat)
    requires i < |t| < |ic| && |t| <= |inputs| && |x| == |s| == |t| + 1
  {
    && Overwrites(inputs[i], x[i], x[i + 1]) && BeValue(x[i + 1]) < SCALAR_FIELD
    && mul(ic[i + 1], x[i + 1]) == Some(t[i]) && add(s[i], t[i]) == Some(s[i + 1])
  }

  /** The text decodes, and its bytes replace the front of the buffer. */
  ghost predicate Overwrites(text: string, before: seq<Byte>, after: seq<Byte>) {
    var b := DecodeHex(text, 32);
    b.Some? && |b.value| <= |before| == |after| == 32 && after[..|b.value|] == b.value &&
    after[|b.value|..] == before[|b.value|..]
  }

  /** The sum exists exactly when every step of the computation does, and is its last partial sum. */
  lemma {:induction false} AccumulatedComputes<P>(
      add: (P, P) -> Option<P>, mul: (P, seq<Byte>) -> Option<P>, zero: P, ic: seq<P>, inputs: seq<string>, n: nat)
      returns (x: seq<seq<Byte>>, t: seq<P>, s: seq<P>)
    requires n <= |inputs| && n < |ic| && Accumulated(add, mul, zero, ic, inputs, n).Some?
    ensures Computes(add, mul, zero, ic, inputs, x, t, s) && |t| == n
    ensures Accumulated(add, mul, zero, ic, inputs, n) == Some(s[n]) && Decoded(inputs, n) == Some(x[n])
  {
    if n == 0 {
      x, t, s := [seq(32, (i: nat) => 0)], [], [zero];
    } else {
      var x', t', s' := AccumulatedComputes(add, mul, zero, ic, inputs, n - 1);
      var buffer, sum := Decoded(inputs, n).value, Accumulated(add, mul, zero, ic, inputs, n).value;
      NextOverwrites(inputs, n);
      x, t, s := x' + [buffer], t' + [mul(ic[n], buffer).value], s' + [sum];
      forall i: nat | i < n ensures OneTerm(add, mul, ic, inputs, x, t, s, i) {
        if i < n - 1 { assert OneTerm(add, mul, ic, inputs, x', t', s', i); }
      }
    }
  }

  lemma NextOverwrites(inputs: seq<string>, n: nat)
    requires 1 <= n <= |inputs| && Decoded(inputs, n).Some?
    ensures Decoded(inputs, n - 1).Some?
    ensures Overwrites(inputs[n - 1], Decoded(inputs, n - 1).value, Decoded(inputs, n).value)
  {
    DecodedAtMost(inputs[n - 1], 32);
  }

  lemma {:induction false} ComputedIsAccumulated<P>(
      add: (P, P) -> Option<P>, mul: (P, seq<Byte>) -> Option<P>, zero: P, ic: seq<P>, inputs: seq<string>,
      x: seq<seq<Byte>>, t: seq<P>, s: seq<P>, n: nat)
    requires Computes(add, mul, zero, ic, inputs, x, t, s) && n <= |t|
    ensures Accumulated(add, mul, zero, ic, inputs, n) == Some(s[n]) && Decoded(inputs, n) == Some(x[n])
  {
    if n > 0 {
      ComputedIsAccumulated(add, mul, zero, ic, inputs, x, t, s, n - 1);
      assert OneTerm(add, mul, ic, inputs, x, t, s, n - 1);
      var b := DecodeHex(inputs[n - 1], 32).value;
      assert x[n] == b + x[n - 1][|b|..];
    }
  }

  lemma {:induction false} FailureStays<P>(add: (P, P) -> Option<P>, mul: (P, seq<Byte>) -> Option<P>, zero: P,
                                           ic: seq<P>, inputs: seq<string>, m: nat, n: nat)
    requires m <= n <= |inputs| && n < |ic| && Accumulated(add, mul, zero, ic, inputs, m).None?
    ensures Accumulated(add, mul, zero, ic, inputs, n).None?
  {
    if m < n { FailureStays(add, mul, zero, ic, inputs, m, n - 1); }
  }

  /**
   `calculate_vk_x`: the accumulator alternates between the two halves of one buffer, the decoded input lives in
   another that is never cleared. `None` stands for the abort of a failed check.
   */
  method CalculateVkX<P(!new)>(add: (P, P) -> Option<P>, mul: (P, seq<Byte>) -> Option<P>, zero: P, ic: seq<P>,
                         inputs: seq<string>) returns (r: Option<P>)
    requires ic != []
    ensures |inputs| + 1 != |ic| ==> r == None
    ensures |inputs| + 1 == |ic| ==>
      r == match Accumulated(add, mul, zero, ic, inputs, |inputs|) case None => None case Some(s) => add(ic[0], s)
    ensures r.Some? ==> exists x, t, s ::
      Computes(add, mul, zero, ic, inputs, x, t, s) && |t| == |inputs| && r == add(ic[0], s[|inputs|])
    ensures forall x, t, s | |inputs| + 1 == |ic| && Computes(add, mul, zero, ic, inputs, x, t, s) && |t| == |inputs| ::
      r == add(ic[0], s[|inputs|])
  {
    r := LinearCombination(add, mul, zero, ic, inputs);
    if r.Some? {
      ghost var x, t, s := AccumulatedComputes(add, mul, zero, ic, inputs, |inputs|);
    }
    forall x, t, s | |inputs| + 1 == |ic| && Computes(add, mul, zero, ic, inputs, x, t, s) && |t| == |inputs|
      ensures r == add(ic[0], s[|inputs|])
    {
      ComputedIsAccumulated(add, mul, zero, ic, inputs, x, t, s, |inputs|);
    }
  }

  /** Two inputs of 64 digits, as the contract passes them: ic[0] + (ic[1] * x0 + ic[2] * x1). */
  lemma TwoInputs<P>(add: (P, P) -> Option<P>, mul: (P, seq<Byte>) -> Option<P>, zero: P, ic: seq<P>,
                     inputs: seq<string>, x0: seq<Byte>, x1: seq<Byte>, t0: P, t1: P, s1: P, s2: P)
    requires |ic| == 3 && |inputs| == 2 && |inputs[0]| == |inputs[1]| == 64
    requires DecodeHex(inputs[0], 32) == Some(x0) && DecodeHex(inputs[1], 32) == Some(x1)
    requires BeValue(x0) < SCALAR_FIELD && BeValue(x1) < SCALAR_FIELD
    requires mul(ic[1], x0) == Some(t0) && mul(ic[2], x1) == Some(t1)
    requires add(zero, t0) == Some(s1) && add(s1, t1) == Some(s2)
    ensures Computes(add, mul, zero, ic, inputs, [seq(32, (i: nat) => 0), x0, x1], [t0, t1], [zero, s1, s2])
  {
    DecodedLength(inputs[0], 32);
    DecodedLength(inputs[1], 32);
    var x, t, s := [seq(32, (i: nat) => 0), x0, x1], [t0, t1], [zero, s1, s2];
    assert OneTerm(add, mul, ic, inputs, x, t, s, 0) && OneTerm(add, mul, ic, inputs, x, t, s, 1);
  }

  /** The loop of `calculate_vk_x`. */
  method LinearCombination<P>(add: (P, P) -> Option<P>, mul: (P, seq<Byte>) -> Option<P>, zero: P, ic: seq<P>,
                              inputs: seq<string>) returns (r: Option<P>)
    requires ic != []
    ensures |inputs| + 1 != |ic| ==> r == None
    ensures |inputs| + 1 == |ic| ==>
      r == match Accumulated(add, mul, zero, ic, inputs, |inputs|) case None => None case Some(s) => add(ic[0], s)
  {
    if |inputs| + 1 != |ic| { return None; }
    var tmp := new Byte[32](i => 0);
    assert tmp[..] == seq(32, (i: nat) => 0);
    var low, high := zero, zero;
    var i := 0;
    while i < |inputs|
      invariant 0 <= i <= |inputs| && Decoded(inputs, i) == Some(tmp[..])
      invariant Accumulated(add, mul, zero, ic, inputs, i) == Some(if i % 2 == 1 then low else high)
    {
      var sum := AddTerm(add, mul, zero, ic, inputs, i, if i % 2 == 1 then low else high, tmp);
      if sum.None? {
        FailureStays(add, mul, zero, ic, inputs, i + 1, |inputs|);
        return None;
      }
      if i % 2 == 1 {
        high := sum.value;
      } else {
        low := sum.value;
      }
      NextParity(i);
      i := i + 1;
    }
    r := add(ic[0], if i % 2 == 1 then low else high);
  }

  lemma NextParity(i: nat)
    ensures (i + 1) % 2 == 1 <==> i % 2 != 1
  {}

  /** One input: decoded, checked, multiplied and added to the half that holds the sum so far. */
  method AddTerm<P>(add: (P, P) -> Option<P>, mul: (P, seq<Byte>) -> Option<P>, ghost zero: P, ic: seq<P>,
                    inputs: seq<string>, i: nat, before: P, tmp: array<Byte>) returns (sum: Option<P>)
    requires i < |inputs| && i + 1 < |ic| && tmp.Length == 32 && Decoded(inputs, i) == Some(tmp[..])
    requires Accumulated(add, mul, zero, ic, inputs, i) == Some(before)
    modifies tmp
    ensures sum == Accumulated(add, mul, zero, ic, inputs, i + 1)
    ensures sum.Some? ==> Decoded(inputs, i + 1) == Some(tmp[..])
  {
    var ok := ReadInput(inputs, i, tmp);
    if !ok { return None; }
    var tmpB := mul(ic[i + 1], tmp[..]);
    if tmpB.None? { return None; }
    sum := add(before, tmpB.value);
  }

  /** Decodes one input over the buffer and checks that the buffer holds a field element. */
  method ReadInput(inputs: seq<string>, i: nat, tmp: array<Byte>) returns (ok: bool)
    requires i < |inputs| && tmp.Length == 32 && Decoded(inputs, i) == Some(tmp[..])
    modifies tmp
    ensures ok <==> Decoded(inputs, i + 1).Some? && BeValue(Decoded(inputs, i + 1).value) < SCALAR_FIELD
    ensures ok ==> Decoded(inputs, i + 1) == Some(tmp[..])
  {
    var size := FromHex(inputs[i], tmp);
    if size.None? { return false; }
    assert tmp[..] == tmp[..size.value] + tmp[size.value..];
    InSnarkFieldExact(tmp[..]);
    ok := InSnarkField(tmp[..]);
  }

  lemma {:induction false} DecodedAtMost(s: string, room: nat)
    ensures DecodeHex(s, room).Some? ==> |DecodeHex(s, room).value| <= room
    decreases |s|
  {
    if |s| >= 2 && room > 0 { DecodedAtMost(s[2..], room - 1); }
  }

  lemma {:induction false} DecodedLength(s: string, room: nat)
    requires |s| == 2 * room && DecodeHex(s, room).Some?
    ensures |DecodeHex(s, room).value| == room
    decreases room
  {
    if room > 0 { DecodedLength(s[2..], room - 1); }
  }
}
