/** Index widths and the bit-string codecs the sparse-matrix oracles store their entries in. */
module SparseCodec {
  import opened Wrappers
  import opened BitArith

  /** ceil(log2(n)) for n >= 1, by repeated halving rounded up. */
  function CeilLog2(n: int): nat
    requires n >= 1
    decreases n
  {
    if n == 1 then 0 else 1 + CeilLog2((n + 1) / 2)
  }

  /** 2^CeilLog2(n) is the least power of two that is at least n. */
  lemma {:induction false} CeilLog2Least(n: int)
    requires n >= 1
    ensures n <= Pow2(CeilLog2(n))
    ensures CeilLog2(n) == 0 || Pow2(CeilLog2(n) - 1) < n
  {
    if n > 1 {
      var h := (n + 1) / 2;
      CeilLog2Least(h);
      var c := CeilLog2(h);
      assert Pow2(c + 1) == 2 * Pow2(c);
      if c > 0 {
        assert Pow2(c) == 2 * Pow2(c - 1);
      }
    }
  }

  /** `_bits_for_range(size)`: the number of bits an index in [0, size) is stored in. It is
      at least 1, every index below size fits, and no smaller width of at least 1 would do. */
  function BitsForRange(size: int): (b: nat)
    ensures b >= 1 && size <= Pow2(b)
    ensures b == 1 || Pow2(b - 1) < size
  {
    if size <= 1 then 1
    else
      CeilLog2Least(size);
      CeilLog2(size)
  }

  /** An index fits its width: [0, size) lies inside [0, 2^BitsForRange(size)). */
  lemma IndexFits(i: int, size: int)
    requires 0 <= i < size
    ensures 0 <= i < Pow2(BitsForRange(size))
  {
  }

  /** No width of at least 1 below BitsForRange(size) holds every index of [0, size). */
  lemma BitsForRangeLeast(size: int, b: nat)
    requires 1 <= b < BitsForRange(size)
    ensures Pow2(b) < size
  {
    Pow2Monotone(b, BitsForRange(size) - 1);
  }

  /** `_encode_uint(value, n_bits)`: the value as n_bits binary digits, most significant
      first. `format` pads to the width and never truncates, and with a width of zero it
      still prints the single digit of 0. */
  function EncodeUint(value: int, nBits: nat): (r: Result<string, Error>)
    ensures r.Success? <==> 0 <= value < Pow2(nBits)
    ensures r.Failure? ==> r.error == OverflowError
    ensures r.Success? ==>
      && |r.value| == (if nBits == 0 then 1 else nBits)
      && IsBinaryString(r.value)
      && FromBinary(r.value) == value
  {
    if value < 0 || value >= Pow2(nBits) then Failure(OverflowError)
    else if nBits == 0 then Success("0")
    else
      FromToBinary(value, nBits);
      Success(ToBinary(value, nBits))
  }

  /** `_decode_uint(bits)`: Python's `int(bits, 2)` on a string of binary digits. */
  function DecodeUint(bits: string): (r: Result<int, Error>)
    ensures r.Success? <==> bits != [] && IsBinaryString(bits)
    ensures r.Failure? ==> r.error == MalformedBits
    ensures r.Success? ==> 0 <= r.value < Pow2(|bits|) && ToBinary(r.value, |bits|) == bits
  {
    if bits == [] || !IsBinaryString(bits) then Failure(MalformedBits)
    else
      FromBinaryRange(bits);
      ToFromBinary(bits);
      Success(FromBinary(bits))
  }

  /** Decoding undoes encoding. */
  lemma UintRoundTrip(value: int, nBits: nat)
    requires 0 <= value < Pow2(nBits)
    ensures EncodeUint(value, nBits).Success?
    ensures DecodeUint(EncodeUint(value, nBits).value) == Success(value)
  {
  }

  /** Encoding at the string's own width undoes decoding. */
  lemma UintDecodeEncode(bits: string)
    requires bits != [] && IsBinaryString(bits)
    ensures DecodeUint(bits).Success?
    ensures EncodeUint(DecodeUint(bits).value, |bits|) == Success(bits)
  {
  }

  /** Two encodings at the same width are equal exactly when the values are. */
  lemma UintInjective(a: int, b: int, nBits: nat)
    requires EncodeUint(a, nBits).Success? && EncodeUint(b, nBits).Success?
    ensures EncodeUint(a, nBits) == EncodeUint(b, nBits) <==> a == b
  {
  }

  /** Concatenated encodings of pairs at fixed widths are equal exactly when the pairs are. */
  lemma PairInjective(a: int, b: int, c: int, d: int, m: nat, n: nat)
    requires EncodeUint(a, m).Success? && EncodeUint(b, n).Success?
    requires EncodeUint(c, m).Success? && EncodeUint(d, n).Success?
    ensures (EncodeUint(a, m).value + EncodeUint(b, n).value ==
             EncodeUint(c, m).value + EncodeUint(d, n).value) <==> a == c && b == d
  {
    var s, t := EncodeUint(a, m).value, EncodeUint(b, n).value;
    var u, v := EncodeUint(c, m).value, EncodeUint(d, n).value;
    if s + t == u + v {
      assert |s| == |u|;
      assert s == (s + t)[..|s|] && u == (u + v)[..|s|];
      assert t == (s + t)[|s|..] && v == (u + v)[|s|..];
    }
  }

  /** The scaled integers a signed width of totalBits >= 1 can hold. */
  predicate SignedFits(scaled: int, totalBits: nat)
    requires totalBits >= 1
  {
    -(Pow2(totalBits - 1) as int) <= scaled <= Pow2(totalBits - 1) - 1
  }

  /** `_encode_signed_fixed` after rounding: the scaled integer value * 2^frac_bits in two's
      complement on total_bits digits. A width of zero makes the range bounds shift by -1,
      which Python rejects. */
  function EncodeSignedScaled(scaled: int, totalBits: nat): (r: Result<string, Error>)
    ensures totalBits == 0 ==> r == Failure(NegativeShift)
    ensures totalBits >= 1 ==> (r.Success? <==> SignedFits(scaled, totalBits))
    ensures totalBits >= 1 && r.Failure? ==> r.error == OverflowError
    ensures r.Success? ==>
      && |r.value| == totalBits && IsBinaryString(r.value)
      && (r.value[0] == '1' <==> scaled < 0)
  {
    if totalBits == 0 then Failure(NegativeShift)
    else
      var minInt := -(Pow2(totalBits - 1) as int);
      var maxInt := Pow2(totalBits - 1) - 1;
      if scaled < minInt || scaled > maxInt then Failure(OverflowError)
      else
        var u := if scaled < 0 then Pow2(totalBits) + scaled else scaled;
        assert Pow2(totalBits) == 2 * Pow2(totalBits - 1);
        ToBinaryLeading(u, totalBits);
        Success(ToBinary(u, totalBits))
  }

  /** `_decode_signed_fixed` before the division: the two's-complement reading of the
      string, its width taken from its length. */
  function DecodeSignedRaw(bits: string): (r: Result<int, Error>)
    ensures r.Success? <==> bits != [] && IsBinaryString(bits)
    ensures r.Failure? ==> r.error == MalformedBits
    ensures r.Success? ==> -(Pow2(|bits| - 1) as int) <= r.value < Pow2(|bits| - 1)
    ensures r.Success? ==> (r.value < 0 <==> bits[0] == '1')
  {
    var raw :- DecodeUint(bits);
    var n := |bits|;
    assert Pow2(n) == 2 * Pow2(n - 1);
    ToBinaryLeading(raw, n);
    if bits[0] == '1' then Success(raw - Pow2(n)) else Success(raw)
  }

  /** `_decode_signed_fixed(bits, frac_bits)`: the signed reading divided by 2^frac_bits. The
      string is read before the divisor is formed, so a malformed string is reported before a
      negative fraction width. */
  function DecodeSignedFixed(bits: string, fracBits: int): (r: Result<real, Error>)
    ensures r.Success? <==> DecodeSignedRaw(bits).Success? && fracBits >= 0
    ensures DecodeSignedRaw(bits).Failure? ==> r == Failure(MalformedBits)
    ensures DecodeSignedRaw(bits).Success? && fracBits < 0 ==> r == Failure(NegativeShift)
  {
    var raw :- DecodeSignedRaw(bits);
    if fracBits < 0 then Failure(NegativeShift)
    else Success(raw as real / Pow2(fracBits) as real)
  }

  /** Decoding a signed encoding gives back the scaled integer, and so the value
      scaled / 2^frac_bits. */
  lemma SignedRoundTrip(scaled: int, totalBits: nat, fracBits: nat)
    requires totalBits >= 1 && SignedFits(scaled, totalBits)
    ensures EncodeSignedScaled(scaled, totalBits).Success?
    ensures DecodeSignedRaw(EncodeSignedScaled(scaled, totalBits).value) == Success(scaled)
    ensures DecodeSignedFixed(EncodeSignedScaled(scaled, totalBits).value, fracBits) ==
            Success(scaled as real / Pow2(fracBits) as real)
  {
    var s := EncodeSignedScaled(scaled, totalBits).value;
    var u := if scaled < 0 then Pow2(totalBits) + scaled else scaled;
    assert Pow2(totalBits) == 2 * Pow2(totalBits - 1);
    assert s == ToBinary(u, totalBits);
    FromToBinary(u, totalBits);
  }

  /** Python's `round` on a real: the nearest integer, and the even one of the two nearest
      when the value lies halfway between them. */
  function RoundHalfEven(x: real): (n: int)
    ensures -0.5 <= n as real - x <= 0.5
    ensures n as real - x == 0.5 || n as real - x == -0.5 ==> n % 2 == 0
  {
    var f := x.Floor;
    var d := x - f as real;
    if d < 0.5 then f
    else if d > 0.5 then f + 1
    else if f % 2 == 0 then f
    else f + 1
  }

  /** There is one such integer: any integer within 1/2 of x, even on a tie, is the rounding. */
  lemma RoundHalfEvenUnique(x: real, n: int)
    requires -0.5 <= n as real - x <= 0.5
    requires n as real - x == 0.5 || n as real - x == -0.5 ==> n % 2 == 0
    ensures RoundHalfEven(x) == n
  {
    var m := RoundHalfEven(x);
    assert -1.0 <= (n - m) as real <= 1.0;
  }

  /** Rounding leaves an integer where it is. */
  lemma RoundInteger(n: int)
    ensures RoundHalfEven(n as real) == n
  {
    RoundHalfEvenUnique(n as real, n);
  }

  /** `int(round(value * (1 << frac_bits)))`: the value scaled to frac_bits fractional bits. */
  function ScaledValue(value: real, fracBits: nat): int {
    RoundHalfEven(value * Pow2(fracBits) as real)
  }

  /** The value a fixed-point string with frac_bits fractional bits stands for once
      encoded: the scaled integer over 2^frac_bits. */
  function Quantized(value: real, fracBits: nat): real {
    ScaledValue(value, fracBits) as real / Pow2(fracBits) as real
  }

  /** `_encode_signed_fixed(value, total_bits, frac_bits)`: scale, round to nearest (ties to
      even), then store in two's complement. A negative width raises when the shift is formed:
      the fraction width when the scale is, the total width when the range bounds are. */
  function EncodeSignedFixed(value: real, totalBits: int, fracBits: int): (r: Result<string, Error>)
    ensures r.Success? <==>
      fracBits >= 0 && totalBits >= 1 && SignedFits(ScaledValue(value, fracBits), totalBits)
    ensures r.Failure? ==>
      r.error == (if fracBits < 0 || totalBits < 1 then NegativeShift else OverflowError)
    ensures r.Success? ==>
      && |r.value| == totalBits && IsBinaryString(r.value)
      && (r.value[0] == '1' <==> ScaledValue(value, fracBits) < 0)
  {
    if fracBits < 0 || totalBits < 1 then Failure(NegativeShift)
    else EncodeSignedScaled(ScaledValue(value, fracBits), totalBits)
  }

  /** The quantized value lies within half a unit of the last place of the value. */
  lemma QuantizedError(value: real, fracBits: nat)
    ensures var q, p := Quantized(value, fracBits), Pow2(fracBits) as real;
      -0.5 <= (q - value) * p <= 0.5
  {
    var p := Pow2(fracBits) as real;
    var s := ScaledValue(value, fracBits) as real;
    assert (s / p - value) * p == s - value * p;
  }

  /** Decoding what the fixed-point encoder produced gives the quantized value: the
      encoded entry read back within half a unit of the last place. */
  lemma FixedRoundTrip(value: real, totalBits: int, fracBits: int)
    requires EncodeSignedFixed(value, totalBits, fracBits).Success?
    ensures fracBits >= 0
    ensures DecodeSignedFixed(EncodeSignedFixed(value, totalBits, fracBits).value, fracBits) ==
            Success(Quantized(value, fracBits))
  {
    SignedRoundTrip(ScaledValue(value, fracBits), totalBits, fracBits);
  }

  /** A value that is already a multiple of 2^-frac_bits is stored exactly. */
  lemma QuantizedExact(n: int, fracBits: nat)
    ensures Quantized(n as real / Pow2(fracBits) as real, fracBits) == n as real / Pow2(fracBits) as real
  {
    var p := Pow2(fracBits) as real;
    var x := n as real / p;
    assert x * p == n as real;
    RoundInteger(n);
    assert ScaledValue(x, fracBits) == n;
  }

  /** Re-encoding the signed reading of a binary string at its own width gives it back. */
  lemma SignedDecodeEncode(bits: string)
    requires bits != [] && IsBinaryString(bits)
    ensures DecodeSignedRaw(bits).Success?
    ensures EncodeSignedScaled(DecodeSignedRaw(bits).value, |bits|) == Success(bits)
  {
    var n := |bits|;
    var raw := FromBinary(bits);
    FromBinaryRange(bits);
    ToFromBinary(bits);
    assert Pow2(n) == 2 * Pow2(n - 1);
  }
}
