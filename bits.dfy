/** Integer bit arithmetic shared by the function forms, the synthesiser and the codecs.
    Packed integers are read least significant bit first (`x >> i & 1`); bit strings are
    written most significant bit first, as Python's `format(v, "0nb")` writes them. */
module BitArith {

  /** 2^n, Python's `1 << n` for a non-negative shift. */
  function Pow2(n: nat): (r: nat)
    ensures r >= 1
  {
    if n == 0 then 1 else 2 * Pow2(n - 1)
  }

  lemma Pow2Monotone(a: nat, b: nat)
    requires a <= b
    ensures Pow2(a) <= Pow2(b)
  {
    if a < b {
      Pow2Monotone(a, b - 1);
    }
  }

  /** 2^(a+b) == 2^a * 2^b, so a value packed from a high and a low field fits their total width. */
  lemma {:induction false} Pow2Add(a: nat, b: nat)
    ensures Pow2(a + b) == Pow2(a) * Pow2(b)
  {
    if a > 0 {
      Pow2Add(a - 1, b);
    }
  }

  /** Bit i of x, Python's `(x >> i) & 1`: a right shift by i is i floor-halvings, and
      Dafny's `/` and `%` by 2 are floor division and a non-negative remainder. */
  function Bit(x: int, i: nat): (b: int)
    ensures b == 0 || b == 1
    decreases i
  {
    if i == 0 then x % 2 else Bit(x / 2, i - 1)
  }

  lemma {:induction false} BitOfZero(i: nat)
    ensures Bit(0, i) == 0
  {
    if i > 0 {
      BitOfZero(i - 1);
    }
  }

  /** Bits at or above the width of a value in range are zero. */
  lemma {:induction false} BitAbove(x: int, n: nat, i: nat)
    requires 0 <= x < Pow2(n) && n <= i
    ensures Bit(x, i) == 0
  {
    if n == 0 {
      assert x == 0;
      BitOfZero(i);
    } else {
      BitAbove(x / 2, n - 1, i - 1);
    }
  }

  /** Two values of width n that agree on their n low bits are equal. */
  lemma {:induction false} BitsDetermine(x: int, y: int, n: nat)
    requires 0 <= x < Pow2(n) && 0 <= y < Pow2(n)
    requires forall i :: 0 <= i < n ==> Bit(x, i) == Bit(y, i)
    ensures x == y
  {
    if n > 0 {
      assert Bit(x, 0) == Bit(y, 0);
      forall i | 0 <= i < n - 1
        ensures Bit(x / 2, i) == Bit(y / 2, i)
      {
        assert Bit(x, i + 1) == Bit(y, i + 1);
      }
      BitsDetermine(x / 2, y / 2, n - 1);
    }
  }

  predicate IsBitSeq(bs: seq<int>) {
    forall i :: 0 <= i < |bs| ==> bs[i] == 0 || bs[i] == 1
  }

  /** The integer whose bit i is bs[i] (least significant first). */
  function Pack(bs: seq<int>): int {
    if bs == [] then 0 else bs[0] + 2 * Pack(bs[1..])
  }

  lemma {:induction false} PackRange(bs: seq<int>)
    requires IsBitSeq(bs)
    ensures 0 <= Pack(bs) < Pow2(|bs|)
  {
    if bs != [] {
      PackRange(bs[1..]);
    }
  }

  lemma {:induction false} PackBit(bs: seq<int>, i: nat)
    requires IsBitSeq(bs) && i < |bs|
    ensures Bit(Pack(bs), i) == bs[i]
  {
    PackRange(bs);
    if i > 0 {
      PackBit(bs[1..], i - 1);
    }
  }

  /** Setting the next higher bit adds its weight: `out |= 1 << k` on `out < 2^k`. */
  lemma {:induction false} PackSnoc(bs: seq<int>, b: int)
    ensures Pack(bs + [b]) == Pack(bs) + b * Pow2(|bs|)
  {
    if bs == [] {
      assert [b][1..] == [];
    } else {
      assert (bs + [b])[1..] == bs[1..] + [b];
      PackSnoc(bs[1..], b);
    }
  }

  /** The value of a register given as wires, wire 0 least significant. */
  function RegisterValue(s: seq<bool>): nat {
    if s == [] then 0 else (if s[0] then 1 else 0) + 2 * RegisterValue(s[1..])
  }

  /** The n wires holding v with wire i carrying bit i. */
  function Wires(v: int, n: nat): (s: seq<bool>)
    ensures |s| == n
  {
    seq(n, i requires 0 <= i < n => Bit(v, i) == 1)
  }

  /** Reading a register back yields the value it was loaded with. */
  lemma {:induction false} RegisterValueWires(v: int, n: nat)
    requires 0 <= v < Pow2(n)
    ensures RegisterValue(Wires(v, n)) == v
  {
    if n > 0 {
      assert Wires(v, n)[1..] == Wires(v / 2, n - 1);
      RegisterValueWires(v / 2, n - 1);
    }
  }

  lemma WiresOfZero(n: nat)
    ensures Wires(0, n) == seq(n, i => false)
  {
    forall i | 0 <= i < n
      ensures Bit(0, i) == 0
    {
      BitOfZero(i);
    }
  }

  function Digit(b: int): char {
    if b == 1 then '1' else '0'
  }

  predicate IsBinaryString(s: string) {
    forall i :: 0 <= i < |s| ==> s[i] == '0' || s[i] == '1'
  }

  /** The n low bits of v, most significant first. */
  function ToBinary(v: int, n: nat): (s: string)
    ensures |s| == n && IsBinaryString(s)
    decreases n
  {
    if n == 0 then [] else ToBinary(v / 2, n - 1) + [Digit(v % 2)]
  }

  /** The value of a '0'/'1' string read most significant first (Python's `int(s, 2)`). */
  function FromBinary(s: string): int {
    if s == [] then 0 else 2 * FromBinary(s[..|s| - 1]) + (if s[|s| - 1] == '1' then 1 else 0)
  }

  lemma {:induction false} FromBinaryRange(s: string)
    ensures 0 <= FromBinary(s) < Pow2(|s|)
  {
    if s != [] {
      FromBinaryRange(s[..|s| - 1]);
    }
  }

  lemma {:induction false} FromToBinary(v: int, n: nat)
    requires 0 <= v < Pow2(n)
    ensures FromBinary(ToBinary(v, n)) == v
  {
    if n > 0 {
      var s := ToBinary(v, n);
      assert s[..|s| - 1] == ToBinary(v / 2, n - 1);
      FromToBinary(v / 2, n - 1);
    }
  }

  lemma {:induction false} ToFromBinary(s: string)
    requires IsBinaryString(s)
    ensures ToBinary(FromBinary(s), |s|) == s
  {
    if s != [] {
      var p := s[..|s| - 1];
      ToFromBinary(p);
      var v := FromBinary(s);
      assert v / 2 == FromBinary(p);
    }
  }

  /** The leading digit of an n-bit string is '1' exactly for the upper half of the range. */
  lemma {:induction false} ToBinaryLeading(u: int, n: nat)
    requires 1 <= n && 0 <= u < Pow2(n)
    ensures (ToBinary(u, n)[0] == '1') <==> u >= Pow2(n - 1)
  {
    if n > 1 {
      ToBinaryLeading(u / 2, n - 1);
      assert ToBinary(u, n)[0] == ToBinary(u / 2, n - 1)[0];
    }
  }

  /** Strings of equal width that read the same are the same string. */
  lemma BinaryInjective(s: string, t: string)
    requires IsBinaryString(s) && IsBinaryString(t) && |s| == |t|
    requires FromBinary(s) == FromBinary(t)
    ensures s == t
  {
    ToFromBinary(s);
    ToFromBinary(t);
  }

  /** The integers 0 .. n-1 as a set. */
  function Domain(n: int): (d: set<int>)
    ensures forall x :: x in d <==> 0 <= x < n
    decreases n
  {
    if n <= 0 then {} else Domain(n - 1) + {n - 1}
  }

  lemma {:induction false} DomainSize(n: nat)
    ensures |Domain(n)| == n
  {
    if n > 0 {
      DomainSize(n - 1);
    }
  }

  lemma {:induction false} SubsetSize<T>(a: set<T>, b: set<T>)
    requires a <= b
    ensures |a| <= |b|
    ensures |a| == |b| ==> a == b
    decreases |b|
  {
    if b != {} {
      var y :| y in b;
      if y in a {
        SubsetSize(a - {y}, b - {y});
        assert a == (a - {y}) + {y};
        assert b == (b - {y}) + {y};
      } else {
        SubsetSize(a, b - {y});
      }
    }
  }

  /** A set of n integers drawn from 0 .. n-1 is all of them. */
  lemma FullDomain(keys: set<int>, n: nat)
    requires forall k :: k in keys ==> 0 <= k < n
    requires |keys| == n
    ensures keys == Domain(n)
  {
    DomainSize(n);
    SubsetSize(keys, Domain(n));
  }
}
