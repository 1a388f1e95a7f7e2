/** The function-form IR: three ways of giving a Boolean function on packed integers
    (src/oracles/function_ir.py). Inputs and outputs are packed little-endian: bit i of
    the integer is wire i of the register. */
module FunctionIr {
  import opened Wrappers
  import opened BitArith

  /** Settings that govern enumeration of a callable form. */
  datatype SynthConfig = SynthConfig(maxTruthTableInputBits: int, allowCallableEnumeration: bool)

  /** `SynthConfig()` with its default fields. */
  const DefaultConfig := SynthConfig(12, true)

  /** An explicit table x |-> f(x). */
  datatype LookupTableForm = LookupTableForm(
    nInputBits: nat, nOutputBits: nat, table: map<int, int>, name: string)
  {
    /** The table is full: 2^n entries, every key an n-bit input, every value an m-bit output. */
    predicate Valid() {
      && |table| == Pow2(nInputBits)
      && (forall k :: k in table ==> 0 <= k < Pow2(nInputBits))
      && (forall k :: k in table ==> 0 <= table[k] < Pow2(nOutputBits))
    }

    /** `validate`: the size check first, then each entry's key and value. */
    method Validate() returns (r: Outcome<Error>)
      ensures r == if Valid() then Pass else Fail(MalformedTable)
    {
      var nEntries := Pow2(nInputBits);
      if |table| != nEntries {
        return Fail(MalformedTable);
      }
      var maxIn: int := Pow2(nInputBits);
      var maxOut: int := Pow2(nOutputBits);
      var remaining: set<int> := table.Keys;
      ghost var checked: set<int> := {};
      while remaining != {}
        invariant remaining + checked == table.Keys
        invariant forall k :: k in checked ==> 0 <= k < maxIn && 0 <= table[k] < maxOut
        decreases |remaining|
      {
        var inKey := PickKey(remaining);
        if inKey < 0 || inKey >= maxIn {
          return Fail(MalformedTable);
        }
        var outVal := table[inKey];
        if outVal < 0 || outVal >= maxOut {
          return Fail(MalformedTable);
        }
        remaining := remaining - {inKey};
        checked := checked + {inKey};
      }
      assert checked == table.Keys;
      return Pass;
    }

    /** After validation the keys are exactly the inputs 0 .. 2^n - 1. */
    lemma ValidKeys()
      requires Valid()
      ensures table.Keys == Domain(Pow2(nInputBits))
    {
      FullDomain(table.Keys, Pow2(nInputBits));
    }
  }

  /** Some element of a non-empty set (dictionary iteration in unspecified order). */
  method PickKey<T>(s: set<T>) returns (k: T)
    requires s != {}
    ensures k in s
  {
    k :| k in s;
  }

  /** x XOR y on single bits. */
  function Xor(a: int, b: int): int {
    (a + b) % 2
  }

  /** Python's `v ^ b` for an arbitrary integer v and a single bit b. */
  function XorBit(v: int, b: int): int
    requires b == 0 || b == 1
  {
    if b == 0 then v else if v % 2 == 0 then v + 1 else v - 1
  }

  /** Folding bits into `v ^ p` one at a time is XOR-ing their parity. */
  lemma XorBitStep(v: int, p: int, b: int)
    requires p == 0 || p == 1
    requires b == 0 || b == 1
    ensures XorBit(XorBit(v, p), b) == XorBit(v, Xor(p, b))
  {
  }

  /** An integer XOR with a single bit is nonzero exactly when the operands differ. */
  lemma XorBitNonzero(v: int, b: int)
    requires b == 0 || b == 1
    ensures XorBit(v, b) != 0 <==> v != b
  {
  }

  /** The map y = A x XOR b over GF(2): row r of `matrix` selects the input bits whose
      parity, XOR offsetBits[r], is output bit r. */
  datatype AffineXorForm = AffineXorForm(
    nInputBits: nat, nOutputBits: nat, matrix: seq<seq<int>>, offsetBits: seq<int>, name: string)
  {
    /** The dimensions match the declared widths and every entry is 0 or 1. */
    predicate WellFormed() {
      && |matrix| == nOutputBits
      && |offsetBits| == nOutputBits
      && (forall r :: 0 <= r < |matrix| ==> |matrix[r]| == nInputBits && IsBitSeq(matrix[r]))
      && IsBitSeq(offsetBits)
    }

    /** `validate`: row count, offset length, then each row's length and entries, then the offsets. */
    method Validate() returns (r: Outcome<Error>)
      ensures r == if WellFormed() then Pass else Fail(MalformedForm)
    {
      if |matrix| != nOutputBits {
        return Fail(MalformedForm);
      }
      if |offsetBits| != nOutputBits {
        return Fail(MalformedForm);
      }
      var i := 0;
      while i < |matrix|
        invariant 0 <= i <= |matrix|
        invariant forall r :: 0 <= r < i ==> |matrix[r]| == nInputBits && IsBitSeq(matrix[r])
      {
        var row := matrix[i];
        if |row| != nInputBits {
          return Fail(MalformedForm);
        }
        if !IsBitSeq(row) {
          return Fail(MalformedForm);
        }
        i := i + 1;
      }
      if !IsBitSeq(offsetBits) {
        return Fail(MalformedForm);
      }
      return Pass;
    }

    /** The parity of the bits i < n of x with row[i] == 1. */
    function Parity(row: seq<int>, n: nat, x: int): (p: int)
      requires n <= |row|
      ensures p == 0 || p == 1
      decreases n
    {
      if n == 0 then 0
      else Xor(Parity(row, n - 1, x), if row[n - 1] == 1 then Bit(x, n - 1) else 0)
    }

    /** Output bit b as the loop computes it: `bit_val = offset ^ parity`, and an integer
        XOR is nonzero exactly when its operands differ. */
    function OutBit(b: nat, x: int): int
      requires b < |matrix| && b < |offsetBits|
    {
      if offsetBits[b] != Parity(matrix[b], |matrix[b]|, x) then 1 else 0
    }

    /** Output bits 0 .. n-1 of input x. */
    function OutBits(x: int, n: nat): (bs: seq<int>)
      requires n <= |matrix| && n <= |offsetBits|
      ensures |bs| == n
      decreases n
    {
      if n == 0 then [] else OutBits(x, n - 1) + [OutBit(n - 1, x)]
    }

    lemma {:induction false} OutBitsAt(x: int, n: nat)
      requires n <= |matrix| && n <= |offsetBits|
      ensures forall b :: 0 <= b < n ==> OutBits(x, n)[b] == OutBit(b, x)
      decreases n
    {
      if n > 0 {
        OutBitsAt(x, n - 1);
      }
    }

    /** The packed output for an input x (the shape must allow indexing the offsets). */
    function Image(x: int): int
      requires |matrix| <= |offsetBits|
    {
      Pack(OutBits(x, |matrix|))
    }

    /** What `evaluate(x)` returns or raises. */
    function Apply(x: int): Result<int, Error> {
      if x < 0 || x >= Pow2(nInputBits) then Failure(RangeError)
      else if |offsetBits| < |matrix| then Failure(IndexError)
      else Success(Image(x))
    }

    /** `evaluate`: the range check, then one pass per output row accumulating the parity
        in `bitVal` and setting output bits in `out`. */
    method Evaluate(x: int) returns (r: Result<int, Error>)
      ensures r == Apply(x)
    {
      var maxX := Pow2(nInputBits);
      if x < 0 || x >= maxX {
        return Failure(RangeError);
      }
      var out := 0;
      var outBit := 0;
      while outBit < |matrix|
        invariant 0 <= outBit <= |matrix|
        invariant outBit <= |offsetBits|
        invariant out == Pack(OutBits(x, outBit))
      {
        if outBit >= |offsetBits| {
          return Failure(IndexError);
        }
        var row := matrix[outBit];
        var bitVal := offsetBits[outBit];
        var inBit := 0;
        while inBit < |row|
          invariant 0 <= inBit <= |row|
          invariant bitVal == XorBit(offsetBits[outBit], Parity(row, inBit, x))
        {
          if row[inBit] == 1 {
            XorBitStep(offsetBits[outBit], Parity(row, inBit, x), Bit(x, inBit));
            bitVal := XorBit(bitVal, Bit(x, inBit));
          } else {
            XorBitStep(offsetBits[outBit], Parity(row, inBit, x), 0);
          }
          inBit := inBit + 1;
        }
        XorBitNonzero(offsetBits[outBit], Parity(row, |row|, x));
        PackSnoc(OutBits(x, outBit), OutBit(outBit, x));
        if bitVal != 0 {
          // `out |= 1 << outBit`: out < 2^outBit, so the OR adds the new bit's weight
          out := out + Pow2(outBit);
        }
        outBit := outBit + 1;
      }
      return Success(out);
    }

    /** For a well-formed form, output bit b of evaluate(x) is offsetBits[b] XOR the parity
        of the bits of x that row b selects, and the result is an nOutputBits-bit value. */
    lemma ImageBits(x: int)
      requires WellFormed()
      ensures 0 <= Image(x) < Pow2(nOutputBits)
      ensures forall b :: 0 <= b < nOutputBits ==>
        Bit(Image(x), b) == Xor(offsetBits[b], Parity(matrix[b], nInputBits, x))
    {
      var bs := OutBits(x, |matrix|);
      OutBitsAt(x, |matrix|);
      PackRange(bs);
      forall b | 0 <= b < nOutputBits
        ensures Bit(Image(x), b) == Xor(offsetBits[b], Parity(matrix[b], nInputBits, x))
      {
        PackBit(bs, b);
      }
    }

    /** `to_lookup_table`: evaluate every input of the domain. */
    function ToLookupTable(): Result<LookupTableForm, Error> {
      if |offsetBits| < |matrix| then Failure(IndexError)
      else Success(LookupTableForm(nInputBits, nOutputBits,
                                   map x | x in Domain(Pow2(nInputBits)) :: Image(x),
                                   name + "_as_lut"))
    }

    /** Lowering a well-formed form keeps the widths, tabulates evaluate, and validates. */
    lemma ToLookupTableCorrect()
      requires WellFormed()
      ensures ToLookupTable().Success?
      ensures var t := ToLookupTable().value;
        && t.nInputBits == nInputBits && t.nOutputBits == nOutputBits
        && t.table.Keys == Domain(Pow2(nInputBits))
        && (forall x :: 0 <= x < Pow2(nInputBits) ==> Apply(x) == Success(t.table[x]))
        && t.Valid()
    {
      var t := ToLookupTable().value;
      assert t.table.Keys == Domain(Pow2(nInputBits));
      DomainSize(Pow2(nInputBits));
      forall k | k in t.table
        ensures 0 <= t.table[k] < Pow2(nOutputBits)
      {
        ImageBits(k);
      }
    }
  }

  /** A callable x |-> fn(x) that is enumerated into a table on demand. */
  datatype CompilableFunctionForm = CompilableFunctionForm(
    nInputBits: nat, nOutputBits: nat, fn: int -> int, name: string)
  {
    /** The configuration lets this form be enumerated. */
    predicate Enumerable(config: SynthConfig) {
      config.allowCallableEnumeration && nInputBits <= config.maxTruthTableInputBits
    }

    /** Every input of the domain is sent into the output range. */
    predicate InRange() {
      forall x :: 0 <= x < Pow2(nInputBits) ==> 0 <= fn(x) < Pow2(nOutputBits)
    }

    /** The table that a successful enumeration produces. */
    function Enumerated(): LookupTableForm {
      LookupTableForm(nInputBits, nOutputBits,
                      map x | x in Domain(Pow2(nInputBits)) :: fn(x),
                      name + "_enumerated")
    }

    /** `to_lookup_table(config)`: the two configuration checks, then the enumeration loop,
        which stops at the first output out of range. */
    method ToLookupTable(config: SynthConfig) returns (r: Result<LookupTableForm, Error>)
      ensures !Enumerable(config) ==> r == Failure(ConfigurationError)
      ensures Enumerable(config) && !InRange() ==> r == Failure(RangeError)
      ensures r.Success? <==> Enumerable(config) && InRange()
      ensures r.Success? ==> r.value == Enumerated()
    {
      if !config.allowCallableEnumeration {
        return Failure(ConfigurationError);
      }
      if nInputBits > config.maxTruthTableInputBits {
        return Failure(ConfigurationError);
      }
      var maxOut: int := Pow2(nOutputBits);
      var table: map<int, int> := map[];
      var x := 0;
      while x < Pow2(nInputBits)
        invariant 0 <= x <= Pow2(nInputBits)
        invariant forall z :: 0 <= z < x ==> 0 <= fn(z) < maxOut
        invariant table == map z | z in Domain(x) :: fn(z)
      {
        var y := fn(x);
        if y < 0 || y >= maxOut {
          return Failure(RangeError);
        }
        table := table[x := y];
        x := x + 1;
      }
      return Success(LookupTableForm(nInputBits, nOutputBits, table, name + "_enumerated"));
    }

    /** The enumerated table is full, validates, and agrees with fn on the whole domain. */
    lemma EnumeratedCorrect()
      requires InRange()
      ensures var t := Enumerated();
        && t.nInputBits == nInputBits && t.nOutputBits == nOutputBits
        && t.table.Keys == Domain(Pow2(nInputBits))
        && (forall x :: 0 <= x < Pow2(nInputBits) ==> t.table[x] == fn(x))
        && t.Valid()
    {
      var t := Enumerated();
      assert t.table.Keys == Domain(Pow2(nInputBits));
      DomainSize(Pow2(nInputBits));
    }
  }

  /** The closed set of function forms the compiler accepts. */
  datatype FunctionForm =
    | Table(lut: LookupTableForm)
    | Affine(affine: AffineXorForm)
    | Callable(callable: CompilableFunctionForm)
}
