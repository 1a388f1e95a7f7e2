/** Reversible synthesis of function forms into X / CX / MCX networks, and the gate-cost
    estimator (src/oracles/reversible_synth.py). Wires 0 .. nInputBits-1 carry the input
    register, wire i holding bit i of x; the next nOutputBits wires carry the output
    register, which starts at zero. */
module ReversibleSynth {
  import opened Wrappers
  import opened BitArith
  import opened FunctionIr

  /** The gate name of an op: the three names the compiler emits and the estimator knows
      ("x", "cx", "mcx"), or any other name. */
  datatype Gate = XGate | CxGate | McxGate | OtherGate(name: string)

  /** One gate applied to `target`; for the controlled gates the target flips when every
      control wire carries its control value. */
  datatype ReversibleOp = ReversibleOp(gate: Gate, controls: seq<int>, controlValues: seq<int>, target: int)

  /** An uncontrolled NOT on `target`. */
  function XOp(target: int): ReversibleOp {
    ReversibleOp(XGate, [], [], target)
  }

  /** A CNOT on `target` controlled by `control` being 1. */
  function CxOp(control: int, target: int): ReversibleOp {
    ReversibleOp(CxGate, [control], [1], target)
  }

  function Max(a: int, b: int): int {
    if a >= b then a else b
  }

  // ---------------------------------------------------------------- gate cost

  /** Resource counters of a circuit. */
  datatype GateCost = GateCost(
    xCount: int, cnotCount: int, toffoliCount: int, tCount: int,
    tDepthEstimate: int, ancillaPeakEstimate: int)
  {
    /** `GateCost.__add__`: counters add, the ancilla peak is the larger of the two. */
    function Plus(other: GateCost): GateCost {
      GateCost(
        xCount + other.xCount,
        cnotCount + other.cnotCount,
        toffoliCount + other.toffoliCount,
        tCount + other.tCount,
        tDepthEstimate + other.tDepthEstimate,
        Max(ancillaPeakEstimate, other.ancillaPeakEstimate))
    }
  }

  /** `GateCost()`: every counter zero. */
  const ZeroCost := GateCost(0, 0, 0, 0, 0, 0)

  /** Costs form a commutative monoid; `GateCost()` is its identity on costs whose ancilla
      peak is non-negative (the only costs the estimator builds). */
  lemma PlusMonoid(a: GateCost, b: GateCost, c: GateCost)
    ensures a.Plus(b).Plus(c) == a.Plus(b.Plus(c))
    ensures a.Plus(b) == b.Plus(a)
    ensures a.ancillaPeakEstimate >= 0 ==> ZeroCost.Plus(a) == a && a.Plus(ZeroCost) == a
  {
  }

  /** `_estimate_mcx_toffoli`: Toffolis for a k-control MCX, in closed form max(0, 2k - 3). */
  function McxToffoli(nControls: int): (t: int)
    ensures t == Max(0, 2 * nControls - 3)
  {
    if nControls <= 1 then 0
    else if nControls == 2 then 1
    else 2 * nControls - 3
  }

  /** More controls never cost fewer Toffolis. */
  lemma McxToffoliMonotone(j: int, k: int)
    requires j <= k
    ensures McxToffoli(j) <= McxToffoli(k)
  {
  }

  /** The gate names the estimator knows. */
  predicate Supported(op: ReversibleOp) {
    !op.gate.OtherGate?
  }

  /** The cost one op contributes in `estimate_cost`. */
  function OpCost(op: ReversibleOp): Result<GateCost, Error> {
    if op.gate == XGate then Success(GateCost(1, 0, 0, 0, 0, 0))
    else if op.gate == CxGate then Success(GateCost(0, 1, 0, 0, 0, 0))
    else if op.gate == McxGate then
      var k := |op.controls|;
      var toffoli := McxToffoli(k);
      Success(GateCost(0, 0, toffoli, 7 * toffoli, Max(1, 3 * toffoli), Max(0, k - 2)))
    else Failure(UnsupportedGate)
  }

  /** The estimator's left fold `total = total + cost(op)` over an op list, stopping at the
      first unsupported gate. */
  function CircuitCost(ops: seq<ReversibleOp>): Result<GateCost, Error>
    decreases |ops|
  {
    if ops == [] then Success(ZeroCost)
    else
      var before := CircuitCost(ops[..|ops| - 1]);
      var last := OpCost(ops[|ops| - 1]);
      if before.Failure? then before
      else if last.Failure? then Failure(last.error)
      else Success(before.value.Plus(last.value))
  }

  /** One step of the fold: the cost of the first i + 1 ops from the cost of the first i. */
  lemma CostStep(ops: seq<ReversibleOp>, i: nat)
    requires i < |ops|
    ensures CircuitCost(ops[..i + 1]) ==
      var before := CircuitCost(ops[..i]);
      var last := OpCost(ops[i]);
      if before.Failure? then before
      else if last.Failure? then Failure(last.error)
      else Success(before.value.Plus(last.value))
  {
    assert ops[..i + 1][..i] == ops[..i];
  }

  /** An unsupported op anywhere makes the whole fold fail. */
  lemma {:induction false} CostFailsAt(ops: seq<ReversibleOp>, i: nat)
    requires i < |ops| && !Supported(ops[i])
    ensures CircuitCost(ops) == Failure(UnsupportedGate)
    decreases |ops|
  {
    CostCounts(ops);
  }

  /** The number of ops named g. */
  function CountGate(ops: seq<ReversibleOp>, g: Gate): nat
    decreases |ops|
  {
    if ops == [] then 0
    else CountGate(ops[..|ops| - 1], g) + (if ops[|ops| - 1].gate == g then 1 else 0)
  }

  /** The Toffolis of all MCX ops. */
  function ToffoliTotal(ops: seq<ReversibleOp>): nat
    decreases |ops|
  {
    if ops == [] then 0
    else
      var op := ops[|ops| - 1];
      ToffoliTotal(ops[..|ops| - 1]) + (if op.gate == McxGate then McxToffoli(|op.controls|) else 0)
  }

  /** The largest `k - 2` over MCX ops with k controls, or 0. */
  function AncillaPeak(ops: seq<ReversibleOp>): int
    decreases |ops|
  {
    if ops == [] then 0
    else
      var op := ops[|ops| - 1];
      Max(AncillaPeak(ops[..|ops| - 1]), if op.gate == McxGate then Max(0, |op.controls| - 2) else 0)
  }

  /** What `estimate_cost` returns: it fails (always with the unsupported-gate error) exactly
      when some gate is unknown; otherwise it counts the X and CX ops, sums the MCX
      Toffolis, charges 7 T gates per Toffoli and takes the ancilla peak over MCX ops. */
  lemma {:induction false} CostCounts(ops: seq<ReversibleOp>)
    ensures CircuitCost(ops).Success? <==> forall i :: 0 <= i < |ops| ==> Supported(ops[i])
    ensures CircuitCost(ops).Failure? ==> CircuitCost(ops).error == UnsupportedGate
    ensures CircuitCost(ops).Success? ==>
      var c := CircuitCost(ops).value;
      && c.xCount == CountGate(ops, XGate)
      && c.cnotCount == CountGate(ops, CxGate)
      && c.toffoliCount == ToffoliTotal(ops)
      && c.tCount == 7 * c.toffoliCount
      && c.ancillaPeakEstimate == AncillaPeak(ops)
    decreases |ops|
  {
    if ops != [] {
      var pre := ops[..|ops| - 1];
      CostCounts(pre);
      assert forall i :: 0 <= i < |pre| ==> pre[i] == ops[i];
    }
  }

  /** The ancilla peak is an upper bound of every MCX's `k - 2`, attained by one of them
      unless it is 0. */
  lemma {:induction false} AncillaPeakIsMax(ops: seq<ReversibleOp>)
    ensures AncillaPeak(ops) >= 0
    ensures forall i :: 0 <= i < |ops| && ops[i].gate == McxGate ==>
      AncillaPeak(ops) >= |ops[i].controls| - 2
    ensures AncillaPeak(ops) == 0 ||
      (exists i :: 0 <= i < |ops| && ops[i].gate == McxGate && AncillaPeak(ops) == |ops[i].controls| - 2)
    decreases |ops|
  {
    if ops != [] {
      var pre := ops[..|ops| - 1];
      AncillaPeakIsMax(pre);
      assert forall i :: 0 <= i < |pre| ==> pre[i] == ops[i];
      var op := ops[|ops| - 1];
      if AncillaPeak(ops) != 0 {
        if AncillaPeak(ops) == AncillaPeak(pre) {
          var i :| 0 <= i < |pre| && pre[i].gate == McxGate && AncillaPeak(pre) == |pre[i].controls| - 2;
          assert ops[i] == pre[i];
        } else {
          assert ops[|ops| - 1].gate == McxGate && AncillaPeak(ops) == |ops[|ops| - 1].controls| - 2;
        }
      }
    }
  }

  lemma {:induction false} CountGateAppend(a: seq<ReversibleOp>, b: seq<ReversibleOp>, g: Gate)
    ensures CountGate(a + b, g) == CountGate(a, g) + CountGate(b, g)
    decreases |b|
  {
    if b == [] {
      assert a + b == a;
    } else {
      assert (a + b)[..|a + b| - 1] == a + b[..|b| - 1];
      assert (a + b)[|a + b| - 1] == b[|b| - 1];
      CountGateAppend(a, b[..|b| - 1], g);
    }
  }

  lemma {:induction false} ToffoliTotalAppend(a: seq<ReversibleOp>, b: seq<ReversibleOp>)
    ensures ToffoliTotal(a + b) == ToffoliTotal(a) + ToffoliTotal(b)
    decreases |b|
  {
    if b == [] {
      assert a + b == a;
    } else {
      assert (a + b)[..|a + b| - 1] == a + b[..|b| - 1];
      assert (a + b)[|a + b| - 1] == b[|b| - 1];
      ToffoliTotalAppend(a, b[..|b| - 1]);
    }
  }

  // ---------------------------------------------------------------- the compiled op lists

  /** `zero_control_wires`: the input wires below n where x has a 0 bit, ascending. */
  function ZeroWires(x: int, n: nat): seq<int>
    decreases n
  {
    if n == 0 then [] else ZeroWires(x, n - 1) + (if Bit(x, n - 1) == 0 then [n - 1] else [])
  }

  /** The zero wires are exactly the wires below n where x has a 0 bit, strictly
      ascending. */
  lemma {:induction false} ZeroWiresMembers(x: int, n: nat)
    ensures forall w :: w in ZeroWires(x, n) <==> 0 <= w < n && Bit(x, w) == 0
    ensures forall i, j :: 0 <= i < j < |ZeroWires(x, n)| ==> ZeroWires(x, n)[i] < ZeroWires(x, n)[j]
    decreases n
  {
    if n > 0 {
      ZeroWiresMembers(x, n - 1);
      var pre := ZeroWires(x, n - 1);
      assert forall i :: 0 <= i < |pre| ==> pre[i] in pre;
    }
  }

  /** One X op per wire, in the given order. */
  function XLayer(ws: seq<int>): seq<ReversibleOp> {
    seq(|ws|, i requires 0 <= i < |ws| => XOp(ws[i]))
  }

  function Reverse(s: seq<int>): seq<int> {
    seq(|s|, i requires 0 <= i < |s| => s[|s| - 1 - i])
  }

  /** The wires 0 .. n-1. */
  function Iota(n: nat): seq<int> {
    seq(n, i requires 0 <= i < n => i)
  }

  /** n control values of 1. */
  function OnesSeq(n: nat): seq<int> {
    seq(n, i requires 0 <= i < n => 1)
  }

  /** The gate a minterm block flips its target with: an X when there are no inputs, a CX
      on one input, an MCX on all inputs otherwise; every control value is 1. */
  function ControlGate(nIn: nat, target: int): ReversibleOp {
    if nIn == 0 then XOp(target)
    else if nIn == 1 then CxOp(0, target)
    else ReversibleOp(McxGate, Iota(nIn), OnesSeq(nIn), target)
  }

  /** The ops one minterm x emits: X on its zero wires, the control gate, the same X ops
      again in reverse order. */
  function MintermBlock(x: int, nIn: nat, target: int): seq<ReversibleOp> {
    var zw := ZeroWires(x, nIn);
    XLayer(zw) + [ControlGate(nIn, target)] + XLayer(Reverse(zw))
  }

  /** A minterm block has 2 |zero wires| + 1 ops: the conjugating X ops, the gate in the
      middle, and the X ops undone in reverse order. */
  lemma MintermBlockLayout(x: int, nIn: nat, target: int)
    ensures var zw := ZeroWires(x, nIn); var b := MintermBlock(x, nIn, target);
      && |b| == 2 * |zw| + 1
      && b[|zw|] == ControlGate(nIn, target)
      && (forall i :: 0 <= i < |zw| ==> b[i] == XOp(zw[i]))
      && (forall i :: |zw| < i < |b| ==> b[i] == XOp(zw[2 * |zw| - i]))
  {
  }

  /** The minterms of output bit `outBit` among the inputs below n, ascending. */
  function Minterms(table: map<int, int>, outBit: nat, n: int): seq<int>
    decreases n
  {
    if n <= 0 then []
    else Minterms(table, outBit, n - 1) +
         (if n - 1 in table && Bit(table[n - 1], outBit) == 1 then [n - 1] else [])
  }

  /** The minterms are exactly the keys below n whose value has bit `outBit` set, strictly
      ascending. */
  lemma {:induction false} MintermsMembers(table: map<int, int>, outBit: nat, n: int)
    ensures forall x :: x in Minterms(table, outBit, n) <==>
      0 <= x < n && x in table && Bit(table[x], outBit) == 1
    ensures forall i, j :: 0 <= i < j < |Minterms(table, outBit, n)| ==>
      Minterms(table, outBit, n)[i] < Minterms(table, outBit, n)[j]
    decreases n
  {
    if n > 0 {
      MintermsMembers(table, outBit, n - 1);
      var pre := Minterms(table, outBit, n - 1);
      assert forall i :: 0 <= i < |pre| ==> pre[i] in pre;
    }
  }

  /** The blocks of a list of minterms, in list order. */
  function Blocks(ms: seq<int>, nIn: nat, target: int): seq<ReversibleOp>
    decreases |ms|
  {
    if ms == [] then []
    else Blocks(ms[..|ms| - 1], nIn, target) + MintermBlock(ms[|ms| - 1], nIn, target)
  }

  lemma BlocksStep(ms: seq<int>, j: nat, nIn: nat, target: int)
    requires j < |ms|
    ensures Blocks(ms[..j + 1], nIn, target) == Blocks(ms[..j], nIn, target) + MintermBlock(ms[j], nIn, target)
  {
    assert ms[..j + 1][..j] == ms[..j];
  }

  /** The wire of output bit b: the output register follows the nIn input wires. */
  function OutputWire(nIn: nat, b: nat): int {
    nIn + b
  }

  /** The ops emitted for one output bit of a table. */
  function BitOps(form: LookupTableForm, outBit: nat): seq<ReversibleOp> {
    Blocks(Minterms(form.table, outBit, Pow2(form.nInputBits)), form.nInputBits,
           OutputWire(form.nInputBits, outBit))
  }

  /** The ops emitted for output bits 0 .. b-1. */
  function LutPrefix(form: LookupTableForm, b: nat): seq<ReversibleOp>
    decreases b
  {
    if b == 0 then [] else LutPrefix(form, b - 1) + BitOps(form, b - 1)
  }

  /** The op list of the sum-of-minterms circuit of a table. */
  function LutOps(form: LookupTableForm): seq<ReversibleOp> {
    LutPrefix(form, form.nOutputBits)
  }

  /** The CX ops for the entries before n of one matrix row. */
  function CxRow(row: seq<int>, target: int, n: nat): seq<ReversibleOp>
    requires n <= |row|
    decreases n
  {
    if n == 0 then []
    else CxRow(row, target, n - 1) + (if row[n - 1] == 1 then [CxOp(n - 1, target)] else [])
  }

  /** The ops for output row b of an affine form: X when the offset bit is 1, then one CX
      per 1 in the row. */
  function AffineRow(form: AffineXorForm, b: nat): seq<ReversibleOp>
    requires b < |form.matrix| <= |form.offsetBits|
  {
    var target := OutputWire(form.nInputBits, b);
    (if form.offsetBits[b] == 1 then [XOp(target)] else []) +
    CxRow(form.matrix[b], target, |form.matrix[b]|)
  }

  function AffinePrefix(form: AffineXorForm, b: nat): seq<ReversibleOp>
    requires b <= |form.matrix| <= |form.offsetBits|
    decreases b
  {
    if b == 0 then [] else AffinePrefix(form, b - 1) + AffineRow(form, b - 1)
  }

  /** The op list of the CNOT/X network of an affine form. */
  function AffineOps(form: AffineXorForm): seq<ReversibleOp>
    requires |form.matrix| <= |form.offsetBits|
  {
    AffinePrefix(form, |form.matrix|)
  }

  // ---------------------------------------------------------------- structure of the output

  /** An op of a sum-of-minterms circuit: a bare X on an input wire (or on an output wire
      when there are no inputs), or a CX / MCX controlled on every input wire with value 1
      and targeting an output wire. */
  predicate LutOpShape(op: ReversibleOp, nIn: nat, nOut: nat) {
    || (op.gate == XGate && op.controls == [] && op.controlValues == [] &&
        (0 <= op.target < nIn || (nIn == 0 && 0 <= op.target < nOut)))
    || ((op.gate == CxGate || op.gate == McxGate) &&
        op.controls == Iota(nIn) && op.controlValues == OnesSeq(nIn) &&
        nIn <= op.target < nIn + nOut)
  }

  predicate AllLutShape(ops: seq<ReversibleOp>, nIn: nat, nOut: nat) {
    forall i :: 0 <= i < |ops| ==> LutOpShape(ops[i], nIn, nOut)
  }

  /** An op of an affine circuit: an X on an output wire or a CX from an input wire (value
      1) to an output wire. */
  predicate AffineOpShape(op: ReversibleOp, nIn: nat, nOut: nat) {
    && (op.gate == XGate || op.gate == CxGate)
    && nIn <= op.target < nIn + nOut
    && (op.gate == XGate ==> op.controls == [] && op.controlValues == [])
    && (op.gate == CxGate ==> |op.controls| == 1 && 0 <= op.controls[0] < nIn && op.controlValues == [1])
  }

  predicate AllAffineShape(ops: seq<ReversibleOp>, nIn: nat, nOut: nat) {
    forall i :: 0 <= i < |ops| ==> AffineOpShape(ops[i], nIn, nOut)
  }

  lemma BitOpsShaped(form: LookupTableForm, b: nat)
    requires b < form.nOutputBits
    ensures LutShaped(BitOps(form, b), form.nInputBits, form.nOutputBits)
  {
    BlocksShaped(Minterms(form.table, b, Pow2(form.nInputBits)), form.nInputBits,
                 form.nOutputBits, OutputWire(form.nInputBits, b));
  }

  lemma {:induction false} LutPrefixShape(form: LookupTableForm, b: nat)
    requires b <= form.nOutputBits
    ensures LutShaped(LutPrefix(form, b), form.nInputBits, form.nOutputBits)
    decreases b
  {
    if b > 0 {
      LutPrefixShape(form, b - 1);
      BitOpsShaped(form, b - 1);
      LutShapedAppend(LutPrefix(form, b - 1), BitOps(form, b - 1), form.nInputBits, form.nOutputBits);
    }
  }

  lemma MintermBlockShape(x: int, nIn: nat, nOut: nat, target: int)
    requires nIn <= target < nIn + nOut
    ensures AllLutShape(MintermBlock(x, nIn, target), nIn, nOut)
  {
    var zw := ZeroWires(x, nIn);
    ZeroWiresMembers(x, nIn);
    assert forall i :: 0 <= i < |zw| ==> zw[i] in zw;
    if nIn == 1 {
      assert Iota(1) == [0] && OnesSeq(1) == [1];
    }
    var b := MintermBlock(x, nIn, target);
    forall i | 0 <= i < |b|
      ensures LutOpShape(b[i], nIn, nOut)
    {
      if i < |zw| {
        assert b[i] == XOp(zw[i]);
      } else if i > |zw| {
        assert b[i] == XOp(zw[2 * |zw| - i]);
      }
    }
  }

  /** AllLutShape stated by recursion on the last op, which composes over concatenation
      without quantifier instantiation. */
  predicate LutShaped(ops: seq<ReversibleOp>, nIn: nat, nOut: nat)
    decreases |ops|
  {
    ops == [] || (LutShaped(ops[..|ops| - 1], nIn, nOut) && LutOpShape(ops[|ops| - 1], nIn, nOut))
  }

  lemma {:induction false} LutShapedAll(ops: seq<ReversibleOp>, nIn: nat, nOut: nat)
    ensures LutShaped(ops, nIn, nOut) <==> AllLutShape(ops, nIn, nOut)
    decreases |ops|
  {
    if ops != [] {
      var pre := ops[..|ops| - 1];
      LutShapedAll(pre, nIn, nOut);
      assert forall i :: 0 <= i < |pre| ==> pre[i] == ops[i];
    }
  }

  lemma {:induction false} LutShapedAppend(a: seq<ReversibleOp>, b: seq<ReversibleOp>, nIn: nat, nOut: nat)
    requires LutShaped(a, nIn, nOut) && LutShaped(b, nIn, nOut)
    ensures LutShaped(a + b, nIn, nOut)
    decreases |b|
  {
    if b == [] {
      assert a + b == a;
    } else {
      assert (a + b)[..|a + b| - 1] == a + b[..|b| - 1];
      assert (a + b)[|a + b| - 1] == b[|b| - 1];
      LutShapedAppend(a, b[..|b| - 1], nIn, nOut);
    }
  }

  lemma {:induction false} BlocksShaped(ms: seq<int>, nIn: nat, nOut: nat, target: int)
    requires nIn <= target < nIn + nOut
    ensures LutShaped(Blocks(ms, nIn, target), nIn, nOut)
    decreases |ms|
  {
    if ms != [] {
      var block := MintermBlock(ms[|ms| - 1], nIn, target);
      BlocksShaped(ms[..|ms| - 1], nIn, nOut, target);
      MintermBlockShape(ms[|ms| - 1], nIn, nOut, target);
      LutShapedAll(block, nIn, nOut);
      LutShapedAppend(Blocks(ms[..|ms| - 1], nIn, target), block, nIn, nOut);
    }
  }

  /** Every op of a compiled table is controlled on all inputs with value 1 and targets an
      output wire, or is a conjugating X on an input wire (an X on an output wire when the
      table has no inputs). */
  lemma LutOpsShape(form: LookupTableForm)
    ensures AllLutShape(LutOps(form), form.nInputBits, form.nOutputBits)
  {
    LutPrefixShape(form, form.nOutputBits);
    LutShapedAll(LutOps(form), form.nInputBits, form.nOutputBits);
  }

  /** The ops of output bit b come before those of every later output bit, so the prefix
      for k > b bits is at least as long as them. */
  lemma {:induction false} LutPrefixCovers(form: LookupTableForm, k: nat, b: nat)
    requires b < k
    ensures |LutPrefix(form, k)| >= |BitOps(form, b)|
    decreases k
  {
    if b < k - 1 {
      LutPrefixCovers(form, k - 1, b);
    }
  }

  /** A table that sets some output bit of some input compiles to a non-empty circuit: that
      bit's minterm loop emits at least the minterm's block. */
  lemma LutOpsNonEmpty(form: LookupTableForm, x: int, b: nat)
    requires 0 <= x < Pow2(form.nInputBits) && x in form.table
    requires b < form.nOutputBits && Bit(form.table[x], b) == 1
    ensures |LutOps(form)| > 0
  {
    var ms := Minterms(form.table, b, Pow2(form.nInputBits));
    MintermsMembers(form.table, b, Pow2(form.nInputBits));
    assert x in ms;
    var target := OutputWire(form.nInputBits, b);
    assert |MintermBlock(ms[|ms| - 1], form.nInputBits, target)| > 0;
    assert |BitOps(form, b)| > 0;
    LutPrefixCovers(form, form.nOutputBits, b);
  }

  lemma {:induction false} CxRowShape(row: seq<int>, target: int, n: nat, nIn: nat, nOut: nat)
    requires n <= |row| <= nIn && nIn <= target < nIn + nOut
    ensures AllAffineShape(CxRow(row, target, n), nIn, nOut)
    decreases n
  {
    if n > 0 {
      CxRowShape(row, target, n - 1, nIn, nOut);
    }
  }

  lemma {:induction false} AffinePrefixShape(form: AffineXorForm, b: nat)
    requires form.WellFormed() && b <= |form.matrix|
    ensures AllAffineShape(AffinePrefix(form, b), form.nInputBits, form.nOutputBits)
    decreases b
  {
    if b > 0 {
      AffinePrefixShape(form, b - 1);
      CxRowShape(form.matrix[b - 1], OutputWire(form.nInputBits, b - 1), |form.matrix[b - 1]|,
                 form.nInputBits, form.nOutputBits);
    }
  }

  /** A compiled affine form holds only X ops on output wires and CX ops from an input
      wire to an output wire. */
  lemma AffineOpsShape(form: AffineXorForm)
    requires form.WellFormed()
    ensures AllAffineShape(AffineOps(form), form.nInputBits, form.nOutputBits)
  {
    AffinePrefixShape(form, |form.matrix|);
  }

  // ---------------------------------------------------------------- the circuit object

  /** A circuit under construction: the register widths and the op list it appends to. */
  class ReversibleCircuit {
    const nInputBits: nat
    const nOutputBits: nat
    var operations: seq<ReversibleOp>
    var metadata: map<string, string>

    constructor(nInputBits: nat, nOutputBits: nat)
      ensures this.nInputBits == nInputBits && this.nOutputBits == nOutputBits
      ensures operations == [] && metadata == map[]
    {
      this.nInputBits := nInputBits;
      this.nOutputBits := nOutputBits;
      operations := [];
      metadata := map[];
    }

    /** `append`: the op goes at the end; nothing else changes. */
    method Append(op: ReversibleOp)
      modifies this
      ensures operations == old(operations) + [op]
      ensures metadata == old(metadata)
    {
      operations := operations + [op];
    }

    /** `n_qubits`: the input and output registers together. */
    function NQubits(): int {
      nInputBits + nOutputBits
    }

    /** `output_offset`: the first output wire. */
    function OutputOffset(): int {
      nInputBits
    }

    /** `estimate_cost`: the fold over the op list, raising on an unknown gate. */
    method EstimateCost() returns (r: Result<GateCost, Error>)
      ensures r == CircuitCost(operations)
    {
      var ops := operations;
      var total := ZeroCost;
      var i := 0;
      while i < |ops|
        invariant 0 <= i <= |ops|
        invariant CircuitCost(ops[..i]) == Success(total)
      {
        var op := ops[i];
        CostStep(ops, i);
        if op.gate == XGate {
          total := total.Plus(GateCost(1, 0, 0, 0, 0, 0));
        } else if op.gate == CxGate {
          total := total.Plus(GateCost(0, 1, 0, 0, 0, 0));
        } else if op.gate == McxGate {
          var k := |op.controls|;
          var toffoli := McxToffoli(k);
          total := total.Plus(GateCost(0, 0, toffoli, 7 * toffoli, Max(1, 3 * toffoli), Max(0, k - 2)));
        } else {
          CostFailsAt(ops, i);
          return Failure(UnsupportedGate);
        }
        i := i + 1;
      }
      assert ops[..i] == ops;
      return Success(total);
    }
  }

  // ---------------------------------------------------------------- compilers

  /** The wire lists of one minterm, built bit by bit: the zero wires of x, every input
      wire as a control, and control value 1 for each. */
  method ControlLists(x: int, nIn: nat) returns (zeroControlWires: seq<int>, controls: seq<int>, controlValues: seq<int>)
    ensures zeroControlWires == ZeroWires(x, nIn)
    ensures controls == Iota(nIn) && controlValues == OnesSeq(nIn)
  {
    zeroControlWires, controls, controlValues := [], [], [];
    var inBit := 0;
    while inBit < nIn
      invariant 0 <= inBit <= nIn
      invariant zeroControlWires == ZeroWires(x, inBit)
      invariant controls == Iota(inBit) && controlValues == OnesSeq(inBit)
    {
      var bitVal := Bit(x, inBit);
      controls := controls + [inBit];
      controlValues := controlValues + [1];
      if bitVal == 0 {
        zeroControlWires := zeroControlWires + [inBit];
      }
      inBit := inBit + 1;
    }
  }

  lemma XLayerStep(ws: seq<int>, k: nat)
    requires k < |ws|
    ensures XLayer(ws[..k + 1]) == XLayer(ws[..k]) + [XOp(ws[k])]
  {
  }

  /** One X op per wire appended to `circ`, in list order. */
  method AppendXLayer(circ: ReversibleCircuit, wires: seq<int>)
    modifies circ
    ensures circ.operations == old(circ.operations) + XLayer(wires)
    ensures circ.metadata == old(circ.metadata)
  {
    var k := 0;
    while k < |wires|
      invariant 0 <= k <= |wires|
      invariant circ.operations == old(circ.operations) + XLayer(wires[..k])
      invariant circ.metadata == old(circ.metadata)
    {
      XLayerStep(wires, k);
      circ.Append(XOp(wires[k]));
      k := k + 1;
    }
    assert wires[..k] == wires;
  }

  /** The ops of one minterm block appended to `circ`: the conjugating X ops on the zero
      wires, the X / CX / MCX on the target, then the X ops again in reverse order. */
  method EmitMinterm(circ: ReversibleCircuit, x: int, nIn: nat, target: int)
    modifies circ
    ensures circ.operations == old(circ.operations) + MintermBlock(x, nIn, target)
    ensures circ.metadata == old(circ.metadata)
  {
    var zeroControlWires, controls, controlValues := ControlLists(x, nIn);
    AppendXLayer(circ, zeroControlWires);
    if |controls| == 0 {
      circ.Append(XOp(target));
    } else if |controls| == 1 {
      circ.Append(ReversibleOp(CxGate, [controls[0]], [1], target));
    } else {
      circ.Append(ReversibleOp(McxGate, controls, controlValues, target));
    }
    AppendXLayer(circ, Reverse(zeroControlWires));
  }

  /** The blocks of a list of minterms appended to `circ`, in list order. */
  method EmitMinterms(circ: ReversibleCircuit, minterms: seq<int>, nIn: nat, target: int)
    modifies circ
    ensures circ.operations == old(circ.operations) + Blocks(minterms, nIn, target)
    ensures circ.metadata == old(circ.metadata)
  {
    var j := 0;
    while j < |minterms|
      invariant 0 <= j <= |minterms|
      invariant circ.operations == old(circ.operations) + Blocks(minterms[..j], nIn, target)
      invariant circ.metadata == old(circ.metadata)
    {
      BlocksStep(minterms, j, nIn, target);
      EmitMinterm(circ, minterms[j], nIn, target);
      j := j + 1;
    }
    assert minterms[..j] == minterms;
  }

  /** The ops for one output bit appended to `circ`: its minterms, then one block each. */
  method EmitBitOps(circ: ReversibleCircuit, form: LookupTableForm, outBit: nat, target: int)
    requires target == OutputWire(form.nInputBits, outBit)
    modifies circ
    ensures circ.operations == old(circ.operations) + BitOps(form, outBit)
    ensures circ.metadata == old(circ.metadata)
  {
    var minterms := Minterms(form.table, outBit, Pow2(form.nInputBits));
    EmitMinterms(circ, minterms, form.nInputBits, target);
  }

  /** `compile_lookup_table`: validate, then for each output bit and each of its minterms
      (ascending) emit a minterm block targeting that output wire. */
  method CompileLookupTable(form: LookupTableForm) returns (r: Result<ReversibleCircuit, Error>)
    ensures r.Failure? <==> !form.Valid()
    ensures r.Failure? ==> r.error == MalformedTable
    ensures r.Success? ==>
      && fresh(r.value)
      && r.value.nInputBits == form.nInputBits && r.value.nOutputBits == form.nOutputBits
      && r.value.operations == LutOps(form)
      && r.value.metadata == map["source" := form.name, "method" := "sum_of_minterms"]
  {
    var v := form.Validate();
    if v.Fail? {
      return Failure(v.error);
    }
    var circ := new ReversibleCircuit(form.nInputBits, form.nOutputBits);
    var nInputs := form.nInputBits;
    var outputOffset := circ.OutputOffset();
    var outBit := 0;
    while outBit < form.nOutputBits
      invariant 0 <= outBit <= form.nOutputBits
      invariant circ.operations == LutPrefix(form, outBit)
      invariant circ.metadata == map[]
    {
      EmitBitOps(circ, form, outBit, outputOffset + outBit);
      outBit := outBit + 1;
    }
    circ.metadata := circ.metadata["source" := form.name];
    circ.metadata := circ.metadata["method" := "sum_of_minterms"];
    return Success(circ);
  }

  /** `compile_affine_xor`: validate, then per output row an X when the offset bit is 1 and
      one CX per 1 in the row, all targeting that row's output wire. */
  method CompileAffineXor(form: AffineXorForm) returns (r: Result<ReversibleCircuit, Error>)
    ensures r.Failure? <==> !form.WellFormed()
    ensures r.Failure? ==> r.error == MalformedForm
    ensures r.Success? ==>
      && fresh(r.value)
      && r.value.nInputBits == form.nInputBits && r.value.nOutputBits == form.nOutputBits
      && r.value.operations == AffineOps(form)
      && r.value.metadata == map["source" := form.name, "method" := "affine_xor"]
  {
    var v := form.Validate();
    if v.Fail? {
      return Failure(v.error);
    }
    var circ := new ReversibleCircuit(form.nInputBits, form.nOutputBits);
    var outputOffset := circ.OutputOffset();
    var outBit := 0;
    while outBit < |form.matrix|
      invariant 0 <= outBit <= |form.matrix|
      invariant circ.operations == AffinePrefix(form, outBit)
      invariant circ.metadata == map[]
    {
      var row := form.matrix[outBit];
      var target := outputOffset + outBit;
      ghost var head := AffinePrefix(form, outBit) + (if form.offsetBits[outBit] == 1 then [XOp(target)] else []);
      if form.offsetBits[outBit] == 1 {
        circ.Append(XOp(target));
      }
      var inBit := 0;
      while inBit < |row|
        invariant 0 <= inBit <= |row|
        invariant circ.operations == head + CxRow(row, target, inBit)
        invariant circ.metadata == map[]
      {
        if row[inBit] == 1 {
          circ.Append(CxOp(inBit, target));
        }
        inBit := inBit + 1;
      }
      outBit := outBit + 1;
    }
    circ.metadata := circ.metadata["source" := form.name];
    circ.metadata := circ.metadata["method" := "affine_xor"];
    return Success(circ);
  }

  /** `compile_function_form`: affine forms take the CNOT/X path, tables the minterm path,
      callables are enumerated under `config` (the default when none is given) and then
      take the minterm path. */
  method CompileFunctionForm(form: FunctionForm, config: Option<SynthConfig>)
    returns (r: Result<ReversibleCircuit, Error>)
    ensures form.Affine? ==>
      && (r.Success? <==> form.affine.WellFormed())
      && (r.Failure? ==> r.error == MalformedForm)
      && (r.Success? ==> fresh(r.value) && r.value.operations == AffineOps(form.affine) &&
                         r.value.nInputBits == form.affine.nInputBits &&
                         r.value.nOutputBits == form.affine.nOutputBits &&
                         r.value.metadata == map["source" := form.affine.name, "method" := "affine_xor"])
    ensures form.Table? ==>
      && (r.Success? <==> form.lut.Valid())
      && (r.Failure? ==> r.error == MalformedTable)
      && (r.Success? ==> fresh(r.value) && r.value.operations == LutOps(form.lut) &&
                         r.value.nInputBits == form.lut.nInputBits &&
                         r.value.nOutputBits == form.lut.nOutputBits &&
                         r.value.metadata == map["source" := form.lut.name, "method" := "sum_of_minterms"])
    ensures form.Callable? ==>
      var cfg := if config.Some? then config.value else DefaultConfig;
      var c := form.callable;
      && (r.Success? <==> c.Enumerable(cfg) && c.InRange())
      && (!c.Enumerable(cfg) ==> r == Failure(ConfigurationError))
      && (c.Enumerable(cfg) && !c.InRange() ==> r == Failure(RangeError))
      && (r.Success? ==> fresh(r.value) && r.value.operations == LutOps(c.Enumerated()) &&
                         r.value.nInputBits == c.nInputBits && r.value.nOutputBits == c.nOutputBits &&
                         r.value.metadata == map["source" := c.name + "_enumerated", "method" := "sum_of_minterms"])
  {
    var cfg := if config.Some? then config.value else DefaultConfig;
    match form
    case Affine(a) =>
      r := CompileAffineXor(a);
    case Table(t) =>
      r := CompileLookupTable(t);
    case Callable(c) =>
      var lut := c.ToLookupTable(cfg);
      if lut.Failure? {
        return Failure(lut.error);
      }
      c.EnumeratedCorrect();
      r := CompileLookupTable(lut.value);
  }

  // ---------------------------------------------------------------- costs of compiled circuits

  /** The number of entries equal to 1. */
  function Ones(bs: seq<int>): nat
    decreases |bs|
  {
    if bs == [] then 0 else Ones(bs[..|bs| - 1]) + (if bs[|bs| - 1] == 1 then 1 else 0)
  }

  /** The number of entries equal to 1 in rows 0 .. b-1. */
  function MatrixOnes(m: seq<seq<int>>, b: nat): nat
    requires b <= |m|
    decreases b
  {
    if b == 0 then 0 else MatrixOnes(m, b - 1) + Ones(m[b - 1])
  }

  lemma {:induction false} CxRowCounts(row: seq<int>, target: int, n: nat)
    requires n <= |row|
    ensures CountGate(CxRow(row, target, n), CxGate) == Ones(row[..n])
    ensures CountGate(CxRow(row, target, n), XGate) == 0
    decreases n
  {
    if n > 0 {
      var pre := CxRow(row, target, n - 1);
      CxRowCounts(row, target, n - 1);
      assert row[..n][..n - 1] == row[..n - 1];
      if row[n - 1] == 1 {
        var ops := pre + [CxOp(n - 1, target)];
        assert ops[..|ops| - 1] == pre && ops[|ops| - 1] == CxOp(n - 1, target);
      } else {
        assert CxRow(row, target, n) == pre;
      }
    }
  }

  lemma {:induction false} AffinePrefixCounts(form: AffineXorForm, b: nat)
    requires b <= |form.matrix| <= |form.offsetBits|
    ensures CountGate(AffinePrefix(form, b), XGate) == Ones(form.offsetBits[..b])
    ensures CountGate(AffinePrefix(form, b), CxGate) == MatrixOnes(form.matrix, b)
    decreases b
  {
    if b > 0 {
      AffinePrefixCounts(form, b - 1);
      var row := form.matrix[b - 1];
      var target := OutputWire(form.nInputBits, b - 1);
      var xs: seq<ReversibleOp> := if form.offsetBits[b - 1] == 1 then [XOp(target)] else [];
      var cxs := CxRow(row, target, |row|);
      CxRowCounts(row, target, |row|);
      assert row[..|row|] == row;
      assert AffineRow(form, b - 1) == xs + cxs;
      assert form.offsetBits[..b][..b - 1] == form.offsetBits[..b - 1];
      CountGateAppend(AffinePrefix(form, b - 1), xs + cxs, XGate);
      CountGateAppend(AffinePrefix(form, b - 1), xs + cxs, CxGate);
      CountGateAppend(xs, cxs, XGate);
      CountGateAppend(xs, cxs, CxGate);
      if form.offsetBits[b - 1] == 1 {
        assert [XOp(target)][..0] == [];
      }
    }
  }

  /** Without MCX ops there are no Toffolis. */
  lemma {:induction false} NoMcxNoToffoli(ops: seq<ReversibleOp>)
    requires forall i :: 0 <= i < |ops| ==> ops[i].gate != McxGate
    ensures ToffoliTotal(ops) == 0
    decreases |ops|
  {
    if ops != [] {
      var pre := ops[..|ops| - 1];
      assert forall i :: 0 <= i < |pre| ==> pre[i] == ops[i];
      NoMcxNoToffoli(pre);
    }
  }

  /** The cost of a compiled affine form: one X per 1 in the offset, one CNOT per 1 in the
      matrix, and no Toffoli or T gates. */
  lemma AffineCost(form: AffineXorForm)
    requires form.WellFormed()
    ensures CircuitCost(AffineOps(form)).Success?
    ensures var c := CircuitCost(AffineOps(form)).value;
      && c.xCount == Ones(form.offsetBits)
      && c.cnotCount == MatrixOnes(form.matrix, |form.matrix|)
      && c.toffoliCount == 0 && c.tCount == 0
  {
    var ops := AffineOps(form);
    AffineOpsShape(form);
    assert forall i :: 0 <= i < |ops| ==> Supported(ops[i]) && ops[i].gate != McxGate;
    CostCounts(ops);
    NoMcxNoToffoli(ops);
    AffinePrefixCounts(form, |form.matrix|);
    assert form.offsetBits[..|form.matrix|] == form.offsetBits;
  }
}
