/** What the synthesised circuits compute. A register is a sequence of classical wire
    values; X flips its target, and CX / MCX flip their target when every control wire
    carries its control value. The compiled circuits are then shown to map the basis state
    |x>|0> to |x>|f(x)>, and every compiled op list to be undone by running it backwards. */
module CircuitSemantics {
  import opened Wrappers
  import opened BitArith
  import opened FunctionIr
  import opened ReversibleSynth

  // ---------------------------------------------------------------- the simulator

  /** Every wire the op names lies below n, and each control has a control value. */
  predicate WiredWithin(op: ReversibleOp, n: nat) {
    && 0 <= op.target < n
    && |op.controlValues| == |op.controls|
    && (forall j :: 0 <= j < |op.controls| ==> 0 <= op.controls[j] < n)
  }

  /** Every control wire carries its control value (1 is "set"). */
  predicate ControlsHold(op: ReversibleOp, s: seq<bool>)
    requires WiredWithin(op, |s|)
  {
    forall j :: 0 <= j < |op.controls| ==> s[op.controls[j]] == (op.controlValues[j] == 1)
  }

  /** One op on a register. An op naming wires outside the register, or a gate without a
      classical meaning here, leaves the register alone. */
  function ApplyOp(op: ReversibleOp, s: seq<bool>): (r: seq<bool>)
    ensures |r| == |s|
  {
    if !WiredWithin(op, |s|) || op.gate.OtherGate? then s
    else if op.gate == XGate || ControlsHold(op, s) then s[op.target := !s[op.target]]
    else s
  }

  /** An op changes at most its target wire. */
  lemma ApplyOpFrame(op: ReversibleOp, s: seq<bool>)
    ensures forall w :: 0 <= w < |s| && w != op.target ==> ApplyOp(op, s)[w] == s[w]
  {
  }

  /** An op whose target is not one of its own controls undoes itself. */
  lemma ApplyOpInvolution(op: ReversibleOp, s: seq<bool>)
    requires op.target !in op.controls
    ensures ApplyOp(op, ApplyOp(op, s)) == s
  {
    var t := ApplyOp(op, s);
    if WiredWithin(op, |s|) && !op.gate.OtherGate? {
      assert forall j :: 0 <= j < |op.controls| ==> op.controls[j] != op.target;
      assert forall j :: 0 <= j < |op.controls| ==> t[op.controls[j]] == s[op.controls[j]];
      assert ControlsHold(op, t) == ControlsHold(op, s);
      if op.gate == XGate || ControlsHold(op, s) {
        assert ApplyOp(op, t) == t[op.target := !t[op.target]];
      }
    }
  }

  /** The ops in list order. */
  function Run(ops: seq<ReversibleOp>, s: seq<bool>): (r: seq<bool>)
    ensures |r| == |s|
    decreases |ops|
  {
    if ops == [] then s else ApplyOp(ops[|ops| - 1], Run(ops[..|ops| - 1], s))
  }

  /** Running two lists one after the other runs their concatenation. */
  lemma {:induction false} RunConcat(a: seq<ReversibleOp>, b: seq<ReversibleOp>, s: seq<bool>)
    ensures Run(a + b, s) == Run(b, Run(a, s))
    decreases |b|
  {
    if b == [] {
      assert a + b == a;
    } else {
      assert (a + b)[..|a + b| - 1] == a + b[..|b| - 1];
      assert (a + b)[|a + b| - 1] == b[|b| - 1];
      RunConcat(a, b[..|b| - 1], s);
    }
  }

  /** The ops in reverse order: the inverse of a circuit of self-inverse ops. */
  function Backwards(ops: seq<ReversibleOp>): (r: seq<ReversibleOp>)
    ensures |r| == |ops|
  {
    seq(|ops|, i requires 0 <= i < |ops| => ops[|ops| - 1 - i])
  }

  /** No op targets one of its own controls. */
  predicate TargetsFree(ops: seq<ReversibleOp>) {
    forall i :: 0 <= i < |ops| ==> ops[i].target !in ops[i].controls
  }

  /** Running a list and then the same list backwards restores every register. */
  lemma {:induction false} RunBackwards(ops: seq<ReversibleOp>, s: seq<bool>)
    requires TargetsFree(ops)
    ensures Run(Backwards(ops), Run(ops, s)) == s
    decreases |ops|
  {
    if ops != [] {
      var k := |ops| - 1;
      var pre := ops[..k];
      assert TargetsFree(pre) by {
        assert forall i :: 0 <= i < k ==> pre[i] == ops[i];
      }
      assert Backwards(ops) == [ops[k]] + Backwards(pre);
      var t := Run(pre, s);
      RunConcat([ops[k]], Backwards(pre), ApplyOp(ops[k], t));
      assert Run([ops[k]], ApplyOp(ops[k], t)) == ApplyOp(ops[k], ApplyOp(ops[k], t));
      ApplyOpInvolution(ops[k], t);
      RunBackwards(pre, s);
    }
  }

  // ---------------------------------------------------------------- X layers and control gates

  /** Distinct wires below n. */
  predicate DistinctWires(ws: seq<int>, n: nat) {
    && (forall i :: 0 <= i < |ws| ==> 0 <= ws[i] < n)
    && (forall i, j :: 0 <= i < j < |ws| ==> ws[i] != ws[j])
  }

  /** A layer of X ops on distinct wires flips exactly those wires. */
  lemma {:induction false} XLayerRun(ws: seq<int>, s: seq<bool>)
    requires DistinctWires(ws, |s|)
    ensures forall w :: 0 <= w < |s| ==> Run(XLayer(ws), s)[w] == (s[w] != (w in ws))
    decreases |ws|
  {
    if ws != [] {
      var k := |ws| - 1;
      var pre := ws[..k];
      assert XLayer(ws)[..k] == XLayer(pre);
      assert XLayer(ws)[k] == XOp(ws[k]);
      XLayerRun(pre, s);
      assert forall w :: w in ws <==> w in pre || w == ws[k];
      assert ws[k] !in pre by {
        assert forall i :: 0 <= i < k ==> pre[i] != ws[k];
      }
    }
  }

  /** Reversing a list of distinct wires keeps them distinct and keeps the same wires. */
  lemma ReverseDistinct(ws: seq<int>, n: nat)
    requires DistinctWires(ws, n)
    ensures DistinctWires(Reverse(ws), n)
    ensures forall w :: w in Reverse(ws) <==> w in ws
  {
    var r := Reverse(ws);
    assert forall i :: 0 <= i < |ws| ==> r[|ws| - 1 - i] == ws[i];
  }

  /** The control gate of a minterm block flips its target exactly when every input wire
      is set. */
  lemma ControlGateRun(nIn: nat, target: int, s: seq<bool>)
    requires nIn <= target < |s|
    ensures ApplyOp(ControlGate(nIn, target), s) ==
      if forall i :: 0 <= i < nIn ==> s[i] then s[target := !s[target]] else s
  {
    var g := ControlGate(nIn, target);
    if nIn >= 2 {
      assert g.controls == Iota(nIn) && g.controlValues == OnesSeq(nIn);
      assert |g.controls| == nIn;
      assert forall j :: 0 <= j < nIn ==> g.controls[j] == j && g.controlValues[j] == 1;
      assert WiredWithin(g, |s|);
      if forall i :: 0 <= i < nIn ==> s[i] {
        assert ControlsHold(g, s);
      } else {
        var i :| 0 <= i < nIn && !s[i];
        assert g.controls[i] == i;
        assert !ControlsHold(g, s);
      }
    } else if nIn == 1 {
      CxRun(0, target, s);
    }
  }

  /** A CX flips its target exactly when its control wire is set. */
  lemma CxRun(control: int, target: int, s: seq<bool>)
    requires 0 <= control < |s| && 0 <= target < |s|
    ensures ApplyOp(CxOp(control, target), s) == if s[control] then s[target := !s[target]] else s
  {
    var op := CxOp(control, target);
    assert WiredWithin(op, |s|);
    assert ControlsHold(op, s) <==> s[control] by {
      assert op.controls[0] == control && op.controlValues[0] == 1;
    }
  }

  /** Appending one op applies it last. */
  lemma RunSnoc(ops: seq<ReversibleOp>, op: ReversibleOp, s: seq<bool>)
    ensures Run(ops + [op], s) == ApplyOp(op, Run(ops, s))
  {
    assert (ops + [op])[..|ops|] == ops;
  }

  // ---------------------------------------------------------------- lookup-table circuits

  /** The input register, wires 0 .. nIn-1, holds y. */
  predicate HoldsInput(s: seq<bool>, y: int, nIn: nat) {
    nIn <= |s| && forall i :: 0 <= i < nIn ==> s[i] == (Bit(y, i) == 1)
  }

  /** After the first X layer of a minterm block for x, every input wire is set exactly
      when the input register holds x. */
  lemma ConjugatedInputs(x: int, y: int, nIn: nat, s: seq<bool>, s1: seq<bool>)
    requires 0 <= x < Pow2(nIn) && 0 <= y < Pow2(nIn)
    requires HoldsInput(s, y, nIn) && |s1| == |s|
    requires forall w :: 0 <= w < |s| ==> s1[w] == (s[w] != (w in ZeroWires(x, nIn)))
    ensures (forall i :: 0 <= i < nIn ==> s1[i]) <==> y == x
  {
    ZeroWiresMembers(x, nIn);
    if forall i :: 0 <= i < nIn ==> s1[i] {
      forall i | 0 <= i < nIn
        ensures Bit(y, i) == Bit(x, i)
      {
        assert s1[i];
      }
      BitsDetermine(y, x, nIn);
    }
  }

  /** X on distinct wires, a gate that flips a target outside them exactly when c holds,
      and the same X ops backwards: the target is flipped exactly when c holds and every
      other wire is restored. */
  lemma ConjugateRun(ws: seq<int>, g: ReversibleOp, c: bool, target: int, s: seq<bool>)
    requires DistinctWires(ws, |s|) && 0 <= target < |s| && target !in ws
    requires var s1 := Run(XLayer(ws), s);
      ApplyOp(g, s1) == if c then s1[target := !s1[target]] else s1
    ensures Run(XLayer(ws) + [g] + XLayer(Reverse(ws)), s) ==
      if c then s[target := !s[target]] else s
  {
    var s1 := Run(XLayer(ws), s);
    var s2 := ApplyOp(g, s1);
    RunSnoc(XLayer(ws), g, s);
    RunConcat(XLayer(ws) + [g], XLayer(Reverse(ws)), s);
    UndoLayer(ws, c, target, s, s1, s2);
  }

  lemma UndoLayer(ws: seq<int>, c: bool, target: int, s: seq<bool>, s1: seq<bool>, s2: seq<bool>)
    requires DistinctWires(ws, |s|) && 0 <= target < |s| && target !in ws
    requires s1 == Run(XLayer(ws), s)
    requires s2 == if c then s1[target := !s1[target]] else s1
    ensures Run(XLayer(Reverse(ws)), s2) == if c then s[target := !s[target]] else s
  {
    ReverseDistinct(ws, |s|);
    XLayerRun(ws, s);
    XLayerRun(Reverse(ws), s2);
    var s3 := Run(XLayer(Reverse(ws)), s2);
    var expected := if c then s[target := !s[target]] else s;
    forall w | 0 <= w < |s|
      ensures s3[w] == expected[w]
    {
    }
  }

  /** A minterm block for x flips its target exactly when the input register holds x, and
      leaves every other wire as it found it. */
  lemma MintermBlockRun(x: int, y: int, nIn: nat, target: int, s: seq<bool>)
    requires 0 <= x < Pow2(nIn) && 0 <= y < Pow2(nIn)
    requires nIn <= target < |s| && HoldsInput(s, y, nIn)
    ensures Run(MintermBlock(x, nIn, target), s) == if y == x then s[target := !s[target]] else s
  {
    var zw := ZeroWires(x, nIn);
    ZeroWiresMembers(x, nIn);
    assert forall i :: 0 <= i < |zw| ==> zw[i] in zw;
    assert DistinctWires(zw, |s|);
    var s1 := Run(XLayer(zw), s);
    XLayerRun(zw, s);
    ConjugatedInputs(x, y, nIn, s, s1);
    ControlGateRun(nIn, target, s1);
    ConjugateRun(zw, ControlGate(nIn, target), y == x, target, s);
  }

  /** The blocks for an ascending list of minterms flip the target exactly when the input
      register holds one of them. */
  lemma {:induction false} BlocksRun(ms: seq<int>, y: int, nIn: nat, target: int, s: seq<bool>)
    requires forall i :: 0 <= i < |ms| ==> 0 <= ms[i] < Pow2(nIn)
    requires forall i, j :: 0 <= i < j < |ms| ==> ms[i] < ms[j]
    requires 0 <= y < Pow2(nIn) && nIn <= target < |s| && HoldsInput(s, y, nIn)
    ensures Run(Blocks(ms, nIn, target), s) == if y in ms then s[target := !s[target]] else s
    decreases |ms|
  {
    if ms != [] {
      var k := |ms| - 1;
      var pre := ms[..k];
      BlocksRun(pre, y, nIn, target, s);
      var t := Run(Blocks(pre, nIn, target), s);
      assert HoldsInput(t, y, nIn);
      RunConcat(Blocks(pre, nIn, target), MintermBlock(ms[k], nIn, target), s);
      MintermBlockRun(ms[k], y, nIn, target, t);
      assert forall z :: z in ms <==> z in pre || z == ms[k];
      if y == ms[k] {
        assert y !in pre by {
          assert forall i :: 0 <= i < k ==> pre[i] < ms[k];
        }
      }
    }
  }

  /** The blocks of output bit b of a table toggle the target exactly when bit b of the
      value stored for the input is 1. */
  lemma MintermsRun(table: map<int, int>, b: nat, nIn: nat, y: int, target: int, t: seq<bool>)
    requires 0 <= y < Pow2(nIn) && y in table
    requires nIn <= target < |t| && HoldsInput(t, y, nIn)
    ensures Run(Blocks(Minterms(table, b, Pow2(nIn)), nIn, target), t) ==
      if Bit(table[y], b) == 1 then t[target := !t[target]] else t
  {
    var ms := Minterms(table, b, Pow2(nIn));
    MintermsMembers(table, b, Pow2(nIn));
    assert forall i :: 0 <= i < |ms| ==> ms[i] in ms;
    BlocksRun(ms, y, nIn, target, t);
  }

  /** The first b wires of vs as they stand after b output bits are written; the rest still 0. */
  function Settled(vs: seq<bool>, b: nat): (r: seq<bool>)
    ensures |r| == |vs|
  {
    seq(|vs|, j requires 0 <= j < |vs| => j < b && vs[j])
  }

  lemma SettledEnds(vs: seq<bool>)
    ensures Settled(vs, 0) == Wires(0, |vs|)
    ensures Settled(vs, |vs|) == vs
  {
    WiresOfZero(|vs|);
  }

  /** Writing output wire b, by toggling it when vs[b] holds or by setting it to vs[b],
      settles one more output wire. */
  lemma SettleStep(ins: seq<bool>, vs: seq<bool>, b: nat)
    requires b < |vs|
    ensures var t := ins + Settled(vs, b); var target := |ins| + b;
      && (if vs[b] then t[target := !t[target]] else t) == ins + Settled(vs, b + 1)
      && t[target := vs[b]] == ins + Settled(vs, b + 1)
  {
    var t := ins + Settled(vs, b);
    var target := |ins| + b;
    var u := ins + Settled(vs, b + 1);
    assert !t[target];
    assert forall w :: 0 <= w < |t| ==> t[target := vs[b]][w] == u[w];
    if !vs[b] {
      assert t[target := vs[b]] == t;
    }
  }

  /** A valid table holds every input of its domain. */
  lemma ValidHasKey(form: LookupTableForm, y: int)
    requires form.Valid() && 0 <= y < Pow2(form.nInputBits)
    ensures y in form.table
  {
    form.ValidKeys();
  }

  /** Writing output bit b of a table toggles its output wire exactly when bit b of
      table[y] is 1. */
  lemma BitOpsRun(form: LookupTableForm, y: int, b: nat, t: seq<bool>)
    requires form.Valid() && 0 <= y < Pow2(form.nInputBits) && b < form.nOutputBits
    requires OutputWire(form.nInputBits, b) < |t| && HoldsInput(t, y, form.nInputBits)
    ensures y in form.table
    ensures var target := OutputWire(form.nInputBits, b);
      Run(BitOps(form, b), t) == if Bit(form.table[y], b) == 1 then t[target := !t[target]] else t
  {
    ValidHasKey(form, y);
    MintermsRun(form.table, b, form.nInputBits, y, OutputWire(form.nInputBits, b), t);
  }

  lemma {:induction false} LutPrefixRun(form: LookupTableForm, y: int, b: nat)
    requires form.Valid() && 0 <= y < Pow2(form.nInputBits) && b <= form.nOutputBits
    ensures y in form.table
    ensures var nIn := form.nInputBits; var nOut := form.nOutputBits;
      Run(LutPrefix(form, b), Wires(y, nIn) + Wires(0, nOut)) ==
        Wires(y, nIn) + Settled(Wires(form.table[y], nOut), b)
    decreases b
  {
    ValidHasKey(form, y);
    SettledEnds(Wires(form.table[y], form.nOutputBits));
    var c := 0;
    while c < b
      invariant 0 <= c <= b
      invariant var nIn := form.nInputBits; var nOut := form.nOutputBits;
        Run(LutPrefix(form, c), Wires(y, nIn) + Wires(0, nOut)) ==
          Wires(y, nIn) + Settled(Wires(form.table[y], nOut), c)
    {
      LutStep(form, y, c);
      c := c + 1;
    }
  }

  lemma LutStep(form: LookupTableForm, y: int, c: nat)
    requires form.Valid() && 0 <= y < Pow2(form.nInputBits) && c < form.nOutputBits
    requires y in form.table
    requires var nIn := form.nInputBits; var nOut := form.nOutputBits;
      Run(LutPrefix(form, c), Wires(y, nIn) + Wires(0, nOut)) ==
        Wires(y, nIn) + Settled(Wires(form.table[y], nOut), c)
    ensures var nIn := form.nInputBits; var nOut := form.nOutputBits;
      Run(LutPrefix(form, c + 1), Wires(y, nIn) + Wires(0, nOut)) ==
        Wires(y, nIn) + Settled(Wires(form.table[y], nOut), c + 1)
  {
    var nIn := form.nInputBits;
    var nOut := form.nOutputBits;
    var vs := Wires(form.table[y], nOut);
    var ins := Wires(y, nIn);
    var s0 := ins + Wires(0, nOut);
    var t := ins + Settled(vs, c);
    RunConcat(LutPrefix(form, c), BitOps(form, c), s0);
    assert HoldsInput(t, y, nIn);
    BitOpsRun(form, y, c, t);
    assert vs[c] == (Bit(form.table[y], c) == 1);
    SettleStep(ins, vs, c);
  }

  /** The sum-of-minterms circuit of a valid table maps |y>|0> to |y>|table[y]>: reading
      the output register back yields table[y] and the input register still reads y. */
  lemma LookupTableCircuitCorrect(form: LookupTableForm, y: int)
    requires form.Valid() && 0 <= y < Pow2(form.nInputBits)
    ensures y in form.table
    ensures var nIn := form.nInputBits; var nOut := form.nOutputBits;
      var r := Run(LutOps(form), Wires(y, nIn) + Wires(0, nOut));
      && r == Wires(y, nIn) + Wires(form.table[y], nOut)
      && RegisterValue(r[..nIn]) == y
      && RegisterValue(r[nIn..]) == form.table[y]
  {
    ValidHasKey(form, y);
    LutPrefixRun(form, y, form.nOutputBits);
    SettledEnds(Wires(form.table[y], form.nOutputBits));
    ReadBack(y, form.nInputBits, form.table[y], form.nOutputBits);
  }

  // ---------------------------------------------------------------- affine circuits

  /** One more entry of a row: a CX from input wire k when row[k] is 1, which toggles the
      target by bit k of the input. */
  lemma CxRowStep(form: AffineXorForm, row: seq<int>, y: int, nIn: nat, target: int, k: nat,
                  s: seq<bool>)
    requires k < |row| <= nIn && nIn <= target < |s| && HoldsInput(s, y, nIn)
    requires Run(CxRow(row, target, k), s) == s[target := s[target] != (form.Parity(row, k, y) == 1)]
    ensures Run(CxRow(row, target, k + 1), s) ==
      s[target := s[target] != (form.Parity(row, k + 1, y) == 1)]
  {
    var pre := CxRow(row, target, k);
    var p := form.Parity(row, k, y);
    var t := s[target := s[target] != (p == 1)];
    if row[k] == 1 {
      assert CxRow(row, target, k + 1) == pre + [CxOp(k, target)];
      RunSnoc(pre, CxOp(k, target), s);
      CxRun(k, target, t);
      assert t[k] == (Bit(y, k) == 1);
      assert form.Parity(row, k + 1, y) == Xor(p, Bit(y, k));
      var v := s[target] != (form.Parity(row, k + 1, y) == 1);
      assert ApplyOp(CxOp(k, target), t) == s[target := v];
    } else {
      assert CxRow(row, target, k + 1) == pre + [];
      assert pre + [] == pre;
      assert form.Parity(row, k + 1, y) == p;
    }
  }

  /** The CX ops of a row toggle the target by the parity of the selected input bits. */
  lemma {:induction false} CxRowRun(form: AffineXorForm, row: seq<int>, y: int, nIn: nat,
                                     target: int, n: nat, s: seq<bool>)
    requires n <= |row| <= nIn && nIn <= target < |s| && HoldsInput(s, y, nIn)
    ensures Run(CxRow(row, target, n), s) == s[target := s[target] != (form.Parity(row, n, y) == 1)]
  {
    assert s[target := s[target]] == s;
    var k := 0;
    while k < n
      invariant 0 <= k <= n
      invariant Run(CxRow(row, target, k), s) == s[target := s[target] != (form.Parity(row, k, y) == 1)]
    {
      CxRowStep(form, row, y, nIn, target, k, s);
      k := k + 1;
    }
  }

  /** The ops of output row b set a clear target wire to output bit b of the form. */
  lemma AffineRowRun(form: AffineXorForm, y: int, b: nat, s: seq<bool>)
    requires form.WellFormed() && b < form.nOutputBits
    requires OutputWire(form.nInputBits, b) < |s| && HoldsInput(s, y, form.nInputBits)
    requires !s[OutputWire(form.nInputBits, b)]
    ensures var target := OutputWire(form.nInputBits, b);
      Run(AffineRow(form, b), s) == s[target := form.OutBit(b, y) == 1]
  {
    var nIn := form.nInputBits;
    var target := OutputWire(nIn, b);
    var row := form.matrix[b];
    assert |row| == nIn;
    var cx := CxRow(row, target, |row|);
    var o := form.offsetBits[b];
    var p := form.Parity(row, |row|, y);
    assert o == 0 || o == 1;
    assert form.OutBit(b, y) == if o != p then 1 else 0;
    if o == 1 {
      var s1 := s[target := true];
      assert AffineRow(form, b) == [XOp(target)] + cx;
      assert Run([XOp(target)], s) == s1;
      RunConcat([XOp(target)], cx, s);
      assert HoldsInput(s1, y, nIn);
      CxRowRun(form, row, y, nIn, target, |row|, s1);
      assert s1[target := true != (p == 1)] == s[target := p == 0];
    } else {
      assert AffineRow(form, b) == cx;
      CxRowRun(form, row, y, nIn, target, |row|, s);
    }
  }

  /** The output wires of an affine circuit as the form defines them. */
  function AffineOut(form: AffineXorForm, y: int): (vs: seq<bool>)
    requires |form.matrix| <= |form.offsetBits|
    ensures |vs| == |form.matrix|
  {
    seq(|form.matrix|, j requires 0 <= j < |form.matrix| => form.OutBit(j, y) == 1)
  }

  /** One more output row settles one more output wire. */
  lemma AffineStep(form: AffineXorForm, y: int, c: nat)
    requires form.WellFormed() && c < form.nOutputBits
    requires var nIn := form.nInputBits; var nOut := form.nOutputBits;
      Run(AffinePrefix(form, c), Wires(y, nIn) + Wires(0, nOut)) ==
        Wires(y, nIn) + Settled(AffineOut(form, y), c)
    ensures var nIn := form.nInputBits; var nOut := form.nOutputBits;
      Run(AffinePrefix(form, c + 1), Wires(y, nIn) + Wires(0, nOut)) ==
        Wires(y, nIn) + Settled(AffineOut(form, y), c + 1)
  {
    var nIn := form.nInputBits;
    var nOut := form.nOutputBits;
    var vs := AffineOut(form, y);
    var ins := Wires(y, nIn);
    var s0 := ins + Wires(0, nOut);
    var t := ins + Settled(vs, c);
    assert HoldsInput(t, y, nIn);
    AffineRowRun(form, y, c, t);
    assert vs[c] == (form.OutBit(c, y) == 1);
    SettleByOps(AffinePrefix(form, c), AffineRow(form, c), s0, ins, vs, c);
  }

  /** Ops that settle output wire c, run after a prefix that settled the wires below c,
      settle the wires below c + 1. */
  lemma SettleByOps(pre: seq<ReversibleOp>, ops: seq<ReversibleOp>, s0: seq<bool>,
                    ins: seq<bool>, vs: seq<bool>, c: nat)
    requires c < |vs| && Run(pre, s0) == ins + Settled(vs, c)
    requires var t := ins + Settled(vs, c); Run(ops, t) == t[|ins| + c := vs[c]]
    ensures Run(pre + ops, s0) == ins + Settled(vs, c + 1)
  {
    RunConcat(pre, ops, s0);
    SettleStep(ins, vs, c);
  }

  /** After the rows 0 .. b-1, the output wires below b hold those output bits. */
  lemma {:induction false} AffinePrefixRun(form: AffineXorForm, y: int, b: nat)
    requires form.WellFormed() && b <= form.nOutputBits
    ensures var nIn := form.nInputBits; var nOut := form.nOutputBits;
      Run(AffinePrefix(form, b), Wires(y, nIn) + Wires(0, nOut)) ==
        Wires(y, nIn) + Settled(AffineOut(form, y), b)
  {
    var vs := AffineOut(form, y);
    var ins := Wires(y, form.nInputBits);
    var s0 := ins + Wires(0, form.nOutputBits);
    SettledEnds(vs);
    var c := 0;
    while c < b
      invariant 0 <= c <= b
      invariant Run(AffinePrefix(form, c), s0) == ins + Settled(vs, c)
    {
      AffineStep(form, y, c);
      c := c + 1;
    }
  }

  /** The output wires the rows write are the wires of the value `evaluate` returns. */
  lemma AffineOutIsImage(form: AffineXorForm, y: int)
    requires form.WellFormed()
    ensures AffineOut(form, y) == Wires(form.Image(y), form.nOutputBits)
  {
    var vs := AffineOut(form, y);
    form.ImageBits(y);
    forall j | 0 <= j < form.nOutputBits
      ensures vs[j] == Wires(form.Image(y), form.nOutputBits)[j]
    {
      assert form.offsetBits[j] == 0 || form.offsetBits[j] == 1;
    }
  }

  /** The CNOT/X network of a well-formed affine form maps |y>|0> to |y>|A y XOR b>, the
      value `evaluate(y)` returns. */
  lemma AffineCircuitCorrect(form: AffineXorForm, y: int)
    requires form.WellFormed() && 0 <= y < Pow2(form.nInputBits)
    ensures form.Apply(y) == Success(form.Image(y))
    ensures var nIn := form.nInputBits; var nOut := form.nOutputBits;
      var r := Run(AffineOps(form), Wires(y, nIn) + Wires(0, nOut));
      && r == Wires(y, nIn) + Wires(form.Image(y), nOut)
      && RegisterValue(r[..nIn]) == y
      && RegisterValue(r[nIn..]) == form.Image(y)
  {
    AffinePrefixRun(form, y, |form.matrix|);
    SettledEnds(AffineOut(form, y));
    AffineOutIsImage(form, y);
    form.ImageBits(y);
    ReadBack(y, form.nInputBits, form.Image(y), form.nOutputBits);
  }

  /** Both registers of |y>|v> read back as y and v. */
  lemma ReadBack(y: int, nIn: nat, v: int, nOut: nat)
    requires 0 <= y < Pow2(nIn) && 0 <= v < Pow2(nOut)
    ensures var r := Wires(y, nIn) + Wires(v, nOut);
      RegisterValue(r[..nIn]) == y && RegisterValue(r[nIn..]) == v
  {
    var r := Wires(y, nIn) + Wires(v, nOut);
    assert r[..nIn] == Wires(y, nIn) && r[nIn..] == Wires(v, nOut);
    RegisterValueWires(y, nIn);
    RegisterValueWires(v, nOut);
  }

  // ---------------------------------------------------------------- uncomputation

  /** Every compiled table circuit is undone by running its ops backwards. */
  lemma LutOpsReversible(form: LookupTableForm, s: seq<bool>)
    ensures Run(Backwards(LutOps(form)), Run(LutOps(form), s)) == s
  {
    var ops := LutOps(form);
    LutOpsShape(form);
    forall i | 0 <= i < |ops|
      ensures ops[i].target !in ops[i].controls
    {
      assert LutOpShape(ops[i], form.nInputBits, form.nOutputBits);
    }
    RunBackwards(ops, s);
  }

  /** Every compiled affine circuit is undone by running its ops backwards. */
  lemma AffineOpsReversible(form: AffineXorForm, s: seq<bool>)
    requires form.WellFormed()
    ensures Run(Backwards(AffineOps(form)), Run(AffineOps(form), s)) == s
  {
    var ops := AffineOps(form);
    AffineOpsShape(form);
    forall i | 0 <= i < |ops|
      ensures ops[i].target !in ops[i].controls
    {
      assert AffineOpShape(ops[i], form.nInputBits, form.nOutputBits);
    }
    RunBackwards(ops, s);
  }
}
