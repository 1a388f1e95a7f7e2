/** The worked examples of the repository's test suite, stated over the model: each member
    builds the same inputs as one test and proves the values that test expects. */
module Scenarios {
  import opened Wrappers
  import opened BitArith
  import opened FunctionIr
  import opened ReversibleSynth
  import opened SparseCodec
  import opened SparseAccess
  import opened SparseEntry

  // ---------------------------------------------------------------- reversible synthesis

  /** The two-input AND as a full table. */
  const AndTable := LookupTableForm(2, 1, map[0 := 0, 1 := 0, 2 := 0, 3 := 1], "and2")

  /** The AND table is full, and its circuit is the one MCX on both inputs into wire 2. */
  lemma AndTableOps()
    ensures AndTable.Valid()
    ensures LutOps(AndTable) == [ReversibleOp(McxGate, [0, 1], [1, 1], 2)]
  {
    var t := AndTable.table;
    assert t.Keys == {0, 1, 2, 3};
    assert Bit(0, 0) == 0 && Bit(1, 0) == 1;
    assert t[0] == 0 && t[1] == 0 && t[2] == 0 && t[3] == 1;
    assert Minterms(t, 0, 4) == [3];
    assert ZeroWires(3, 2) == [];
    assert Iota(2) == [0, 1] && OnesSeq(2) == [1, 1];
  }

  /** One MCX with two controls costs one Toffoli, seven T gates and T-depth 3. */
  lemma SingleMcxCost()
    ensures CircuitCost([ReversibleOp(McxGate, [0, 1], [1, 1], 2)]) == Success(GateCost(0, 0, 1, 7, 3, 0))
  {
    var ops := [ReversibleOp(McxGate, [0, 1], [1, 1], 2)];
    assert ops[..0] == [];
    assert OpCost(ops[0]) == Success(GateCost(0, 0, 1, 7, 3, 0));
  }

  /** Compiling the AND table and estimating its cost gives one Toffoli and seven T gates. */
  method AndTableScenario() returns (cost: Result<GateCost, Error>)
    ensures cost.Success?
    ensures cost.value.toffoliCount == 1 && cost.value.tCount == 7
  {
    AndTableOps();
    var circ := CompileFunctionForm(Table(AndTable), None);
    SingleMcxCost();
    cost := circ.value.EstimateCost();
  }

  /** The affine map with matrix ((1, 0, 1), (0, 1, 0)) and offset (0, 1). */
  const AffineExample := AffineXorForm(3, 2, [[1, 0, 1], [0, 1, 0]], [0, 1], "affine_test")

  /** The example is well formed, and its op list has three CNOTs, one X and no Toffoli
      or T gate. */
  lemma AffineExampleCost()
    ensures AffineExample.WellFormed()
    ensures CircuitCost(AffineOps(AffineExample)).Success?
    ensures var c := CircuitCost(AffineOps(AffineExample)).value;
      c.cnotCount == 3 && c.xCount == 1 && c.toffoliCount == 0 && c.tCount == 0
  {
    AffineExampleWellFormed();
    AffineCost(AffineExample);
    ExampleOnes();
    assert MatrixOnes(AffineExample.matrix, 2) == 3;
  }

  lemma AffineExampleWellFormed()
    ensures AffineExample.WellFormed()
  {
    var form := AffineExample;
    assert IsBitSeq(form.matrix[0]) && IsBitSeq(form.matrix[1]) && IsBitSeq(form.offsetBits);
  }

  /** The 1-counts of the example's rows and offset. */
  lemma ExampleOnes()
    ensures Ones([1, 0, 1]) == 2 && Ones([0, 1, 0]) == 1 && Ones([0, 1]) == 1
  {
    assert [1, 0, 1][..2] == [1, 0] && [1, 0][..1] == [1] && [1][..0] == [];
    assert [0, 1, 0][..2] == [0, 1] && [0, 1][..1] == [0] && [0][..0] == [];
  }

  /** Compiling the affine example and estimating its cost gives three CNOTs, one X and no
      Toffoli or T gate. */
  method AffineScenario() returns (cost: Result<GateCost, Error>)
    ensures cost.Success?
    ensures cost.value.cnotCount == 3 && cost.value.xCount == 1
    ensures cost.value.toffoliCount == 0 && cost.value.tCount == 0
  {
    AffineExampleCost();
    var circ := CompileFunctionForm(Affine(AffineExample), None);
    cost := circ.value.EstimateCost();
  }

  // ---------------------------------------------------------------- sparse oracles

  /** The rotating sparsity pattern of a 3 x 3 matrix: the l-th nonzero of a row is in column
      (row + l) mod 3, the l-th nonzero of a column in row (col + 2 l) mod 3. */
  function RotatingRows(): (int, int) -> int {
    (row, l) => (row + l) % 3
  }

  function RotatingCols(): (int, int) -> int {
    (col, l) => (col + 2 * l) % 3
  }

  /** 0.25 on the diagonal, -0.125 off it. */
  function SplitEntries(): (int, int) -> real {
    (i, j) => if i == j then 0.25 else -0.125
  }

  /** Both patterns stay inside the 3 columns (rows) for the two nonzeros of each row
      (column). */
  lemma RotatingInRange()
    ensures IndicesInRange(3, 2, RotatingRows(), 3)
    ensures IndicesInRange(3, 2, RotatingCols(), 3)
    ensures RotatingRows()(2, 1) == 0 && RotatingCols()(1, 1) == 0
  {
  }

  /** A table keyed by the 3 x 2 grid has six entries. */
  lemma SixCells(table: map<Cell, int>)
    requires table.Keys == Grid(3, 2)
    ensures |table| == 6
  {
    GridSize(3, 2);
    assert |table.Keys| == |table|;
  }

  /** Both entries are exact at 6 fractional bits and fit 8 signed bits. */
  lemma SplitEntriesFit()
    ensures EntriesFit(3, 3, 8, 6, SplitEntries())
  {
    assert Pow2(6) == 64;
    RoundInteger(16);
    RoundInteger(-8);
    assert ScaledValue(0.25, 6) == 16 by {
      assert 0.25 * 64.0 == 16.0;
    }
    assert ScaledValue(-0.125, 6) == -8 by {
      assert -0.125 * 64.0 == -8.0;
    }
    assert Pow2(7) == 128;
  }

  /** Building the 3 x 3 bundle: the row oracle puts the second nonzero of row 2 in column 0,
      the column oracle puts the second nonzero of column 1 in row 0, and the row oracle's
      truth table has one entry per (row, l) pair, six in all. */
  method RotatingBundleScenario() returns (rowLookup: Result<int, Error>,
                                           colLookup: Result<int, Error>,
                                           tableSize: int)
    ensures rowLookup == Success(0) && colLookup == Success(0)
    ensures tableSize == 6
  {
    SplitEntriesFit();
    RotatingInRange();
    var bundle := SparseOracleBundle.FromFunctions(3, 3, 2, 2, RotatingRows(), RotatingCols(),
                                                   SplitEntries(), 8, 6, 1.0);
    rowLookup := bundle.value.rowOracle.Lookup(2, 1);
    colLookup := bundle.value.colOracle.Lookup(1, 1);
    assert rowLookup == Success(RotatingRows()(2, 1));
    assert colLookup == Success(RotatingCols()(1, 1));
    var compiled := bundle.value.rowOracle.CompileTruthTable();
    SixCells(bundle.value.rowOracle.table);
    tableSize := |compiled.value|;
  }

  /** The 2 x 2 matrix of the entry-oracle example. */
  const SmallMatrix: seq<seq<real>> := [[0.5, -0.25], [0.0, 0.125]]

  /** Its entries are exact at 8 fractional bits and fit 10 signed bits. */
  lemma SmallMatrixFits()
    ensures Rectangular(SmallMatrix)
    ensures EntriesFit(2, 2, 10, 8, DenseEntry(SmallMatrix))
    ensures Quantized(-0.25, 8) == -0.25 && Quantized(0.125, 8) == 0.125
  {
    assert Pow2(8) == 256;
    assert Pow2(9) == 512;
    RoundInteger(128);
    RoundInteger(-64);
    RoundInteger(0);
    RoundInteger(32);
    assert ScaledValue(0.5, 8) == 128 by { assert 0.5 * 256.0 == 128.0; }
    assert ScaledValue(-0.25, 8) == -64 by { assert -0.25 * 256.0 == -64.0; }
    assert ScaledValue(0.0, 8) == 0;
    assert ScaledValue(0.125, 8) == 32 by { assert 0.125 * 256.0 == 32.0; }
    var m := DenseEntry(SmallMatrix);
    assert m(0, 0) == 0.5 && m(0, 1) == -0.25 && m(1, 0) == 0.0 && m(1, 1) == 0.125;
  }

  /** The entry oracle of the small matrix: the stored string of the negative entry (0, 1)
      starts with the sign digit 1, and entry (1, 1) reads back as 0.125. */
  method DenseEntryScenario() returns (signDigit: char, value: Result<real, Error>)
    ensures signDigit == '1'
    ensures value == Success(0.125)
  {
    SmallMatrixFits();
    var o := EntryBinaryOracle.FromDense(SmallMatrix, 10, 8);
    var bits := o.value.LookupBits(0, 1);
    assert o.value.LookupValue(0, 1) == Success(-0.25);
    signDigit := bits.value[0];
    value := o.value.LookupValue(1, 1);
  }

  /** The diagonal pattern: the l-th nonzero of row l (or column l) is at l. */
  function Diagonal(): (int, int) -> int {
    (i, l) => l
  }

  /** The bundle over the small matrix encodes entry (0, 1) = -0.25 with alpha 1 as magnitude
      0.25 and phase pi. */
  method AmplitudeScenario() returns (amp: Result<AmplitudeEncoding, Error>)
    ensures amp.Success?
    ensures amp.value.normalizedAbs == 0.25 && amp.value.phase == PiPhase
  {
    SmallMatrixFits();
    var bundle := SparseOracleBundle.FromFunctions(2, 2, 2, 2, Diagonal(), Diagonal(),
                                                   DenseEntry(SmallMatrix), 10, 8, 1.0);
    amp := bundle.value.amplitudeOracle.Encode(0, 1);
  }

  /** 0.5 on the diagonal, 0 off it. */
  function HalfDiagonal(): (int, int) -> real {
    (i, j) => if i == j then 0.5 else 0.0
  }

  lemma HalfDiagonalFits()
    ensures EntriesFit(2, 2, 10, 8, HalfDiagonal())
    ensures Quantized(0.5, 8) == 0.5
  {
    assert Pow2(8) == 256;
    assert Pow2(9) == 512;
    RoundInteger(128);
    RoundInteger(0);
    assert ScaledValue(0.5, 8) == 128 by { assert 0.5 * 256.0 == 128.0; }
    assert ScaledValue(0.0, 8) == 0;
  }

  /** A query at step 3 for row 1, l_pos 1 on the half-diagonal matrix: the record names the
      query operation, row 1, column 1, and the entry 0.5. */
  method QueryScenario() returns (record: Result<QueryRecord, Error>)
    ensures record.Success?
    ensures record.value.op == QueryOp && record.value.step == 3
    ensures record.value.row == 1 && record.value.col == 1 && record.value.value == 0.5
  {
    HalfDiagonalFits();
    var bundle := SparseOracleBundle.FromFunctions(2, 2, 2, 2, Diagonal(), Diagonal(),
                                                   HalfDiagonal(), 10, 8, 1.0);
    var encoding := SparseMatrixBlockEncoding(bundle.value);
    var request := BlockEncodingQuery(3, map["row" := 1.0, "l_pos" := 1.0]);
    assert Truncate(1.0) == 1;
    record := encoding.Query(request);
  }

  /** The rotating pattern on a 4 x 4 matrix with two nonzeros per row. */
  function RotatingRows4(): (int, int) -> int {
    (row, l) => (row + l) % 4
  }

  /** Its widths: 2 bits for the rows and columns, 1 for l, 3 for the packed input. */
  lemma RotatingRows4Widths()
    ensures IndicesInRange(4, 2, RotatingRows4(), 4)
    ensures BitsForRange(4) == 2 && BitsForRange(2) == 1 && InBits(4, 2) == 3
    ensures Pow2(2) == 4 && Pow2(1) == 2
    ensures RotatingRows4()(0, 1) == 1
  {
    assert CeilLog2(4) == 2 by { assert CeilLog2(2) == 1; }
  }

  /** A circuit whose ops are all of the sum-of-minterms kinds has a cost, and it charges 7 T
      gates per Toffoli. */
  lemma LutShapedCost(ops: seq<ReversibleOp>, nIn: nat, nOut: nat)
    requires AllLutShape(ops, nIn, nOut)
    ensures CircuitCost(ops).Success?
    ensures CircuitCost(ops).value.tCount == 7 * CircuitCost(ops).value.toffoliCount
    ensures CircuitCost(ops).value.tCount >= 0
  {
    CostCounts(ops);
    assert forall i :: 0 <= i < |ops| ==> Supported(ops[i]) by {
      forall i | 0 <= i < |ops|
        ensures Supported(ops[i])
      {
        assert LutOpShape(ops[i], nIn, nOut);
      }
    }
  }

  /** Packed index 1 is row 0, slot 1, which holds column 1: its low output bit is set, so
      the packed table's circuit is not empty. */
  lemma PackedRowNonEmpty(table: map<Cell, int>)
    requires GridTable(table, 4, 2, 4) && PackedOutcome(table, 4, 2, 4).None?
    requires (0, 1) in table && table[(0, 1)] == 1
    ensures |LutOps(PackedForm(table, 3, 1, 2, "row_access_oracle").Enumerated())| > 0
  {
    RotatingRows4Widths();
    assert Unpack(1, 1) == (0, 1) by { UnpackPack(0, 1, 1); }
    PackedEnumeratedAt(table, 4, 2, 4, "row_access_oracle", 0, 1, 1);
    assert Bit(1, 0) == 1;
    LutOpsNonEmpty(PackedForm(table, 3, 1, 2, "row_access_oracle").Enumerated(), 1, 0);
  }

  /** The callable row oracle on 4 x 4 with two nonzeros per row compiles to a non-empty
      circuit on 3 input wires (row and l packed) and 2 output wires, whose cost estimate
      succeeds with a non-negative T count. */
  method CallableRowScenario() returns (nInputBits: nat, nOutputBits: nat, opCount: nat,
                                        cost: Result<GateCost, Error>)
    ensures nInputBits == 3 && nOutputBits == 2 && opCount > 0
    ensures cost.Success? && cost.value.tCount == 7 * cost.value.toffoliCount
    ensures cost.value.tCount >= 0
  {
    RotatingRows4Widths();
    var row := RowAccessOracle.FromFunction(4, 4, 2, RotatingRows4());
    var o := row.value;
    GridFaults(o.table, 4, 2, 4);
    var circ := o.CompileReversibleCircuit();
    var form := PackedForm(o.table, 3, 1, 2, "row_access_oracle").Enumerated();
    assert o.Lookup(0, 1) == Success(RotatingRows4()(0, 1));
    PackedRowNonEmpty(o.table);
    LutOpsShape(form);
    LutShapedCost(circ.value.operations, form.nInputBits, form.nOutputBits);
    nInputBits := circ.value.nInputBits;
    nOutputBits := circ.value.nOutputBits;
    opCount := |circ.value.operations|;
    cost := circ.value.EstimateCost();
  }

  /** `lambda x: x ^ 0b01`: Python's XOR with the constant 1. */
  function XorOne(): int -> int {
    x => XorBit(x, 1)
  }

  /** The two-bit callable form that flips the low bit. */
  const XorConstForm := CompilableFunctionForm(2, 2, XorOne(), "xor_const")

  /** Its outputs stay in [0, 4), and input 0 maps to 1. */
  lemma XorConstInRange()
    ensures XorConstForm.InRange()
    ensures XorOne()(0) == 1
  {
    assert Pow2(2) == 4;
  }

  /** Under the default configuration the callable is enumerated and compiles to a non-empty
      circuit. */
  method XorConstScenario() returns (opCount: nat)
    ensures opCount > 0
  {
    XorConstInRange();
    var circ := CompileFunctionForm(Callable(XorConstForm), None);
    var t := XorConstForm.Enumerated();
    XorConstForm.EnumeratedCorrect();
    assert t.table[0] == 1 && Bit(1, 0) == 1;
    LutOpsNonEmpty(t, 0, 0);
    opCount := |circ.value.operations|;
  }
}
