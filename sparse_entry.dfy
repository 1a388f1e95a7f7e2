/** The entry oracle of a sparse matrix (fixed-point bit strings per cell), the amplitude
    oracle that reads it, the bundle of the three oracles and the block encoding that queries
    them. */
module SparseEntry {
  import opened Wrappers
  import opened BitArith
  import opened SparseCodec
  import opened SparseAccess

  // ---------------------------------------------------------------- the entry oracle

  /** Every entry the callable gives over the grid fits the signed fixed-point format. */
  predicate EntriesFit(nRows: int, nCols: int, valueBits: int, fracBits: int,
                       entryFn: (int, int) -> real) {
    forall row, col :: 0 <= row < nRows && 0 <= col < nCols ==>
      fracBits >= 0 && valueBits >= 1 &&
      SignedFits(ScaledValue(entryFn(row, col), fracBits), valueBits)
  }

  /** The cell function `from_function` tabulates: the entry, encoded. */
  function EntryCells(entryFn: (int, int) -> real, valueBits: int, fracBits: int)
    : (int, int) -> Result<string, Error>
  {
    (row, col) => EncodeSignedFixed(entryFn(row, col), valueBits, fracBits)
  }

  /** The error a failing entry encoding reports. */
  function EntryError(valueBits: int, fracBits: int): Error {
    if fracBits < 0 || valueBits < 1 then NegativeShift else OverflowError
  }

  /** O_A: (row, col) |-> the entry A[row, col] as a fixed-point bit string. */
  datatype EntryBinaryOracle = EntryBinaryOracle(nRows: int, nCols: int, valueBits: int,
                                                 fracBits: int, table: map<Cell, string>)
  {
    /** What `from_function` establishes: every cell of the grid holds a binary string of
        value_bits digits, and the fraction width is usable once there is a cell. */
    predicate Valid() {
      && table.Keys == Grid(nRows, nCols)
      && (forall k :: k in table ==>
            table[k] != [] && IsBinaryString(table[k]) && |table[k]| == valueBits)
      && (|table| > 0 ==> fracBits >= 0)
    }

    /** `lookup_bits(row, col)`: a dictionary read. */
    function LookupBits(row: int, col: int): (r: Result<string, Error>)
      ensures r.Success? <==> (row, col) in table
      ensures r.Failure? ==> r.error == MissingKey
      ensures Valid() ==> (r.Success? <==> 0 <= row < nRows && 0 <= col < nCols)
    {
      InGrid((row, col), nRows, nCols);
      if (row, col) in table then Success(table[(row, col)]) else Failure(MissingKey)
    }

    /** `lookup_value(row, col)`: the stored string read as a signed fixed-point number. It is
        negative exactly when the string's sign digit is set. */
    function LookupValue(row: int, col: int): (r: Result<real, Error>)
      ensures LookupBits(row, col).Failure? ==> r == Failure(MissingKey)
      ensures r.Success? ==>
        && LookupBits(row, col).Success? && fracBits >= 0 && LookupBits(row, col).value != []
        && (r.value < 0.0 <==> LookupBits(row, col).value[0] == '1')
    {
      var bits :- LookupBits(row, col);
      var v := DecodeSignedFixed(bits, fracBits);
      if v.Success? then
        SignBit(bits, fracBits);
        v
      else v
    }

    /** `from_function`: encode the entry of every cell of the grid, raising on the first one
        whose scaled value does not fit (or on a negative width). */
    static method FromFunction(nRows: int, nCols: int, valueBits: int, fracBits: int,
                               entryFn: (int, int) -> real)
      returns (r: Result<EntryBinaryOracle, Error>)
      ensures r.Success? <==> EntriesFit(nRows, nCols, valueBits, fracBits, entryFn)
      ensures r.Failure? ==> r.error == EntryError(valueBits, fracBits)
      ensures r.Success? ==>
        && r.value.nRows == nRows && r.value.nCols == nCols
        && r.value.valueBits == valueBits && r.value.fracBits == fracBits
        && r.value.Valid()
        && |r.value.table| == Count(nRows) * Count(nCols)
      ensures r.Success? ==> forall row, col ::
        r.value.LookupBits(row, col) ==
          (if 0 <= row < nRows && 0 <= col < nCols
           then EncodeSignedFixed(entryFn(row, col), valueBits, fracBits)
           else Failure(MissingKey))
      ensures r.Success? ==> forall row, col :: 0 <= row < nRows && 0 <= col < nCols ==>
        fracBits >= 0 &&
        r.value.LookupValue(row, col) == Success(Quantized(entryFn(row, col), fracBits))
    {
      var t := Tabulate(nRows, nCols, EntryCells(entryFn, valueBits, fracBits));
      EntryTabulation(t, nRows, nCols, entryFn, valueBits, fracBits);
      if t.Failure? {
        return Failure(t.error);
      }
      GridSize(nRows, nCols);
      var o := EntryBinaryOracle(nRows, nCols, valueBits, fracBits, t.value);
      EntryLookups(o, entryFn);
      return Success(o);
    }

    /** `from_dense(matrix, ...)`: the matrix must have a first row that is not empty and every
        row as long as it; then its entries are encoded as `from_function` does. */
    static method FromDense(matrix: seq<seq<real>>, valueBits: int, fracBits: int)
      returns (r: Result<EntryBinaryOracle, Error>)
      ensures !Rectangular(matrix) ==> r == Failure(ShapeError)
      ensures Rectangular(matrix) ==>
        (r.Success? <==>
           EntriesFit(|matrix|, |matrix[0]|, valueBits, fracBits, DenseEntry(matrix)))
      ensures Rectangular(matrix) && r.Failure? ==> r.error == EntryError(valueBits, fracBits)
      ensures r.Success? ==>
        && Rectangular(matrix)
        && r.value.nRows == |matrix| && r.value.nCols == |matrix[0]|
        && r.value.valueBits == valueBits && r.value.fracBits == fracBits
        && r.value.Valid()
      ensures r.Success? ==> forall i, j :: 0 <= i < |matrix| && 0 <= j < |matrix[i]| ==>
        && fracBits >= 0
        && r.value.LookupBits(i, j) == EncodeSignedFixed(matrix[i][j], valueBits, fracBits)
        && r.value.LookupValue(i, j) == Success(Quantized(matrix[i][j], fracBits))
    {
      if |matrix| == 0 || |matrix[0]| == 0 {
        return Failure(ShapeError);
      }
      var nCols := |matrix[0]|;
      var i := 0;
      while i < |matrix|
        invariant 0 <= i <= |matrix|
        invariant forall i' :: 0 <= i' < i ==> |matrix[i']| == nCols
      {
        if |matrix[i]| != nCols {
          return Failure(ShapeError);
        }
        i := i + 1;
      }
      r := FromFunction(|matrix|, nCols, valueBits, fracBits, DenseEntry(matrix));
      if r.Success? {
        DenseLookups(matrix, r.value, valueBits, fracBits);
      }
    }

    /** `compile_truth_table`: row and col at their widths as the key, the stored string as
        the value. */
    method CompileTruthTable() returns (r: Result<map<string, string>, Error>)
      ensures var rowBits, colBits := BitsForRange(nRows), BitsForRange(nCols);
        && (r.Success? <==> KeysFit(table, rowBits, colBits))
        && (Valid() ==> r.Success?)
        && (r.Failure? ==> r.error == OverflowError)
        && (r.Success? ==> EncodesEntryTable(table, r.value, rowBits, colBits))
        && (r.Success? ==> forall s :: s in r.value ==> |s| == rowBits + colBits)
        && (r.Success? && Valid() ==> forall s :: s in r.value ==> |r.value[s]| == valueBits)
    {
      CellKeys(BitsForRange(nRows), BitsForRange(nCols));
      VerbatimOnlyOverflow();
      r := CompileGrid(table, CellEncoder(BitsForRange(nRows), BitsForRange(nCols)), Verbatim());
      EntryCompiled(this, r);
    }
  }

  /** On a valid oracle `lookup_value` succeeds on exactly the grid, with the
      two's-complement reading of the stored string over 2^frac_bits. */
  lemma ValidLookupValue(o: EntryBinaryOracle, row: int, col: int)
    requires o.Valid()
    ensures o.LookupValue(row, col).Success? <==> 0 <= row < o.nRows && 0 <= col < o.nCols
    ensures o.LookupValue(row, col).Success? ==>
      var bits := o.table[(row, col)];
      && DecodeSignedRaw(bits).Success? && o.fracBits >= 0
      && o.LookupValue(row, col).value ==
           DecodeSignedRaw(bits).value as real / Pow2(o.fracBits) as real
  {
    if (row, col) in o.table {
      var bits := o.table[(row, col)];
      assert bits != [] && IsBinaryString(bits);
      assert o.fracBits >= 0;
      assert o.LookupValue(row, col) == DecodeSignedFixed(bits, o.fracBits);
    }
  }

  /** The sign of a fixed-point reading is its leading digit. */
  lemma SignBit(bits: string, fracBits: int)
    requires DecodeSignedFixed(bits, fracBits).Success?
    ensures fracBits >= 0
    ensures DecodeSignedFixed(bits, fracBits).value < 0.0 <==> bits[0] == '1'
  {
    var raw := DecodeSignedRaw(bits).value;
    var p := Pow2(fracBits) as real;
    assert DecodeSignedFixed(bits, fracBits).value == raw as real / p;
  }

  /** What the tabulation of encoded entries returns: an error exactly when some entry does
      not fit, and otherwise, on exactly the grid, the entry's encoding. */
  lemma EntryTabulation(t: Result<map<Cell, string>, Error>, n: int, m: int,
                        entryFn: (int, int) -> real, valueBits: int, fracBits: int)
    requires var cell := EntryCells(entryFn, valueBits, fracBits);
      && (t.Success? <==> AllCells(n, m, cell))
      && (t.Success? ==> t.value.Keys == Grid(n, m))
      && (t.Success? ==> forall k :: k in t.value ==> cell(k.0, k.1) == Success(t.value[k]))
      && (t.Failure? ==>
            exists a, b :: 0 <= a < n && 0 <= b < m && cell(a, b) == Failure(t.error))
    ensures t.Success? <==> EntriesFit(n, m, valueBits, fracBits, entryFn)
    ensures t.Failure? ==> t.error == EntryError(valueBits, fracBits)
    ensures t.Success? ==> t.value.Keys == Grid(n, m)
    ensures t.Success? ==> forall k :: k in t.value ==>
      EncodeSignedFixed(entryFn(k.0, k.1), valueBits, fracBits) == Success(t.value[k])
  {
    var cell := EntryCells(entryFn, valueBits, fracBits);
    forall a, b | 0 <= a < n && 0 <= b < m
      ensures cell(a, b).Success? <==>
        fracBits >= 0 && valueBits >= 1 &&
        SignedFits(ScaledValue(entryFn(a, b), fracBits), valueBits)
    {
      assert cell(a, b) == EncodeSignedFixed(entryFn(a, b), valueBits, fracBits);
    }
    assert AllCells(n, m, cell) <==> EntriesFit(n, m, valueBits, fracBits, entryFn);
    if t.Failure? {
      var a, b :| 0 <= a < n && 0 <= b < m && cell(a, b) == Failure(t.error);
      assert cell(a, b) == EncodeSignedFixed(entryFn(a, b), valueBits, fracBits);
    } else {
      forall k | k in t.value
        ensures EncodeSignedFixed(entryFn(k.0, k.1), valueBits, fracBits) == Success(t.value[k])
      {
        assert cell(k.0, k.1) == Success(t.value[k]);
      }
    }
  }

  /** An oracle whose table holds the encoding of every grid cell is valid, and its lookups
      are the encodings and their quantized values. */
  lemma EntryLookups(o: EntryBinaryOracle, entryFn: (int, int) -> real)
    requires o.table.Keys == Grid(o.nRows, o.nCols)
    requires forall k :: k in o.table ==>
      EncodeSignedFixed(entryFn(k.0, k.1), o.valueBits, o.fracBits) == Success(o.table[k])
    ensures o.Valid()
    ensures forall row, col ::
      o.LookupBits(row, col) ==
        (if 0 <= row < o.nRows && 0 <= col < o.nCols
         then EncodeSignedFixed(entryFn(row, col), o.valueBits, o.fracBits)
         else Failure(MissingKey))
    ensures forall row, col :: 0 <= row < o.nRows && 0 <= col < o.nCols ==>
      o.fracBits >= 0 &&
      o.LookupValue(row, col) == Success(Quantized(entryFn(row, col), o.fracBits))
  {
    GridMembers(o.nRows, o.nCols);
    forall row, col | 0 <= row < o.nRows && 0 <= col < o.nCols
      ensures o.fracBits >= 0
      ensures o.LookupValue(row, col) == Success(Quantized(entryFn(row, col), o.fracBits))
    {
      assert (row, col) in o.table;
      FixedRoundTrip(entryFn(row, col), o.valueBits, o.fracBits);
    }
  }

  /** The matrix is not empty, its first row is not empty, and every row is as long. */
  predicate Rectangular(matrix: seq<seq<real>>) {
    && |matrix| > 0 && |matrix[0]| > 0
    && forall i :: 0 <= i < |matrix| ==> |matrix[i]| == |matrix[0]|
  }

  /** `lambda i, j: matrix[i][j]`, read only on the grid. */
  function DenseEntry(matrix: seq<seq<real>>): (int, int) -> real {
    (i, j) => if 0 <= i < |matrix| && 0 <= j < |matrix[i]| then matrix[i][j] else 0.0
  }

  /** The oracle built from a rectangular matrix reads back its entries. */
  lemma DenseLookups(matrix: seq<seq<real>>, o: EntryBinaryOracle, valueBits: int, fracBits: int)
    requires Rectangular(matrix)
    requires o.nRows == |matrix| && o.nCols == |matrix[0]| && o.fracBits == fracBits
    requires o.valueBits == valueBits
    requires forall row, col ::
      o.LookupBits(row, col) ==
        (if 0 <= row < o.nRows && 0 <= col < o.nCols
         then EncodeSignedFixed(DenseEntry(matrix)(row, col), valueBits, fracBits)
         else Failure(MissingKey))
    requires forall row, col :: 0 <= row < o.nRows && 0 <= col < o.nCols ==>
      fracBits >= 0 &&
      o.LookupValue(row, col) == Success(Quantized(DenseEntry(matrix)(row, col), fracBits))
    ensures forall i, j :: 0 <= i < |matrix| && 0 <= j < |matrix[i]| ==>
      && fracBits >= 0
      && o.LookupBits(i, j) == EncodeSignedFixed(matrix[i][j], valueBits, fracBits)
      && o.LookupValue(i, j) == Success(Quantized(matrix[i][j], fracBits))
  {
    assert fracBits >= 0 && o.LookupValue(0, 0).Success?;
    forall i, j | 0 <= i < |matrix| && 0 <= j < |matrix[i]|
      ensures && fracBits >= 0
              && o.LookupBits(i, j) == EncodeSignedFixed(matrix[i][j], valueBits, fracBits)
              && o.LookupValue(i, j) == Success(Quantized(matrix[i][j], fracBits))
    {
      assert |matrix[i]| == |matrix[0]|;
      assert 0 <= i < o.nRows && 0 <= j < o.nCols;
      assert DenseEntry(matrix)(i, j) == matrix[i][j];
      assert o.LookupBits(i, j) == EncodeSignedFixed(DenseEntry(matrix)(i, j), valueBits, fracBits);
      assert fracBits >= 0 &&
        o.LookupValue(i, j) == Success(Quantized(DenseEntry(matrix)(i, j), fracBits));
    }
  }

  // ---------------------------------------------------------------- the entry truth table

  /** The stored strings go into the truth table as they are. */
  function Verbatim(): string -> Result<string, Error> {
    s => Success(s)
  }

  lemma VerbatimOnlyOverflow()
    ensures OnlyOverflow(Verbatim())
  {
  }

  /** Every cell of the table fits the two key widths. */
  predicate KeysFit<V>(table: map<Cell, V>, rowBits: nat, colBits: nat) {
    forall k :: k in table ==> 0 <= k.0 < Pow2(rowBits) && 0 <= k.1 < Pow2(colBits)
  }

  /** t re-keys the entry table by key strings: one key string per cell, mapped to the cell's
      stored string, and nothing else. */
  predicate EncodesEntryTable(table: map<Cell, string>, t: map<string, string>,
                              rowBits: nat, colBits: nat)
    requires KeysFit(table, rowBits, colBits)
  {
    && |t| == |table|
    && (forall k :: k in table ==>
          EncodeCell(k, rowBits, colBits).value in t &&
          t[EncodeCell(k, rowBits, colBits).value] == table[k])
    && (forall s :: s in t ==>
          exists k :: k in table && EncodeCell(k, rowBits, colBits) == Success(s) &&
                      table[k] == t[s])
  }

  /** What the generic loop's contract says about the entry-table encoders. */
  lemma EntryTableFacts(table: map<Cell, string>, rowBits: nat, colBits: nat,
                        r: Result<map<string, string>, Error>)
    requires rowBits >= 1 && colBits >= 1
    requires var encodeKey, encodeValue := CellEncoder(rowBits, colBits), Verbatim();
      && (r.Success? <==> AllEncode(table, encodeKey, encodeValue))
      && (r.Success? ==> |r.value| == |table|)
      && (r.Success? ==> forall k :: k in table ==>
            encodeKey(k).value in r.value &&
            r.value[encodeKey(k).value] == encodeValue(table[k]).value)
      && (r.Success? ==> forall s :: s in r.value ==>
            exists k :: k in table && encodeKey(k) == Success(s) &&
                        encodeValue(table[k]) == Success(r.value[s]))
    ensures r.Success? <==> KeysFit(table, rowBits, colBits)
    ensures r.Success? ==> EncodesEntryTable(table, r.value, rowBits, colBits)
    ensures r.Success? ==> forall s :: s in r.value ==> |s| == rowBits + colBits
  {
    var encodeKey, encodeValue := CellEncoder(rowBits, colBits), Verbatim();
    assert KeysFit(table, rowBits, colBits) <==> AllEncode(table, encodeKey, encodeValue);
    if r.Success? {
      var t := r.value;
      forall k | k in table
        ensures EncodeCell(k, rowBits, colBits).value in t
        ensures t[EncodeCell(k, rowBits, colBits).value] == table[k]
      {
        assert encodeKey(k) == EncodeCell(k, rowBits, colBits);
        assert encodeValue(table[k]) == Success(table[k]);
      }
      forall s | s in t
        ensures exists k :: k in table && EncodeCell(k, rowBits, colBits) == Success(s) &&
                            table[k] == t[s]
        ensures |s| == rowBits + colBits
      {
        var k :| k in table && encodeKey(k) == Success(s) && encodeValue(table[k]) == Success(t[s]);
        assert EncodeCell(k, rowBits, colBits) == Success(s);
      }
    }
  }

  /** What the generic loop's contract says about an entry oracle's truth table. */
  lemma EntryCompiled(o: EntryBinaryOracle, r: Result<map<string, string>, Error>)
    requires var encodeKey := CellEncoder(BitsForRange(o.nRows), BitsForRange(o.nCols));
      var encodeValue := Verbatim();
      && (r.Success? <==> AllEncode(o.table, encodeKey, encodeValue))
      && (r.Failure? ==> r.error == OverflowError)
      && (r.Success? ==> |r.value| == |o.table|)
      && (r.Success? ==> forall k :: k in o.table ==>
            encodeKey(k).value in r.value &&
            r.value[encodeKey(k).value] == encodeValue(o.table[k]).value)
      && (r.Success? ==> forall s :: s in r.value ==>
            exists k :: k in o.table && encodeKey(k) == Success(s) &&
                        encodeValue(o.table[k]) == Success(r.value[s]))
    ensures var rowBits, colBits := BitsForRange(o.nRows), BitsForRange(o.nCols);
      && (r.Success? <==> KeysFit(o.table, rowBits, colBits))
      && (o.Valid() ==> r.Success?)
      && (r.Failure? ==> r.error == OverflowError)
      && (r.Success? ==> EncodesEntryTable(o.table, r.value, rowBits, colBits))
      && (r.Success? ==> forall s :: s in r.value ==> |s| == rowBits + colBits)
      && (r.Success? && o.Valid() ==> forall s :: s in r.value ==> |r.value[s]| == o.valueBits)
  {
    EntryTableFacts(o.table, BitsForRange(o.nRows), BitsForRange(o.nCols), r);
    if o.Valid() {
      GridKeysFit(o.table, o.nRows, o.nCols);
    }
    if r.Success? && o.Valid() {
      EntryTableWidths(o, r.value);
    }
  }

  /** The cells of a grid fit the widths derived from its sizes. */
  lemma GridKeysFit<V>(table: map<Cell, V>, nRows: int, nCols: int)
    requires table.Keys == Grid(nRows, nCols)
    ensures KeysFit(table, BitsForRange(nRows), BitsForRange(nCols))
  {
    forall k | k in table
      ensures 0 <= k.0 < Pow2(BitsForRange(nRows)) && 0 <= k.1 < Pow2(BitsForRange(nCols))
    {
      InGrid(k, nRows, nCols);
    }
  }

  /** Every value of the truth table of a valid oracle is one of its stored strings, so it
      has value_bits digits. */
  lemma EntryTableWidths(o: EntryBinaryOracle, t: map<string, string>)
    requires o.Valid() && KeysFit(o.table, BitsForRange(o.nRows), BitsForRange(o.nCols))
    requires EncodesEntryTable(o.table, t, BitsForRange(o.nRows), BitsForRange(o.nCols))
    ensures forall s :: s in t ==> |t[s]| == o.valueBits
  {
    forall s | s in t
      ensures |t[s]| == o.valueBits
    {
      var k :| k in o.table && EncodeCell(k, BitsForRange(o.nRows), BitsForRange(o.nCols)) ==
               Success(s) && o.table[k] == t[s];
    }
  }

  // ---------------------------------------------------------------- the amplitude oracle

  /** The phase `encode` attaches: 0 for a non-negative entry, pi for a negative one. */
  datatype Phase = ZeroPhase | PiPhase

  /** The rotation data of one entry; the rotation angle theta is not modelled. */
  datatype AmplitudeEncoding = AmplitudeEncoding(value: real, normalizedAbs: real, phase: Phase)

  function Abs(x: real): real {
    if x < 0.0 then -x else x
  }

  /** The amplitude oracle of full data loading: the entry oracle and the subnormalisation
      alpha. */
  datatype FullDataLoadingAmplitudeOracle =
    FullDataLoadingAmplitudeOracle(entryOracle: EntryBinaryOracle, alpha: real)
  {
    /** `encode(row, col)`: a non-positive alpha raises; otherwise the decoded entry, its
        magnitude relative to alpha clamped to 1, and the phase of its sign. */
    function Encode(row: int, col: int): (r: Result<AmplitudeEncoding, Error>)
      ensures alpha <= 0.0 ==> r == Failure(ConfigurationError)
      ensures alpha > 0.0 ==> (r.Success? <==> entryOracle.LookupValue(row, col).Success?)
      ensures alpha > 0.0 && r.Failure? ==> r.error == entryOracle.LookupValue(row, col).error
      ensures r.Success? ==>
        var a := r.value;
        && a.value == entryOracle.LookupValue(row, col).value
        && 0.0 <= a.normalizedAbs <= 1.0
        && (Abs(a.value) >= alpha ==> a.normalizedAbs == 1.0)
        && (Abs(a.value) <= alpha ==> a.normalizedAbs * alpha == Abs(a.value))
        && (a.phase == ZeroPhase <==> a.value >= 0.0)
    {
      if alpha <= 0.0 then Failure(ConfigurationError)
      else
        var value :- entryOracle.LookupValue(row, col);
        var ratio := Abs(value) / alpha;
        RatioFacts(Abs(value), alpha);
        var normalizedAbs := if ratio < 1.0 then ratio else 1.0;
        Success(AmplitudeEncoding(value, normalizedAbs,
                                  if value >= 0.0 then ZeroPhase else PiPhase))
    }
  }

  /** x / alpha reaches 1 exactly when x reaches alpha, and scales back to x. */
  lemma RatioFacts(x: real, alpha: real)
    requires x >= 0.0 && alpha > 0.0
    ensures x / alpha >= 0.0 && (x / alpha) * alpha == x
    ensures x >= alpha <==> x / alpha >= 1.0
  {
  }

  /** The amplitude the encoding stands for, sign times magnitude. */
  function Amplitude(a: AmplitudeEncoding): real {
    if a.phase == ZeroPhase then a.normalizedAbs else -a.normalizedAbs
  }

  /** Within the subnormalisation the encoding loses nothing: its amplitude is value / alpha.
      Beyond it the amplitude saturates at +-1 with the value's sign. */
  lemma AmplitudeOfEncoding(o: FullDataLoadingAmplitudeOracle, row: int, col: int)
    requires o.Encode(row, col).Success?
    ensures var a := o.Encode(row, col).value;
      && o.alpha > 0.0
      && (Abs(a.value) <= o.alpha ==> Amplitude(a) * o.alpha == a.value)
      && (Abs(a.value) >= o.alpha ==> Amplitude(a) == (if a.value >= 0.0 then 1.0 else -1.0))
  {
  }

  // ---------------------------------------------------------------- the bundle

  /** The three oracles of a sparse block encoding. */
  datatype SparseOracleBundle = SparseOracleBundle(rowOracle: RowAccessOracle,
                                                   colOracle: ColAccessOracle,
                                                   amplitudeOracle: FullDataLoadingAmplitudeOracle)
  {
    /** What `from_functions` establishes: each oracle as its constructor builds it, all over
        the same n_rows by n_cols matrix. */
    predicate Valid() {
      && rowOracle.Valid() && colOracle.Valid() && amplitudeOracle.entryOracle.Valid()
      && colOracle.nRows == rowOracle.nRows && colOracle.nCols == rowOracle.nCols
      && amplitudeOracle.entryOracle.nRows == rowOracle.nRows
      && amplitudeOracle.entryOracle.nCols == rowOracle.nCols
    }

    /** `from_functions`: the row oracle, then the column oracle, then the entry oracle; the
        first that raises decides the error. alpha is not checked here. */
    static method FromFunctions(nRows: int, nCols: int, maxRowNnz: int, maxColNnz: int,
                                rowToColFn: (int, int) -> int, colToRowFn: (int, int) -> int,
                                entryFn: (int, int) -> real, valueBits: int, fracBits: int,
                                alpha: real)
      returns (r: Result<SparseOracleBundle, Error>)
      ensures r.Success? <==>
        && IndicesInRange(nRows, maxRowNnz, rowToColFn, nCols)
        && IndicesInRange(nCols, maxColNnz, colToRowFn, nRows)
        && EntriesFit(nRows, nCols, valueBits, fracBits, entryFn)
      ensures r.Failure? ==>
        r.error == (if !IndicesInRange(nRows, maxRowNnz, rowToColFn, nCols) ||
                       !IndicesInRange(nCols, maxColNnz, colToRowFn, nRows)
                    then RangeError else EntryError(valueBits, fracBits))
      ensures r.Success? ==> var b := r.value;
        && b.Valid()
        && b.rowOracle.nRows == nRows && b.rowOracle.nCols == nCols
        && b.rowOracle.maxRowNnz == maxRowNnz && b.colOracle.maxColNnz == maxColNnz
        && b.amplitudeOracle.alpha == alpha
        && b.amplitudeOracle.entryOracle.valueBits == valueBits
        && b.amplitudeOracle.entryOracle.fracBits == fracBits
      ensures r.Success? ==> forall row, l :: 0 <= row < nRows && 0 <= l < maxRowNnz ==>
        r.value.rowOracle.Lookup(row, l) == Success(rowToColFn(row, l))
      ensures r.Success? ==> forall col, l :: 0 <= col < nCols && 0 <= l < maxColNnz ==>
        r.value.colOracle.Lookup(col, l) == Success(colToRowFn(col, l))
      ensures r.Success? ==> forall row, col :: 0 <= row < nRows && 0 <= col < nCols ==>
        fracBits >= 0 &&
        r.value.amplitudeOracle.entryOracle.LookupValue(row, col) ==
          Success(Quantized(entryFn(row, col), fracBits))
    {
      var rowOracle :- RowAccessOracle.FromFunction(nRows, nCols, maxRowNnz, rowToColFn);
      var colOracle :- ColAccessOracle.FromFunction(nRows, nCols, maxColNnz, colToRowFn);
      var entryOracle :- EntryBinaryOracle.FromFunction(nRows, nCols, valueBits, fracBits,
                                                        entryFn);
      return Success(SparseOracleBundle(rowOracle, colOracle,
                                        FullDataLoadingAmplitudeOracle(entryOracle, alpha)));
    }
  }

  // ---------------------------------------------------------------- the block encoding

  /** The metadata a block encoding reports; the cost hint is not modelled. */
  datatype BlockEncodingMetadata = BlockEncodingMetadata(name: string, alpha: real,
                                                         ancillaQubits: int)

  /** One query: the algorithm step and its named numeric parameters. */
  datatype BlockEncodingQuery = BlockEncodingQuery(step: int, parameters: map<string, real>)

  /** The operation record `query` returns; theta is not modelled. */
  datatype QueryRecord = QueryRecord(op: string, step: int, row: int, lPos: int, col: int,
                                     phase: Phase, value: real, normalizedAbs: real)

  const QueryOp := "sparse_block_encoding_query"
  const AdjointQueryOp := "sparse_block_encoding_query_dagger"

  /** Python's `int` on a real: the integer part, truncated toward zero. */
  function Truncate(x: real): (n: int)
    ensures x >= 0.0 ==> n as real <= x < n as real + 1.0
    ensures x < 0.0 ==> n as real - 1.0 < x <= n as real
  {
    if x >= 0.0 then x.Floor else -((-x).Floor)
  }

  /** The record `query` builds for (row, l_pos) once both oracle reads succeed. */
  predicate AnswersQuery(bundle: SparseOracleBundle, rec: QueryRecord, row: int, lPos: int) {
    && bundle.rowOracle.Lookup(row, lPos) == Success(rec.col)
    && bundle.amplitudeOracle.Encode(row, rec.col) ==
         Success(AmplitudeEncoding(rec.value, rec.normalizedAbs, rec.phase))
  }

  /** A sparse block encoding over its oracle bundle, named "sparse_full_load" unless told
      otherwise; its metadata is fixed at construction. */
  datatype SparseMatrixBlockEncoding =
    SparseMatrixBlockEncoding(bundle: SparseOracleBundle, name: string := "sparse_full_load")
  {
    /** `metadata()`: the name, the amplitude oracle's alpha and one ancilla qubit. */
    function Metadata(): (m: BlockEncodingMetadata)
      ensures m.name == name && m.alpha == bundle.amplitudeOracle.alpha
      ensures m.ancillaQubits == 1
    {
      BlockEncodingMetadata(name, bundle.amplitudeOracle.alpha, 1)
    }

    /** `query(request)`: read "row" and "l_pos" (a missing one raises), truncate them, find the
        column of the l_pos-th nonzero of the row, and encode that entry. */
    function Query(request: BlockEncodingQuery): (r: Result<QueryRecord, Error>)
      ensures !("row" in request.parameters && "l_pos" in request.parameters) ==>
        r == Failure(MissingKey)
      ensures r.Success? ==>
        var p := request.parameters;
        && r.value.op == QueryOp && r.value.step == request.step
        && r.value.row == Truncate(p["row"]) && r.value.lPos == Truncate(p["l_pos"])
        && AnswersQuery(bundle, r.value, r.value.row, r.value.lPos)
      ensures "row" in request.parameters && "l_pos" in request.parameters ==>
        var row, lPos := Truncate(request.parameters["row"]), Truncate(request.parameters["l_pos"]);
        var col := bundle.rowOracle.Lookup(row, lPos);
        (r.Success? <==> col.Success? && bundle.amplitudeOracle.Encode(row, col.value).Success?)
    {
      if "row" !in request.parameters then Failure(MissingKey)
      else
        var row := Truncate(request.parameters["row"]);
        if "l_pos" !in request.parameters then Failure(MissingKey)
        else
          var lPos := Truncate(request.parameters["l_pos"]);
          var col :- bundle.rowOracle.Lookup(row, lPos);
          var amp :- bundle.amplitudeOracle.Encode(row, col);
          Success(QueryRecord(QueryOp, request.step, row, lPos, col, amp.phase, amp.value,
                              amp.normalizedAbs))
    }

    /** `adjoint_query(request)`: the query's record with its operation renamed. */
    function AdjointQuery(request: BlockEncodingQuery): (r: Result<QueryRecord, Error>)
      ensures r.Success? <==> Query(request).Success?
      ensures r.Failure? ==> r == Query(request)
      ensures r.Success? ==>
        && r.value.op == AdjointQueryOp
        && r.value.(op := QueryOp) == Query(request).value
    {
      var payload :- Query(request);
      Success(payload.(op := AdjointQueryOp))
    }
  }

  /** On a valid bundle with a positive alpha, a query whose truncated row and l_pos lie in the
      row oracle's grid succeeds: its column is the stored one and its value the stored
      entry of (row, col). */
  lemma QueryOfValidBundle(e: SparseMatrixBlockEncoding, request: BlockEncodingQuery)
    requires e.bundle.Valid() && e.bundle.amplitudeOracle.alpha > 0.0
    requires "row" in request.parameters && "l_pos" in request.parameters
    requires var row, lPos := Truncate(request.parameters["row"]),
                              Truncate(request.parameters["l_pos"]);
      0 <= row < e.bundle.rowOracle.nRows && 0 <= lPos < e.bundle.rowOracle.maxRowNnz
    ensures e.Query(request).Success?
    ensures var q := e.Query(request).value;
      && q.col == e.bundle.rowOracle.table[(q.row, q.lPos)]
      && 0 <= q.col < e.bundle.rowOracle.nCols
      && Success(q.value) == e.bundle.amplitudeOracle.entryOracle.LookupValue(q.row, q.col)
  {
    var b := e.bundle;
    var row, lPos := Truncate(request.parameters["row"]), Truncate(request.parameters["l_pos"]);
    InGrid((row, lPos), b.rowOracle.nRows, b.rowOracle.maxRowNnz);
    var col := b.rowOracle.table[(row, lPos)];
    assert b.amplitudeOracle.entryOracle.LookupValue(row, col).Success?;
  }
}
