# Classical-oracle compiler and sparse block-encoding oracles, in Dafny

This project models the classical core of `qc_exciton_LCC`, a toolkit for exciton Hamiltonians
on quantum computers. The project covers four parts of it.

- **Function-form IR** (`FunctionIr`). A Boolean function on packed integers can be given in three
  ways: a full lookup table, an affine map `y = A x XOR b` over GF(2), or a callable that is
  enumerated into a table. Enumeration is limited by a `SynthConfig` width ceiling and an on/off
  switch.
- **Reversible synthesis and cost estimation** (`ReversibleSynth`, `CircuitSemantics`).
  - An affine form compiles to an X/CNOT network. A table compiles to a sum-of-minterms circuit:
    X gates on the zero wires, one X, CX or MCX on the output wire, then the X gates undone in
    reverse order.
  - `estimate_cost` folds the op list into a `GateCost`. Each MCX costs `max(0, 2k - 3)` Toffolis
    and 7 T gates per Toffoli, and the ancilla counter takes the maximum.
  - `CircuitSemantics` is a classical wire simulator for the op list. It proves that both compiled
    circuits send `|x>|0>` to `|x>|f(x)>`, and that running the ops backwards undoes them.
- **Sparse-matrix oracles** (`SparseCodec`, `SparseAccess`, `SparseEntry`).
  - Codecs: the bit-width helper, the unsigned codec and the two's-complement fixed-point codec.
  - Row and column access oracles. Each is tabulated over its grid, re-keyed as a bit-string truth
    table, and packed into a callable `(i << l_bits) | l` that is handed to the compiler.
  - The fixed-point entry oracle, built from a function or from a dense matrix.
  - The full-data-loading amplitude oracle, the oracle bundle, and the block encoding's
    `query` / `adjoint_query` records.
- **Exciton model container** (`Exciton`). An orbital partition with an overlap check, and a model
  class whose `terms` list only grows, by range-checked appends.

`Scenarios` restates the repository's unit tests over the model. Each scenario builds the same
inputs and proves the values the test expects.

Python exceptions become `Result` / `Outcome` values whose error names the exception's cause
(`Wrappers.Error`). The loops and the in-place appends of the source are `method`s with loop
invariants, each proved against a specification function. `ReversibleCircuit` and `ExcitonModel`
are classes whose list fields the methods reassign. The frozen dataclasses are datatypes.

## Model

| member | source | states |
|---|---|---|
| FunctionIr.LookupTableForm.Validate | src/oracles/function_ir.py:24-38 | passes exactly when the table has 2^n_in entries, every key lies in [0, 2^n_in) and every value in [0, 2^n_out); otherwise fails with the malformed-table error |
| FunctionIr.LookupTableForm.ValidKeys | src/oracles/function_ir.py:24-38 | a table that validates has exactly the keys 0 .. 2^n_in - 1 |
| FunctionIr.AffineXorForm.Validate | src/oracles/function_ir.py:51-62 | passes exactly when the row count and the offset length are n_out, every row has length n_in, and every matrix and offset entry is 0 or 1 |
| FunctionIr.AffineXorForm.Evaluate | src/oracles/function_ir.py:64-76 | the loop over rows and columns returns `Apply(x)`: a range error outside [0, 2^n_in), an index error when the offset is shorter than the matrix, otherwise the packed image |
| FunctionIr.AffineXorForm.ImageBits | src/oracles/function_ir.py:68-76 | for a well-formed form, output bit b of the image is offset[b] XOR the parity of the input bits that row b selects, and the image lies in [0, 2^n_out) |
| FunctionIr.AffineXorForm.OutBitsAt | src/oracles/function_ir.py:69-75 | the per-row bit list holds, at each row, that row's output bit |
| FunctionIr.AffineXorForm.ToLookupTableCorrect | src/oracles/function_ir.py:78-85 | lowering a well-formed form keeps both widths, has exactly the domain as keys, stores `evaluate(x)` at every x, and validates |
| FunctionIr.CompilableFunctionForm.ToLookupTable | src/oracles/function_ir.py:97-119 | fails with a configuration error when enumeration is off or n_in exceeds the ceiling; otherwise it fails with a range error exactly when some fn(x) is out of range; on success it is the enumerated table |
| FunctionIr.CompilableFunctionForm.EnumeratedCorrect | src/oracles/function_ir.py:105-119 | when every output is in range, the enumerated table keeps the widths, has the domain as keys, stores fn(x) at x, and validates |
| FunctionIr.XorBitStep | src/oracles/function_ir.py:73 | XOR-ing the bits one at a time into `bit_val` equals XOR-ing in their parity |
| FunctionIr.XorBitNonzero | src/oracles/function_ir.py:74 | the accumulated `bit_val` is truthy exactly when it differs from the parity |
| ReversibleSynth.PlusMonoid | src/oracles/reversible_synth.py:25-33 | cost addition is associative and commutative, with `GateCost()` as identity on costs with a non-negative ancilla peak |
| ReversibleSynth.McxToffoli | src/oracles/reversible_synth.py:77-82 | the Toffoli count of a k-control MCX is max(0, 2k - 3) |
| ReversibleSynth.McxToffoliMonotone | src/oracles/reversible_synth.py:77-82 | more controls never cost fewer Toffolis |
| ReversibleSynth.ReversibleCircuit.constructor | src/oracles/reversible_synth.py:36-43 | a new circuit has the given widths, no ops and empty metadata |
| ReversibleSynth.ReversibleCircuit.Append | src/oracles/reversible_synth.py:45-46 | the op goes at the end of the list and nothing else changes |
| ReversibleSynth.ReversibleCircuit.EstimateCost | src/oracles/reversible_synth.py:56-74 | the loop returns the left fold `CircuitCost` of the op list, failing at the first unsupported gate |
| ReversibleSynth.CostCounts | src/oracles/reversible_synth.py:56-74 | the estimate fails exactly when some gate is unsupported, always with that error; otherwise x_count counts the X ops, cnot_count the CX ops, toffoli_count sums the MCX Toffolis, t_count is 7 times toffoli_count, and the ancilla peak is `AncillaPeak` |
| ReversibleSynth.AncillaPeakIsMax | src/oracles/reversible_synth.py:70 | the ancilla peak is at least k - 2 for every MCX with k controls, and it equals 0 or one of those values |
| ReversibleSynth.CostStep | src/oracles/reversible_synth.py:58-71 | one loop step of the estimator: the cost of the first i + 1 ops adds the cost of op i |
| ReversibleSynth.CostFailsAt | src/oracles/reversible_synth.py:72-73 | an unsupported op makes the cost of every longer prefix fail |
| ReversibleSynth.ControlLists | src/oracles/reversible_synth.py:103-111 | the inner loop builds the zero wires of x, every input wire as a control, and control value 1 for each |
| ReversibleSynth.MintermBlockLayout | src/oracles/reversible_synth.py:113-136 | a minterm block has 2 × \|zero wires\| + 1 ops: X on the zero wires, the control gate in the middle, then X on the same wires in reverse |
| ReversibleSynth.ZeroWiresMembers | src/oracles/reversible_synth.py:106-111 | the zero wires are exactly the input wires where x has a 0 bit, in strictly ascending order |
| ReversibleSynth.MintermsMembers | src/oracles/reversible_synth.py:101 | the minterms of an output bit are exactly the keys whose value has that bit set, in ascending order |
| ReversibleSynth.MintermBlockShape | src/oracles/reversible_synth.py:113-136 | every op of a minterm block is an X on an input wire, or an X/CX/MCX on the output wire controlled by all inputs with value 1 |
| ReversibleSynth.LutOpsShape | src/oracles/reversible_synth.py:99-136 | every op of a compiled table has that shape; a bare X on the output wire occurs only when n_in is 0 |
| ReversibleSynth.LutOpsNonEmpty | src/oracles/reversible_synth.py:99-136 | a table with an input whose value sets some output bit compiles to at least one op |
| ReversibleSynth.AffineOpsShape | src/oracles/reversible_synth.py:150-163 | a compiled affine form holds only X ops on output wires and CX ops from an input wire (value 1) to an output wire |
| ReversibleSynth.AppendXLayer | src/oracles/reversible_synth.py:113-114 | appends one X per wire, in order |
| ReversibleSynth.EmitMinterm | src/oracles/reversible_synth.py:102-136 | appends exactly the block of one minterm |
| ReversibleSynth.EmitMinterms | src/oracles/reversible_synth.py:101-136 | appends the blocks of the minterms in order |
| ReversibleSynth.EmitBitOps | src/oracles/reversible_synth.py:99-136 | appends the ops of one output bit |
| ReversibleSynth.CompileLookupTable | src/oracles/reversible_synth.py:85-140 | fails with the malformed-table error exactly when the table does not validate; otherwise a fresh circuit with the table's widths, the sum-of-minterms op list, and metadata source = name, method = sum_of_minterms |
| ReversibleSynth.CompileAffineXor | src/oracles/reversible_synth.py:143-166 | fails with the malformed-form error exactly when the form is not well formed; otherwise a fresh circuit with the form's widths, the X/CX op list, and metadata method = affine_xor |
| ReversibleSynth.CompileFunctionForm | src/oracles/reversible_synth.py:169-181 | dispatch: affine forms to the affine path, tables to the minterm path; callables are enumerated under the given or default config (their errors propagate) and then take the minterm path; every compiled circuit has the form's input and output widths, its path's ops and metadata |
| ReversibleSynth.AffineCost | src/oracles/reversible_synth.py:143-166 | the cost of a compiled affine form succeeds with one X per 1 in the offset, one CNOT per 1 in the matrix, and no Toffoli or T gates |
| ReversibleSynth.AffinePrefixCounts | src/oracles/reversible_synth.py:150-163 | the first b rows emit Ones(offset[..b]) X ops and one CX per 1 in those rows |
| ReversibleSynth.CountGateAppend | src/oracles/reversible_synth.py:58-62 | gate counts add over concatenation |
| ReversibleSynth.ToffoliTotalAppend | src/oracles/reversible_synth.py:63-71 | Toffoli totals add over concatenation |
| CircuitSemantics.ApplyOpInvolution | src/oracles/reversible_synth.py:9-13 | an op whose target is not among its controls undoes itself |
| CircuitSemantics.RunConcat | src/oracles/reversible_synth.py:42-46 | running a concatenation runs one part after the other |
| CircuitSemantics.RunBackwards | src/oracles/reversible_synth.py:38 | running an op list and then its reverse restores the register, when no op controls on its own target |
| CircuitSemantics.MintermBlockRun | src/oracles/reversible_synth.py:102-136 | a minterm block flips its output wire exactly when the input register holds that minterm, and leaves every other wire alone |
| CircuitSemantics.LookupTableCircuitCorrect | src/oracles/reversible_synth.py:85-140 | the circuit of a valid table sends \|y>\|0> to \|y>\|table[y]>; the input register still reads y and the output reads table[y] |
| CircuitSemantics.AffineCircuitCorrect | src/oracles/reversible_synth.py:143-166 | the circuit of a well-formed affine form sends \|y>\|0> to \|y>\|evaluate(y)> |
| CircuitSemantics.ReadBack | src/oracles/reversible_synth.py:48-54 | the first n_in wires read back the input and the next n_out wires the output |
| CircuitSemantics.LutOpsReversible | src/oracles/reversible_synth.py:85-140 | every compiled table circuit is undone by running its ops backwards |
| CircuitSemantics.AffineOpsReversible | src/oracles/reversible_synth.py:143-166 | every compiled affine circuit is undone by running its ops backwards |
| SparseCodec.BitsForRange | src/block_encoding/sparse_matrix.py:13-16 | the width is at least 1, size ≤ 2^width, and the width is the least such value (2^(width-1) < size unless the width is 1) |
| SparseCodec.CeilLog2Least | src/block_encoding/sparse_matrix.py:16 | ceil(log2 n) is the least exponent whose power reaches n |
| SparseCodec.IndexFits | src/block_encoding/sparse_matrix.py:13-16 | every index in [0, size) fits the width |
| SparseCodec.BitsForRangeLeast | src/block_encoding/sparse_matrix.py:13-16 | no smaller width of at least 1 holds size values |
| SparseCodec.EncodeUint | src/block_encoding/sparse_matrix.py:19-22 | fails with an overflow error exactly when v is outside [0, 2^n); otherwise an MSB-first binary string of length n (one digit when n is 0) whose value is v |
| SparseCodec.DecodeUint | src/block_encoding/sparse_matrix.py:25-26 | succeeds exactly on non-empty binary strings, with a value below 2^len that re-encodes to the same string |
| SparseCodec.UintRoundTrip | src/block_encoding/sparse_matrix.py:19-26 | decode(encode(v, n)) == v for every v that fits |
| SparseCodec.UintDecodeEncode | src/block_encoding/sparse_matrix.py:19-26 | encode(decode(s), \|s\|) == s for every non-empty binary string |
| SparseCodec.UintInjective | src/block_encoding/sparse_matrix.py:19-22 | two values that fit n bits have the same encoding exactly when they are equal |
| SparseCodec.PairInjective | src/block_encoding/sparse_matrix.py:84-88 | concatenated fixed-width keys are equal exactly when both parts are |
| SparseCodec.EncodeSignedScaled | src/block_encoding/sparse_matrix.py:31-40 | for a scaled integer: a zero width fails with the negative-shift error; otherwise it fails with an overflow error exactly when s is outside [-2^(t-1), 2^(t-1) - 1]; on success the string has length t and starts with 1 exactly when s < 0 |
| SparseCodec.DecodeSignedRaw | src/block_encoding/sparse_matrix.py:44-47 | succeeds exactly on non-empty binary strings; the result lies in [-2^(len-1), 2^(len-1)) and is negative exactly when the first digit is 1 |
| SparseCodec.DecodeSignedFixed | src/block_encoding/sparse_matrix.py:43-48 | a malformed string fails first; a valid one fails with the negative-shift error exactly when frac_bits < 0 |
| SparseCodec.SignedRoundTrip | src/block_encoding/sparse_matrix.py:28-48 | a scaled integer that fits decodes back to itself, and as a fixed-point number to s / 2^frac_bits |
| SparseCodec.SignedDecodeEncode | src/block_encoding/sparse_matrix.py:28-48 | re-encoding the raw reading of a binary string at its own length reproduces the string |
| SparseCodec.RoundHalfEven | src/block_encoding/sparse_matrix.py:30 | the rounded integer is within 1/2 of x, and on a tie it is even |
| SparseCodec.RoundHalfEvenUnique | src/block_encoding/sparse_matrix.py:30 | those two facts determine the rounded integer |
| SparseCodec.RoundInteger | src/block_encoding/sparse_matrix.py:30 | rounding an integer returns it |
| SparseCodec.EncodeSignedFixed | src/block_encoding/sparse_matrix.py:28-40 | succeeds exactly when both widths are valid and the rounded scaled value fits; a negative width fails with the negative-shift error, a value that does not fit with the overflow error; on success the string has length total_bits and its sign digit is the sign of the scaled value |
| SparseCodec.QuantizedError | src/block_encoding/sparse_matrix.py:29-30 | the stored value differs from the input by at most half a unit in the last place |
| SparseCodec.FixedRoundTrip | src/block_encoding/sparse_matrix.py:28-48 | an encoding that succeeds decodes to the quantized value |
| SparseCodec.QuantizedExact | src/block_encoding/sparse_matrix.py:28-48 | a value already on the 2^-frac_bits grid is stored exactly |
| SparseAccess.InGrid | src/block_encoding/sparse_matrix.py:69-70 | a cell is in the grid exactly when both coordinates lie in range |
| SparseAccess.GridSize | src/block_encoding/sparse_matrix.py:69-70 | the n by m grid has n × m cells (0 for a negative size) |
| SparseAccess.Tabulate | src/block_encoding/sparse_matrix.py:68-74 | the double loop succeeds exactly when every cell succeeds, stores each cell's value on exactly the grid, and when it fails, fails with the error of some cell |
| SparseAccess.CheckedIndex | src/block_encoding/sparse_matrix.py:72-73 | an index passes exactly when it lies in [0, bound), and otherwise fails with a range error |
| SparseAccess.CheckedTabulation | src/block_encoding/sparse_matrix.py:68-75 | tabulating checked indices fails with a range error exactly when some generated index is out of range; otherwise, on exactly the grid, it stores the generated index |
| SparseAccess.EncodeCell | src/block_encoding/sparse_matrix.py:86 | a cell key encodes exactly when both parts fit their widths, to a string of the summed width |
| SparseAccess.EncodeCellInjective | src/block_encoding/sparse_matrix.py:86 | different cells never share a key string |
| SparseAccess.CellKeys | src/block_encoding/sparse_matrix.py:84-88 | the cell encoder is injective and fails only by overflow |
| SparseAccess.CompileGrid | src/block_encoding/sparse_matrix.py:84-88 | the re-keying loop succeeds exactly when every key and value encodes, has as many entries as the table, maps each cell's key to its value's encoding, and holds nothing else |
| SparseAccess.CompileItemsFacts | src/block_encoding/sparse_matrix.py:85-87 | re-keying the cells in any order without repeats gives those properties for the cells visited |
| SparseAccess.OrderFacts | src/block_encoding/sparse_matrix.py:85-87 | the result does not depend on the order in which the table is visited |
| SparseAccess.CompileIntTable | src/block_encoding/sparse_matrix.py:80-88 | re-keying an index table succeeds exactly when every key and value fits its width; on success it is the bit-string image of the table, with key length hi + lo and value length out |
| SparseAccess.GridTableFits | src/block_encoding/sparse_matrix.py:81-83 | a grid table whose values lie below the bound fits the widths `_bits_for_range` derives |
| SparseAccess.UnpackPack | src/block_encoding/sparse_matrix.py:97-99 | unpacking (a << l_bits) \| b gives back (a, b) |
| SparseAccess.PackedLookup | src/block_encoding/sparse_matrix.py:96-100 | `packed_fn(x)` succeeds exactly when the unpacked cell is stored, and otherwise raises the missing-key error |
| SparseAccess.FirstFaultNone | src/block_encoding/sparse_matrix.py:96-108 | enumerating `packed_fn` meets no failure exactly when it is total and in range |
| SparseAccess.FirstFaultMissing | src/block_encoding/sparse_matrix.py:100 | when all stored values are in range, the only failure enumeration can meet is the missing key |
| SparseAccess.CompilePacked | src/block_encoding/sparse_matrix.py:90-108 | fails exactly when the default configuration or the enumeration of `packed_fn` fails, with that error; otherwise a fresh circuit of widths in_bits = hi_bits + l_bits and out_bits, holding the minterm circuit of the enumerated table |
| SparseAccess.GridFaults | src/block_encoding/sparse_matrix.py:96-100 | for a grid table, enumeration reaches a missing key exactly when a size is not a power of two (1 and 0 included), and that is its only failure |
| SparseAccess.PowersTotal | src/block_encoding/sparse_matrix.py:96-100 | when both sizes are powers of two, every packed index names a stored cell |
| SparseAccess.MissingRow | src/block_encoding/sparse_matrix.py:99-100 | when the high size is not a power of two, the first packed index past the last row is missing |
| SparseAccess.MissingCol | src/block_encoding/sparse_matrix.py:97-100 | when the slot count is not a power of two, the first slot past the last in row 0 is missing |
| SparseAccess.PackedCircuitCorrect | src/block_encoding/sparse_matrix.py:90-108 | when compilation succeeds, the packed index of each cell is in range, `packed_fn` of it is the lookup, and the circuit sends \|(a << l_bits) \| b>\|0> to that index and the cell's value |
| SparseAccess.PackedIndexOf | src/block_encoding/sparse_matrix.py:97-99 | the packed index of a stored cell lies below 2^in_bits and unpacks to the cell |
| SparseAccess.RowAccessOracle.Lookup | src/block_encoding/sparse_matrix.py:77-78 | succeeds exactly on stored keys, otherwise the missing-key error |
| SparseAccess.RowAccessOracle.FromFunction | src/block_encoding/sparse_matrix.py:60-75 | fails with a range error exactly when some generated column is out of range; otherwise a valid oracle with the given sizes, n_rows × max_nnz entries, and lookup(row, l) == fn(row, l) on the grid and a missing key elsewhere |
| SparseAccess.RowAccessOracle.CompileTruthTable | src/block_encoding/sparse_matrix.py:80-88 | succeeds exactly when every key and value fits its width (always on a valid oracle; overflow otherwise), with the bit-string image of the table: as many entries as the table, keys of length row_bits + l_bits, values of length col_bits |
| SparseAccess.RowAccessOracle.CompileReversibleCircuit | src/block_encoding/sparse_matrix.py:90-108 | fails exactly as the packed compilation does (missing key when a size is not a power of two); otherwise the packed circuit of widths row_bits + l_bits and col_bits, with source `row_access_oracle_enumerated` and method `sum_of_minterms` |
| SparseAccess.ColAccessOracle.Lookup | src/block_encoding/sparse_matrix.py:137-138 | succeeds exactly on stored keys, otherwise the missing-key error |
| SparseAccess.ColAccessOracle.FromFunction | src/block_encoding/sparse_matrix.py:120-135 | fails with a range error exactly when some generated row is out of range; otherwise a valid oracle with n_cols × max_nnz entries and lookup(col, l) == fn(col, l) on the grid |
| SparseAccess.ColAccessOracle.CompileTruthTable | src/block_encoding/sparse_matrix.py:140-148 | succeeds exactly when every key and value fits its width (always on a valid oracle; overflow otherwise), with the bit-string image of the table: keys of length col_bits + l_bits, values of length row_bits |
| SparseAccess.ColAccessOracle.CompileReversibleCircuit | src/block_encoding/sparse_matrix.py:150-168 | fails exactly as the packed compilation does; otherwise the packed circuit of widths col_bits + l_bits and row_bits, with source `col_access_oracle_enumerated` and method `sum_of_minterms` |
| SparseEntry.EntryBinaryOracle.LookupBits | src/block_encoding/sparse_matrix.py:220-221 | succeeds exactly on stored keys (on a valid oracle: exactly on the grid), otherwise the missing-key error |
| SparseEntry.EntryBinaryOracle.LookupValue | src/block_encoding/sparse_matrix.py:223-225 | a missing key propagates; on success the stored string is non-empty and the value is negative exactly when its sign digit is 1 |
| SparseEntry.ValidLookupValue | src/block_encoding/sparse_matrix.py:223-225 | on a valid oracle, the value read succeeds exactly on the grid and equals the two's-complement reading of the stored string over 2^frac_bits |
| SparseEntry.SignBit | src/block_encoding/sparse_matrix.py:46-48 | a fixed-point reading is negative exactly when its first digit is 1 |
| SparseEntry.EntryBinaryOracle.FromFunction | src/block_encoding/sparse_matrix.py:181-199 | succeeds exactly when every entry of the grid encodes; the error is the negative-shift error for a bad width, else overflow; on success a valid oracle with n_rows × n_cols entries, each the entry's encoding, read back as the quantized entry |
| SparseEntry.EntryTabulation | src/block_encoding/sparse_matrix.py:190-196 | tabulating the encoded entries fails exactly when some entry does not fit, otherwise stores each entry's encoding on exactly the grid |
| SparseEntry.EntryLookups | src/block_encoding/sparse_matrix.py:220-225 | the tabulated oracle reads back each entry's encoding and quantized value |
| SparseEntry.EntryBinaryOracle.FromDense | src/block_encoding/sparse_matrix.py:201-218 | an empty matrix, an empty first row or a ragged matrix fails with a shape error; otherwise it is `from_function` over the entries: success exactly when they all fit, and each reads back encoded and quantized |
| SparseEntry.DenseLookups | src/block_encoding/sparse_matrix.py:212-218 | the oracle built over `matrix[i][j]` reads back each matrix entry |
| SparseEntry.EntryBinaryOracle.CompileTruthTable | src/block_encoding/sparse_matrix.py:227-234 | succeeds whenever the keys fit their widths (always on a valid oracle, overflow otherwise): each cell's key maps to its stored string verbatim, keys have length row_bits + col_bits and values length value_bits |
| SparseEntry.FullDataLoadingAmplitudeOracle.Encode | src/block_encoding/sparse_matrix.py:256-268 | alpha ≤ 0 fails with a configuration error; otherwise succeeds exactly when the value read does, with that value, normalized_abs = min(\|v\| / alpha, 1) in [0, 1], and phase 0 exactly when v ≥ 0 (π otherwise) |
| SparseEntry.AmplitudeOfEncoding | src/block_encoding/sparse_matrix.py:260-262 | the signed amplitude is v / alpha within the subnormalisation and saturates at ±1 beyond it |
| SparseEntry.SparseOracleBundle.FromFunctions | src/block_encoding/sparse_matrix.py:277-307 | succeeds exactly when both index functions are in range and every entry fits; the error is the range error if an index check fails, else the entry error; on success a bundle of consistent, valid oracles whose lookups are the given functions and whose entries are the quantized values |
| SparseEntry.Truncate | src/block_encoding/sparse_matrix.py:330-331 | Python `int` on a real: the integer part, toward zero |
| SparseEntry.SparseMatrixBlockEncoding.Metadata | src/block_encoding/sparse_matrix.py:317-327 | the name, the amplitude oracle's alpha, and one ancilla qubit |
| SparseEntry.SparseMatrixBlockEncoding.Query | src/block_encoding/sparse_matrix.py:329-344 | a missing "row" or "l_pos" fails with the missing-key error; otherwise it succeeds exactly when the column lookup and the encoding succeed; the record echoes the op name, the step and the truncated row and l_pos, with col the row oracle's lookup and the amplitude fields of that entry |
| SparseEntry.SparseMatrixBlockEncoding.AdjointQuery | src/block_encoding/sparse_matrix.py:346-349 | succeeds exactly when `query` does and is the same record with op renamed to the dagger op |
| SparseEntry.QueryOfValidBundle | src/block_encoding/sparse_matrix.py:329-344 | on a valid bundle with positive alpha, a query inside the row grid succeeds with the stored column (in range) and the stored entry's value |
| Exciton.OrbitalPartition.Validate | src/exciton/model.py:14-17 | fails with the partition error exactly when occupied and virtual share an index; passing makes the distinct indices of occupied + virtual a disjoint union |
| Exciton.SharedIndex | src/exciton/model.py:15-16 | the index sets meet exactly when some index is in both tuples |
| Exciton.ExcitonModel.constructor | src/exciton/model.py:29-35 | a model with the given size, partition and terms |
| Exciton.ExcitonModel.AddTerm | src/exciton/model.py:38-41 | passes exactly when every mode is in [0, n_orbitals) and then appends the term at the end; otherwise fails with a range error and leaves the terms unchanged |
| Exciton.ExcitonModel.ExtendTerms | src/exciton/model.py:43-45 | passes exactly when every term is in range; the terms before the first bad one stay appended, in order |
| Exciton.AcceptedCountFacts | src/exciton/model.py:43-45 | the accepted prefix has all modes in range and the term after it does not |
| Exciton.AcceptedCountUnique | src/exciton/model.py:43-45 | those two facts determine the length of the accepted prefix |
| Exciton.ExcitonModel.Validate | src/exciton/model.py:47-50 | passes exactly when the partition does not overlap and its distinct indices number n_orbitals; otherwise fails with the partition error |
| Exciton.ValidatedCovers | src/exciton/model.py:47-50 | when all indices lie in [0, n_orbitals), a model that validates covers each orbital exactly once |
| Exciton.ValidateIgnoresRange | src/exciton/model.py:47-50 | the range of the indices is not checked: one orbital listed as index 5 passes |
| Scenarios.AndTableOps | tests/test_reversible_synth.py:22-30 | the 2-input AND table validates and compiles to the single MCX on both inputs into wire 2 |
| Scenarios.AndTableScenario | tests/test_reversible_synth.py:22-33 | its cost estimate has one Toffoli and seven T gates |
| Scenarios.AffineExampleCost | tests/test_reversible_synth.py:6-19 | the affine test form is well formed and costs three CNOTs, one X, no Toffoli and no T gate |
| Scenarios.AffineScenario | tests/test_reversible_synth.py:6-19 | compiling it and estimating its cost gives those counts |
| Scenarios.RotatingBundleScenario | tests/test_sparse_block_encoding.py:11-32 | the 3 x 3 bundle's row lookup (2, 1) and column lookup (1, 1) are 0, and the row truth table has six entries |
| Scenarios.DenseEntryScenario | tests/test_sparse_block_encoding.py:35-44 | the entry oracle of the small matrix stores (0, 1) with sign digit 1 and reads (1, 1) back as 0.125 |
| Scenarios.AmplitudeScenario | tests/test_sparse_block_encoding.py:46-60 | entry (0, 1) with alpha 1 encodes as magnitude 0.25 with phase π |
| Scenarios.QueryScenario | tests/test_sparse_block_encoding.py:63-82 | the query at step 3 for row 1, l_pos 1 names the query op, row 1, column 1 and value 0.5 |
| Scenarios.CallableRowScenario | tests/test_reversible_synth.py:36-48 | the 4 x 4 row oracle with two slots per row compiles to a non-empty circuit of 3 input and 2 output wires whose cost estimate succeeds with a non-negative T count, 7 per Toffoli |
| Scenarios.PackedRowNonEmpty | tests/test_reversible_synth.py:43-47 | packed index 1 (row 0, slot 1) holds column 1, so the packed table's circuit has ops |
| Scenarios.XorConstInRange | tests/test_reversible_synth.py:51-57 | `x ^ 0b01` on two bits stays in [0, 4) and sends 0 to 1 |
| Scenarios.XorConstScenario | tests/test_reversible_synth.py:51-59 | the xor_const callable compiles under the default configuration to a non-empty circuit |

## Left out

- Floating point. Entries, alpha and query parameters are Dafny `real`s, so there is no binary64 rounding. `round` is modelled as round-half-to-even on the exact product. Division by `float(1 << frac_bits)` and by alpha is exact.
- `theta = 2 asin(sqrt(normalized_abs))` is transcendental and is not modelled. The query record omits it.
- `logical_cost_hint` of the block-encoding metadata, and the `metadata` dictionary of `ExcitonModel`, are not modelled.
- The message text of every exception is not modelled; each exception is an error kind.
- Dictionary iteration order. The minterm loop visits table keys in ascending order. For a table that validates, the key set is exactly 0 .. 2^n - 1, so this matches tables built by `to_lookup_table`. A hand-built dictionary in another insertion order yields the same gates per minterm, but in a different order. `compile_truth_table` is proved independent of its visiting order.
- User callables (`fn`, `row_to_col_fn`, `entry_fn`) are total Dafny function values. A callable that raises, or that returns a non-integer that `int(...)` would truncate, is not modelled.
- ReversibleSynth.Gate: gate names are the closed datatype `Gate`, with `OtherGate(name)` meant for names other than "x", "cx" and "mcx". The datatype does not rule out `OtherGate("x")`, which the estimator counts as unsupported where Python would count it as an X; the compilers never build it.
- The `isinstance` fallback of `compile_function_form` (a `TypeError` for other types) is not modelled, because the closed `FunctionForm` datatype has no other variant.
- `ReversibleCircuit.NQubits` and `OutputOffset` are plain expression functions without a contract row.
- `SparseEntry.DenseEntry` reads `matrix[i][j]` only on the grid that `from_dense` has checked. Outside it, it returns 0.0 instead of raising `IndexError`; `from_function` never calls it there.
- `SparseAccess.RowAccessOracle.CompileReversibleCircuit` and its column twin are stated for any table. `PackedCircuitCorrect` and `GridFaults` are stated for the grid-shaped tables that `from_function` builds, not for hand-built oracles.
- SparseCodec.DecodeUint, DecodeSignedRaw, DecodeSignedFixed: only non-empty strings of '0' and '1' digits are read. `int(s, 2)` also accepts a sign, a `0b` prefix, surrounding whitespace and underscores, so `_decode_uint("-1")` is -1 and `_decode_signed_fixed("-1", 0)` is -1.0 in Python, where the model fails with `MalformedBits`. `SignBit` and `EntryBinaryOracle.LookupValue` tie the sign to the first digit only for the strings the model reads. Every string the oracles store comes from `format(v, "0nb")` and is such a digit string.
- SparseCodec.BitsForRange: computed exactly for every size. Python evaluates `ceil(log2(size))` in binary64, which differs from the exact value for some sizes above 2^53 (2^60 + 1 gives 60, not 61). For such sizes `RowAccessOracle.CompileTruthTable`, `ColAccessOracle.CompileTruthTable` and `EntryBinaryOracle.CompileTruthTable` can raise an overflow in Python where the model promises success on a valid oracle.
- FunctionIr.LookupTableForm, FunctionIr.AffineXorForm, FunctionIr.CompilableFunctionForm, SparseCodec.EncodeUint: bit widths are `nat`. Python accepts negative widths; `1 << n` then raises `ValueError` (src/oracles/function_ir.py lines 25, 65, 105 and 107; src/block_encoding/sparse_matrix.py line 20), and `AffineXorForm(-1, 0, (), ())` even validates and compiles to an empty circuit. The model cannot build such forms. The signed codec takes `int` widths and models the negative case as `NegativeShift`.
- Exciton.ExcitonModel.ExtendTerms: the model reads `newTerms` as a value. In Python the model's `terms` list is shared with the caller, so `m.extend_terms(m.terms)` on a non-empty list whose terms are all in range appends to the list it iterates and does not terminate. The model instead ends with the terms doubled. Aliasing of the caller's list passed to the constructor is not modelled either.
- The backends, the chemistry adapter, the query-schedule algorithms, the exciton builder and screening, the abstract `BlockEncoding` base, the package re-exports and the example scripts: these are adapters, stubs, or thin wrappers over the modelled core.
