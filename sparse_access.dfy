/** The row- and column-access oracles of a sparse matrix: tables over an index grid, their
    truth tables over bit strings, and the reversible circuits compiled from their packed
    lookup functions. */
module SparseAccess {
  import opened Wrappers
  import opened BitArith
  import opened SparseCodec
  import opened FunctionIr
  import opened ReversibleSynth
  import opened CircuitSemantics

  /** A table key: (row, l) for the row oracle, (col, l) for the column oracle and
      (row, col) for the entry oracle. */
  type Cell = (int, int)

  // ---------------------------------------------------------------- grids

  /** The first j cells of row a. */
  function RowCells(a: int, j: int): set<Cell>
    decreases j
  {
    if j <= 0 then {} else RowCells(a, j - 1) + {(a, j - 1)}
  }

  /** The cells `for a in range(n): for b in range(m)` visits. */
  function Grid(n: int, m: int): set<Cell>
    decreases n
  {
    if n <= 0 then {} else Grid(n - 1, m) + RowCells(n - 1, m)
  }

  /** Python's `range(n)` is empty for a negative n. */
  function Count(n: int): nat {
    if n < 0 then 0 else n
  }

  lemma {:induction false} InRowCells(k: Cell, a: int, j: int)
    ensures k in RowCells(a, j) <==> k.0 == a && 0 <= k.1 < j
    decreases j
  {
    if j > 0 {
      InRowCells(k, a, j - 1);
    }
  }

  lemma {:induction false} InGrid(k: Cell, n: int, m: int)
    ensures k in Grid(n, m) <==> 0 <= k.0 < n && 0 <= k.1 < m
    decreases n
  {
    if n > 0 {
      InGrid(k, n - 1, m);
      InRowCells(k, n - 1, m);
    }
  }

  /** The grid holds exactly the pairs of in-range indices. */
  lemma GridMembers(n: int, m: int)
    ensures forall k :: k in Grid(n, m) <==> 0 <= k.0 < n && 0 <= k.1 < m
  {
    forall k: Cell
      ensures k in Grid(n, m) <==> 0 <= k.0 < n && 0 <= k.1 < m
    {
      InGrid(k, n, m);
    }
  }

  lemma {:induction false} RowCellsSize(a: int, j: int)
    ensures |RowCells(a, j)| == Count(j)
    decreases j
  {
    if j > 0 {
      RowCellsSize(a, j - 1);
      InRowCells((a, j - 1), a, j - 1);
    }
  }

  /** Row a is not among the rows before it. */
  lemma NewRowDisjoint(a: int, m: int)
    ensures Grid(a, m) * RowCells(a, m) == {}
  {
    forall k | k in RowCells(a, m)
      ensures k !in Grid(a, m)
    {
      InRowCells(k, a, m);
      InGrid(k, a, m);
    }
  }

  lemma MulStep(n: int, c: int)
    ensures (n - 1) * c + c == n * c
  {
  }

  /** A grid has one cell per (row, column) pair. */
  lemma {:induction false} GridSize(n: int, m: int)
    ensures |Grid(n, m)| == Count(n) * Count(m)
  {
    if n <= 0 {
    } else {
      var c := Count(m);
      var k: nat := 0;
      while k < n
        invariant 0 <= k <= n
        invariant |Grid(k, m)| == k * c
      {
        GridRowStep(k, m, c);
        k := k + 1;
      }
    }
  }

  lemma GridRowStep(k: nat, m: int, c: nat)
    requires c == Count(m) && |Grid(k, m)| == k * c
    ensures |Grid(k + 1, m)| == (k + 1) * c
  {
    RowCellsSize(k, m);
    NewRowDisjoint(k, m);
    assert Grid(k + 1, m) == Grid(k, m) + RowCells(k, m);
    MulStep(k + 1, c);
  }

  /** Every cell of the grid yields a value. */
  predicate AllCells<V>(n: int, m: int, cell: (int, int) -> Result<V, Error>) {
    forall a, b :: 0 <= a < n && 0 <= b < m ==> cell(a, b).Success?
  }

  /** The double loop of `from_function`: visit the cells row by row, stop at the first
      failing cell, and otherwise store each cell's value under its key. */
  method Tabulate<V>(n: int, m: int, cell: (int, int) -> Result<V, Error>)
    returns (r: Result<map<Cell, V>, Error>)
    ensures r.Success? <==> AllCells(n, m, cell)
    ensures r.Success? ==> r.value.Keys == Grid(n, m)
    ensures r.Success? ==> forall k :: k in r.value ==> cell(k.0, k.1) == Success(r.value[k])
    ensures r.Failure? ==>
      exists a, b :: 0 <= a < n && 0 <= b < m && cell(a, b) == Failure(r.error)
  {
    var table: map<Cell, V> := map[];
    var rows := Count(n);
    var cols := Count(m);
    var a := 0;
    while a < rows
      invariant 0 <= a <= rows
      invariant forall a', b :: 0 <= a' < a && 0 <= b < m ==> cell(a', b).Success?
      invariant table.Keys == Grid(a, m)
      invariant forall k :: k in table ==> cell(k.0, k.1) == Success(table[k])
    {
      var b := 0;
      while b < cols
        invariant 0 <= b <= cols
        invariant forall a', b' :: 0 <= a' < a && 0 <= b' < m ==> cell(a', b').Success?
        invariant forall b' :: 0 <= b' < b ==> cell(a, b').Success?
        invariant table.Keys == Grid(a, m) + RowCells(a, b)
        invariant forall k :: k in table ==> cell(k.0, k.1) == Success(table[k])
      {
        var c := cell(a, b);
        if c.Failure? {
          return Failure(c.error);
        }
        table := table[(a, b) := c.value];
        b := b + 1;
      }
      assert RowCells(a, b) == RowCells(a, m);
      a := a + 1;
    }
    assert Grid(a, m) == Grid(n, m);
    return Success(table);
  }

  /** Every index the callable generates over the n-by-m grid lies in [0, bound). */
  predicate IndicesInRange(n: int, m: int, fn: (int, int) -> int, bound: int) {
    forall a, b :: 0 <= a < n && 0 <= b < m ==> 0 <= fn(a, b) < bound
  }

  /** A generated index checked against its bound, as both access oracles check it. */
  function CheckedIndex(v: int, bound: int): (r: Result<int, Error>)
    ensures r.Success? <==> 0 <= v < bound
    ensures r.Success? ==> r.value == v
    ensures r.Failure? ==> r.error == RangeError
  {
    if v < 0 || v >= bound then Failure(RangeError) else Success(v)
  }

  /** The cell function `from_function` tabulates: the generated index, checked. */
  function CheckedCells(fn: (int, int) -> int, bound: int): (int, int) -> Result<int, Error> {
    (a, b) => CheckedIndex(fn(a, b), bound)
  }

  /** What the tabulation of checked indices returns: a range error exactly when a generated
      index is out of range, and otherwise, on exactly the grid, the generated index. */
  lemma CheckedTabulation(t: Result<map<Cell, int>, Error>, n: int, m: int,
                          fn: (int, int) -> int, bound: int)
    requires var cell := CheckedCells(fn, bound);
      && (t.Success? <==> AllCells(n, m, cell))
      && (t.Success? ==> t.value.Keys == Grid(n, m))
      && (t.Success? ==> forall k :: k in t.value ==> cell(k.0, k.1) == Success(t.value[k]))
      && (t.Failure? ==>
            exists a, b :: 0 <= a < n && 0 <= b < m && cell(a, b) == Failure(t.error))
    ensures t.Success? <==> IndicesInRange(n, m, fn, bound)
    ensures t.Failure? ==> t.error == RangeError
    ensures t.Success? ==> t.value.Keys == Grid(n, m)
    ensures t.Success? ==> forall k :: k in t.value ==> 0 <= t.value[k] < bound
    ensures t.Success? ==> forall a, b :: (a, b) in t.value <==> 0 <= a < n && 0 <= b < m
    ensures t.Success? ==> forall a, b :: (a, b) in t.value ==> t.value[(a, b)] == fn(a, b)
  {
    var cell := CheckedCells(fn, bound);
    forall a, b | 0 <= a < n && 0 <= b < m
      ensures cell(a, b).Success? <==> 0 <= fn(a, b) < bound
    {
      assert cell(a, b) == CheckedIndex(fn(a, b), bound);
    }
    assert AllCells(n, m, cell) <==> IndicesInRange(n, m, fn, bound);
    if t.Failure? {
      var a, b :| 0 <= a < n && 0 <= b < m && cell(a, b) == Failure(t.error);
    } else {
      var table := t.value;
      forall k | k in table
        ensures CheckedIndex(fn(k.0, k.1), bound) == Success(table[k])
      {
        assert cell(k.0, k.1) == Success(table[k]);
      }
      TabulatedIndices(table, n, m, fn, bound);
    }
  }

  /** A tabulation of checked indices holds, on exactly the grid, the generated index. */
  lemma TabulatedIndices(table: map<Cell, int>, n: int, m: int, fn: (int, int) -> int,
                         bound: int)
    requires table.Keys == Grid(n, m)
    requires forall k :: k in table ==> CheckedIndex(fn(k.0, k.1), bound) == Success(table[k])
    ensures forall k :: k in table ==> 0 <= table[k] < bound
    ensures forall a, b :: (a, b) in table <==> 0 <= a < n && 0 <= b < m
    ensures forall a, b :: (a, b) in table ==> table[(a, b)] == fn(a, b)
  {
    GridMembers(n, m);
  }

  // ---------------------------------------------------------------- truth tables

  /** The key string of a cell: both coordinates at their widths, high one first. */
  function EncodeCell(k: Cell, aBits: nat, bBits: nat): (r: Result<string, Error>)
    ensures r.Success? <==> 0 <= k.0 < Pow2(aBits) && 0 <= k.1 < Pow2(bBits)
    ensures r.Failure? ==> r.error == OverflowError
    ensures r.Success? && aBits >= 1 && bBits >= 1 ==> |r.value| == aBits + bBits
  {
    var hi :- EncodeUint(k.0, aBits);
    var lo :- EncodeUint(k.1, bBits);
    Success(hi + lo)
  }

  /** Distinct cells get distinct key strings. */
  lemma EncodeCellInjective(k: Cell, k': Cell, aBits: nat, bBits: nat)
    requires EncodeCell(k, aBits, bBits).Success? && EncodeCell(k', aBits, bBits).Success?
    requires EncodeCell(k, aBits, bBits) == EncodeCell(k', aBits, bBits)
    ensures k == k'
  {
    PairInjective(k.0, k.1, k'.0, k'.1, aBits, bBits);
  }

  /** A key encoder under which distinct cells never share a key string. */
  ghost predicate KeysInjective<K>(encodeKey: Cell -> Result<K, Error>) {
    forall k, k' :: encodeKey(k).Success? && encodeKey(k) == encodeKey(k') ==> k == k'
  }

  /** An encoder that fails only with an overflow. */
  ghost predicate OnlyOverflow<T(!new), U>(encode: T -> Result<U, Error>) {
    forall x :: encode(x).Failure? ==> encode(x).error == OverflowError
  }

  /** The cell keys at fixed widths never collide and fail only by overflow. */
  lemma CellKeys(aBits: nat, bBits: nat)
    ensures KeysInjective(CellEncoder(aBits, bBits))
    ensures OnlyOverflow(CellEncoder(aBits, bBits))
  {
    forall k: Cell, k': Cell | EncodeCell(k, aBits, bBits).Success? &&
                               EncodeCell(k, aBits, bBits) == EncodeCell(k', aBits, bBits)
      ensures k == k'
    {
      EncodeCellInjective(k, k', aBits, bBits);
    }
  }

  /** The key encoder of a table whose cells are stored at widths aBits and bBits. */
  function CellEncoder(aBits: nat, bBits: nat): Cell -> Result<string, Error> {
    k => EncodeCell(k, aBits, bBits)
  }

  /** The value encoder of indices stored at nBits. */
  function UintEncoder(nBits: nat): int -> Result<string, Error> {
    v => EncodeUint(v, nBits)
  }


  /** Every cell of the table encodes, and so does its value. */
  predicate AllEncode<V(!new), K, W>(table: map<Cell, V>, encodeKey: Cell -> Result<K, Error>,
                               encodeValue: V -> Result<W, Error>) {
    forall k :: k in table ==> encodeKey(k).Success? && encodeValue(table[k]).Success?
  }

  /** No cell occurs twice in the sequence. */
  predicate Distinct(items: seq<Cell>) {
    forall i, j :: 0 <= i < j < |items| ==> items[i] != items[j]
  }

  /** The loop of `compile_truth_table` run over the items in the order given: the first key or
      value that does not encode raises, and otherwise each key string is mapped to its value
      string. */
  function CompileItems<V(!new), K, W>(table: map<Cell, V>, encodeKey: Cell -> Result<K, Error>,
                                 encodeValue: V -> Result<W, Error>, items: seq<Cell>)
    : Result<map<K, W>, Error>
    requires forall i :: 0 <= i < |items| ==> items[i] in table
    decreases |items|
  {
    if items == [] then Success(map[])
    else
      var prev :- CompileItems(table, encodeKey, encodeValue, items[..|items| - 1]);
      var k := items[|items| - 1];
      var key :- encodeKey(k);
      var value :- encodeValue(table[k]);
      Success(prev[key := value])
  }

  /** Whatever the order, the loop succeeds exactly when every item encodes, fails only by
      overflow, and builds the map from each item's key string to its value string: one entry
      per item, since distinct items never share a key. */
  lemma {:induction false} CompileItemsFacts<V(!new), K, W>(table: map<Cell, V>,
      encodeKey: Cell -> Result<K, Error>, encodeValue: V -> Result<W, Error>, items: seq<Cell>)
    requires forall i :: 0 <= i < |items| ==> items[i] in table
    requires Distinct(items)
    requires KeysInjective(encodeKey) && OnlyOverflow(encodeKey)
    requires OnlyOverflow(encodeValue)
    ensures var r := CompileItems(table, encodeKey, encodeValue, items);
      && (r.Success? <==> forall k :: k in items ==>
            encodeKey(k).Success? && encodeValue(table[k]).Success?)
      && (r.Failure? ==> r.error == OverflowError)
      && (r.Success? ==> |r.value| == |items|)
      && (r.Success? ==> forall k :: k in items ==>
            encodeKey(k).value in r.value &&
            r.value[encodeKey(k).value] == encodeValue(table[k]).value)
      && (r.Success? ==> forall s :: s in r.value ==>
            exists k :: k in items && encodeKey(k) == Success(s) &&
                        encodeValue(table[k]) == Success(r.value[s]))
    decreases |items|
  {
    if items != [] {
      var n := |items| - 1;
      var front := items[..n];
      var k := items[n];
      assert forall k' :: k' in items <==> k' in front || k' == k;
      CompileItemsFacts(table, encodeKey, encodeValue, front);
      var prev := CompileItems(table, encodeKey, encodeValue, front);
      if prev.Success? && encodeKey(k).Success? && encodeValue(table[k]).Success? {
        var key, value := encodeKey(k).value, encodeValue(table[k]).value;
        if key in prev.value {
          assert false;
        }
        var m := prev.value[key := value];
        forall s | s in m
          ensures exists k' :: k' in items && encodeKey(k') == Success(s) &&
                              encodeValue(table[k']) == Success(m[s])
        {
          if s != key {
            var k' :| k' in front && encodeKey(k') == Success(s) &&
                      encodeValue(table[k']) == Success(prev.value[s]);
            assert k' in items;
          }
        }
      }
    }
  }

  /** `compile_truth_table`'s loop over the table's items. It meets them in no order the
      model fixes; whatever order it takes, the facts above say what it returns. */
  method CompileGrid<V(!new), K, W>(table: map<Cell, V>, encodeKey: Cell -> Result<K, Error>,
                              encodeValue: V -> Result<W, Error>)
    returns (r: Result<map<K, W>, Error>)
    requires KeysInjective(encodeKey) && OnlyOverflow(encodeKey)
    requires OnlyOverflow(encodeValue)
    ensures r.Success? <==> AllEncode(table, encodeKey, encodeValue)
    ensures r.Failure? ==> r.error == OverflowError
    ensures r.Success? ==> |r.value| == |table|
    ensures r.Success? ==> forall k :: k in table ==>
      encodeKey(k).value in r.value && r.value[encodeKey(k).value] == encodeValue(table[k]).value
    ensures r.Success? ==> forall s :: s in r.value ==>
      exists k :: k in table && encodeKey(k) == Success(s) &&
                  encodeValue(table[k]) == Success(r.value[s])
  {
    var compiled: map<K, W> := map[];
    ghost var order: seq<Cell> := [];
    var rest := table.Keys;
    while rest != {}
      invariant rest <= table.Keys
      invariant forall i :: 0 <= i < |order| ==> order[i] in table && order[i] !in rest
      invariant forall k :: k in table ==> k in rest || k in order
      invariant Distinct(order)
      invariant |order| + |rest| == |table|
      invariant CompileItems(table, encodeKey, encodeValue, order) == Success(compiled)
      decreases |rest|
    {
      var k := PickKey(rest);
      var key := encodeKey(k);
      if key.Failure? {
        return Failure(key.error);
      }
      var value := encodeValue(table[k]);
      if value.Failure? {
        return Failure(value.error);
      }
      assert (order + [k])[..|order|] == order;
      compiled := compiled[key.value := value.value];
      order := order + [k];
      rest := rest - {k};
    }
    OrderFacts(table, encodeKey, encodeValue, order);
    return Success(compiled);
  }

  /** The loop's facts for an order that enumerates the whole table, restated over the table. */
  lemma OrderFacts<V(!new), K, W>(table: map<Cell, V>, encodeKey: Cell -> Result<K, Error>,
                            encodeValue: V -> Result<W, Error>, order: seq<Cell>)
    requires KeysInjective(encodeKey) && OnlyOverflow(encodeKey)
    requires OnlyOverflow(encodeValue)
    requires forall i :: 0 <= i < |order| ==> order[i] in table
    requires forall k :: k in table ==> k in order
    requires Distinct(order) && |order| == |table|
    ensures var r := CompileItems(table, encodeKey, encodeValue, order);
      && (r.Success? <==> AllEncode(table, encodeKey, encodeValue))
      && (r.Failure? ==> r.error == OverflowError)
      && (r.Success? ==> |r.value| == |table|)
      && (r.Success? ==> forall k :: k in table ==>
            encodeKey(k).value in r.value &&
            r.value[encodeKey(k).value] == encodeValue(table[k]).value)
      && (r.Success? ==> forall s :: s in r.value ==>
            exists k :: k in table && encodeKey(k) == Success(s) &&
                        encodeValue(table[k]) == Success(r.value[s]))
  {
    CompileItemsFacts(table, encodeKey, encodeValue, order);
  }

  /** Every cell of an index table and its stored index fit their widths. */
  predicate IntFits(table: map<Cell, int>, hiBits: nat, loBits: nat, outBits: nat) {
    forall k :: k in table ==>
      0 <= k.0 < Pow2(hiBits) && 0 <= k.1 < Pow2(loBits) && 0 <= table[k] < Pow2(outBits)
  }

  /** t is the bit-string image of an index table: one key string per cell, mapped to the
      encoding of its index, and nothing else. */
  predicate EncodesIntTable(table: map<Cell, int>, t: map<string, string>,
                            hiBits: nat, loBits: nat, outBits: nat)
    requires IntFits(table, hiBits, loBits, outBits)
  {
    && |t| == |table|
    && (forall k :: k in table ==>
          EncodeCell(k, hiBits, loBits).value in t &&
          t[EncodeCell(k, hiBits, loBits).value] == EncodeUint(table[k], outBits).value)
    && (forall s :: s in t ==>
          exists k :: k in table && EncodeCell(k, hiBits, loBits) == Success(s) &&
                      EncodeUint(table[k], outBits) == Success(t[s]))
  }

  /** `compile_truth_table` of both access oracles: the cell at its two widths as the key,
      the stored index at the output width as the value. Any cell or index that does not fit
      its width raises. */
  method CompileIntTable(table: map<Cell, int>, hiBits: nat, loBits: nat, outBits: nat)
    returns (r: Result<map<string, string>, Error>)
    requires hiBits >= 1 && loBits >= 1 && outBits >= 1
    ensures r.Success? <==> IntFits(table, hiBits, loBits, outBits)
    ensures r.Failure? ==> r.error == OverflowError
    ensures r.Success? ==> EncodesIntTable(table, r.value, hiBits, loBits, outBits)
    ensures r.Success? ==> forall s :: s in r.value ==>
      |s| == hiBits + loBits && |r.value[s]| == outBits
  {
    CellKeys(hiBits, loBits);
    r := CompileGrid(table, CellEncoder(hiBits, loBits), UintEncoder(outBits));
    IntTableFacts(table, hiBits, loBits, outBits, r);
  }

  /** What the generic loop's contract says about the index-table encoders. */
  lemma IntTableFacts(table: map<Cell, int>, hiBits: nat, loBits: nat, outBits: nat,
                      r: Result<map<string, string>, Error>)
    requires hiBits >= 1 && loBits >= 1 && outBits >= 1
    requires var encodeKey, encodeValue := CellEncoder(hiBits, loBits), UintEncoder(outBits);
      && (r.Success? <==> AllEncode(table, encodeKey, encodeValue))
      && (r.Success? ==> |r.value| == |table|)
      && (r.Success? ==> forall k :: k in table ==>
            encodeKey(k).value in r.value &&
            r.value[encodeKey(k).value] == encodeValue(table[k]).value)
      && (r.Success? ==> forall s :: s in r.value ==>
            exists k :: k in table && encodeKey(k) == Success(s) &&
                        encodeValue(table[k]) == Success(r.value[s]))
    ensures r.Success? <==> IntFits(table, hiBits, loBits, outBits)
    ensures r.Success? ==> EncodesIntTable(table, r.value, hiBits, loBits, outBits)
    ensures r.Success? ==> forall s :: s in r.value ==>
      |s| == hiBits + loBits && |r.value[s]| == outBits
  {
    FitsEncode(table, hiBits, loBits, outBits);
    if r.Success? {
      EncodedEntries(table, r.value, hiBits, loBits, outBits);
      EncodedImages(table, r.value, hiBits, loBits, outBits);
    }
  }

  /** The index table fits its widths exactly when both encoders accept every item. */
  lemma FitsEncode(table: map<Cell, int>, hiBits: nat, loBits: nat, outBits: nat)
    ensures IntFits(table, hiBits, loBits, outBits) <==>
            AllEncode(table, CellEncoder(hiBits, loBits), UintEncoder(outBits))
  {
  }

  /** The encoders' entries are the ones EncodesIntTable names. */
  lemma EncodedEntries(table: map<Cell, int>, t: map<string, string>,
                       hiBits: nat, loBits: nat, outBits: nat)
    requires IntFits(table, hiBits, loBits, outBits)
    requires var encodeKey, encodeValue := CellEncoder(hiBits, loBits), UintEncoder(outBits);
      forall k :: k in table ==>
        encodeKey(k).value in t && t[encodeKey(k).value] == encodeValue(table[k]).value
    ensures forall k :: k in table ==>
      EncodeCell(k, hiBits, loBits).value in t &&
      t[EncodeCell(k, hiBits, loBits).value] == EncodeUint(table[k], outBits).value
  {
    var encodeKey, encodeValue := CellEncoder(hiBits, loBits), UintEncoder(outBits);
    forall k | k in table
      ensures EncodeCell(k, hiBits, loBits).value in t
      ensures t[EncodeCell(k, hiBits, loBits).value] == EncodeUint(table[k], outBits).value
    {
      assert encodeKey(k) == EncodeCell(k, hiBits, loBits);
      assert encodeValue(table[k]) == EncodeUint(table[k], outBits);
    }
  }

  /** Every entry of the encoders' image comes from an item, which fixes its lengths. */
  lemma EncodedImages(table: map<Cell, int>, t: map<string, string>,
                      hiBits: nat, loBits: nat, outBits: nat)
    requires hiBits >= 1 && loBits >= 1 && outBits >= 1
    requires var encodeKey, encodeValue := CellEncoder(hiBits, loBits), UintEncoder(outBits);
      forall s :: s in t ==>
        exists k :: k in table && encodeKey(k) == Success(s) &&
                    encodeValue(table[k]) == Success(t[s])
    ensures forall s :: s in t ==>
      exists k :: k in table && EncodeCell(k, hiBits, loBits) == Success(s) &&
                  EncodeUint(table[k], outBits) == Success(t[s])
    ensures forall s :: s in t ==> |s| == hiBits + loBits && |t[s]| == outBits
  {
    var encodeKey, encodeValue := CellEncoder(hiBits, loBits), UintEncoder(outBits);
    forall s | s in t
      ensures exists k :: k in table && EncodeCell(k, hiBits, loBits) == Success(s) &&
                          EncodeUint(table[k], outBits) == Success(t[s])
      ensures |s| == hiBits + loBits && |t[s]| == outBits
    {
      var k :| k in table && encodeKey(k) == Success(s) && encodeValue(table[k]) == Success(t[s]);
      assert EncodeCell(k, hiBits, loBits) == Success(s);
    }
  }

  /** A grid table of in-range indices fits the widths `compile_truth_table` derives from
      the sizes, so its compilation succeeds. */
  lemma GridTableFits(table: map<Cell, int>, hiSize: int, loSize: int, outSize: int)
    requires GridTable(table, hiSize, loSize, outSize)
    ensures IntFits(table, BitsForRange(hiSize), BitsForRange(loSize), BitsForRange(outSize))
  {
    forall k | k in table
      ensures 0 <= k.0 < Pow2(BitsForRange(hiSize)) && 0 <= k.1 < Pow2(BitsForRange(loSize))
    {
      InGrid(k, hiSize, loSize);
    }
  }

  // ---------------------------------------------------------------- packed circuits

  /** The cell a packed index names: `x >> l_bits` and `x & (2^l_bits - 1)`, which are
      floor division and the non-negative remainder by 2^l_bits. */
  function Unpack(x: int, loBits: nat): Cell {
    (x / Pow2(loBits), x % Pow2(loBits))
  }

  lemma MulMonotone(a: int, b: int, p: int)
    requires a <= b && p >= 0
    ensures a * p <= b * p
  {
    assert b * p - a * p == (b - a) * p;
  }

  /** Floor division and remainder are determined by x == q * p + r with 0 <= r < p. */
  lemma DivModUnique(x: int, p: int, q: int, r: int)
    requires p > 0 && 0 <= r < p && x == q * p + r
    ensures x / p == q && x % p == r
  {
    var q' := x / p;
    assert x == q' * p + x % p;
    if q' < q {
      assert (q' + 1) * p == q' * p + p;
      MulMonotone(q' + 1, q, p);
    } else if q < q' {
      assert (q + 1) * p == q * p + p;
      MulMonotone(q + 1, q', p);
    }
  }

  /** `(a << l_bits) | b` for b below 2^l_bits is a * 2^l_bits + b, and unpacking it gives
      the cell back. */
  lemma UnpackPack(a: int, b: int, loBits: nat)
    requires 0 <= b < Pow2(loBits)
    ensures Unpack(a * Pow2(loBits) + b, loBits) == (a, b)
  {
    DivModUnique(a * Pow2(loBits) + b, Pow2(loBits), a, b);
  }

  /** `packed_fn(x)`: the table entry of the cell x names, or a KeyError when the table has
      no such cell. */
  function PackedLookup(table: map<Cell, int>, loBits: nat, x: int): (r: Result<int, Error>)
    ensures r.Success? <==> Unpack(x, loBits) in table
    ensures r.Failure? ==> r.error == MissingKey
  {
    var k := Unpack(x, loBits);
    if k in table then Success(table[k]) else Failure(MissingKey)
  }

  /** The first failure that enumerating packed_fn over x, x+1, ..., n-1 meets: a missing
      cell, or a value outside the output width. */
  function FirstFault(table: map<Cell, int>, loBits: nat, outBits: nat, x: int, n: int)
    : (e: Option<Error>)
    ensures e.Some? ==> e.value == MissingKey || e.value == RangeError
    decreases n - x
  {
    if x >= n then None
    else match PackedLookup(table, loBits, x)
      case Failure(err) => Some(err)
      case Success(v) =>
        if v < 0 || v >= Pow2(outBits) then Some(RangeError)
        else FirstFault(table, loBits, outBits, x + 1, n)
  }

  /** packed_fn is defined and in range on the inputs from x on. */
  predicate PackedTotal(table: map<Cell, int>, loBits: nat, outBits: nat, x: int, n: int) {
    forall z :: x <= z < n ==>
      Unpack(z, loBits) in table && 0 <= table[Unpack(z, loBits)] < Pow2(outBits)
  }

  /** The enumeration meets no failure exactly when packed_fn is total and in range. */
  lemma {:induction false} FirstFaultNone(table: map<Cell, int>, loBits: nat, outBits: nat,
                                          x: int, n: int)
    ensures FirstFault(table, loBits, outBits, x, n).None? <==>
            PackedTotal(table, loBits, outBits, x, n)
    decreases n - x
  {
    if x < n {
      FirstFaultNone(table, loBits, outBits, x + 1, n);
    }
  }

  /** When every stored value fits the output width, the only failure is a missing cell. */
  lemma {:induction false} FirstFaultMissing(table: map<Cell, int>, loBits: nat, outBits: nat,
                                             x: int, n: int)
    requires forall k :: k in table ==> 0 <= table[k] < Pow2(outBits)
    ensures FirstFault(table, loBits, outBits, x, n).Some? ==>
            FirstFault(table, loBits, outBits, x, n) == Some(MissingKey)
    decreases n - x
  {
    if x < n {
      FirstFaultMissing(table, loBits, outBits, x + 1, n);
    }
  }

  /** packed_fn as the total callable the compiler enumerates; it agrees with PackedLookup
      wherever that succeeds, which is everywhere the enumeration reaches once FirstFault has
      found nothing. */
  function PackedValue(table: map<Cell, int>, loBits: nat, x: int): int {
    var k := Unpack(x, loBits);
    if k in table then table[k] else 0
  }

  /** The callable form `compile_reversible_circuit` builds. */
  function PackedForm(table: map<Cell, int>, inBits: nat, loBits: nat, outBits: nat,
                      name: string): CompilableFunctionForm {
    CompilableFunctionForm(inBits, outBits, x => PackedValue(table, loBits, x), name)
  }

  /** The widths `compile_reversible_circuit` derives from the three sizes. */
  function InBits(hiSize: int, loSize: int): nat {
    BitsForRange(hiSize) + BitsForRange(loSize)
  }

  /** The outcome `compile_function_form` reaches on the packed form under the default
      configuration, before any gate is emitted. */
  function PackedOutcome(table: map<Cell, int>, hiSize: int, loSize: int, outSize: int)
    : Option<Error>
  {
    var inBits := InBits(hiSize, loSize);
    if inBits > DefaultConfig.maxTruthTableInputBits then Some(ConfigurationError)
    else FirstFault(table, BitsForRange(loSize), BitsForRange(outSize), 0, Pow2(inBits))
  }

  /** `compile_reversible_circuit` of both access oracles: pack (hi, l) into one integer,
      then hand the callable to `compile_function_form` with the default configuration, whose
      enumeration raises on a cell the table lacks. */
  method CompilePacked(table: map<Cell, int>, hiSize: int, loSize: int, outSize: int,
                       name: string)
    returns (r: Result<ReversibleCircuit, Error>)
    ensures r.Failure? <==> PackedOutcome(table, hiSize, loSize, outSize).Some?
    ensures r.Failure? ==> r.error == PackedOutcome(table, hiSize, loSize, outSize).value
    ensures r.Success? ==>
      var inBits := InBits(hiSize, loSize);
      var form := PackedForm(table, inBits, BitsForRange(loSize), BitsForRange(outSize), name);
      && fresh(r.value)
      && r.value.nInputBits == inBits && r.value.nOutputBits == BitsForRange(outSize)
      && r.value.operations == LutOps(form.Enumerated())
      && r.value.metadata == map["source" := name + "_enumerated", "method" := "sum_of_minterms"]
  {
    var hiBits := BitsForRange(hiSize);
    var lBits := BitsForRange(loSize);
    var inBits := hiBits + lBits;
    var outBits := BitsForRange(outSize);
    var form := PackedForm(table, inBits, lBits, outBits, name);
    if !form.Enumerable(DefaultConfig) {
      return Failure(ConfigurationError);
    }
    var fault := FirstFault(table, lBits, outBits, 0, Pow2(inBits));
    if fault.Some? {
      return Failure(fault.value);
    }
    FirstFaultNone(table, lBits, outBits, 0, Pow2(inBits));
    assert form.InRange() by {
      forall x | 0 <= x < Pow2(inBits)
        ensures 0 <= form.fn(x) < Pow2(outBits)
      {
        assert Unpack(x, lBits) in table;
      }
    }
    r := CompileFunctionForm(Callable(form), None);
  }

  /** A grid-shaped table whose values fit the output width. */
  predicate GridTable(table: map<Cell, int>, hiSize: int, loSize: int, outSize: int) {
    && table.Keys == Grid(hiSize, loSize)
    && forall k :: k in table ==> 0 <= table[k] < outSize
  }

  /** The packed index of a cell of an h-by-p grid lies in [0, h * p). */
  lemma PackBound(a: int, b: int, h: int, p: int)
    requires 0 <= a < h && 0 <= b < p
    ensures 0 <= a * p + b < h * p
  {
    MulMonotone(0, a, p);
    MulMonotone(a + 1, h, p);
    assert (a + 1) * p == a * p + p;
  }

  /** An index in [0, h * p) unpacks to a cell of the h-by-p grid. */
  lemma UnpackBound(z: int, h: int, p: int)
    requires p > 0 && 0 <= z < h * p
    ensures 0 <= z / p < h && 0 <= z % p < p
  {
    var q := z / p;
    assert z == q * p + z % p;
    if q >= h {
      MulMonotone(h, q, p);
    } else if q < 0 {
      MulMonotone(q, -1, p);
    }
  }

  /** A packed index below 2^(hiBits + loBits) names a cell with hi < 2^hiBits and
      lo < 2^loBits. */
  lemma UnpackRange(z: int, hiBits: nat, loBits: nat)
    requires 0 <= z < Pow2(hiBits + loBits)
    ensures 0 <= Unpack(z, loBits).0 < Pow2(hiBits)
    ensures 0 <= Unpack(z, loBits).1 < Pow2(loBits)
  {
    Pow2Add(hiBits, loBits);
    UnpackBound(z, Pow2(hiBits), Pow2(loBits));
  }

  /** When both sizes are powers of two, every packed index names a stored cell. */
  lemma PowersTotal(table: map<Cell, int>, hiSize: int, loSize: int, outSize: int)
    requires GridTable(table, hiSize, loSize, outSize)
    requires hiSize == Pow2(BitsForRange(hiSize)) && loSize == Pow2(BitsForRange(loSize))
    ensures PackedTotal(table, BitsForRange(loSize), BitsForRange(outSize), 0,
                        Pow2(InBits(hiSize, loSize)))
  {
    var hb, lb, ob := BitsForRange(hiSize), BitsForRange(loSize), BitsForRange(outSize);
    forall z | 0 <= z < Pow2(hb + lb)
      ensures Unpack(z, lb) in table && 0 <= table[Unpack(z, lb)] < Pow2(ob)
    {
      PackedCell(table, hiSize, loSize, outSize, z);
    }
  }

  /** One packed index of a grid whose sizes are powers of two names a stored cell. */
  lemma PackedCell(table: map<Cell, int>, hiSize: int, loSize: int, outSize: int, z: int)
    requires GridTable(table, hiSize, loSize, outSize)
    requires hiSize == Pow2(BitsForRange(hiSize)) && loSize == Pow2(BitsForRange(loSize))
    requires 0 <= z < Pow2(BitsForRange(hiSize) + BitsForRange(loSize))
    ensures var k := Unpack(z, BitsForRange(loSize));
      k in table && 0 <= table[k] < Pow2(BitsForRange(outSize))
  {
    var lb := BitsForRange(loSize);
    UnpackRange(z, BitsForRange(hiSize), lb);
    var k := Unpack(z, lb);
    assert 0 <= k.0 < hiSize && 0 <= k.1 < loSize;
    GridCell(table, hiSize, loSize, outSize, k);
  }

  /** A cell inside the grid is stored, with a value that fits the output width. */
  lemma GridCell(table: map<Cell, int>, hiSize: int, loSize: int, outSize: int, k: Cell)
    requires GridTable(table, hiSize, loSize, outSize)
    requires 0 <= k.0 < hiSize && 0 <= k.1 < loSize
    ensures k in table && 0 <= table[k] < Pow2(BitsForRange(outSize))
  {
    InGrid(k, hiSize, loSize);
  }

  /** When the high size is not a power of two, the first packed index of the row past the
      last is below the enumeration bound and names no stored cell. */
  lemma MissingRow(table: map<Cell, int>, hiSize: int, loSize: int, outSize: int)
    requires GridTable(table, hiSize, loSize, outSize)
    requires hiSize != Pow2(BitsForRange(hiSize))
    ensures !PackedTotal(table, BitsForRange(loSize), BitsForRange(outSize), 0,
                         Pow2(InBits(hiSize, loSize)))
  {
    var hb, lb := BitsForRange(hiSize), BitsForRange(loSize);
    var p := Pow2(lb);
    var a := Count(hiSize);
    UnpackPack(a, 0, lb);
    Pow2Add(hb, lb);
    PackBound(a, 0, Pow2(hb), p);
    InGrid((a, 0), hiSize, loSize);
    assert Unpack(a * p + 0, lb) !in table;
  }

  /** When the low size is not a power of two, the packed index of the first missing column
      of row 0 is below the enumeration bound and names no stored cell. */
  lemma MissingCol(table: map<Cell, int>, hiSize: int, loSize: int, outSize: int)
    requires GridTable(table, hiSize, loSize, outSize)
    requires loSize != Pow2(BitsForRange(loSize))
    ensures !PackedTotal(table, BitsForRange(loSize), BitsForRange(outSize), 0,
                         Pow2(InBits(hiSize, loSize)))
  {
    var hb, lb := BitsForRange(hiSize), BitsForRange(loSize);
    var b := Count(loSize);
    UnpackPack(0, b, lb);
    Pow2Monotone(lb, hb + lb);
    InGrid((0, b), hiSize, loSize);
    assert Unpack(0 * Pow2(lb) + b, lb) !in table;
  }

  /** For a grid-shaped table, the enumeration reaches a missing cell exactly when a size is
      not a power of two (1 and 0 included: both are stored in one bit, that reaches index 1). */
  lemma GridFaults(table: map<Cell, int>, hiSize: int, loSize: int, outSize: int)
    requires GridTable(table, hiSize, loSize, outSize)
    ensures var fault := FirstFault(table, BitsForRange(loSize), BitsForRange(outSize), 0,
                                    Pow2(InBits(hiSize, loSize)));
      && (fault.None? <==>
            hiSize == Pow2(BitsForRange(hiSize)) && loSize == Pow2(BitsForRange(loSize)))
      && (fault.Some? ==> fault == Some(MissingKey))
  {
    var lb, ob := BitsForRange(loSize), BitsForRange(outSize);
    var n := Pow2(InBits(hiSize, loSize));
    FirstFaultNone(table, lb, ob, 0, n);
    FirstFaultMissing(table, lb, ob, 0, n);
    if hiSize != Pow2(BitsForRange(hiSize)) {
      MissingRow(table, hiSize, loSize, outSize);
    } else if loSize != Pow2(lb) {
      MissingCol(table, hiSize, loSize, outSize);
    } else {
      PowersTotal(table, hiSize, loSize, outSize);
    }
  }

  /** The compiled circuit of a grid table that enumerates without failure maps
      |(a << l_bits) | b>|0> to |(a << l_bits) | b>|table[(a, b)]>: packed_fn of the packed
      index is the lookup of the cell. */
  lemma PackedCircuitCorrect(table: map<Cell, int>, hiSize: int, loSize: int, outSize: int,
                             name: string, a: int, b: int)
    requires GridTable(table, hiSize, loSize, outSize)
    requires PackedOutcome(table, hiSize, loSize, outSize).None?
    requires (a, b) in table
    ensures var lb := BitsForRange(loSize); var inBits := InBits(hiSize, loSize);
      var outBits := BitsForRange(outSize);
      var x := a * Pow2(lb) + b;
      var t := PackedForm(table, inBits, lb, outBits, name).Enumerated();
      && 0 <= x < Pow2(inBits)
      && PackedLookup(table, lb, x) == Success(table[(a, b)])
      && x in t.table && t.table[x] == table[(a, b)]
      && Run(LutOps(t), Wires(x, inBits) + Wires(0, outBits)) ==
           Wires(x, inBits) + Wires(table[(a, b)], outBits)
  {
    var lb, ob := BitsForRange(loSize), BitsForRange(outSize);
    var inBits := InBits(hiSize, loSize);
    var x := PackedIndexOf(table, hiSize, loSize, outSize, a, b);
    var t := PackedForm(table, inBits, lb, ob, name).Enumerated();
    PackedEnumeratedAt(table, hiSize, loSize, outSize, name, a, b, x);
    TableCircuitAt(t, x, table[(a, b)]);
  }

  /** The enumerated table of the packed form holds the cell's value at its packed index. */
  lemma PackedEnumeratedAt(table: map<Cell, int>, hiSize: int, loSize: int, outSize: int,
                           name: string, a: int, b: int, x: int)
    requires GridTable(table, hiSize, loSize, outSize)
    requires PackedOutcome(table, hiSize, loSize, outSize).None?
    requires (a, b) in table
    requires 0 <= x < Pow2(InBits(hiSize, loSize))
    requires Unpack(x, BitsForRange(loSize)) == (a, b)
    ensures var t := PackedForm(table, InBits(hiSize, loSize), BitsForRange(loSize),
                                BitsForRange(outSize), name).Enumerated();
      && t.Valid() && t.nInputBits == InBits(hiSize, loSize)
      && t.nOutputBits == BitsForRange(outSize)
      && x in t.table && t.table[x] == table[(a, b)]
  {
    var form := PackedForm(table, InBits(hiSize, loSize), BitsForRange(loSize),
                           BitsForRange(outSize), name);
    PackedFormInRange(table, hiSize, loSize, outSize, name);
    form.EnumeratedCorrect();
    assert form.fn(x) == table[(a, b)];
  }

  /** The lookup-table circuit sends |x>|0> to |x>|v> when the table maps x to v. */
  lemma TableCircuitAt(t: LookupTableForm, x: int, v: int)
    requires t.Valid() && 0 <= x < Pow2(t.nInputBits) && x in t.table && t.table[x] == v
    ensures Run(LutOps(t), Wires(x, t.nInputBits) + Wires(0, t.nOutputBits)) ==
            Wires(x, t.nInputBits) + Wires(v, t.nOutputBits)
  {
    LookupTableCircuitCorrect(t, x);
  }

  /** The packed index of a stored cell lies below the enumeration bound and unpacks to it. */
  lemma PackedIndexOf(table: map<Cell, int>, hiSize: int, loSize: int, outSize: int,
                      a: int, b: int) returns (x: int)
    requires GridTable(table, hiSize, loSize, outSize)
    requires (a, b) in table
    ensures x == a * Pow2(BitsForRange(loSize)) + b
    ensures 0 <= x < Pow2(InBits(hiSize, loSize))
    ensures Unpack(x, BitsForRange(loSize)) == (a, b)
  {
    var hb, lb := BitsForRange(hiSize), BitsForRange(loSize);
    var p := Pow2(lb);
    InGrid((a, b), hiSize, loSize);
    x := a * p + b;
    UnpackPack(a, b, lb);
    Pow2Add(hb, lb);
    PackBound(a, b, Pow2(hb), p);
  }

  /** A grid table that enumerates without failure gives a callable form in range. */
  lemma PackedFormInRange(table: map<Cell, int>, hiSize: int, loSize: int, outSize: int,
                          name: string)
    requires GridTable(table, hiSize, loSize, outSize)
    requires PackedOutcome(table, hiSize, loSize, outSize).None?
    ensures PackedForm(table, InBits(hiSize, loSize), BitsForRange(loSize),
                       BitsForRange(outSize), name).InRange()
  {
    var lb, ob := BitsForRange(loSize), BitsForRange(outSize);
    var inBits := InBits(hiSize, loSize);
    var form := PackedForm(table, inBits, lb, ob, name);
    FirstFaultNone(table, lb, ob, 0, Pow2(inBits));
    forall z | 0 <= z < Pow2(inBits)
      ensures 0 <= form.fn(z) < Pow2(ob)
    {
      assert Unpack(z, lb) in table;
    }
  }

  // ---------------------------------------------------------------- the row-access oracle

  /** O_r: (row, l) |-> the column of the l-th nonzero entry of the row. */
  datatype RowAccessOracle = RowAccessOracle(nRows: int, nCols: int, maxRowNnz: int,
                                             table: map<Cell, int>)
  {
    /** What `from_function` establishes: every cell of the grid holds a column in range. */
    predicate Valid() {
      GridTable(table, nRows, maxRowNnz, nCols)
    }

    /** `lookup(row, l_pos)`: a dictionary read. */
    function Lookup(row: int, lPos: int): (r: Result<int, Error>)
      ensures r.Success? <==> (row, lPos) in table
      ensures r.Failure? ==> r.error == MissingKey
    {
      if (row, lPos) in table then Success(table[(row, lPos)]) else Failure(MissingKey)
    }

    /** `from_function`: tabulate the callable over the grid, rejecting a column outside
        [0, n_cols). */
    static method FromFunction(nRows: int, nCols: int, maxRowNnz: int,
                               rowToColFn: (int, int) -> int)
      returns (r: Result<RowAccessOracle, Error>)
      ensures r.Success? <==> IndicesInRange(nRows, maxRowNnz, rowToColFn, nCols)
      ensures r.Failure? ==> r.error == RangeError
      ensures r.Success? ==>
        && r.value.nRows == nRows && r.value.nCols == nCols && r.value.maxRowNnz == maxRowNnz
        && r.value.Valid()
        && |r.value.table| == Count(nRows) * Count(maxRowNnz)
      ensures r.Success? ==> forall row, l ::
        r.value.Lookup(row, l) ==
          (if 0 <= row < nRows && 0 <= l < maxRowNnz then Success(rowToColFn(row, l))
           else Failure(MissingKey))
    {
      var t := Tabulate(nRows, maxRowNnz, CheckedCells(rowToColFn, nCols));
      CheckedTabulation(t, nRows, maxRowNnz, rowToColFn, nCols);
      if t.Failure? {
        return Failure(t.error);
      }
      GridSize(nRows, maxRowNnz);
      return Success(RowAccessOracle(nRows, nCols, maxRowNnz, t.value));
    }

    /** `compile_truth_table`: row and l at their widths as the key, the column at its width
        as the value. */
    method CompileTruthTable() returns (r: Result<map<string, string>, Error>)
      ensures var rowBits, lBits, colBits :=
          BitsForRange(nRows), BitsForRange(maxRowNnz), BitsForRange(nCols);
        && (r.Success? <==> IntFits(table, rowBits, lBits, colBits))
        && (Valid() ==> r.Success?)
        && (r.Failure? ==> r.error == OverflowError)
        && (r.Success? ==> EncodesIntTable(table, r.value, rowBits, lBits, colBits))
        && (r.Success? ==> forall s :: s in r.value ==>
              |s| == rowBits + lBits && |r.value[s]| == colBits)
    {
      r := CompileIntTable(table, BitsForRange(nRows), BitsForRange(maxRowNnz), BitsForRange(nCols));
      if Valid() {
        GridTableFits(table, nRows, maxRowNnz, nCols);
      }
    }

    /** `compile_reversible_circuit`: the packed lookup (row << l_bits) | l |-> column, compiled
        as an enumerated callable named "row_access_oracle". */
    method CompileReversibleCircuit() returns (r: Result<ReversibleCircuit, Error>)
      ensures r.Failure? <==> PackedOutcome(table, nRows, maxRowNnz, nCols).Some?
      ensures r.Failure? ==> r.error == PackedOutcome(table, nRows, maxRowNnz, nCols).value
      ensures r.Success? ==>
        var inBits := InBits(nRows, maxRowNnz);
        var form := PackedForm(table, inBits, BitsForRange(maxRowNnz), BitsForRange(nCols),
                               "row_access_oracle");
        && fresh(r.value)
        && r.value.nInputBits == inBits && r.value.nOutputBits == BitsForRange(nCols)
        && r.value.operations == LutOps(form.Enumerated())
        && r.value.metadata == map["source" := "row_access_oracle" + "_enumerated", "method" := "sum_of_minterms"]
    {
      r := CompilePacked(table, nRows, maxRowNnz, nCols, "row_access_oracle");
    }
  }

  // ---------------------------------------------------------------- the column-access oracle

  /** O_c: (col, l) |-> the row of the l-th nonzero entry of the column. */
  datatype ColAccessOracle = ColAccessOracle(nRows: int, nCols: int, maxColNnz: int,
                                             table: map<Cell, int>)
  {
    /** What `from_function` establishes: every cell of the grid holds a row in range. */
    predicate Valid() {
      GridTable(table, nCols, maxColNnz, nRows)
    }

    /** `lookup(col, l_pos)`: a dictionary read. */
    function Lookup(col: int, lPos: int): (r: Result<int, Error>)
      ensures r.Success? <==> (col, lPos) in table
      ensures r.Failure? ==> r.error == MissingKey
    {
      if (col, lPos) in table then Success(table[(col, lPos)]) else Failure(MissingKey)
    }

    /** `from_function`: tabulate the callable over the grid, rejecting a row outside
        [0, n_rows). */
    static method FromFunction(nRows: int, nCols: int, maxColNnz: int,
                               colToRowFn: (int, int) -> int)
      returns (r: Result<ColAccessOracle, Error>)
      ensures r.Success? <==> IndicesInRange(nCols, maxColNnz, colToRowFn, nRows)
      ensures r.Failure? ==> r.error == RangeError
      ensures r.Success? ==>
        && r.value.nRows == nRows && r.value.nCols == nCols && r.value.maxColNnz == maxColNnz
        && r.value.Valid()
        && |r.value.table| == Count(nCols) * Count(maxColNnz)
      ensures r.Success? ==> forall col, l ::
        r.value.Lookup(col, l) ==
          (if 0 <= col < nCols && 0 <= l < maxColNnz then Success(colToRowFn(col, l))
           else Failure(MissingKey))
    {
      var t := Tabulate(nCols, maxColNnz, CheckedCells(colToRowFn, nRows));
      CheckedTabulation(t, nCols, maxColNnz, colToRowFn, nRows);
      if t.Failure? {
        return Failure(t.error);
      }
      GridSize(nCols, maxColNnz);
      return Success(ColAccessOracle(nRows, nCols, maxColNnz, t.value));
    }

    /** `compile_truth_table`: col and l at their widths as the key, the row at its width
        as the value. */
    method CompileTruthTable() returns (r: Result<map<string, string>, Error>)
      ensures var colBits, lBits, rowBits :=
          BitsForRange(nCols), BitsForRange(maxColNnz), BitsForRange(nRows);
        && (r.Success? <==> IntFits(table, colBits, lBits, rowBits))
        && (Valid() ==> r.Success?)
        && (r.Failure? ==> r.error == OverflowError)
        && (r.Success? ==> EncodesIntTable(table, r.value, colBits, lBits, rowBits))
        && (r.Success? ==> forall s :: s in r.value ==>
              |s| == colBits + lBits && |r.value[s]| == rowBits)
    {
      r := CompileIntTable(table, BitsForRange(nCols), BitsForRange(maxColNnz), BitsForRange(nRows));
      if Valid() {
        GridTableFits(table, nCols, maxColNnz, nRows);
      }
    }

    /** `compile_reversible_circuit`: the packed lookup (col << l_bits) | l |-> row, compiled
        as an enumerated callable named "col_access_oracle". */
    method CompileReversibleCircuit() returns (r: Result<ReversibleCircuit, Error>)
      ensures r.Failure? <==> PackedOutcome(table, nCols, maxColNnz, nRows).Some?
      ensures r.Failure? ==> r.error == PackedOutcome(table, nCols, maxColNnz, nRows).value
      ensures r.Success? ==>
        var inBits := InBits(nCols, maxColNnz);
        var form := PackedForm(table, inBits, BitsForRange(maxColNnz), BitsForRange(nRows),
                               "col_access_oracle");
        && fresh(r.value)
        && r.value.nInputBits == inBits && r.value.nOutputBits == BitsForRange(nRows)
        && r.value.operations == LutOps(form.Enumerated())
        && r.value.metadata == map["source" := "col_access_oracle" + "_enumerated", "method" := "sum_of_minterms"]
    {
      r := CompilePacked(table, nCols, maxColNnz, nRows, "col_access_oracle");
    }
  }
}
