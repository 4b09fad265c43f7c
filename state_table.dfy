/** The numbering of the rows of the table `get_all_state_tensor` builds: one
    row per (dealer sum `ds`, player sum `ps`, usable ace `ua`) in mixed radix
    `nDS`, `nPS`, `nPA`, with `ds` the most significant digit. */
module StateTable {
  import opened Arith

  /** The width of a state vector (`dimS`). */
  const DimS: nat := 13

  /** The row the triple loop writes for `(ds, ps, ua)`. */
  function RowIndex(nPS: nat, nPA: nat, ds: nat, ps: nat, ua: nat): nat
  {
    (ds * nPS + ps) * nPA + ua
  }

  /** What the finished table holds at `(row, col)`: the three digits of `row`
      in columns 0 to 2 and zero elsewhere. With `nPS` or `nPA` zero the table
      has no rows. */
  function Cell(nPS: nat, nPA: nat, row: nat, col: nat): int
  {
    if nPS == 0 || nPA == 0 || col >= 3 then 0
    else if col == 0 then (row / nPA) / nPS
    else if col == 1 then (row / nPA) % nPS
    else row % nPA
  }

  /** Every triple in range gets a row inside the table. */
  lemma RowIndexInRange(nDS: nat, nPS: nat, nPA: nat, ds: nat, ps: nat, ua: nat)
    requires ds < nDS && ps < nPS && ua < nPA
    ensures RowIndex(nPS, nPA, ds, ps, ua) < nDS * nPS * nPA
  {
    var a := ds * nPS + ps + 1;
    assert (ds + 1) * nPS == ds * nPS + nPS;
    MulMonotone(ds + 1, nDS, nPS);
    assert a <= nDS * nPS;
    assert a * nPA == (a - 1) * nPA + nPA;
    MulMonotone(a, nDS * nPS, nPA);
  }

  /** The row of a triple reads back as that triple. */
  lemma DecodeRowIndex(nPS: nat, nPA: nat, ds: nat, ps: nat, ua: nat)
    requires ps < nPS && ua < nPA
    ensures Cell(nPS, nPA, RowIndex(nPS, nPA, ds, ps, ua), 0) == ds
    ensures Cell(nPS, nPA, RowIndex(nPS, nPA, ds, ps, ua), 1) == ps
    ensures Cell(nPS, nPA, RowIndex(nPS, nPA, ds, ps, ua), 2) == ua
  {
    var row := RowIndex(nPS, nPA, ds, ps, ua);
    DivModUnique(row, ds * nPS + ps, ua, nPA);
    DivModUnique(ds * nPS + ps, ds, ps, nPS);
  }

  /** Every row is the row of the triple it holds. */
  lemma EncodeRowDigits(nPS: nat, nPA: nat, row: nat)
    requires nPS > 0 && nPA > 0
    ensures RowIndex(nPS, nPA, Cell(nPS, nPA, row, 0), Cell(nPS, nPA, row, 1), Cell(nPS, nPA, row, 2)) == row
  {
    var q := row / nPA;
    assert row == q * nPA + row % nPA;
    assert q == (q / nPS) * nPS + q % nPS;
  }

  /** No two rows of the table are equal: two rows agree in their first three
      columns only if they are the same row. */
  lemma RowsDistinct(nPS: nat, nPA: nat, row1: nat, row2: nat)
    requires nPS > 0 && nPA > 0
    requires forall col :: 0 <= col < 3 ==> Cell(nPS, nPA, row1, col) == Cell(nPS, nPA, row2, col)
    ensures row1 == row2
  {
    EncodeRowDigits(nPS, nPA, row1);
    EncodeRowDigits(nPS, nPA, row2);
    assert Cell(nPS, nPA, row1, 0) == Cell(nPS, nPA, row2, 0);
    assert Cell(nPS, nPA, row1, 1) == Cell(nPS, nPA, row2, 1);
    assert Cell(nPS, nPA, row1, 2) == Cell(nPS, nPA, row2, 2);
  }

  /** The row after the last one for player sum `ps` is the first one for `ps + 1`. */
  lemma NextPlayerSum(nPS: nat, nPA: nat, ds: nat, ps: nat)
    ensures RowIndex(nPS, nPA, ds, ps, nPA) == RowIndex(nPS, nPA, ds, ps + 1, 0)
  {
    assert (ds * nPS + ps + 1) * nPA == (ds * nPS + ps) * nPA + nPA;
  }

  /** The row after the last one for dealer sum `ds` is the first one for `ds + 1`. */
  lemma NextDealerSum(nPS: nat, nPA: nat, ds: nat)
    ensures RowIndex(nPS, nPA, ds, nPS, 0) == RowIndex(nPS, nPA, ds + 1, 0, 0)
  {
    assert (ds + 1) * nPS == ds * nPS + nPS;
  }

  /** Rows below `k` hold their digits and the others are still zero. */
  ghost predicate FilledBelow(table: array2<int>, nPS: nat, nPA: nat, k: nat)
    reads table
  {
    && table.Length1 == DimS
    && forall row, col :: 0 <= row < table.Length0 && 0 <= col < DimS ==>
         table[row, col] == if row < k then Cell(nPS, nPA, row, col) else 0
  }

  /** The innermost loop of `get_all_state_tensor`: writes the rows of every
      usable-ace flag for dealer sum `ds` and player sum `ps`, starting at row
      `k0`, and returns the next row to write. */
  method FillAceRows(table: array2<int>, nDS: nat, nPS: nat, nPA: nat, ds: nat, ps: nat, k0: nat) returns (k: nat)
    requires ds < nDS && ps < nPS
    requires table.Length0 == nDS * nPS * nPA
    requires k0 == RowIndex(nPS, nPA, ds, ps, 0) && FilledBelow(table, nPS, nPA, k0)
    modifies table
    ensures k == RowIndex(nPS, nPA, ds, ps + 1, 0) && FilledBelow(table, nPS, nPA, k)
  {
    k := k0;
    for ua := 0 to nPA
      invariant k == RowIndex(nPS, nPA, ds, ps, ua)
      invariant FilledBelow(table, nPS, nPA, k)
    {
      RowIndexInRange(nDS, nPS, nPA, ds, ps, ua);
      DecodeRowIndex(nPS, nPA, ds, ps, ua);
      table[k, 0] := ds;
      table[k, 1] := ps;
      table[k, 2] := ua;
      k := k + 1;
    }
    NextPlayerSum(nPS, nPA, ds, ps);
  }
}
