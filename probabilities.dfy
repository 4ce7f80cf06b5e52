/**
 * The probability table `p` of `MarkovDB`: each row of counts turned into
 * part/whole ratios (`_generate_probabilities`). Ratios are exact reals here.
 */
module Ratios {
  import opened Dicts
  import opened Counts

  /** Source word -> following word -> probability. */
  type ProbabilityTable = map<Token, Dict<real>>

  /** A non-empty row of positive counts has a positive total. */
  lemma RowSumPositive(row: Dict<nat>)
    requires PositiveRow(row) && row.keys != []
    ensures RowSum(row) >= 1
  {
    SumOfAtLeastTerm(row.keys, row.at, AsInt, row.keys[0]);
  }

  /**
   * One row of `p`: every count divided by the row's total, keys in the row's
   * order. An empty row (which `d` never holds) gives an empty row.
   */
  function RowProbabilities(row: Dict<nat>): (r: Dict<real>)
    requires PositiveRow(row)
    ensures r.Valid() && r.keys == row.keys && r.at.Keys == row.at.Keys
  {
    if row.keys == [] then Dict(row.keys, map[])
    else
      RowSumPositive(row);
      var whole := RowSum(row) as real;
      Dict(row.keys, map c | c in row.at :: row.at[c] as real / whole)
  }

  /** `p`: the rows of `d`, each turned into probabilities. */
  function Probabilities(d: Table): (p: ProbabilityTable)
    requires Positive(d)
    ensures p.Keys == d.at.Keys
    ensures forall w :: w in p ==> p[w].Valid() && p[w].keys == d.at[w].keys && p[w].keys != []
  {
    map w | w in d.at :: RowProbabilities(d.at[w])
  }

  /**
   * The row of `p` while `_generate_probabilities` is filling it: the first `j`
   * candidates, each count divided by `whole`.
   */
  function PartialRow(row: Dict<nat>, whole: real, j: nat): Dict<real>
    requires row.Valid() && whole > 0.0 && j <= |row.keys|
  {
    Dict(row.keys[..j], map c | c in row.keys[..j] :: row.at[c] as real / whole)
  }

  /** The row starts out as the empty dictionary `{}`. */
  lemma PartialRowStart(row: Dict<nat>, whole: real)
    requires row.Valid() && whole > 0.0
    ensures PartialRow(row, whole, 0) == Empty()
  {
    assert row.keys[..0] == [];
  }

  /** Storing the next candidate's ratio extends the partial row by that candidate. */
  lemma PartialRowStep(row: Dict<nat>, whole: real, j: nat)
    requires row.Valid() && whole > 0.0 && j < |row.keys|
    ensures var c := row.keys[j];
      PartialRow(row, whole, j).Set(c, row.at[c] as real / whole) == PartialRow(row, whole, j + 1)
  {
    var c := row.keys[j];
    assert c !in row.keys[..j];
    assert row.keys[..j + 1] == row.keys[..j] + [c];
  }

  /** Once every candidate is stored, the partial row is the row of `p`. */
  lemma PartialRowDone(row: Dict<nat>)
    requires PositiveRow(row) && row.keys != []
    ensures RowSum(row) >= 1
    ensures PartialRow(row, RowSum(row) as real, |row.keys|) == RowProbabilities(row)
  {
    RowSumPositive(row);
    assert row.keys[..|row.keys|] == row.keys;
  }

  /** The rows of `p` that `_generate_probabilities` has stored after visiting `i` words of `d`. */
  function PartialTable(d: Table, i: nat): ProbabilityTable
    requires Positive(d) && i <= |d.keys|
  {
    map w | w in d.keys[..i] :: RowProbabilities(d.at[w])
  }

  /** Storing the next word's row extends the partial table by that word. */
  lemma PartialTableGrows(d: Table, i: nat)
    requires Positive(d) && i < |d.keys|
    ensures var w := d.keys[i];
      PartialTable(d, i)[w := RowProbabilities(d.at[w])] == PartialTable(d, i + 1)
  {
    assert d.keys[..i + 1] == d.keys[..i] + [d.keys[i]];
  }

  /** The same step over whatever `p` held before: an old row of that word is replaced. */
  lemma PartialTableStep(before: ProbabilityTable, d: Table, i: nat)
    requires Positive(d) && i < |d.keys|
    ensures var w := d.keys[i];
      (before + PartialTable(d, i))[w := RowProbabilities(d.at[w])] == before + PartialTable(d, i + 1)
  {
    var w := d.keys[i];
    PartialTableGrows(d, i);
    UnionUpdate(before, PartialTable(d, i), w, RowProbabilities(d.at[w]));
  }

  /** Updating a union updates its right-hand side. */
  lemma UnionUpdate<K, V>(a: map<K, V>, b: map<K, V>, k: K, v: V)
    ensures (a + b)[k := v] == a + b[k := v]
  {
  }

  /** Over an empty table, the union is the new table itself. */
  lemma UnionEmpty<K, V>(m: map<K, V>)
    ensures map[] + m == m
  {
  }

  /** Once every word is visited, the partial table is `p` over whatever was there before. */
  lemma PartialTableDone(before: ProbabilityTable, d: Table)
    requires Positive(d)
    ensures before + PartialTable(d, |d.keys|) == before + Probabilities(d)
  {
    assert d.keys[..|d.keys|] == d.keys;
    assert PartialTable(d, |d.keys|) == Probabilities(d);
  }

  /** In one row, each probability is the count over the row total, within (0, 1]. */
  lemma RowProbabilityOf(row: Dict<nat>, c: Token)
    requires PositiveRow(row) && c in row.at
    ensures RowSum(row) >= 1 && c in RowProbabilities(row).at
    ensures var q := RowProbabilities(row).at[c];
      q == row.at[c] as real / RowSum(row) as real && 0.0 < q <= 1.0
  {
    RowSumPositive(row);
    SumOfAtLeastTerm(row.keys, row.at, AsInt, c);
    var part, whole := row.at[c] as real, RowSum(row) as real;
    assert part / whole <= 1.0 by {
      assert part / whole * whole == part;
    }
  }

  /** The probabilities of a non-empty row add up to exactly 1. */
  lemma RowProbabilitiesSumToOne(row: Dict<nat>)
    requires PositiveRow(row) && row.keys != []
    ensures RealSum(row.keys, RowProbabilities(row).at) == 1.0
  {
    RowSumPositive(row);
    var whole := RowSum(row) as real;
    RealSumScaled(row.keys, row.at, RowProbabilities(row).at, whole);
    DivideBySelf(whole);
  }

  lemma DivideBySelf(x: real)
    requires x > 0.0
    ensures x / x == 1.0
  {
  }

  /**
   * `p[w][c]` is `d[w][c]` out of the row total `sum(d[w].values())`, and lies
   * in (0, 1].
   */
  lemma ProbabilityOfCell(d: Table, w: Token, c: Token)
    requires Positive(d) && w in d.at && c in d.at[w].at
    ensures c in Probabilities(d)[w].at && RowSum(d.at[w]) >= 1
    ensures var q := Probabilities(d)[w].at[c];
      q == Cell(d, w, c) as real / RowSum(d.at[w]) as real && 0.0 < q <= 1.0
  {
    RowProbabilityOf(d.at[w], c);
  }

  /** Every row of `p` sums to exactly 1. */
  lemma RowSumsToOne(d: Table, w: Token)
    requires Positive(d) && w in d.at
    ensures RealSum(Probabilities(d)[w].keys, Probabilities(d)[w].at) == 1.0
  {
    RowProbabilitiesSumToOne(d.at[w]);
  }
}
