/**
 * FPKM_to_TPM: rescale every sample column of a gene-by-sample expression
 * matrix so that it sums to one million, by dividing each cell by its
 * column's sum and multiplying by 1e6.
 */
module Tpm {

  /** Rows are genes, columns are samples; `values[g][s]` is a cell. */
  datatype Matrix = Matrix(genes: seq<string>, samples: seq<string>, values: seq<seq<real>>)

  const Million: real := 1000000.0

  /** One row of values per gene, one value per sample in each row. */
  predicate WellFormed(m: Matrix) {
    && |m.values| == |m.genes|
    && forall g :: 0 <= g < |m.values| ==> |m.values[g]| == |m.samples|
  }

  /** `df.sum(axis=0)[s]`: the sum of column `s` over all rows. */
  function ColumnSum(values: seq<seq<real>>, s: nat): real
    requires forall g :: 0 <= g < |values| ==> s < |values[g]|
  {
    if |values| == 0 then 0.0
    else ColumnSum(values[..|values| - 1], s) + values[|values| - 1][s]
  }

  /** The precondition of a meaningful conversion: no sample sums to zero or less. */
  predicate PositiveColumnSums(m: Matrix)
    requires WellFormed(m)
  {
    forall s :: 0 <= s < |m.samples| ==> ColumnSum(m.values, s) > 0.0
  }

  /** `df.div(colSum, axis=1) * 1e+6`. */
  function FpkmToTpm(m: Matrix): (r: Matrix)
    requires WellFormed(m) && PositiveColumnSums(m)
    ensures WellFormed(r)
    ensures r.genes == m.genes && r.samples == m.samples
  {
    Matrix(m.genes, m.samples, seq(|m.values|, g requires 0 <= g < |m.values| =>
      seq(|m.samples|, s requires 0 <= s < |m.samples| =>
        m.values[g][s] / ColumnSum(m.values, s) * Million)))
  }

  /** Dividing every cell of a column by `d` and scaling by `c` does the same to its sum. */
  lemma {:induction false} ColumnSumScaled(a: seq<seq<real>>, b: seq<seq<real>>, s: nat, d: real, c: real)
    requires d != 0.0
    requires |a| == |b|
    requires forall g :: 0 <= g < |a| ==> s < |a[g]| && s < |b[g]| && b[g][s] == a[g][s] / d * c
    ensures ColumnSum(b, s) == ColumnSum(a, s) / d * c
  {
    if |a| > 0 {
      var n := |a| - 1;
      ColumnSumScaled(a[..n], b[..n], s, d, c);
      var x, y := ColumnSum(a[..n], s), a[n][s];
      assert x / d * c + y / d * c == (x + y) / d * c;
    }
  }

  /** Every TPM column sums to exactly one million. */
  lemma TpmColumnsSumToMillion(m: Matrix)
    requires WellFormed(m) && PositiveColumnSums(m)
    ensures forall s :: 0 <= s < |m.samples| ==> ColumnSum(FpkmToTpm(m).values, s) == Million
  {
    var r := FpkmToTpm(m);
    forall s | 0 <= s < |m.samples| ensures ColumnSum(r.values, s) == Million {
      var d := ColumnSum(m.values, s);
      ColumnSumScaled(m.values, r.values, s, d, Million);
      assert d / d == 1.0;
    }
  }

  /**
   * Within a sample, TPM keeps the ratio of any two genes (stated without
   * division, so it also covers zero cells) and the sign of every cell.
   */
  lemma TpmPreservesProportions(m: Matrix, g1: nat, g2: nat, s: nat)
    requires WellFormed(m) && PositiveColumnSums(m)
    requires g1 < |m.genes| && g2 < |m.genes| && s < |m.samples|
    ensures FpkmToTpm(m).values[g1][s] * m.values[g2][s] == FpkmToTpm(m).values[g2][s] * m.values[g1][s]
    ensures m.values[g2][s] != 0.0 ==>
      FpkmToTpm(m).values[g2][s] != 0.0 &&
      FpkmToTpm(m).values[g1][s] / FpkmToTpm(m).values[g2][s] == m.values[g1][s] / m.values[g2][s]
    ensures FpkmToTpm(m).values[g1][s] >= 0.0 <==> m.values[g1][s] >= 0.0
    ensures FpkmToTpm(m).values[g1][s] == 0.0 <==> m.values[g1][s] == 0.0
  {
    var r := FpkmToTpm(m);
    var d := ColumnSum(m.values, s);
    var c := Million / d;
    assert c > 0.0;
    var x1, x2 := m.values[g1][s], m.values[g2][s];
    assert r.values[g1][s] == x1 * c;
    assert r.values[g2][s] == x2 * c;
    assert (x1 * c) * x2 == (x2 * c) * x1;
    if x2 != 0.0 {
      assert (x1 * c) / (x2 * c) == x1 / x2;
    }
    assert x1 * c >= 0.0 <==> x1 >= 0.0;
  }

  /** Non-negative FPKM (the meaningful input) gives non-negative TPM. */
  lemma TpmNonNegative(m: Matrix)
    requires WellFormed(m) && PositiveColumnSums(m)
    requires forall g, s :: 0 <= g < |m.genes| && 0 <= s < |m.samples| ==> m.values[g][s] >= 0.0
    ensures forall g, s :: 0 <= g < |m.genes| && 0 <= s < |m.samples| ==> FpkmToTpm(m).values[g][s] >= 0.0
  {
    forall g, s | 0 <= g < |m.genes| && 0 <= s < |m.samples| ensures FpkmToTpm(m).values[g][s] >= 0.0 {
      TpmPreservesProportions(m, g, g, s);
    }
  }

  /** Converting a TPM matrix again changes nothing: its columns already sum to 1e6. */
  lemma TpmIdempotent(m: Matrix)
    requires WellFormed(m) && PositiveColumnSums(m)
    ensures PositiveColumnSums(FpkmToTpm(m))
    ensures FpkmToTpm(FpkmToTpm(m)) == FpkmToTpm(m)
  {
    var r := FpkmToTpm(m);
    TpmColumnsSumToMillion(m);
    var r2 := FpkmToTpm(r);
    forall g | 0 <= g < |r.values| ensures r2.values[g] == r.values[g] {
      forall s | 0 <= s < |r.samples| ensures r2.values[g][s] == r.values[g][s] {
        assert r2.values[g][s] == r.values[g][s] / Million * Million;
      }
    }
    assert r2.values == r.values;
  }
}
