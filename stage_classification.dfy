/**
 * The table steps of the stage-classification script: the expression
 * matrix is cut down to the staged samples, the differential-expression
 * (DE) results are given an `absLog2FC` column, filtered by fold change
 * and adjusted p-value and sorted, and the expression rows kept as
 * features are those of the DE genes and of a fixed list of proton
 * transporters.
 */
module StageClassification {
  import opened Wrappers
  import opened Tables
  import opened BarcodeStage

  const DeLog2FoldChangeMin: real := 2.0
  const DePadjMax: real := 0.001

  /** The transporter genes always kept as features ("AQP7" is listed twice). */
  const ProtonTransporters: seq<string> := [
    "ATP6V0A1", "ATP6V1H", "CA11", "CA12", "AQP6", "ATP6V1D", "AQP8", "AQP9", "CA2", "ATP6V0A4",
    "CA9", "TCIRG1", "ATP6V0E1", "ATP6V1A", "ATP6V1B1", "ATP6V0B", "CA14", "ATP6V1F", "ATP6V1E1",
    "CA6", "CA1", "ATP6V1G1", "AQP10", "ATP6V1C2", "ATP6V1B2", "ATP6V0D2", "ATP6V1G3", "CA10",
    "ATP6V1C1", "ATP6V0D1", "AQP5", "CA3", "AQP7", "AQP7", "AQP3", "CA4", "AQP2", "CA7", "CA5B",
    "ATP6V0E2", "AQP4", "CA5A", "AQP11", "CA8", "AQP12A", "CA13", "AQP12B", "ATP6V0A2", "ATP6V0C",
    "ATP6V1G2", "AQP1", "ATP6V1E2", "AL845331.2", "SLC4A1", "SLC4A7", "SLC4A8", "SLC9A7", "SLC9A3",
    "SLC4A4", "SLC4A11", "SLC9A1", "SLC26A4", "SLC26A3", "SLC26A8", "SLC4A9", "SLC4A3", "SLC9A2",
    "SLC26A10", "SLC9A5", "SLC16A3", "SLC4A10", "SLC26A1", "SLC16A2", "SLC26A7", "SLC16A1",
    "SLC26A2", "SLC4A1AP", "SLC4A2", "SLC16A4", "SLC26A5", "SLC26A9", "SLC9A4", "SLC26A11",
    "SLC4A5", "SLC9A6", "SLC26A6"]

  const Log2FoldChange: string := "log2FoldChange"
  const Padj: string := "padj"
  const AbsLog2FC: string := "absLog2FC"

  // ---------------------------------------------------------------------
  // Samples: `geneExp[projStage["barcode"]]`

  function StageBarcodes(projStage: seq<StageRow>): seq<string> {
    seq(|projStage|, i requires 0 <= i < |projStage| => projStage[i].barcode)
  }

  /**
   * The expression matrix with one column per row of `projStage`, in that
   * order and duplicates included, or a KeyError: one naming each barcode
   * that is not a sample of the matrix once, or, when none of them is, one
   * quoting all of them.
   */
  function StagedSamples(geneExp: Table, projStage: seq<StageRow>): (r: Result<Table, Error>)
    requires Rectangular(geneExp) && NoDup(geneExp.columns)
    ensures r.Failure? <==> exists k :: 0 <= k < |projStage| && projStage[k].barcode !in geneExp.columns
    ensures r.Failure? && (forall k :: 0 <= k < |projStage| ==> projStage[k].barcode !in geneExp.columns) ==>
      r.error == NoneOfKeyError(StageBarcodes(projStage))
    ensures r.Failure? && (exists k :: 0 <= k < |projStage| && projStage[k].barcode in geneExp.columns) ==>
      r.error == KeyError(Missing(StageBarcodes(projStage), geneExp.columns))
    ensures r.Success? ==>
      && Rectangular(r.value) && |r.value.columns| == |projStage|
      && Labels(r.value) == Labels(geneExp)
      && forall k :: 0 <= k < |projStage| ==>
           && r.value.columns[k] == projStage[k].barcode
           && forall i :: 0 <= i < |geneExp.rows| ==>
                r.value.rows[i].cells[k] == Lookup(geneExp.rows[i], geneExp.columns, projStage[k].barcode)
  {
    var names := StageBarcodes(projStage);
    assert forall k :: 0 <= k < |projStage| ==> names[k] == projStage[k].barcode;
    assert forall n :: n in names ==> exists k :: 0 <= k < |projStage| && projStage[k].barcode == n;
    SelectColumns(geneExp, names)
  }

  /**
   * A KeyError names a missing barcode once, however often it is listed:
   * stage rows for `b1`, `b` and `b` again, with `b` not a sample, give
   * KeyError([b]).
   */
  lemma MissingBarcodeOnce(geneExp: Table, b1: string, b: string, s1: string, s2: string, s3: string)
    requires Rectangular(geneExp) && NoDup(geneExp.columns)
    requires b1 in geneExp.columns && b !in geneExp.columns
    ensures StagedSamples(geneExp, [StageRow(b1, s1), StageRow(b, s2), StageRow(b, s3)]) == Failure(KeyError([b]))
  {
    var projStage := [StageRow(b1, s1), StageRow(b, s2), StageRow(b, s3)];
    assert projStage[1].barcode !in geneExp.columns && projStage[0].barcode in geneExp.columns;
    var names := StageBarcodes(projStage);
    assert names == [b1, b, b];
    assert b1 != b;
    assert [b1][..0] == [] && FirstSeen([b1]) == [b1];
    assert [b1, b][..1] == [b1] && FirstSeen([b1, b]) == [b1, b];
    assert names[..2] == [b1, b] && FirstSeen(names) == [b1, b];
    assert Filter([b], NotIn(geneExp.columns)) == [b];
  }

  /** Two stage rows with the same barcode select that sample twice. */
  lemma SameSampleTwice(geneExp: Table, b: string, s1: string, s2: string)
    requires Rectangular(geneExp) && NoDup(geneExp.columns) && b in geneExp.columns
    ensures var r := StagedSamples(geneExp, [StageRow(b, s1), StageRow(b, s2)]);
      && r.Success? && r.value.columns == [b, b]
      && forall i :: 0 <= i < |geneExp.rows| ==>
           r.value.rows[i].cells == [Lookup(geneExp.rows[i], geneExp.columns, b), Lookup(geneExp.rows[i], geneExp.columns, b)]
  {
    var projStage := [StageRow(b, s1), StageRow(b, s2)];
    var r := StagedSamples(geneExp, projStage);
    assert r.Success?;
    assert r.value.columns == [b, b];
  }

  /**
   * A barcode annotated "stage 1/2" is one sample that becomes two
   * identical columns of the matrix, one for stage i and one for stage ii.
   */
  lemma SampleInTwoStages(b: string, project: string, geneExp: Table)
    requires Rectangular(geneExp) && NoDup(geneExp.columns) && b in geneExp.columns
    ensures var projStage := GetBarcodeStage([Annotation(b, project, "Primary Tumor", Some("stage 1/2"))], project);
      && projStage.Success?
      && var r := StagedSamples(geneExp, projStage.value);
      && r.Success? && r.value.columns == [b, b]
      && forall i :: 0 <= i < |geneExp.rows| ==>
           r.value.rows[i].cells == [Lookup(geneExp.rows[i], geneExp.columns, b), Lookup(geneExp.rows[i], geneExp.columns, b)]
  {
    NoDeduplication(b, project);
    SameSampleTwice(geneExp, b, "i", "ii");
  }

  // ---------------------------------------------------------------------
  // `geneDE["absLog2FC"] = geneDE["log2FoldChange"].abs()`

  /** No cell of the column is text (text makes `abs` raise a TypeError). */
  predicate NoText(cells: seq<Cell>) {
    forall i :: 0 <= i < |cells| ==> !cells[i].Str?
  }

  function AbsCell(c: Cell): Cell {
    match c
    case Num(v) => Num(if v < 0.0 then -v else v)
    case _ => NA
  }

  function AbsColumn(cells: seq<Cell>): (r: seq<Cell>)
    ensures |r| == |cells|
  {
    seq(|cells|, i requires 0 <= i < |cells| => AbsCell(cells[i]))
  }

  /** `a` is the absolute value of `x`; a missing value stays missing. */
  predicate IsAbs(a: Cell, x: Cell) {
    || (x.NA? && a.NA?)
    || (x.Num? && a.Num? && a.value >= 0.0 && (a.value == x.value || a.value == -x.value))
  }

  const BadAbsOperand: string := "bad operand type for abs(): 'str'"

  /** The DE table with the derived `absLog2FC` column, or the exception the derivation raises. */
  function WithAbsLog2FC(t: Table): (r: Result<Table, Error>)
    requires Rectangular(t)
    ensures r.Failure? <==> Log2FoldChange !in t.columns || !NoText(Column(t, Log2FoldChange))
    ensures r.Failure? ==>
      r.error == if Log2FoldChange !in t.columns then KeyError([Log2FoldChange]) else TypeError(BadAbsOperand)
    ensures r.Success? ==>
      && Rectangular(r.value) && Labels(r.value) == Labels(t)
      && r.value.columns == (if AbsLog2FC in t.columns then t.columns else t.columns + [AbsLog2FC])
      && (forall c :: c in t.columns && c != AbsLog2FC ==> Column(r.value, c) == Column(t, c))
      && forall i :: 0 <= i < |t.rows| ==> IsAbs(Column(r.value, AbsLog2FC)[i], Column(t, Log2FoldChange)[i])
  {
    if Log2FoldChange !in t.columns then Failure(KeyError([Log2FoldChange]))
    else if !NoText(Column(t, Log2FoldChange)) then Failure(TypeError(BadAbsOperand))
    else Success(WithColumn(t, AbsLog2FC, AbsColumn(Column(t, Log2FoldChange))))
  }

  /** The same step on the caller's frame, which it changes in place when it succeeds. */
  method AddAbsLog2FC(geneDE: Frame) returns (err: Option<Error>)
    requires Rectangular(geneDE.Value())
    modifies geneDE
    ensures var r := WithAbsLog2FC(old(geneDE.Value()));
      && err == (if r.Failure? then Some(r.error) else None)
      && geneDE.Value() == if r.Success? then r.value else old(geneDE.Value())
  {
    var t := geneDE.Value();
    if Log2FoldChange !in t.columns {
      return Some(KeyError([Log2FoldChange]));
    }
    var x := Column(t, Log2FoldChange);
    if !NoText(x) {
      return Some(TypeError(BadAbsOperand));
    }
    geneDE.SetColumn(AbsLog2FC, AbsColumn(x));
    err := None;
  }

  // ---------------------------------------------------------------------
  // `geneDE[(geneDE["absLog2FC"] >= 2) & (geneDE["padj"] <= 0.001)]`

  /** The cell of column `name`, or NA when the row has no such column. */
  function Get(row: Row, columns: seq<string>, name: string): Cell {
    if |row.cells| == |columns| && name in columns then Lookup(row, columns, name) else NA
  }

  /** The mask: both values present, a large enough fold change and a small enough p-value. */
  function Significant(columns: seq<string>): Row -> bool {
    (row: Row) =>
      && Get(row, columns, AbsLog2FC).Num? && Get(row, columns, AbsLog2FC).value >= DeLog2FoldChangeMin
      && Get(row, columns, Padj).Num? && Get(row, columns, Padj).value <= DePadjMax
  }

  const BadPadjOperand: string := "'<=' not supported between instances of 'str' and 'float'"

  /** The significant DE rows, in their order, or the exception the mask raises. */
  function FilterDe(t: Table): (r: Result<Table, Error>)
    requires Rectangular(t) && AbsLog2FC in t.columns
    ensures r.Failure? <==> Padj !in t.columns || !NoText(Column(t, Padj))
    ensures r.Failure? ==>
      r.error == if Padj !in t.columns then KeyError([Padj]) else TypeError(BadPadjOperand)
    ensures r.Success? ==>
      && Rectangular(r.value) && r.value.columns == t.columns
      && forall row :: row in r.value.rows <==>
           && row in t.rows
           && Lookup(row, t.columns, AbsLog2FC).Num? && Lookup(row, t.columns, AbsLog2FC).value >= 2.0
           && Lookup(row, t.columns, Padj).Num? && Lookup(row, t.columns, Padj).value <= 0.001
  {
    if Padj !in t.columns then Failure(KeyError([Padj]))
    else if !NoText(Column(t, Padj)) then Failure(TypeError(BadPadjOperand))
    else Success(FilterRows(t, Significant(t.columns)))
  }

  /** The kept rows are the significant rows at increasing positions of the input. */
  lemma FilterDeKeepsOrder(t: Table)
    requires Rectangular(t) && AbsLog2FC in t.columns && FilterDe(t).Success?
    ensures var rows := FilterDe(t).value.rows;
      var ks := KeptIndices(t.rows, Significant(t.columns));
      && |rows| == |ks|
      && (forall k :: 0 <= k < |ks| ==> ks[k] < |t.rows| && rows[k] == t.rows[ks[k]])
      && (forall k, l :: 0 <= k < l < |ks| ==> ks[k] < ks[l])
  {
    FilterIsSubsequence(t.rows, Significant(t.columns));
  }

  // ---------------------------------------------------------------------
  // `geneDE.sort_values(["padj", "absLog2FC"], ascending=[True, False])`

  /** The two sort keys of a row; a missing or non-numeric value is `None`. */
  datatype SortKey = SortKey(padj: Option<real>, absLog2FC: Option<real>)

  function NumValue(c: Cell): Option<real> {
    if c.Num? then Some(c.value) else None
  }

  function KeyOf(columns: seq<string>, row: Row): SortKey {
    SortKey(NumValue(Get(row, columns, Padj)), NumValue(Get(row, columns, AbsLog2FC)))
  }

  /** Ascending, missing values last. */
  predicate AscBefore(a: Option<real>, b: Option<real>) {
    a.Some? && (b.None? || a.value < b.value)
  }

  /** Descending, missing values last. */
  predicate DescBefore(a: Option<real>, b: Option<real>) {
    a.Some? && (b.None? || a.value > b.value)
  }

  /** `x` sorts strictly before `y`: smaller `padj`, then larger `absLog2FC`. */
  predicate Before(x: SortKey, y: SortKey) {
    || AscBefore(x.padj, y.padj)
    || (x.padj == y.padj && DescBefore(x.absLog2FC, y.absLog2FC))
  }

  /** `Before` is a strict total order on keys. */
  lemma BeforeIsStrictTotalOrder(x: SortKey, y: SortKey, z: SortKey)
    ensures !Before(x, x)
    ensures Before(x, y) ==> !Before(y, x)
    ensures Before(x, y) && Before(y, z) ==> Before(x, z)
    ensures !Before(x, y) && !Before(y, x) ==> x == y
  {
  }

  /** "Not after" is transitive. */
  lemma NotAfterTransitive(x: SortKey, y: SortKey, z: SortKey)
    requires !Before(y, x) && !Before(z, y)
    ensures !Before(z, x)
  {
    BeforeIsStrictTotalOrder(x, y, z);
    BeforeIsStrictTotalOrder(z, x, y);
  }

  /** No row sorts strictly before an earlier one. */
  predicate SortedBy(columns: seq<string>, s: seq<Row>) {
    forall i, j :: 0 <= i < j < |s| ==> !Before(KeyOf(columns, s[j]), KeyOf(columns, s[i]))
  }

  /** Put `x` in front of the first row that does not sort strictly before it. */
  function Insert(columns: seq<string>, x: Row, s: seq<Row>): seq<Row> {
    if |s| == 0 || !Before(KeyOf(columns, s[0]), KeyOf(columns, x)) then [x] + s
    else [s[0]] + Insert(columns, x, s[1..])
  }

  /**
   * A stable insertion sort by `KeyOf`: the result is a permutation of the
   * rows, ordered by `padj` ascending and ties by `absLog2FC` descending.
   */
  function SortRows(columns: seq<string>, s: seq<Row>): (r: seq<Row>)
    ensures multiset(r) == multiset(s)
    ensures SortedBy(columns, r)
  {
    if |s| == 0 then []
    else
      var rest := SortRows(columns, s[1..]);
      InsertPermutation(columns, s[0], rest);
      InsertSorted(columns, s[0], rest);
      assert s == [s[0]] + s[1..];
      Insert(columns, s[0], rest)
  }

  lemma {:induction false} InsertPermutation(columns: seq<string>, x: Row, s: seq<Row>)
    ensures multiset(Insert(columns, x, s)) == multiset(s) + multiset{x}
  {
    if |s| > 0 && Before(KeyOf(columns, s[0]), KeyOf(columns, x)) {
      InsertPermutation(columns, x, s[1..]);
      assert s == [s[0]] + s[1..];
    }
  }

  lemma {:induction false} InsertSorted(columns: seq<string>, x: Row, s: seq<Row>)
    requires SortedBy(columns, s)
    ensures SortedBy(columns, Insert(columns, x, s))
  {
    var r := Insert(columns, x, s);
    if |s| == 0 {
    } else if !Before(KeyOf(columns, s[0]), KeyOf(columns, x)) {
      forall j | 1 <= j < |r| ensures !Before(KeyOf(columns, r[j]), KeyOf(columns, x)) {
        assert r[j] == s[j - 1];
        if j > 1 {
          NotAfterTransitive(KeyOf(columns, x), KeyOf(columns, s[0]), KeyOf(columns, s[j - 1]));
        }
      }
    } else {
      var rest := Insert(columns, x, s[1..]);
      InsertSorted(columns, x, s[1..]);
      InsertPermutation(columns, x, s[1..]);
      BeforeIsStrictTotalOrder(KeyOf(columns, s[0]), KeyOf(columns, x), KeyOf(columns, x));
      forall j | 0 <= j < |rest| ensures !Before(KeyOf(columns, rest[j]), KeyOf(columns, s[0])) {
        assert rest[j] in multiset(rest);
        if rest[j] != x {
          assert rest[j] in s[1..];
        }
      }
      assert r == [s[0]] + rest;
    }
  }

  /** The predicate "has sort key `k`". */
  function HasKey(columns: seq<string>, k: SortKey): Row -> bool {
    (row: Row) => KeyOf(columns, row) == k
  }

  lemma {:induction false} InsertStable(columns: seq<string>, x: Row, s: seq<Row>, k: SortKey)
    ensures Filter(Insert(columns, x, s), HasKey(columns, k))
      == (if KeyOf(columns, x) == k then [x] else []) + Filter(s, HasKey(columns, k))
  {
    var p := HasKey(columns, k);
    if |s| == 0 || !Before(KeyOf(columns, s[0]), KeyOf(columns, x)) {
      FilterAppend([x], s, p);
    } else {
      InsertStable(columns, x, s[1..], k);
      BeforeIsStrictTotalOrder(KeyOf(columns, s[0]), KeyOf(columns, x), KeyOf(columns, x));
      FilterAppend([s[0]], Insert(columns, x, s[1..]), p);
      FilterAppend([s[0]], s[1..], p);
      assert s == [s[0]] + s[1..];
    }
  }

  /** Stability: the rows with equal keys keep their input order. */
  lemma {:induction false} SortStable(columns: seq<string>, s: seq<Row>, k: SortKey)
    ensures Filter(SortRows(columns, s), HasKey(columns, k)) == Filter(s, HasKey(columns, k))
  {
    if |s| > 0 {
      SortStable(columns, s[1..], k);
      InsertStable(columns, s[0], SortRows(columns, s[1..]), k);
      FilterAppend([s[0]], s[1..], HasKey(columns, k));
      assert s == [s[0]] + s[1..];
    }
  }

  /** The DE table with its rows sorted. */
  function SortDe(t: Table): (r: Table)
    requires Rectangular(t)
    ensures Rectangular(r) && r.columns == t.columns
    ensures multiset(r.rows) == multiset(t.rows)
    ensures SortedBy(t.columns, r.rows)
  {
    var rows := SortRows(t.columns, t.rows);
    assert forall i :: 0 <= i < |rows| ==> rows[i] in multiset(t.rows);
    Table(t.columns, rows)
  }

  // ---------------------------------------------------------------------
  // Lines 46-49 together

  /**
   * The derived, filtered and sorted DE table, or the first exception
   * raised: a missing or textual `log2FoldChange` column fails the
   * derivation, then a missing or textual `padj` column fails the mask.
   */
  function SelectDe(geneDE: Table): (r: Result<Table, Error>)
    requires Rectangular(geneDE)
    ensures r.Failure? <==>
      || Log2FoldChange !in geneDE.columns || Padj !in geneDE.columns
      || !NoText(Column(geneDE, Log2FoldChange)) || !NoText(Column(geneDE, Padj))
    ensures r.Failure? ==>
      r.error == if Log2FoldChange !in geneDE.columns then KeyError([Log2FoldChange])
                 else if !NoText(Column(geneDE, Log2FoldChange)) then TypeError(BadAbsOperand)
                 else if Padj !in geneDE.columns then KeyError([Padj])
                 else TypeError(BadPadjOperand)
    ensures r.Success? ==>
      r.value.columns == if AbsLog2FC in geneDE.columns then geneDE.columns else geneDE.columns + [AbsLog2FC]
  {
    var derived := WithAbsLog2FC(geneDE);
    if derived.Failure? then Failure(derived.error)
    else
      var kept := FilterDe(derived.value);
      if kept.Failure? then kept else Success(SortDe(kept.value))
  }

  /**
   * The selected DE genes: every row has a fold change of at least 2 in
   * absolute value and an adjusted p-value of at most 0.001; the rows are
   * ordered by p-value, then by decreasing fold change; and they are
   * exactly the significant rows of the derived table, each as often.
   */
  lemma SelectedDeGenes(geneDE: Table)
    requires Rectangular(geneDE) && SelectDe(geneDE).Success?
    ensures var derived := WithAbsLog2FC(geneDE).value;
      var r := SelectDe(geneDE).value;
      && r.columns == derived.columns
      && multiset(r.rows) == multiset(Filter(derived.rows, Significant(derived.columns)))
      && (forall i :: 0 <= i < |r.rows| ==>
            && Lookup(r.rows[i], r.columns, AbsLog2FC).Num? && Lookup(r.rows[i], r.columns, AbsLog2FC).value >= 2.0
            && Lookup(r.rows[i], r.columns, Padj).Num? && Lookup(r.rows[i], r.columns, Padj).value <= 0.001)
      && forall i, j :: 0 <= i < j < |r.rows| ==>
           var pi, pj := Lookup(r.rows[i], r.columns, Padj).value, Lookup(r.rows[j], r.columns, Padj).value;
           && pi <= pj
           && (pi == pj ==> Lookup(r.rows[i], r.columns, AbsLog2FC).value >= Lookup(r.rows[j], r.columns, AbsLog2FC).value)
  {
    var derived := WithAbsLog2FC(geneDE).value;
    var kept := FilterDe(derived).value;
    var r := SelectDe(geneDE).value;
    assert r.rows == SortRows(kept.columns, kept.rows);
    forall i | 0 <= i < |r.rows|
      ensures Lookup(r.rows[i], r.columns, AbsLog2FC).Num? && Lookup(r.rows[i], r.columns, AbsLog2FC).value >= 2.0
      ensures Lookup(r.rows[i], r.columns, Padj).Num? && Lookup(r.rows[i], r.columns, Padj).value <= 0.001
      ensures KeyOf(r.columns, r.rows[i])
        == SortKey(Some(Lookup(r.rows[i], r.columns, Padj).value), Some(Lookup(r.rows[i], r.columns, AbsLog2FC).value))
    {
      assert r.rows[i] in multiset(kept.rows);
    }
  }

  // ---------------------------------------------------------------------
  // Features: `geneExp[geneExp.index.isin(set(geneDE.index.tolist() + PROTON_TRANSPORTERS))]`

  /** The set of gene labels kept as features. */
  function FeatureGenes(geneDE: Table): set<Cell> {
    (set i | 0 <= i < |geneDE.rows| :: geneDE.rows[i].index) + (set g | g in ProtonTransporters :: Str(g))
  }

  /** The predicate "the row's label is one of `genes`". */
  function LabelIn(genes: set<Cell>): Row -> bool {
    (row: Row) => row.index in genes
  }

  /** The expression rows of the DE genes and of the transporters. */
  function SelectFeatures(geneExp: Table, geneDE: Table): (r: Table)
    requires Rectangular(geneExp)
    ensures Rectangular(r) && r.columns == geneExp.columns
    ensures forall row :: row in r.rows <==>
      && row in geneExp.rows
      && (row.index in Labels(geneDE) || (row.index.Str? && row.index.text in ProtonTransporters))
  {
    var genes := FeatureGenes(geneDE);
    assert forall c :: c in genes <==> c in Labels(geneDE) || (c.Str? && c.text in ProtonTransporters) by {
      forall c ensures c in genes <==> c in Labels(geneDE) || (c.Str? && c.text in ProtonTransporters) {
        if c in Labels(geneDE) {
          var i :| 0 <= i < |geneDE.rows| && Labels(geneDE)[i] == c;
          assert geneDE.rows[i].index == c;
        }
        if i :| 0 <= i < |geneDE.rows| && geneDE.rows[i].index == c {
          assert Labels(geneDE)[i] == c;
        }
        if c.Str? && c.text in ProtonTransporters {
          assert Str(c.text) == c;
        }
      }
    }
    FilterRows(geneExp, LabelIn(genes))
  }

  /** The kept rows stay in expression-matrix order. */
  lemma FeaturesKeepOrder(geneExp: Table, geneDE: Table)
    requires Rectangular(geneExp)
    ensures var rows := SelectFeatures(geneExp, geneDE).rows;
      var ks := KeptIndices(geneExp.rows, LabelIn(FeatureGenes(geneDE)));
      && |rows| == |ks|
      && (forall k :: 0 <= k < |ks| ==> ks[k] < |geneExp.rows| && rows[k] == geneExp.rows[ks[k]])
      && (forall k, l :: 0 <= k < l < |ks| ==> ks[k] < ks[l])
  {
    FilterIsSubsequence(geneExp.rows, LabelIn(FeatureGenes(geneDE)));
  }

  /**
   * Only the set of DE labels matters: two DE tables with the same labels,
   * in any order, repeated any number of times and with any other cells,
   * select the same features.
   */
  lemma FeaturesIgnoreDeOrder(geneExp: Table, a: Table, b: Table)
    requires Rectangular(geneExp) && forall c :: c in Labels(a) <==> c in Labels(b)
    ensures SelectFeatures(geneExp, a) == SelectFeatures(geneExp, b)
  {
    assert FeatureGenes(a) == FeatureGenes(b) by {
      forall c | c in FeatureGenes(a) ensures c in FeatureGenes(b) {
        if i :| 0 <= i < |a.rows| && a.rows[i].index == c {
          assert Labels(a)[i] == c && c in Labels(a) && c in Labels(b);
          var j :| 0 <= j < |b.rows| && Labels(b)[j] == c;
        }
      }
      forall c | c in FeatureGenes(b) ensures c in FeatureGenes(a) {
        if i :| 0 <= i < |b.rows| && b.rows[i].index == c {
          assert Labels(b)[i] == c && c in Labels(b) && c in Labels(a);
          var j :| 0 <= j < |a.rows| && Labels(a)[j] == c;
        }
      }
    }
  }

  /** Tables with the same rows, as a multiset, have the same labels. */
  lemma SameRowsSameLabels(a: Table, b: Table)
    requires multiset(a.rows) == multiset(b.rows)
    ensures forall c :: c in Labels(a) <==> c in Labels(b)
  {
    forall c | c in Labels(a) ensures c in Labels(b) {
      var i :| 0 <= i < |a.rows| && Labels(a)[i] == c;
      assert a.rows[i] in multiset(b.rows);
      var j :| 0 <= j < |b.rows| && b.rows[j] == a.rows[i];
      assert Labels(b)[j] == c;
    }
    forall c | c in Labels(b) ensures c in Labels(a) {
      var i :| 0 <= i < |b.rows| && Labels(b)[i] == c;
      assert b.rows[i] in multiset(a.rows);
      var j :| 0 <= j < |a.rows| && a.rows[j] == b.rows[i];
      assert Labels(a)[j] == c;
    }
  }

  /** So the features chosen from the sorted DE table are those of the unsorted one. */
  lemma SortDoesNotChangeFeatures(geneExp: Table, kept: Table)
    requires Rectangular(geneExp) && Rectangular(kept)
    ensures SelectFeatures(geneExp, SortDe(kept)) == SelectFeatures(geneExp, kept)
  {
    SameRowsSameLabels(SortDe(kept), kept);
    FeaturesIgnoreDeOrder(geneExp, SortDe(kept), kept);
  }
}
