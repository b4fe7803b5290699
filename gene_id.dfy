/**
 * convert_geneID: translate the gene IDs of a data frame from one
 * namespace to another through an ID-mapping table. The translation is an
 * inner join, not a dictionary lookup: one ID may give zero, one or many
 * output rows. The caller's frame is changed in place on the way (a copy
 * of the index becomes a column, and Ensembl version suffixes are
 * stripped off the key column).
 */
module GeneId {
  import opened Wrappers
  import opened Tables

  const EnsemblGeneId: string := "ensembl_gene_id"
  const ExternalGeneName: string := "external_gene_name"
  const Entrezgene: string := "entrezgene"

  // ---------------------------------------------------------------------
  // The Ensembl version suffix `\.\d*$`

  predicate IsDigit(c: char) {
    '0' <= c <= '9'
  }

  predicate AllDigits(s: string) {
    forall i :: 0 <= i < |s| ==> IsDigit(s[i])
  }

  /** The length of the longest run of digits that ends at position `k` of `s`. */
  function DigitRun(s: string, k: nat): (n: nat)
    requires k <= |s|
    ensures n <= k && forall j :: k - n <= j < k ==> IsDigit(s[j])
    ensures n < k ==> !IsDigit(s[k - n - 1])
  {
    if k > 0 && IsDigit(s[k - 1]) then DigitRun(s, k - 1) + 1 else 0
  }

  /** The length of the longest run of digits that ends `s`. */
  function TrailingDigits(s: string): (n: nat)
    ensures n <= |s| && AllDigits(s[|s| - n..])
    ensures n < |s| ==> !IsDigit(s[|s| - n - 1])
  {
    var n := DigitRun(s, |s|);
    assert forall j :: |s| - n <= j < |s| ==> s[|s| - n..][j - (|s| - n)] == s[j];
    n
  }

  /**
   * `\.\d*$` matches `s` from position `i` up to position `e`: a dot, then
   * only digits, then the end of the text or a final newline.
   */
  predicate VersionMatch(s: string, i: nat, e: nat) {
    && i < e <= |s| && s[i] == '.' && AllDigits(s[i + 1..e])
    && (e == |s| || (e == |s| - 1 && s[e] == '\n'))
  }

  /** Removes a final dot-and-digits from a text that has no final newline. */
  function StripAtEnd(w: string): string {
    var n := TrailingDigits(w);
    if n < |w| && w[|w| - n - 1] == '.' then w[..|w| - n - 1] else w
  }

  /**
   * `re.sub(r"\.\d*$", "", s)`, the per-element `str.replace` on the key
   * column: the text is unchanged, or one match of the pattern is cut out.
   */
  function StripVersion(s: string): (r: string)
    ensures |r| <= |s|
    ensures r == s || exists i: nat, e: nat :: VersionMatch(s, i, e) && r == s[..i] + s[e..]
  {
    StripShape(s);
    if |s| > 0 && s[|s| - 1] == '\n' then StripAtEnd(Body(s)) + "\n" else StripAtEnd(Body(s))
  }

  /** The text `StripVersion` computes is `s`, or `s` with one match cut out. */
  lemma StripShape(s: string)
    ensures var r := if |s| > 0 && s[|s| - 1] == '\n' then StripAtEnd(Body(s)) + "\n" else StripAtEnd(Body(s));
      |r| <= |s| && (r == s || exists i: nat, e: nat :: VersionMatch(s, i, e) && r == s[..i] + s[e..])
  {
    var w := Body(s);
    var n := TrailingDigits(w);
    var tail := if |s| > 0 && s[|s| - 1] == '\n' then "\n" else "";
    assert s == w + tail;
    if n < |w| && w[|w| - n - 1] == '.' {
      var i := |w| - n - 1;
      TrailingDotMatches(s);
      assert StripAtEnd(w) == w[..i] == s[..i];
      assert s[|w|..] == tail;
      assert VersionMatch(s, i, |w|) && StripAtEnd(w) + tail == s[..i] + s[|w|..];
    } else {
      assert StripAtEnd(w) + tail == s;
    }
  }

  /** The text without its final newline, if it has one. */
  function Body(s: string): string {
    if |s| > 0 && s[|s| - 1] == '\n' then s[..|s| - 1] else s
  }

  /** A match of the suffix pattern ends where the text's body ends. */
  lemma VersionMatchEnd(s: string, i: nat, e: nat)
    requires VersionMatch(s, i, e)
    ensures e == |Body(s)| && Body(s)[i + 1..] == s[i + 1..e]
  {
    if e == |s| && i < |s| - 1 {
      assert s[i + 1..e][|s| - 2 - i] == s[|s| - 1];
    }
  }

  /** A dot followed by nothing but digits sits just before the trailing digit run. */
  lemma DotBeforeTrailingDigits(w: string, i: nat)
    requires i < |w| && w[i] == '.' && AllDigits(w[i + 1..])
    ensures TrailingDigits(w) == |w| - i - 1
  {
    var n := TrailingDigits(w);
    assert forall j :: |w| - n <= j < |w| ==> IsDigit(w[j]) by {
      forall j | |w| - n <= j < |w| ensures IsDigit(w[j]) {
        assert w[|w| - n..][j - (|w| - n)] == w[j];
      }
    }
    assert forall j :: i < j < |w| ==> IsDigit(w[j]) by {
      forall j | i < j < |w| ensures IsDigit(w[j]) {
        assert w[i + 1..][j - i - 1] == w[j];
      }
    }
  }

  /** Where the pattern matches, the matched text is cut out. */
  lemma StripWhenMatched(s: string, i: nat, e: nat)
    requires VersionMatch(s, i, e)
    ensures StripVersion(s) == s[..i] + s[e..]
  {
    var w := Body(s);
    VersionMatchEnd(s, i, e);
    DotBeforeTrailingDigits(w, i);
    assert StripAtEnd(w) == s[..i];
    if w != s {
      assert s[e..] == "\n";
    }
  }

  /** A dot just before the trailing digits of the body is a match of the pattern. */
  lemma TrailingDotMatches(s: string)
    ensures var w := Body(s); var n := TrailingDigits(w);
      n < |w| && w[|w| - n - 1] == '.' ==> VersionMatch(s, |w| - n - 1, |w|)
  {
    var w := Body(s);
    var n := TrailingDigits(w);
    if n < |w| && w[|w| - n - 1] == '.' {
      var i := |w| - n - 1;
      assert w[i + 1..] == w[|w| - n..];
      assert s[i + 1..|w|] == w[i + 1..];
    }
  }

  /** Where the pattern does not match, the text is unchanged. */
  lemma StripWhenUnmatched(s: string)
    requires forall i: nat, e: nat :: !VersionMatch(s, i, e)
    ensures StripVersion(s) == s
  {
    var w := Body(s);
    TrailingDotMatches(s);
    assert w != s ==> w + "\n" == s;
  }

  /**
   * The strip against the regular-expression reading of the pattern: where
   * the pattern matches, the matched text is cut out; where it does not,
   * the text is unchanged.
   */
  lemma StripVersionSpec(s: string)
    ensures forall i: nat, e: nat :: VersionMatch(s, i, e) ==> StripVersion(s) == s[..i] + s[e..]
    ensures (forall i: nat, e: nat :: !VersionMatch(s, i, e)) ==> StripVersion(s) == s
  {
    forall i: nat, e: nat | VersionMatch(s, i, e) ensures StripVersion(s) == s[..i] + s[e..] {
      StripWhenMatched(s, i, e);
    }
    if forall i: nat, e: nat :: !VersionMatch(s, i, e) {
      StripWhenUnmatched(s);
    }
  }

  /** A versioned Ensembl ID loses its version: "ENSG001.3" becomes "ENSG001". */
  lemma StripVersionOf(base: string, d: string)
    requires AllDigits(d)
    ensures StripVersion(base + "." + d) == base
  {
    var s := base + "." + d;
    assert s[|base| + 1..|s|] == d;
    StripWhenMatched(s, |base|, |s|);
    assert s[..|base|] == base;
  }

  /** A text without a dot is left alone. */
  lemma StripWithoutDot(s: string)
    requires '.' !in s
    ensures StripVersion(s) == s
  {
    forall i: nat, e: nat ensures !VersionMatch(s, i, e) {
      if i < |s| {
        assert s[i] in s;
      }
    }
    StripWhenUnmatched(s);
  }

  /** Stripping a dot-free ID with one version twice is stripping it once. */
  lemma StripIdempotentOnEnsemblIds(base: string, d: string)
    requires '.' !in base && AllDigits(d)
    ensures StripVersion(StripVersion(base + "." + d)) == StripVersion(base + "." + d)
  {
    StripVersionOf(base, d);
    StripWithoutDot(base);
  }

  /** In general the strip is not idempotent: each pass removes one suffix. */
  lemma StripNotIdempotent()
    ensures StripVersion("a.1.2") == "a.1"
    ensures StripVersion(StripVersion("a.1.2")) == "a"
  {
    StripVersionOf("a.1", "2");
    assert "a.1" + "." + "2" == "a.1.2";
    StripVersionOf("a", "1");
    assert "a" + "." + "1" == "a.1";
  }

  /** The strip applied to one cell: missing and non-text cells become missing. */
  function StripCell(c: Cell): Cell {
    match c
    case Str(s) => Str(StripVersion(s))
    case _ => NA
  }

  function StripColumn(cells: seq<Cell>): (r: seq<Cell>)
    ensures |r| == |cells|
  {
    seq(|cells|, i requires 0 <= i < |cells| => StripCell(cells[i]))
  }

  // ---------------------------------------------------------------------
  // The steps of the conversion

  /**
   * The argument checks, in the order they are made: `None` exactly when
   * the key column is "index" or a column of `df`, both IDs are columns of
   * the map, and the map has an `entrezgene` column if only protein-coding
   * genes are wanted.
   */
  function CheckArguments(df: Table, geneIDMap: Table, colName: string, fromID: string, toID: string,
                          proteinCodingOnly: bool): (r: Option<Error>)
    ensures r.None? <==>
      && (colName == "index" || colName in df.columns)
      && fromID in geneIDMap.columns && toID in geneIDMap.columns
      && (proteinCodingOnly ==> Entrezgene in geneIDMap.columns)
    ensures r.Some? && r.value.KeyError? ==> r.value == KeyError([Entrezgene])
  {
    if colName !in ["index"] + df.columns then Some(AssertionError(colName + " not found in df."))
    else if fromID !in geneIDMap.columns then Some(AssertionError(fromID + " not found in geneIDMap."))
    else if toID !in geneIDMap.columns then Some(AssertionError(toID + " not found in geneIDMap."))
    else if proteinCodingOnly && Entrezgene !in geneIDMap.columns then Some(KeyError([Entrezgene]))
    else None
  }

  /** The predicate "the row's `entrezgene` cell is not missing". */
  function HasEntrez(columns: seq<string>): Row -> bool {
    (row: Row) => Entrezgene in columns && |row.cells| == |columns| && Lookup(row, columns, Entrezgene) != NA
  }

  /** `geneIDMap[~geneIDMap["entrezgene"].isna()]` when only protein-coding genes are wanted. */
  function MapRows(geneIDMap: Table, proteinCodingOnly: bool): (r: Table)
    requires Rectangular(geneIDMap)
    ensures Rectangular(r) && r.columns == geneIDMap.columns
  {
    if proteinCodingOnly then FilterRows(geneIDMap, HasEntrez(geneIDMap.columns))
    else geneIDMap
  }

  /** `geneIDMap[[fromID, toID]]` of the (possibly filtered) map. */
  function IdMap(geneIDMap: Table, fromID: string, toID: string, proteinCodingOnly: bool): (r: Table)
    requires Rectangular(geneIDMap) && NoDup(geneIDMap.columns)
    requires fromID in geneIDMap.columns && toID in geneIDMap.columns
    ensures Rectangular(r) && r.columns == [fromID, toID]
    ensures Column(r, fromID) == Column(MapRows(geneIDMap, proteinCodingOnly), fromID)
    ensures Column(r, toID) == Column(MapRows(geneIDMap, proteinCodingOnly), toID)
  {
    SelectColumns(MapRows(geneIDMap, proteinCodingOnly), [fromID, toID]).value
  }

  /**
   * The join keys of `df`'s rows: the index when `colName` is "index",
   * otherwise the column, with version suffixes stripped when translating
   * from Ensembl IDs.
   */
  function SourceKeys(df: Table, colName: string, fromID: string): (keys: seq<Cell>)
    requires Rectangular(df) && colName in ["index"] + df.columns
    ensures |keys| == |df.rows|
  {
    var raw := if colName == "index" then Labels(df) else Column(df, colName);
    if fromID == EnsemblGeneId then StripColumn(raw) else raw
  }

  /** The caller's frame after `df["index"] = df.index` and the in-place strip. */
  function PreparedFrame(df: Table, colName: string, fromID: string): (r: Table)
    requires Rectangular(df) && colName in ["index"] + df.columns
    ensures Rectangular(r) && colName in r.columns
  {
    var t := if colName == "index" then WithColumn(df, "index", Labels(df)) else df;
    if fromID == EnsemblGeneId then WithColumn(t, colName, StripColumn(Column(t, colName))) else t
  }

  /**
   * The label clashes the model leaves out: the joined frames share no
   * column label, so the merge adds no `_x`/`_y` suffixes.
   */
  predicate NoLabelClash(df: Table, colName: string, fromID: string, toID: string) {
    && fromID != toID && fromID != colName && toID != colName
    && fromID !in df.columns && toID !in df.columns
  }

  predicate Frames(df: Table, geneIDMap: Table) {
    Rectangular(df) && NoDup(df.columns) && Rectangular(geneIDMap) && NoDup(geneIDMap.columns)
  }

  /**
   * The value `convert_geneID` returns, or the exception it raises. Only
   * the argument checks raise; a returned frame keeps the columns of `df`
   * except the key column, in their order.
   */
  function ConvertedTable(df: Table, geneIDMap: Table, colName: string, fromID: string, toID: string,
                          proteinCodingOnly: bool): (r: Result<Table, Error>)
    requires Frames(df, geneIDMap) && NoLabelClash(df, colName, fromID, toID)
    ensures r.Success? <==> CheckArguments(df, geneIDMap, colName, fromID, toID, proteinCodingOnly).None?
    ensures r.Success? ==> Rectangular(r.value) && r.value.columns == Filter(df.columns, NotIn([colName]))
  {
    var err := CheckArguments(df, geneIDMap, colName, fromID, toID, proteinCodingOnly);
    if err.Some? then Failure(err.value)
    else
      var idMap := IdMap(geneIDMap, fromID, toID, proteinCodingOnly);
      var prepared := PreparedFrame(df, colName, fromID);
      KeptColumns(df, colName, fromID, toID);
      var merged := Merge(idMap, prepared, fromID, colName);
      Success(Drop(SetIndex(merged, toID), [colName, fromID, toID]))
  }

  // ---------------------------------------------------------------------
  // What the conversion promises

  /**
   * The argument checks: the call fails exactly when `colName` is neither
   * "index" nor a column of `df`, when `fromID` or `toID` is not a column of
   * the map, or when only protein-coding genes are wanted and the map has
   * no `entrezgene` column; the first failing check names the error.
   */
  lemma ConvertArgumentErrors(df: Table, geneIDMap: Table, colName: string, fromID: string, toID: string,
                              proteinCodingOnly: bool)
    requires Frames(df, geneIDMap) && NoLabelClash(df, colName, fromID, toID)
    ensures ConvertedTable(df, geneIDMap, colName, fromID, toID, proteinCodingOnly).Failure? <==>
      || (colName != "index" && colName !in df.columns)
      || fromID !in geneIDMap.columns || toID !in geneIDMap.columns
      || (proteinCodingOnly && Entrezgene !in geneIDMap.columns)
    ensures colName != "index" && colName !in df.columns ==>
      ConvertedTable(df, geneIDMap, colName, fromID, toID, proteinCodingOnly)
        == Failure(AssertionError(colName + " not found in df."))
    ensures colName in ["index"] + df.columns && fromID !in geneIDMap.columns ==>
      ConvertedTable(df, geneIDMap, colName, fromID, toID, proteinCodingOnly)
        == Failure(AssertionError(fromID + " not found in geneIDMap."))
    ensures colName in ["index"] + df.columns && fromID in geneIDMap.columns && toID !in geneIDMap.columns ==>
      ConvertedTable(df, geneIDMap, colName, fromID, toID, proteinCodingOnly)
        == Failure(AssertionError(toID + " not found in geneIDMap."))
    ensures (colName in ["index"] + df.columns && fromID in geneIDMap.columns && toID in geneIDMap.columns
      && proteinCodingOnly && Entrezgene !in geneIDMap.columns) ==>
      ConvertedTable(df, geneIDMap, colName, fromID, toID, proteinCodingOnly) == Failure(KeyError([Entrezgene]))
  {
    assert colName in ["index"] + df.columns <==> colName == "index" || colName in df.columns;
  }

  /**
   * The in-place changes to the caller's frame: its labels stay, the key
   * column (added as "index" when translating the index) holds the join
   * keys, and every other column is untouched.
   */
  lemma PreparedFrameEffect(df: Table, colName: string, fromID: string)
    requires Rectangular(df) && colName in ["index"] + df.columns
    ensures PreparedFrame(df, colName, fromID).columns == if colName in df.columns then df.columns else df.columns + [colName]
    ensures Labels(PreparedFrame(df, colName, fromID)) == Labels(df)
    ensures Column(PreparedFrame(df, colName, fromID), colName) == SourceKeys(df, colName, fromID)
    ensures forall c :: c in df.columns && c != colName ==>
      c in PreparedFrame(df, colName, fromID).columns && Column(PreparedFrame(df, colName, fromID), c) == Column(df, c)
  {
    var t := if colName == "index" then WithColumn(df, "index", Labels(df)) else df;
    assert colName in t.columns;
    assert Column(t, colName) == if colName == "index" then Labels(df) else Column(df, colName);
  }

  /** The merged frame's labels, `[fromID, toID]` and then the prepared frame's, are distinct. */
  lemma MergedLabelsDistinct(df: Table, colName: string, fromID: string, toID: string)
    requires Rectangular(df) && NoDup(df.columns) && colName in ["index"] + df.columns
    requires NoLabelClash(df, colName, fromID, toID)
    ensures NoDup([fromID, toID] + PreparedFrame(df, colName, fromID).columns)
  {
    var prep := PreparedFrame(df, colName, fromID);
    PreparedFrameEffect(df, colName, fromID);
    if colName !in df.columns {
      NoDupConcat(df.columns, [colName]);
    }
    NoDupConcat([fromID, toID], prep.columns);
  }

  /**
   * Dropping the key and both ID labels from the merged frame's labels
   * leaves the columns of `df` except `colName`, in their order.
   */
  lemma KeptColumns(df: Table, colName: string, fromID: string, toID: string)
    requires Rectangular(df) && colName in ["index"] + df.columns && NoLabelClash(df, colName, fromID, toID)
    ensures Filter([fromID, toID] + PreparedFrame(df, colName, fromID).columns, NotIn([colName, fromID, toID]))
      == Filter(df.columns, NotIn([colName]))
  {
    var names := [colName, fromID, toID];
    var prep := PreparedFrame(df, colName, fromID);
    PreparedFrameEffect(df, colName, fromID);
    FilterAppend([fromID, toID], prep.columns, NotIn(names));
    assert Filter([fromID, toID], NotIn(names)) == [];
    if colName !in df.columns {
      FilterAppend(df.columns, [colName], NotIn(names));
      assert Filter([colName], NotIn(names)) == [];
    }
    FilterExtensional(df.columns, NotIn(names), NotIn([colName]));
  }

  /** The merged frame's row `k` carries the map's `toID` for pair `k` and the prepared row's cells. */
  lemma MergedRows(df: Table, geneIDMap: Table, colName: string, fromID: string, toID: string,
                   proteinCodingOnly: bool)
    requires Frames(df, geneIDMap) && NoLabelClash(df, colName, fromID, toID)
    requires CheckArguments(df, geneIDMap, colName, fromID, toID, proteinCodingOnly).None?
    ensures var idMap := IdMap(geneIDMap, fromID, toID, proteinCodingOnly);
      var prep := PreparedFrame(df, colName, fromID);
      var merged := Merge(idMap, prep, fromID, colName);
      var ps := JoinPairs(Column(MapRows(geneIDMap, proteinCodingOnly), fromID), SourceKeys(df, colName, fromID));
      && NoDup(merged.columns) && toID in merged.columns && |merged.rows| == |ps|
      && (forall k :: 0 <= k < |ps| ==>
            Column(merged, toID)[k] == Column(MapRows(geneIDMap, proteinCodingOnly), toID)[ps[k].0])
      && (forall k, c :: 0 <= k < |ps| && c in df.columns && c != colName ==>
            c in merged.columns && Lookup(merged.rows[k], merged.columns, c) == Column(df, c)[ps[k].1])
  {
    var idMap := IdMap(geneIDMap, fromID, toID, proteinCodingOnly);
    var prep := PreparedFrame(df, colName, fromID);
    var merged := Merge(idMap, prep, fromID, colName);
    PreparedFrameEffect(df, colName, fromID);
    MergedLabelsDistinct(df, colName, fromID, toID);
    MergeLookup(idMap, prep, fromID, colName);
    var ps := JoinPairs(Column(idMap, fromID), Column(prep, colName));
    forall k | 0 <= k < |ps|
      ensures Column(merged, toID)[k] == Column(MapRows(geneIDMap, proteinCodingOnly), toID)[ps[k].0]
    {
      assert Column(merged, toID)[k] == Lookup(merged.rows[k], merged.columns, toID);
      assert Lookup(idMap.rows[ps[k].0], idMap.columns, toID) == Column(idMap, toID)[ps[k].0];
    }
    forall k, c | 0 <= k < |ps| && c in df.columns && c != colName
      ensures c in merged.columns && Lookup(merged.rows[k], merged.columns, c) == Column(df, c)[ps[k].1]
    {
      assert Lookup(prep.rows[ps[k].1], prep.columns, c) == Column(prep, c)[ps[k].1];
    }
  }

  /**
   * The join: the result has one row per pair (map row, `df` row) whose
   * keys are equal, in the order of `JoinPairs` (grouped by key, in the
   * order of each key's first map row). Each row is labelled with its map row's `toID`, and under every
   * other column of `df` it holds the `df` row's cell.
   */
  lemma ConvertedRows(df: Table, geneIDMap: Table, colName: string, fromID: string, toID: string,
                      proteinCodingOnly: bool)
    requires Frames(df, geneIDMap) && NoLabelClash(df, colName, fromID, toID)
    requires ConvertedTable(df, geneIDMap, colName, fromID, toID, proteinCodingOnly).Success?
    ensures var out := ConvertedTable(df, geneIDMap, colName, fromID, toID, proteinCodingOnly).value;
      var m := MapRows(geneIDMap, proteinCodingOnly);
      var ps := JoinPairs(Column(m, fromID), SourceKeys(df, colName, fromID));
      && Rectangular(out) && |out.rows| == |ps|
      && (forall i: nat, j: nat :: (i, j) in ps <==>
            i < |m.rows| && j < |df.rows| && Column(m, fromID)[i] == SourceKeys(df, colName, fromID)[j])
      && (forall k :: 0 <= k < |ps| ==> out.rows[k].index == Column(m, toID)[ps[k].0])
      && (forall k, c :: 0 <= k < |ps| && c in df.columns && c != colName ==>
            c in out.columns && Lookup(out.rows[k], out.columns, c) == Column(df, c)[ps[k].1])
  {
    var idMap := IdMap(geneIDMap, fromID, toID, proteinCodingOnly);
    var prep := PreparedFrame(df, colName, fromID);
    var merged := Merge(idMap, prep, fromID, colName);
    var m := MapRows(geneIDMap, proteinCodingOnly);
    MergedRows(df, geneIDMap, colName, fromID, toID, proteinCodingOnly);
    PairsWithEqualKeys(Column(m, fromID), SourceKeys(df, colName, fromID));
    IndexedDrop(merged, toID, [colName, fromID, toID]);
    assert ConvertedTable(df, geneIDMap, colName, fromID, toID, proteinCodingOnly).value
      == Drop(SetIndex(merged, toID), [colName, fromID, toID]);
  }

  /** `JoinPairsExact` for a pair written out as its two positions. */
  lemma PairsWithEqualKeys(left: seq<Cell>, right: seq<Cell>)
    ensures forall i: nat, j: nat :: (i, j) in JoinPairs(left, right) <==>
      i < |left| && j < |right| && left[i] == right[j]
  {
    JoinPairsExact(left, right);
    forall i: nat, j: nat ensures (i, j) in JoinPairs(left, right) <==> i < |left| && j < |right| && left[i] == right[j] {
      var p := (i, j);
      assert p.0 == i && p.1 == j;
    }
  }

  /** A row kept by the protein-coding filter is a map row whose `entrezgene` is present. */
  lemma ProteinCodingMapRow(geneIDMap: Table, i: nat)
    requires Rectangular(geneIDMap) && i < |MapRows(geneIDMap, true).rows|
    ensures Entrezgene in geneIDMap.columns
    ensures exists i' :: (0 <= i' < |geneIDMap.rows| && geneIDMap.rows[i'] == MapRows(geneIDMap, true).rows[i]
      && Lookup(geneIDMap.rows[i'], geneIDMap.columns, Entrezgene) != NA)
  {
    var row := MapRows(geneIDMap, true).rows[i];
    assert row in MapRows(geneIDMap, true).rows;
  }

  /**
   * `gene` is the `toID` of a map row whose `entrezgene` is not missing and
   * whose `fromID` is one of `keys`.
   */
  predicate FromProteinCodingRow(geneIDMap: Table, fromID: string, toID: string, keys: seq<Cell>, gene: Cell) {
    && Rectangular(geneIDMap)
    && Entrezgene in geneIDMap.columns && fromID in geneIDMap.columns && toID in geneIDMap.columns
    && exists i :: (0 <= i < |geneIDMap.rows|
         && Lookup(geneIDMap.rows[i], geneIDMap.columns, Entrezgene) != NA
         && Lookup(geneIDMap.rows[i], geneIDMap.columns, toID) == gene
         && Lookup(geneIDMap.rows[i], geneIDMap.columns, fromID) in keys)
  }

  /**
   * With `proteinCodingOnly`, every result row comes from a map row whose
   * `entrezgene` is not missing: its label is that row's `toID`, and that
   * row's `fromID` is the key of a row of `df`.
   */
  lemma ProteinCodingRows(df: Table, geneIDMap: Table, colName: string, fromID: string, toID: string)
    requires Frames(df, geneIDMap) && NoLabelClash(df, colName, fromID, toID)
    requires ConvertedTable(df, geneIDMap, colName, fromID, toID, true).Success?
    ensures Entrezgene in geneIDMap.columns
    ensures forall k :: 0 <= k < |ConvertedTable(df, geneIDMap, colName, fromID, toID, true).value.rows| ==>
      FromProteinCodingRow(geneIDMap, fromID, toID, SourceKeys(df, colName, fromID),
        ConvertedTable(df, geneIDMap, colName, fromID, toID, true).value.rows[k].index)
  {
    var out := ConvertedTable(df, geneIDMap, colName, fromID, toID, true).value;
    assert CheckArguments(df, geneIDMap, colName, fromID, toID, true).None?;
    ConvertedRows(df, geneIDMap, colName, fromID, toID, true);
    ProteinCodingJoin(geneIDMap, fromID, toID, SourceKeys(df, colName, fromID), out);
  }

  /** Every row of a table built from the protein-coding join comes from a map row with an `entrezgene`. */
  lemma ProteinCodingJoin(geneIDMap: Table, fromID: string, toID: string, keys: seq<Cell>, out: Table)
    requires Rectangular(geneIDMap) && fromID in geneIDMap.columns && toID in geneIDMap.columns
    requires Entrezgene in geneIDMap.columns
    requires var ps := JoinPairs(Column(MapRows(geneIDMap, true), fromID), keys);
      && |out.rows| == |ps|
      && forall k :: 0 <= k < |ps| ==> out.rows[k].index == Column(MapRows(geneIDMap, true), toID)[ps[k].0]
    ensures forall k :: 0 <= k < |out.rows| ==> FromProteinCodingRow(geneIDMap, fromID, toID, keys, out.rows[k].index)
  {
    forall k | 0 <= k < |out.rows| ensures FromProteinCodingRow(geneIDMap, fromID, toID, keys, out.rows[k].index) {
      var ps := JoinPairs(Column(MapRows(geneIDMap, true), fromID), keys);
      assert k < |ps| && out.rows[k].index == Column(MapRows(geneIDMap, true), toID)[ps[k].0];
      ProteinCodingPair(geneIDMap, fromID, toID, keys, k, out.rows[k].index);
    }
  }

  /** The map row behind the `k`-th pair of the protein-coding join. */
  lemma ProteinCodingPair(geneIDMap: Table, fromID: string, toID: string, keys: seq<Cell>, k: nat, gene: Cell)
    requires Rectangular(geneIDMap) && fromID in geneIDMap.columns && toID in geneIDMap.columns
    requires Entrezgene in geneIDMap.columns
    requires k < |JoinPairs(Column(MapRows(geneIDMap, true), fromID), keys)|
    requires gene == Column(MapRows(geneIDMap, true), toID)[JoinPairs(Column(MapRows(geneIDMap, true), fromID), keys)[k].0]
    ensures FromProteinCodingRow(geneIDMap, fromID, toID, keys, gene)
  {
    var m := MapRows(geneIDMap, true);
    var p := JoinPairs(Column(m, fromID), keys)[k];
    ProteinCodingMapRow(geneIDMap, p.0);
    var i :| 0 <= i < |geneIDMap.rows| && geneIDMap.rows[i] == m.rows[p.0]
      && Lookup(geneIDMap.rows[i], geneIDMap.columns, Entrezgene) != NA;
    assert m.columns == geneIDMap.columns;
    assert gene == Column(m, toID)[p.0] == Lookup(geneIDMap.rows[i], geneIDMap.columns, toID);
    assert Column(m, fromID)[p.0] == Lookup(geneIDMap.rows[i], geneIDMap.columns, fromID) == keys[p.1];
    assert keys[p.1] in keys;
  }

  // ---------------------------------------------------------------------
  // Two worked examples

  /** An ID map with a protein-coding gene GENEA and a gene GENEB without an Entrez ID. */
  function ExampleMap(): Table {
    Table([EnsemblGeneId, ExternalGeneName, Entrezgene],
      [Row(Num(0.0), [Str("ENSG001"), Str("GENEA"), Num(1234.0)]),
       Row(Num(1.0), [Str("ENSG002"), Str("GENEB"), NA])])
  }

  /** A frame indexed by versioned Ensembl IDs, with one sample column. */
  function ExampleFrame(): Table {
    Table(["TCGA-01"], [Row(Str("ENSG001.3"), [Num(5.0)]), Row(Str("ENSG002.1"), [Num(7.0)])])
  }

  lemma ExampleStrip(base: string, d: string, id: string)
    requires AllDigits(d) && id == base + "." + d
    ensures StripCell(Str(id)) == Str(base)
  {
    StripVersionOf(base, d);
  }

  lemma ExampleKeys()
    ensures SourceKeys(ExampleFrame(), "index", EnsemblGeneId) == [Str("ENSG001"), Str("ENSG002")]
  {
    ExampleStrip("ENSG001", "3", "ENSG001.3");
    ExampleStrip("ENSG002", "1", "ENSG002.1");
    var raw := Labels(ExampleFrame());
    assert raw == [Str("ENSG001.3"), Str("ENSG002.1")];
    assert StripColumn(raw) == [StripCell(raw[0]), StripCell(raw[1])];
  }

  lemma ExampleMapRows()
    ensures MapRows(ExampleMap(), true).rows == ExampleMap().rows[..1]
  {
    var t := ExampleMap();
    IndexOfUnique(t.columns, 2);
    var p := HasEntrez(t.columns);
    assert p(t.rows[0]) && !p(t.rows[1]);
    assert t.rows[1..][1..] == [];
    assert Filter(t.rows[1..], p) == [];
    assert Filter(t.rows, p) == [t.rows[0]] + Filter(t.rows[1..], p);
  }

  lemma ExampleMapColumns()
    ensures Column(MapRows(ExampleMap(), true), EnsemblGeneId) == [Str("ENSG001")]
    ensures Column(MapRows(ExampleMap(), true), ExternalGeneName) == [Str("GENEA")]
  {
    var t := ExampleMap();
    ExampleMapRows();
    IndexOfUnique(t.columns, 0);
    IndexOfUnique(t.columns, 1);
  }

  lemma ExamplePairs()
    ensures JoinPairs(Column(MapRows(ExampleMap(), true), EnsemblGeneId), SourceKeys(ExampleFrame(), "index", EnsemblGeneId))
      == [(0, 0)]
  {
    ExampleKeys();
    ExampleMapColumns();
    OneMatchJoin([Str("ENSG001")], [Str("ENSG001"), Str("ENSG002")]);
  }

  /** One left key against a right side where only the first key equals it. */
  lemma OneMatchJoin(left: seq<Cell>, right: seq<Cell>)
    requires |left| == 1 && |right| == 2 && left[0] == right[0] && left[0] != right[1]
    ensures JoinPairs(left, right) == [(0, 0)]
  {
    JoinPairsExact(left, right);
    var ps := JoinPairs(left, right);
    forall x ensures x in ps <==> x in [(0, 0)] {
      if x in ps {
        assert x.0 < 1 && x.1 < 2 && left[x.0] == right[x.1];
      }
    }
    JoinPairsOrdered(left, right);
    JoinOrderUnique(left, ps, [(0, 0)]);
  }

  lemma ExampleSucceeds()
    ensures Frames(ExampleFrame(), ExampleMap()) && NoLabelClash(ExampleFrame(), "index", EnsemblGeneId, ExternalGeneName)
    ensures ConvertedTable(ExampleFrame(), ExampleMap(), "index", EnsemblGeneId, ExternalGeneName, true).Success?
  {
    ConvertArgumentErrors(ExampleFrame(), ExampleMap(), "index", EnsemblGeneId, ExternalGeneName, true);
  }

  lemma OneCellRow(row: Row, c: string)
    requires |row.cells| == 1
    ensures row == Row(row.index, [Lookup(row, [c], c)])
  {
    assert row.cells == [row.cells[0]];
  }

  /** For a one-column frame, result row `k` is determined by joined pair `k`. */
  lemma OneColumnRow(df: Table, geneIDMap: Table, colName: string, fromID: string, toID: string,
                     proteinCodingOnly: bool, c: string, out: Table, k: nat)
    requires Frames(df, geneIDMap) && NoLabelClash(df, colName, fromID, toID)
    requires ConvertedTable(df, geneIDMap, colName, fromID, toID, proteinCodingOnly) == Success(out)
    requires df.columns == [c] && c != colName
    requires k < |JoinPairs(Column(MapRows(geneIDMap, proteinCodingOnly), fromID), SourceKeys(df, colName, fromID))|
    ensures var ps := JoinPairs(Column(MapRows(geneIDMap, proteinCodingOnly), fromID), SourceKeys(df, colName, fromID));
      && out.columns == [c] && |out.rows| == |ps|
      && out.rows[k] == Row(Column(MapRows(geneIDMap, proteinCodingOnly), toID)[ps[k].0], [Column(df, c)[ps[k].1]])
  {
    FilterAll(df.columns, NotIn([colName]));
    assert out.columns == [c];
    ConvertedRows(df, geneIDMap, colName, fromID, toID, proteinCodingOnly);
    var m := MapRows(geneIDMap, proteinCodingOnly);
    var ps := JoinPairs(Column(m, fromID), SourceKeys(df, colName, fromID));
    assert c in df.columns;
    OneCellRow(out.rows[k], c);
  }

  /** Result row `k` of a one-column frame, when joined pair `k` is `(i, j)`. */
  lemma RowOfPair(df: Table, geneIDMap: Table, colName: string, fromID: string, toID: string,
                  proteinCodingOnly: bool, c: string, out: Table, k: nat, i: nat, j: nat)
    requires Frames(df, geneIDMap) && NoLabelClash(df, colName, fromID, toID)
    requires ConvertedTable(df, geneIDMap, colName, fromID, toID, proteinCodingOnly) == Success(out)
    requires df.columns == [c] && c != colName
    requires var ps := JoinPairs(Column(MapRows(geneIDMap, proteinCodingOnly), fromID), SourceKeys(df, colName, fromID));
      k < |ps| && ps[k] == (i, j)
    ensures i < |MapRows(geneIDMap, proteinCodingOnly).rows| && j < |df.rows|
    ensures out.columns == [c]
    ensures |out.rows| == |JoinPairs(Column(MapRows(geneIDMap, proteinCodingOnly), fromID), SourceKeys(df, colName, fromID))|
    ensures out.rows[k] == Row(Column(MapRows(geneIDMap, proteinCodingOnly), toID)[i], [Column(df, c)[j]])
  {
    OneColumnRow(df, geneIDMap, colName, fromID, toID, proteinCodingOnly, c, out, k);
  }

  /** A one-column frame whose keys join in a single pair gives a single row. */
  lemma SinglePairConversion(df: Table, geneIDMap: Table, colName: string, fromID: string, toID: string,
                             proteinCodingOnly: bool, c: string, out: Table, i: nat, j: nat)
    requires Frames(df, geneIDMap) && NoLabelClash(df, colName, fromID, toID)
    requires ConvertedTable(df, geneIDMap, colName, fromID, toID, proteinCodingOnly) == Success(out)
    requires df.columns == [c] && c != colName
    requires JoinPairs(Column(MapRows(geneIDMap, proteinCodingOnly), fromID), SourceKeys(df, colName, fromID)) == [(i, j)]
    ensures i < |MapRows(geneIDMap, proteinCodingOnly).rows| && j < |df.rows|
    ensures out == Table([c], [Row(Column(MapRows(geneIDMap, proteinCodingOnly), toID)[i], [Column(df, c)[j]])])
  {
    RowOfPair(df, geneIDMap, colName, fromID, toID, proteinCodingOnly, c, out, 0, i, j);
    OneRowTable(out, c, out.rows[0]);
  }

  lemma OneRowTable(t: Table, c: string, r0: Row)
    requires t.columns == [c] && |t.rows| == 1 && t.rows[0] == r0
    ensures t == Table([c], [r0])
  {
    assert t.rows == [r0];
  }

  /** A one-column frame whose keys join in two pairs gives two rows, in pair order. */
  lemma TwoPairConversion(df: Table, geneIDMap: Table, colName: string, fromID: string, toID: string,
                          proteinCodingOnly: bool, c: string, out: Table, p: (nat, nat), q: (nat, nat))
    requires Frames(df, geneIDMap) && NoLabelClash(df, colName, fromID, toID)
    requires ConvertedTable(df, geneIDMap, colName, fromID, toID, proteinCodingOnly) == Success(out)
    requires df.columns == [c] && c != colName
    requires JoinPairs(Column(MapRows(geneIDMap, proteinCodingOnly), fromID), SourceKeys(df, colName, fromID)) == [p, q]
    ensures p.0 < |MapRows(geneIDMap, proteinCodingOnly).rows| && p.1 < |df.rows|
    ensures q.0 < |MapRows(geneIDMap, proteinCodingOnly).rows| && q.1 < |df.rows|
    ensures out == Table([c], [Row(Column(MapRows(geneIDMap, proteinCodingOnly), toID)[p.0], [Column(df, c)[p.1]]),
                               Row(Column(MapRows(geneIDMap, proteinCodingOnly), toID)[q.0], [Column(df, c)[q.1]])])
  {
    RowOfPair(df, geneIDMap, colName, fromID, toID, proteinCodingOnly, c, out, 0, p.0, p.1);
    RowOfPair(df, geneIDMap, colName, fromID, toID, proteinCodingOnly, c, out, 1, q.0, q.1);
    TwoRowTable(out, c, out.rows[0], out.rows[1]);
  }

  lemma TwoRowTable(t: Table, c: string, r0: Row, r1: Row)
    requires t.columns == [c] && |t.rows| == 2 && t.rows[0] == r0 && t.rows[1] == r1
    ensures t == Table([c], [r0, r1])
  {
    assert t.rows == [r0, r1];
  }

  /**
   * Translating the index ["ENSG001.3", "ENSG002.1"] with only
   * protein-coding genes gives exactly one row, labelled GENEA: the
   * versions are stripped before the join, and GENEB's missing Entrez ID
   * removes it.
   */
  lemma ProteinCodingExample()
    ensures ConvertedTable(ExampleFrame(), ExampleMap(), "index", EnsemblGeneId, ExternalGeneName, true)
      == Success(Table(["TCGA-01"], [Row(Str("GENEA"), [Num(5.0)])]))
  {
    ExampleSucceeds();
    ExampleMapColumns();
    ExamplePairs();
    var out := ConvertedTable(ExampleFrame(), ExampleMap(), "index", EnsemblGeneId, ExternalGeneName, true).value;
    SinglePairConversion(ExampleFrame(), ExampleMap(), "index", EnsemblGeneId, ExternalGeneName, true, "TCGA-01", out, 0, 0);
  }

  /** Two map rows share the symbol TP53 under different aliases. */
  function AliasMap(): Table {
    Table(["hgnc_symbol", "alias"],
      [Row(Num(0.0), [Str("TP53"), Str("P53")]), Row(Num(1.0), [Str("TP53"), Str("LFS1")])])
  }

  function SymbolFrame(): Table {
    Table(["TCGA-01"], [Row(Str("TP53"), [Num(2.0)])])
  }

  lemma AliasColumns()
    ensures Column(MapRows(AliasMap(), false), "hgnc_symbol") == [Str("TP53"), Str("TP53")]
    ensures Column(MapRows(AliasMap(), false), "alias") == [Str("P53"), Str("LFS1")]
    ensures SourceKeys(SymbolFrame(), "index", "hgnc_symbol") == [Str("TP53")]
    ensures Column(SymbolFrame(), "TCGA-01") == [Num(2.0)]
  {
    var t := AliasMap();
    IndexOfUnique(t.columns, 0);
    IndexOfUnique(t.columns, 1);
  }

  lemma FanOutPairs()
    ensures JoinPairs(Column(MapRows(AliasMap(), false), "hgnc_symbol"), SourceKeys(SymbolFrame(), "index", "hgnc_symbol"))
      == [(0, 0), (1, 0)]
  {
    AliasColumns();
    FanOutJoin([Str("TP53"), Str("TP53")], [Str("TP53")]);
  }

  /** Two equal left keys against one equal right key. */
  lemma FanOutJoin(left: seq<Cell>, right: seq<Cell>)
    requires |left| == 2 && |right| == 1 && left[0] == left[1] == right[0]
    ensures JoinPairs(left, right) == [(0, 0), (1, 0)]
  {
    FanOutMembers(left, right);
    assert JoinSorted(left, [(0, 0), (1, 0)]);
    JoinPairsOrdered(left, right);
    JoinOrderUnique(left, JoinPairs(left, right), [(0, 0), (1, 0)]);
  }

  lemma FanOutMembers(left: seq<Cell>, right: seq<Cell>)
    requires |left| == 2 && |right| == 1 && left[0] == left[1] == right[0]
    ensures forall x :: x in JoinPairs(left, right) <==> x in [(0, 0), (1, 0)]
  {
    JoinPairsExact(left, right);
    var ps := JoinPairs(left, right);
    forall x | x in ps ensures x in [(0, 0), (1, 0)] {
      assert x.0 < 2 && x.1 < 1;
      assert x == (x.0, x.1);
    }
    assert (0, 0) in ps && (1, 0) in ps;
  }

  lemma FanOutSucceeds()
    ensures Frames(SymbolFrame(), AliasMap()) && NoLabelClash(SymbolFrame(), "index", "hgnc_symbol", "alias")
    ensures ConvertedTable(SymbolFrame(), AliasMap(), "index", "hgnc_symbol", "alias", false).Success?
  {
    ConvertArgumentErrors(SymbolFrame(), AliasMap(), "index", "hgnc_symbol", "alias", false);
  }

  /** Fan-out: one row whose key has two map rows gives two result rows, in map order. */
  lemma FanOutExample()
    ensures ConvertedTable(SymbolFrame(), AliasMap(), "index", "hgnc_symbol", "alias", false)
      == Success(Table(["TCGA-01"], [Row(Str("P53"), [Num(2.0)]), Row(Str("LFS1"), [Num(2.0)])]))
  {
    FanOutSucceeds();
    FanOutPairs();
    AliasColumns();
    var out := ConvertedTable(SymbolFrame(), AliasMap(), "index", "hgnc_symbol", "alias", false).value;
    TwoPairConversion(SymbolFrame(), AliasMap(), "index", "hgnc_symbol", "alias", false, "TCGA-01", out, (0, 0), (1, 0));
  }

  // ---------------------------------------------------------------------
  // The caller's frame, changed in place

  /**
   * `convert_geneID(df, geneIDMap, ...)`: returns the converted frame or
   * the exception, and leaves in `df` the changes it made to it.
   */
  method ConvertGeneId(df: Frame, geneIDMap: Table, colName: string := "index", fromID: string := EnsemblGeneId,
                       toID: string := ExternalGeneName, proteinCodingOnly: bool := false)
    returns (r: Result<Table, Error>)
    requires Frames(df.Value(), geneIDMap) && NoLabelClash(df.Value(), colName, fromID, toID)
    modifies df
    ensures r == ConvertedTable(old(df.Value()), geneIDMap, colName, fromID, toID, proteinCodingOnly)
    ensures df.Value() == if r.Success? then PreparedFrame(old(df.Value()), colName, fromID) else old(df.Value())
  {
    var err := CheckArguments(df.Value(), geneIDMap, colName, fromID, toID, proteinCodingOnly);
    if err.Some? {
      return Failure(err.value);
    }
    var idMap := geneIDMap;
    if proteinCodingOnly {
      idMap := FilterRows(idMap, HasEntrez(idMap.columns));
    }
    idMap := SelectColumns(idMap, [fromID, toID]).value;
    if colName == "index" {
      df.SetColumn("index", Labels(df.Value()));
    }
    if fromID == EnsemblGeneId {
      df.SetColumn(colName, StripColumn(Column(df.Value(), colName)));
    }
    var merged := Merge(idMap, df.Value(), fromID, colName);
    merged := SetIndex(merged, toID);
    r := Success(Drop(merged, [colName, fromID, toID]));
  }
}
