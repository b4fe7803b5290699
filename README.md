# RNA-seq stage classification: data preparation, in Dafny

This project models the data-preparation core of a tumour-stage classifier
for TCGA RNA-seq data, and proves properties of that model:

- `helper/rnaseq_dataframe.py`, as three modules:
  - `FPKM_to_TPM` rescales FPKM expression values to TPM (module `Tpm`).
  - `get_barcode_stage` labels every sample barcode of a project as
    "normal", "i", "ii", "iii" or "iv" (module `BarcodeStage`).
  - `convert_geneID` translates gene IDs through an ID-mapping table by an
    inner join, and on the way changes the caller's frame in place
    (module `GeneId`).
- The feature preparation in `NN_stage_classification.py` (module
  `StageClassification`):
  - the DE thresholds and the list of proton-transporter genes;
  - the reindex of the expression matrix by the staged barcodes;
  - the derived `absLog2FC` column;
  - the significance filter and the two-key sort of the
    differential-expression table;
  - the selection of feature genes.

Module `Tables` models the part of a pandas data frame that this code
relies on:

- labelled rows of cells (text, number or missing);
- boolean row filters and `df[[...]]`;
- column assignment, through the class `Tables.Frame`, whose
  `SetColumn` changes the frame in place;
- `df.index = df[name]` and `df.drop(..., axis=1)`;
- the inner `pd.merge`, which yields the (left, right) row pairs with equal
  keys. The pairs are grouped by key. The groups come in the order of each
  key's first occurrence on the left; the missing-value key, which matches
  itself, is ranked the same way. Within a group the pairs are ordered by
  left row, then by right row.

The pandas behaviour modelled is that of versions 1.4 and 1.5. These
versions treat `str.replace` patterns as regular expressions and give an
inner merge the grouped order above. Their `KeyError` for `df[[...]]`
names each missing label once.

Module `Wrappers` holds `Option` and `Result`. Each exception the code
raises is a `Failure` carrying the exception's type and message:

- `AssertionError` for the argument checks;
- `KeyError` for a missing column. Selecting several columns raises one of
  two forms. When none of the labels is a column, the error quotes all of
  them ("None of [...] are in the [columns]"). Otherwise it names each
  missing label once, in the order of first occurrence;
- `TypeError` for `abs` or `<=` on text.

Numbers are `real`, so the model's arithmetic is exact.

## Model

| member | source | states |
|---|---|---|
| Tpm.FpkmToTpm | helper/rnaseq_dataframe.py:14-20 | the result has the same genes and samples as its input, and one value per gene and sample (the same shape) |
| Tpm.TpmColumnsSumToMillion | helper/rnaseq_dataframe.py:5-6 | for any input whose column sums are all positive, every sample column of the result sums to exactly 1e6 |
| Tpm.TpmPreservesProportions | helper/rnaseq_dataframe.py:18-19 | within a sample, the ratio of any two genes is unchanged; so are each cell's sign and whether it is zero |
| Tpm.TpmNonNegative | helper/rnaseq_dataframe.py:18-19 | non-negative FPKM input gives non-negative TPM |
| Tpm.TpmIdempotent | helper/rnaseq_dataframe.py:5-6 | a TPM matrix again has positive column sums, and converting it again changes nothing |
| Tpm.ColumnSumScaled | helper/rnaseq_dataframe.py:18-19 | dividing every cell of a column by d and multiplying by c does the same to the column's sum |
| BarcodeStage.GetBarcodeStage | helper/rnaseq_dataframe.py:23-53 | the call fails exactly when no annotation row belongs to the project, and the error is the assertion message naming the project |
| BarcodeStage.IsNormalSample | helper/rnaseq_dataframe.py:39 | a sample type counts as normal exactly when "normal" occurs at some position of its lower-cased text |
| BarcodeStage.ContainsIff | helper/rnaseq_dataframe.py:39 | the substring test holds exactly when the pattern occurs at some position of the text |
| BarcodeStage.MatchesStage | helper/rnaseq_dataframe.py:42-48 | a text holding the stage's digit always matches; a text that matches holds the stage's digit or its roman numeral |
| BarcodeStage.MissingStageUnstaged | helper/rnaseq_dataframe.py:41-48 | a one-row annotation whose sample is not normal and has no stage text gives no result rows |
| BarcodeStage.MissingStageNeverLabelled | helper/rnaseq_dataframe.py:41-52 | in any annotation, a barcode whose project rows all lack a stage text and are not normal appears in no result row |
| BarcodeStage.NormalBarcodesAre | helper/rnaseq_dataframe.py:38-39 | a barcode is in the normal list exactly when some row of the project has it with a sample type that contains "normal" when lower-cased |
| BarcodeStage.GroupList | helper/rnaseq_dataframe.py:38-48 | each group's barcode list holds, in annotation order, the barcodes of the rows that the group's reference membership predicate accepts |
| BarcodeStage.StageRowsOfGroup | helper/rnaseq_dataframe.py:49-52 | the result rows labelled with a group are exactly that group's member barcodes in annotation order, each tagged with the group's label |
| BarcodeStage.StageRowMembership | helper/rnaseq_dataframe.py:38-52 | (barcode, label) is a result row exactly when some annotation row of the project with that barcode belongs to the label's group |
| BarcodeStage.GroupsInOrder | helper/rnaseq_dataframe.py:49-51 | result rows come in the order normal, i, ii, iii, iv, and every label is one of those five |
| BarcodeStage.BlocksInOrder | helper/rnaseq_dataframe.py:50 | concatenating group blocks in increasing rank gives labels sorted by rank |
| BarcodeStage.FilterBlocks | helper/rnaseq_dataframe.py:50-51 | picking one label out of the concatenated blocks gives back exactly that group's block |
| BarcodeStage.GroupNameInjective | helper/rnaseq_dataframe.py:51 | two groups have the same label only if they are the same group |
| BarcodeStage.NormalsNeverStaged | helper/rnaseq_dataframe.py:41-48 | a barcode labelled "normal" never also appears with a stage label |
| BarcodeStage.GroupOfLabel | helper/rnaseq_dataframe.py:51 | every one of the five labels belongs to a group, and every label other than "normal" belongs to a stage |
| BarcodeStage.StageTokenSeparates | helper/rnaseq_dataframe.py:41-48 | for a digit-free text ending in whitespace, a numeral and an optional a/b/c, the stage patterns match exactly the stage of that numeral |
| BarcodeStage.SubStagesSeparate | helper/rnaseq_dataframe.py:41-48 | "stage iia" matches only stage ii, "stage iv" only stage iv, and "stage i" only stage i |
| BarcodeStage.TokenAtEndOfStageText | helper/rnaseq_dataframe.py:42-48 | the `\s<numeral>[abc]?$` alternative matches a spaced numeral at the end of the text only for that same numeral |
| BarcodeStage.StageMatchingIsCaseSensitive | helper/rnaseq_dataframe.py:42-48 | "Stage IIA" matches no stage, while "stage iia" matches exactly stage ii: the stage text is not lower-cased |
| BarcodeStage.SolidTissueNormalIsNormal | helper/rnaseq_dataframe.py:39 | the sample type "Solid Tissue Normal" counts as normal |
| BarcodeStage.PrimaryTumorIsNotNormal | helper/rnaseq_dataframe.py:39 | the sample type "Primary Tumor" does not count as normal |
| BarcodeStage.Stage12Matches | helper/rnaseq_dataframe.py:42-48 | a stage text "stage 1/2" matches stages i and ii by their digits, and not iii or iv |
| BarcodeStage.NoDeduplication | helper/rnaseq_dataframe.py:41-52 | one tumour row with stage text "stage 1/2" gives two result rows for the same barcode, labelled "i" and "ii" |
| GeneId.StripVersion | helper/rnaseq_dataframe.py:92 | the result is the text itself, or the text with one match of the version pattern cut out, and never longer |
| GeneId.StripVersionSpec | helper/rnaseq_dataframe.py:91-92 | if the text ends in a dot and digits (or before a final newline), the strip removes exactly that suffix; otherwise it returns the text unchanged |
| GeneId.StripVersionOf | helper/rnaseq_dataframe.py:91-92 | stripping "base.digits" gives back base, for any base |
| GeneId.StripWithoutDot | helper/rnaseq_dataframe.py:91-92 | a text without a dot is left unchanged |
| GeneId.StripIdempotentOnEnsemblIds | helper/rnaseq_dataframe.py:91-92 | on a versioned ID whose base has no dot, stripping twice is the same as stripping once |
| GeneId.StripNotIdempotent | helper/rnaseq_dataframe.py:91-92 | in general the strip is not idempotent: "a.1.2" strips to "a.1", which strips to "a" |
| GeneId.TrailingDigits | helper/rnaseq_dataframe.py:92 | the length of the longest all-digit suffix: all of it is digits, and the character before it is not |
| GeneId.CheckArguments | helper/rnaseq_dataframe.py:81-86 | the checks pass exactly when the key column is "index" or a column of the frame, both IDs are map columns, and `entrezgene` is a map column whenever only protein-coding genes are wanted; a KeyError from them names `entrezgene` |
| GeneId.ConvertArgumentErrors | helper/rnaseq_dataframe.py:81-86 | the call fails exactly when a column check fails (or the protein-coding filter lacks its `entrezgene` column), and the first failing check names the error |
| GeneId.IdMap | helper/rnaseq_dataframe.py:85-87 | the projected map has exactly the columns fromID and toID, and their values come from the filtered map |
| GeneId.PreparedFrameEffect | helper/rnaseq_dataframe.py:89-92 | the caller's frame gains the index as column "index" when that is the key; the key column then holds the join keys; every other column and the labels are unchanged |
| GeneId.MergedLabelsDistinct | helper/rnaseq_dataframe.py:94 | the joined frame has no duplicate column labels |
| GeneId.MergedRows | helper/rnaseq_dataframe.py:94 | the merge has one row per matching (map row, frame row) pair; each row carries the map row's toID and the frame row's cells |
| GeneId.ConvertedTable | helper/rnaseq_dataframe.py:56-97 | the conversion fails exactly when an argument check fails; a converted frame is well formed and has the frame's columns without the key column, in their order |
| GeneId.KeptColumns | helper/rnaseq_dataframe.py:96 | dropping the key and both ID labels from the merged labels leaves the frame's columns without the key column, in their order |
| GeneId.ConvertedRows | helper/rnaseq_dataframe.py:94-96 | there is one result row per pair of a map row and a frame row with equal keys, and such pairs are exactly the ones that occur; each row is indexed by the map row's toID and carries the frame row's cells |
| GeneId.ProteinCodingMapRow | helper/rnaseq_dataframe.py:85-86 | every row kept by the protein-coding filter is a map row whose `entrezgene` is present |
| GeneId.ProteinCodingRows | helper/rnaseq_dataframe.py:85-96 | with the protein-coding filter, every result row comes from a map row with an `entrezgene`: its toID is the row's index, and its fromID is one of the frame's keys |
| GeneId.ProteinCodingExample | helper/rnaseq_dataframe.py:56-97 | converting versioned Ensembl IDs to symbols drops the gene without an Entrez ID and strips the version of the other |
| GeneId.FanOutExample | helper/rnaseq_dataframe.py:94-95 | a symbol with two aliases in the map gives two output rows with the same sample values |
| GeneId.ConvertGeneId | helper/rnaseq_dataframe.py:56-97 | the method returns the converted table or the exception; on success the caller's frame is left with the index column and the stripped keys, and on failure it is unchanged |
| Tables.SelectColumns | NN_stage_classification.py:39 | `t[names]` fails exactly when a label is not a column: with the "None of" KeyError when no label is a column, else with a KeyError naming each missing label once; otherwise it has the columns in the given order with duplicates, and each cell comes from the named column |
| Tables.Missing | NN_stage_classification.py:39 | the reported labels are exactly the requested labels that are not columns, each once, in the order of first occurrence |
| Tables.FirstSeen | NN_stage_classification.py:39 | the distinct elements, each once, ordered by first occurrence |
| Tables.FilterRows | helper/rnaseq_dataframe.py:86 | a row is kept exactly when it is in the frame and the mask holds for it; the columns are unchanged |
| Tables.WithColumn | helper/rnaseq_dataframe.py:90 | assigning a column replaces it when it exists and appends it otherwise; the other columns and the labels are unchanged |
| Tables.Frame.SetColumn | helper/rnaseq_dataframe.py:90-92 | the frame object's new value is the old value with the column assigned |
| Tables.SetIndex | helper/rnaseq_dataframe.py:95 | the labels become the named column's values; the rows' cells are unchanged |
| Tables.Drop | helper/rnaseq_dataframe.py:96 | the dropped frame has the remaining columns in order and the same labels |
| Tables.DropLookup | helper/rnaseq_dataframe.py:96 | every column that is not dropped keeps its values |
| Tables.JoinPairs | helper/rnaseq_dataframe.py:94 | every pair joins a left row and a right row with equal keys |
| Tables.JoinPairsOrdered | helper/rnaseq_dataframe.py:94 | the pairs come strictly in merge order: by key group (first occurrence of the key on the left, the missing key included), then left row, then right row |
| Tables.MissingKeyJoinOrder | helper/rnaseq_dataframe.py:94 | map keys NA, "E1" against frame keys "E1", NA give the pairs (0,1), (1,0): the missing key's group comes at its first left occurrence |
| Tables.JoinOrderUnique | helper/rnaseq_dataframe.py:94 | a set of pairs has only one listing in merge order |
| Tables.GroupedJoinOrder | helper/rnaseq_dataframe.py:94 | left keys A, B, A against right keys A, B give the pairs (0,0), (2,0), (1,1): both A rows come before the B row |
| Tables.Merge | helper/rnaseq_dataframe.py:94 | the merge has the left columns followed by the right ones, one row per joined pair, and a fresh 0, 1, 2, ... index |
| Tables.JoinPairsExact | helper/rnaseq_dataframe.py:94 | a pair is in the join exactly when its two keys are equal |
| Tables.MergeLookup | helper/rnaseq_dataframe.py:94 | each merged row carries the left row's and the right row's cells of its pair |
| Tables.FilterIsSubsequence | NN_stage_classification.py:47-48 | a filter keeps the selected elements in their original order, at strictly increasing positions |
| StageClassification.StagedSamples | NN_stage_classification.py:37-39 | the matrix is reindexed by the staged barcodes in their order, a barcode listed twice giving two columns; it fails exactly when a barcode is not a sample, with the "None of" KeyError when no barcode is a sample and otherwise a KeyError naming each missing barcode once |
| StageClassification.MissingBarcodeOnce | NN_stage_classification.py:39 | barcodes b1, b, b with only b missing give KeyError([b]): a missing barcode is named once |
| StageClassification.SampleInTwoStages | NN_stage_classification.py:38-39 | a sample whose stage text "stage 1/2" puts it in two stages appears as two identical columns |
| StageClassification.WithAbsLog2FC | NN_stage_classification.py:46 | `absLog2FC` holds the absolute value of `log2FoldChange` row by row (missing stays missing), and the other columns are unchanged; KeyError without the column, TypeError if it holds text |
| StageClassification.AddAbsLog2FC | NN_stage_classification.py:46 | the frame object is changed to the derived table, or left unchanged with the exception returned |
| StageClassification.FilterDe | NN_stage_classification.py:47-48 | a row is kept exactly when its `absLog2FC` is a number of at least 2 and its `padj` a number of at most 0.001; KeyError if there is no `padj`, TypeError if it holds text |
| StageClassification.FilterDeKeepsOrder | NN_stage_classification.py:47-48 | the kept rows keep their order |
| StageClassification.BeforeIsStrictTotalOrder | NN_stage_classification.py:49 | the sort key order (padj ascending, then absLog2FC descending, missing values last) is irreflexive, asymmetric, transitive and total |
| StageClassification.SortRows | NN_stage_classification.py:49 | the sorted rows are a permutation of the input, and no row has a key that sorts strictly before the key of a row ahead of it |
| StageClassification.SortStable | NN_stage_classification.py:49 | rows with equal keys keep their relative order |
| StageClassification.SortDe | NN_stage_classification.py:49 | the sorted table has the same columns and the same rows, as a multiset, in key order |
| StageClassification.SelectDe | NN_stage_classification.py:46-49 | the selection fails exactly when `log2FoldChange` or `padj` is missing or holds text, with the first error the script meets; on success the columns are the input's plus `absLog2FC` |
| StageClassification.SelectedDeGenes | NN_stage_classification.py:46-49 | the selected DE table holds exactly the significant rows; each has absLog2FC at least 2 and padj at most 0.001; padj never decreases down the table, and at equal padj absLog2FC never increases |
| StageClassification.SelectFeatures | NN_stage_classification.py:56-57 | an expression row is kept exactly when its gene is a selected DE gene or one of the proton transporters; the columns are unchanged |
| StageClassification.FeaturesKeepOrder | NN_stage_classification.py:57 | the feature rows keep the expression matrix's row order |
| StageClassification.FeaturesIgnoreDeOrder | NN_stage_classification.py:56 | the features depend only on the set of DE labels: two DE tables with the same labels, in any order, repetition or cells, select the same features |
| StageClassification.SortDoesNotChangeFeatures | NN_stage_classification.py:49-57 | sorting the DE table does not change the selected features |

## Left out

- Reading the CSV files (`NN_stage_classification.py:24-29, 42`) and the path constants: the frames are parameters.
- The script's glue steps: indexing by `Ensembl` and the drop at lines 30-31, and the calls at lines 32-35 and 43-45. Each called function is modelled on its own.
- The summary `print` at lines 50-53, including its `isin` count: it is output only.
- The numpy conversion (lines 59-60), `LabelEncoder`, `train_test_split` and the network (from line 61 on): outside the data preparation.
- Floating point: cells are exact reals. So TPM columns sum to exactly 1e6, TPM of TPM is exact, and 0.001 is exact.
- Tpm.FpkmToTpm: requires every column sum to be positive. With a zero sum pandas yields NaN or infinity, and with a negative sum the values are meaningless; neither is modelled.
- Tpm.FpkmToTpm: the matrix holds numbers only. Text cells, which `df.sum` would concatenate, are not modelled.
- BarcodeStage.GetBarcodeStage: the barcode, project and sample type are text. A missing `sample_type` makes the mask at line 39 raise a ValueError, which is not modelled. A missing `tumor_stage` is modelled: it matches no stage.
- BarcodeStage.GetBarcodeStage: a `tumor_stage` column with no text at all makes `.str` raise an AttributeError, which is not modelled.
- BarcodeStage.IsSpace and Lower: regular-expression `\s` and `str.lower` act on ASCII only. Other Unicode spaces and case pairs are not modelled.
- GeneId.StripVersion: `str.replace` is modelled as a regular-expression replace, which is the pandas behaviour before version 2. From version 2 on the pattern is literal.
- GeneId.StripCell: when the key column holds no text at all, `.str` raises an AttributeError. By then line 90 has already added the "index" column to the caller's frame. The model instead makes every cell missing, and does not model that exception.
- GeneId.StripCell: a non-text key cell becomes missing, as `.str.replace` makes it. Missing keys on the two sides of the merge join each other, as they do in pandas. The distinction between NaN and None is not modelled.
- GeneId.IsDigit: `\d` is taken as the ASCII digits 0-9. Python's `\d` also matches other Unicode decimal digits, which are not modelled.
- Tables.Merge: pandas raises a ValueError when a text key column is merged with a numeric one (line 94). The model does not raise; text and number cells simply never match.
- GeneId.ConvertedTable: requires NoLabelClash, meaning the two frames share no column label and the IDs are distinct from `colName`. Otherwise pandas adds `_x`/`_y` suffixes, and those suffixes are not modelled.
- Duplicate column labels: data frames that have them are excluded by the requires clauses.
- StageClassification.FilterDe: the column `absLog2FC` is required to exist, because it is always added by the previous step.
- StageClassification.SortRows: the sort is a stable insertion sort over the key order. pandas sorts by two keys with a stable lexicographic sort and puts missing keys last, which gives the same order. The sorting algorithm itself is not modelled.
- StageClassification.SelectFeatures: it takes the feature genes as the set of index cells. Text and numbers are compared as cells, not converted to one type.
- Concurrency and aliasing between frames: the caller's frame is one `Frame` object and the map is a value.

## Behaviour worth knowing

Places where the code does something its documentation or naming does
not suggest. Each is proved about the model; none is claimed to be a bug:

- The stage patterns are applied to `tumor_stage` without lower-casing, so
  "Stage IIA" matches no stage (BarcodeStage.StageMatchingIsCaseSensitive).
- A stage text containing two stage digits puts the sample in two stages,
  and the reindex at `NN_stage_classification.py:39` then duplicates it
  (BarcodeStage.NoDeduplication, StageClassification.SampleInTwoStages).
- The version strip removes only the last dot-and-digits suffix, so it is
  idempotent only on IDs whose base has no dot
  (GeneId.StripNotIdempotent, GeneId.StripIdempotentOnEnsemblIds).
