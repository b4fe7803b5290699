/**
 * get_barcode_stage: the barcodes of one project, each with its cancer-stage
 * label ("normal", "i", "ii", "iii", "iv"), derived from the free-text
 * `sample_type` and `tumor_stage` fields of an annotation table.
 *
 * The fixed regular expressions of the source are written out as string
 * predicates. `re.search` semantics are kept: `^` anchors at the start,
 * `$` at the end or just before a final newline.
 */
module BarcodeStage {
  import opened Wrappers
  import opened Tables

  /**
   * One annotation row (the columns the classifier reads). The stage text
   * may be missing (NaN); the other fields are text.
   */
  datatype Annotation = Annotation(barcode: string, project: string, sampleType: string, tumorStage: Option<string>)

  /** One row of the result: a barcode and its `cancer_stage` label. */
  datatype StageRow = StageRow(barcode: string, cancerStage: string)

  /** The four tumour stages, tested in this order. */
  datatype Stage = I | II | III | IV

  /** The five output groups, concatenated in this order. */
  datatype Group = Normal | Staged(stage: Stage)

  function GroupName(g: Group): string {
    match g
    case Normal => "normal"
    case Staged(I) => "i"
    case Staged(II) => "ii"
    case Staged(III) => "iii"
    case Staged(IV) => "iv"
  }

  /** Position of a group in the output. */
  function Rank(g: Group): nat {
    match g
    case Normal => 0
    case Staged(I) => 1
    case Staged(II) => 2
    case Staged(III) => 3
    case Staged(IV) => 4
  }

  // ---------------------------------------------------------------------
  // Text predicates

  /** `\s`, restricted to ASCII: tab to carriage return, the four separators, space. */
  predicate IsSpace(c: char) {
    ('\t' <= c <= '\r') || ('\U{1C}' <= c <= '\U{1F}') || c == ' '
  }

  /** `str.lower()`, restricted to ASCII letters. */
  function LowerChar(c: char): char {
    if 'A' <= c <= 'Z' then (c as int + 32) as char else c
  }

  function Lower(s: string): string {
    seq(|s|, i requires 0 <= i < |s| => LowerChar(s[i]))
  }

  /** `t` occurs in `s` as a contiguous substring. */
  predicate Contains(s: string, t: string)
    decreases |s|
  {
    |t| <= |s| && (s[..|t|] == t || Contains(s[1..], t))
  }

  /** `t` is at some position of `s`. */
  predicate OccursAt(s: string, t: string, i: int) {
    0 <= i && i + |t| <= |s| && s[i..i + |t|] == t
  }

  /** `Contains` finds `t` exactly when `t` is at some position of `s`. */
  lemma {:induction false} ContainsIff(s: string, t: string)
    ensures Contains(s, t) <==> exists i :: OccursAt(s, t, i)
    decreases |s|
  {
    if |t| <= |s| {
      if s[..|t|] == t {
        assert OccursAt(s, t, 0);
      } else {
        ContainsIff(s[1..], t);
        if Contains(s[1..], t) {
          var i :| OccursAt(s[1..], t, i);
          assert s[1..][i..i + |t|] == s[i + 1..i + 1 + |t|];
          assert OccursAt(s, t, i + 1);
        }
        if exists i :: OccursAt(s, t, i) {
          var i :| OccursAt(s, t, i);
          assert i > 0;
          assert s[1..][i - 1..i - 1 + |t|] == s[i..i + |t|];
          assert OccursAt(s[1..], t, i - 1);
        }
      }
    }
  }

  /**
   * `sample_type.str.lower().str.contains("normal")`: "normal" occurs in
   * the lower-cased sample type.
   */
  function IsNormalSample(sampleType: string): (r: bool)
    ensures r <==> exists i :: OccursAt(Lower(sampleType), "normal", i)
  {
    ContainsIff(Lower(sampleType), "normal");
    Contains(Lower(sampleType), "normal")
  }

  /** `^t$`: the whole text is `t`, optionally followed by one newline. */
  predicate WholeMatch(s: string, t: string) {
    s == t || s == t + "\n"
  }

  /** `u` ends with a whitespace character, `t`, and optionally one of a, b, c. */
  predicate EndsWithToken(u: string, t: string) {
    || (|u| >= |t| + 1 && IsSpace(u[|u| - |t| - 1]) && u[|u| - |t|..] == t)
    || (|u| >= |t| + 2 && u[|u| - 1] in "abc" && IsSpace(u[|u| - |t| - 2]) && u[|u| - |t| - 1..|u| - 1] == t)
  }

  /** `\st[abc]?$`, where `$` also matches before a final newline. */
  predicate TokenAtEnd(s: string, t: string) {
    EndsWithToken(s, t) || (|s| > 0 && s[|s| - 1] == '\n' && EndsWithToken(s[..|s| - 1], t))
  }

  function Numeral(st: Stage): string {
    match st
    case I => "i"
    case II => "ii"
    case III => "iii"
    case IV => "iv"
  }

  function Digit(st: Stage): char {
    match st
    case I => '1'
    case II => '2'
    case III => '3'
    case IV => '4'
  }

  /**
   * `tumor_stage.str.contains(r"^i$|\si[abc]?$|1")` and its three siblings
   * for ii (`i{2}`), iii (`i{3}`) and iv. Case-sensitive: the text is not
   * lower-cased first.
   */
  function MatchesStage(st: Stage, tumorStage: string): (r: bool)
    ensures Digit(st) in tumorStage ==> r
    ensures r ==> Digit(st) in tumorStage || exists i :: OccursAt(tumorStage, Numeral(st), i)
  {
    var n := Numeral(st);
    if WholeMatch(tumorStage, n) then
      assert tumorStage[0..|n|] == n;
      assert OccursAt(tumorStage, n, 0);
      true
    else if TokenAtEnd(tumorStage, n) then
      var u := if EndsWithToken(tumorStage, n) then tumorStage else tumorStage[..|tumorStage| - 1];
      assert EndsWithToken(u, n);
      var i := if |u| >= |n| + 1 && IsSpace(u[|u| - |n| - 1]) && u[|u| - |n|..] == n then |u| - |n| else |u| - |n| - 1;
      assert u[i..i + |n|] == tumorStage[i..i + |n|];
      assert OccursAt(tumorStage, n, i);
      true
    else
      Digit(st) in tumorStage
  }

  /** The stage text is present and matches `st`; a missing text matches no stage. */
  predicate StageTextMatches(st: Stage, tumorStage: Option<string>) {
    tumorStage.Some? && MatchesStage(st, tumorStage.value)
  }

  // ---------------------------------------------------------------------
  // The classifier

  function Barcodes(rows: seq<Annotation>): seq<string> {
    seq(|rows|, i requires 0 <= i < |rows| => rows[i].barcode)
  }

  /** The result rows for one group: each barcode with the group's label. */
  function Tag(barcodes: seq<string>, g: Group): (r: seq<StageRow>)
    ensures |r| == |barcodes|
  {
    seq(|barcodes|, i requires 0 <= i < |barcodes| => StageRow(barcodes[i], GroupName(g)))
  }

  function InProject(project: string): Annotation -> bool {
    (r: Annotation) => r.project == project
  }

  function NormalRow(): Annotation -> bool {
    (r: Annotation) => IsNormalSample(r.sampleType)
  }

  /** Rows whose barcode is not a normal one and whose stage text matches `st`. */
  function StageRowOf(normals: seq<string>, st: Stage): Annotation -> bool {
    (r: Annotation) => r.barcode !in normals && StageTextMatches(st, r.tumorStage)
  }

  /**
   * The barcode list of one group of the project's rows `annot`:
   * `normalUUID` for the normal group, `stage1ID` ... `stage4ID` for the
   * stages (which leave out every barcode that is in `normalUUID`).
   */
  function GroupBarcodes(annot: seq<Annotation>, g: Group): seq<string> {
    var normalUUID := Barcodes(Filter(annot, NormalRow()));
    match g
    case Normal => normalUUID
    case Staged(st) => Barcodes(Filter(annot, StageRowOf(normalUUID, st)))
  }

  function GroupLists(annot: seq<Annotation>): Group -> seq<string> {
    (g: Group) => GroupBarcodes(annot, g)
  }

  /** The order in which the groups are concatenated. */
  const GroupOrder: seq<Group> := [Normal, Staged(I), Staged(II), Staged(III), Staged(IV)]

  /** `normalUUID + stage1ID + ... + stage4ID`, each barcode with its group's label. */
  function Blocks(lists: Group -> seq<string>, gs: seq<Group>): seq<StageRow>
    decreases |gs|
  {
    if |gs| == 0 then [] else Tag(lists(gs[0]), gs[0]) + Blocks(lists, gs[1..])
  }

  function ProjectNotFound(project: string): Error {
    AssertionError(project + " not found in annotation.")
  }

  /**
   * The project must occur in the annotation, or the assertion fails with a
   * message naming it; otherwise the five groups, concatenated.
   */
  function GetBarcodeStage(annotation: seq<Annotation>, project: string): (r: Result<seq<StageRow>, Error>)
    ensures r.Failure? <==> forall a :: a in annotation ==> a.project != project
    ensures r.Failure? ==> r.error == AssertionError(project + " not found in annotation.")
  {
    if !exists r :: r in annotation && r.project == project then
      Failure(ProjectNotFound(project))
    else
      Success(Blocks(GroupLists(Filter(annotation, InProject(project))), GroupOrder))
  }

  // ---------------------------------------------------------------------
  // Reference definitions: which annotation rows belong to which group

  /** `b` is the barcode of some row of `project` whose sample type says normal. */
  predicate IsNormalBarcode(annotation: seq<Annotation>, project: string, b: string) {
    exists r :: r in annotation && r.project == project && r.barcode == b && IsNormalSample(r.sampleType)
  }

  /**
   * Row `r` contributes to group `g`: it belongs to `project` and either
   * its sample type says normal (group "normal"), or no row of the project
   * with its barcode is normal and its stage text matches the stage.
   */
  predicate InGroup(annotation: seq<Annotation>, project: string, g: Group, r: Annotation) {
    && r.project == project
    && match g
       case Normal => IsNormalSample(r.sampleType)
       case Staged(st) => !IsNormalBarcode(annotation, project, r.barcode) && StageTextMatches(st, r.tumorStage)
  }

  function Member(annotation: seq<Annotation>, project: string, g: Group): Annotation -> bool {
    (r: Annotation) => InGroup(annotation, project, g, r)
  }

  function HasLabel(g: Group): StageRow -> bool {
    (row: StageRow) => row.cancerStage == GroupName(g)
  }

  /** The label of a result row, as a position in the fixed group order. */
  function LabelRank(name: string): nat {
    if name == "normal" then 0
    else if name == "i" then 1
    else if name == "ii" then 2
    else if name == "iii" then 3
    else if name == "iv" then 4
    else 5
  }

  lemma {:induction false} BarcodesMember(rows: seq<Annotation>, b: string)
    ensures b in Barcodes(rows) <==> exists r :: r in rows && r.barcode == b
  {
    if b in Barcodes(rows) {
      var i :| 0 <= i < |rows| && Barcodes(rows)[i] == b;
      assert rows[i] in rows;
    }
    if exists r :: r in rows && r.barcode == b {
      var r :| r in rows && r.barcode == b;
      var i :| 0 <= i < |rows| && rows[i] == r;
      assert Barcodes(rows)[i] == b;
    }
  }

  lemma NormalBarcodesAre(annotation: seq<Annotation>, project: string, b: string)
    ensures b in GroupBarcodes(Filter(annotation, InProject(project)), Normal) <==> IsNormalBarcode(annotation, project, b)
  {
    BarcodesMember(Filter(Filter(annotation, InProject(project)), NormalRow()), b);
  }

  lemma {:induction false} FilterTag(bs: seq<string>, h: Group, g: Group)
    ensures Filter(Tag(bs, h), HasLabel(g)) == if h == g then Tag(bs, h) else []
  {
    if |bs| > 0 {
      assert Tag(bs, h) == [StageRow(bs[0], GroupName(h))] + Tag(bs[1..], h);
      FilterTag(bs[1..], h, g);
    }
  }

  lemma GroupNameInjective(g: Group, h: Group)
    ensures GroupName(g) == GroupName(h) <==> g == h
  {
  }

  /** Picking one label out of the concatenation gives back that group's list. */
  lemma {:induction false} FilterBlocks(lists: Group -> seq<string>, gs: seq<Group>, g: Group)
    requires NoDup(gs)
    ensures Filter(Blocks(lists, gs), HasLabel(g)) == if g in gs then Tag(lists(g), g) else []
  {
    if |gs| > 0 {
      var rest := Blocks(lists, gs[1..]);
      FilterAppend(Tag(lists(gs[0]), gs[0]), rest, HasLabel(g));
      forall h ensures Filter(Tag(lists(h), h), HasLabel(g)) == if h == g then Tag(lists(h), h) else [] {
        GroupNameInjective(g, h);
        FilterTag(lists(h), h, g);
      }
      assert NoDup(gs[1..]);
      FilterBlocks(lists, gs[1..], g);
      assert g in gs <==> g == gs[0] || g in gs[1..];
      if g == gs[0] {
        assert g !in gs[1..];
      }
    }
  }

  /** Each group's list holds the barcodes of its `Member` rows, in annotation order. */
  lemma GroupList(annotation: seq<Annotation>, project: string, g: Group)
    ensures GroupBarcodes(Filter(annotation, InProject(project)), g)
      == Barcodes(Filter(annotation, Member(annotation, project, g)))
  {
    var annot := Filter(annotation, InProject(project));
    var normalUUID := Barcodes(Filter(annot, NormalRow()));
    match g
    case Normal =>
      FilterFilter(annotation, InProject(project), NormalRow(), Member(annotation, project, g));
    case Staged(st) =>
      forall b ensures b in normalUUID <==> IsNormalBarcode(annotation, project, b) {
        NormalBarcodesAre(annotation, project, b);
      }
      FilterFilter(annotation, InProject(project), StageRowOf(normalUUID, st), Member(annotation, project, g));
  }

  lemma GroupOrderHasAll(g: Group)
    ensures g in GroupOrder && NoDup(GroupOrder)
  {
    assert GroupOrder[Rank(g)] == g;
  }

  /**
   * For every group, the result rows carrying its label are exactly the
   * barcodes of the annotation rows belonging to it, in annotation order:
   * no row is deduplicated, and a row matching several stage patterns is
   * in each of their groups.
   */
  lemma StageRowsOfGroup(annotation: seq<Annotation>, project: string, g: Group)
    requires GetBarcodeStage(annotation, project).Success?
    ensures Filter(GetBarcodeStage(annotation, project).value, HasLabel(g))
      == Tag(Barcodes(Filter(annotation, Member(annotation, project, g))), g)
  {
    var annot := Filter(annotation, InProject(project));
    LabelBlock(GroupLists(annot), g);
    assert GroupLists(annot)(g) == GroupBarcodes(annot, g);
    GroupList(annotation, project, g);
  }

  /** In the five concatenated groups, the rows labelled `g` are `g`'s block. */
  lemma LabelBlock(lists: Group -> seq<string>, g: Group)
    ensures Filter(Blocks(lists, GroupOrder), HasLabel(g)) == Tag(lists(g), g)
  {
    GroupOrderHasAll(g);
    FilterBlocks(lists, GroupOrder, g);
  }

  predicate RanksSorted(rows: seq<StageRow>) {
    forall k, l :: 0 <= k < l < |rows| ==> LabelRank(rows[k].cancerStage) <= LabelRank(rows[l].cancerStage)
  }

  lemma NameRank(g: Group)
    ensures LabelRank(GroupName(g)) == Rank(g)
  {
  }

  /** Every label in the concatenation is the name of one of the groups. */
  lemma {:induction false} BlocksLabels(lists: Group -> seq<string>, gs: seq<Group>)
    ensures forall k :: 0 <= k < |Blocks(lists, gs)| ==>
      exists i :: 0 <= i < |gs| && Blocks(lists, gs)[k].cancerStage == GroupName(gs[i])
  {
    if |gs| > 0 {
      var head, rest := Tag(lists(gs[0]), gs[0]), Blocks(lists, gs[1..]);
      BlocksLabels(lists, gs[1..]);
      var b := head + rest;
      assert Blocks(lists, gs) == b;
      forall k | 0 <= k < |b| ensures exists i :: 0 <= i < |gs| && b[k].cancerStage == GroupName(gs[i]) {
        if k >= |head| {
          var i :| 0 <= i < |gs[1..]| && rest[k - |head|].cancerStage == GroupName(gs[1..][i]);
          assert b[k].cancerStage == GroupName(gs[i + 1]);
        } else {
          assert b[k].cancerStage == GroupName(gs[0]);
        }
      }
    } else {
      assert Blocks(lists, gs) == [];
    }
  }

  /** With ranks increasing, no label ranks below the first group. */
  lemma BlocksRankFrom(lists: Group -> seq<string>, gs: seq<Group>)
    requires |gs| > 0 && forall i, j :: 0 <= i < j < |gs| ==> Rank(gs[i]) < Rank(gs[j])
    ensures forall k :: 0 <= k < |Blocks(lists, gs)| ==> LabelRank(Blocks(lists, gs)[k].cancerStage) >= Rank(gs[0])
  {
    var b := Blocks(lists, gs);
    BlocksLabels(lists, gs);
    forall k | 0 <= k < |b| ensures LabelRank(b[k].cancerStage) >= Rank(gs[0]) {
      var i :| 0 <= i < |gs| && b[k].cancerStage == GroupName(gs[i]);
      NameRank(gs[i]);
    }
  }

  /** Concatenating groups of increasing rank lists the labels in rank order. */
  lemma {:induction false} BlocksInOrder(lists: Group -> seq<string>, gs: seq<Group>)
    requires forall i, j :: 0 <= i < j < |gs| ==> Rank(gs[i]) < Rank(gs[j])
    ensures RanksSorted(Blocks(lists, gs))
  {
    if |gs| > 0 {
      var head, rest := Tag(lists(gs[0]), gs[0]), Blocks(lists, gs[1..]);
      BlocksInOrder(lists, gs[1..]);
      if |gs| > 1 {
        BlocksRankFrom(lists, gs[1..]);
        assert gs[1..][0] == gs[1];
      }
      NameRank(gs[0]);
      var b := head + rest;
      assert Blocks(lists, gs) == b;
      forall k, l | 0 <= k < l < |b| ensures LabelRank(b[k].cancerStage) <= LabelRank(b[l].cancerStage) {
        if k < |head| && l >= |head| {
          assert b[k].cancerStage == GroupName(gs[0]);
          assert b[l] == rest[l - |head|];
        } else if k >= |head| {
          assert b[k] == rest[k - |head|] && b[l] == rest[l - |head|];
        }
      }
    }
  }

  /**
   * The five groups concatenated in their fixed order list the labels in
   * rank order, and every label is one of the five names.
   */
  lemma GroupOrderBlocks(lists: Group -> seq<string>)
    ensures RanksSorted(Blocks(lists, GroupOrder))
    ensures forall k :: 0 <= k < |Blocks(lists, GroupOrder)| ==>
      Blocks(lists, GroupOrder)[k].cancerStage in ["normal", "i", "ii", "iii", "iv"]
  {
    var b := Blocks(lists, GroupOrder);
    BlocksInOrder(lists, GroupOrder);
    BlocksLabels(lists, GroupOrder);
    forall k | 0 <= k < |b| ensures b[k].cancerStage in ["normal", "i", "ii", "iii", "iv"] {
      var i :| 0 <= i < |GroupOrder| && b[k].cancerStage == GroupName(GroupOrder[i]);
    }
  }

  /**
   * The result lists the groups in the fixed order normal, i, ii, iii, iv,
   * and every label is one of those five names.
   */
  lemma GroupsInOrder(annotation: seq<Annotation>, project: string)
    requires GetBarcodeStage(annotation, project).Success?
    ensures RanksSorted(GetBarcodeStage(annotation, project).value)
    ensures forall k :: 0 <= k < |GetBarcodeStage(annotation, project).value| ==>
      GetBarcodeStage(annotation, project).value[k].cancerStage in ["normal", "i", "ii", "iii", "iv"]
  {
    GroupOrderBlocks(GroupLists(Filter(annotation, InProject(project))));
  }

  lemma {:induction false} TagMember(rows: seq<Annotation>, g: Group, row: StageRow)
    ensures row in Tag(Barcodes(rows), g) <==>
      row.cancerStage == GroupName(g) && exists r :: r in rows && r.barcode == row.barcode
  {
    BarcodesMember(rows, row.barcode);
    if row.cancerStage == GroupName(g) && row.barcode in Barcodes(rows) {
      var i :| 0 <= i < |rows| && Barcodes(rows)[i] == row.barcode;
      assert Tag(Barcodes(rows), g)[i] == row;
    }
  }

  /**
   * Membership in both directions: a result row labelled with group `g`
   * carries the barcode of an annotation row of that group, and every
   * annotation row of a group gives a result row with the group's label.
   */
  lemma StageRowMembership(annotation: seq<Annotation>, project: string, g: Group, b: string)
    requires GetBarcodeStage(annotation, project).Success?
    ensures StageRow(b, GroupName(g)) in GetBarcodeStage(annotation, project).value <==>
      exists r :: r in annotation && InGroup(annotation, project, g, r) && r.barcode == b
  {
    var out := GetBarcodeStage(annotation, project).value;
    var row := StageRow(b, GroupName(g));
    StageRowsOfGroup(annotation, project, g);
    var members := Filter(annotation, Member(annotation, project, g));
    TagMember(members, g, row);
    assert row in out <==> row in Filter(out, HasLabel(g));
  }

  /** A barcode labelled "normal" never also carries a stage label. */
  lemma NormalsNeverStaged(annotation: seq<Annotation>, project: string, k: nat, l: nat)
    requires GetBarcodeStage(annotation, project).Success?
    requires k < |GetBarcodeStage(annotation, project).value| && l < |GetBarcodeStage(annotation, project).value|
    requires GetBarcodeStage(annotation, project).value[k].cancerStage == "normal"
    requires GetBarcodeStage(annotation, project).value[l].cancerStage != "normal"
    ensures GetBarcodeStage(annotation, project).value[k].barcode != GetBarcodeStage(annotation, project).value[l].barcode
  {
    var out := GetBarcodeStage(annotation, project).value;
    GroupsInOrder(annotation, project);
    var rk, rl := out[k], out[l];
    var g := GroupOfLabel(rl.cancerStage);
    assert rl == StageRow(rl.barcode, GroupName(g)) && g.Staged?;
    assert rk == StageRow(rk.barcode, GroupName(Normal));
    StageRowMembership(annotation, project, Normal, rk.barcode);
    StageRowMembership(annotation, project, g, rl.barcode);
    var r :| r in annotation && InGroup(annotation, project, Normal, r) && r.barcode == rk.barcode;
    assert IsNormalBarcode(annotation, project, rk.barcode);
  }

  /**
   * A barcode whose rows in the project all lack a stage text and have a
   * sample type that is not normal gets no result row at all: NaN from
   * `str.contains` counts as False in the `&` of each stage mask.
   */
  lemma MissingStageNeverLabelled(annotation: seq<Annotation>, project: string, b: string, k: nat)
    requires GetBarcodeStage(annotation, project).Success?
    requires forall r :: r in annotation && r.project == project && r.barcode == b ==>
      r.tumorStage.None? && !IsNormalSample(r.sampleType)
    requires k < |GetBarcodeStage(annotation, project).value|
    ensures GetBarcodeStage(annotation, project).value[k].barcode != b
  {
    var out := GetBarcodeStage(annotation, project).value;
    GroupsInOrder(annotation, project);
    var g := GroupOfLabel(out[k].cancerStage);
    assert out[k] == StageRow(out[k].barcode, GroupName(g)) && out[k] in out;
    assert forall r :: r in annotation && r.barcode == b ==> !InGroup(annotation, project, g, r);
    StageRowMembership(annotation, project, g, b);
  }

  /** The group whose name is `name`, for the five names. */
  function GroupOfLabel(name: string): (g: Group)
    ensures name in ["normal", "i", "ii", "iii", "iv"] ==> GroupName(g) == name
    ensures name != "normal" ==> g.Staged?
  {
    if name == "normal" then Normal
    else if name == "i" then Staged(I)
    else if name == "ii" then Staged(II)
    else if name == "iii" then Staged(III)
    else Staged(IV)
  }

  // ---------------------------------------------------------------------
  // How the stage patterns separate sub-stages

  predicate NoDigits(s: string) {
    forall i :: 0 <= i < |s| ==> !('0' <= s[i] <= '9')
  }

  /** Every character of `t` is `i` or `v`, as in a roman stage numeral. */
  predicate Roman(t: string) {
    |t| > 0 && forall i :: 0 <= i < |t| ==> t[i] == 'i' || t[i] == 'v'
  }

  /** After a whitespace character, the only numeral that ends the text is the last one. */
  lemma SpacedNumeralSuffix(w: string, c: char, n: string, t: string)
    requires IsSpace(c) && Roman(n) && Roman(t)
    ensures var v := w + [c] + n;
      (|v| >= |t| + 1 && IsSpace(v[|v| - |t| - 1]) && v[|v| - |t|..] == t) <==> t == n
  {
    var v := w + [c] + n;
    if |t| < |n| {
      assert v[|v| - |t| - 1] == n[|n| - |t| - 1];
    } else if |t| == |n| {
      assert |v| - |t| - 1 == |w|;
      assert v[|v| - |t|..] == n;
      assert v[|w|] == c;
    } else {
      assert t[|t| - |n| - 1] != c;
      if |v| >= |t| + 1 {
        assert v[|v| - |t|..][|t| - |n| - 1] == c;
      }
    }
  }

  /** A roman numeral, optionally followed by a sub-stage letter, holds no digit and no newline. */
  lemma NoDigitInStageText(p: string, c: char, n: string, x: string, d: char)
    requires NoDigits(p) && IsSpace(c) && Roman(n) && '0' <= d <= '9'
    requires x in ["", "a", "b", "c"]
    ensures d !in p + [c] + n + x
    ensures (p + [c] + n + x)[|p + [c] + n + x| - 1] != '\n'
  {
    var u := p + [c] + n + x;
    forall i | 0 <= i < |u| ensures u[i] != d {
      if i < |p| { assert u[i] == p[i]; }
      else if i == |p| { assert u[i] == c; }
      else if i < |p| + 1 + |n| { assert u[i] == n[i - |p| - 1]; }
      else { assert u[i] == x[i - |p| - 1 - |n|]; }
    }
    if x == "" { assert u[|u| - 1] == n[|n| - 1]; }
  }

  /** A text holding whitespace is never a bare numeral. */
  lemma NotWholeNumeral(p: string, c: char, n: string, x: string, t: string)
    requires IsSpace(c) && Roman(n) && Roman(t)
    ensures !WholeMatch(p + [c] + n + x, t)
  {
    var u := p + [c] + n + x;
    assert u[|p|] == c;
  }

  /** The token alternatives of the stage pattern accept exactly the text's own numeral. */
  lemma TokenAtEndOfStageText(p: string, c: char, n: string, x: string, t: string)
    requires IsSpace(c) && Roman(n) && Roman(t)
    requires x in ["", "a", "b", "c"]
    ensures EndsWithToken(p + [c] + n + x, t) <==> t == n
  {
    var v := p + [c] + n;
    var u := v + x;
    SpacedNumeralSuffix(p, c, n, t);
    if x == "" {
      assert u == v;
      assert v[|v| - 1] == n[|n| - 1];
    } else {
      assert u[..|u| - 1] == v;
      assert u[|u| - 1] == x[0];
      if |u| >= |t| + 1 {
        assert u[|u| - |t|..][|t| - 1] == u[|u| - 1];
      }
      if |u| >= |t| + 2 {
        assert u[|u| - |t| - 2] == v[|v| - |t| - 1];
        assert u[|u| - |t| - 1..|u| - 1] == v[|v| - |t|..];
      }
    }
  }

  /**
   * A stage text made of digit-free words, a whitespace character, a
   * roman numeral and an optional sub-stage letter a, b or c matches the
   * pattern of that numeral's stage and of no other stage.
   */
  lemma StageTokenSeparates(p: string, c: char, st: Stage, x: string, other: Stage)
    requires NoDigits(p) && IsSpace(c)
    requires x in ["", "a", "b", "c"]
    ensures MatchesStage(other, p + [c] + Numeral(st) + x) <==> other == st
  {
    var u := p + [c] + Numeral(st) + x;
    assert Roman(Numeral(st)) && Roman(Numeral(other));
    NoDigitInStageText(p, c, Numeral(st), x, Digit(other));
    NotWholeNumeral(p, c, Numeral(st), x, Numeral(other));
    TokenAtEndOfStageText(p, c, Numeral(st), x, Numeral(other));
    assert Numeral(st) == Numeral(other) <==> other == st;
    assert !TokenAtEnd(u, Numeral(other)) <==> !EndsWithToken(u, Numeral(other));
  }

  /** "stage iia", "stage iv" and "stage i" each match their own stage only. */
  lemma SubStagesSeparate(other: Stage)
    ensures MatchesStage(other, "stage iia") <==> other == II
    ensures MatchesStage(other, "stage iv") <==> other == IV
    ensures MatchesStage(other, "stage i") <==> other == I
  {
    StageTokenSeparates("stage", ' ', II, "a", other);
    assert "stage" + [' '] + Numeral(II) + "a" == "stage iia";
    StageTokenSeparates("stage", ' ', IV, "", other);
    assert "stage" + [' '] + Numeral(IV) + "" == "stage iv";
    StageTokenSeparates("stage", ' ', I, "", other);
    assert "stage" + [' '] + Numeral(I) + "" == "stage i";
  }

  /** `t` found at position `i` of `s` makes `Contains(s, t)` hold. */
  lemma {:induction false} ContainsAt(s: string, t: string, i: nat)
    requires i + |t| <= |s| && s[i..i + |t|] == t
    ensures Contains(s, t)
    decreases i
  {
    if i > 0 {
      assert s[1..][i - 1..i - 1 + |t|] == t;
      ContainsAt(s[1..], t, i - 1);
    }
  }

  /** A text containing `t` contains `t`'s first character. */
  lemma {:induction false} ContainsFirst(s: string, t: string)
    requires |t| > 0
    ensures Contains(s, t) ==> t[0] in s
    decreases |s|
  {
    if Contains(s, t) && s[..|t|] != t {
      ContainsFirst(s[1..], t);
      assert t[0] in s[1..];
    } else if Contains(s, t) {
      assert s[0] == t[0];
    }
  }

  /** Normal detection ignores case: "Solid Tissue Normal" is a normal sample. */
  lemma SolidTissueNormalIsNormal()
    ensures IsNormalSample("Solid Tissue Normal")
  {
    var l := Lower("Solid Tissue Normal");
    assert l == "solid tissue normal";
    ContainsAt(l, "normal", 13);
  }

  /**
   * Stage matching does not ignore case: "Stage IIA" matches no stage and
   * "stage iia" matches stage ii only.
   */
  lemma StageMatchingIsCaseSensitive(st: Stage)
    ensures !MatchesStage(st, "Stage IIA")
    ensures MatchesStage(st, "stage iia") <==> st == II
  {
    UpperCaseMatchesNoStage(st);
    StageTokenSeparates("stage", ' ', II, "a", st);
    assert "stage" + [' '] + Numeral(II) + "a" == "stage iia";
  }

  lemma UpperCaseMatchesNoStage(st: Stage)
    ensures !MatchesStage(st, "Stage IIA")
  {
    var u, t := "Stage IIA", Numeral(st);
    assert u[|u| - 1] == 'A' && t[|t| - 1] != 'A';
    assert u[|u| - |t|..][|t| - 1] == u[|u| - 1];
    assert forall i :: 0 <= i < |u| ==> u[i] != Digit(st);
  }

  lemma PrimaryTumorIsNotNormal()
    ensures !IsNormalSample("Primary Tumor")
  {
    assert Lower("Primary Tumor") == "primary tumor";
    ContainsFirst("primary tumor", "normal");
    assert 'n' !in "primary tumor";
  }

  /** "stage 1/2" holds the digits of stages i and ii only. */
  lemma Stage12Matches()
    ensures MatchesStage(I, "stage 1/2") && MatchesStage(II, "stage 1/2")
    ensures !MatchesStage(III, "stage 1/2") && !MatchesStage(IV, "stage 1/2")
  {
    var u := "stage 1/2";
    assert u[6] == '1' && u[8] == '2';
    assert '3' !in u && '4' !in u;
    assert u[|u| - 1] == '2';
    assert u[|u| - 3..] != "iii" && u[|u| - 2..] != "iv";
  }

  /** The group lists of a project whose only row is one non-normal row staged "stage 1/2". */
  lemma Stage12Lists(b: string, project: string)
    ensures var lists := GroupLists(Filter([Annotation(b, project, "Primary Tumor", Some("stage 1/2"))], InProject(project)));
      && lists(Normal) == [] && lists(Staged(I)) == [b] && lists(Staged(II)) == [b]
      && lists(Staged(III)) == [] && lists(Staged(IV)) == []
  {
    var r := Annotation(b, project, "Primary Tumor", Some("stage 1/2"));
    var annot := Filter([r], InProject(project));
    assert annot == [r] by { assert r in annot; }
    PrimaryTumorIsNotNormal();
    Stage12Matches();
    assert Filter(annot, NormalRow()) == [];
    assert Filter(annot, StageRowOf([], I)) == [r] by { assert r in Filter(annot, StageRowOf([], I)); }
    assert Filter(annot, StageRowOf([], II)) == [r] by { assert r in Filter(annot, StageRowOf([], II)); }
    assert Filter(annot, StageRowOf([], III)) == [];
    assert Filter(annot, StageRowOf([], IV)) == [];
  }

  /** Concatenating five group lists of which only those of stages i and ii are non-empty. */
  lemma BlocksOfTwoStages(lists: Group -> seq<string>, b: string)
    requires lists(Normal) == [] && lists(Staged(I)) == [b] && lists(Staged(II)) == [b]
    requires lists(Staged(III)) == [] && lists(Staged(IV)) == []
    ensures Blocks(lists, GroupOrder) == [StageRow(b, "i"), StageRow(b, "ii")]
  {
    assert Tag([], Normal) == [] && Tag([], Staged(III)) == [] && Tag([], Staged(IV)) == [];
    assert GroupName(Staged(I)) == "i" && GroupName(Staged(II)) == "ii";
    assert Tag([b], Staged(I))[0] == StageRow([b][0], GroupName(Staged(I)));
    assert Tag([b], Staged(I)) == [StageRow(b, "i")];
    assert Tag([b], Staged(II))[0] == StageRow([b][0], GroupName(Staged(II)));
    assert Tag([b], Staged(II)) == [StageRow(b, "ii")];
    assert GroupOrder[1..] == [Staged(I), Staged(II), Staged(III), Staged(IV)];
    assert GroupOrder[1..][1..] == [Staged(II), Staged(III), Staged(IV)];
    assert GroupOrder[1..][1..][1..] == [Staged(III), Staged(IV)];
    assert GroupOrder[1..][1..][1..][1..] == [Staged(IV)];
    assert Blocks(lists, [Staged(IV)]) == [];
    assert Blocks(lists, GroupOrder[1..][1..][1..]) == [];
    assert Blocks(lists, GroupOrder[1..][1..]) == [StageRow(b, "ii")];
    assert Blocks(lists, GroupOrder[1..]) == [StageRow(b, "i"), StageRow(b, "ii")];
  }

  /** A text containing both "1" and "2" puts a non-normal barcode in two stage lists. */
  lemma NoDeduplication(b: string, project: string)
    ensures GetBarcodeStage([Annotation(b, project, "Primary Tumor", Some("stage 1/2"))], project)
      == Success([StageRow(b, "i"), StageRow(b, "ii")])
  {
    var r := Annotation(b, project, "Primary Tumor", Some("stage 1/2"));
    Stage12Lists(b, project);
    BlocksOfTwoStages(GroupLists(Filter([r], InProject(project))), b);
    assert r in [r];
  }

  lemma {:induction false} BlocksOfEmptyLists(lists: Group -> seq<string>, gs: seq<Group>)
    requires forall g :: lists(g) == []
    ensures Blocks(lists, gs) == []
    decreases |gs|
  {
    if |gs| > 0 {
      assert Tag(lists(gs[0]), gs[0]) == [];
      BlocksOfEmptyLists(lists, gs[1..]);
    }
  }

  /**
   * A missing stage text matches no stage pattern: a sample that is not
   * normal and has no stage text is in no group.
   */
  lemma MissingStageUnstaged(b: string, project: string)
    ensures GetBarcodeStage([Annotation(b, project, "Primary Tumor", None)], project) == Success([])
  {
    var r := Annotation(b, project, "Primary Tumor", None);
    var annot := Filter([r], InProject(project));
    assert annot == [r] by { assert r in annot; }
    PrimaryTumorIsNotNormal();
    assert Filter(annot, NormalRow()) == [];
    var lists := GroupLists(annot);
    forall g ensures lists(g) == [] {
      match g
      case Normal =>
      case Staged(st) =>
        assert Filter(annot, StageRowOf([], st)) == [];
    }
    BlocksOfEmptyLists(lists, GroupOrder);
    assert r in [r];
  }
}
