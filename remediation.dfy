/** The tag-remediation workflow: the edited untagged rows are merged into a
    copy of the table by ResourceID, the completeness columns are recomputed
    for every row, and the metrics before and after are compared. */
module Remediation {
  import opened Table
  import opened Metrics
  import opened Filter

  /** One row of the data editor, holding the ten edit columns. ResourceID,
      Service, Region and MonthlyCostUSD are read-only in the editor, but the
      merge writes them back like the others. */
  datatype EditRow = EditRow(
    id: Option<string>,
    service: Option<string>,
    region: Option<string>,
    department: Option<string>,
    project: Option<string>,
    environment: Option<string>,
    owner: Option<string>,
    costCenter: Option<string>,
    cost: real,
    tagged: Option<string>)

  datatype EditColumn =
    | ResourceIdCol | ServiceCol | RegionCol | DepartmentCol | ProjectCol
    | EnvironmentCol | OwnerCol | CostCenterCol | MonthlyCostCol | TaggedCol

  /** The editor's columns, in the order the merge writes them. */
  const EditColumns: seq<EditColumn> := [
    ResourceIdCol, ServiceCol, RegionCol, DepartmentCol, ProjectCol,
    EnvironmentCol, OwnerCol, CostCenterCol, MonthlyCostCol, TaggedCol
  ]

  /** The content of one edit column, text or amount. */
  datatype Value = Text(text: Option<string>) | Amount(amount: real)

  function ColumnOf(r: Row, col: EditColumn): Value {
    match col
    case ResourceIdCol => Text(r.id)
    case ServiceCol => Text(r.service)
    case RegionCol => Text(r.region)
    case DepartmentCol => Text(r.department)
    case ProjectCol => Text(r.project)
    case EnvironmentCol => Text(r.environment)
    case OwnerCol => Text(r.owner)
    case CostCenterCol => Text(r.costCenter)
    case MonthlyCostCol => Amount(r.cost)
    case TaggedCol => Text(r.tagged)
  }

  function EditValue(e: EditRow, col: EditColumn): Value {
    match col
    case ResourceIdCol => Text(e.id)
    case ServiceCol => Text(e.service)
    case RegionCol => Text(e.region)
    case DepartmentCol => Text(e.department)
    case ProjectCol => Text(e.project)
    case EnvironmentCol => Text(e.environment)
    case OwnerCol => Text(e.owner)
    case CostCenterCol => Text(e.costCenter)
    case MonthlyCostCol => Amount(e.cost)
    case TaggedCol => Text(e.tagged)
  }

  /** Copy one column of an edited row into a table row: that column takes
      the edited value and every other column, derived ones included, is
      kept. */
  function SetColumn(r: Row, col: EditColumn, e: EditRow): (r': Row)
    ensures ColumnOf(r', col) == EditValue(e, col)
    ensures forall other :: other != col ==> ColumnOf(r', other) == ColumnOf(r, other)
    ensures r'.score == r.score && r'.percentage == r.percentage
  {
    match col
    case ResourceIdCol => r.(id := e.id)
    case ServiceCol => r.(service := e.service)
    case RegionCol => r.(region := e.region)
    case DepartmentCol => r.(department := e.department)
    case ProjectCol => r.(project := e.project)
    case EnvironmentCol => r.(environment := e.environment)
    case OwnerCol => r.(owner := e.owner)
    case CostCenterCol => r.(costCenter := e.costCenter)
    case MonthlyCostCol => r.(cost := e.cost)
    case TaggedCol => r.(tagged := e.tagged)
  }

  /** A table row with the first `j` edit columns (in `EditColumns` order)
      copied from `e`. */
  function WrittenUpTo(r: Row, e: EditRow, j: nat): Row {
    Row(if j > 0 then e.id else r.id,
        if j > 1 then e.service else r.service,
        if j > 2 then e.region else r.region,
        if j > 8 then e.cost else r.cost,
        if j > 9 then e.tagged else r.tagged,
        if j > 3 then e.department else r.department,
        if j > 4 then e.project else r.project,
        if j > 5 then e.environment else r.environment,
        if j > 6 then e.owner else r.owner,
        if j > 7 then e.costCenter else r.costCenter,
        r.score, r.percentage)
  }

  /** Writing column `j` extends the written prefix by one column. */
  lemma WriteNextColumn(r: Row, e: EditRow, j: nat)
    requires j < |EditColumns|
    ensures SetColumn(WrittenUpTo(r, e, j), EditColumns[j], e) == WrittenUpTo(r, e, j + 1)
  {
  }

  /** A table row with all ten edit columns taken from `e`; the two derived
      columns are left as they were. */
  function Overwrite(r: Row, e: EditRow): (r': Row)
    ensures r'.id == e.id && r'.service == e.service && r'.region == e.region
    ensures r'.cost == e.cost && r'.tagged == e.tagged
    ensures r'.department == e.department && r'.project == e.project
    ensures r'.environment == e.environment && r'.owner == e.owner
    ensures r'.costCenter == e.costCenter
    ensures r'.score == r.score && r'.percentage == r.percentage
  {
    Row(e.id, e.service, e.region, e.cost, e.tagged, e.department, e.project,
        e.environment, e.owner, e.costCenter, r.score, r.percentage)
  }

  /** The merge mask `remediated_df['ResourceID'] == row['ResourceID']`: an
      absent ResourceID equals nothing, not even another absent one. */
  predicate IdMatches(r: Row, e: EditRow): (b: bool)
    ensures r.id.None? || e.id.None? ==> !b
    ensures b ==> r.id == e.id
  {
    r.id.Some? && r.id == e.id
  }

  /** One edited row applied to every row with its ResourceID. */
  function ApplyEdit(rows: seq<Row>, e: EditRow): (r: seq<Row>)
    ensures |r| == |rows|
    ensures forall k :: 0 <= k < |r| ==> r[k].id == rows[k].id && r[k].score == rows[k].score
  {
    seq(|rows|, k requires 0 <= k < |rows| =>
      if IdMatches(rows[k], e) then Overwrite(rows[k], e) else rows[k])
  }

  /** The edited rows applied in order. */
  function ApplyEdits(rows: seq<Row>, edits: seq<EditRow>): (r: seq<Row>)
    ensures |r| == |rows|
    ensures forall k :: 0 <= k < |r| ==> r[k].id == rows[k].id && r[k].score == rows[k].score
  {
    if |edits| == 0 then rows
    else ApplyEdit(ApplyEdits(rows, edits[..|edits| - 1]), edits[|edits| - 1])
  }

  function RescoreAll(rows: seq<Row>): (r: seq<Row>)
    ensures |r| == |rows|
    ensures forall k :: 0 <= k < |r| ==> Consistent(r[k])
  {
    seq(|rows|, k requires 0 <= k < |rows| => Rescore(rows[k]))
  }

  /** The table the remediation page builds from `df` and the editor. */
  function Remediated(base: seq<Row>, edits: seq<EditRow>): (r: seq<Row>)
    ensures |r| == |base|
    ensures forall k :: 0 <= k < |r| ==> Consistent(r[k])
  {
    RescoreAll(ApplyEdits(base, edits))
  }

  /** No edited row after position `i` matches `r`. */
  predicate LaterMiss(edits: seq<EditRow>, r: Row, i: nat) {
    forall j :: i < j < |edits| ==> !IdMatches(r, edits[j])
  }

  /** The edit that the merge leaves in force on row `r`: the last edited row
      whose ResourceID matches it. */
  function LastMatch(edits: seq<EditRow>, r: Row): (m: Option<EditRow>)
    ensures m.Some? ==> m.value in edits && IdMatches(r, m.value)
    ensures m.Some? ==>
      exists i :: 0 <= i < |edits| && edits[i] == m.value && LaterMiss(edits, r, i)
    ensures m.None? ==> forall e :: e in edits ==> !IdMatches(r, e)
  {
    if |edits| == 0 then None
    else if IdMatches(r, edits[|edits| - 1]) then Some(edits[|edits| - 1])
    else
      assert edits == edits[..|edits| - 1] + [edits[|edits| - 1]];
      LastMatch(edits[..|edits| - 1], r)
  }

  /** Builds the remediated table: copies `df`, then for each edited row in
      turn computes the ResourceID mask and writes each edit column on the
      masked rows; finally recomputes the completeness columns of every row.
      `df` itself is not modified. */
  method Merge(df: array<Row>, edited: seq<EditRow>) returns (remediated: array<Row>)
    ensures fresh(remediated)
    ensures df[..] == old(df[..])
    ensures remediated[..] == Remediated(df[..], edited)
  {
    remediated := new Row[df.Length](k requires 0 <= k < df.Length reads df => df[k]);
    assert remediated[..] == ApplyEdits(df[..], edited[..0]);
    var i := 0;
    while i < |edited|
      invariant 0 <= i <= |edited|
      invariant remediated.Length == df.Length
      invariant remediated[..] == ApplyEdits(df[..], edited[..i])
    {
      var e := edited[i];
      var mask := seq(remediated.Length, k requires 0 <= k < remediated.Length reads remediated =>
        IdMatches(remediated[k], e));
      ghost var before := remediated[..];
      var j := 0;
      while j < |EditColumns|
        invariant 0 <= j <= |EditColumns|
        invariant forall k :: 0 <= k < remediated.Length ==>
          remediated[k] == if mask[k] then WrittenUpTo(before[k], e, j) else before[k]
      {
        var col := EditColumns[j];
        forall k | 0 <= k < remediated.Length && mask[k] {
          remediated[k] := SetColumn(remediated[k], col, e);
        }
        forall k | 0 <= k < remediated.Length && mask[k]
          ensures remediated[k] == WrittenUpTo(before[k], e, j + 1)
        {
          WriteNextColumn(before[k], e, j);
        }
        j := j + 1;
      }
      assert edited[..i + 1][..i] == edited[..i];
      assert remediated[..] == ApplyEdit(before, e);
      i := i + 1;
    }
    assert edited[..i] == edited;
    ghost var merged := remediated[..];
    forall k | 0 <= k < remediated.Length {
      remediated[k] := Rescore(remediated[k]);
    }
    assert remediated[..] == RescoreAll(merged);
  }

  /** Last writer wins: after the edits, each row is the original row
      overwritten by the last edited row with its ResourceID, or the original
      row when no edited row has it. Edited rows whose ResourceID matches
      nothing change nothing. */
  lemma {:induction false} ApplyEditsAt(base: seq<Row>, edits: seq<EditRow>, k: nat)
    requires k < |base|
    ensures ApplyEdits(base, edits)[k] ==
      match LastMatch(edits, base[k])
      case None => base[k]
      case Some(e) => Overwrite(base[k], e)
  {
    if |edits| > 0 {
      var init := edits[..|edits| - 1];
      var last := edits[|edits| - 1];
      ApplyEditsAt(base, init, k);
      var prev := ApplyEdits(base, init)[k];
      assert prev.id == base[k].id;
      assert IdMatches(prev, last) <==> IdMatches(base[k], last);
    }
  }

  /** Every row of the remediated table is the last-writer-wins merge of the
      original row, with its completeness columns recomputed. */
  lemma RemediatedAt(base: seq<Row>, edits: seq<EditRow>, k: nat)
    requires k < |base|
    ensures Remediated(base, edits)[k] ==
      match LastMatch(edits, base[k])
      case None => Rescore(base[k])
      case Some(e) => Rescore(Overwrite(base[k], e))
  {
    ApplyEditsAt(base, edits, k);
  }

  /** A row that no edited row matches is carried through unchanged when its
      completeness columns were already up to date. */
  lemma UnmatchedRowUnchanged(base: seq<Row>, edits: seq<EditRow>, k: nat)
    requires k < |base| && Consistent(base[k])
    requires forall e :: e in edits ==> !IdMatches(base[k], e)
    ensures Remediated(base, edits)[k] == base[k]
  {
    RemediatedAt(base, edits, k);
    RescoreIdempotent(base[k]);
  }

  /** When every edited row carries the ResourceID, Service, Region and cost
      of the rows it matches (as the editor's read-only columns intend), the
      merge leaves those four columns of every row as they were. */
  lemma ReadOnlyColumnsKept(base: seq<Row>, edits: seq<EditRow>, k: nat)
    requires k < |base|
    requires forall e :: e in edits && IdMatches(base[k], e) ==>
      e.service == base[k].service && e.region == base[k].region && e.cost == base[k].cost
    ensures var r := Remediated(base, edits)[k];
      r.id == base[k].id && r.service == base[k].service &&
      r.region == base[k].region && r.cost == base[k].cost
  {
    RemediatedAt(base, edits, k);
  }

  predicate ValidEnvironment(v: Option<string>) {
    v.Some? ==> v.value in {"Prod", "Dev", "Test"}
  }

  predicate ValidTagged(v: Option<string>) {
    v.Some? ==> v.value in {"Yes", "No"}
  }

  /** The editor only offers Prod/Dev/Test and Yes/No; under that
      constraint every row an edit reaches ends up with such values. */
  lemma EditedRowsWithinOptions(base: seq<Row>, edits: seq<EditRow>, k: nat)
    requires k < |base|
    requires forall e :: e in edits ==> ValidEnvironment(e.environment) && ValidTagged(e.tagged)
    requires exists e :: e in edits && IdMatches(base[k], e)
    ensures ValidEnvironment(Remediated(base, edits)[k].environment)
    ensures ValidTagged(Remediated(base, edits)[k].tagged)
  {
    RemediatedAt(base, edits, k);
  }

  /** Rows the editor offers: the untagged ones. */
  function UntaggedRows(s: seq<Row>): (r: seq<Row>)
    ensures |r| <= |s|
    ensures forall x :: x in r ==> x in s && IsNo(x)
    ensures forall x :: x in s && IsNo(x) ==> x in r
  {
    if |s| == 0 then []
    else (if IsNo(s[0]) then [s[0]] else []) + UntaggedRows(s[1..])
  }

  /** The untagged rows are a mask selection: each "No" row is kept as often
      as it occurs, every other row not at all, and input order is kept. */
  lemma {:induction false} UntaggedRowsSelection(s: seq<Row>)
    ensures forall x ::
      multiset(UntaggedRows(s))[x] == if IsNo(x) then multiset(s)[x] else 0
    ensures IsSubsequence(UntaggedRows(s), s)
  {
    if |s| > 0 {
      UntaggedRowsSelection(s[1..]);
      var t := UntaggedRows(s[1..]);
      assert s == [s[0]] + s[1..];
      assert multiset(s) == multiset{s[0]} + multiset(s[1..]);
      if IsNo(s[0]) {
        assert ([s[0]] + t)[0] == s[0] && ([s[0]] + t)[1..] == t;
      } else {
        assert [] + t == t;
        SubsequenceOfTail(t, s);
      }
    }
  }

  function SeedOf(r: Row): EditRow {
    EditRow(r.id, r.service, r.region, r.department, r.project, r.environment,
            r.owner, r.costCenter, r.cost, r.tagged)
  }

  /** The editor's initial content: the edit columns of the untagged rows. */
  function EditorSeed(s: seq<Row>): (seed: seq<EditRow>)
    ensures |seed| == |UntaggedRows(s)|
    ensures forall i :: 0 <= i < |seed| ==> seed[i] == SeedOf(UntaggedRows(s)[i])
  {
    var u := UntaggedRows(s);
    seq(|u|, i requires 0 <= i < |u| => SeedOf(u[i]))
  }

  predicate UniqueIds(s: seq<Row>) {
    forall i, j :: 0 <= i < j < |s| && s[i].id.Some? ==> s[i].id != s[j].id
  }

  /** Submitting the editor untouched reproduces the table, provided
      ResourceIDs are unique and the completeness columns are up to date. */
  lemma UntouchedEditorIsIdentity(base: seq<Row>)
    requires UniqueIds(base)
    requires forall k :: 0 <= k < |base| ==> Consistent(base[k])
    ensures Remediated(base, EditorSeed(base)) == base
  {
    var seed := EditorSeed(base);
    forall k | 0 <= k < |base| ensures Remediated(base, seed)[k] == base[k] {
      RemediatedAt(base, seed, k);
      match LastMatch(seed, base[k])
      case None =>
        RescoreIdempotent(base[k]);
      case Some(e) =>
        var i :| 0 <= i < |seed| && seed[i] == e;
        var u := UntaggedRows(base);
        assert u[i] in u;
        var j :| 0 <= j < |base| && base[j] == u[i];
        assert base[j].id == base[k].id;
        assert j == k;
        assert Overwrite(base[k], e) == base[k];
        RescoreIdempotent(base[k]);
    }
  }

  /** With a ResourceID shared by an untagged and a tagged row, submitting
      the editor untouched copies the untagged row's columns, Tagged = "No"
      included, onto the tagged row. */
  lemma SharedIdSpreadsEdits()
    ensures var untagged := Row(Some("R1"), Some("EC2"), Some("us-east-1"), 100.0, Some("No"),
                                None, None, None, None, None, 0, 0.0);
            var tagged := Row(Some("R1"), Some("S3"), Some("eu-west-1"), 50.0, Some("Yes"),
                              Some("Eng"), None, None, None, None, 1, 20.0);
            var base := [untagged, tagged];
            var after := Remediated(base, EditorSeed(base));
            after == [untagged, untagged] &&
            RawDeltas(CalculateMetrics(base), CalculateMetrics(after)).untaggedReduction == -1 &&
            Displayed(RawDeltas(CalculateMetrics(base), CalculateMetrics(after))).untaggedReduction == 0
  {
    var untagged := Row(Some("R1"), Some("EC2"), Some("us-east-1"), 100.0, Some("No"),
                        None, None, None, None, None, 0, 0.0);
    var tagged := Row(Some("R1"), Some("S3"), Some("eu-west-1"), 50.0, Some("Yes"),
                      Some("Eng"), None, None, None, None, 1, 20.0);
    var base := [untagged, tagged];
    assert base[1..] == [tagged] && base[1..][1..] == [];
    assert UntaggedRows(base) == [untagged];
    var seed := EditorSeed(base);
    var e := SeedOf(untagged);
    assert seed == [e];
    assert seed[..0] == [];
    assert LastMatch(seed, untagged) == Some(e);
    assert LastMatch(seed, tagged) == Some(e);
    RemediatedAt(base, seed, 0);
    RemediatedAt(base, seed, 1);
    assert Rescore(Overwrite(tagged, e)) == untagged;
    var after := Remediated(base, seed);
    assert after == [untagged, untagged];
    assert after[1..] == [untagged] && after[1..][1..] == [];
    assert CountOf(base, IsNo) == 1;
    assert CountOf(after, IsNo) == 2;
  }

  /** The before/after differences, unclamped: an untagged-count reduction and
      an untagged-cost reduction (before minus after) and a completeness
      improvement (after minus before). */
  datatype Deltas = Deltas(untaggedReduction: int, untaggedCostReduction: real, completenessImprovement: real)

  function RawDeltas(before: Snapshot, after: Snapshot): (d: Deltas)
    requires before.avgCompleteness.Some? && after.avgCompleteness.Some?
    ensures d.untaggedReduction > 0 <==> after.untaggedResources < before.untaggedResources
    ensures d.untaggedReduction == 0 <==> after.untaggedResources == before.untaggedResources
    ensures d.untaggedCostReduction > 0.0 <==> after.untaggedCost < before.untaggedCost
    ensures d.completenessImprovement > 0.0 <==>
      after.avgCompleteness.value > before.avgCompleteness.value
    ensures before == after ==> d == Deltas(0, 0.0, 0.0)
  {
    Deltas(before.untaggedResources - after.untaggedResources,
           before.untaggedCost - after.untaggedCost,
           after.avgCompleteness.value - before.avgCompleteness.value)
  }

  /** The display floor: each delta is shown when strictly positive and as
      zero otherwise, so the page never shows a negative improvement. */
  function Displayed(d: Deltas): (shown: Deltas)
    ensures shown.untaggedReduction >= 0 && shown.untaggedCostReduction >= 0.0 &&
            shown.completenessImprovement >= 0.0
    ensures shown.untaggedReduction == (if d.untaggedReduction > 0 then d.untaggedReduction else 0)
    ensures shown.untaggedCostReduction == (if d.untaggedCostReduction > 0.0 then d.untaggedCostReduction else 0.0)
    ensures shown.completenessImprovement == (if d.completenessImprovement > 0.0 then d.completenessImprovement else 0.0)
    ensures shown == d <==>
      d.untaggedReduction >= 0 && d.untaggedCostReduction >= 0.0 && d.completenessImprovement >= 0.0
  {
    Deltas(if d.untaggedReduction > 0 then d.untaggedReduction else 0,
           if d.untaggedCostReduction > 0.0 then d.untaggedCostReduction else 0.0,
           if d.completenessImprovement > 0.0 then d.completenessImprovement else 0.0)
  }

  /** What the page shows after the editor: the two snapshots, the displayed
      deltas and the table offered for download. */
  datatype Comparison = Comparison(before: Snapshot, after: Snapshot, shown: Deltas, remediated: seq<Row>)

  /** The remediation page's data flow: the metrics of `df`, shown in every
      case; nothing more when no row is untagged; otherwise the merge, the
      metrics of its result and the displayed deltas. */
  method RemediationPreview(df: array<Row>, edited: seq<EditRow>)
    returns (before: Snapshot, preview: Option<Comparison>)
    ensures before == CalculateMetrics(df[..])
    ensures preview.None? <==> UntaggedRows(df[..]) == []
    ensures preview.Some? ==>
      var c := preview.value;
      c.remediated == Remediated(df[..], edited) &&
      c.before == before &&
      c.after == CalculateMetrics(c.remediated) &&
      c.before.avgCompleteness.Some? && c.after.avgCompleteness.Some? &&
      c.shown == Displayed(RawDeltas(c.before, c.after))
  {
    before := CalculateMetrics(df[..]);
    if |UntaggedRows(df[..])| == 0 {
      return before, None;
    }
    var remediated := Merge(df, edited);
    var after := CalculateMetrics(remediated[..]);
    preview := Some(Comparison(before, after, Displayed(RawDeltas(before, after)), remediated[..]));
  }

  /** An edit that completes a row: all five tags filled in and Tagged "Yes". */
  predicate Completes(e: EditRow) {
    e.tagged == Some("Yes") &&
    e.department.Some? && e.project.Some? && e.environment.Some? &&
    e.owner.Some? && e.costCenter.Some?
  }

  /** When every edit completes its row, remediation can only improve the
      metrics: no delta is negative, so the display floor shows the raw
      values unchanged. */
  lemma CompletingEditsOnlyImprove(base: seq<Row>, edits: seq<EditRow>)
    requires |base| > 0
    requires forall k :: 0 <= k < |base| ==> Consistent(base[k])
    requires NonNegativeCosts(base)
    requires forall e :: e in edits ==> Completes(e)
    ensures var before := CalculateMetrics(base);
      var after := CalculateMetrics(Remediated(base, edits));
      var d := RawDeltas(before, after);
      d.untaggedReduction >= 0 && d.untaggedCostReduction >= 0.0 &&
      d.completenessImprovement >= 0.0 && Displayed(d) == d
  {
    var after := Remediated(base, edits);
    forall k | 0 <= k < |base|
      ensures IsNo(after[k]) ==> IsNo(base[k])
      ensures ScoreOf(after[k]) >= ScoreOf(base[k])
      ensures (if IsNo(after[k]) then CostOf(after[k]) else 0.0) <= (if IsNo(base[k]) then CostOf(base[k]) else 0.0)
    {
      CompletingEditsRowwise(base, edits, k);
    }
    CountMonotone(after, base, IsNo);
    SumMonotone(after, base, ScoreOf);
    SumWhereMonotone(after, base, IsNo, CostOf);
    MeanMonotone(SumOf(after, ScoreOf), SumOf(base, ScoreOf), |base| as real);
  }

  /** Row by row, completing edits never make a row untagged, never lower its
      score, and never add to its untagged cost. */
  lemma CompletingEditsRowwise(base: seq<Row>, edits: seq<EditRow>, k: nat)
    requires k < |base| && Consistent(base[k]) && base[k].cost >= 0.0
    requires forall e :: e in edits ==> Completes(e)
    ensures var a, b := Remediated(base, edits)[k], base[k];
      (IsNo(a) ==> IsNo(b)) && ScoreOf(a) >= ScoreOf(b) &&
      (if IsNo(a) then CostOf(a) else 0.0) <= (if IsNo(b) then CostOf(b) else 0.0)
  {
    RemediatedAt(base, edits, k);
    var m := LastMatch(edits, base[k]);
    if m.Some? {
      assert Completes(m.value);
    }
  }
}
