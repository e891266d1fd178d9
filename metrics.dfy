/** The metrics snapshot (`calculate_metrics`): counts and cost sums over the
    rows whose Tagged cell is exactly "Yes" or exactly "No", the tagging rate
    and the untagged-cost share with their division-by-zero guards, and the
    mean tag-completeness score. */
module Metrics {
  import opened Table

  predicate IsYes(r: Row) { CellIs(r.tagged, "Yes") }
  predicate IsNo(r: Row) { CellIs(r.tagged, "No") }
  /** Tagged absent or holding any other text. */
  predicate IsNeither(r: Row) { !IsYes(r) && !IsNo(r) }
  function CostOf(r: Row): real { r.cost }
  function ScoreOf(r: Row): real { r.score as real }

  /** Number of rows satisfying `p` (the length of a boolean-mask selection). */
  function CountOf(s: seq<Row>, p: Row -> bool): (n: nat)
    ensures n <= |s|
  {
    if |s| == 0 then 0 else (if p(s[0]) then 1 else 0) + CountOf(s[1..], p)
  }

  /** Sum of `f` over the rows (a column sum). */
  function SumOf(s: seq<Row>, f: Row -> real): real {
    if |s| == 0 then 0.0 else f(s[0]) + SumOf(s[1..], f)
  }

  /** Sum of `f` over the rows satisfying `p` (a column sum of a selection). */
  function SumWhere(s: seq<Row>, p: Row -> bool, f: Row -> real): real {
    if |s| == 0 then 0.0 else (if p(s[0]) then f(s[0]) else 0.0) + SumWhere(s[1..], p, f)
  }

  predicate NonNegativeCosts(s: seq<Row>) {
    forall i :: 0 <= i < |s| ==> s[i].cost >= 0.0
  }

  datatype Snapshot = Snapshot(
    totalResources: nat,
    taggedResources: nat,
    untaggedResources: nat,
    taggingRate: real,
    totalCost: real,
    taggedCost: real,
    untaggedCost: real,
    untaggedCostPct: real,
    avgCompleteness: Option<real>)  // None: the mean of no scores is undefined

  function Percent(part: real, whole: real): real
    requires whole > 0.0
  {
    part / whole * 100.0
  }

  lemma PercentBounds(part: real, whole: real)
    requires 0.0 <= part <= whole && whole > 0.0
    ensures 0.0 <= Percent(part, whole) <= 100.0
  {
    assert part / whole <= 1.0 by {
      assert part / whole * whole == part;
    }
  }

  function CalculateMetrics(s: seq<Row>): (m: Snapshot)
    ensures m.totalResources == |s|
    ensures m.taggedResources + m.untaggedResources <= m.totalResources
    ensures 0.0 <= m.taggingRate <= 100.0
    ensures m.totalResources == 0 ==>
      m.taggingRate == 0.0 && m.totalCost == 0.0 && m.untaggedCostPct == 0.0
    ensures m.totalCost <= 0.0 ==> m.untaggedCostPct == 0.0
    ensures m.avgCompleteness.Some? <==> |s| > 0
  {
    var total := |s|;
    var tagged := CountOf(s, IsYes);
    var untagged := CountOf(s, IsNo);
    var totalCost := SumOf(s, CostOf);
    var untaggedCost := SumWhere(s, IsNo, CostOf);
    TaggedUntaggedBound(s);
    if total > 0 then
      PercentBounds(tagged as real, total as real);
      Snapshot(
        total, tagged, untagged,
        Percent(tagged as real, total as real),
        totalCost,
        SumWhere(s, IsYes, CostOf),
        untaggedCost,
        if totalCost > 0.0 then Percent(untaggedCost, totalCost) else 0.0,
        Some(SumOf(s, ScoreOf) / total as real))
    else
      Snapshot(0, 0, 0, 0.0, totalCost, SumWhere(s, IsYes, CostOf), untaggedCost, 0.0, None)
  }

  /** A row is never both exactly "Yes" and exactly "No", and rows with any
      other Tagged value (or none) are in neither count. */
  lemma {:induction false} TaggedUntaggedBound(s: seq<Row>)
    ensures CountOf(s, IsYes) + CountOf(s, IsNo) + CountOf(s, IsNeither) == |s|
    ensures CountOf(s, IsYes) + CountOf(s, IsNo) <= |s|
  {
    if |s| > 0 {
      TaggedUntaggedBound(s[1..]);
    }
  }

  lemma {:induction false} SumWhereBounds(s: seq<Row>, p: Row -> bool)
    requires NonNegativeCosts(s)
    ensures 0.0 <= SumWhere(s, p, CostOf) <= SumOf(s, CostOf)
  {
    if |s| > 0 {
      SumWhereBounds(s[1..], p);
    }
  }

  /** With non-negative costs the tagged and untagged cost sums are
      non-negative and together do not exceed the total cost. */
  lemma {:induction false} CostSplit(s: seq<Row>)
    requires NonNegativeCosts(s)
    ensures var m := CalculateMetrics(s);
      0.0 <= m.taggedCost && 0.0 <= m.untaggedCost &&
      m.taggedCost + m.untaggedCost <= m.totalCost
  {
    if |s| > 0 {
      CostSplit(s[1..]);
    }
  }

  /** With non-negative costs the untagged-cost percentage lies in [0, 100]. */
  lemma UntaggedCostPctBounds(s: seq<Row>)
    requires NonNegativeCosts(s)
    ensures 0.0 <= CalculateMetrics(s).untaggedCostPct <= 100.0
  {
    SumWhereBounds(s, IsNo);
    if SumOf(s, CostOf) > 0.0 {
      PercentBounds(SumWhere(s, IsNo, CostOf), SumOf(s, CostOf));
    }
  }

  lemma {:induction false} ScoreSumBounds(s: seq<Row>)
    requires forall i :: 0 <= i < |s| ==> Consistent(s[i])
    ensures 0.0 <= SumOf(s, ScoreOf) <= 5.0 * |s| as real
  {
    if |s| > 0 {
      ScoreSumBounds(s[1..]);
    }
  }

  /** On a non-empty table whose derived columns are up to date, the average
      completeness lies between 0 and 5. */
  lemma AvgCompletenessBounds(s: seq<Row>)
    requires |s| > 0
    requires forall i :: 0 <= i < |s| ==> Consistent(s[i])
    ensures CalculateMetrics(s).avgCompleteness.Some?
    ensures 0.0 <= CalculateMetrics(s).avgCompleteness.value <= 5.0
  {
    ScoreSumBounds(s);
    var n := |s| as real;
    var sum := SumOf(s, ScoreOf);
    assert sum / n <= 5.0 by {
      assert sum <= 5.0 * n;
    }
  }

  lemma {:induction false} CountOfConcat(a: seq<Row>, b: seq<Row>, p: Row -> bool)
    ensures CountOf(a + b, p) == CountOf(a, p) + CountOf(b, p)
  {
    if |a| > 0 {
      assert (a + b)[1..] == a[1..] + b;
      CountOfConcat(a[1..], b, p);
    } else {
      assert a + b == b;
    }
  }

  lemma {:induction false} SumOfConcat(a: seq<Row>, b: seq<Row>, f: Row -> real)
    ensures SumOf(a + b, f) == SumOf(a, f) + SumOf(b, f)
  {
    if |a| > 0 {
      assert (a + b)[1..] == a[1..] + b;
      SumOfConcat(a[1..], b, f);
    } else {
      assert a + b == b;
    }
  }

  lemma {:induction false} SumWhereConcat(a: seq<Row>, b: seq<Row>, p: Row -> bool, f: Row -> real)
    ensures SumWhere(a + b, p, f) == SumWhere(a, p, f) + SumWhere(b, p, f)
  {
    if |a| > 0 {
      assert (a + b)[1..] == a[1..] + b;
      SumWhereConcat(a[1..], b, p, f);
    } else {
      assert a + b == b;
    }
  }

  lemma RemoveOne(s: seq<Row>, t: seq<Row>, i: nat)
    requires |s| > 0 && i < |t| && s[0] == t[i]
    requires multiset(s) == multiset(t)
    ensures multiset(s[1..]) == multiset(t[..i] + t[i + 1..])
  {
    var x := s[0];
    assert t == t[..i] + [x] + t[i + 1..];
    assert s == [x] + s[1..];
    assert multiset(s[1..]) == multiset(s) - multiset{x};
    assert multiset(t[..i] + t[i + 1..]) == multiset(t) - multiset{x};
  }

  /** Taking row `i` out of `t` takes its share out of every aggregate. */
  lemma SplitAt(t: seq<Row>, i: nat, p: Row -> bool, f: Row -> real)
    requires i < |t|
    ensures var rest := t[..i] + t[i + 1..];
      CountOf(t, p) == CountOf(rest, p) + (if p(t[i]) then 1 else 0) &&
      SumOf(t, f) == SumOf(rest, f) + f(t[i]) &&
      SumWhere(t, p, f) == SumWhere(rest, p, f) + (if p(t[i]) then f(t[i]) else 0.0)
  {
    var x := t[i];
    assert t == t[..i] + ([x] + t[i + 1..]);
    assert [x][1..] == [];
    CountOfConcat(t[..i], [x] + t[i + 1..], p);
    CountOfConcat([x], t[i + 1..], p);
    CountOfConcat(t[..i], t[i + 1..], p);
    SumOfConcat(t[..i], [x] + t[i + 1..], f);
    SumOfConcat([x], t[i + 1..], f);
    SumOfConcat(t[..i], t[i + 1..], f);
    SumWhereConcat(t[..i], [x] + t[i + 1..], p, f);
    SumWhereConcat([x], t[i + 1..], p, f);
    SumWhereConcat(t[..i], t[i + 1..], p, f);
  }

  /** Counting and summing do not depend on the order of the rows. */
  lemma {:induction false} AggregatesPermutation(s: seq<Row>, t: seq<Row>, p: Row -> bool, f: Row -> real)
    requires multiset(s) == multiset(t)
    ensures CountOf(s, p) == CountOf(t, p)
    ensures SumOf(s, f) == SumOf(t, f)
    ensures SumWhere(s, p, f) == SumWhere(t, p, f)
    decreases |s|
  {
    if |s| == 0 {
      assert |t| == |multiset(t)| == 0;
    } else {
      assert s[0] in multiset(t);
      var i :| 0 <= i < |t| && t[i] == s[0];
      RemoveOne(s, t, i);
      AggregatesPermutation(s[1..], t[..i] + t[i + 1..], p, f);
      SplitAt(t, i, p, f);
    }
  }

  /** The snapshot is a function of the multiset of rows: reordering the
      table changes no metric. */
  lemma MetricsOrderIndependent(s: seq<Row>, t: seq<Row>)
    requires multiset(s) == multiset(t)
    ensures CalculateMetrics(s) == CalculateMetrics(t)
  {
    assert |s| == |multiset(s)| == |multiset(t)| == |t|;
    AggregatesPermutation(s, t, IsYes, CostOf);
    AggregatesPermutation(s, t, IsNo, CostOf);
    AggregatesPermutation(s, t, IsNo, ScoreOf);
  }

  /** Two resources: R1 untagged with no tags and cost 100, R2 tagged with
      only a Department and cost 50. */
  lemma TwoRowExample()
    ensures var r1 := Row(Some("R1"), Some("EC2"), Some("us-east-1"), 100.0, Some("No"),
                          None, None, None, None, None, 0, 0.0);
            var r2 := Row(Some("R2"), Some("S3"), Some("us-east-1"), 50.0, Some("Yes"),
                          Some("Eng"), None, None, None, None, 1, 20.0);
            CalculateMetrics([r1, r2]) ==
              Snapshot(2, 1, 1, 50.0, 150.0, 50.0, 100.0, 200.0 / 3.0, Some(0.5))
  {
    var r1 := Row(Some("R1"), Some("EC2"), Some("us-east-1"), 100.0, Some("No"),
                  None, None, None, None, None, 0, 0.0);
    var r2 := Row(Some("R2"), Some("S3"), Some("us-east-1"), 50.0, Some("Yes"),
                  Some("Eng"), None, None, None, None, 1, 20.0);
    var s := [r1, r2];
    assert s[1..] == [r2] && s[1..][1..] == [];
  }

  /** Pointwise comparisons of two equally long tables carry over to their
      counts and sums. */
  lemma {:induction false} CountMonotone(a: seq<Row>, b: seq<Row>, p: Row -> bool)
    requires |a| == |b|
    requires forall k :: 0 <= k < |a| && p(a[k]) ==> p(b[k])
    ensures CountOf(a, p) <= CountOf(b, p)
  {
    if |a| > 0 {
      CountMonotone(a[1..], b[1..], p);
    }
  }

  lemma {:induction false} SumMonotone(a: seq<Row>, b: seq<Row>, f: Row -> real)
    requires |a| == |b|
    requires forall k :: 0 <= k < |a| ==> f(a[k]) >= f(b[k])
    ensures SumOf(a, f) >= SumOf(b, f)
  {
    if |a| > 0 {
      SumMonotone(a[1..], b[1..], f);
    }
  }

  lemma {:induction false} SumWhereMonotone(a: seq<Row>, b: seq<Row>, p: Row -> bool, f: Row -> real)
    requires |a| == |b|
    requires forall k :: 0 <= k < |a| ==>
      (if p(a[k]) then f(a[k]) else 0.0) <= (if p(b[k]) then f(b[k]) else 0.0)
    ensures SumWhere(a, p, f) <= SumWhere(b, p, f)
  {
    if |a| > 0 {
      SumWhereMonotone(a[1..], b[1..], p, f);
    }
  }

  lemma MeanMonotone(sa: real, sb: real, n: real)
    requires n > 0.0 && sa >= sb
    ensures sa / n >= sb / n
  {
    assert sa / n - sb / n == (sa - sb) / n;
  }
}
