/** The analytics filters: four optional exact-equality predicates on Service,
    Region, Department and Environment, where the sentinel "All" leaves a
    column unconstrained. The page narrows the table one predicate at a time. */
module Filter {
  import opened Table
  import opened Metrics

  const All := "All"

  /** The four sidebar choices; each is "All" or a concrete value. */
  datatype Selection = Selection(service: string, region: string, department: string, environment: string)

  const Unconstrained := Selection(All, All, All, All)

  function Choice(sel: Selection, c: Column): string {
    match c
    case Service => sel.service
    case Region => sel.region
    case Department => sel.department
    case Environment => sel.environment
  }

  function With(sel: Selection, c: Column, v: string): (sel': Selection)
    ensures Choice(sel', c) == v
    ensures forall d :: d != c ==> Choice(sel', d) == Choice(sel, d)
  {
    match c
    case Service => sel.(service := v)
    case Region => sel.(region := v)
    case Department => sel.(department := v)
    case Environment => sel.(environment := v)
  }

  /** A choice admits a cell when it is "All" or equals the cell exactly. */
  predicate Admits(v: string, cell: Option<string>) {
    v == All || CellIs(cell, v)
  }

  predicate Matches(r: Row, sel: Selection) {
    Admits(sel.service, r.service) && Admits(sel.region, r.region) &&
    Admits(sel.department, r.department) && Admits(sel.environment, r.environment)
  }

  /** One narrowing step, `df[df[c] == v]`: the rows whose column `c` holds
      exactly `v`, in their original order. */
  function Narrow(s: seq<Row>, c: Column, v: string): (r: seq<Row>)
    ensures |r| <= |s|
  {
    if |s| == 0 then []
    else (if CellIs(Get(s[0], c), v) then [s[0]] else []) + Narrow(s[1..], c, v)
  }

  /** Reference definition of the filter: one pass keeping the rows that
      satisfy all four predicates at once. */
  function Selected(s: seq<Row>, sel: Selection): (r: seq<Row>)
    ensures |r| <= |s|
  {
    if |s| == 0 then []
    else (if Matches(s[0], sel) then [s[0]] else []) + Selected(s[1..], sel)
  }

  /** `a` is `b` with some rows removed, the rest kept in order. */
  predicate IsSubsequence(a: seq<Row>, b: seq<Row>)
    decreases |b|
  {
    if |a| == 0 then true
    else if |b| == 0 then false
    else (a[0] == b[0] && IsSubsequence(a[1..], b[1..])) || IsSubsequence(a, b[1..])
  }

  /** The filter block of the analytics page: start from the whole table and
      narrow it once per concrete choice, in the order Service, Region,
      Department, Environment. */
  method ApplyFilters(df: seq<Row>, sel: Selection) returns (filtered: seq<Row>)
    ensures filtered == Selected(df, sel)
  {
    ghost var applied := Unconstrained;
    SelectedUnconstrained(df);
    filtered := df;
    if sel.service != All {
      NarrowSelected(df, applied, Service, sel.service);
      filtered := Narrow(filtered, Service, sel.service);
    }
    applied := applied.(service := sel.service);
    if sel.region != All {
      NarrowSelected(df, applied, Region, sel.region);
      filtered := Narrow(filtered, Region, sel.region);
    }
    applied := applied.(region := sel.region);
    if sel.department != All {
      NarrowSelected(df, applied, Department, sel.department);
      filtered := Narrow(filtered, Department, sel.department);
    }
    applied := applied.(department := sel.department);
    if sel.environment != All {
      NarrowSelected(df, applied, Environment, sel.environment);
      filtered := Narrow(filtered, Environment, sel.environment);
    }
    applied := applied.(environment := sel.environment);
    assert applied == sel;
  }

  /** Narrowing an already filtered table by one more concrete value is the
      same as filtering once with that value added to the selection. */
  lemma {:induction false} NarrowSelected(s: seq<Row>, sel: Selection, c: Column, v: string)
    requires Choice(sel, c) == All && v != All
    ensures Narrow(Selected(s, sel), c, v) == Selected(s, With(sel, c, v))
  {
    if |s| > 0 {
      NarrowSelected(s[1..], sel, c, v);
      var t := Selected(s[1..], sel);
      MatchesWith(s[0], sel, c, v);
      if Matches(s[0], sel) {
        assert ([s[0]] + t)[1..] == t;
      } else {
        assert [] + t == t;
      }
    }
  }

  /** The rows a narrowing step keeps are input rows whose column holds the
      value. */
  lemma {:induction false} NarrowSound(s: seq<Row>, c: Column, v: string)
    ensures forall x :: x in Narrow(s, c, v) ==> x in s && Get(x, c) == Some(v)
  {
    if |s| > 0 {
      NarrowSound(s[1..], c, v);
    }
  }

  lemma MatchesWith(r: Row, sel: Selection, c: Column, v: string)
    requires Choice(sel, c) == All && v != All
    ensures Matches(r, With(sel, c, v)) <==> Matches(r, sel) && CellIs(Get(r, c), v)
  {
  }

  /** With every choice "All" the filter returns the table unchanged. */
  lemma {:induction false} SelectedUnconstrained(s: seq<Row>)
    ensures Selected(s, Unconstrained) == s
  {
    if |s| > 0 {
      SelectedUnconstrained(s[1..]);
    }
  }

  /** Every kept row is a row of the input that satisfies each concrete
      choice exactly; in particular a row whose cell is absent is never kept
      by a concrete choice on that column. */
  lemma {:induction false} SelectedSound(s: seq<Row>, sel: Selection)
    ensures forall i :: 0 <= i < |Selected(s, sel)| ==>
      Selected(s, sel)[i] in s && Matches(Selected(s, sel)[i], sel)
    ensures forall i, c :: 0 <= i < |Selected(s, sel)| && Choice(sel, c) != All ==>
      Get(Selected(s, sel)[i], c) == Some(Choice(sel, c))
  {
    if |s| > 0 {
      SelectedSound(s[1..], sel);
      var t := Selected(s[1..], sel);
      assert forall x :: x in s[1..] ==> x in s;
      if Matches(s[0], sel) {
        assert forall i :: 1 <= i < |[s[0]] + t| ==> ([s[0]] + t)[i] == t[i - 1];
      } else {
        assert [] + t == t;
      }
    }
  }

  /** The filter keeps exactly the matching rows: each row occurs in the
      result as often as in the input if it matches, and not at all
      otherwise. */
  lemma {:induction false} SelectedMultiplicity(s: seq<Row>, sel: Selection)
    ensures forall x ::
      multiset(Selected(s, sel))[x] == if Matches(x, sel) then multiset(s)[x] else 0
  {
    if |s| > 0 {
      SelectedMultiplicity(s[1..], sel);
      assert s == [s[0]] + s[1..];
      assert multiset(s) == multiset{s[0]} + multiset(s[1..]);
    }
  }

  lemma {:induction false} SubsequenceOfTail(a: seq<Row>, b: seq<Row>)
    requires |b| > 0 && IsSubsequence(a, b[1..])
    ensures IsSubsequence(a, b)
  {
  }

  /** The filter keeps the input's order. */
  lemma {:induction false} SelectedIsSubsequence(s: seq<Row>, sel: Selection)
    ensures IsSubsequence(Selected(s, sel), s)
  {
    if |s| > 0 {
      SelectedIsSubsequence(s[1..], sel);
      var t := Selected(s[1..], sel);
      if Matches(s[0], sel) {
        assert ([s[0]] + t)[0] == s[0] && ([s[0]] + t)[1..] == t;
      } else {
        assert [] + t == t;
        SubsequenceOfTail(t, s);
      }
    }
  }

  /** A selection that no row satisfies gives the empty view, and the
      metrics of the empty view are all zero (no division by zero). */
  lemma {:induction false} NoMatchGivesZeroMetrics(s: seq<Row>, sel: Selection)
    requires forall i :: 0 <= i < |s| ==> !Matches(s[i], sel)
    ensures Selected(s, sel) == []
    ensures CalculateMetrics(Selected(s, sel)) ==
      Snapshot(0, 0, 0, 0.0, 0.0, 0.0, 0.0, 0.0, None)
  {
    if |s| > 0 {
      NoMatchGivesZeroMetrics(s[1..], sel);
    }
  }
}
