/** The grouped rollups of the analytics page: per Department, Service or
    Environment, the number of resources, their total cost and their tagging
    rate, sorted by total cost from highest to lowest. Grouping drops the rows
    whose key is absent. */
module Rollup {
  import opened Table
  import opened Metrics
  import opened Filter

  /** One line of a rollup table. `resourceCount` counts the group's rows
      that have a ResourceID (a count of a column skips absent cells); the
      tagging rate divides by the group's full size. */
  datatype GroupStat = GroupStat(key: string, resourceCount: nat, totalCost: real, taggingRate: real)

  predicate HasId(r: Row) { r.id.Some? }

  predicate KeyOccurs(s: seq<Row>, c: Column, k: string) {
    exists i :: 0 <= i < |s| && Get(s[i], c) == Some(k)
  }

  /** The rows that take part in the grouping: those whose key is present. */
  function Keyed(s: seq<Row>, c: Column): (r: seq<Row>)
    ensures |r| <= |s|
  {
    if |s| == 0 then []
    else (if Get(s[0], c).Some? then [s[0]] else []) + Keyed(s[1..], c)
  }

  /** The distinct present keys of column `c`, in order of first appearance. */
  function Keys(s: seq<Row>, c: Column): (ks: seq<string>)
    ensures forall i, j :: 0 <= i < j < |ks| ==> ks[i] != ks[j]
    ensures forall k :: k in ks <==> KeyOccurs(s, c, k)
  {
    if |s| == 0 then []
    else
      var init := s[..|s| - 1];
      var ks := Keys(init, c);
      KeyOccursSnoc(s, c);
      match Get(s[|s| - 1], c)
      case None => ks
      case Some(k) => if k in ks then ks else ks + [k]
  }

  lemma KeyOccursSnoc(s: seq<Row>, c: Column)
    requires |s| > 0
    ensures forall k :: KeyOccurs(s, c, k) <==>
      KeyOccurs(s[..|s| - 1], c, k) || Get(s[|s| - 1], c) == Some(k)
  {
    var init := s[..|s| - 1];
    forall k | KeyOccurs(s, c, k)
      ensures KeyOccurs(init, c, k) || Get(s[|s| - 1], c) == Some(k)
    {
      var i :| 0 <= i < |s| && Get(s[i], c) == Some(k);
      if i < |s| - 1 {
        assert init[i] == s[i];
      }
    }
    forall k | KeyOccurs(init, c, k) ensures KeyOccurs(s, c, k) {
      var i :| 0 <= i < |init| && Get(init[i], c) == Some(k);
      assert s[i] == init[i];
    }
  }

  lemma {:induction false} NarrowNonEmpty(s: seq<Row>, c: Column, k: string)
    requires KeyOccurs(s, c, k)
    ensures |Narrow(s, c, k)| > 0
  {
    if Get(s[0], c) != Some(k) {
      var i :| 0 <= i < |s| && Get(s[i], c) == Some(k);
      assert s[1..][i - 1] == s[i];
      NarrowNonEmpty(s[1..], c, k);
    }
  }

  /** The statistics of the group of rows whose column `c` is exactly `k`. */
  function GroupOf(s: seq<Row>, c: Column, k: string): (g: GroupStat)
    requires KeyOccurs(s, c, k)
    ensures g.key == k
    ensures g.resourceCount <= |Narrow(s, c, k)|
    ensures 0.0 <= g.taggingRate <= 100.0
  {
    NarrowNonEmpty(s, c, k);
    var rows := Narrow(s, c, k);
    PercentBounds(CountOf(rows, IsYes) as real, |rows| as real);
    GroupStat(k, CountOf(rows, HasId), SumOf(rows, CostOf),
              Percent(CountOf(rows, IsYes) as real, |rows| as real))
  }

  function GroupsFor(s: seq<Row>, c: Column, ks: seq<string>): (gs: seq<GroupStat>)
    requires forall k :: k in ks ==> KeyOccurs(s, c, k)
    ensures |gs| == |ks|
    ensures forall i :: 0 <= i < |gs| ==> gs[i] == GroupOf(s, c, ks[i])
  {
    if |ks| == 0 then [] else [GroupOf(s, c, ks[0])] + GroupsFor(s, c, ks[1..])
  }

  function SumCounts(gs: seq<GroupStat>): nat {
    if |gs| == 0 then 0 else gs[0].resourceCount + SumCounts(gs[1..])
  }

  function SumCosts(gs: seq<GroupStat>): real {
    if |gs| == 0 then 0.0 else gs[0].totalCost + SumCosts(gs[1..])
  }

  predicate SortedByCost(gs: seq<GroupStat>) {
    forall i, j :: 0 <= i < j < |gs| ==> gs[i].totalCost >= gs[j].totalCost
  }

  /** Insert `g` before the first group that costs no more than it. */
  function Insert(g: GroupStat, gs: seq<GroupStat>): (r: seq<GroupStat>)
    requires SortedByCost(gs)
    ensures |r| == |gs| + 1
    ensures |gs| > 0 ==> r[0] == g || r[0] == gs[0]
    ensures SortedByCost(r)
    ensures multiset(r) == multiset(gs) + multiset{g}
  {
    if |gs| == 0 then [g]
    else if g.totalCost >= gs[0].totalCost then
      assert ([g] + gs)[1..] == gs;
      [g] + gs
    else
      var rest := Insert(g, gs[1..]);
      var r := [gs[0]] + rest;
      assert r[1..] == rest;
      assert gs == [gs[0]] + gs[1..];
      assert forall j :: 0 < j < |r| ==> r[j].totalCost <= r[1].totalCost <= gs[0].totalCost;
      r
  }

  /** Sort by total cost, highest first (an insertion sort, stable). */
  function SortByCost(gs: seq<GroupStat>): (r: seq<GroupStat>)
    ensures SortedByCost(r)
    ensures multiset(r) == multiset(gs)
  {
    if |gs| == 0 then []
    else
      assert gs == [gs[0]] + gs[1..];
      Insert(gs[0], SortByCost(gs[1..]))
  }

  lemma {:induction false} InsertSums(g: GroupStat, gs: seq<GroupStat>)
    requires SortedByCost(gs)
    ensures SumCounts(Insert(g, gs)) == g.resourceCount + SumCounts(gs)
    ensures SumCosts(Insert(g, gs)) == g.totalCost + SumCosts(gs)
  {
    if |gs| > 0 && g.totalCost < gs[0].totalCost {
      InsertSums(g, gs[1..]);
      assert Insert(g, gs)[1..] == Insert(g, gs[1..]);
    } else if |gs| > 0 {
      assert Insert(g, gs)[1..] == gs;
    }
  }

  /** Sorting neither loses nor duplicates a group's count or cost. */
  lemma {:induction false} SortSums(gs: seq<GroupStat>)
    ensures SumCounts(SortByCost(gs)) == SumCounts(gs)
    ensures SumCosts(SortByCost(gs)) == SumCosts(gs)
  {
    if |gs| > 0 {
      SortSums(gs[1..]);
      InsertSums(gs[0], SortByCost(gs[1..]));
    }
  }

  /** `groupby(c).agg(...).sort_values('Total Cost (USD)', ascending=False)`. */
  function Rollup(s: seq<Row>, c: Column): (r: seq<GroupStat>)
    ensures SortedByCost(r)
    ensures multiset(r) == multiset(GroupsFor(s, c, Keys(s, c)))
  {
    SortByCost(GroupsFor(s, c, Keys(s, c)))
  }

  /** Every line of a rollup is the statistics of one key that occurs in the
      column, and every key that occurs has a line. */
  lemma RollupGroups(s: seq<Row>, c: Column)
    ensures forall i :: 0 <= i < |Rollup(s, c)| ==>
      KeyOccurs(s, c, Rollup(s, c)[i].key) && Rollup(s, c)[i] == GroupOf(s, c, Rollup(s, c)[i].key)
    ensures forall k :: KeyOccurs(s, c, k) ==> exists i :: 0 <= i < |Rollup(s, c)| && Rollup(s, c)[i].key == k
  {
    var ks := Keys(s, c);
    var gs := GroupsFor(s, c, ks);
    var r := Rollup(s, c);
    forall i | 0 <= i < |r| ensures KeyOccurs(s, c, r[i].key) && r[i] == GroupOf(s, c, r[i].key) {
      assert r[i] in multiset(r);
      assert r[i] in gs;
    }
    forall k | KeyOccurs(s, c, k) ensures exists i :: 0 <= i < |r| && r[i].key == k {
      var j :| 0 <= j < |ks| && ks[j] == k;
      assert gs[j] in multiset(r);
      var i :| 0 <= i < |r| && r[i] == gs[j];
    }
  }

  /** Each group is non-empty, its tagging rate lies in [0, 100], and it
      counts at least one resource when every row has a ResourceID. */
  lemma GroupBounds(s: seq<Row>, c: Column, i: nat)
    requires i < |Rollup(s, c)|
    requires forall j :: 0 <= j < |s| ==> s[j].id.Some?
    ensures Rollup(s, c)[i].resourceCount >= 1
    ensures 0.0 <= Rollup(s, c)[i].taggingRate <= 100.0
  {
    RollupGroups(s, c);
    var g := Rollup(s, c)[i];
    NarrowNonEmpty(s, c, g.key);
    NarrowSound(s, c, g.key);
    var rows := Narrow(s, c, g.key);
    assert rows[0] in rows;
    assert HasId(rows[0]);
  }

  /** No two lines of a rollup share a key. */
  lemma RollupKeysDistinct(s: seq<Row>, c: Column)
    ensures forall i, j :: 0 <= i < j < |Rollup(s, c)| ==> Rollup(s, c)[i].key != Rollup(s, c)[j].key
  {
    var ks := Keys(s, c);
    var r := Rollup(s, c);
    RollupGroups(s, c);
    forall i, j | 0 <= i < j < |r| ensures r[i].key != r[j].key {
      if r[i].key == r[j].key {
        GroupsAtMostOnce(s, c, ks, r[i]);
        RepeatCounts(r, i, j);
      }
    }
  }

  lemma RepeatCounts(r: seq<GroupStat>, i: nat, j: nat)
    requires i < j < |r| && r[i] == r[j]
    ensures multiset(r)[r[i]] >= 2
  {
    assert r == r[..j] + r[j..];
    assert r[i] in r[..j];
    assert r[j] == r[j..][0];
    assert multiset(r) == multiset(r[..j]) + multiset(r[j..]);
  }

  lemma {:induction false} GroupsAtMostOnce(s: seq<Row>, c: Column, ks: seq<string>, g: GroupStat)
    requires forall k :: k in ks ==> KeyOccurs(s, c, k)
    requires forall i, j :: 0 <= i < j < |ks| ==> ks[i] != ks[j]
    ensures multiset(GroupsFor(s, c, ks))[g] <= 1
  {
    if |ks| > 0 {
      GroupsAtMostOnce(s, c, ks[1..], g);
      var gs := GroupsFor(s, c, ks);
      assert gs == [gs[0]] + GroupsFor(s, c, ks[1..]);
      if gs[0] == g {
        var tail := GroupsFor(s, c, ks[1..]);
        forall m | 0 <= m < |tail| ensures tail[m] != g {
          assert tail[m].key == ks[m + 1] != ks[0];
        }
        assert g !in tail;
      }
    }
  }

  /** Share of the rows of `s` in the groups listed in `ks`. */
  function CountOverKeys(s: seq<Row>, c: Column, ks: seq<string>): nat {
    if |ks| == 0 then 0 else CountOf(Narrow(s, c, ks[0]), HasId) + CountOverKeys(s, c, ks[1..])
  }

  function CostOverKeys(s: seq<Row>, c: Column, ks: seq<string>): real {
    if |ks| == 0 then 0.0 else SumOf(Narrow(s, c, ks[0]), CostOf) + CostOverKeys(s, c, ks[1..])
  }

  lemma {:induction false} GroupsForSums(s: seq<Row>, c: Column, ks: seq<string>)
    requires forall k :: k in ks ==> KeyOccurs(s, c, k)
    ensures SumCounts(GroupsFor(s, c, ks)) == CountOverKeys(s, c, ks)
    ensures SumCosts(GroupsFor(s, c, ks)) == CostOverKeys(s, c, ks)
  {
    if |ks| > 0 {
      GroupsForSums(s, c, ks[1..]);
      var gs := GroupsFor(s, c, ks);
      assert gs[1..] == GroupsFor(s, c, ks[1..]);
    }
  }

  /** Adding one row in front adds its share to exactly the group of its key. */
  lemma {:induction false} OverKeysStep(s: seq<Row>, c: Column, ks: seq<string>)
    requires |s| > 0
    requires forall i, j :: 0 <= i < j < |ks| ==> ks[i] != ks[j]
    ensures var x := s[0];
      var hit := Get(x, c).Some? && Get(x, c).value in ks;
      CountOverKeys(s, c, ks) == CountOverKeys(s[1..], c, ks) + (if hit && HasId(x) then 1 else 0) &&
      CostOverKeys(s, c, ks) == CostOverKeys(s[1..], c, ks) + (if hit then x.cost else 0.0)
  {
    if |ks| > 0 {
      OverKeysStep(s, c, ks[1..]);
      var x := s[0];
      var mine := if CellIs(Get(x, c), ks[0]) then [x] else [];
      assert Narrow(s, c, ks[0]) == mine + Narrow(s[1..], c, ks[0]);
      CountOfConcat(mine, Narrow(s[1..], c, ks[0]), HasId);
      SumOfConcat(mine, Narrow(s[1..], c, ks[0]), CostOf);
      if mine != [] {
        assert mine[1..] == [];
        assert Get(x, c).value !in ks[1..];
      }
    }
  }

  /** Summing over distinct keys that cover every present key gives the
      total over the keyed rows. */
  lemma {:induction false} KeyPartition(s: seq<Row>, c: Column, ks: seq<string>)
    requires forall i, j :: 0 <= i < j < |ks| ==> ks[i] != ks[j]
    requires forall i :: 0 <= i < |s| && Get(s[i], c).Some? ==> Get(s[i], c).value in ks
    ensures CountOverKeys(s, c, ks) == CountOf(Keyed(s, c), HasId)
    ensures CostOverKeys(s, c, ks) == SumOf(Keyed(s, c), CostOf)
  {
    if |s| == 0 {
      EmptyOverKeys(c, ks);
    } else {
      assert forall i :: 0 <= i < |s| - 1 ==> s[1..][i] == s[i + 1];
      KeyPartition(s[1..], c, ks);
      OverKeysStep(s, c, ks);
      var mine := if Get(s[0], c).Some? then [s[0]] else [];
      assert Keyed(s, c) == mine + Keyed(s[1..], c);
      CountOfConcat(mine, Keyed(s[1..], c), HasId);
      SumOfConcat(mine, Keyed(s[1..], c), CostOf);
      if mine != [] {
        assert mine[1..] == [];
      }
    }
  }

  lemma {:induction false} EmptyOverKeys(c: Column, ks: seq<string>)
    ensures CountOverKeys([], c, ks) == 0 && CostOverKeys([], c, ks) == 0.0
  {
    if |ks| > 0 {
      EmptyOverKeys(c, ks[1..]);
    }
  }

  /** The groups partition the rows whose key is present: their counts add
      up to the number of such rows that have a ResourceID, and their costs
      to the total cost of such rows. */
  lemma RollupPartition(s: seq<Row>, c: Column)
    ensures SumCounts(Rollup(s, c)) == CountOf(Keyed(s, c), HasId)
    ensures SumCosts(Rollup(s, c)) == SumOf(Keyed(s, c), CostOf)
  {
    var ks := Keys(s, c);
    SortSums(GroupsFor(s, c, ks));
    GroupsForSums(s, c, ks);
    forall i | 0 <= i < |s| && Get(s[i], c).Some? ensures Get(s[i], c).value in ks {
      assert KeyOccurs(s, c, Get(s[i], c).value);
    }
    KeyPartition(s, c, ks);
  }
}
