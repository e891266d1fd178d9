/** The resource table of the cost-governance dashboard: one row per cloud
    resource, every text cell optional (a blank cell is read as absent), the
    five governance tags, and the two derived tag-completeness columns. */
module Table {

  datatype Option<+T> = None | Some(value: T)

  /** One resource row after loading. `score` and `percentage` are the derived
      columns TagCompletenessScore and TagCompletenessPercentage; they are only
      meaningful when `Consistent` holds. */
  datatype Row = Row(
    id: Option<string>,
    service: Option<string>,
    region: Option<string>,
    cost: real,
    tagged: Option<string>,
    department: Option<string>,
    project: Option<string>,
    environment: Option<string>,
    owner: Option<string>,
    costCenter: Option<string>,
    score: int,
    percentage: real)

  /** Number of tag fields (Department, Project, Environment, Owner, CostCenter). */
  const TagFieldCount := 5

  function Present(c: Option<string>): (n: nat)
    ensures n <= 1
    ensures n == 1 <==> c.Some?
  {
    if c.Some? then 1 else 0
  }

  /** How many of the five tag fields hold a value. */
  function TagScore(r: Row): (n: nat)
    ensures n <= TagFieldCount
    ensures n == TagFieldCount <==>
      r.department.Some? && r.project.Some? && r.environment.Some? &&
      r.owner.Some? && r.costCenter.Some?
    ensures n == 0 <==>
      r.department.None? && r.project.None? && r.environment.None? &&
      r.owner.None? && r.costCenter.None?
  {
    Present(r.department) + Present(r.project) + Present(r.environment) +
    Present(r.owner) + Present(r.costCenter)
  }

  /** The derived columns agree with the row's tag fields. */
  predicate Consistent(r: Row) {
    r.score == TagScore(r) &&
    r.percentage == (r.score as real / TagFieldCount as real) * 100.0
  }

  /** Recompute the two derived columns from the tag fields; every other
      column is kept. */
  function Rescore(r: Row): (r': Row)
    ensures Consistent(r')
    ensures 0 <= r'.score <= TagFieldCount
    ensures 0.0 <= r'.percentage <= 100.0
    ensures r'.id == r.id && r'.service == r.service && r'.region == r.region
    ensures r'.cost == r.cost && r'.tagged == r.tagged
    ensures r'.department == r.department && r'.project == r.project
    ensures r'.environment == r.environment && r'.owner == r.owner
    ensures r'.costCenter == r.costCenter
  {
    var n := TagScore(r);
    r.(score := n, percentage := (n as real / TagFieldCount as real) * 100.0)
  }

  lemma {:induction false} RescoreIdempotent(r: Row)
    requires Consistent(r)
    ensures Rescore(r) == r
  {
  }

  /** The columns the filter engine and the rollups can key on. */
  datatype Column = Service | Region | Department | Environment

  function Get(r: Row, c: Column): Option<string> {
    match c
    case Service => r.service
    case Region => r.region
    case Department => r.department
    case Environment => r.environment
  }

  /** Exact, case-sensitive comparison of a possibly absent cell with a string,
      as pandas' `==` on an object column: an absent cell equals nothing. */
  predicate CellIs(c: Option<string>, v: string) {
    c == Some(v)
  }
}
