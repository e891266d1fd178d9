/** Loading the resource table: cells that the CSV reader treats as missing
    become absent, exact duplicate rows are dropped (the first occurrence is
    kept), and the tag-completeness columns are computed for every row. */
module Load {
  import opened Table

  /** One row as it stands in the CSV file, every text cell verbatim. */
  datatype RawRow = RawRow(
    id: string,
    service: string,
    region: string,
    cost: real,
    tagged: string,
    department: string,
    project: string,
    environment: string,
    owner: string,
    costCenter: string)

  /** The strings the CSV reader reads as missing: the two extra markers the
      dashboard passes (`''` and `' '`) together with the reader's built-in
      list, which stays active because the default markers are not switched
      off. */
  const MissingMarkers: set<string> := {
    "", " ",
    "#N/A", "#N/A N/A", "#NA", "-1.#IND", "-1.#QNAN", "-NaN", "-nan",
    "1.#IND", "1.#QNAN", "<NA>", "N/A", "NA", "NULL", "NaN", "None",
    "n/a", "nan", "null"
  }

  function Cell(s: string): (c: Option<string>)
    ensures c.None? <==> s in MissingMarkers
    ensures c.Some? ==> c.value == s
  {
    if s in MissingMarkers then None else Some(s)
  }

  /** A raw row with its missing cells made absent. The two derived columns
      are not computed yet (they are zero until `Rescore`). */
  function Normalize(raw: RawRow): (r: Row)
    ensures r.score == 0 && r.percentage == 0.0
    ensures r.cost == raw.cost
    ensures r.id.None? <==> raw.id in MissingMarkers
    ensures r.service.None? <==> raw.service in MissingMarkers
    ensures r.region.None? <==> raw.region in MissingMarkers
    ensures r.tagged.None? <==> raw.tagged in MissingMarkers
    ensures r.department.None? <==> raw.department in MissingMarkers
    ensures r.project.None? <==> raw.project in MissingMarkers
    ensures r.environment.None? <==> raw.environment in MissingMarkers
    ensures r.owner.None? <==> raw.owner in MissingMarkers
    ensures r.costCenter.None? <==> raw.costCenter in MissingMarkers
    ensures r.id.Some? ==> r.id.value == raw.id
    ensures r.service.Some? ==> r.service.value == raw.service
    ensures r.region.Some? ==> r.region.value == raw.region
    ensures r.tagged.Some? ==> r.tagged.value == raw.tagged
    ensures r.department.Some? ==> r.department.value == raw.department
    ensures r.project.Some? ==> r.project.value == raw.project
    ensures r.environment.Some? ==> r.environment.value == raw.environment
    ensures r.owner.Some? ==> r.owner.value == raw.owner
    ensures r.costCenter.Some? ==> r.costCenter.value == raw.costCenter
  {
    Row(Cell(raw.id), Cell(raw.service), Cell(raw.region), raw.cost,
        Cell(raw.tagged), Cell(raw.department), Cell(raw.project),
        Cell(raw.environment), Cell(raw.owner), Cell(raw.costCenter),
        0, 0.0)
  }

  /** Drop every row that equals an earlier one in all columns. */
  function Dedup(s: seq<Row>): (d: seq<Row>)
    ensures |d| <= |s|
  {
    if |s| == 0 then []
    else
      var init := s[..|s| - 1];
      if s[|s| - 1] in init then Dedup(init) else Dedup(init) + [s[|s| - 1]]
  }

  /** Position of the first occurrence of `x` in `s`. */
  function FirstIndex(s: seq<Row>, x: Row): (i: nat)
    requires x in s
    ensures i < |s| && s[i] == x && x !in s[..i]
  {
    if s[0] == x then 0 else 1 + FirstIndex(s[1..], x)
  }

  /** `load_data` after the CSV has been read. */
  function LoadRows(raw: seq<RawRow>): (rows: seq<Row>)
    ensures |rows| <= |raw|
    ensures forall i :: 0 <= i < |rows| ==> Consistent(rows[i])
  {
    var d := Dedup(seq(|raw|, i requires 0 <= i < |raw| => Normalize(raw[i])));
    seq(|d|, i requires 0 <= i < |d| => Rescore(d[i]))
  }

  /** No two rows left by `Dedup` are equal. */
  lemma {:induction false} DedupDistinct(s: seq<Row>)
    ensures forall i, j :: 0 <= i < j < |Dedup(s)| ==> Dedup(s)[i] != Dedup(s)[j]
  {
    if |s| > 0 {
      var init := s[..|s| - 1];
      DedupDistinct(init);
      DedupMembers(init);
    }
  }

  /** `Dedup` keeps every distinct row and invents none. */
  lemma {:induction false} DedupMembers(s: seq<Row>)
    ensures forall x :: x in Dedup(s) <==> x in s
  {
    if |s| > 0 {
      var init := s[..|s| - 1];
      DedupMembers(init);
      assert s == init + [s[|s| - 1]];
    }
  }

  lemma {:induction false} FirstIndexPrefix(t: seq<Row>, y: Row, x: Row)
    requires x in t
    ensures FirstIndex(t + [y], x) == FirstIndex(t, x)
  {
    if t[0] != x {
      assert (t + [y])[1..] == t[1..] + [y];
      FirstIndexPrefix(t[1..], y, x);
    }
  }

  /** `Dedup` keeps first occurrences: the rows it leaves come in the order in
      which each of them first appears in the input. */
  lemma {:induction false} DedupKeepsFirstOrder(s: seq<Row>, i: nat, j: nat)
    requires i < j < |Dedup(s)|
    ensures Dedup(s)[i] in s && Dedup(s)[j] in s
    ensures FirstIndex(s, Dedup(s)[i]) < FirstIndex(s, Dedup(s)[j])
  {
    DedupMembers(s);
    assert Dedup(s)[i] in Dedup(s) && Dedup(s)[j] in Dedup(s);
    var init := s[..|s| - 1];
    var y := s[|s| - 1];
    assert s == init + [y];
    DedupMembers(init);
    if y in init {
      DedupKeepsFirstOrder(init, i, j);
      FirstIndexPrefix(init, y, Dedup(s)[i]);
      FirstIndexPrefix(init, y, Dedup(s)[j]);
    } else if j < |Dedup(init)| {
      DedupKeepsFirstOrder(init, i, j);
      FirstIndexPrefix(init, y, Dedup(s)[i]);
      FirstIndexPrefix(init, y, Dedup(s)[j]);
    } else {
      var x := Dedup(s)[i];
      assert Dedup(s) == Dedup(init) + [y];
      assert x == Dedup(init)[i];
      assert x in Dedup(init);
      FirstIndexPrefix(init, y, x);
      assert Dedup(s)[j] == y;
      assert y !in s[..|init|];
    }
  }

  /** What loading promises about each row: blank (and other missing-marker)
      cells are absent, the completeness columns agree with the tag fields,
      no two loaded rows are identical, and loading neither loses a distinct
      input row nor makes one up. */
  lemma LoadRowsCorrect(raw: seq<RawRow>)
    ensures forall i, j :: 0 <= i < j < |LoadRows(raw)| ==> LoadRows(raw)[i] != LoadRows(raw)[j]
    ensures forall r :: r in raw ==> Rescore(Normalize(r)) in LoadRows(raw)
    ensures forall x :: x in LoadRows(raw) ==> exists r :: r in raw && x == Rescore(Normalize(r))
  {
    var n := seq(|raw|, i requires 0 <= i < |raw| => Normalize(raw[i]));
    var d := Dedup(n);
    DedupDistinct(n);
    DedupMembers(n);
    var rows := LoadRows(raw);
    forall i, j | 0 <= i < j < |rows| ensures rows[i] != rows[j] {
      assert d[i] in n && d[j] in n;
      RescoreInjective(d[i], d[j]);
    }
    forall r | r in raw ensures Rescore(Normalize(r)) in rows {
      var k :| 0 <= k < |raw| && raw[k] == r;
      assert n[k] in d;
      var m :| 0 <= m < |d| && d[m] == n[k];
      assert rows[m] == Rescore(Normalize(r));
    }
    forall x | x in rows ensures exists r :: r in raw && x == Rescore(Normalize(r)) {
      var m :| 0 <= m < |rows| && rows[m] == x;
      assert d[m] in n;
      var k :| 0 <= k < |n| && n[k] == d[m];
      assert raw[k] in raw && x == Rescore(Normalize(raw[k]));
    }
  }

  /** Rescoring rows that were not yet scored cannot merge two distinct rows. */
  lemma RescoreInjective(a: Row, b: Row)
    requires a.score == 0 && a.percentage == 0.0
    requires b.score == 0 && b.percentage == 0.0
    requires a != b
    ensures Rescore(a) != Rescore(b)
  {
  }
}
