/** Two migrations that number rows: the backfill of check ordinals, and the delete that keeps the
    earliest run of each orchestration marker. */
module RowNumbering {
  import opened Basics
  import opened Text

  // --- The window function ------------------------------------------------------------------

  /** What `row_number()` sees of a row: its partition and its first ordering column. */
  datatype Keyed<G> = Keyed(group: G, created: Option<int>)

  /** Ascending times, NULLs last, then ids. */
  predicate Precedes(a: Option<int>, i: nat, b: Option<int>, j: nat) {
    if a.Some? && b.Some? && a.value != b.value then a.value < b.value
    else if a.Some? != b.Some? then a.Some?
    else i < j
  }

  predicate ComesBefore<G(==)>(view: map<nat, Keyed<G>>, i: nat, j: nat)
    requires i in view && j in view
  {
    view[i].group == view[j].group && Precedes(view[i].created, i, view[j].created, j)
  }

  function Earlier<G(==)>(view: map<nat, Keyed<G>>, id: nat): set<nat>
    requires id in view
  {
    set i | i in view && ComesBefore(view, i, id)
  }

  /** `row_number()` over the partition of the row, in its order. */
  function RowNumber<G(==)>(view: map<nat, Keyed<G>>, id: nat): nat
    requires id in view
  {
    |Earlier(view, id)| + 1
  }

  ghost function Partition<G>(view: map<nat, Keyed<G>>, group: G): set<nat> {
    set i | i in view && view[i].group == group
  }

  /** Within a partition, row numbers order the rows exactly as the ordering columns do. */
  lemma NumbersFollowTheOrder<G>(view: map<nat, Keyed<G>>, i: nat, j: nat)
    requires i in view && j in view && view[i].group == view[j].group
    ensures RowNumber(view, i) < RowNumber(view, j) <==> ComesBefore(view, i, j)
    ensures RowNumber(view, i) == RowNumber(view, j) <==> i == j
  {
    if ComesBefore(view, i, j) {
      EarlierGrows(view, i, j);
    } else if i != j {
      EarlierGrows(view, j, i);
    }
  }

  lemma EarlierGrows<G>(view: map<nat, Keyed<G>>, i: nat, j: nat)
    requires i in view && j in view && ComesBefore(view, i, j)
    ensures RowNumber(view, i) < RowNumber(view, j)
  {
    assert i in Earlier(view, j) && i !in Earlier(view, i);
    SubsetSize(Earlier(view, i), Earlier(view, j));
  }

  /** The rows of a partition in their order. */
  ghost predicate Lists<G>(view: map<nat, Keyed<G>>, group: G, list: seq<nat>) {
    && (forall k | 0 <= k < |list| :: list[k] in Partition(view, group))
    && (forall i | i in Partition(view, group) :: i in list)
    && forall k, l | 0 <= k < l < |list| :: ComesBefore(view, list[k], list[l])
  }

  ghost function Elements(list: seq<nat>): set<nat> { set k | 0 <= k < |list| :: list[k] }

  lemma {:induction false} ElementsSize(list: seq<nat>)
    requires forall k, l | 0 <= k < l < |list| :: list[k] != list[l]
    ensures |Elements(list)| == |list|
  {
    if list != [] {
      var (front, last) := (list[..|list| - 1], list[|list| - 1]);
      ElementsSize(front);
      assert Elements(list) == Elements(front) + {last};
      assert last !in Elements(front);
    }
  }

  /** In the listing of a partition the numbers are 1, 2, 3 and so on: each once, without a gap. */
  lemma NumbersCountTheRows<G>(view: map<nat, Keyed<G>>, group: G, list: seq<nat>, k: nat)
    requires Lists(view, group, list) && k < |list|
    ensures RowNumber(view, list[k]) == k + 1
  {
    var front := list[..k];
    assert Earlier(view, list[k]) == Elements(front) by {
      forall i | i in Earlier(view, list[k]) ensures i in Elements(front) {
        assert i in Partition(view, group);
        var l :| 0 <= l < |list| && list[l] == i;
        assert l < k;
        assert front[l] == i;
      }
    }
    ElementsSize(front);
  }

  /** Every partition has a listing. */
  lemma {:induction false} ListingOf<G>(view: map<nat, Keyed<G>>, group: G) returns (list: seq<nat>)
    ensures Lists(view, group, list) && |list| == |Partition(view, group)|
    decreases |Partition(view, group)|
  {
    if Partition(view, group) == {} {
      return [];
    }
    var last := LastOf(view, group, Partition(view, group));
    var rest := view - {last};
    assert Partition(rest, group) == Partition(view, group) - {last};
    var front := ListingOf(rest, group);
    list := front + [last];
  }

  lemma Transitive<G>(view: map<nat, Keyed<G>>, i: nat, j: nat, k: nat)
    requires i in view && j in view && k in view && ComesBefore(view, i, j) && ComesBefore(view, j, k)
    ensures ComesBefore(view, i, k)
  {
  }

  lemma {:induction false} LastOf<G>(view: map<nat, Keyed<G>>, group: G, rows: set<nat>) returns (last: nat)
    requires rows != {} && rows <= Partition(view, group)
    ensures last in rows && forall i | i in rows && i != last :: ComesBefore(view, i, last)
    decreases |rows|
  {
    last :| last in rows;
    var rest := rows - {last};
    assert forall i | i in rows && i != last :: i in rest;
    if rest != {} {
      var other := LastOf(view, group, rest);
      forall i | i in rest && i != other && ComesBefore(view, other, last) ensures ComesBefore(view, i, last) {
        Transitive(view, i, other, last);
      }
      if ComesBefore(view, last, other) {
        last := other;
      }
    }
  }

  /** The numbers of a partition are exactly one to its size. */
  lemma NumbersAreOneToN<G>(view: map<nat, Keyed<G>>, group: G, n: int)
    ensures 1 <= n <= |Partition(view, group)| <==> exists i :: i in Partition(view, group) && RowNumber(view, i) == n
  {
    var list := ListingOf(view, group);
    if 1 <= n <= |list| {
      NumbersCountTheRows(view, group, list, n - 1);
    }
    forall i | i in Partition(view, group) ensures 1 <= RowNumber(view, i) <= |list| {
      var k :| 0 <= k < |list| && list[k] == i;
      NumbersCountTheRows(view, group, list, k);
    }
  }

  // --- checks.ordinal ---------------------------------------------------------------------

  datatype Check = Check(suite: nat, created: Option<int>, ordinal: Option<int>, definition: string)

  function ChecksView(rows: map<nat, Check>): map<nat, Keyed<nat>> {
    map i | i in rows :: Keyed(rows[i].suite, rows[i].created)
  }

  /** How the rows were listed before: by creation time, NULLs last, then id. */
  predicate ShownBefore(rows: map<nat, Check>, i: nat, j: nat)
    requires i in rows && j in rows
  {
    match (rows[i].created, rows[j].created)
    case (Some(a), Some(b)) => a < b || (a == b && i < j)
    case (Some(_), None) => true
    case (None, Some(_)) => false
    case (None, None) => i < j
  }

  ghost predicate HasOrdinal(rows: map<nat, Check>, suite: nat, n: int) {
    exists i :: i in rows && rows[i].suite == suite && rows[i].ordinal == Some(n)
  }

  /** The ordinals number the checks of each suite from one, in the order they were shown. */
  ghost predicate Numbered(rows: map<nat, Check>) {
    && (forall i | i in rows :: rows[i].ordinal.Some?)
    && (forall i, j | i in rows && j in rows && rows[i].suite == rows[j].suite ::
          rows[i].ordinal.value < rows[j].ordinal.value <==> ShownBefore(rows, i, j))
    && forall s, n :: HasOrdinal(rows, s, n) <==> 1 <= n <= |Partition(ChecksView(rows), s)|
  }

  /** Only the ordinals differ. */
  ghost predicate SameButOrdinals(was: map<nat, Check>, now: map<nat, Check>) {
    now.Keys == was.Keys && forall i | i in was :: now[i] == was[i].(ordinal := now[i].ordinal)
  }

  class ChecksTable {
    var rows: map<nat, Check>

    constructor (rows: map<nat, Check>)
      ensures this.rows == rows
    {
      this.rows := rows;
    }

    /** The update that fills the column. */
    method Backfill()
      modifies this
      ensures SameButOrdinals(old(rows), rows) && Numbered(rows)
    {
      var numbered := ChecksView(rows);
      rows := map i | i in rows :: rows[i].(ordinal := Some(RowNumber(numbered, i)));
      assert ChecksView(rows) == numbered;
      FilledIsNumbered(rows);
    }
  }

  lemma FilledIsNumbered(rows: map<nat, Check>)
    requires forall i | i in rows :: rows[i].ordinal == Some(RowNumber(ChecksView(rows), i))
    ensures Numbered(rows)
  {
    var view := ChecksView(rows);
    forall i, j | i in rows && j in rows && rows[i].suite == rows[j].suite
      ensures rows[i].ordinal.value < rows[j].ordinal.value <==> ShownBefore(rows, i, j)
    {
      NumbersFollowTheOrder(view, i, j);
    }
    forall s, n ensures HasOrdinal(rows, s, n) <==> 1 <= n <= |Partition(view, s)| {
      NumbersAreOneToN(view, s, n);
      if i :| i in Partition(view, s) && RowNumber(view, i) == n {
        assert rows[i].ordinal == Some(n);
      }
      if i :| i in rows && rows[i].suite == s && rows[i].ordinal == Some(n) {
        assert i in Partition(view, s);
      }
    }
  }

  /** Listing a suite's checks by ordinal is listing them as before. */
  lemma SortingByOrdinalChangesNothing(rows: map<nat, Check>, list: seq<nat>, suite: nat)
    requires Numbered(rows) && forall k | 0 <= k < |list| :: list[k] in rows && rows[list[k]].suite == suite
    ensures (forall k, l | 0 <= k < l < |list| :: rows[list[k]].ordinal.value < rows[list[l]].ordinal.value)
       <==> (forall k, l | 0 <= k < l < |list| :: ShownBefore(rows, list[k], list[l]))
  {
    forall k, l | 0 <= k < l < |list|
      ensures rows[list[k]].ordinal.value < rows[list[l]].ordinal.value <==> ShownBefore(rows, list[k], list[l])
    {
    }
  }

  // --- runs.triggered_by --------------------------------------------------------------------

  datatype Run = Run(suite: nat, triggeredBy: Option<string>, created: int, rest: string)

  predicate IsMarked(run: Run) {
    run.triggeredBy.Some? && (StartsWith(run.triggeredBy.value, "adf:") || StartsWith(run.triggeredBy.value, "airflow:"))
  }

  /** The marker of a scheduled pipeline run. */
  lemma MarkersInPlainTerms(run: Run)
    ensures IsMarked(run) <==> exists id: string ::
      run.triggeredBy == Some("adf:" + id) || run.triggeredBy == Some("airflow:" + id)
  {
    if IsMarked(run) {
      var marker := run.triggeredBy.value;
      var prefix := if StartsWith(marker, "adf:") then "adf:" else "airflow:";
      assert marker == prefix + marker[|prefix|..];
    }
    if id: string :| run.triggeredBy == Some("adf:" + id) || run.triggeredBy == Some("airflow:" + id) {
    }
  }

  function RunsView(rows: map<nat, Run>): map<nat, Keyed<(nat, string)>> {
    map i | i in rows && IsMarked(rows[i]) :: Keyed((rows[i].suite, rows[i].triggeredBy.value), Some(rows[i].created))
  }

  predicate SameMarker(a: Run, b: Run) {
    IsMarked(a) && IsMarked(b) && a.suite == b.suite && a.triggeredBy == b.triggeredBy
  }

  /** What the partial unique index demands. */
  predicate UniqueMarkers(rows: map<nat, Run>) {
    forall i, j | i in rows && j in rows && SameMarker(rows[i], rows[j]) :: i == j
  }

  predicate RanBefore(rows: map<nat, Run>, i: nat, j: nat)
    requires i in rows && j in rows
  {
    rows[i].created < rows[j].created || (rows[i].created == rows[j].created && i < j)
  }

  /** The run was deleted: it is marked, and another of its marker ran before it. */
  ghost predicate Superseded(rows: map<nat, Run>, j: nat)
    requires j in rows
  {
    exists i :: i in rows && SameMarker(rows[i], rows[j]) && RanBefore(rows, i, j)
  }

  class RunsTable {
    var rows: map<nat, Run>
    var indexed: bool

    constructor (rows: map<nat, Run>)
      ensures this.rows == rows && !indexed
    {
      this.rows := rows;
      indexed := false;
    }

    /** The delete, and then the unique index, which aborts on a duplicate: it never does. */
    method Upgrade() returns (ok: bool)
      modifies this
      ensures ok && indexed && UniqueMarkers(rows)
      ensures forall j :: j in rows <==> j in old(rows) && !Superseded(old(rows), j)
      ensures forall j | j in rows :: rows[j] == old(rows)[j]
    {
      ghost var before := rows;
      var numbered := RunsView(rows);
      rows := map j | j in rows && !(j in numbered && RowNumber(numbered, j) > 1) :: rows[j];
      forall j | j in before ensures Superseded(before, j) <==> j in numbered && RowNumber(numbered, j) > 1 {
        FirstIsNotSuperseded(before, j);
      }
      SurvivorsAreUnique(before, rows);
      ok := UniqueMarkers(rows);
      if ok { indexed := true; }
    }
  }

  lemma FirstIsNotSuperseded(rows: map<nat, Run>, j: nat)
    requires j in rows
    ensures Superseded(rows, j) <==> j in RunsView(rows) && RowNumber(RunsView(rows), j) > 1
  {
    var view := RunsView(rows);
    if i :| i in rows && SameMarker(rows[i], rows[j]) && RanBefore(rows, i, j) {
      assert i in Earlier(view, j);
      SubsetSize({i}, Earlier(view, j));
    }
    if j in view && RowNumber(view, j) > 1 {
      var i :| i in Earlier(view, j);
      assert SameMarker(rows[i], rows[j]) && RanBefore(rows, i, j);
    }
  }

  lemma SurvivorsAreUnique(was: map<nat, Run>, now: map<nat, Run>)
    requires forall j | j in now :: j in was && now[j] == was[j] && !Superseded(was, j)
    ensures UniqueMarkers(now)
  {
    forall i, j | i in now && j in now && SameMarker(now[i], now[j]) ensures i == j {
    }
  }

  /** Every marker keeps a run: its earliest. */
  lemma EveryMarkerKeepsItsEarliest(rows: map<nat, Run>, j: nat) returns (first: nat)
    requires j in rows && IsMarked(rows[j])
    ensures first in rows && SameMarker(rows[first], rows[j]) && !Superseded(rows, first)
    ensures forall i | i in rows && SameMarker(rows[i], rows[j]) && i != first :: RanBefore(rows, first, i)
  {
    var view := RunsView(rows);
    var list := ListingOf(view, view[j].group);
    assert j in Partition(view, view[j].group);
    first := list[0];
    NumbersCountTheRows(view, view[j].group, list, 0);
    FirstIsNotSuperseded(rows, first);
    forall i | i in rows && SameMarker(rows[i], rows[j]) && i != first ensures RanBefore(rows, first, i) {
      assert i in Partition(view, view[j].group);
      var k :| 0 <= k < |list| && list[k] == i;
      assert ComesBefore(view, list[0], list[k]);
    }
  }
}
