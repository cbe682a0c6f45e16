/** The migration that strips passwords out of asset namespaces, folding assets that become the same. */
module NamespaceMerge {
  import opened Basics

  // --- Stripping a URI --------------------------------------------------------------------

  /** What the row loop needs to know of URIs: the stripped form, None when the error of a malformed port
      escapes, and whether there is a password. */
  datatype Stripping = Stripping(strip: string -> Option<string>, hasPassword: string -> bool)

  predicate HasPassword(lib: Stripping, uri: string) { lib.hasPassword(uri) }

  function Strip(lib: Stripping, uri: string): Option<string> { lib.strip(uri) }

  /** The filter of the row query: a colon, and an at sign somewhere after it. */
  predicate LooksLikeCredential(s: string) {
    exists i, j | 0 <= i < j < |s| :: s[i] == ':' && s[j] == '@'
  }

  /** A password shows in the text, a stripped URI has none, and a URI without one stays as it is. */
  ghost predicate Lawful(lib: Stripping) {
    forall uri: string ::
      && (HasPassword(lib, uri) ==> LooksLikeCredential(uri))
      && (HasPassword(lib, uri) && Strip(lib, uri).Some? ==> !HasPassword(lib, Strip(lib, uri).value))
      && (!HasPassword(lib, uri) ==> Strip(lib, uri) == Some(uri))
  }

  /** The stripped form, where there is one. */
  function Norm(lib: Stripping, uri: string): string {
    if Strip(lib, uri).Some? then Strip(lib, uri).value else uri
  }

  lemma NormFacts(lib: Stripping, uri: string)
    requires Lawful(lib)
    ensures !HasPassword(lib, uri) ==> Strip(lib, uri) == Some(uri)
    ensures Norm(lib, Norm(lib, uri)) == Norm(lib, uri)
    ensures !LooksLikeCredential(uri) ==> Strip(lib, uri) == Some(uri)
    ensures Strip(lib, uri) == Some(uri) ==> !HasPassword(lib, uri)
  {
  }

  // --- The tables -------------------------------------------------------------------------

  datatype Asset = Asset(namespace: string, name: string)

  datatype Incident = Incident(asset: nat, check: nat, active: bool)

  datatype Edge = Edge(upstream: nat, downstream: nat, source: string, connection: Option<nat>)

  datatype Db = Db(
    assets: map<nat, Asset>,
    suites: map<nat, Option<nat>>,
    runs: map<nat, Option<nat>>,
    incidents: map<nat, Incident>,
    edges: map<nat, Edge>)

  predicate UniqueNames(assets: map<nat, Asset>) {
    forall a, b | a in assets && b in assets && a != b :: assets[a] != assets[b]
  }

  /** At most one active incident for an asset and a check. */
  predicate UniqueIncidents(incidents: map<nat, Incident>) {
    forall i, j | i in incidents && j in incidents && i != j && incidents[i].active && incidents[j].active ::
      !(incidents[i].asset == incidents[j].asset && incidents[i].check == incidents[j].check)
  }

  predicate UniqueEdges(edges: map<nat, Edge>) {
    forall i, j | i in edges && j in edges && i != j :: edges[i] != edges[j]
  }

  predicate RefsExist(db: Db) {
    && (forall k | k in db.suites && db.suites[k].Some? :: db.suites[k].value in db.assets)
    && (forall k | k in db.runs && db.runs[k].Some? :: db.runs[k].value in db.assets)
    && (forall k | k in db.incidents :: db.incidents[k].asset in db.assets)
    && (forall k | k in db.edges :: db.edges[k].upstream in db.assets && db.edges[k].downstream in db.assets)
  }

  // --- One row ----------------------------------------------------------------------------

  function PointTo(column: map<nat, Option<nat>>, id: nat, twin: nat): map<nat, Option<nat>> {
    map k | k in column :: if column[k] == Some(id) then Some(twin) else column[k]
  }

  function PointIncidents(incidents: map<nat, Incident>, id: nat, twin: nat): map<nat, Incident> {
    map k | k in incidents :: if incidents[k].asset == id then incidents[k].(asset := twin) else incidents[k]
  }

  function PointUpstream(edges: map<nat, Edge>, id: nat, twin: nat): map<nat, Edge> {
    map k | k in edges :: if edges[k].upstream == id then edges[k].(upstream := twin) else edges[k]
  }

  function PointDownstream(edges: map<nat, Edge>, id: nat, twin: nat): map<nat, Edge> {
    map k | k in edges :: if edges[k].downstream == id then edges[k].(downstream := twin) else edges[k]
  }

  /** Deleting an asset: references are set to NULL in suites and runs, and incidents and edges go with it. */
  function DeleteAsset(db: Db, id: nat): Db {
    Db(
      db.assets - {id},
      map k | k in db.suites :: if db.suites[k] == Some(id) then None else db.suites[k],
      map k | k in db.runs :: if db.runs[k] == Some(id) then None else db.runs[k],
      map k | k in db.incidents && db.incidents[k].asset != id :: db.incidents[k],
      map k | k in db.edges && db.edges[k].upstream != id && db.edges[k].downstream != id :: db.edges[k])
  }

  predicate IsTwin(assets: map<nat, Asset>, id: nat, ns: string, name: string, t: nat) {
    t in assets && t != id && assets[t] == Asset(ns, name)
  }

  /** Everything that referenced `id` is pointed at `twin`, and `id` is gone; a clash of unique keys on
      the way aborts. */
  function FoldOnto(db: Db, id: nat, twin: nat): Option<Db> {
    var incidents := PointIncidents(db.incidents, id, twin);
    if !UniqueIncidents(incidents) then None
    else
      var up := PointUpstream(db.edges, id, twin);
      if !UniqueEdges(up) then None
      else
        var down := PointDownstream(up, id, twin);
        if !UniqueEdges(down) then None
        else Some(DeleteAsset(Db(db.assets, PointTo(db.suites, id, twin), PointTo(db.runs, id, twin), incidents, down), id))
  }

  ghost predicate IsFold(was: Db, now: Db, id: nat, ns: string, name: string, t: nat) {
    IsTwin(was.assets, id, ns, name, t) && FoldOnto(was, id, t) == Some(now)
  }

  /** The row was rewritten, or folded onto the asset that had its stripped name already. */
  ghost predicate Merged(was: Db, now: Db, id: nat, ns: string, name: string)
    requires id in was.assets
  {
    || ((forall t :: !IsTwin(was.assets, id, ns, name, t))
        && now == was.(assets := was.assets[id := was.assets[id].(namespace := ns)]))
    || exists t :: IsFold(was, now, id, ns, name, t)
  }

  // --- What the migration must keep -----------------------------------------------------------

  /** References that follow the assets to where they went. */
  ghost function Follow(column: map<nat, Option<nat>>, moved: map<nat, nat>): map<nat, Option<nat>> {
    map k | k in column :: if column[k].Some? && column[k].value in moved then Some(moved[column[k].value]) else column[k]
  }

  ghost function At(moved: map<nat, nat>, a: nat): nat { if a in moved then moved[a] else a }

  ghost function FollowIncidents(incidents: map<nat, Incident>, moved: map<nat, nat>): map<nat, Incident> {
    map k | k in incidents :: incidents[k].(asset := At(moved, incidents[k].asset))
  }

  ghost function FollowEdges(edges: map<nat, Edge>, moved: map<nat, nat>): map<nat, Edge> {
    map k | k in edges ::
      edges[k].(upstream := At(moved, edges[k].upstream), downstream := At(moved, edges[k].downstream))
  }

  /** Every row is still there, with its other columns, and its references went along. */
  ghost predicate RefsFollow(before: Db, after: Db, moved: map<nat, nat>) {
    && after.suites == Follow(before.suites, moved)
    && after.runs == Follow(before.runs, moved)
    && after.incidents == FollowIncidents(before.incidents, moved)
    && after.edges == FollowEdges(before.edges, moved)
  }

  /** Every asset went to an existing one whose identity is its own, stripped. */
  ghost predicate AssetsStripped(lib: Stripping, before: Db, after: Db, moved: map<nat, nat>) {
    && moved.Keys == before.assets.Keys
    && forall a | a in moved ::
         && moved[a] in after.assets
         && Strip(lib, before.assets[a].namespace) == Some(after.assets[moved[a]].namespace)
         && after.assets[moved[a]].name == before.assets[a].name
  }

  ghost predicate NoPasswords(lib: Stripping, db: Db) {
    forall a | a in db.assets :: !HasPassword(lib, db.assets[a].namespace)
  }

  /** The outcome of a migration that completes. */
  ghost predicate Migrated(lib: Stripping, before: Db, after: Db) {
    && UniqueNames(after.assets) && RefsExist(after) && NoPasswords(lib, after)
    && exists moved :: AssetsStripped(lib, before, after, moved) && RefsFollow(before, after, moved)
  }

  // --- The invariant of the row loop ----------------------------------------------------------

  /** Where an asset stands: untouched while its row is to come, and at its stripped name afterwards. */
  ghost predicate Placed(lib: Stripping, before: map<nat, Asset>, now: map<nat, Asset>, todo: set<nat>, moved: map<nat, nat>, a: nat)
    requires a in moved && a in before
  {
    && moved[a] in now
    && now[moved[a]].name == before[a].name
    && (a in todo ==> moved[a] == a && now[a] == before[a])
    && (a !in todo ==> Strip(lib, before[a].namespace) == Some(now[moved[a]].namespace))
  }

  /** Halfway: `todo` are the selected rows still to come, and `moved` says where each asset went. */
  ghost predicate AssetsHalfway(lib: Stripping, before: map<nat, Asset>, now: map<nat, Asset>, todo: set<nat>, moved: map<nat, nat>) {
    && moved.Keys == before.Keys && todo <= moved.Keys
    && (forall a {:trigger Placed(lib, before, now, todo, moved, a)} | a in moved :: Placed(lib, before, now, todo, moved, a))
    && (forall b | b in now && b !in todo :: !HasPassword(lib, now[b].namespace))
    && UniqueNames(now)
  }

  ghost predicate Halfway(lib: Stripping, before: Db, db: Db, todo: set<nat>, moved: map<nat, nat>) {
    AssetsHalfway(lib, before.assets, db.assets, todo, moved) && RefsFollow(before, db, moved)
  }

  lemma AssetsAtStart(lib: Stripping, before: map<nat, Asset>, todo: set<nat>)
    requires Lawful(lib) && UniqueNames(before)
    requires todo == set a | a in before && LooksLikeCredential(before[a].namespace)
    ensures AssetsHalfway(lib, before, before, todo, map a | a in before :: a)
  {
    ghost var moved := map a | a in before :: a;
    forall a | a in before && a !in todo
      ensures Strip(lib, before[a].namespace) == Some(before[a].namespace) && !HasPassword(lib, before[a].namespace)
    {
      NormFacts(lib, before[a].namespace);
    }
    assert forall a | a in moved :: Placed(lib, before, before, todo, moved, a);
  }

  lemma RefsAtStart(before: Db)
    requires RefsExist(before)
    ensures RefsFollow(before, before, map a | a in before.assets :: a)
  {
  }

  lemma SkipRow(lib: Stripping, before: map<nat, Asset>, now: map<nat, Asset>, todo: set<nat>, moved: map<nat, nat>, id: nat)
    requires Lawful(lib) && AssetsHalfway(lib, before, now, todo, moved) && id in todo
    requires Strip(lib, before[id].namespace) == Some(before[id].namespace)
    ensures AssetsHalfway(lib, before, now, todo - {id}, moved)
  {
    NormFacts(lib, before[id].namespace);
    assert Placed(lib, before, now, todo, moved, id);
    forall a | a in moved ensures Placed(lib, before, now, todo - {id}, moved, a) {
      assert Placed(lib, before, now, todo, moved, a);
    }
  }

  lemma RewriteRow(lib: Stripping, before: map<nat, Asset>, now: map<nat, Asset>, todo: set<nat>, moved: map<nat, nat>, id: nat, ns: string)
    requires Lawful(lib) && AssetsHalfway(lib, before, now, todo, moved) && id in todo
    requires Strip(lib, before[id].namespace) == Some(ns) && ns != before[id].namespace && id in now
    requires forall t :: !IsTwin(now, id, ns, before[id].name, t)
    ensures AssetsHalfway(lib, before, now[id := now[id].(namespace := ns)], todo - {id}, moved)
  {
    NormFacts(lib, before[id].namespace);
    var assets := now[id := now[id].(namespace := ns)];
    assert Placed(lib, before, now, todo, moved, id);
    forall a, b | a in assets && b in assets && a != b ensures assets[a] != assets[b] {
      assert !IsTwin(now, id, ns, before[id].name, if a == id then b else a);
    }
    forall a | a in moved ensures Placed(lib, before, assets, todo - {id}, moved, a) {
      NormFacts(lib, before[a].namespace);
      assert Placed(lib, before, now, todo, moved, a);
    }
  }

  ghost function MoveTo(moved: map<nat, nat>, id: nat, twin: nat): map<nat, nat> {
    map a | a in moved :: if moved[a] == id then twin else moved[a]
  }

  /** The twin has the stripped name, so it takes the place of the folded asset. */
  lemma FoldRow(lib: Stripping, before: map<nat, Asset>, now: map<nat, Asset>, todo: set<nat>, moved: map<nat, nat>, id: nat, ns: string, twin: nat)
    requires Lawful(lib) && AssetsHalfway(lib, before, now, todo, moved) && id in todo
    requires Strip(lib, before[id].namespace) == Some(ns) && ns != before[id].namespace
    requires IsTwin(now, id, ns, before[id].name, twin)
    ensures AssetsHalfway(lib, before, now - {id}, todo - {id}, MoveTo(moved, id, twin))
  {
    NormFacts(lib, before[id].namespace);
    assert Placed(lib, before, now, todo, moved, id);
    forall a | a in moved ensures Placed(lib, before, now - {id}, todo - {id}, MoveTo(moved, id, twin), a) {
      NormFacts(lib, before[a].namespace);
      assert Placed(lib, before, now, todo, moved, a);
    }
  }

  // --- Folding one asset onto its twin --------------------------------------------------------

  lemma ColumnFollows(column: map<nat, Option<nat>>, moved: map<nat, nat>, id: nat, twin: nat)
    requires forall k | k in column && column[k].Some? :: column[k].value in moved
    ensures PointTo(Follow(column, moved), id, twin) == Follow(column, MoveTo(moved, id, twin))
  {
  }

  lemma IncidentsFollow(incidents: map<nat, Incident>, moved: map<nat, nat>, id: nat, twin: nat)
    requires forall k | k in incidents :: incidents[k].asset in moved
    ensures PointIncidents(FollowIncidents(incidents, moved), id, twin) == FollowIncidents(incidents, MoveTo(moved, id, twin))
  {
  }

  lemma EdgesFollow(edges: map<nat, Edge>, moved: map<nat, nat>, id: nat, twin: nat)
    requires forall k | k in edges :: edges[k].upstream in moved && edges[k].downstream in moved
    ensures PointDownstream(PointUpstream(FollowEdges(edges, moved), id, twin), id, twin)
         == FollowEdges(edges, MoveTo(moved, id, twin))
  {
    var pointed := PointDownstream(PointUpstream(FollowEdges(edges, moved), id, twin), id, twin);
    forall k | k in edges ensures pointed[k] == FollowEdges(edges, MoveTo(moved, id, twin))[k] {
      assert PointUpstream(FollowEdges(edges, moved), id, twin)[k].downstream == moved[edges[k].downstream];
    }
  }

  lemma FollowThenPoint(before: Db, moved: map<nat, nat>, id: nat, twin: nat)
    requires RefsExist(before) && moved.Keys == before.assets.Keys
    ensures PointTo(Follow(before.suites, moved), id, twin) == Follow(before.suites, MoveTo(moved, id, twin))
    ensures PointTo(Follow(before.runs, moved), id, twin) == Follow(before.runs, MoveTo(moved, id, twin))
    ensures PointIncidents(FollowIncidents(before.incidents, moved), id, twin)
         == FollowIncidents(before.incidents, MoveTo(moved, id, twin))
    ensures PointDownstream(PointUpstream(FollowEdges(before.edges, moved), id, twin), id, twin)
         == FollowEdges(before.edges, MoveTo(moved, id, twin))
  {
    ColumnFollows(before.suites, moved, id, twin);
    ColumnFollows(before.runs, moved, id, twin);
    IncidentsFollow(before.incidents, moved, id, twin);
    EdgesFollow(before.edges, moved, id, twin);
  }

  /** After everything points away from `id`, deleting it takes no row along. */
  lemma NothingDangles(db: Db, id: nat)
    requires forall k | k in db.suites :: db.suites[k] != Some(id)
    requires forall k | k in db.runs :: db.runs[k] != Some(id)
    requires forall k | k in db.incidents :: db.incidents[k].asset != id
    requires forall k | k in db.edges :: db.edges[k].upstream != id && db.edges[k].downstream != id
    ensures DeleteAsset(db, id) == db.(assets := db.assets - {id})
  {
    var d := DeleteAsset(db, id);
    assert d.suites == db.suites && d.runs == db.runs && d.incidents == db.incidents && d.edges == db.edges;
  }

  lemma FoldKeepsRefs(before: Db, db: Db, moved: map<nat, nat>, id: nat, twin: nat)
    requires RefsExist(before) && moved.Keys == before.assets.Keys && id != twin
    requires RefsFollow(before, db, moved) && FoldOnto(db, id, twin).Some?
    ensures FoldOnto(db, id, twin).value.assets == db.assets - {id}
    ensures RefsFollow(before, FoldOnto(db, id, twin).value, MoveTo(moved, id, twin))
  {
    var pointed := Db(db.assets, PointTo(db.suites, id, twin), PointTo(db.runs, id, twin),
                      PointIncidents(db.incidents, id, twin), PointDownstream(PointUpstream(db.edges, id, twin), id, twin));
    FollowThenPoint(before, moved, id, twin);
    NothingDangles(pointed, id);
  }

  /** One row of the loop whose namespace changes. */
  lemma RowStep(lib: Stripping, before: Db, was: Db, now: Db, todo: set<nat>, moved: map<nat, nat>, id: nat, ns: string)
    returns (moved': map<nat, nat>)
    requires Lawful(lib) && RefsExist(before) && Halfway(lib, before, was, todo, moved) && id in todo
    requires Strip(lib, before.assets[id].namespace) == Some(ns) && ns != before.assets[id].namespace && id in was.assets
    requires Merged(was, now, id, ns, before.assets[id].name)
    ensures Halfway(lib, before, now, todo - {id}, moved')
  {
    var name := before.assets[id].name;
    if t :| IsFold(was, now, id, ns, name, t) {
      FoldKeepsRefs(before, was, moved, id, t);
      FoldRow(lib, before.assets, was.assets, todo, moved, id, ns, t);
      moved' := MoveTo(moved, id, t);
    } else {
      RewriteRow(lib, before.assets, was.assets, todo, moved, id, ns);
      moved' := moved;
    }
  }

  lemma StrippedAtEnd(lib: Stripping, before: Db, db: Db, moved: map<nat, nat>)
    requires AssetsHalfway(lib, before.assets, db.assets, {}, moved)
    ensures AssetsStripped(lib, before, db, moved) && NoPasswords(lib, db) && UniqueNames(db.assets)
  {
    forall a | a in moved ensures Placed(lib, before.assets, db.assets, {}, moved, a) {
    }
  }

  lemma RefsLand(before: Db, db: Db, moved: map<nat, nat>)
    requires RefsExist(before) && RefsFollow(before, db, moved) && moved.Keys == before.assets.Keys
    requires forall a | a in moved :: moved[a] in db.assets
    ensures RefsExist(db)
  {
    forall k | k in db.edges ensures db.edges[k].upstream in db.assets && db.edges[k].downstream in db.assets {
      assert before.edges[k].upstream in moved && before.edges[k].downstream in moved;
    }
  }

  lemma HalfwayAtEnd(lib: Stripping, before: Db, db: Db, moved: map<nat, nat>)
    requires RefsExist(before) && Halfway(lib, before, db, {}, moved)
    ensures Migrated(lib, before, db)
  {
    StrippedAtEnd(lib, before, db, moved);
    RefsLand(before, db, moved);
  }

  // --- When it completes ------------------------------------------------------------------

  /** Two assets that the migration makes one. */
  ghost predicate SameIdentity(lib: Stripping, assets: map<nat, Asset>, a: nat, b: nat) {
    && a in assets && b in assets
    && Norm(lib, assets[a].namespace) == Norm(lib, assets[b].namespace)
    && assets[a].name == assets[b].name
  }

  /** No two active incidents of a check, and no two alike edges, are on assets that become one. */
  ghost predicate NoClash(lib: Stripping, db: Db) {
    && (forall i, j | i in db.incidents && j in db.incidents && i != j && db.incidents[i].active && db.incidents[j].active ::
          !(db.incidents[i].check == db.incidents[j].check
            && SameIdentity(lib, db.assets, db.incidents[i].asset, db.incidents[j].asset)))
    && (forall i, j | i in db.edges && j in db.edges && i != j ::
          !(db.edges[i].source == db.edges[j].source && db.edges[i].connection == db.edges[j].connection
            && SameIdentity(lib, db.assets, db.edges[i].upstream, db.edges[j].upstream)
            && SameIdentity(lib, db.assets, db.edges[i].downstream, db.edges[j].downstream)))
  }

  /** The migration can complete: every namespace can be stripped, and no unique key is in the way. */
  ghost predicate Completes(lib: Stripping, db: Db) {
    (forall a | a in db.assets :: Strip(lib, db.assets[a].namespace).Some?) && NoClash(lib, db)
  }

  /** A database the migration aborts on: two assets that become one, each with an edge to a third. */
  lemma AlikeEdgesAbort(lib: Stripping, uri: string, stripped: string, source: string)
    requires Lawful(lib) && HasPassword(lib, uri) && Strip(lib, uri) == Some(stripped)
    ensures
      var db := Db(
        map[0 := Asset(uri, "orders"), 1 := Asset(stripped, "orders"), 2 := Asset(stripped, "customers")],
        map[], map[], map[],
        map[0 := Edge(0, 2, source, None), 1 := Edge(1, 2, source, None)]);
      UniqueNames(db.assets) && RefsExist(db) && UniqueIncidents(db.incidents) && UniqueEdges(db.edges) && !Completes(lib, db)
  {
    NormFacts(lib, uri);
    assert |"orders"| != |"customers"|;
    var db := Db(
      map[0 := Asset(uri, "orders"), 1 := Asset(stripped, "orders"), 2 := Asset(stripped, "customers")],
      map[], map[], map[],
      map[0 := Edge(0, 2, source, None), 1 := Edge(1, 2, source, None)]);
    assert 0 in db.edges && 1 in db.edges;
    assert SameIdentity(lib, db.assets, 0, 1) && SameIdentity(lib, db.assets, 2, 2);
  }

  /** Only assets that become one are brought together. */
  ghost predicate Respects(lib: Stripping, assets: map<nat, Asset>, moved: map<nat, nat>) {
    forall a, b | a in moved && b in moved && moved[a] == moved[b] :: SameIdentity(lib, assets, a, b)
  }

  lemma HalfwayRespects(lib: Stripping, before: map<nat, Asset>, now: map<nat, Asset>, todo: set<nat>, moved: map<nat, nat>)
    requires Lawful(lib) && AssetsHalfway(lib, before, now, todo, moved)
    ensures Respects(lib, before, moved)
  {
    forall a | a in moved
      ensures moved[a] in now && now[moved[a]].name == before[a].name
      ensures Norm(lib, now[moved[a]].namespace) == Norm(lib, before[a].namespace)
    {
      NormFacts(lib, before[a].namespace);
      assert Placed(lib, before, now, todo, moved, a);
    }
  }

  /** Edges whose ends went along with two respectful moves stay different. */
  lemma EdgesStayUnique(lib: Stripping, before: Db, up: map<nat, nat>, down: map<nat, nat>, edges: map<nat, Edge>)
    requires RefsExist(before) && NoClash(lib, before)
    requires up.Keys == before.assets.Keys == down.Keys
    requires Respects(lib, before.assets, up) && Respects(lib, before.assets, down)
    requires edges.Keys == before.edges.Keys
    requires forall k | k in edges :: edges[k] ==
               before.edges[k].(upstream := up[before.edges[k].upstream], downstream := down[before.edges[k].downstream])
    ensures UniqueEdges(edges)
  {
    forall i, j | i in edges && j in edges && i != j ensures edges[i] != edges[j] {
      var (e, f) := (before.edges[i], before.edges[j]);
      if edges[i] == edges[j] {
        assert false;
      }
    }
  }

  lemma IncidentsStayUnique(lib: Stripping, before: Db, moved: map<nat, nat>, incidents: map<nat, Incident>)
    requires RefsExist(before) && NoClash(lib, before)
    requires moved.Keys == before.assets.Keys && Respects(lib, before.assets, moved)
    requires incidents.Keys == before.incidents.Keys
    requires forall k | k in incidents :: incidents[k] == before.incidents[k].(asset := moved[before.incidents[k].asset])
    ensures UniqueIncidents(incidents)
  {
  }

  lemma FoldedIncidentsAreUnique(lib: Stripping, before: Db, moved: map<nat, nat>, id: nat, twin: nat)
    requires RefsExist(before) && NoClash(lib, before) && moved.Keys == before.assets.Keys
    requires Respects(lib, before.assets, MoveTo(moved, id, twin))
    ensures UniqueIncidents(PointIncidents(FollowIncidents(before.incidents, moved), id, twin))
  {
    IncidentsFollow(before.incidents, moved, id, twin);
    IncidentsStayUnique(lib, before, MoveTo(moved, id, twin), FollowIncidents(before.incidents, MoveTo(moved, id, twin)));
  }

  lemma HalfFoldedEdgesAreUnique(lib: Stripping, before: Db, moved: map<nat, nat>, id: nat, twin: nat)
    requires RefsExist(before) && NoClash(lib, before) && moved.Keys == before.assets.Keys
    requires Respects(lib, before.assets, moved) && Respects(lib, before.assets, MoveTo(moved, id, twin))
    ensures UniqueEdges(PointUpstream(FollowEdges(before.edges, moved), id, twin))
  {
    EdgesStayUnique(lib, before, MoveTo(moved, id, twin), moved, PointUpstream(FollowEdges(before.edges, moved), id, twin));
  }

  lemma FoldedEdgesAreUnique(lib: Stripping, before: Db, moved: map<nat, nat>, id: nat, twin: nat)
    requires RefsExist(before) && NoClash(lib, before) && moved.Keys == before.assets.Keys
    requires Respects(lib, before.assets, MoveTo(moved, id, twin))
    ensures UniqueEdges(PointDownstream(PointUpstream(FollowEdges(before.edges, moved), id, twin), id, twin))
  {
    var moved' := MoveTo(moved, id, twin);
    EdgesFollow(before.edges, moved, id, twin);
    EdgesStayUnique(lib, before, moved', moved', FollowEdges(before.edges, moved'));
  }

  lemma FoldSucceeds(lib: Stripping, before: Db, db: Db, moved: map<nat, nat>, id: nat, twin: nat)
    requires RefsExist(before) && NoClash(lib, before) && moved.Keys == before.assets.Keys
    requires RefsFollow(before, db, moved)
    requires Respects(lib, before.assets, moved) && Respects(lib, before.assets, MoveTo(moved, id, twin))
    ensures FoldOnto(db, id, twin).Some?
  {
    FoldedIncidentsAreUnique(lib, before, moved, id, twin);
    HalfFoldedEdgesAreUnique(lib, before, moved, id, twin);
    FoldedEdgesAreUnique(lib, before, moved, id, twin);
  }

  /** A row that can be stripped and does not clash is merged. */
  lemma MergeSucceeds(lib: Stripping, before: Db, was: Db, todo: set<nat>, moved: map<nat, nat>, id: nat, ns: string, twin: nat)
    requires Lawful(lib) && RefsExist(before) && Halfway(lib, before, was, todo, moved) && id in todo
    requires Strip(lib, before.assets[id].namespace) == Some(ns) && ns != before.assets[id].namespace
    requires IsTwin(was.assets, id, ns, before.assets[id].name, twin)
    requires NoClash(lib, before)
    ensures FoldOnto(was, id, twin).Some?
  {
    FoldRow(lib, before.assets, was.assets, todo, moved, id, ns, twin);
    HalfwayRespects(lib, before.assets, was.assets, todo, moved);
    HalfwayRespects(lib, before.assets, was.assets - {id}, todo - {id}, MoveTo(moved, id, twin));
    FoldSucceeds(lib, before, was, moved, id, twin);
  }

  ghost predicate UniqueRows(db: Db) { UniqueIncidents(db.incidents) && UniqueEdges(db.edges) }

  /** The invariant of the row loop. */
  ghost predicate Going(lib: Stripping, before: Db, db: Db, todo: set<nat>, moved: map<nat, nat>) {
    Halfway(lib, before, db, todo, moved) && UniqueRows(db) && (NoPasswords(lib, before) ==> db == before)
  }

  lemma SameIdentityMeets(lib: Stripping, before: map<nat, Asset>, now: map<nat, Asset>, moved: map<nat, nat>, a: nat, b: nat)
    requires AssetsHalfway(lib, before, now, {}, moved) && SameIdentity(lib, before, a, b)
    ensures moved[a] == moved[b]
  {
    assert Placed(lib, before, now, {}, moved, a) && Placed(lib, before, now, {}, moved, b);
  }

  lemma IncidentsWentApart(before: Db, db: Db, moved: map<nat, nat>, i: nat, j: nat)
    requires RefsExist(before) && moved.Keys == before.assets.Keys
    requires RefsFollow(before, db, moved) && UniqueIncidents(db.incidents)
    requires i in before.incidents && j in before.incidents && i != j
    requires before.incidents[i].active && before.incidents[j].active && before.incidents[i].check == before.incidents[j].check
    ensures moved[before.incidents[i].asset] != moved[before.incidents[j].asset]
  {
    assert db.incidents[i].active && db.incidents[j].active && db.incidents[i].check == db.incidents[j].check;
  }

  lemma IncidentsHadNoClash(lib: Stripping, before: Db, db: Db, moved: map<nat, nat>, i: nat, j: nat)
    requires RefsExist(before) && Halfway(lib, before, db, {}, moved) && UniqueRows(db)
    requires i in before.incidents && j in before.incidents && i != j
    requires before.incidents[i].active && before.incidents[j].active && before.incidents[i].check == before.incidents[j].check
    ensures !SameIdentity(lib, before.assets, before.incidents[i].asset, before.incidents[j].asset)
  {
    IncidentsWentApart(before, db, moved, i, j);
    if SameIdentity(lib, before.assets, before.incidents[i].asset, before.incidents[j].asset) {
      SameIdentityMeets(lib, before.assets, db.assets, moved, before.incidents[i].asset, before.incidents[j].asset);
    }
  }

  lemma EdgesWentApart(before: Db, db: Db, moved: map<nat, nat>, i: nat, j: nat)
    requires RefsExist(before) && moved.Keys == before.assets.Keys
    requires db.edges == FollowEdges(before.edges, moved) && UniqueEdges(db.edges)
    requires i in before.edges && j in before.edges && i != j
    requires before.edges[i].source == before.edges[j].source && before.edges[i].connection == before.edges[j].connection
    ensures moved[before.edges[i].upstream] != moved[before.edges[j].upstream]
         || moved[before.edges[i].downstream] != moved[before.edges[j].downstream]
  {
    assert db.edges[i] != db.edges[j];
  }

  lemma EdgesHadNoClash(lib: Stripping, before: Db, db: Db, moved: map<nat, nat>, i: nat, j: nat)
    requires RefsExist(before) && AssetsHalfway(lib, before.assets, db.assets, {}, moved)
    requires db.edges == FollowEdges(before.edges, moved) && UniqueEdges(db.edges)
    requires i in before.edges && j in before.edges && i != j
    requires before.edges[i].source == before.edges[j].source && before.edges[i].connection == before.edges[j].connection
    requires SameIdentity(lib, before.assets, before.edges[i].upstream, before.edges[j].upstream)
    ensures !SameIdentity(lib, before.assets, before.edges[i].downstream, before.edges[j].downstream)
  {
    EdgesWentApart(before, db, moved, i, j);
    SameIdentityMeets(lib, before.assets, db.assets, moved, before.edges[i].upstream, before.edges[j].upstream);
    if SameIdentity(lib, before.assets, before.edges[i].downstream, before.edges[j].downstream) {
      SameIdentityMeets(lib, before.assets, db.assets, moved, before.edges[i].downstream, before.edges[j].downstream);
    }
  }

  lemma NothingHadClashed(lib: Stripping, before: Db, db: Db, moved: map<nat, nat>)
    requires RefsExist(before) && Halfway(lib, before, db, {}, moved) && UniqueRows(db)
    ensures NoClash(lib, before)
  {
    forall i, j | i in before.incidents && j in before.incidents && i != j
                  && before.incidents[i].active && before.incidents[j].active
                  && before.incidents[i].check == before.incidents[j].check
      ensures !SameIdentity(lib, before.assets, before.incidents[i].asset, before.incidents[j].asset)
    {
      IncidentsHadNoClash(lib, before, db, moved, i, j);
    }
    forall i, j | i in before.edges && j in before.edges && i != j
                  && before.edges[i].source == before.edges[j].source && before.edges[i].connection == before.edges[j].connection
                  && SameIdentity(lib, before.assets, before.edges[i].upstream, before.edges[j].upstream)
      ensures !SameIdentity(lib, before.assets, before.edges[i].downstream, before.edges[j].downstream)
    {
      EdgesHadNoClash(lib, before, db, moved, i, j);
    }
  }

  /** At the end of the loop everything is in place, and nothing had been in the way. */
  lemma AtEnd(lib: Stripping, before: Db, db: Db, moved: map<nat, nat>)
    requires RefsExist(before) && Going(lib, before, db, {}, moved)
    ensures Completes(lib, before) && Migrated(lib, before, db) && UniqueRows(db)
  {
    HalfwayAtEnd(lib, before, db, moved);
    NothingHadClashed(lib, before, db, moved);
  }

  /** Before the loop: the selected rows are to come. */
  lemma AtStart(lib: Stripping, before: Db, todo: set<nat>)
    requires Lawful(lib) && UniqueNames(before.assets) && RefsExist(before) && UniqueRows(before)
    requires todo == Selected(before)
    ensures Going(lib, before, before, todo, map a | a in before.assets :: a)
  {
    AssetsAtStart(lib, before.assets, todo);
    RefsAtStart(before);
  }

  function Selected(db: Db): set<nat> {
    set a | a in db.assets && LooksLikeCredential(db.assets[a].namespace)
  }

  /** The database connection of the migration's transaction. */
  class Connection {
    var db: Db

    constructor (db: Db)
      ensures this.db == db
    {
      this.db := db;
    }

    method FindTwin(id: nat, ns: string, name: string) returns (twin: Option<nat>)
      ensures twin.Some? ==> IsTwin(db.assets, id, ns, name, twin.value)
      ensures twin.None? ==> forall t :: !IsTwin(db.assets, id, ns, name, t)
    {
      var rest := db.assets.Keys;
      while rest != {}
        invariant rest <= db.assets.Keys
        invariant forall t | t in db.assets && t !in rest :: !IsTwin(db.assets, id, ns, name, t)
        decreases rest
      {
        var t :| t in rest;
        if IsTwin(db.assets, id, ns, name, t) {
          return Some(t);
        }
        rest := rest - {t};
      }
      return None;
    }

    /** Gives the asset its stripped namespace, or folds it onto the asset that has it already. */
    method MergeOrRewrite(id: nat, ns: string, name: string) returns (ok: bool)
      requires id in db.assets
      modifies this
      ensures ok ==> Merged(old(db), db, id, ns, name)
      ensures ok && UniqueRows(old(db)) ==> UniqueRows(db)
      ensures !ok ==> exists t :: IsTwin(old(db.assets), id, ns, name, t) && FoldOnto(old(db), id, t).None?
    {
      ghost var was := db;
      var twin := FindTwin(id, ns, name);
      if twin.None? {
        db := db.(assets := db.assets[id := db.assets[id].(namespace := ns)]);
        return true;
      }
      var t := twin.value;
      db := db.(suites := PointTo(db.suites, id, t));
      db := db.(runs := PointTo(db.runs, id, t));
      db := db.(incidents := PointIncidents(db.incidents, id, t));
      if !UniqueIncidents(db.incidents) { return false; }
      db := db.(edges := PointUpstream(db.edges, id, t));
      if !UniqueEdges(db.edges) { return false; }
      db := db.(edges := PointDownstream(db.edges, id, t));
      if !UniqueEdges(db.edges) { return false; }
      db := DeleteAsset(db, id);
      assert IsFold(was, db, id, ns, name, t);
      return true;
    }

    /** One selected row. */
    method ProcessRow(lib: Stripping, id: nat, namespace: string, name: string,
                      ghost before: Db, ghost todo: set<nat>, ghost moved: map<nat, nat>)
      returns (ok: bool, ghost moved': map<nat, nat>)
      requires Lawful(lib) && RefsExist(before) && Going(lib, before, db, todo, moved)
      requires id in todo && id in before.assets && before.assets[id] == Asset(namespace, name)
      modifies this
      ensures ok ==> Going(lib, before, db, todo - {id}, moved')
      ensures !ok ==> !Completes(lib, before) && !NoPasswords(lib, before)
    {
      moved' := moved;
      NormFacts(lib, namespace);
      var stripped := Strip(lib, namespace);
      if stripped.None? {
        return false, moved;
      }
      if stripped.value == namespace {
        SkipRow(lib, before.assets, db.assets, todo, moved, id);
        return true, moved;
      }
      ghost var was := db;
      assert Placed(lib, before.assets, was.assets, todo, moved, id);
      ok := MergeOrRewrite(id, stripped.value, name);
      if ok {
        moved' := RowStep(lib, before, was, db, todo, moved, id, stripped.value);
      } else if NoClash(lib, before) {
        ghost var t :| IsTwin(was.assets, id, stripped.value, name, t) && FoldOnto(was, id, t).None?;
        MergeSucceeds(lib, before, was, todo, moved, id, stripped.value, t);
      }
    }

    /** The row loop. The rows come in any order. */
    method ProcessRows(lib: Stripping, rows: set<nat>, ghost start: map<nat, nat>) returns (ok: bool, ghost moved: map<nat, nat>)
      requires Lawful(lib) && RefsExist(db) && rows <= db.assets.Keys && Going(lib, db, db, rows, start)
      modifies this
      ensures ok ==> Going(lib, old(db), db, {}, moved)
      ensures !ok ==> !Completes(lib, old(db)) && !NoPasswords(lib, old(db))
    {
      var before := db;
      var todo := rows;
      moved := start;
      ok := true;
      while ok && todo != {}
        invariant todo <= before.assets.Keys
        invariant !ok || Going(lib, before, db, todo, moved)
        invariant !ok ==> !Completes(lib, before) && !NoPasswords(lib, before)
        decreases ok, todo
      {
        var id :| id in todo;
        ok, moved := ProcessRow(lib, id, before.assets[id].namespace, before.assets[id].name, before, todo, moved);
        todo := todo - {id};
      }
    }

    /** The migration, in one transaction: it completes exactly when it can, and otherwise nothing
        changes. */
    method Upgrade(lib: Stripping) returns (ok: bool)
      requires Lawful(lib) && UniqueNames(db.assets) && RefsExist(db) && UniqueRows(db)
      modifies this
      ensures ok <==> Completes(lib, old(db))
      ensures ok ==> Migrated(lib, old(db), db) && UniqueRows(db)
      ensures !ok ==> db == old(db)
      ensures NoPasswords(lib, old(db)) ==> ok && db == old(db)
    {
      var before := db;
      AtStart(lib, before, Selected(db));
      ghost var moved;
      ok, moved := ProcessRows(lib, Selected(before), map a | a in db.assets :: a);
      if ok {
        AtEnd(lib, before, db, moved);
      } else {
        db := before;
      }
    }
  }
}
