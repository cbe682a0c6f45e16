/** The packages a set of requirements brings in: a worklist over requested extras. */
module DependencyClosure {
  import opened Text

  /** A requirement: the package, the extras it asks for, and for which extra its marker is active. */
  datatype Requirement = Requirement(name: string, extras: set<string>, active: string -> bool, accepts: string -> bool)

  /** An installed distribution; `licence` stands for the rest of its metadata. */
  datatype Distribution = Distribution(version: string, licence: string, requirements: seq<Requirement>)

  /** The distributions of the interpreter, by canonical name. */
  type Installed = map<string, Distribution>

  datatype Result = Stale(names: set<string>) | Missing(names: set<string>) | Packages(seen: map<string, Distribution>)

  predicate IsMark(c: char) { c == '-' || c == '_' || c == '.' }

  /** Lower case, with every run of -, _ and . as one dash. */
  function CanonicalFrom(name: string, inRun: bool): string {
    if name == [] then []
    else if IsMark(name[0]) then
      (if inRun then [] else ['-']) + CanonicalFrom(name[1..], true)
    else [LowerChar(name[0])] + CanonicalFrom(name[1..], false)
  }

  function Canonical(name: string): string { CanonicalFrom(name, false) }

  lemma {:induction false} CanonicalFromIsStable(name: string, inRun: bool)
    ensures CanonicalFrom(CanonicalFrom(name, inRun), inRun) == CanonicalFrom(name, inRun)
  {
    if name != [] {
      var rest := CanonicalFrom(name[1..], IsMark(name[0]));
      CanonicalFromIsStable(name[1..], IsMark(name[0]));
      if !IsMark(name[0]) {
        assert ([LowerChar(name[0])] + rest)[1..] == rest;
      } else if inRun {
        assert CanonicalFrom(name, inRun) == [] + rest == rest;
      } else {
        assert CanonicalFrom(name, inRun) == ['-'] + rest && (['-'] + rest)[1..] == rest;
      }
    }
  }

  lemma CanonicalMark(c: char, rest: string, inRun: bool)
    requires IsMark(c)
    ensures CanonicalFrom([c] + rest, inRun) == (if inRun then [] else ['-']) + CanonicalFrom(rest, true)
  {
    assert ([c] + rest)[1..] == rest;
  }

  lemma {:induction false} RunIsOneDash(marks: string, rest: string, inRun: bool)
    requires marks != [] && forall i | 0 <= i < |marks| :: IsMark(marks[i])
    ensures CanonicalFrom(marks + rest, inRun) == (if inRun then [] else ['-']) + CanonicalFrom(rest, true)
  {
    var others := marks[1..];
    assert marks + rest == [marks[0]] + (others + rest);
    CanonicalMark(marks[0], others + rest, inRun);
    if others == [] {
      assert others + rest == rest;
    } else {
      RunIsOneDash(others, rest, true);
      assert [] + CanonicalFrom(rest, true) == CanonicalFrom(rest, true);
    }
  }

  lemma {:induction false} MarksAreAlike(front: string, marks: string, marks': string, back: string, inRun: bool)
    requires marks != [] && forall i | 0 <= i < |marks| :: IsMark(marks[i])
    requires marks' != [] && forall i | 0 <= i < |marks'| :: IsMark(marks'[i])
    ensures CanonicalFrom(front + (marks + back), inRun) == CanonicalFrom(front + (marks' + back), inRun)
  {
    if front == [] {
      assert front + (marks + back) == marks + back && front + (marks' + back) == marks' + back;
      RunIsOneDash(marks, back, inRun);
      RunIsOneDash(marks', back, inRun);
    } else {
      assert (front + (marks + back))[1..] == front[1..] + (marks + back);
      assert (front + (marks' + back))[1..] == front[1..] + (marks' + back);
      MarksAreAlike(front[1..], marks, marks', back, IsMark(front[0]));
    }
  }

  /** A canonical name is its own canonical form, and any two runs of marks name the same package. */
  lemma CanonicalNames(front: string, marks: string, marks': string, back: string)
    requires marks != [] && forall i | 0 <= i < |marks| :: IsMark(marks[i])
    requires marks' != [] && forall i | 0 <= i < |marks'| :: IsMark(marks'[i])
    ensures Canonical(Canonical(front + (marks + back))) == Canonical(front + (marks + back))
    ensures Canonical(front + (marks + back)) == Canonical(front + (marks' + back))
  {
    CanonicalFromIsStable(front + (marks + back), false);
    MarksAreAlike(front, marks, marks', back, false);
  }

  // --- Which names are the same ---------------------------------------------------------------

  lemma {:induction false} CaseIsDropped(a: string, b: string, inRun: bool)
    requires Lower(a) == Lower(b)
    ensures CanonicalFrom(a, inRun) == CanonicalFrom(b, inRun)
  {
    if a != [] {
      assert b != [] && Lower(a)[0] == Lower(b)[0] && LowerChar(a[0]) == LowerChar(b[0]);
      assert IsMark(a[0]) == IsMark(b[0]);
      assert Lower(a)[1..] == Lower(a[1..]) && Lower(b)[1..] == Lower(b[1..]);
      CaseIsDropped(a[1..], b[1..], IsMark(a[0]));
    }
  }

  /** A canonical name has no capital letter, no mark but the dash, and no two dashes in a row. */
  predicate IsCanonical(name: string) {
    && (forall i | 0 <= i < |name| :: !('A' <= name[i] <= 'Z') && name[i] != '_' && name[i] != '.')
    && forall i | 0 < i < |name| :: name[i - 1] != '-' || name[i] != '-'
  }

  lemma {:induction false} CanonicalFromIsCanonical(name: string, inRun: bool)
    ensures IsCanonical(CanonicalFrom(name, inRun))
    ensures inRun && CanonicalFrom(name, inRun) != [] ==> CanonicalFrom(name, inRun)[0] != '-'
  {
    if name != [] {
      CanonicalFromIsCanonical(name[1..], IsMark(name[0]));
    }
  }

  lemma {:induction false} UnmarkedIsLowered(name: string, inRun: bool)
    requires forall i | 0 <= i < |name| :: !IsMark(name[i])
    ensures CanonicalFrom(name, inRun) == Lower(name)
  {
    if name != [] {
      UnmarkedIsLowered(name[1..], false);
      assert Lower(name) == [LowerChar(name[0])] + Lower(name[1..]);
    }
  }

  /** One name becomes the other by changing the case of letters and replacing runs of marks by runs of marks. */
  predicate SameName(a: string, b: string)
    decreases |a| + |b|
  {
    if a == [] || b == [] then a == b
    else if IsMark(a[0]) && IsMark(b[0]) then SameName(AfterMarks(a), AfterMarks(b))
    else !IsMark(a[0]) && !IsMark(b[0]) && LowerChar(a[0]) == LowerChar(b[0]) && SameName(a[1..], b[1..])
  }

  /** The name without the run of marks it starts with. */
  function AfterMarks(name: string): (rest: string)
    ensures |rest| <= |name|
    ensures name != [] && IsMark(name[0]) ==> |rest| < |name|
    ensures rest != [] ==> !IsMark(rest[0])
  {
    if name != [] && IsMark(name[0]) then AfterMarks(name[1..]) else name
  }

  lemma {:induction false} MarksAreSkipped(name: string)
    ensures CanonicalFrom(name, true) == CanonicalFrom(AfterMarks(name), false)
  {
    if name != [] && IsMark(name[0]) {
      MarksAreSkipped(name[1..]);
      assert [] + CanonicalFrom(name[1..], true) == CanonicalFrom(name[1..], true);
    }
  }

  lemma CanonicalStart(name: string)
    requires name != []
    ensures Canonical(name) ==
      if IsMark(name[0]) then ['-'] + Canonical(AfterMarks(name)) else [LowerChar(name[0])] + Canonical(name[1..])
    ensures !IsMark(name[0]) ==> LowerChar(name[0]) != '-'
  {
    if IsMark(name[0]) {
      MarksAreSkipped(name[1..]);
    }
  }

  lemma SameTail<T>(x: T, a: seq<T>, y: T, b: seq<T>)
    ensures [x] + a == [y] + b <==> x == y && a == b
  {
    assert ([x] + a)[1..] == a && ([y] + b)[1..] == b;
    assert ([x] + a)[0] == x && ([y] + b)[0] == y;
  }

  lemma {:induction false} CanonicalTellsNamesApart(a: string, b: string)
    ensures Canonical(a) == Canonical(b) <==> SameName(a, b)
    decreases |a| + |b|
  {
    if a != [] && b != [] {
      CanonicalStart(a);
      CanonicalStart(b);
      var (restA, restB) := (if IsMark(a[0]) then AfterMarks(a) else a[1..], if IsMark(b[0]) then AfterMarks(b) else b[1..]);
      CanonicalTellsNamesApart(restA, restB);
      SameTail(Canonical(a)[0], Canonical(restA), Canonical(b)[0], Canonical(restB));
    }
  }

  /** The canonical name: the same for any case, with no capital letter and single dashes for marks, and the
      name in small letters when it has no mark. Two names have it in common only if they differ in case and
      in runs of marks alone. */
  lemma CanonicalSpelling(a: string, b: string)
    ensures Lower(a) == Lower(b) ==> Canonical(a) == Canonical(b)
    ensures IsCanonical(Canonical(a))
    ensures (forall i | 0 <= i < |a| :: !IsMark(a[i])) ==> Canonical(a) == Lower(a)
    ensures Canonical(a) == Canonical(b) <==> SameName(a, b)
  {
    if Lower(a) == Lower(b) {
      CaseIsDropped(a, b, false);
    }
    CanonicalFromIsCanonical(a, false);
    if forall i | 0 <= i < |a| :: !IsMark(a[i]) {
      UnmarkedIsLowered(a, false);
    }
    CanonicalTellsNamesApart(a, b);
  }

  /** A package together with one extra it is wanted with; the empty extra is the package itself. */
  type Pair = (string, string)

  // --- What is wanted, as a least fixed point -------------------------------------------------

  /** The pairs one requirement asks for. */
  function Wanted(req: Requirement): set<Pair> {
    set x | x in req.extras + {""} :: (Canonical(req.name), x)
  }

  /** The requirements whose marker is active for an extra. */
  function WantedBy(reqs: seq<Requirement>, extra: string): set<Pair> {
    set i, p | 0 <= i < |reqs| && reqs[i].active(extra) && p in Wanted(reqs[i]) :: p
  }

  /** What an installed pair asks for in turn; a missing package asks for nothing. */
  function Asks(u: Installed, pair: Pair): set<Pair> {
    if pair.0 in u then WantedBy(u[pair.0].requirements, pair.1) else {}
  }

  /** `t` holds the roots and everything its members ask for. */
  predicate Closed(u: Installed, roots: seq<Requirement>, t: set<Pair>) {
    && WantedBy(roots, "") <= t
    && forall p | p in t :: Asks(u, p) <= t
  }

  ghost predicate IsLeastClosed(u: Installed, roots: seq<Requirement>, d: set<Pair>) {
    Closed(u, roots, d) && forall t | Closed(u, roots, t) :: d <= t
  }

  function Names(pairs: set<Pair>): set<string> { set p | p in pairs :: p.0 }

  /** The outcome the closure stands for. */
  ghost predicate IsOutcome(u: Installed, d: set<Pair>, r: Result) {
    var (present, absent) := (Names(d) * u.Keys, Names(d) - u.Keys);
    if absent != {} then r == Missing(absent)
    else r.Packages? && r.seen.Keys == present && forall k | k in present :: r.seen[k] == u[k]
  }

  lemma LeastClosedIsUnique(u: Installed, roots: seq<Requirement>, d: set<Pair>, e: set<Pair>)
    requires IsLeastClosed(u, roots, d) && IsLeastClosed(u, roots, e)
    ensures d == e
  {
  }

  // --- Reachability, step by step -------------------------------------------------------------

  /** Some requirement that is active for the extra names the package, and asks for its extra, if that is
      not the package itself. */
  ghost predicate AskedFor(reqs: seq<Requirement>, extra: string, p: Pair) {
    exists r :: r in reqs && r.active(extra) && Canonical(r.name) == p.0 && (p.1 == "" || p.1 in r.extras)
  }

  lemma AskedForIsWanted(reqs: seq<Requirement>, extra: string, p: Pair)
    ensures AskedFor(reqs, extra, p) <==> p in WantedBy(reqs, extra)
  {
    if AskedFor(reqs, extra, p) {
      var r :| r in reqs && r.active(extra) && Canonical(r.name) == p.0 && (p.1 == "" || p.1 in r.extras);
      assert p in Wanted(r);
    }
    if p in WantedBy(reqs, extra) {
      var i :| 0 <= i < |reqs| && reqs[i].active(extra) && p in Wanted(reqs[i]);
      assert reqs[i] in reqs;
    }
  }

  /** `p` is installed, and a requirement of it that is active for its extra asks for `q`. */
  ghost predicate Requires(u: Installed, p: Pair, q: Pair) {
    p.0 in u && AskedFor(u[p.0].requirements, p.1, q)
  }

  lemma RequiresIsAsks(u: Installed, p: Pair, q: Pair)
    ensures Requires(u, p, q) <==> q in Asks(u, p)
  {
    if p.0 in u {
      AskedForIsWanted(u[p.0].requirements, p.1, q);
    }
  }

  /** Each pair of the path is asked for by the one before it, the first by a root. */
  ghost predicate IsPath(u: Installed, roots: seq<Requirement>, path: seq<Pair>) {
    && path != []
    && AskedFor(roots, "", path[0])
    && forall i | 0 < i < |path| :: Requires(u, path[i - 1], path[i])
  }

  ghost predicate Reachable(u: Installed, roots: seq<Requirement>, p: Pair) {
    exists path :: IsPath(u, roots, path) && path[|path| - 1] == p
  }

  lemma {:induction false} PathsStayInside(u: Installed, roots: seq<Requirement>, t: set<Pair>, path: seq<Pair>)
    requires Closed(u, roots, t) && IsPath(u, roots, path)
    ensures path[|path| - 1] in t
    decreases |path|
  {
    if |path| > 1 {
      var before := path[..|path| - 1];
      PathsStayInside(u, roots, t, before);
      RequiresIsAsks(u, before[|before| - 1], path[|path| - 1]);
    } else {
      AskedForIsWanted(roots, "", path[0]);
    }
  }

  /** The pairs of `d` that can be reached. */
  ghost function ReachableOf(u: Installed, roots: seq<Requirement>, d: set<Pair>): set<Pair> {
    set p | p in d && Reachable(u, roots, p)
  }

  lemma ReachableIsClosed(u: Installed, roots: seq<Requirement>, d: set<Pair>)
    requires Closed(u, roots, d)
    ensures Closed(u, roots, ReachableOf(u, roots, d))
  {
    var t := ReachableOf(u, roots, d);
    forall p | p in WantedBy(roots, "") ensures p in t {
      RootIsReachable(u, roots, p);
    }
    forall p | p in t ensures Asks(u, p) <= t {
      forall q | q in Asks(u, p) ensures q in t {
        ReachesOn(u, roots, p, q);
      }
    }
  }

  lemma RootIsReachable(u: Installed, roots: seq<Requirement>, p: Pair)
    requires p in WantedBy(roots, "")
    ensures Reachable(u, roots, p)
  {
    AskedForIsWanted(roots, "", p);
    assert IsPath(u, roots, [p]) && [p][|[p]| - 1] == p;
  }

  lemma ReachesOn(u: Installed, roots: seq<Requirement>, p: Pair, q: Pair)
    requires Reachable(u, roots, p) && q in Asks(u, p)
    ensures Reachable(u, roots, q)
  {
    var path :| IsPath(u, roots, path) && path[|path| - 1] == p;
    var longer := path + [q];
    RequiresIsAsks(u, p, q);
    assert IsPath(u, roots, longer) && longer[|longer| - 1] == q;
  }

  /** The least closed set is exactly what can be reached from the active roots along requirements
      active for the empty extra or a requested one. */
  lemma LeastClosedIsReachable(u: Installed, roots: seq<Requirement>, d: set<Pair>)
    requires IsLeastClosed(u, roots, d)
    ensures forall p :: p in d <==> Reachable(u, roots, p)
  {
    ReachableIsClosed(u, roots, d);
    assert d <= ReachableOf(u, roots, d);
    forall p | Reachable(u, roots, p) ensures p in d {
      var path :| IsPath(u, roots, path) && path[|path| - 1] == p;
      PathsStayInside(u, roots, d, path);
    }
  }

  // --- Order does not matter ------------------------------------------------------------------

  ghost predicate SameRequirements(a: seq<Requirement>, b: seq<Requirement>) {
    forall r :: r in a <==> r in b
  }

  lemma SameRequirementsWantTheSame(a: seq<Requirement>, b: seq<Requirement>, extra: string)
    requires SameRequirements(a, b)
    ensures WantedBy(a, extra) <= WantedBy(b, extra)
  {
    forall p | p in WantedBy(a, extra) ensures p in WantedBy(b, extra) {
      var i :| 0 <= i < |a| && a[i].active(extra) && p in Wanted(a[i]);
      assert a[i] in b;
    }
  }

  /** Listing the roots or any package's requirements in another order, or twice, changes nothing. */
  lemma OrderDoesNotMatter(u: Installed, roots: seq<Requirement>, v: Installed, roots': seq<Requirement>, t: set<Pair>)
    requires SameRequirements(roots, roots') && u.Keys == v.Keys
    requires forall k | k in u :: SameRequirements(u[k].requirements, v[k].requirements)
    ensures Closed(u, roots, t) <==> Closed(v, roots', t)
    ensures IsLeastClosed(u, roots, t) <==> IsLeastClosed(v, roots', t)
  {
    SameRequirementsWantTheSame(roots, roots', "");
    SameRequirementsWantTheSame(roots', roots, "");
    forall p: Pair ensures Asks(u, p) == Asks(v, p) {
      if p.0 in u {
        SameRequirementsWantTheSame(u[p.0].requirements, v[p.0].requirements, p.1);
        SameRequirementsWantTheSame(v[p.0].requirements, u[p.0].requirements, p.1);
      }
    }
    forall t' ensures Closed(u, roots, t') <==> Closed(v, roots', t') {}
  }

  // --- The worklist ---------------------------------------------------------------------------

  type Entry = (string, set<string>)

  ghost function EntryPairs(e: Entry): set<Pair> {
    set x | x in e.1 + {""} :: (Canonical(e.0), x)
  }

  ghost function PendingPairs(pending: seq<Entry>): set<Pair> {
    if pending == [] then {} else PendingPairs(pending[..|pending| - 1]) + EntryPairs(pending[|pending| - 1])
  }

  /** `all` holds the roots and what the known pairs ask for, and nothing a closed set could lack. */
  ghost predicate Explored(u: Installed, roots: seq<Requirement>, known: set<Pair>, all: set<Pair>) {
    && known <= all
    && WantedBy(roots, "") <= all
    && (forall p | p in known :: Asks(u, p) <= all)
    && (forall t | Closed(u, roots, t) :: all <= t)
  }

  lemma ExploreOne(u: Installed, roots: seq<Requirement>, known: set<Pair>, all: set<Pair>, p: Pair)
    requires Explored(u, roots, known, all) && p in all
    ensures Explored(u, roots, known + {p}, all + Asks(u, p))
  {
    forall t | Closed(u, roots, t) ensures all + Asks(u, p) <= t {
      assert p in t;
    }
  }

  lemma ExploredToTheEnd(u: Installed, roots: seq<Requirement>, known: set<Pair>)
    requires Explored(u, roots, known, known)
    ensures IsLeastClosed(u, roots, known)
  {
  }

  /** Every pair any requirement could ask for, whatever its marker says: a bound for the search. */
  ghost function AnyPairs(reqs: seq<Requirement>): set<Pair> {
    set i, p | 0 <= i < |reqs| && p in Wanted(reqs[i]) :: p
  }

  ghost function Universe(u: Installed, roots: seq<Requirement>): set<Pair> {
    AnyPairs(roots) + set k, p | k in u && p in AnyPairs(u[k].requirements) :: p
  }

  lemma AllWithinUniverse(u: Installed, roots: seq<Requirement>, all: set<Pair>)
    requires forall t | Closed(u, roots, t) :: all <= t
    ensures all <= Universe(u, roots)
  {
    var t := Universe(u, roots);
    assert WantedBy(roots, "") <= t;
    forall p | p in t ensures Asks(u, p) <= t {
      if p.0 in u {
        assert WantedBy(u[p.0].requirements, p.1) <= AnyPairs(u[p.0].requirements);
      }
    }
    assert Closed(u, roots, t);
  }

  lemma PendingAppend(pending: seq<Entry>, e: Entry)
    ensures PendingPairs(pending + [e]) == PendingPairs(pending) + EntryPairs(e)
  {
    assert (pending + [e])[..|pending|] == pending;
  }

  /** Puts the requirements that are active for an extra on the worklist. */
  method Push(pending: seq<Entry>, reqs: seq<Requirement>, extra: string) returns (longer: seq<Entry>)
    ensures PendingPairs(longer) == PendingPairs(pending) + WantedBy(reqs, extra)
    ensures |longer| >= |pending|
  {
    longer := pending;
    for i := 0 to |reqs|
      invariant PendingPairs(longer) == PendingPairs(pending) + WantedBy(reqs[..i], extra)
      invariant |longer| >= |pending|
    {
      WantedByStep(reqs, i, extra);
      if reqs[i].active(extra) {
        PendingAppend(longer, (reqs[i].name, reqs[i].extras));
        longer := longer + [(reqs[i].name, reqs[i].extras)];
      }
    }
    assert reqs[..|reqs|] == reqs;
  }

  lemma WantedByStep(reqs: seq<Requirement>, i: nat, extra: string)
    requires i < |reqs|
    ensures WantedBy(reqs[..i + 1], extra) ==
            WantedBy(reqs[..i], extra) + if reqs[i].active(extra) then Wanted(reqs[i]) else {}
  {
    var (a, b) := (reqs[..i], reqs[..i + 1]);
    assert forall j | 0 <= j < i :: b[j] == a[j];
    assert b[i] == reqs[i];
    forall p | p in WantedBy(a, extra) ensures p in WantedBy(b, extra) {
      var j :| 0 <= j < |a| && a[j].active(extra) && p in Wanted(a[j]);
      assert b[j] == a[j];
    }
  }

  predicate IsStale(u: Installed, req: Requirement) {
    req.active("") && Canonical(req.name) in u && !req.accepts(u[Canonical(req.name)].version)
  }

  /** The root applies, and what is installed under its name is no version it accepts. */
  ghost predicate DiffersFromPin(u: Installed, req: Requirement) {
    && req.active("")
    && exists key :: key in u && key == Canonical(req.name) && !req.accepts(u[key].version)
  }

  lemma StaleInPlainTerms(u: Installed, roots: seq<Requirement>)
    ensures forall name :: name in StaleNames(u, roots) <==>
      exists req :: req in roots && DiffersFromPin(u, req) && req.name == name
  {
    forall name ensures name in StaleNames(u, roots) <==>
      exists req :: req in roots && DiffersFromPin(u, req) && req.name == name
    {
      if req :| req in roots && DiffersFromPin(u, req) && req.name == name {
        var i :| 0 <= i < |roots| && roots[i] == req;
        assert IsStale(u, roots[i]);
      }
      if i :| 0 <= i < |roots| && IsStale(u, roots[i]) && roots[i].name == name {
        assert roots[i] in roots && DiffersFromPin(u, roots[i]);
      }
    }
  }

  /** The roots whose installed version differs from the pin. */
  ghost function StaleNames(u: Installed, roots: seq<Requirement>): set<string> {
    set i | 0 <= i < |roots| && IsStale(u, roots[i]) :: roots[i].name
  }

  lemma StaleIff(u: Installed, roots: seq<Requirement>)
    ensures StaleNames(u, roots) != {} <==> exists req :: req in roots && DiffersFromPin(u, req)
  {
    StaleInPlainTerms(u, roots);
    if req :| req in roots && DiffersFromPin(u, req) {
      assert req.name in StaleNames(u, roots);
    }
    if StaleNames(u, roots) != {} {
      var name :| name in StaleNames(u, roots);
    }
  }

  lemma StaleStep(u: Installed, roots: seq<Requirement>, i: nat)
    requires i < |roots|
    ensures StaleNames(u, roots[..i + 1]) ==
            StaleNames(u, roots[..i]) + if IsStale(u, roots[i]) then {roots[i].name} else {}
  {
    var (a, b) := (roots[..i], roots[..i + 1]);
    assert forall j | 0 <= j < i :: b[j] == a[j];
    assert b[i] == roots[i];
    forall n | n in StaleNames(u, a) ensures n in StaleNames(u, b) {
      var j :| 0 <= j < |a| && IsStale(u, a[j]) && a[j].name == n;
      assert b[j] == a[j];
    }
  }

  /** The worklist's memory: the known pairs are settled, and those of installed packages are the seen ones. */
  ghost predicate Memory(u: Installed, roots: seq<Requirement>, extrasSeen: set<Pair>, known: set<Pair>, all: set<Pair>) {
    && Explored(u, roots, known, all)
    && extrasSeen <= known
    && forall p | p in known :: p in extrasSeen <==> p.0 in u
  }

  ghost function KeyPairs(key: string, extras: set<string>): set<Pair> {
    set x | x in extras :: (key, x)
  }

  lemma SettlePair(u: Installed, roots: seq<Requirement>, extrasSeen: set<Pair>, known: set<Pair>, all: set<Pair>, p: Pair)
    requires Memory(u, roots, extrasSeen, known, all) && p in all && p.0 in u
    ensures Memory(u, roots, extrasSeen + {p}, known + {p}, all + Asks(u, p))
  {
    ExploreOne(u, roots, known, all, p);
  }

  /** The extras of one installed package: each is settled once, and what it asks for is put on the list. */
  method TakeExtras(u: Installed, ghost roots: seq<Requirement>, key: string, extras: set<string>,
                    pending: seq<Entry>, extrasSeen: set<Pair>, ghost known: set<Pair>, ghost all: set<Pair>)
    returns (pending': seq<Entry>, extrasSeen': set<Pair>, ghost known': set<Pair>, ghost all': set<Pair>)
    requires key in u && Memory(u, roots, extrasSeen, known, all)
    requires all == known + PendingPairs(pending) + KeyPairs(key, extras)
    ensures Memory(u, roots, extrasSeen', known', all') && all' == known' + PendingPairs(pending')
    ensures extrasSeen' == extrasSeen + KeyPairs(key, extras)
    ensures known' - extrasSeen' == known - extrasSeen
    ensures extrasSeen' == extrasSeen ==> pending' == pending
  {
    pending', extrasSeen', known', all' := pending, extrasSeen, known, all;
    var rest := extras;
    while rest != {}
      invariant rest <= extras
      invariant Memory(u, roots, extrasSeen', known', all')
      invariant all' == known' + PendingPairs(pending') + KeyPairs(key, rest)
      invariant extrasSeen' == extrasSeen + KeyPairs(key, extras - rest)
      invariant known' - extrasSeen' == known - extrasSeen
      invariant extrasSeen' == extrasSeen ==> pending' == pending
      decreases rest
    {
      var extra :| extra in rest;
      var p := (key, extra);
      assert KeyPairs(key, rest) == KeyPairs(key, rest - {extra}) + {p};
      assert KeyPairs(key, extras - (rest - {extra})) == KeyPairs(key, extras - rest) + {p};
      rest := rest - {extra};
      if p !in extrasSeen' {
        SettlePair(u, roots, extrasSeen', known', all', p);
        pending' := Push(pending', u[key].requirements, extra);
        extrasSeen', known', all' := extrasSeen' + {p}, known' + {p}, all' + Asks(u, p);
      }
    }
    assert extras - rest == extras;
  }

  lemma SettleMissing(u: Installed, roots: seq<Requirement>, extrasSeen: set<Pair>, known: set<Pair>, all: set<Pair>, key: string, extras: set<string>)
    requires Memory(u, roots, extrasSeen, known, all) && KeyPairs(key, extras) <= all && key !in u
    ensures Memory(u, roots, extrasSeen, known + KeyPairs(key, extras), all)
  {
    forall p | p in KeyPairs(key, extras) ensures Asks(u, p) == {} {}
  }

  /** The closure: refused when an installed root differs from its pin or a wanted package is missing,
      and otherwise exactly the packages of the least closed set. The extras of an entry are taken in
      any order; the order of the list they come from does not matter either. */
  method BackendClosure(u: Installed, roots: seq<Requirement>) returns (r: Result, ghost d: set<Pair>)
    ensures r.Stale? <==> exists req :: req in roots && DiffersFromPin(u, req)
    ensures r.Stale? ==> forall name :: name in r.names <==> exists req :: req in roots && DiffersFromPin(u, req) && req.name == name
    ensures !r.Stale? ==> IsLeastClosed(u, roots, d) && IsOutcome(u, d, r)
  {
    d := {};
    var stale: set<string> := {};
    for i := 0 to |roots|
      invariant stale == StaleNames(u, roots[..i])
    {
      StaleStep(u, roots, i);
      if IsStale(u, roots[i]) {
        stale := stale + {roots[i].name};
      }
    }
    assert roots[..|roots|] == roots;
    StaleIff(u, roots);
    StaleInPlainTerms(u, roots);
    if stale != {} {
      return Stale(stale), d;
    }
    r, d := Search(u, roots);
  }

  method Search(u: Installed, roots: seq<Requirement>) returns (r: Result, ghost d: set<Pair>)
    ensures !r.Stale? && IsLeastClosed(u, roots, d) && IsOutcome(u, d, r)
  {
    var pending := Push([], roots, "");
    var seen: map<string, Distribution> := map[];
    var extrasSeen: set<Pair> := {};
    var missing: set<string> := {};
    ghost var known: set<Pair> := {};
    ghost var all := PendingPairs(pending);
    while pending != []
      invariant all == known + PendingPairs(pending)
      invariant Memory(u, roots, extrasSeen, known, all)
      invariant Books(u, seen, missing, extrasSeen, known)
      decreases Universe(u, roots) - extrasSeen, |pending|
    {
      var (name, extras) := pending[|pending| - 1];
      PopPairs(pending);
      pending := pending[..|pending| - 1];
      var (key, wanted) := (Canonical(name), extras + {""});
      if key !in u {
        MissingStep(u, roots, seen, missing, extrasSeen, known, all, key, wanted);
        missing := missing + {key};
        known := known + KeyPairs(key, wanted);
      } else {
        ghost var (extrasBefore, knownBefore) := (extrasSeen, known);
        pending, extrasSeen, known, all := TakeExtras(u, roots, key, wanted, pending, extrasSeen, known, all);
        SeenStep(u, seen, missing, extrasBefore, knownBefore, key, wanted, extrasSeen, known);
        seen := seen[key := u[key]];
        SearchShrinks(u, roots, extrasBefore, extrasSeen, known, all);
      }
    }
    OutcomeOf(u, roots, extrasSeen, known, seen, missing);
    d := known;
    r := if missing != {} then Missing(missing) else Packages(seen);
  }

  ghost predicate SeenIsInstalled(u: Installed, seen: map<string, Distribution>) {
    forall k | k in seen :: k in u && seen[k] == u[k]
  }

  /** The packages and the missing names agree with the settled pairs. */
  ghost predicate Books(u: Installed, seen: map<string, Distribution>, missing: set<string>, extrasSeen: set<Pair>, known: set<Pair>) {
    && seen.Keys == Names(extrasSeen) && SeenIsInstalled(u, seen)
    && missing == Names(known - extrasSeen)
  }

  lemma PopPairs(pending: seq<Entry>)
    requires pending != []
    ensures
      var (name, extras) := pending[|pending| - 1];
      PendingPairs(pending) == PendingPairs(pending[..|pending| - 1]) + KeyPairs(Canonical(name), extras + {""})
  {
    var (name, extras) := pending[|pending| - 1];
    assert EntryPairs(pending[|pending| - 1]) == KeyPairs(Canonical(name), extras + {""});
  }

  lemma NamesOfKey(key: string, extras: set<string>, extrasSeen: set<Pair>)
    requires extras != {}
    ensures Names(extrasSeen + KeyPairs(key, extras)) == Names(extrasSeen) + {key}
  {
    var x :| x in extras;
    assert (key, x) in KeyPairs(key, extras);
  }

  lemma MissingStep(u: Installed, roots: seq<Requirement>, seen: map<string, Distribution>, missing: set<string>,
                    extrasSeen: set<Pair>, known: set<Pair>, all: set<Pair>, key: string, extras: set<string>)
    requires extras != {} && key !in u && KeyPairs(key, extras) <= all
    requires Memory(u, roots, extrasSeen, known, all) && Books(u, seen, missing, extrasSeen, known)
    ensures Memory(u, roots, extrasSeen, known + KeyPairs(key, extras), all)
    ensures Books(u, seen, missing + {key}, extrasSeen, known + KeyPairs(key, extras))
  {
    SettleMissing(u, roots, extrasSeen, known, all, key, extras);
    NamesOfKey(key, extras, known - extrasSeen);
    assert known + KeyPairs(key, extras) - extrasSeen == (known - extrasSeen) + KeyPairs(key, extras);
  }

  /** Once the extras of an installed package are taken, its name is seen. */
  lemma SeenStep(u: Installed, seen: map<string, Distribution>, missing: set<string>, extrasSeen: set<Pair>, known: set<Pair>,
                 key: string, extras: set<string>, extrasSeen': set<Pair>, known': set<Pair>)
    requires extras != {} && key in u && Books(u, seen, missing, extrasSeen, known)
    requires extrasSeen' == extrasSeen + KeyPairs(key, extras) && known' - extrasSeen' == known - extrasSeen
    ensures Books(u, seen[key := u[key]], missing, extrasSeen', known')
  {
    NamesOfKey(key, extras, extrasSeen);
  }

  /** The bound on the search: what is not yet seen of the universe. */
  lemma SearchShrinks(u: Installed, roots: seq<Requirement>, before: set<Pair>, after: set<Pair>, known: set<Pair>, all: set<Pair>)
    requires before <= after && Memory(u, roots, after, known, all)
    ensures Universe(u, roots) - after <= Universe(u, roots) - before
    ensures before != after ==> Universe(u, roots) - after < Universe(u, roots) - before
  {
    AllWithinUniverse(u, roots, all);
    if before != after {
      var p :| p in after && p !in before;
      assert p in Universe(u, roots) - before;
    }
  }

  lemma OutcomeOf(u: Installed, roots: seq<Requirement>, extrasSeen: set<Pair>, known: set<Pair>, seen: map<string, Distribution>, missing: set<string>)
    requires Memory(u, roots, extrasSeen, known, known) && Books(u, seen, missing, extrasSeen, known)
    ensures IsLeastClosed(u, roots, known)
    ensures IsOutcome(u, known, if missing != {} then Missing(missing) else Packages(seen))
  {
    ExploredToTheEnd(u, roots, known);
    assert Names(known) * u.Keys == Names(extrasSeen);
    assert Names(known) - u.Keys == missing;
  }
}
