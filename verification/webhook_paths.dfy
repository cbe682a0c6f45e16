/** What a placeholder stands for: the node its path leads to, and how that node is written into a text. */
module WebhookPaths {
  import opened Basics
  import opened Text
  import opened WebhookTemplate

  // --- Paths as steps -------------------------------------------------------------------------

  /** A key of an object, or a position in a list. */
  datatype PathStep = Key(name: string) | Index(n: nat)

  /** The steps lead from one node to the other. */
  ghost predicate Reaches(from: Json, steps: seq<PathStep>, to: Json)
    decreases |steps|
  {
    if steps == [] then from == to
    else
      match steps[0]
      case Key(name) => from.Obj? && exists i :: FirstWithKey(from.fields, name, i) && Reaches(from.fields[i].value, steps[1..], to)
      case Index(n) => from.Arr? && n < |from.items| && Reaches(from.items[n], steps[1..], to)
  }

  ghost predicate FirstWithKey(fields: seq<Field>, name: string, i: int) {
    0 <= i < |fields| && fields[i].key == name && forall j | 0 <= j < i :: fields[j].key != name
  }

  /** A segment of a path as a step: a key is written as it is, a position in digits. */
  predicate IsWritten(segment: string, step: PathStep) {
    match step
    case Key(name) => segment == name
    case Index(n) => IsNumeral(segment) && DigitsValue(segment) == n
  }

  predicate AreWritten(segments: seq<string>, steps: seq<PathStep>) {
    |segments| == |steps| && forall i | 0 <= i < |steps| :: IsWritten(segments[i], steps[i])
  }

  lemma {:induction false} GetIsFirst(fields: seq<Field>, name: string)
    ensures forall i | FirstWithKey(fields, name, i) :: Get(fields, name) == Some(fields[i].value)
    ensures Get(fields, name).Some? ==> exists i :: FirstWithKey(fields, name, i)
  {
    if fields != [] && fields[0].key != name {
      GetIsFirst(fields[1..], name);
      forall i | FirstWithKey(fields, name, i) ensures Get(fields, name) == Some(fields[i].value) {
        assert forall j | 0 <= j < i - 1 :: fields[1..][j] == fields[j + 1];
        assert FirstWithKey(fields[1..], name, i - 1);
      }
      if Get(fields, name).Some? {
        var i :| FirstWithKey(fields[1..], name, i);
        assert forall j | 0 < j <= i :: fields[j] == fields[1..][j - 1];
        assert FirstWithKey(fields, name, i + 1);
      }
    } else if fields != [] {
      assert FirstWithKey(fields, name, 0);
    }
  }

  lemma {:induction false} StepsAreWalked(from: Json, segments: seq<string>, steps: seq<PathStep>, to: Json)
    requires AreWritten(segments, steps) && Reaches(from, steps, to)
    ensures Walk(from, segments) == Some(to)
    decreases |steps|
  {
    if steps != [] {
      assert IsWritten(segments[0], steps[0]) && AreWritten(segments[1..], steps[1..]);
      match steps[0]
      case Key(name) =>
        GetIsFirst(from.fields, name);
        var i :| FirstWithKey(from.fields, name, i) && Reaches(from.fields[i].value, steps[1..], to);
        StepsAreWalked(from.fields[i].value, segments[1..], steps[1..], to);
      case Index(n) =>
        StepsAreWalked(from.items[n], segments[1..], steps[1..], to);
    }
  }

  /** The step by which a segment leads on from a node. */
  lemma StepTaken(from: Json, segment: string, next: Json) returns (step: PathStep)
    requires Step(from, segment) == Some(next)
    ensures IsWritten(segment, step)
    ensures forall rest: seq<PathStep>, to: Json | Reaches(next, rest, to) :: Reaches(from, [step] + rest, to)
  {
    if from.Obj? {
      step := Key(segment);
      GetIsFirst(from.fields, segment);
      var i :| FirstWithKey(from.fields, segment, i);
      forall rest: seq<PathStep>, to: Json | Reaches(next, rest, to) ensures Reaches(from, [step] + rest, to) {
        assert ([step] + rest)[1..] == rest && FirstWithKey(from.fields, segment, i);
      }
    } else {
      step := Index(DigitsValue(segment));
      forall rest: seq<PathStep>, to: Json | Reaches(next, rest, to) ensures Reaches(from, [step] + rest, to) {
        assert ([step] + rest)[1..] == rest;
      }
    }
  }

  lemma {:induction false} WalkTakesSteps(from: Json, segments: seq<string>, to: Json) returns (steps: seq<PathStep>)
    requires Walk(from, segments) == Some(to)
    ensures AreWritten(segments, steps) && Reaches(from, steps, to)
    decreases |segments|
  {
    if segments == [] {
      steps := [];
    } else {
      var next := Step(from, segments[0]).value;
      var step := StepTaken(from, segments[0], next);
      var rest := WalkTakesSteps(next, segments[1..], to);
      steps := [step] + rest;
    }
  }

  /** The segments of the path are these steps, and they lead to the node. */
  ghost predicate IsRoute(payload: Json, path: string, steps: seq<PathStep>, to: Json) {
    AreWritten(SplitDots(path), steps) && Reaches(payload, steps, to)
  }

  /** A path resolves to a node exactly when its segments are steps that lead there. */
  lemma PathLeadsTo(payload: Json, path: string, to: Json)
    ensures Resolve(payload, path) == Some(to) <==> exists steps :: IsRoute(payload, path, steps, to)
  {
    if Resolve(payload, path) == Some(to) {
      var steps := WalkTakesSteps(payload, SplitDots(path), to);
      assert IsRoute(payload, path, steps, to);
    }
    if steps :| IsRoute(payload, path, steps, to) {
      StepsAreWalked(payload, SplitDots(path), steps, to);
    }
  }

  // --- The segments of a path -------------------------------------------------------------------

  lemma {:induction false} SplitFirst(first: string, rest: string)
    requires '.' !in first
    ensures SplitDots(first) == [first]
    ensures SplitDots(first + ("." + rest)) == [first] + SplitDots(rest)
  {
    if first == [] {
      assert first + ("." + rest) == "." + rest && ("." + rest)[1..] == rest;
    } else {
      SplitFirst(first[1..], rest);
      assert (first + ("." + rest))[1..] == first[1..] + ("." + rest);
      assert [first[0]] + first[1..] == first;
    }
  }

  lemma JoinMore(parts: seq<string>)
    requires |parts| > 1
    ensures Join(".", parts) == parts[0] + ("." + Join(".", parts[1..]))
  {
  }

  /** Segments with dots between them are read back. */
  lemma {:induction false} SegmentsReadBack(segments: seq<string>)
    requires segments != [] && forall i | 0 <= i < |segments| :: '.' !in segments[i]
    ensures SplitDots(Join(".", segments)) == segments
  {
    if |segments| == 1 {
      SplitFirst(segments[0], []);
    } else {
      SegmentsReadBack(segments[1..]);
      JoinMore(segments);
      SplitFirst(segments[0], Join(".", segments[1..]));
    }
  }

  function StepText(step: PathStep): string {
    match step case Key(name) => name case Index(n) => Digits(n)
  }

  function StepTexts(steps: seq<PathStep>): seq<string> {
    seq(|steps|, i requires 0 <= i < |steps| => StepText(steps[i]))
  }

  lemma DigitsHaveNoDot(n: nat)
    ensures '.' !in Digits(n)
  {
    DigitsRead(n);
  }

  /** A written path of keys and positions resolves to the node it leads to. */
  lemma WrittenPathResolves(payload: Json, steps: seq<PathStep>, to: Json)
    requires steps != [] && forall i | 0 <= i < |steps| && steps[i].Key? :: '.' !in steps[i].name
    requires Reaches(payload, steps, to)
    ensures Resolve(payload, Join(".", StepTexts(steps))) == Some(to)
  {
    var texts := StepTexts(steps);
    forall i | 0 <= i < |texts| ensures '.' !in texts[i] && IsWritten(texts[i], steps[i]) {
      if steps[i].Index? {
        DigitsHaveNoDot(steps[i].n);
        DigitsRead(steps[i].n);
      }
    }
    SegmentsReadBack(texts);
    StepsAreWalked(payload, texts, steps, to);
  }

  // --- Reading a placeholder --------------------------------------------------------------------

  predicate IsPathText(path: string) {
    path != [] && forall i | 0 <= i < |path| :: IsWord(path[i]) || path[i] == '.'
  }

  /** A placeholder, with blanks inside the braces. */
  function Braced(before: string, path: string, after: string): string { "{{" + (before + (path + (after + "}}"))) }

  lemma BlanksAreCounted(blanks: string, rest: string)
    requires IsBlank(blanks) && rest != [] && !IsSpace(rest[0])
    ensures WebhookTemplate.SpaceCount(blanks + rest) == |blanks| && (blanks + rest)[|blanks|..] == rest
  {
    BlanksAreStripped(blanks, rest);
  }

  lemma {:induction false} PathIsMeasured(path: string, rest: string)
    requires forall i | 0 <= i < |path| :: IsWord(path[i]) || path[i] == '.'
    requires rest != [] && !IsWord(rest[0]) && rest[0] != '.'
    ensures PathLength(path + rest) == |path|
  {
    if path == [] {
      assert path + rest == rest;
    } else {
      assert (path + rest)[1..] == path[1..] + rest;
      PathIsMeasured(path[1..], rest);
    }
  }

  lemma ClosingIsBare(rest: string)
    ensures "}}" + rest != [] && ("}}" + rest)[0] == '}' && StartsWith("}}" + rest, "}}")
  {
  }

  lemma BracedReads(before: string, path: string, after: string, rest: string, s: string)
    requires IsBlank(before) && IsPathText(path) && IsBlank(after)
    requires s == "{{" + (before + (path + (after + ("}}" + rest))))
    ensures Placeholder(s) == Some(Match(path, |s| - |rest|))
  {
    var d := "}}" + rest;
    var c := after + d;
    var b := path + c;
    ClosingIsBare(rest);
    assert s[2..] == before + b;
    assert b[0] == path[0];
    BlanksAreCounted(before, b);
    assert !IsWord(c[0]) && c[0] != '.' by {
      if after != [] {
        assert c[0] == after[0] && IsSpace(after[0]);
      }
    }
    PathIsMeasured(path, c);
    assert b[..|path|] == path && b[|path|..] == c;
    BlanksAreCounted(after, d);
  }

  lemma BracedIsPlaceholder(before: string, path: string, after: string, rest: string)
    requires IsBlank(before) && IsPathText(path) && IsBlank(after)
    ensures Placeholder(Braced(before, path, after) + rest) == Some(Match(path, |Braced(before, path, after)|))
  {
    var s := Braced(before, path, after) + rest;
    assert s == "{{" + (before + (path + (after + ("}}" + rest))));
    BracedReads(before, path, after, rest, s);
  }

  lemma {:induction false} PathLengthIs(s: string)
    ensures forall i | 0 <= i < PathLength(s) :: IsWord(s[i]) || s[i] == '.'
  {
    if s != [] && (IsWord(s[0]) || s[0] == '.') {
      PathLengthIs(s[1..]);
      assert forall i | 0 < i < PathLength(s) :: s[i] == s[1..][i - 1];
    }
  }

  lemma BlanksInFront(s: string)
    ensures IsBlank(s[..WebhookTemplate.SpaceCount(s)])
  {
    LStripForm(s);
  }

  lemma InParts(s: string, i: nat, n: nat, j: nat)
    requires 2 + i + n + j + 2 <= |s| && StartsWith(s, "{{")
    requires StartsWith(s[2..][i..][n..][j..], "}}")
    ensures s[..2 + i + n + j + 2] == Braced(s[2..][..i], s[2..][i..][..n], s[2..][i..][n..][..j])
  {
    var k := 2 + i + n;
    assert s[2..][i..][n..][j..] == s[k + j..];
    assert s[k + j..k + j + 2] == s[k + j..][..2] == "}}";
    assert s[2..][..i] == s[2..2 + i] && s[2..][i..][..n] == s[2 + i..k] && s[2..][i..][n..][..j] == s[k..k + j];
    assert s[..2] == "{{";
    Adjacent(s, 2 + i, k, k + j);
  }

  lemma Adjacent(s: string, x: nat, y: nat, z: nat)
    requires 2 <= x <= y <= z && z + 2 <= |s|
    ensures s[..z + 2] == s[..2] + (s[2..x] + (s[x..y] + (s[y..z] + s[z..z + 2])))
  {
  }

  lemma PlaceholderParts(s: string)
    requires Placeholder(s).Some?
    ensures
      var a := s[2..];
      var i := WebhookTemplate.SpaceCount(a);
      var n := PathLength(a[i..]);
      var j := WebhookTemplate.SpaceCount(a[i..][n..]);
      && StartsWith(s, "{{") && n > 0 && StartsWith(a[i..][n..][j..], "}}")
      && Placeholder(s).value == Match(a[i..][..n], 2 + i + n + j + 2)
  {
  }

  /** Nothing else is read as a placeholder. */
  lemma PlaceholderForm(s: string)
    requires Placeholder(s).Some?
    ensures exists before, after ::
      && IsBlank(before) && IsPathText(Placeholder(s).value.path) && IsBlank(after)
      && s[..Placeholder(s).value.length] == Braced(before, Placeholder(s).value.path, after)
  {
    var a := s[2..];
    var i := WebhookTemplate.SpaceCount(a);
    var n := PathLength(a[i..]);
    var j := WebhookTemplate.SpaceCount(a[i..][n..]);
    PlaceholderParts(s);
    BlanksInFront(a);
    PathLengthIs(a[i..]);
    BlanksInFront(a[i..][n..]);
    InParts(s, i, n, j);
  }

  // --- What it is replaced by -------------------------------------------------------------------

  /** A node in a text: a string as it is, any other value as JSON. */
  function AsText(node: Json, dumps: Json -> string): string {
    if node.Str? then node.s else dumps(node)
  }

  /** What a path contributes to a text: the node it leads to, or nothing. */
  function Contribution(reached: Option<Json>, dumps: Json -> string): string {
    if reached.Some? then AsText(reached.value, dumps) else ""
  }

  lemma InsertedIs(reached: Option<Json>, dumps: Json -> string)
    ensures Inserted(reached, dumps) == Contribution(reached, dumps)
  {
  }

  lemma ContributionIs(payload: Json, path: string, dumps: Json -> string)
    ensures Replacement(payload, dumps)(path) == Contribution(Resolve(payload, path), dumps)
  {
    InsertedIs(Resolve(payload, path), dumps);
  }

  /** A text that holds no opening brace. */
  predicate Braceless(s: string) { forall i | 0 <= i < |s| :: s[i] != '{' }

  lemma BracelessDoesNotMatch(s: string, j: nat)
    requires j < |s| && s[j] != '{'
    ensures !Matches(PLACEHOLDER, s[j..])
  {
    assert s[j..][0] != '{';
  }

  lemma BracelessStays(s: string, replacement: string -> string)
    requires Braceless(s)
    ensures Sub(PLACEHOLDER, replacement, s) == s
  {
    forall j | 0 <= j < |s| ensures !Matches(PLACEHOLDER, s[j..]) {
      BracelessDoesNotMatch(s, j);
    }
    LiteralIsCopied(PLACEHOLDER, s, |s|, replacement);
    assert s[|s|..] == [] && s[..|s|] == s;
  }

  lemma MatchBetween(pattern: Pattern, front: string, hole: string, path: string, back: string, replacement: string -> string)
    requires hole != [] && pattern(hole + back) == Some(Match(path, |hole|))
    requires forall j | 0 <= j < |front| :: !Matches(pattern, (front + hole + back)[j..])
    requires Sub(pattern, replacement, back) == back
    ensures Sub(pattern, replacement, front + hole + back) == front + replacement(path) + back
  {
    var s := front + hole + back;
    LiteralIsCopied(pattern, s, |front|, replacement);
    assert s[..|front|] == front && s[|front|..] == hole + back;
    MatchIsReplaced(pattern, s, |front|, replacement);
    assert s[|front| + |hole|..] == back;
  }

  /** A placeholder between two texts is replaced, and the texts are kept. */
  lemma PlaceholderIsReplaced(front: string, hole: string, path: string, back: string, replacement: string -> string)
    requires Braceless(front) && Braceless(back)
    requires hole != [] && PLACEHOLDER(hole + back) == Some(Match(path, |hole|))
    ensures Sub(PLACEHOLDER, replacement, front + hole + back) == front + replacement(path) + back
  {
    forall j | 0 <= j < |front| ensures !Matches(PLACEHOLDER, (front + hole + back)[j..]) {
      assert (front + hole + back)[j] == front[j];
      BracelessDoesNotMatch(front + hole + back, j);
    }
    BracelessStays(back, replacement);
    MatchBetween(PLACEHOLDER, front, hole, path, back, replacement);
  }

  lemma {:induction false} LStripOfSolid(a: string, b: string)
    requires !IsBlank(a)
    ensures LStrip(a + b) == LStrip(a) + b && LStrip(a) != [] && !IsSpace(LStrip(a)[0])
    ensures LStrip(a)[0] in a
  {
    if IsSpace(a[0]) {
      LStripOfSolid(a[1..], b);
      assert (a + b)[1..] == a[1..] + b;
    }
  }

  lemma {:induction false} RStripOfSolid(a: string, b: string)
    requires !IsBlank(b)
    ensures RStrip(a + b) == a + RStrip(b) && RStrip(b) != []
    decreases |b|
  {
    if IsSpace(b[|b| - 1]) {
      RStripOfSolid(a, b[..|b| - 1]);
      assert (a + b)[..|a + b| - 1] == a + b[..|b| - 1];
    }
  }

  lemma RStripKeepsTheStart(s: string)
    requires s != [] && !IsSpace(s[0])
    ensures RStrip(s) != [] && RStrip(s)[0] == s[0]
  {
    RStripForm(s);
  }

  /** With more than blanks around it, a placeholder is not the whole text. */
  lemma NotTheWholeText(front: string, hole: string, path: string, back: string)
    requires Braceless(front) && (!IsBlank(front) || !IsBlank(back))
    requires hole != [] && !IsSpace(hole[0]) && forall rest :: Placeholder(hole + rest) == Some(Match(path, |hole|))
    ensures ExactPath(front + hole + back) == None
  {
    var s := front + hole + back;
    if !IsBlank(front) {
      assert s == front + (hole + back);
      LStripOfSolid(front, hole + back);
      RStripKeepsTheStart(LStrip(s));
      assert Strip(s)[0] == LStrip(front)[0] != '{';
    } else {
      assert s == front + (hole + back);
      BlanksAreStripped(front, hole + back);
      RStripOfSolid(hole, back);
      assert Placeholder(hole + RStrip(back)) == Some(Match(path, |hole|));
    }
  }

  lemma BracedStart(before: string, path: string, after: string)
    ensures Braced(before, path, after)[0] == '{'
    ensures Braced(before, path, after)[|Braced(before, path, after)| - 1] == '}'
  {
  }

  lemma BracedAnywhere(before: string, path: string, after: string)
    requires IsBlank(before) && IsPathText(path) && IsBlank(after)
    ensures forall rest :: Placeholder(Braced(before, path, after) + rest) == Some(Match(path, |Braced(before, path, after)|))
  {
    forall rest ensures Placeholder(Braced(before, path, after) + rest) == Some(Match(path, |Braced(before, path, after)|)) {
      BracedIsPlaceholder(before, path, after, rest);
    }
  }

  lemma InexactRenders(s: string, payload: Json, dumps: Json -> string)
    requires ExactPath(s) == None
    ensures Render(Str(s), payload, dumps) == Str(Sub(PLACEHOLDER, Replacement(payload, dumps), s))
  {
  }

  lemma PatternAnywhere(before: string, path: string, after: string, back: string)
    requires IsBlank(before) && IsPathText(path) && IsBlank(after)
    ensures PLACEHOLDER(Braced(before, path, after) + back) == Some(Match(path, |Braced(before, path, after)|))
  {
    BracedIsPlaceholder(before, path, after, back);
  }

  lemma HoleIsReplaced(front: string, before: string, path: string, after: string, back: string,
                       payload: Json, dumps: Json -> string)
    requires Braceless(front) && Braceless(back) && (!IsBlank(front) || !IsBlank(back))
    requires IsBlank(before) && IsPathText(path) && IsBlank(after)
    ensures Render(Str(front + Braced(before, path, after) + back), payload, dumps)
         == Str(front + Replacement(payload, dumps)(path) + back)
  {
    var hole := Braced(before, path, after);
    BracedStart(before, path, after);
    BracedAnywhere(before, path, after);
    NotTheWholeText(front, hole, path, back);
    PatternAnywhere(before, path, after, back);
    PlaceholderIsReplaced(front, hole, path, back, Replacement(payload, dumps));
    InexactRenders(front + hole + back, payload, dumps);
  }

  /** A placeholder inside a longer text is replaced by the node its path leads to, a string as it is and
      any other value as JSON, and by nothing when the path leads nowhere. */
  lemma TextAroundAPlaceholder(front: string, before: string, path: string, after: string, back: string,
                               payload: Json, dumps: Json -> string)
    requires Braceless(front) && Braceless(back) && (!IsBlank(front) || !IsBlank(back))
    requires IsBlank(before) && IsPathText(path) && IsBlank(after)
    ensures Render(Str(front + Braced(before, path, after) + back), payload, dumps)
         == Str(front + Contribution(Resolve(payload, path), dumps) + back)
  {
    HoleIsReplaced(front, before, path, after, back, payload, dumps);
    ContributionIs(payload, path, dumps);
  }

  lemma StripsTo(front: string, hole: string, back: string)
    requires IsBlank(front) && IsBlank(back) && hole != [] && !IsSpace(hole[0]) && !IsSpace(hole[|hole| - 1])
    ensures Strip(front + hole + back) == hole
  {
    assert front + hole + back == front + (hole + back);
    BlanksAreStripped(front, hole + back);
    BlanksAreStrippedRight(hole, back);
  }

  lemma BracedIsExact(front: string, before: string, path: string, after: string, back: string)
    requires IsBlank(front) && IsBlank(back)
    requires IsBlank(before) && IsPathText(path) && IsBlank(after)
    ensures ExactPath(front + Braced(before, path, after) + back) == Some(path)
  {
    var hole := Braced(before, path, after);
    BracedStart(before, path, after);
    StripsTo(front, hole, back);
    BracedIsPlaceholder(before, path, after, []);
    assert hole + [] == hole;
  }

  lemma ExactRendersAs(s: string, payload: Json, dumps: Json -> string)
    requires ExactPath(s).Some?
    ensures Render(Str(s), payload, dumps) ==
      match Resolve(payload, ExactPath(s).value) case None => Null case Some(node) => node
  {
  }

  /** A placeholder that is the whole text, blanks aside, becomes the node itself, or null when the path
      leads nowhere. */
  lemma WholeTextIsAPlaceholder(front: string, before: string, path: string, after: string, back: string,
                                payload: Json, dumps: Json -> string)
    requires IsBlank(front) && IsBlank(back)
    requires IsBlank(before) && IsPathText(path) && IsBlank(after)
    ensures
      var out := Render(Str(front + Braced(before, path, after) + back), payload, dumps);
      && (forall node | Resolve(payload, path) == Some(node) :: out == node)
      && (Resolve(payload, path).None? ==> out == Null)
  {
    BracedIsExact(front, before, path, after, back);
    ExactRendersAs(front + Braced(before, path, after) + back, payload, dumps);
  }

  /** Objects and lists are rendered member by member. */
  lemma MembersAreRendered(fields: seq<Field>, items: seq<Json>, payload: Json, dumps: Json -> string)
    ensures Render(Obj(fields), payload, dumps)
         == Obj(seq(|fields|, i requires 0 <= i < |fields| => Field(fields[i].key, Render(fields[i].value, payload, dumps))))
    ensures Render(Arr(items), payload, dumps)
         == Arr(seq(|items|, i requires 0 <= i < |items| => Render(items[i], payload, dumps)))
  {
    FieldsKeepTheShape(fields, payload, dumps);
    ItemsKeepTheShape(items, payload, dumps);
  }
}
