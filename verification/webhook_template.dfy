/** Rendering a channel's payload template: placeholders are looked up by key in the payload. */
module WebhookTemplate {
  import opened Basics
  import opened Text

  /** A JSON value; an object keeps the order of its fields. */
  datatype Json =
    | Null
    | Bool(b: bool)
    | Number(n: real)
    | Str(s: string)
    | Arr(items: seq<Json>)
    | Obj(fields: seq<Field>)

  datatype Field = Field(key: string, value: Json)

  // --- Paths ------------------------------------------------------------------------------

  function SplitDots(path: string): (segments: seq<string>)
    ensures |segments| > 0
  {
    if path == [] then [[]]
    else
      var rest := SplitDots(path[1..]);
      if path[0] == '.' then [[]] + rest else [[path[0]] + rest[0]] + rest[1..]
  }

  function Get(fields: seq<Field>, key: string): Option<Json> {
    if fields == [] then None
    else if fields[0].key == key then Some(fields[0].value)
    else Get(fields[1..], key)
  }

  /** One step of a path: a key of an object, or an index into a list. */
  function Step(current: Json, segment: string): Option<Json> {
    match current
    case Obj(fields) => Get(fields, segment)
    case Arr(items) =>
      if !IsNumeral(segment) || DigitsValue(segment) >= |items| then None else Some(items[DigitsValue(segment)])
    case _ => None
  }

  function Walk(current: Json, segments: seq<string>): Option<Json>
    decreases |segments|
  {
    if segments == [] then Some(current)
    else
      match Step(current, segments[0])
      case None => None
      case Some(next) => Walk(next, segments[1..])
  }

  function Resolve(payload: Json, path: string): Option<Json> { Walk(payload, SplitDots(path)) }

  method ResolvePath(payload: Json, path: string) returns (r: Option<Json>)
    ensures r == Resolve(payload, path)
  {
    var segments := SplitDots(path);
    var current := payload;
    for i := 0 to |segments|
      invariant Walk(current, segments[i..]) == Resolve(payload, path)
    {
      assert segments[i..][1..] == segments[i + 1..];
      match current {
        case Obj(fields) =>
          var found := Get(fields, segments[i]);
          if found.None? { return None; }
          current := found.value;
        case Arr(items) =>
          if !IsNumeral(segments[i]) || DigitsValue(segments[i]) >= |items| { return None; }
          current := items[DigitsValue(segments[i])];
        case _ => return None;
      }
    }
    return Some(current);
  }

  // --- Placeholders -----------------------------------------------------------------------

  predicate IsWord(c: char) {
    'a' <= c <= 'z' || 'A' <= c <= 'Z' || '0' <= c <= '9' || c == '_'
  }

  function PathLength(s: string): (n: nat)
    ensures n <= |s|
  {
    if s != [] && (IsWord(s[0]) || s[0] == '.') then 1 + PathLength(s[1..]) else 0
  }

  function SpaceCount(s: string): (n: nat)
    ensures n <= |s|
  {
    |s| - |LStrip(s)|
  }

  datatype Match = Match(path: string, length: nat)

  /** The placeholder at the front of the text. */
  function Placeholder(s: string): (m: Option<Match>)
    ensures m.Some? ==> 4 < m.value.length <= |s|
  {
    if !StartsWith(s, "{{") then None
    else
      var a := s[2..];
      var b := a[SpaceCount(a)..];
      var n := PathLength(b);
      var c := b[n..];
      var d := c[SpaceCount(c)..];
      if n > 0 && StartsWith(d, "}}") then Some(Match(b[..n], |s| - |d| + 2)) else None
  }

  /** The whole text, blanks aside, is one placeholder. */
  function ExactPath(s: string): Option<string> {
    match Placeholder(Strip(s))
    case None => None
    case Some(m) => if m.length == |Strip(s)| then Some(m.path) else None
  }

  /** What a placeholder inside a longer text is replaced by; `dumps` writes a value as JSON text. */
  function Inserted(value: Option<Json>, dumps: Json -> string): string {
    match value
    case None => ""
    case Some(Str(text)) => text
    case Some(v) => dumps(v)
  }

  /** A pattern, as the match it makes at the front of a text. */
  type Pattern = string -> Option<Match>

  predicate Matches(pattern: Pattern, s: string) {
    pattern(s).Some? && 0 < pattern(s).value.length <= |s|
  }

  /** Replaces every match, left to right, reading each character once. */
  function Sub(pattern: Pattern, replacement: string -> string, s: string): string
    decreases |s|
  {
    if s == [] then []
    else if Matches(pattern, s) then
      replacement(pattern(s).value.path) + Sub(pattern, replacement, s[pattern(s).value.length..])
    else [s[0]] + Sub(pattern, replacement, s[1..])
  }

  const PLACEHOLDER: Pattern := s => Placeholder(s)

  function Replacement(payload: Json, dumps: Json -> string): string -> string {
    (path: string) => Inserted(Resolve(payload, path), dumps)
  }

  function Interpolate(s: string, payload: Json, dumps: Json -> string): string {
    Sub(PLACEHOLDER, Replacement(payload, dumps), s)
  }

  // --- Rendering --------------------------------------------------------------------------

  function Render(node: Json, payload: Json, dumps: Json -> string): Json
    decreases node, 1
  {
    match node
    case Str(s) =>
      (match ExactPath(s)
       case Some(path) => (match Resolve(payload, path) case None => Null case Some(v) => v)
       case None => Str(Interpolate(s, payload, dumps)))
    case Obj(fields) => Obj(RenderFields(fields, payload, dumps))
    case Arr(items) => Arr(RenderItems(items, payload, dumps))
    case _ => node
  }

  function RenderFields(fields: seq<Field>, payload: Json, dumps: Json -> string): seq<Field>
    decreases fields, 0
  {
    if fields == [] then []
    else [Field(fields[0].key, Render(fields[0].value, payload, dumps))] + RenderFields(fields[1..], payload, dumps)
  }

  function RenderItems(items: seq<Json>, payload: Json, dumps: Json -> string): seq<Json>
    decreases items, 0
  {
    if items == [] then [] else [Render(items[0], payload, dumps)] + RenderItems(items[1..], payload, dumps)
  }

  // --- Rendering depends only on the named paths ----------------------------------------------

  /** The paths of the matches in a text. */
  function TextPaths(pattern: Pattern, s: string): set<string>
    decreases |s|
  {
    if s == [] then {}
    else if Matches(pattern, s) then {pattern(s).value.path} + TextPaths(pattern, s[pattern(s).value.length..])
    else TextPaths(pattern, s[1..])
  }

  /** The paths a template names. */
  function Paths(node: Json): set<string>
    decreases node, 1
  {
    match node
    case Str(s) => (match ExactPath(s) case Some(path) => {path} case None => TextPaths(PLACEHOLDER, s))
    case Obj(fields) => FieldPaths(fields)
    case Arr(items) => ItemPaths(items)
    case _ => {}
  }

  function FieldPaths(fields: seq<Field>): set<string>
    decreases fields, 0
  {
    if fields == [] then {} else Paths(fields[0].value) + FieldPaths(fields[1..])
  }

  function ItemPaths(items: seq<Json>): set<string>
    decreases items, 0
  {
    if items == [] then {} else Paths(items[0]) + ItemPaths(items[1..])
  }

  ghost predicate Agree(p: Json, q: Json, paths: set<string>) {
    forall path | path in paths :: Resolve(p, path) == Resolve(q, path)
  }

  lemma {:induction false} TextDependsOnPaths(pattern: Pattern, s: string, f: string -> string, g: string -> string)
    requires forall path | path in TextPaths(pattern, s) :: f(path) == g(path)
    ensures Sub(pattern, f, s) == Sub(pattern, g, s)
    decreases |s|
  {
    if s != [] {
      TextDependsOnPaths(pattern, if Matches(pattern, s) then s[pattern(s).value.length..] else s[1..], f, g);
    }
  }

  lemma PlaceholdersDecide(s: string, p: Json, q: Json, dumps: Json -> string)
    requires Agree(p, q, TextPaths(PLACEHOLDER, s))
    ensures Interpolate(s, p, dumps) == Interpolate(s, q, dumps)
  {
    TextDependsOnPaths(PLACEHOLDER, s, Replacement(p, dumps), Replacement(q, dumps));
  }

  /** Two payloads that agree on every path the template names render it the same. */
  lemma {:induction false} RenderingDependsOnlyOnPaths(node: Json, p: Json, q: Json, dumps: Json -> string)
    requires Agree(p, q, Paths(node))
    ensures Render(node, p, dumps) == Render(node, q, dumps)
    decreases node, 1
  {
    match node
    case Str(s) => if ExactPath(s).None? { PlaceholdersDecide(s, p, q, dumps); }
    case Obj(fields) => FieldsDependOnlyOnPaths(fields, p, q, dumps);
    case Arr(items) => ItemsDependOnlyOnPaths(items, p, q, dumps);
    case _ =>
  }

  lemma {:induction false} FieldsDependOnlyOnPaths(fields: seq<Field>, p: Json, q: Json, dumps: Json -> string)
    requires Agree(p, q, FieldPaths(fields))
    ensures RenderFields(fields, p, dumps) == RenderFields(fields, q, dumps)
    decreases fields, 0
  {
    if fields != [] {
      RenderingDependsOnlyOnPaths(fields[0].value, p, q, dumps);
      FieldsDependOnlyOnPaths(fields[1..], p, q, dumps);
    }
  }

  lemma {:induction false} ItemsDependOnlyOnPaths(items: seq<Json>, p: Json, q: Json, dumps: Json -> string)
    requires Agree(p, q, ItemPaths(items))
    ensures RenderItems(items, p, dumps) == RenderItems(items, q, dumps)
    decreases items, 0
  {
    if items != [] {
      RenderingDependsOnlyOnPaths(items[0], p, q, dumps);
      ItemsDependOnlyOnPaths(items[1..], p, q, dumps);
    }
  }

  // --- The template's shape ---------------------------------------------------------------

  lemma {:induction false} TextWithoutPathsStays(pattern: Pattern, s: string, replacement: string -> string)
    requires TextPaths(pattern, s) == {}
    ensures Sub(pattern, replacement, s) == s
  {
    if s != [] && !Matches(pattern, s) {
      TextWithoutPathsStays(pattern, s[1..], replacement);
    }
  }

  /** Away from whole-string placeholders: the same keys in the same order, lists of the same length,
      text for text, the same text where it names no path, and other literals as they are. */
  ghost predicate Fits(node: Json, out: Json)
    decreases node, 1
  {
    match node
    case Str(s) => ExactPath(s).None? ==> out.Str? && (TextPaths(PLACEHOLDER, s) == {} ==> out == node)
    case Obj(fields) =>
      && out.Obj? && |out.fields| == |fields|
      && forall i | 0 <= i < |fields| :: out.fields[i].key == fields[i].key && Fits(fields[i].value, out.fields[i].value)
    case Arr(items) =>
      && out.Arr? && |out.items| == |items|
      && forall i | 0 <= i < |items| :: Fits(items[i], out.items[i])
    case _ => out == node
  }

  lemma {:induction false} RenderingKeepsTheShape(node: Json, payload: Json, dumps: Json -> string)
    ensures Fits(node, Render(node, payload, dumps))
    decreases node, 1
  {
    match node
    case Str(s) =>
      if TextPaths(PLACEHOLDER, s) == {} {
        TextWithoutPathsStays(PLACEHOLDER, s, Replacement(payload, dumps));
      }
    case Obj(fields) => FieldsKeepTheShape(fields, payload, dumps);
    case Arr(items) => ItemsKeepTheShape(items, payload, dumps);
    case _ =>
  }

  lemma {:induction false} FieldsKeepTheShape(fields: seq<Field>, payload: Json, dumps: Json -> string)
    ensures |RenderFields(fields, payload, dumps)| == |fields|
    ensures forall i | 0 <= i < |fields| ::
      && RenderFields(fields, payload, dumps)[i] == Field(fields[i].key, Render(fields[i].value, payload, dumps))
      && Fits(fields[i].value, RenderFields(fields, payload, dumps)[i].value)
    decreases fields, 0
  {
    if fields != [] {
      RenderingKeepsTheShape(fields[0].value, payload, dumps);
      FieldsKeepTheShape(fields[1..], payload, dumps);
      var (out, rest) := (RenderFields(fields, payload, dumps), RenderFields(fields[1..], payload, dumps));
      forall i | 0 <= i < |fields|
        ensures out[i] == Field(fields[i].key, Render(fields[i].value, payload, dumps)) && Fits(fields[i].value, out[i].value)
      {
        assert i > 0 ==> out[i] == rest[i - 1] && fields[i] == fields[1..][i - 1];
      }
    }
  }

  lemma {:induction false} ItemsKeepTheShape(items: seq<Json>, payload: Json, dumps: Json -> string)
    ensures |RenderItems(items, payload, dumps)| == |items|
    ensures forall i | 0 <= i < |items| ::
      && RenderItems(items, payload, dumps)[i] == Render(items[i], payload, dumps)
      && Fits(items[i], RenderItems(items, payload, dumps)[i])
    decreases items, 0
  {
    if items != [] {
      RenderingKeepsTheShape(items[0], payload, dumps);
      ItemsKeepTheShape(items[1..], payload, dumps);
      var (out, rest) := (RenderItems(items, payload, dumps), RenderItems(items[1..], payload, dumps));
      forall i | 0 <= i < |items| ensures out[i] == Render(items[i], payload, dumps) && Fits(items[i], out[i]) {
        assert i > 0 ==> out[i] == rest[i - 1] && items[i] == items[1..][i - 1];
      }
    }
  }

  // --- A text is read once ----------------------------------------------------------------

  datatype Segment = Literal(text: string) | Hole(path: string, written: string)

  /** Position of the first match at or after `i`, or the end of the text. */
  function NextMatch(pattern: Pattern, s: string, i: nat): (h: nat)
    requires i <= |s|
    ensures i <= h <= |s|
    ensures h < |s| ==> Matches(pattern, s[h..])
    ensures forall j | i <= j < h :: !Matches(pattern, s[j..])
    decreases |s| - i
  {
    if i == |s| then |s| else if Matches(pattern, s[i..]) then i else NextMatch(pattern, s, i + 1)
  }

  /** The text as literal stretches, as long as possible, and the matches between them. */
  function Segments(pattern: Pattern, s: string): seq<Segment>
    decreases |s|
  {
    var h := NextMatch(pattern, s, 0);
    if h == |s| then [Literal(s)]
    else
      var m := pattern(s[h..]).value;
      [Literal(s[..h]), Hole(m.path, s[h..h + m.length])] + Segments(pattern, s[h + m.length..])
  }

  function Written(segment: Segment): string {
    match segment case Literal(text) => text case Hole(_, written) => written
  }

  function Filled(segment: Segment, replacement: string -> string): string {
    match segment case Literal(text) => text case Hole(path, _) => replacement(path)
  }

  function WrittenAll(segments: seq<Segment>): string {
    if segments == [] then [] else Written(segments[0]) + WrittenAll(segments[1..])
  }

  function FilledAll(segments: seq<Segment>, replacement: string -> string): string {
    if segments == [] then [] else Filled(segments[0], replacement) + FilledAll(segments[1..], replacement)
  }

  lemma TwoAndRest(a: Segment, b: Segment, rest: seq<Segment>, replacement: string -> string)
    ensures WrittenAll([a, b] + rest) == Written(a) + (Written(b) + WrittenAll(rest))
    ensures FilledAll([a, b] + rest, replacement) == Filled(a, replacement) + (Filled(b, replacement) + FilledAll(rest, replacement))
  {
    assert ([a, b] + rest)[1..] == [b] + rest && ([b] + rest)[1..] == rest;
  }

  lemma SplitTwice(s: string, h: nat, k: nat)
    requires h <= k <= |s|
    ensures s == s[..h] + (s[h..k] + s[k..])
  {
  }

  lemma WrittenTwo(literal: string, path: string, hole: string, rest: seq<Segment>)
    ensures WrittenAll([Literal(literal), Hole(path, hole)] + rest) == literal + (hole + WrittenAll(rest))
  {
    TwoAndRest(Literal(literal), Hole(path, hole), rest, path => path);
  }

  lemma WrittenOne(literal: string)
    ensures WrittenAll([Literal(literal)]) == literal
  {
    assert [Literal(literal)][1..] == [];
  }

  /** The segments put together again are the template's text. */
  lemma {:induction false} SegmentsRebuildTheText(pattern: Pattern, s: string)
    ensures WrittenAll(Segments(pattern, s)) == s
    decreases |s|
  {
    var h := NextMatch(pattern, s, 0);
    if h < |s| {
      var m := pattern(s[h..]).value;
      var k := h + m.length;
      SegmentsRebuildTheText(pattern, s[k..]);
      WrittenTwo(s[..h], m.path, s[h..k], Segments(pattern, s[k..]));
      SplitTwice(s, h, k);
    } else {
      WrittenOne(s);
    }
  }

  lemma {:induction false} LiteralIsCopied(pattern: Pattern, s: string, h: nat, replacement: string -> string)
    requires h <= |s| && forall j | 0 <= j < h :: !Matches(pattern, s[j..])
    ensures Sub(pattern, replacement, s) == s[..h] + Sub(pattern, replacement, s[h..])
    decreases h
  {
    assert s[0..] == s;
    if h > 0 {
      forall j | 0 <= j < h - 1 ensures !Matches(pattern, s[1..][j..]) {
        assert s[1..][j..] == s[j + 1..];
      }
      LiteralIsCopied(pattern, s[1..], h - 1, replacement);
      assert s[1..][h - 1..] == s[h..];
      assert s[..h] == [s[0]] + s[1..][..h - 1];
    }
  }

  lemma MatchIsReplaced(pattern: Pattern, s: string, h: nat, replacement: string -> string)
    requires h < |s| && Matches(pattern, s[h..])
    ensures
      var m := pattern(s[h..]).value;
      h + m.length <= |s| && Sub(pattern, replacement, s[h..]) == replacement(m.path) + Sub(pattern, replacement, s[h + m.length..])
  {
    assert s[h..][pattern(s[h..]).value.length..] == s[h + pattern(s[h..]).value.length..];
  }

  /** Each match contributes its replacement as it is, whatever that looks like, and the stretches
      between matches, which hold no match, are copied: nothing is scanned a second time. */
  lemma {:induction false} TextIsScannedOnce(pattern: Pattern, s: string, replacement: string -> string)
    ensures Sub(pattern, replacement, s) == FilledAll(Segments(pattern, s), replacement)
    decreases |s|
  {
    var h := NextMatch(pattern, s, 0);
    LiteralIsCopied(pattern, s, h, replacement);
    if h < |s| {
      MatchIsReplaced(pattern, s, h, replacement);
      var m := pattern(s[h..]).value;
      var rest := s[h + m.length..];
      TextIsScannedOnce(pattern, rest, replacement);
      TwoAndRest(Literal(s[..h]), Hole(m.path, s[h..h + m.length]), Segments(pattern, rest), replacement);
    } else {
      assert s[..h] == s;
    }
  }

  // --- The identity template ----------------------------------------------------------------

  predicate IsWordKey(key: string) { key != [] && forall i | 0 <= i < |key| :: IsWord(key[i]) }

  /** The template that maps every key to a placeholder for it. */
  function IdentityFields(fields: seq<Field>): seq<Field> {
    seq(|fields|, i requires 0 <= i < |fields| => Field(fields[i].key, Str("{{" + fields[i].key + "}}")))
  }

  lemma {:induction false} WordPathLength(key: string, rest: string)
    requires forall i | 0 <= i < |key| :: IsWord(key[i])
    requires rest != [] && !IsWord(rest[0]) && rest[0] != '.'
    ensures PathLength(key + rest) == |key|
  {
    if key == [] {
      assert key + rest == rest;
    } else {
      assert (key + rest)[1..] == key[1..] + rest;
      WordPathLength(key[1..], rest);
    }
  }

  lemma {:induction false} WordHasNoDot(key: string)
    requires forall i | 0 <= i < |key| :: IsWord(key[i])
    ensures SplitDots(key) == [key]
    decreases |key|
  {
    if key != [] {
      WordHasNoDot(key[1..]);
      assert [key[0]] + key[1..] == key;
    }
  }

  lemma BracesAreBare(key: string)
    ensures Strip("{{" + key + "}}") == "{{" + key + "}}"
  {
    var s := "{{" + key + "}}";
    assert s[0] == '{' && s[|s| - 1] == '}';
  }

  lemma BracedPath(key: string, a: string)
    requires IsWordKey(key) && a == key + "}}"
    ensures SpaceCount(a) == 0 && PathLength(a) == |key| && a[..|key|] == key && a[|key|..] == "}}"
  {
    assert a[0] == key[0];
    WordPathLength(key, "}}");
  }

  lemma ClosingBraces()
    ensures SpaceCount("}}") == 0 && StartsWith("}}", "}}")
  {
    assert "}}"[0] == '}';
  }

  lemma BracedKey(key: string, a: string, s: string)
    requires IsWordKey(key) && a == key + "}}" && s == "{{" + a
    ensures Placeholder(s) == Some(Match(key, |s|))
  {
    BracedPath(key, a);
    ClosingBraces();
    assert s[2..] == a && a[0..] == a && "}}"[0..] == "}}";
  }

  lemma KeyPlaceholder(key: string)
    requires IsWordKey(key)
    ensures ExactPath("{{" + key + "}}") == Some(key)
  {
    BracesAreBare(key);
    assert "{{" + key + "}}" == "{{" + (key + "}}");
    BracedKey(key, key + "}}", "{{" + key + "}}");
  }

  lemma {:induction false} GetUnique(fields: seq<Field>, i: nat)
    requires i < |fields| && forall j, k | 0 <= j < k < |fields| :: fields[j].key != fields[k].key
    ensures Get(fields, fields[i].key) == Some(fields[i].value)
  {
    if i > 0 {
      GetUnique(fields[1..], i - 1);
    }
  }

  lemma {:induction false} FieldsRenderTo(template: seq<Field>, payload: Json, dumps: Json -> string, out: seq<Field>)
    requires |template| == |out|
    requires forall i | 0 <= i < |out| :: template[i].key == out[i].key && Render(template[i].value, payload, dumps) == out[i].value
    ensures RenderFields(template, payload, dumps) == out
  {
    if out != [] {
      FieldsRenderTo(template[1..], payload, dumps, out[1..]);
      assert out == [out[0]] + out[1..];
    }
  }

  lemma KeyResolves(fields: seq<Field>, i: nat)
    requires i < |fields| && IsWordKey(fields[i].key)
    requires forall j, k | 0 <= j < k < |fields| :: fields[j].key != fields[k].key
    ensures Resolve(Obj(fields), fields[i].key) == Some(fields[i].value)
  {
    WordHasNoDot(fields[i].key);
    GetUnique(fields, i);
    assert Walk(Obj(fields), [fields[i].key]) == Some(fields[i].value);
  }

  lemma ExactRenders(s: string, payload: Json, dumps: Json -> string, path: string)
    requires ExactPath(s) == Some(path) && Resolve(payload, path).Some?
    ensures Render(Str(s), payload, dumps) == Resolve(payload, path).value
  {
  }

  lemma KeyRendersToItsValue(fields: seq<Field>, i: nat, dumps: Json -> string)
    requires i < |fields| && IsWordKey(fields[i].key)
    requires forall j, k | 0 <= j < k < |fields| :: fields[j].key != fields[k].key
    ensures Render(Str("{{" + fields[i].key + "}}"), Obj(fields), dumps) == fields[i].value
  {
    KeyPlaceholder(fields[i].key);
    KeyResolves(fields, i);
    ExactRenders("{{" + fields[i].key + "}}", Obj(fields), dumps, fields[i].key);
  }

  /** An object whose keys are words is reproduced by the template that names each key. */
  lemma IdentityTemplateReproduces(fields: seq<Field>, dumps: Json -> string)
    requires forall j | 0 <= j < |fields| :: IsWordKey(fields[j].key)
    requires forall j, k | 0 <= j < k < |fields| :: fields[j].key != fields[k].key
    ensures Render(Obj(IdentityFields(fields)), Obj(fields), dumps) == Obj(fields)
  {
    forall i | 0 <= i < |fields| ensures Render(IdentityFields(fields)[i].value, Obj(fields), dumps) == fields[i].value {
      KeyRendersToItsValue(fields, i, dumps);
    }
    FieldsRenderTo(IdentityFields(fields), Obj(fields), dumps, fields);
  }
}
