/** The changelog page: rendering the unreleased section in place, and assembling a release. */
module Changelog {
  import opened Text

  datatype Section = Breaking | Security | Added | Changed | Fixed

  datatype Fragment = Fragment(number: nat, suffix: nat, section: Section, body: string)

  datatype Error = NoMarker | BadVersion | BadDate | NothingToAssemble | VersionExists

  datatype Result<+T> = Ok(value: T) | Err(error: Error)

  const MARKER := "<!-- changelog.d:unreleased -->"
  const UNRELEASED := "## Unreleased"
  const HEADING := "## "
  const BREAK := "\n\n"
  /** One sentence, in parts: short literals keep the proofs about it quick. */
  const EMPTY_UNRELEASED := "_No changes " + "recorded since " + "the last release._"
  const SECTIONS: seq<Section> := [Breaking, Security, Added, Changed, Fixed]

  function Title(s: Section): string {
    match s
    case Breaking => "Breaking"
    case Security => "Security"
    case Added => "Added"
    case Changed => "Changed"
    case Fixed => "Fixed"
  }

  // --- Rendering --------------------------------------------------------------------------

  /** The text split at newlines; never empty. */
  function Lines(s: string): (ls: seq<string>)
    ensures |ls| > 0
  {
    if s == [] then [[]]
    else
      var rest := Lines(s[1..]);
      if s[0] == '\n' then [[]] + rest else [[s[0]] + rest[0]] + rest[1..]
  }

  function IndentLine(line: string): string {
    if IsBlank(line) then "" else "  " + line
  }

  function IndentLines(lines: seq<string>): seq<string> {
    seq(|lines|, i requires 0 <= i < |lines| => IndentLine(lines[i]))
  }

  function Bullet(body: string): string {
    var lines := Lines(body);
    Join("\n", ["- " + lines[0]] + IndentLines(lines[1..]))
  }

  /** Newest number first, then the counter. */
  predicate SortsBefore(a: Fragment, b: Fragment) {
    a.number > b.number || (a.number == b.number && a.suffix <= b.suffix)
  }

  function Insert(f: Fragment, sorted: seq<Fragment>): seq<Fragment> {
    if sorted == [] || SortsBefore(f, sorted[0]) then [f] + sorted
    else [sorted[0]] + Insert(f, sorted[1..])
  }

  function Sorted(fragments: seq<Fragment>): seq<Fragment> {
    if fragments == [] then [] else Insert(fragments[0], Sorted(fragments[1..]))
  }

  function OfSection(fragments: seq<Fragment>, s: Section): seq<Fragment> {
    if fragments == [] then []
    else (if fragments[0].section == s then [fragments[0]] else []) + OfSection(fragments[1..], s)
  }

  function Bullets(fragments: seq<Fragment>): seq<string> {
    seq(|fragments|, i requires 0 <= i < |fragments| => Bullet(fragments[i].body))
  }

  function SectionBlock(s: Section, chosen: seq<Fragment>): string {
    "### " + Title(s) + BREAK + Join("\n", Bullets(chosen))
  }

  function BlockOf(fragments: seq<Fragment>, s: Section): seq<string> {
    var chosen := Sorted(OfSection(fragments, s));
    if chosen == [] then [] else [SectionBlock(s, chosen)]
  }

  function Blocks(fragments: seq<Fragment>, sections: seq<Section>): seq<string> {
    if sections == [] then []
    else Blocks(fragments, sections[..|sections| - 1]) + BlockOf(fragments, sections[|sections| - 1])
  }

  function RenderSections(fragments: seq<Fragment>): string {
    Join(BREAK, Blocks(fragments, SECTIONS))
  }

  /** The section blocks, collected in a loop over the sections. */
  method CollectBlocks(fragments: seq<Fragment>, sections: seq<Section>) returns (out: seq<string>)
    ensures out == Blocks(fragments, sections)
  {
    out := [];
    for i := 0 to |sections|
      invariant out == Blocks(fragments, sections[..i])
    {
      var chosen := Sorted(OfSection(fragments, sections[i]));
      assert sections[..i + 1][..i] == sections[..i];
      if chosen != [] {
        var block := SectionBlock(sections[i], chosen);
        out := out + [block];
      }
    }
    assert sections[..|sections|] == sections;
  }

  function RenderUnreleased(fragments: seq<Fragment>): string {
    var sections := RenderSections(fragments);
    UNRELEASED + BREAK + (if sections == "" then EMPTY_UNRELEASED else sections)
  }

  // --- The page ---------------------------------------------------------------------------

  function DropNewlines(s: string): string {
    if s != [] && s[0] == '\n' then DropNewlines(s[1..]) else s
  }

  /** A release heading other than the unreleased one starts at `i`. */
  predicate IsReleaseAt(s: string, i: nat) {
    && (i == 0 || (i <= |s| && s[i - 1] == '\n'))
    && At(s, HEADING, i)
    && !At(s, "Unreleased", i + 3)
  }

  /** Position of the first release heading at or after `from`, or the end of the text. */
  function FirstRelease(s: string, from: nat): (i: nat)
    requires from <= |s|
    ensures from <= i <= |s|
    ensures i < |s| ==> IsReleaseAt(s, i)
    ensures forall j | from <= j < i :: !IsReleaseAt(s, j)
    decreases |s| - from
  {
    if from == |s| then |s|
    else if IsReleaseAt(s, from) then from
    else FirstRelease(s, from + 1)
  }

  predicate HasMarker(page: string) { Find(page, MARKER, 0) >= 0 }

  /** Everything through the marker. */
  function Head(page: string): string
    requires HasMarker(page)
  {
    page[..Find(page, MARKER, 0) + |MARKER|]
  }

  /** The text after the marker, without the newlines it starts with. */
  function TextAfter(page: string): string
    requires HasMarker(page)
  {
    DropNewlines(page[Find(page, MARKER, 0) + |MARKER|..])
  }

  /** The text after the marker from the next release heading on; a rendered block before it is dropped. */
  function Tail(page: string): string
    requires HasMarker(page)
  {
    CutUnreleased(TextAfter(page))
  }

  function CutUnreleased(text: string): string {
    if StartsWith(text, UNRELEASED) then text[FirstRelease(text, 0)..] else text
  }

  function Inject(page: string, fragments: seq<Fragment>): Result<string> {
    if !HasMarker(page) then Err(NoMarker)
    else Ok(Head(page) + BREAK + RenderUnreleased(fragments) + BREAK + Tail(page))
  }

  // --- Fragment text never looks like a release heading -------------------------------------

  predicate LineStart(s: string, i: nat) {
    i == 0 || (i <= |s| && s[i - 1] == '\n')
  }

  /** No line of the text starts with "## ". */
  ghost predicate NoHeading(s: string) {
    forall i: nat | LineStart(s, i) :: !At(s, HEADING, i)
  }

  lemma HeadingChars(s: string, i: nat)
    ensures At(s, HEADING, i) <==> i + 3 <= |s| && s[i] == '#' && s[i + 1] == '#' && s[i + 2] == ' '
  {
    if i + 3 <= |s| {
      assert s[i..i + 3] == [s[i], s[i + 1], s[i + 2]];
    }
  }

  lemma NoHeadingJoined(a: string, b: string)
    requires NoHeading(a) && NoHeading(b)
    ensures NoHeading(a + "\n" + b)
  {
    var s := a + "\n" + b;
    forall i: nat | LineStart(s, i) ensures !At(s, HEADING, i) {
      HeadingChars(s, i);
      if i <= |a| {
        HeadingChars(a, i);
        assert LineStart(a, i);
      } else {
        HeadingChars(b, i - |a| - 1);
        assert LineStart(b, i - |a| - 1);
      }
    }
  }

  /** A single line is no heading unless it starts like one. */
  lemma OneLine(s: string)
    requires '\n' !in s
    requires |s| >= 3 ==> s[0] != '#' || s[1] != '#' || s[2] != ' '
    ensures NoHeading(s)
  {
    forall i: nat | LineStart(s, i) ensures !At(s, HEADING, i) {
      HeadingChars(s, i);
    }
  }

  lemma {:induction false} LinesHaveNoNewline(s: string)
    ensures forall k | 0 <= k < |Lines(s)| :: '\n' !in Lines(s)[k]
  {
    if s != [] {
      LinesHaveNoNewline(s[1..]);
    }
  }

  lemma {:induction false} JoinNoHeading(parts: seq<string>)
    requires forall k | 0 <= k < |parts| :: NoHeading(parts[k])
    ensures NoHeading(Join("\n", parts))
  {
    if parts == [] {
      OneLine("");
    } else if |parts| > 1 {
      JoinNoHeading(parts[1..]);
      NoHeadingJoined(parts[0], Join("\n", parts[1..]));
    }
  }

  lemma BulletHasNoHeading(body: string)
    ensures NoHeading(Bullet(body))
  {
    var lines := Lines(body);
    LinesHaveNoNewline(body);
    var parts := ["- " + lines[0]] + IndentLines(lines[1..]);
    forall k | 0 <= k < |parts| ensures NoHeading(parts[k]) {
      OneLine(parts[k]);
    }
    JoinNoHeading(parts);
  }

  lemma NoHeadingAcrossBreak(a: string, b: string)
    requires NoHeading(a) && NoHeading(b)
    ensures NoHeading(a + BREAK + b)
  {
    OneLine("");
    NoHeadingJoined("", b);
    NoHeadingJoined(a, "" + "\n" + b);
    assert a + BREAK + b == a + "\n" + ("" + "\n" + b);
  }

  lemma {:induction false} JoinBreakNoHeading(parts: seq<string>)
    requires forall k | 0 <= k < |parts| :: NoHeading(parts[k])
    ensures NoHeading(Join(BREAK, parts))
  {
    if parts == [] {
      OneLine("");
    } else if |parts| > 1 {
      JoinBreakNoHeading(parts[1..]);
      NoHeadingAcrossBreak(parts[0], Join(BREAK, parts[1..]));
    }
  }

  lemma BlockHasNoHeading(s: Section, chosen: seq<Fragment>)
    ensures NoHeading(SectionBlock(s, chosen))
  {
    var bullets := Bullets(chosen);
    forall k | 0 <= k < |bullets| ensures NoHeading(bullets[k]) {
      BulletHasNoHeading(chosen[k].body);
    }
    JoinNoHeading(bullets);
    OneLine("### " + Title(s));
    NoHeadingAcrossBreak("### " + Title(s), Join("\n", bullets));
  }

  lemma {:induction false} BlocksHaveNoHeading(fragments: seq<Fragment>, sections: seq<Section>)
    ensures forall k | 0 <= k < |Blocks(fragments, sections)| :: NoHeading(Blocks(fragments, sections)[k])
  {
    if sections != [] {
      var last := sections[|sections| - 1];
      BlocksHaveNoHeading(fragments, sections[..|sections| - 1]);
      BlockHasNoHeading(last, Sorted(OfSection(fragments, last)));
    }
  }

  /** Whatever the fragments say, no line of their rendering looks like a release heading. */
  lemma RenderingHasNoHeading(fragments: seq<Fragment>)
    ensures NoHeading(RenderSections(fragments))
  {
    BlocksHaveNoHeading(fragments, SECTIONS);
    JoinBreakNoHeading(Blocks(fragments, SECTIONS));
  }

  // --- Injecting twice --------------------------------------------------------------------

  /** The section body of a rendered page, with the blank lines around it. */
  function Body(fragments: seq<Fragment>): string {
    var sections := RenderSections(fragments);
    if sections == "" then EMPTY_UNRELEASED else sections
  }

  lemma EmptyNoteHasNoHeading()
    ensures NoHeading(EMPTY_UNRELEASED)
  {
    assert '\n' !in EMPTY_UNRELEASED && EMPTY_UNRELEASED[0] == '_';
    OneLine(EMPTY_UNRELEASED);
  }

  lemma BlankAround(body: string)
    requires NoHeading(body)
    ensures NoHeading("\n" + body + "\n")
  {
    OneLine("");
    NoHeadingJoined("", body);
    NoHeadingJoined("" + "\n" + body, "");
    assert "\n" + body + "\n" == "" + "\n" + body + "\n" + "";
  }

  lemma BodyHasNoHeading(fragments: seq<Fragment>)
    ensures NoHeading("\n" + Body(fragments) + "\n")
  {
    RenderingHasNoHeading(fragments);
    EmptyNoteHasNoHeading();
    BlankAround(Body(fragments));
  }

  lemma UnreleasedHeading(s: string)
    ensures StartsWith(s, UNRELEASED) <==> At(s, HEADING, 0) && At(s, "Unreleased", 3)
    ensures |UNRELEASED| == 13 && '\n' !in UNRELEASED
  {
    assert UNRELEASED == HEADING + "Unreleased";
    if |s| >= 13 {
      assert s[..13] == s[0..3] + s[3..13];
    }
  }

  lemma AtShifted(front: string, s: string, p: string, i: nat)
    ensures At(front + s, p, |front| + i) == At(s, p, i)
  {
    if i + |p| <= |s| {
      assert (front + s)[|front| + i..|front| + i + |p|] == s[i..i + |p|];
    }
  }

  lemma NoReleaseInBody(front: string, body: string, tail: string, k: nat)
    requires NoHeading(body) && k <= |body|
    requires front != "" && front[|front| - 1] == '\n'
    ensures !IsReleaseAt(front + body + "\n" + tail, |front| + k)
  {
    var s := front + body + "\n" + tail;
    var i := |front| + k;
    HeadingChars(s, i);
    HeadingChars(body, k);
    assert k > 0 ==> s[i - 1] == body[k - 1];
    assert s[|front| + |body|] == '\n';
    if LineStart(s, i) {
      assert LineStart(body, k);
      assert !At(body, HEADING, k);
    }
  }

  /** In a rendered text, nothing before the older text is a release heading. */
  lemma NoReleaseInFront(body: string, tail: string, i: nat)
    requires NoHeading(body)
    requires i < |UNRELEASED + "\n" + body + "\n"|
    ensures !IsReleaseAt(UNRELEASED + "\n" + body + "\n" + tail, i)
  {
    var s := UNRELEASED + "\n" + body + "\n" + tail;
    if i > |UNRELEASED| {
      NoReleaseInBody(UNRELEASED + "\n", body, tail, i - |UNRELEASED| - 1);
    } else {
      UnreleasedHeading(s);
      assert UNRELEASED <= s;
      assert i > 0 ==> s[i - 1] == UNRELEASED[i - 1];
    }
  }

  /** In a rendered text, the first release heading is at or after the older text, and is at its start
      exactly when the older text starts with one. */
  lemma FirstReleaseInRendered(body: string, tail: string)
    requires NoHeading(body)
    ensures
      var front := UNRELEASED + "\n" + body + "\n";
      && FirstRelease(front + tail, 0) >= |front|
      && (FirstRelease(front + tail, 0) == |front| <==> tail == "" || IsReleaseAt(tail, 0))
  {
    var front := UNRELEASED + "\n" + body + "\n";
    var s := front + tail;
    var first := FirstRelease(s, 0);
    if first < |front| {
      NoReleaseInFront(body, tail, first);
    }
    AtShifted(front, tail, HEADING, 0);
    AtShifted(front, tail, "Unreleased", 3);
    assert s[|front| - 1] == '\n';
    assert IsReleaseAt(s, |front|) == IsReleaseAt(tail, 0);
  }

  /** The marker found in an injected page is the one that was there. */
  lemma MarkerStays(page: string, after: string)
    requires HasMarker(page)
    ensures HasMarker(Head(page) + after)
    ensures Head(Head(page) + after) == Head(page)
    ensures TextAfter(Head(page) + after) == DropNewlines(after)
  {
    var i := Find(page, MARKER, 0);
    var n := |MARKER|;
    var s := Head(page) + after;
    assert s[i..i + n] == page[i..i + n];
    forall j: nat | 0 <= j < i ensures !At(s, MARKER, j) {
      assert s[j..j + n] == page[j..j + n];
      assert !At(page, MARKER, j);
    }
    FindIs(s, MARKER, 0, i);
    assert s[i + n..] == after;
  }

  lemma BreakIsDropped(text: string)
    requires text != "" && text[0] != '\n'
    ensures DropNewlines(BREAK + text) == text
  {
    assert (BREAK + text)[1..] == "\n" + text && ("\n" + text)[1..] == text;
    assert DropNewlines("\n" + text) == DropNewlines(text) == text;
  }

  lemma TextAfterInject(page: string, f: seq<Fragment>)
    requires HasMarker(page)
    ensures HasMarker(Inject(page, f).value) && Head(Inject(page, f).value) == Head(page)
    ensures TextAfter(Inject(page, f).value) == UNRELEASED + "\n" + ("\n" + Body(f) + "\n") + "\n" + Tail(page)
  {
    var text := UNRELEASED + "\n" + ("\n" + Body(f) + "\n") + "\n" + Tail(page);
    MarkerStays(page, BREAK + text);
    BreakIsDropped(text);
    SameText(Head(page), Body(f), Tail(page));
  }

  lemma SameText(head: string, body: string, tail: string)
    ensures head + BREAK + (UNRELEASED + BREAK + body) + BREAK + tail
         == head + (BREAK + (UNRELEASED + "\n" + ("\n" + body + "\n") + "\n" + tail))
  {
    assert BREAK == "\n" + "\n";
    var u := UNRELEASED;
    assert head + BREAK + (u + BREAK + body) + BREAK + tail
        == head + (BREAK + (u + "\n" + ("\n" + body + "\n") + "\n" + tail));
  }

  /** What a second injection keeps of the first one. */
  lemma TailAfterInject(page: string, f: seq<Fragment>)
    requires HasMarker(page)
    ensures HasMarker(Inject(page, f).value)
    ensures |Tail(Inject(page, f).value)| <= |Tail(page)|
    ensures Tail(Inject(page, f).value) == Tail(page) <==> Tail(page) == "" || IsReleaseAt(Tail(page), 0)
  {
    var body := "\n" + Body(f) + "\n";
    var front := UNRELEASED + "\n" + body + "\n";
    TextAfterInject(page, f);
    BodyHasNoHeading(f);
    FirstReleaseInRendered(body, Tail(page));
    assert (front + Tail(page))[|front|..] == Tail(page);
    assert UNRELEASED <= front + Tail(page);
  }

  /** The text after the marker is empty or begins with a second-level heading. */
  predicate StartsWithHeading(page: string)
    requires HasMarker(page)
  {
    TextAfter(page) == "" || StartsWith(TextAfter(page), HEADING)
  }

  lemma TailStartsWithRelease(page: string)
    requires HasMarker(page)
    ensures StartsWithHeading(page) <==> Tail(page) == "" || IsReleaseAt(Tail(page), 0)
  {
    var text := TextAfter(page);
    UnreleasedHeading(text);
    if StartsWith(text, UNRELEASED) {
      var i := FirstRelease(text, 0);
      var tail := text[i..];
      assert text == text[..i] + tail;
      AtShifted(text[..i], tail, HEADING, 0);
      AtShifted(text[..i], tail, "Unreleased", 3);
    }
  }

  /** Injecting twice is injecting once, for all fragment lists, exactly on the pages whose text after
      the marker is empty or begins with a heading. */
  lemma InjectingTwiceIsInjectingOnce(page: string, f: seq<Fragment>, g: seq<Fragment>)
    requires HasMarker(page)
    ensures Inject(Inject(page, f).value, g) == Inject(page, g) <==> StartsWithHeading(page)
  {
    TextAfterInject(page, f);
    TailAfterInject(page, f);
    TailStartsWithRelease(page);
    var front := Head(page) + BREAK + RenderUnreleased(g) + BREAK;
    assert Inject(page, g).value == front + Tail(page);
    assert Inject(Inject(page, f).value, g).value == front + Tail(Inject(page, f).value);
    if Tail(Inject(page, f).value) != Tail(page) {
      assert (front + Tail(page))[|front|..] == Tail(page);
      assert (front + Tail(Inject(page, f).value))[|front|..] == Tail(Inject(page, f).value);
    }
  }

  /** A page on which injecting twice differs: any note right under the marker that is no heading. The first
      injection puts it under the unreleased heading, and the second drops it. */
  lemma NoteUnderTheMarkerIsDropped(note: string, f: seq<Fragment>, g: seq<Fragment>)
    requires note != "" && note[0] != '\n' && !StartsWith(note, HEADING)
    ensures
      var page := MARKER + (BREAK + note);
      HasMarker(page) && Inject(Inject(page, f).value, g) != Inject(page, g)
  {
    var page := MARKER + (BREAK + note);
    assert page[0..0 + |MARKER|] == MARKER;
    FindIs(page, MARKER, 0, 0);
    assert page[|MARKER|..] == BREAK + note;
    BreakIsDropped(note);
    assert DropNewlines(note) == note;
    InjectingTwiceIsInjectingOnce(page, f, g);
  }

  /** Older text is kept verbatim: the page up to the marker stays, and of what follows only a rendered
      unreleased block goes, which holds no release heading. */
  lemma OlderReleasesAreKept(page: string, f: seq<Fragment>)
    requires HasMarker(page)
    ensures Inject(page, f).Ok?
    ensures Head(page) <= Inject(page, f).value && Head(page) <= page
    ensures exists cut: nat | cut <= |TextAfter(page)| ::
      && Tail(page) == TextAfter(page)[cut..]
      && Inject(page, f).value[|Inject(page, f).value| - |Tail(page)|..] == TextAfter(page)[cut..]
      && (forall i | 0 <= i < cut :: !IsReleaseAt(TextAfter(page), i))
      && (cut > 0 ==> StartsWith(TextAfter(page), UNRELEASED))
  {
    var text := TextAfter(page);
    var cut := if StartsWith(text, UNRELEASED) then FirstRelease(text, 0) else 0;
    assert Tail(page) == text[cut..];
    var front := Head(page) + BREAK + RenderUnreleased(f) + BREAK;
    assert (front + Tail(page))[|front|..] == Tail(page);
  }

  // --- The order of a section ---------------------------------------------------------------

  lemma {:induction false} InsertKeepsAll(f: Fragment, sorted: seq<Fragment>)
    ensures multiset(Insert(f, sorted)) == multiset(sorted) + multiset{f}
  {
    if sorted != [] && !SortsBefore(f, sorted[0]) {
      InsertKeepsAll(f, sorted[1..]);
      assert sorted == [sorted[0]] + sorted[1..];
    }
  }

  lemma {:induction false} InsertKeepsOrder(f: Fragment, sorted: seq<Fragment>)
    requires forall i, j | 0 <= i < j < |sorted| :: SortsBefore(sorted[i], sorted[j])
    ensures forall i, j | 0 <= i < j < |Insert(f, sorted)| :: SortsBefore(Insert(f, sorted)[i], Insert(f, sorted)[j])
    ensures forall g | g in Insert(f, sorted) :: g == f || g in sorted
  {
    if sorted != [] && !SortsBefore(f, sorted[0]) {
      InsertKeepsOrder(f, sorted[1..]);
      var rest := Insert(f, sorted[1..]);
      forall g | g in rest ensures SortsBefore(sorted[0], g) && (g == f || g in sorted) {
        assert g == f || g in sorted[1..];
      }
      assert forall i | 0 <= i < |rest| :: rest[i] in rest;
    }
  }

  lemma InsertKeeps(f: Fragment, sorted: seq<Fragment>)
    requires forall i, j | 0 <= i < j < |sorted| :: SortsBefore(sorted[i], sorted[j])
    ensures multiset(Insert(f, sorted)) == multiset(sorted) + multiset{f}
    ensures forall i, j | 0 <= i < j < |Insert(f, sorted)| :: SortsBefore(Insert(f, sorted)[i], Insert(f, sorted)[j])
  {
    InsertKeepsAll(f, sorted);
    InsertKeepsOrder(f, sorted);
  }

  /** The list of a section is ordered, newest number first, and holds the same fragments. */
  lemma {:induction false} SortedIsAPermutation(fragments: seq<Fragment>)
    ensures multiset(Sorted(fragments)) == multiset(fragments)
    ensures forall i, j | 0 <= i < j < |Sorted(fragments)| :: SortsBefore(Sorted(fragments)[i], Sorted(fragments)[j])
    ensures forall f, g :: SortsBefore(f, g) <==> f.number > g.number || (f.number == g.number && f.suffix <= g.suffix)
  {
    if fragments != [] {
      SortedIsAPermutation(fragments[1..]);
      InsertKeeps(fragments[0], Sorted(fragments[1..]));
      assert fragments == [fragments[0]] + fragments[1..];
    }
  }

  lemma {:induction false} OfSectionHas(fragments: seq<Fragment>, f: Fragment)
    requires f in fragments
    ensures f in OfSection(fragments, f.section)
  {
    if f != fragments[0] {
      OfSectionHas(fragments[1..], f);
    }
  }

  // --- Assembling a release ---------------------------------------------------------------

  predicate IsWordChar(c: char) {
    '0' <= c <= '9' || 'a' <= c <= 'z' || 'A' <= c <= 'Z' || c == '_'
  }

  /** X.Y.Z, with an optional leading v. */
  predicate IsVersion(s: string) {
    var digits := if StartsWith(s, "v") then s[1..] else s;
    exists i, j | 0 <= i < j < |digits| :: ThreeNumbers(digits, i, j)
  }

  /** Numbers before, between and after the dots at `i` and `j`. */
  predicate ThreeNumbers(s: string, i: nat, j: nat)
    requires i < j < |s|
  {
    s[i] == '.' && s[j] == '.' && IsNumeral(s[..i]) && IsNumeral(s[i + 1..j]) && IsNumeral(s[j + 1..])
  }

  /** YYYY-MM-DD. */
  predicate IsDate(s: string) {
    && |s| == 10 && s[4] == '-' && s[7] == '-'
    && IsNumeral(s[..4]) && IsNumeral(s[5..7]) && IsNumeral(s[8..])
  }

  function WithV(version: string): string {
    if StartsWith(version, "v") then version else "v" + version
  }

  /** A line of the text starts with the version's heading, and the version ends there. */
  predicate HasSection(text: string, version: string) {
    exists i | 0 <= i < |text| ::
      && LineStart(text, i)
      && At(text, HEADING + version, i)
      && (i + |HEADING + version| < |text| ==> !IsWordChar(text[i + |HEADING + version|]))
  }

  const DASH := " \U{2014} "

  /** The page after a release, or why there is none. */
  function AssembledPage(page: string, fragments: seq<Fragment>, version: string, date: string): Result<string> {
    if !IsVersion(version) then Err(BadVersion)
    else if !IsDate(date) then Err(BadDate)
    else if fragments == [] then Err(NothingToAssemble)
    else if !HasMarker(page) then Err(NoMarker)
    else if HasSection(Tail(page), WithV(version)) then Err(VersionExists)
    else
      var heading := HEADING + WithV(version) + DASH + date;
      Ok(Head(page) + BREAK + (heading + BREAK + RenderSections(fragments)) + BREAK + Tail(page))
  }

  /** The changelog page and the directory of fragments on disk. */
  class Repository {
    var page: string
    var fragments: seq<Fragment>

    constructor (page: string, fragments: seq<Fragment>)
      ensures this.page == page && this.fragments == fragments
    {
      this.page := page;
      this.fragments := fragments;
    }

    /** Moves every fragment into a release section, or changes nothing. */
    method Assemble(version: string, date: string) returns (r: Result<string>)
      modifies this
      ensures r.Ok? <==>
                && IsVersion(version) && IsDate(date) && old(fragments) != [] && HasMarker(old(page))
                && !HasSection(Tail(old(page)), WithV(version))
      ensures AssembledPage(old(page), old(fragments), version, date).Ok? ==>
                && r == Ok(HEADING + WithV(version) + DASH + date)
                && page == AssembledPage(old(page), old(fragments), version, date).value
                && fragments == []
      ensures AssembledPage(old(page), old(fragments), version, date).Err? ==>
                && r.Err? && r.error == AssembledPage(old(page), old(fragments), version, date).error
                && page == old(page) && fragments == old(fragments)
    {
      if !IsVersion(version) { return Err(BadVersion); }
      if !IsDate(date) { return Err(BadDate); }
      if fragments == [] { return Err(NothingToAssemble); }
      if !HasMarker(page) { return Err(NoMarker); }
      var (head, tail) := (Head(page), Tail(page));
      var heading := HEADING + WithV(version) + DASH + date;
      if HasSection(tail, WithV(version)) { return Err(VersionExists); }
      var section := heading + BREAK + RenderSections(fragments);
      page := head + BREAK + section + BREAK + tail;
      fragments := [];
      return Ok(heading);
    }
  }

  /** Assembling works on a page that was previewed in place: the preview leaves no trace. */
  lemma PreviewLeavesNoTrace(page: string, preview: seq<Fragment>, fragments: seq<Fragment>, version: string, date: string)
    requires HasMarker(page) && StartsWithHeading(page)
    ensures AssembledPage(Inject(page, preview).value, fragments, version, date) == AssembledPage(page, fragments, version, date)
  {
    TextAfterInject(page, preview);
    TailAfterInject(page, preview);
    TailStartsWithRelease(page);
  }

  lemma VersionHeading(version: string, rest: string)
    requires rest != "" && !IsWordChar(rest[0])
    ensures
      var text := HEADING + WithV(version) + rest;
      && text != "" && text[0] == '#' && HEADING <= text
      && CutUnreleased(text) == text
      && HasSection(text, WithV(version))
  {
    var v := WithV(version);
    var text := HEADING + v + rest;
    assert text[3] == v[0] == 'v' && UNRELEASED[3] == 'U';
    assert At(text, HEADING + v, 0) && text[|HEADING + v|] == rest[0];
    assert LineStart(text, 0);
  }

  /** What a released page holds after the marker: the new section, then the older text. */
  function ReleasedText(page: string, fragments: seq<Fragment>, version: string, date: string): string
    requires HasMarker(page)
  {
    HEADING + WithV(version) + (DASH + date + BREAK + RenderSections(fragments) + BREAK + Tail(page))
  }

  lemma AssembledForm(page: string, fragments: seq<Fragment>, version: string, date: string)
    requires AssembledPage(page, fragments, version, date).Ok?
    ensures AssembledPage(page, fragments, version, date).value
         == Head(page) + (BREAK + ReleasedText(page, fragments, version, date))
  {
    var (h, v, s, t) := (Head(page), WithV(version), RenderSections(fragments), Tail(page));
    AssociateRelease(h, BREAK, HEADING, v, DASH, date, s, t);
  }

  lemma AssociateRelease(h: string, b: string, heading: string, v: string, dash: string, date: string, s: string, t: string)
    ensures h + b + (heading + v + dash + date + b + s) + b + t
         == h + (b + (heading + v + (dash + date + b + s + b + t)))
  {
  }

  /** The new section comes first after the marker, and the older text is kept verbatim behind it. */
  lemma AssembledTail(page: string, fragments: seq<Fragment>, version: string, date: string)
    requires AssembledPage(page, fragments, version, date).Ok?
    ensures
      var page' := AssembledPage(page, fragments, version, date).value;
      && HasMarker(page') && Head(page') == Head(page)
      && TextAfter(page') == Tail(page') == ReleasedText(page, fragments, version, date)
  {
    var rest := DASH + date + BREAK + RenderSections(fragments) + BREAK + Tail(page);
    AssembledForm(page, fragments, version, date);
    assert rest[0] == ' ';
    VersionHeading(version, rest);
    MarkerStays(page, BREAK + ReleasedText(page, fragments, version, date));
    BreakIsDropped(ReleasedText(page, fragments, version, date));
  }

  /** After a release, injecting is idempotent again, and the same version cannot be released twice. */
  lemma AfterARelease(page: string, fragments: seq<Fragment>, version: string, date: string, more: seq<Fragment>, date': string)
    requires AssembledPage(page, fragments, version, date).Ok?
    requires IsDate(date') && more != []
    ensures
      var page' := AssembledPage(page, fragments, version, date).value;
      && HasMarker(page') && StartsWithHeading(page')
      && AssembledPage(page', more, version, date') == Err(VersionExists)
  {
    AssembledTail(page, fragments, version, date);
    var rest := DASH + date + BREAK + RenderSections(fragments) + BREAK + Tail(page);
    assert rest[0] == ' ';
    VersionHeading(version, rest);
  }
}
