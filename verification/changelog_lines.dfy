/** The rendered changelog line by line: every line of every fragment stands in it, under its section's
    title and in release order, and nothing else does. */
module ChangelogLines {
  import opened Text
  import opened Changelog

  // --- Lines of texts put together ------------------------------------------------------------

  /** The lines of a text with one more character in front. */
  function Prepend(c: char, lines: seq<string>): seq<string>
    requires lines != []
  {
    if c == '\n' then [[]] + lines else [[c] + lines[0]] + lines[1..]
  }

  lemma LinesOfMore(c: char, s: string)
    ensures Lines([c] + s) == Prepend(c, Lines(s))
  {
    assert ([c] + s)[1..] == s;
  }

  lemma PrependToFirst(c: char, a: seq<string>, b: seq<string>)
    requires a != []
    ensures Prepend(c, a + b) == Prepend(c, a) + b
  {
  }

  lemma {:induction false} LinesOfBreak(a: string, b: string)
    ensures Lines(a + "\n" + b) == Lines(a) + Lines(b)
  {
    if a == [] {
      assert a + "\n" + b == ['\n'] + b;
      LinesOfMore('\n', b);
    } else {
      var (c, rest) := (a[0], a[1..]);
      LinesOfBreak(rest, b);
      assert a == [c] + rest && a + "\n" + b == [c] + (rest + "\n" + b);
      LinesOfMore(c, rest);
      LinesOfMore(c, rest + "\n" + b);
      PrependToFirst(c, Lines(rest), Lines(b));
    }
  }

  lemma {:induction false} OneLineOnly(s: string)
    requires '\n' !in s
    ensures Lines(s) == [s]
  {
    if s != [] {
      OneLineOnly(s[1..]);
      assert [s[0]] + s[1..] == s;
    }
  }

  lemma LinesOfEmptyLine(a: string, b: string)
    ensures Lines(a + BREAK + b) == Lines(a) + [""] + Lines(b)
  {
    assert a + BREAK + b == a + "\n" + ([] + "\n" + b);
    LinesOfBreak(a, [] + "\n" + b);
    LinesOfBreak([], b);
  }

  lemma {:induction false} LinesOfJoin(parts: seq<string>)
    requires parts != [] && forall i | 0 <= i < |parts| :: '\n' !in parts[i]
    ensures Lines(Join("\n", parts)) == parts
  {
    OneLineOnly(parts[0]);
    if |parts| > 1 {
      LinesOfJoin(parts[1..]);
      LinesOfBreak(parts[0], Join("\n", parts[1..]));
    }
  }

  // --- A bullet -------------------------------------------------------------------------------

  /** The k-th line of a bullet whose k-th line of text is `line`. */
  function BulletLine(line: string, k: nat): string {
    if k == 0 then "- " + line else if IsBlank(line) then "" else "  " + line
  }

  /** The lines of a bullet with this text. */
  function BulletLines(body: string): seq<string> {
    seq(|Lines(body)|, i requires 0 <= i < |Lines(body)| => BulletLine(Lines(body)[i], i))
  }

  /** From line `from` on the lines are those of `part`. */
  ghost predicate Holds(lines: seq<string>, from: nat, part: seq<string>) {
    from + |part| <= |lines| && forall i {:trigger part[i]} | 0 <= i < |part| :: lines[from + i] == part[i]
  }

  /** From line `k` on the lines are those of the bullet. */
  ghost predicate StandsAt(lines: seq<string>, k: nat, body: string) { Holds(lines, k, BulletLines(body)) }

  lemma PartsAreLines(lines: seq<string>)
    requires lines != [] && forall k | 0 <= k < |lines| :: '\n' !in lines[k]
    ensures Lines(Join("\n", ["- " + lines[0]] + IndentLines(lines[1..]))) == ["- " + lines[0]] + IndentLines(lines[1..])
  {
    var parts := ["- " + lines[0]] + IndentLines(lines[1..]);
    forall i | 0 <= i < |parts| ensures '\n' !in parts[i] {
      if i > 0 {
        assert parts[i] == IndentLine(lines[i]);
      }
    }
    LinesOfJoin(parts);
  }

  /** A bullet has the lines of its text: a dash before the first, two blanks before the others, and nothing
      for a blank one. */
  lemma BulletByLines(body: string)
    ensures |Lines(Bullet(body))| == |Lines(body)|
    ensures Lines(Bullet(body))[0] == "- " + Lines(body)[0]
    ensures forall k | 0 < k < |Lines(body)| ::
      Lines(Bullet(body))[k] == if IsBlank(Lines(body)[k]) then "" else "  " + Lines(body)[k]
    ensures Lines(Bullet(body)) == BulletLines(body)
  {
    LinesHaveNoNewline(body);
    PartsAreLines(Lines(body));
  }

  // --- The rendered text, line by line ----------------------------------------------------------

  function ListLines(chosen: seq<Fragment>): seq<string> {
    if chosen == [] then [] else Lines(Bullet(chosen[0].body)) + ListLines(chosen[1..])
  }

  function BlockLines(s: Section, chosen: seq<Fragment>): seq<string> {
    ["### " + Title(s), ""] + ListLines(chosen)
  }

  /** Blocks of lines with an empty line between any two. */
  function Spaced(blocks: seq<seq<string>>): seq<string> {
    if blocks == [] then []
    else if |blocks| == 1 then blocks[0]
    else blocks[0] + [""] + Spaced(blocks[1..])
  }

  lemma {:induction false} LinesOfList(chosen: seq<Fragment>)
    requires chosen != []
    ensures Lines(Join("\n", Bullets(chosen))) == ListLines(chosen)
  {
    var bullets := Bullets(chosen);
    assert bullets[0] == Bullet(chosen[0].body) && bullets[1..] == Bullets(chosen[1..]);
    if |chosen| > 1 {
      LinesOfList(chosen[1..]);
      LinesOfBreak(bullets[0], Join("\n", bullets[1..]));
    } else {
      assert chosen[1..] == [];
      assert Join("\n", bullets) == bullets[0];
    }
  }

  lemma TitleIsOneLine(s: Section)
    ensures Lines("### " + Title(s)) == ["### " + Title(s)]
  {
    OneLineOnly("### " + Title(s));
  }

  lemma LinesUnderTitle(title: string, text: string, list: seq<string>)
    requires Lines(title) == [title] && Lines(text) == list
    ensures Lines(title + BREAK + text) == [title, ""] + list
  {
    LinesOfEmptyLine(title, text);
  }

  lemma LinesOfBlock(s: Section, chosen: seq<Fragment>)
    requires chosen != []
    ensures Lines(SectionBlock(s, chosen)) == BlockLines(s, chosen)
  {
    LinesOfList(chosen);
    TitleIsOneLine(s);
    LinesUnderTitle("### " + Title(s), Join("\n", Bullets(chosen)), ListLines(chosen));
  }

  /** The sections' lists in release order, without the empty ones. */
  function Chosen(fragments: seq<Fragment>, s: Section): seq<Fragment> { Sorted(OfSection(fragments, s)) }

  function LineBlock(fragments: seq<Fragment>, s: Section): seq<seq<string>> {
    if Chosen(fragments, s) == [] then [] else [BlockLines(s, Chosen(fragments, s))]
  }

  function LineBlocks(fragments: seq<Fragment>, sections: seq<Section>): seq<seq<string>> {
    if sections == [] then []
    else
      LineBlock(fragments, sections[0]) + LineBlocks(fragments, sections[1..])
  }

  function Cut(blocks: seq<string>): seq<seq<string>> {
    seq(|blocks|, i requires 0 <= i < |blocks| => Lines(blocks[i]))
  }

  lemma {:induction false} LinesOfSpaced(blocks: seq<string>)
    requires blocks != []
    ensures Lines(Join(BREAK, blocks)) == Spaced(Cut(blocks))
  {
    if |blocks| > 1 {
      LinesOfSpaced(blocks[1..]);
      LinesOfEmptyLine(blocks[0], Join(BREAK, blocks[1..]));
      assert Cut(blocks)[1..] == Cut(blocks[1..]);
    }
  }

  lemma Associate<T>(a: seq<T>, b: seq<T>, c: seq<T>)
    ensures a + (b + c) == a + b + c
  {
  }

  lemma LineBlocksOfMore(fragments: seq<Fragment>, s: Section, rest: seq<Section>)
    ensures LineBlocks(fragments, [s] + rest) == LineBlock(fragments, s) + LineBlocks(fragments, rest)
  {
    assert ([s] + rest)[1..] == rest;
  }

  lemma FirstApart<T>(a: seq<T>, b: seq<T>)
    requires a != []
    ensures a == [a[0]] + a[1..] && a + b == [a[0]] + (a[1..] + b)
  {
  }

  lemma {:induction false} LineBlocksOfAll(fragments: seq<Fragment>, a: seq<Section>, b: seq<Section>)
    ensures LineBlocks(fragments, a + b) == LineBlocks(fragments, a) + LineBlocks(fragments, b)
  {
    if a == [] {
      assert a + b == b;
      assert [] + LineBlocks(fragments, b) == LineBlocks(fragments, b);
    } else {
      var (s, rest) := (a[0], a[1..]);
      LineBlocksOfAll(fragments, rest, b);
      FirstApart(a, b);
      LineBlocksOfMore(fragments, s, rest);
      LineBlocksOfMore(fragments, s, rest + b);
      Associate(LineBlock(fragments, s), LineBlocks(fragments, rest), LineBlocks(fragments, b));
    }
  }

  lemma CutOfAll(a: seq<string>, b: seq<string>)
    ensures Cut(a + b) == Cut(a) + Cut(b)
  {
  }

  lemma CutOfBlock(fragments: seq<Fragment>, s: Section)
    ensures Cut(BlockOf(fragments, s)) == LineBlock(fragments, s)
  {
    if Chosen(fragments, s) != [] {
      LinesOfBlock(s, Chosen(fragments, s));
    }
  }

  lemma {:induction false} CutOfBlocks(fragments: seq<Fragment>, sections: seq<Section>)
    ensures Cut(Blocks(fragments, sections)) == LineBlocks(fragments, sections)
  {
    if sections != [] {
      var (front, last) := (sections[..|sections| - 1], sections[|sections| - 1]);
      CutOfBlocks(fragments, front);
      CutOfBlock(fragments, last);
      CutOfAll(Blocks(fragments, front), BlockOf(fragments, last));
      LineBlocksOfAll(fragments, front, [last]);
      LineBlocksOfMore(fragments, last, []);
      assert [last] + [] == [last];
      assert LineBlock(fragments, last) + [] == LineBlock(fragments, last);
      assert front + [last] == sections;
    }
  }

  lemma RenderedByLines(fragments: seq<Fragment>)
    requires Blocks(fragments, SECTIONS) != []
    ensures Lines(RenderSections(fragments)) == Spaced(LineBlocks(fragments, SECTIONS))
  {
    LinesOfSpaced(Blocks(fragments, SECTIONS));
    CutOfBlocks(fragments, SECTIONS);
  }

  // --- Where things stand -----------------------------------------------------------------------

  lemma HoldsWithin(lines: seq<string>, from: nat, part: seq<string>, k: nat, inner: seq<string>)
    requires Holds(lines, from, part) && Holds(part, k, inner)
    ensures Holds(lines, from + k, inner)
  {
    forall i {:trigger inner[i]} | 0 <= i < |inner| ensures lines[from + k + i] == inner[i] {
      assert lines[from + (k + i)] == part[k + i];
    }
  }

  lemma HoldsBetween(front: seq<string>, part: seq<string>, back: seq<string>)
    ensures Holds(front + part + back, |front|, part)
  {
  }

  lemma {:induction false} ListLinesOfAll(a: seq<Fragment>, b: seq<Fragment>)
    ensures ListLines(a + b) == ListLines(a) + ListLines(b)
  {
    if a == [] {
      assert a + b == b;
    } else {
      ListLinesOfAll(a[1..], b);
      assert (a + b)[0] == a[0] && (a + b)[1..] == a[1..] + b;
      Associate(Lines(Bullet(a[0].body)), ListLines(a[1..]), ListLines(b));
    }
  }

  lemma ListParts(chosen: seq<Fragment>, j: nat)
    requires j < |chosen|
    ensures ListLines(chosen) == ListLines(chosen[..j]) + Lines(Bullet(chosen[j].body)) + ListLines(chosen[j + 1..])
  {
    assert chosen == chosen[..j] + chosen[j..] && chosen[j..][0] == chosen[j] && chosen[j..][1..] == chosen[j + 1..];
    ListLinesOfAll(chosen[..j], chosen[j..]);
    Associate(ListLines(chosen[..j]), Lines(Bullet(chosen[j].body)), ListLines(chosen[j + 1..]));
  }

  lemma ListHas(chosen: seq<Fragment>, j: nat)
    requires j < |chosen|
    ensures StandsAt(ListLines(chosen), |ListLines(chosen[..j])|, chosen[j].body)
  {
    BulletByLines(chosen[j].body);
    ListParts(chosen, j);
    HoldsBetween(ListLines(chosen[..j]), BulletLines(chosen[j].body), ListLines(chosen[j + 1..]));
  }

  /** The bullets of a list stand one after the other. */
  lemma ListInOrder(chosen: seq<Fragment>, i: nat, j: nat)
    requires i < j < |chosen|
    ensures |ListLines(chosen[..i])| + |Lines(chosen[i].body)| <= |ListLines(chosen[..j])|
  {
    var front := chosen[..j];
    ListParts(front, i);
    BulletByLines(front[i].body);
    assert front[..i] == chosen[..i];
  }

  /** The line at which a block begins. */
  function BlockStart(blocks: seq<seq<string>>, b: nat): nat
    requires b < |blocks|
  {
    if b == 0 then 0 else |blocks[0]| + 1 + BlockStart(blocks[1..], b - 1)
  }

  lemma SliceAfter<T>(front: seq<T>, rest: seq<T>, i: nat, n: nat)
    requires i + n <= |rest|
    ensures (front + rest)[|front| + i..|front| + i + n] == rest[i..i + n]
  {
  }

  lemma {:induction false} BlockIsThere(blocks: seq<seq<string>>, b: nat)
    requires b < |blocks|
    ensures BlockStart(blocks, b) + |blocks[b]| <= |Spaced(blocks)|
    ensures Spaced(blocks)[BlockStart(blocks, b)..BlockStart(blocks, b) + |blocks[b]|] == blocks[b]
  {
    if b > 0 {
      BlockIsThere(blocks[1..], b - 1);
      SliceAfter(blocks[0] + [""], Spaced(blocks[1..]), BlockStart(blocks[1..], b - 1), |blocks[b]|);
    }
  }

  lemma {:induction false} BlocksInOrder(blocks: seq<seq<string>>, a: nat, b: nat)
    requires a < b < |blocks|
    ensures BlockStart(blocks, a) + |blocks[a]| <= BlockStart(blocks, b)
  {
    if a > 0 {
      BlocksInOrder(blocks[1..], a - 1, b - 1);
    }
  }

  // --- The sections -----------------------------------------------------------------------------

  /** The release order of the sections. */
  function Rank(s: Section): (r: nat)
    ensures r < |SECTIONS| && SECTIONS[r] == s
  {
    match s
    case Breaking => 0
    case Security => 1
    case Added => 2
    case Changed => 3
    case Fixed => 4
  }

  /** The number of blocks before that of a section. */
  function BlockIndex(fragments: seq<Fragment>, s: Section): nat { |LineBlocks(fragments, SECTIONS[..Rank(s)])| }

  lemma SectionBlockIsThere(fragments: seq<Fragment>, s: Section)
    requires Chosen(fragments, s) != []
    ensures BlockIndex(fragments, s) < |LineBlocks(fragments, SECTIONS)|
    ensures LineBlocks(fragments, SECTIONS)[BlockIndex(fragments, s)] == BlockLines(s, Chosen(fragments, s))
  {
    SectionBlockIsIn(fragments, SECTIONS, Rank(s));
  }

  lemma SectionBlockIsIn(fragments: seq<Fragment>, sections: seq<Section>, r: nat)
    requires r < |sections| && Chosen(fragments, sections[r]) != []
    ensures |LineBlocks(fragments, sections[..r])| < |LineBlocks(fragments, sections)|
    ensures LineBlocks(fragments, sections)[|LineBlocks(fragments, sections[..r])|]
         == BlockLines(sections[r], Chosen(fragments, sections[r]))
  {
    var (front, back) := (sections[..r], sections[r..]);
    assert sections == front + back && back[0] == sections[r];
    LineBlocksOfAll(fragments, front, back);
  }

  lemma SectionsInOrder(fragments: seq<Fragment>, s: Section, t: Section)
    requires Rank(s) < Rank(t) && Chosen(fragments, s) != []
    ensures BlockIndex(fragments, s) < BlockIndex(fragments, t)
  {
    SectionBlockIsIn(fragments, SECTIONS[..Rank(t)], Rank(s));
    assert SECTIONS[..Rank(t)][..Rank(s)] == SECTIONS[..Rank(s)];
  }

  /** The line of a section's title. */
  function TitleLine(fragments: seq<Fragment>, s: Section): nat
    requires Chosen(fragments, s) != []
  {
    SectionBlockIsThere(fragments, s);
    BlockStart(LineBlocks(fragments, SECTIONS), BlockIndex(fragments, s))
  }

  /** A title, an empty line and a list of lines stand from line `start` on. */
  ghost predicate BlockAt(lines: seq<string>, start: nat, title: string, list: seq<string>) {
    start + 2 <= |lines| && lines[start] == title && lines[start + 1] == "" && Holds(lines, start + 2, list)
  }

  lemma BlockStandsIn(blocks: seq<seq<string>>, b: nat, title: string, list: seq<string>)
    requires b < |blocks| && blocks[b] == [title, ""] + list
    ensures BlockAt(Spaced(blocks), BlockStart(blocks, b), title, list)
  {
    BlockIsThere(blocks, b);
    BlockInParts(Spaced(blocks), BlockStart(blocks, b), title, list);
  }

  function Rendered(fragments: seq<Fragment>): seq<string> { Lines(RenderSections(fragments)) }

  lemma RenderedIsSpaced(fragments: seq<Fragment>, s: Section)
    requires Chosen(fragments, s) != []
    ensures Rendered(fragments) == Spaced(LineBlocks(fragments, SECTIONS))
  {
    SectionBlockIsThere(fragments, s);
    CutOfBlocks(fragments, SECTIONS);
    RenderedByLines(fragments);
  }

  lemma BlockStands(fragments: seq<Fragment>, s: Section)
    requires Chosen(fragments, s) != []
    ensures BlockAt(Rendered(fragments), TitleLine(fragments, s), "### " + Title(s), ListLines(Chosen(fragments, s)))
  {
    RenderedIsSpaced(fragments, s);
    SectionBlockIsThere(fragments, s);
    var (blocks, b) := (LineBlocks(fragments, SECTIONS), BlockIndex(fragments, s));
    assert blocks[b] == ["### " + Title(s), ""] + ListLines(Chosen(fragments, s));
    BlockStandsIn(blocks, b, "### " + Title(s), ListLines(Chosen(fragments, s)));
  }

  lemma BlockInParts(lines: seq<string>, start: nat, title: string, list: seq<string>)
    requires start + 2 + |list| <= |lines| && lines[start..start + 2 + |list|] == [title, ""] + list
    ensures BlockAt(lines, start, title, list)
  {
    var part := lines[start..start + 2 + |list|];
    assert part[0] == lines[start] && part[1] == lines[start + 1];
    forall i {:trigger list[i]} | 0 <= i < |list| ensures lines[start + 2 + i] == list[i] {
      assert part[i + 2] == list[i];
    }
  }

  lemma BulletLineIsNoTitle(line: string, k: nat)
    ensures !StartsWith(BulletLine(line, k), "#")
  {
    assert k == 0 ==> BulletLine(line, k)[0] == '-';
    assert k > 0 && !IsBlank(line) ==> BulletLine(line, k)[0] == ' ';
  }

  lemma BulletHasNoTitle(body: string)
    ensures forall k | 0 <= k < |Lines(Bullet(body))| :: !StartsWith(Lines(Bullet(body))[k], "#")
  {
    BulletByLines(body);
    forall k: nat | k < |Lines(Bullet(body))| ensures !StartsWith(Lines(Bullet(body))[k], "#") {
      BulletLineIsNoTitle(Lines(body)[k], k);
    }
  }

  /** Only titles begin with a hash. */
  lemma {:induction false} ListHasNoTitle(chosen: seq<Fragment>)
    ensures forall k | 0 <= k < |ListLines(chosen)| :: !StartsWith(ListLines(chosen)[k], "#")
  {
    if chosen != [] {
      ListHasNoTitle(chosen[1..]);
      BulletHasNoTitle(chosen[0].body);
    }
  }

  lemma BulletInList(lines: seq<string>, start: nat, title: string, list: seq<string>, k: nat, body: string)
    requires BlockAt(lines, start, title, list) && StandsAt(list, k, body)
    ensures StandsAt(lines, start + 2 + k, body)
  {
    HoldsWithin(lines, start + 2, list, k, BulletLines(body));
  }

  lemma FragmentIsChosen(fragments: seq<Fragment>, f: Fragment)
    requires f in fragments
    ensures f in Chosen(fragments, f.section)
  {
    OfSectionHas(fragments, f);
    SortedIsAPermutation(OfSection(fragments, f.section));
    assert f in multiset(Chosen(fragments, f.section));
  }

  /** The bullet stands from line `k` on, and the title above it, at line `h`, is this one. */
  ghost predicate StandsUnder(lines: seq<string>, h: nat, k: nat, title: string, body: string) {
    && h + 1 < k < |lines| && lines[h] == title && lines[h + 1] == ""
    && (forall i | h < i < k :: !StartsWith(lines[i], "#"))
    && StandsAt(lines, k, body)
  }

  lemma NoTitlesBetween(lines: seq<string>, start: nat, title: string, list: seq<string>, k: nat)
    requires BlockAt(lines, start, title, list) && k < |list|
    requires forall i | 0 <= i < |list| :: !StartsWith(list[i], "#")
    ensures forall i | start < i < start + 2 + k :: !StartsWith(lines[i], "#")
  {
    forall i | start < i < start + 2 + k ensures !StartsWith(lines[i], "#") {
      if i > start + 1 {
        assert lines[start + 2 + (i - start - 2)] == list[i - start - 2];
      }
    }
  }

  lemma StandsUnderTitle(lines: seq<string>, start: nat, title: string, list: seq<string>, k: nat, body: string)
    requires BlockAt(lines, start, title, list) && StandsAt(list, k, body)
    requires forall i | 0 <= i < |list| :: !StartsWith(list[i], "#")
    ensures StandsUnder(lines, start, start + 2 + k, title, body)
  {
    BulletInList(lines, start, title, list, k, body);
    assert |BulletLines(body)| > 0;
    NoTitlesBetween(lines, start, title, list, k);
  }

  lemma BulletOf(chosen: seq<Fragment>, f: Fragment) returns (k: nat)
    requires f in chosen
    ensures StandsAt(ListLines(chosen), k, f.body)
  {
    var j :| 0 <= j < |chosen| && chosen[j] == f;
    ListHas(chosen, j);
    k := |ListLines(chosen[..j])|;
  }

  /** Every line of every fragment stands in the rendered text, in order and under the section's title. */
  lemma NoFragmentIsLost(fragments: seq<Fragment>, f: Fragment)
    requires f in fragments
    ensures exists h: nat, k: nat :: StandsUnder(Lines(RenderSections(fragments)), h, k, "### " + Title(f.section), f.body)
  {
    FragmentIsChosen(fragments, f);
    var (s, chosen) := (f.section, Chosen(fragments, f.section));
    var k := BulletOf(chosen, f);
    BlockStands(fragments, s);
    ListHasNoTitle(chosen);
    StandsUnderTitle(Rendered(fragments), TitleLine(fragments, s), "### " + Title(s), ListLines(chosen), k, f.body);
  }

  /** Sections in release order; in a section the newest number first, then the counter. */
  predicate ComesFirst(f: Fragment, g: Fragment) {
    || Rank(f.section) < Rank(g.section)
    || (f.section == g.section && (f.number > g.number || (f.number == g.number && f.suffix < g.suffix)))
  }

  /** One bullet stands before the other. */
  ghost predicate StandInOrder(lines: seq<string>, first: string, second: string) {
    exists k: nat, l: nat :: StandsAt(lines, k, first) && StandsAt(lines, l, second) && k + |BulletLines(first)| <= l
  }

  lemma ListStandsInOrder(chosen: seq<Fragment>, i: nat, j: nat)
    requires i < j < |chosen|
    ensures StandInOrder(ListLines(chosen), chosen[i].body, chosen[j].body)
  {
    ListHas(chosen, i);
    ListHas(chosen, j);
    ListInOrder(chosen, i, j);
  }

  lemma StandInOrderWithin(lines: seq<string>, start: nat, title: string, list: seq<string>, first: string, second: string)
    requires BlockAt(lines, start, title, list) && StandInOrder(list, first, second)
    ensures StandInOrder(lines, first, second)
  {
    var k: nat, l: nat :| StandsAt(list, k, first) && StandsAt(list, l, second) && k + |BulletLines(first)| <= l;
    BulletInList(lines, start, title, list, k, first);
    BulletInList(lines, start, title, list, l, second);
  }

  lemma StandInOrderAcross(lines: seq<string>, start: nat, title: string, list: seq<string>, k: nat, first: string,
                           start': nat, title': string, list': seq<string>, l: nat, second: string)
    requires BlockAt(lines, start, title, list) && StandsAt(list, k, first)
    requires BlockAt(lines, start', title', list') && StandsAt(list', l, second)
    requires start + 2 + |list| <= start'
    ensures StandInOrder(lines, first, second)
  {
    BulletInList(lines, start, title, list, k, first);
    BulletInList(lines, start', title', list', l, second);
  }

  lemma TitlesInOrder(fragments: seq<Fragment>, s: Section, t: Section)
    requires Rank(s) < Rank(t) && Chosen(fragments, s) != [] && Chosen(fragments, t) != []
    ensures TitleLine(fragments, s) + 2 + |ListLines(Chosen(fragments, s))| <= TitleLine(fragments, t)
  {
    SectionBlockIsThere(fragments, s);
    SectionBlockIsThere(fragments, t);
    SectionsInOrder(fragments, s, t);
    BlocksInOrder(LineBlocks(fragments, SECTIONS), BlockIndex(fragments, s), BlockIndex(fragments, t));
  }

  lemma SameSectionInOrder(fragments: seq<Fragment>, f: Fragment, g: Fragment)
    requires f in fragments && g in fragments && ComesFirst(f, g) && f.section == g.section
    ensures StandInOrder(Rendered(fragments), f.body, g.body)
  {
    var (s, chosen) := (f.section, Chosen(fragments, f.section));
    FragmentIsChosen(fragments, f);
    FragmentIsChosen(fragments, g);
    SortedIsAPermutation(OfSection(fragments, s));
    var i :| 0 <= i < |chosen| && chosen[i] == f;
    var j :| 0 <= j < |chosen| && chosen[j] == g;
    assert i < j;
    ListStandsInOrder(chosen, i, j);
    BlockStands(fragments, s);
    StandInOrderWithin(Rendered(fragments), TitleLine(fragments, s), "### " + Title(s), ListLines(chosen), f.body, g.body);
  }

  lemma OtherSectionInOrder(fragments: seq<Fragment>, f: Fragment, g: Fragment)
    requires f in fragments && g in fragments && Rank(f.section) < Rank(g.section)
    ensures StandInOrder(Rendered(fragments), f.body, g.body)
  {
    var (s, t) := (f.section, g.section);
    FragmentIsChosen(fragments, f);
    FragmentIsChosen(fragments, g);
    var k := BulletOf(Chosen(fragments, s), f);
    var l := BulletOf(Chosen(fragments, t), g);
    BlockStands(fragments, s);
    BlockStands(fragments, t);
    TitlesInOrder(fragments, s, t);
    StandInOrderAcross(Rendered(fragments),
                       TitleLine(fragments, s), "### " + Title(s), ListLines(Chosen(fragments, s)), k, f.body,
                       TitleLine(fragments, t), "### " + Title(t), ListLines(Chosen(fragments, t)), l, g.body);
  }

  /** The bullets stand in release order. */
  lemma BulletsStandInOrder(fragments: seq<Fragment>, f: Fragment, g: Fragment)
    requires f in fragments && g in fragments && ComesFirst(f, g)
    ensures StandInOrder(Lines(RenderSections(fragments)), f.body, g.body)
  {
    if f.section == g.section {
      SameSectionInOrder(fragments, f, g);
    } else {
      OtherSectionInOrder(fragments, f, g);
    }
  }

  // --- Nothing else is rendered -----------------------------------------------------------------

  function Sum(ns: seq<nat>): nat {
    if ns == [] then 0 else ns[0] + Sum(ns[1..])
  }

  function LineCounts(fragments: seq<Fragment>): seq<nat> {
    seq(|fragments|, i requires 0 <= i < |fragments| => |Lines(fragments[i].body)|)
  }

  /** The lines of all fragments together. */
  function TotalLines(fragments: seq<Fragment>): nat { Sum(LineCounts(fragments)) }

  lemma TotalOfMore(f: Fragment, fragments: seq<Fragment>)
    ensures TotalLines([f] + fragments) == |Lines(f.body)| + TotalLines(fragments)
  {
    assert LineCounts([f] + fragments)[1..] == LineCounts(fragments);
  }

  lemma {:induction false} TotalOfInsert(f: Fragment, sorted: seq<Fragment>)
    ensures TotalLines(Insert(f, sorted)) == |Lines(f.body)| + TotalLines(sorted)
  {
    if sorted == [] || SortsBefore(f, sorted[0]) {
      TotalOfMore(f, sorted);
    } else {
      TotalOfInsert(f, sorted[1..]);
      TotalOfMore(sorted[0], Insert(f, sorted[1..]));
      TotalOfMore(sorted[0], sorted[1..]);
      assert [sorted[0]] + sorted[1..] == sorted;
    }
  }

  lemma {:induction false} TotalOfSorted(fragments: seq<Fragment>)
    ensures TotalLines(Sorted(fragments)) == TotalLines(fragments)
  {
    if fragments != [] {
      TotalOfSorted(fragments[1..]);
      TotalOfInsert(fragments[0], Sorted(fragments[1..]));
      TotalOfMore(fragments[0], fragments[1..]);
      assert [fragments[0]] + fragments[1..] == fragments;
    }
  }

  lemma {:induction false} TotalOfList(chosen: seq<Fragment>)
    ensures |ListLines(chosen)| == TotalLines(chosen)
  {
    if chosen != [] {
      TotalOfList(chosen[1..]);
      BulletByLines(chosen[0].body);
      TotalOfMore(chosen[0], chosen[1..]);
      assert [chosen[0]] + chosen[1..] == chosen;
    }
  }

  function SectionLines(fragments: seq<Fragment>, s: Section): nat { TotalLines(OfSection(fragments, s)) }

  function LinesOfSections(fragments: seq<Fragment>, sections: seq<Section>): nat {
    if sections == [] then 0 else SectionLines(fragments, sections[0]) + LinesOfSections(fragments, sections[1..])
  }

  predicate Distinct(sections: seq<Section>) {
    forall i, j | 0 <= i < j < |sections| :: sections[i] != sections[j]
  }

  lemma SectionLinesOfMore(f: Fragment, rest: seq<Fragment>, s: Section)
    ensures SectionLines([f] + rest, s) == SectionLines(rest, s) + if f.section == s then |Lines(f.body)| else 0
  {
    assert ([f] + rest)[1..] == rest;
    TotalOfMore(f, OfSection(rest, s));
    assert [] + OfSection(rest, s) == OfSection(rest, s);
  }

  lemma {:induction false} LinesOfSectionsOfMore(f: Fragment, rest: seq<Fragment>, sections: seq<Section>)
    requires Distinct(sections)
    ensures LinesOfSections([f] + rest, sections)
         == LinesOfSections(rest, sections) + if f.section in sections then |Lines(f.body)| else 0
  {
    if sections != [] {
      LinesOfSectionsOfMore(f, rest, sections[1..]);
      SectionLinesOfMore(f, rest, sections[0]);
      assert sections == [sections[0]] + sections[1..];
    }
  }

  lemma {:induction false} LinesOfNothing(sections: seq<Section>)
    ensures LinesOfSections([], sections) == 0
  {
    if sections != [] {
      LinesOfNothing(sections[1..]);
    }
  }

  lemma {:induction false} SectionsShareTheLines(fragments: seq<Fragment>)
    ensures TotalLines(fragments) == LinesOfSections(fragments, SECTIONS)
  {
    if fragments == [] {
      LinesOfNothing(SECTIONS);
    } else {
      var (f, rest) := (fragments[0], fragments[1..]);
      SectionsShareTheLines(rest);
      assert [f] + rest == fragments;
      TotalOfMore(f, rest);
      assert SECTIONS[Rank(f.section)] == f.section;
      LinesOfSectionsOfMore(f, rest, SECTIONS);
    }
  }

  function Lengths(blocks: seq<seq<string>>): nat {
    if blocks == [] then 0 else |blocks[0]| + Lengths(blocks[1..])
  }

  lemma {:induction false} SpacedLength(blocks: seq<seq<string>>)
    requires blocks != []
    ensures |Spaced(blocks)| + 1 == Lengths(blocks) + |blocks|
  {
    if |blocks| > 1 {
      SpacedLength(blocks[1..]);
    }
  }

  predicate Shown(fragments: seq<Fragment>, s: Section) { exists f :: f in fragments && f.section == s }

  lemma {:induction false} ShownIffListed(fragments: seq<Fragment>, s: Section)
    ensures OfSection(fragments, s) != [] <==> Shown(fragments, s)
  {
    if fragments != [] {
      ShownIffListed(fragments[1..], s);
      assert fragments[0] in fragments;
      if f :| f in fragments && f.section == s {
        assert f == fragments[0] || f in fragments[1..];
      }
    }
  }

  lemma ShownIffChosen(fragments: seq<Fragment>, s: Section)
    ensures Chosen(fragments, s) != [] <==> Shown(fragments, s)
  {
    ShownIffListed(fragments, s);
    SortedIsAPermutation(OfSection(fragments, s));
    assert |multiset(Chosen(fragments, s))| == |multiset(OfSection(fragments, s))|;
  }

  /** How many of the sections have a fragment. */
  function ShownCount(fragments: seq<Fragment>, sections: seq<Section>): nat {
    if sections == [] then 0
    else (if Shown(fragments, sections[0]) then 1 else 0) + ShownCount(fragments, sections[1..])
  }

  lemma LengthsOfMore(block: seq<seq<string>>, rest: seq<seq<string>>)
    requires |block| <= 1
    ensures Lengths(block + rest) == Lengths(block) + Lengths(rest)
  {
    if block == [] {
      assert block + rest == rest;
    } else {
      assert (block + rest)[1..] == rest && block[1..] == [];
    }
  }

  lemma LengthOfBlock(fragments: seq<Fragment>, s: Section)
    ensures
      var shown := if Shown(fragments, s) then 1 else 0;
      && |LineBlock(fragments, s)| == shown
      && Lengths(LineBlock(fragments, s)) == SectionLines(fragments, s) + 2 * shown
  {
    ShownIffChosen(fragments, s);
    TotalOfList(Chosen(fragments, s));
    TotalOfSorted(OfSection(fragments, s));
    if Shown(fragments, s) {
      assert [BlockLines(s, Chosen(fragments, s))][1..] == [];
    }
  }

  lemma {:induction false} LengthsOfAll(fragments: seq<Fragment>, sections: seq<Section>)
    ensures Lengths(LineBlocks(fragments, sections))
         == LinesOfSections(fragments, sections) + 2 * ShownCount(fragments, sections)
    ensures |LineBlocks(fragments, sections)| == ShownCount(fragments, sections)
  {
    if sections != [] {
      LengthsOfAll(fragments, sections[1..]);
      LengthOfBlock(fragments, sections[0]);
      LengthsOfMore(LineBlock(fragments, sections[0]), LineBlocks(fragments, sections[1..]));
    }
  }

  lemma {:induction false} SomethingIsShown(fragments: seq<Fragment>, sections: seq<Section>, s: Section)
    requires Shown(fragments, s) && s in sections
    ensures ShownCount(fragments, sections) > 0
  {
    if sections[0] != s {
      SomethingIsShown(fragments, sections[1..], s);
    }
  }

  /** Nothing is added: the text has the fragments' lines, a title and an empty line for every section that
      has a fragment, and an empty line between sections. */
  lemma RenderedLineCount(fragments: seq<Fragment>)
    requires fragments != []
    ensures |Lines(RenderSections(fragments))| + 1 == TotalLines(fragments) + 3 * ShownCount(fragments, SECTIONS)
  {
    LengthsOfAll(fragments, SECTIONS);
    SectionsShareTheLines(fragments);
    assert Shown(fragments, fragments[0].section) && SECTIONS[Rank(fragments[0].section)] == fragments[0].section;
    SomethingIsShown(fragments, SECTIONS, fragments[0].section);
    CutOfBlocks(fragments, SECTIONS);
    RenderedByLines(fragments);
    SpacedLength(LineBlocks(fragments, SECTIONS));
  }

  lemma {:induction false} NothingIsShown(sections: seq<Section>)
    ensures Blocks([], sections) == []
  {
    if sections != [] {
      NothingIsShown(sections[..|sections| - 1]);
    }
  }

  lemma SomethingRenders(fragments: seq<Fragment>)
    requires fragments != []
    ensures RenderSections(fragments) != ""
  {
    var s := fragments[0].section;
    assert Shown(fragments, s);
    ShownIffChosen(fragments, s);
    BlockStands(fragments, s);
    assert Lines("") == [""];
  }

  /** The section between the marker and the older text holds the fragments, or says that there are none. */
  lemma InjectedText(page: string, fragments: seq<Fragment>)
    requires HasMarker(page)
    ensures Inject(page, fragments).Ok?
    ensures Inject(page, fragments).value ==
      Head(page) + BREAK
      + (UNRELEASED + BREAK + if fragments == [] then EMPTY_UNRELEASED else RenderSections(fragments))
      + BREAK + Tail(page)
  {
    if fragments == [] {
      NothingIsShown(SECTIONS);
    } else {
      SomethingRenders(fragments);
    }
  }

  // --- When a release is refused ----------------------------------------------------------------

  /** A version is three numbers with dots between them, after a letter v or none. */
  lemma VersionForm(a: string, b: string, c: string)
    requires IsNumeral(a) && IsNumeral(b) && IsNumeral(c)
    ensures IsVersion(a + "." + b + "." + c) && IsVersion("v" + (a + "." + b + "." + c))
    ensures WithV(a + "." + b + "." + c) == WithV("v" + (a + "." + b + "." + c)) == "v" + (a + "." + b + "." + c)
  {
    var s := a + "." + b + "." + c;
    var (i, j) := (|a|, |a| + 1 + |b|);
    assert s[0] == a[0] != 'v' && ("v" + s)[1..] == s;
    assert s[i] == '.' && s[j] == '.' && s[..i] == a && s[i + 1..j] == b && s[j + 1..] == c;
    assert ThreeNumbers(s, i, j);
    assert ThreeNumbers(("v" + s)[1..], i, j);
  }

  /** The two dots of a version with a leading v. */
  ghost predicate DotsAt(s: string, i: nat, j: nat) {
    && 0 < i < j && j + 1 < |s| && s[i] == '.' && s[j] == '.'
    && forall k | 0 < k < |s| && k != i && k != j :: IsDigit(s[k])
  }

  lemma NumbersAreDigits(s: string, i: nat, j: nat)
    requires i < j < |s| && ThreeNumbers(s, i, j)
    ensures s[i] == '.' && s[j] == '.' && 0 < i && j + 1 < |s|
    ensures forall k | 0 <= k < |s| && k != i && k != j :: IsDigit(s[k])
  {
    forall k | 0 <= k < |s| && k != i && k != j ensures IsDigit(s[k]) {
      if k < i {
        assert s[k] == s[..i][k];
      } else if k < j {
        assert s[k] == s[i + 1..j][k - i - 1];
      } else {
        assert s[k] == s[j + 1..][k - j - 1];
      }
    }
  }

  lemma VersionDots(s: string)
    requires IsVersion(s) && StartsWith(s, "v")
    ensures exists i: nat, j: nat :: DotsAt(s, i, j)
  {
    var digits := s[1..];
    var a, b :| 0 <= a < b < |digits| && ThreeNumbers(digits, a, b);
    var i, j := a + 1, b + 1;
    NumbersAreDigits(digits, a, b);
    forall k | 0 < k < |s| && k != i && k != j ensures IsDigit(s[k]) {
      assert s[k] == digits[k - 1];
    }
    assert DotsAt(s, i, j);
  }

  /** A version that goes on where another one ends goes on with a digit. */
  lemma LongerVersion(v: string, w: string)
    requires IsVersion(v) && IsVersion(w) && StartsWith(v, "v") && StartsWith(w, "v")
    requires v <= w && v != w
    ensures IsDigit(w[|v|])
  {
    VersionDots(v);
    VersionDots(w);
    var i: nat, j: nat :| DotsAt(v, i, j);
    var k: nat, l: nat :| DotsAt(w, k, l);
    assert w[i] == v[i] && w[j] == v[j] && !IsDigit('.');
    assert i == k || i == l;
    assert j == l;
  }

  lemma OwnSection(v: string, rest: string)
    requires rest != "" && !IsWordChar(rest[0])
    ensures HasSection(HEADING + v + rest, v)
  {
    var text := HEADING + v + rest;
    assert text[|HEADING + v|] == rest[0];
    assert LineStart(text, 0) && At(text, HEADING + v, 0);
  }

  /** A text of one line has a section only at its start. */
  lemma SectionOfOneLine(text: string, v: string)
    requires '\n' !in text && HasSection(text, v)
    ensures HEADING + v <= text && (|HEADING + v| < |text| ==> !IsWordChar(text[|HEADING + v|]))
  {
    HasSectionAt(text, v);
    var i: nat :| SectionAt(text, v, i);
    assert i == 0;
  }

  /** A release heading is that of its own version alone. */
  lemma SectionIsOfItsVersion(v: string, w: string, rest: string)
    requires IsVersion(v) && IsVersion(w) && StartsWith(v, "v") && StartsWith(w, "v")
    requires rest != "" && !IsWordChar(rest[0]) && rest[0] != '.' && '\n' !in rest
    ensures HasSection(HEADING + w + rest, v) <==> v == w
  {
    OwnSection(w, rest);
    if HasSection(HEADING + w + rest, v) {
      NoNewlineInHeading(w, rest);
      SectionOfOneLine(HEADING + w + rest, v);
      OtherSection(HEADING, v, w, rest);
    }
  }

  lemma OtherSection(heading: string, v: string, w: string, rest: string)
    requires IsVersion(v) && IsVersion(w) && StartsWith(v, "v") && StartsWith(w, "v")
    requires rest != "" && !IsWordChar(rest[0]) && rest[0] != '.'
    requires
      var text := heading + w + rest;
      heading + v <= text && (|heading + v| < |text| ==> !IsWordChar(text[|heading + v|]))
    ensures v == w
  {
    assert heading + w + rest == heading + (w + rest);
    WithoutFront(heading, v, w + rest);
    VersionsAreToldApart(v, w, rest);
  }

  lemma WithoutFront(front: string, v: string, rest: string)
    requires front + v <= front + rest
    ensures v <= rest
    ensures |v| < |rest| ==> (front + rest)[|front + v|] == rest[|v|]
  {
    assert v == (front + v)[|front|..] == (front + rest)[|front|..|front + v|] == rest[..|v|];
  }

  lemma NoNewlineInHeading(w: string, rest: string)
    requires IsVersion(w) && StartsWith(w, "v") && '\n' !in rest
    ensures '\n' !in HEADING + w + rest
  {
    VersionDots(w);
    var i: nat, j: nat :| DotsAt(w, i, j);
    assert forall k | 0 < k < |w| :: w[k] != '\n';
    assert w[0] == 'v';
    assert '\n' !in w && '\n' !in HEADING;
  }

  lemma VersionsAreToldApart(v: string, w: string, rest: string)
    requires IsVersion(v) && IsVersion(w) && StartsWith(v, "v") && StartsWith(w, "v")
    requires rest != "" && !IsWordChar(rest[0]) && rest[0] != '.'
    requires v <= w + rest && (|v| < |w + rest| ==> !IsWordChar((w + rest)[|v|]))
    ensures v == w
  {
    if |v| < |w| {
      assert v == w[..|v|];
      assert (w + rest)[|v|] == w[|v|];
      LongerVersion(v, w);
    } else if |v| > |w| {
      assert w == v[..|w|] && v[|w|] == rest[0];
      LongerVersion(w, v);
    } else {
      assert v == (w + rest)[..|w|] == w;
    }
  }

  /** A version is looked for line by line. */
  lemma HasSectionSplits(a: string, b: string, version: string)
    requires '\n' !in version
    ensures HasSection(a + "\n" + b, version) <==> HasSection(a, version) || HasSection(b, version)
  {
    var s := a + "\n" + b;
    forall i: nat ensures SectionAt(s, version, i) <==>
      (if i <= |a| then SectionAt(a, version, i) else SectionAt(b, version, i - |a| - 1))
    {
      SectionAtSplits(a, b, version, i);
    }
    if i: nat :| SectionAt(a, version, i) {
      assert SectionAt(s, version, i);
    }
    if i: nat :| SectionAt(b, version, i) {
      assert SectionAt(s, version, i + |a| + 1);
    }
    HasSectionAt(s, version);
    HasSectionAt(a, version);
    HasSectionAt(b, version);
  }

  ghost predicate SectionAt(text: string, version: string, i: nat) {
    && LineStart(text, i)
    && At(text, HEADING + version, i)
    && (i + |HEADING + version| < |text| ==> !IsWordChar(text[i + |HEADING + version|]))
  }

  lemma HasSectionAt(text: string, version: string)
    ensures HasSection(text, version) <==> exists i: nat :: SectionAt(text, version, i)
  {
    if HasSection(text, version) {
      var i :| 0 <= i < |text| && LineStart(text, i) && At(text, HEADING + version, i)
        && (i + |HEADING + version| < |text| ==> !IsWordChar(text[i + |HEADING + version|]));
      assert SectionAt(text, version, i);
    }
    if i: nat :| SectionAt(text, version, i) {
      assert i < |text|;
    }
  }

  lemma OnOneLine(s: string, p: string, i: nat)
    requires At(s, p, i) && '\n' !in p
    ensures forall k | i <= k < i + |p| :: s[k] != '\n'
  {
    forall k | i <= k < i + |p| ensures s[k] != '\n' {
      assert s[k] == s[i..i + |p|][k - i];
      assert p[k - i] in p;
    }
  }

  lemma SectionAtSplits(a: string, b: string, version: string, i: nat)
    requires '\n' !in version
    ensures SectionAt(a + "\n" + b, version, i) <==>
      (if i <= |a| then SectionAt(a, version, i) else SectionAt(b, version, i - |a| - 1))
  {
    var s := a + "\n" + b;
    var p := HEADING + version;
    assert '\n' !in p && s[|a|] == '\n';
    if i <= |a| {
      assert i > 0 ==> s[i - 1] == a[i - 1];
      if At(s, p, i) {
        OnOneLine(s, p, i);
      }
      if i + |p| <= |a| {
        assert s[i..i + |p|] == a[i..i + |p|];
      }
    } else {
      var j := i - |a| - 1;
      assert 0 < j <= |b| ==> s[i - 1] == b[j - 1];
      if j + |p| <= |b| {
        assert s[i..i + |p|] == b[j..j + |p|];
      }
    }
  }

  /** A date is a year, a month and a day in digits with dashes between them. */
  lemma DateForm(year: string, month: string, day: string, s: string)
    requires |year| == 4 && |month| == 2 && |day| == 2
    ensures IsDate(year + "-" + month + "-" + day) <==> AllDigits(year) && AllDigits(month) && AllDigits(day)
    ensures IsDate(s) ==> |s| == 10 && s == s[..4] + "-" + s[5..7] + "-" + s[8..]
  {
    var date := year + "-" + month + "-" + day;
    assert date[..4] == year && date[5..7] == month && date[8..] == day;
  }
}
