/** Licence metadata as packages carry it: classifiers and table spellings beside written expressions. */
module LicenseClassifiers {
  import opened Basics
  import opened Text
  import opened LicenseLexer
  import opened LicenseParser
  import opened LicenseExpressions
  import opened LicenseReading
  import opened LicenseSpellings

  /** A heading of a classifier: a word, and "::" with blanks around it. */
  datatype Heading = Heading(word: string, before: string, after: string)

  /** What may stand around a licence: blanks, quotes inside them, and dots at its end. */
  datatype Wrapping = Wrapping(before: string, quotes: string, dots: string, closing: string, after: string)

  /** A written expression, or a spelling of the table with the headings a classifier puts in front. */
  datatype Licence =
    | Written(wrapping: Wrapping, e: Expr)
    | Classifier(wrapping: Wrapping, license: Option<Heading>, osi: Option<Heading>, name: string)

  predicate AllAre(s: string, c: char) { forall i | 0 <= i < |s| :: s[i] == c }

  predicate IsWrapping(w: Wrapping) {
    && IsBlank(w.before) && AllAre(w.quotes, '"') && AllAre(w.dots, '.')
    && AllAre(w.closing, '"') && IsBlank(w.after)
  }

  function Wrap(w: Wrapping, s: string): string { w.before + (w.quotes + (s + w.dots) + w.closing) + w.after }

  function Front(h: Option<Heading>, rest: string): string {
    match h
    case None => rest
    case Some(Heading(word, before, after)) => word + (before + ("::" + (after + rest)))
  }

  /** The licence without what stands around it. */
  function Bare(l: Licence): string {
    match l
    case Written(_, e) => Print(e)
    case Classifier(_, license, osi, name) => Front(license, Front(osi, name))
  }

  function LicenceText(l: Licence): string { Wrap(l.wrapping, Bare(l)) }

  /** The heading is this word in any case. */
  predicate Heads(h: Option<Heading>, word: string) {
    h.Some? ==> Lower(h.value.word) == word && IsBlank(h.value.before) && IsBlank(h.value.after)
  }

  /** A spelling in any case, without quotes, semicolons and double colons, and not ending in a dot. */
  predicate IsSpelling(table: Spellings, name: string) {
    Solid(name) && name[|name| - 1] != '.' && Lower(name) in table
  }

  predicate Sayable(table: Spellings, l: Licence) {
    && IsWrapping(l.wrapping)
    && match l
    case Written(_, e) => Valid(e)
    case Classifier(_, license, osi, name) =>
      Heads(license, "license") && Heads(osi, "osi approved") && IsSpelling(table, name)
  }

  /** A classifier means the licence its spelling stands for. */
  predicate Means(table: Spellings, allow: set<string>, l: Licence)
    requires Sayable(table, l)
  {
    match l
    case Written(_, e) => Meaning(table, allow, e)
    case Classifier(_, _, _, name) => table[Lower(name)] in allow
  }

  /** What is left of it when it is normalised. */
  function TreeOfLicence(table: Spellings, l: Licence): Expr
    requires Sayable(table, l)
  {
    match l
    case Written(_, e) => NormTree(table, e)
    case Classifier(_, _, _, name) => Id(table[Lower(name)])
  }

  // --- Normalising a classifier ---------------------------------------------------------------

  lemma LowerPrefix(word: string, rest: string)
    ensures Lower(word) <= Lower(word + rest) && (word + rest)[|word|..] == rest
  {
    assert Lower(word + rest)[..|word|] == Lower(word);
  }

  lemma HeadingIsDropped(h: Option<Heading>, word: string, rest: string)
    requires h.Some? && Heads(h, word) && StartsSolid(rest)
    ensures DropPrefix(Front(h, rest), word) == rest
  {
    var Heading(w, before, after) := h.value;
    var colons := "::" + (after + rest);
    LowerPrefix(w, before + colons);
    BlanksAreStripped(before, colons);
    BlanksAreStripped(after, rest);
    assert colons[..2] == "::" && colons[2..] == after + rest;
  }

  lemma StartsOtherwise(s: string, word: string)
    requires s != [] && word != [] && LowerChar(s[0]) != word[0]
    ensures DropPrefix(s, word) == s
  {
    assert Lower(s)[0] == LowerChar(s[0]);
  }

  lemma FrontStarts(h: Option<Heading>, word: string, rest: string)
    requires Heads(h, word) && word != [] && !IsSpace(word[0]) && word[0] != '"' && h.Some?
    ensures Front(h, rest) != [] && LowerChar(Front(h, rest)[0]) == word[0] && StartsSolid(Front(h, rest))
    ensures Front(h, rest)[0] != '"'
  {
    assert Lower(h.value.word)[0] == LowerChar(h.value.word[0]);
  }

  lemma OsiIsDropped(osi: Option<Heading>, name: string)
    requires Heads(osi, "osi approved") && Solid(name)
    ensures DropPrefix(DropPrefix(Front(osi, name), "license"), "osi approved") == name
    ensures StartsSolid(Front(osi, name))
  {
    if osi.Some? {
      FrontStarts(osi, "osi approved", name);
      StartsOtherwise(Front(osi, name), "license");
      HeadingIsDropped(osi, "osi approved", name);
    } else {
      DropPrefixOfSolid(name, "license");
      DropPrefixOfSolid(name, "osi approved");
    }
  }

  lemma HeadingsAreDropped(license: Option<Heading>, osi: Option<Heading>, name: string)
    requires Heads(license, "license") && Heads(osi, "osi approved") && Solid(name)
    ensures DropPrefix(DropPrefix(Front(license, Front(osi, name)), "license"), "osi approved") == name
  {
    OsiIsDropped(osi, name);
    if license.Some? {
      HeadingIsDropped(license, "license", Front(osi, name));
      if osi.Some? {
        HeadingIsDropped(osi, "osi approved", name);
      } else {
        DropPrefixOfSolid(name, "osi approved");
      }
    }
  }

  /** No quote and no blank at either end, and no dot at the end. */
  predicate BareEnds(s: string) {
    s != [] && !IsSpace(s[0]) && s[0] != '"' && !IsSpace(s[|s| - 1]) && s[|s| - 1] != '"' && s[|s| - 1] != '.'
  }

  lemma BareEndsStay(s: string)
    requires BareEnds(s)
    ensures StripDots(StripQuotesRight(StripQuotesLeft(Strip(s)))) == s
  {
  }

  lemma FrontKeepsTheEnd(h: Option<Heading>, word: string, rest: string)
    requires Heads(h, word) && word != [] && !IsSpace(word[0]) && word[0] != '"'
    requires BareEnds(rest) && ';' !in rest && ';' !in word
    ensures BareEnds(Front(h, rest)) && ';' !in Front(h, rest)
  {
    if h.Some? {
      FrontStarts(h, word, rest);
      NoSemicolon(h.value.word);
      var s := Front(h, rest);
      assert s[|s| - 1] == rest[|rest| - 1];
    }
  }

  lemma NoSemicolon(w: string)
    requires ';' !in Lower(w)
    ensures ';' !in w
  {
    forall i | 0 <= i < |w| ensures w[i] != ';' {
      assert Lower(w)[i] == LowerChar(w[i]);
      assert Lower(w)[i] in Lower(w);
    }
  }

  lemma HeadingWords()
    ensures ';' !in "license" && ';' !in "osi approved" && "license"[0] == 'l' && "osi approved"[0] == 'o'
  {
  }

  lemma ClassifierIsBare(license: Option<Heading>, osi: Option<Heading>, name: string)
    requires Heads(license, "license") && Heads(osi, "osi approved") && Solid(name) && name[|name| - 1] != '.'
    ensures BareEnds(Front(license, Front(osi, name))) && ';' !in Front(license, Front(osi, name))
  {
    HeadingWords();
    FrontKeepsTheEnd(osi, "osi approved", name);
    FrontKeepsTheEnd(license, "license", Front(osi, name));
  }

  /** A classifier normalises to the identifier its spelling stands for, whatever headings are in front. */
  lemma ClassifierIsNormalised(table: Spellings, license: Option<Heading>, osi: Option<Heading>, name: string)
    requires Heads(license, "license") && Heads(osi, "osi approved") && IsSpelling(table, name)
    ensures Normalise(table, Front(license, Front(osi, name))) == table[Lower(name)]
  {
    ClassifierIsBare(license, osi, name);
    BareEndsStay(Front(license, Front(osi, name)));
    HeadingsAreDropped(license, osi, name);
  }

  lemma FinalIsItself(table: Spellings, k: string)
    requires TableOk(table) && k in table
    ensures Valid(Id(table[k])) && Normalise(table, table[k]) == table[k]
  {
    NormaliseSolid(table, table[k]);
  }

  /** No quote and no blank at either end. */
  predicate Tight(s: string) {
    s != [] && !IsSpace(s[0]) && s[0] != '"' && !IsSpace(s[|s| - 1]) && s[|s| - 1] != '"'
  }

  lemma {:induction false} QuotesAreStrippedLeft(quotes: string, s: string)
    requires AllAre(quotes, '"') && s != [] && s[0] != '"'
    ensures StripQuotesLeft(quotes + s) == s
  {
    if quotes == [] {
      assert quotes + s == s;
    } else {
      assert (quotes + s)[1..] == quotes[1..] + s;
      QuotesAreStrippedLeft(quotes[1..], s);
    }
  }

  lemma {:induction false} QuotesAreStrippedRight(s: string, quotes: string)
    requires AllAre(quotes, '"') && s != [] && s[|s| - 1] != '"'
    ensures StripQuotesRight(s + quotes) == s
    decreases |quotes|
  {
    if quotes == [] {
      assert s + quotes == s;
    } else {
      assert (s + quotes)[..|s + quotes| - 1] == s + quotes[..|quotes| - 1];
      QuotesAreStrippedRight(s, quotes[..|quotes| - 1]);
    }
  }

  lemma {:induction false} DotsAreStripped(s: string, dots: string)
    requires AllAre(dots, '.')
    ensures StripDots(s + dots) == StripDots(s)
    decreases |dots|
  {
    if dots == [] {
      assert s + dots == s;
    } else {
      assert (s + dots)[..|s + dots| - 1] == s + dots[..|dots| - 1];
      DotsAreStripped(s, dots[..|dots| - 1]);
    }
  }

  lemma Unquoted(quotes: string, s: string, closing: string)
    requires AllAre(quotes, '"') && AllAre(closing, '"') && Tight(s)
    ensures StripQuotesRight(StripQuotesLeft(quotes + s + closing)) == s
  {
    assert quotes + s + closing == quotes + (s + closing);
    QuotesAreStrippedLeft(quotes, s + closing);
    QuotesAreStrippedRight(s, closing);
  }

  lemma QuotedEnds(quotes: string, s: string, closing: string)
    requires AllAre(quotes, '"') && AllAre(closing, '"') && Tight(s)
    ensures StartsSolid(quotes + s + closing) && !IsSpace((quotes + s + closing)[|quotes + s + closing| - 1])
  {
    var t := quotes + s + closing;
    assert t[0] == if quotes == [] then s[0] else quotes[0];
    assert t[|t| - 1] == if closing == [] then s[|s| - 1] else closing[|closing| - 1];
  }

  lemma Padded(before: string, s: string, after: string)
    requires IsBlank(before) && IsBlank(after) && StartsSolid(s) && !IsSpace(s[|s| - 1])
    ensures Strip(before + s + after) == s
  {
    assert before + s + after == before + (s + after);
    BlanksAreStripped(before, s + after);
    BlanksAreStrippedRight(s, after);
  }

  /** Blanks, quotes and dots around a licence are dropped. */
  lemma WrappingIsDropped(table: Spellings, w: Wrapping, s: string)
    requires IsWrapping(w) && Tight(s)
    ensures Normalise(table, Wrap(w, s)) == Normalise(table, s)
  {
    Unquoted(w.quotes, s + w.dots, w.closing);
    QuotedEnds(w.quotes, s + w.dots, w.closing);
    Padded(w.before, w.quotes + (s + w.dots) + w.closing, w.after);
    DotsAreStripped(s, w.dots);
    Unquoted([], s, []);
    Padded([], s, []);
    assert [] + s + [] == s;
  }

  lemma WrappingHasNoSemicolon(w: Wrapping, s: string)
    requires IsWrapping(w) && ';' !in s
    ensures ';' !in Wrap(w, s)
  {
    assert ';' !in w.before && ';' !in w.after && ';' !in w.quotes && ';' !in w.dots && ';' !in w.closing;
  }

  lemma BareReadsAsTree(table: Spellings, allow: set<string>, l: Licence)
    requires TableOk(table) && Sayable(table, l)
    ensures ReadsAsTree(table, Bare(l), TreeOfLicence(table, l)) && Tight(Bare(l))
    ensures Meaning(table, allow, TreeOfLicence(table, l)) == Means(table, allow, l)
  {
    match l
    case Written(_, e) =>
      PrintReadsAsTree(table, e);
      PrintIsSolid(e);
      NormTreeIsRight(table, allow, e);
    case Classifier(_, license, osi, name) =>
      ClassifierIsBare(license, osi, name);
      ClassifierIsNormalised(table, license, osi, name);
      FinalIsItself(table, Lower(name));
  }

  lemma LicenceReadsAsTree(table: Spellings, allow: set<string>, l: Licence)
    requires TableOk(table) && Sayable(table, l)
    ensures ReadsAsTree(table, LicenceText(l), TreeOfLicence(table, l))
    ensures Meaning(table, allow, TreeOfLicence(table, l)) == Means(table, allow, l)
  {
    BareReadsAsTree(table, allow, l);
    WrappingIsDropped(table, l.wrapping, Bare(l));
    WrappingHasNoSemicolon(l.wrapping, Bare(l));
  }

  // --- The gate -----------------------------------------------------------------------------

  function Texts(ls: seq<Licence>): seq<string> {
    seq(|ls|, i requires 0 <= i < |ls| => LicenceText(ls[i]))
  }

  /** What the metadata reader hands on: each piece normalised already. */
  function NormalisedTexts(table: Spellings, ls: seq<Licence>): seq<string> {
    seq(|ls|, i requires 0 <= i < |ls| => Normalise(table, LicenceText(ls[i])))
  }

  /** The gate is right on lists of written expressions, spellings and classifiers: it accepts such a list
      exactly when one of them means an allowed licence. */
  lemma GateOnLicences(table: Spellings, allow: set<string>, ls: seq<Licence>)
    requires TableOk(table) && ls != [] && forall i | 0 <= i < |ls| :: Sayable(table, ls[i])
    ensures Allowed(table, allow, Listed(Texts(ls))) <==> exists i | 0 <= i < |ls| :: Means(table, allow, ls[i])
  {
    var trees := seq(|ls|, i requires 0 <= i < |ls| => TreeOfLicence(table, ls[i]));
    forall i | 0 <= i < |ls|
      ensures ReadsAsTree(table, Texts(ls)[i], trees[i]) && Meaning(table, allow, trees[i]) == Means(table, allow, ls[i])
    {
      LicenceReadsAsTree(table, allow, ls[i]);
    }
    GateOnTexts(table, allow, Texts(ls), trees);
  }

  lemma NormalisedReadsAsTree(table: Spellings, allow: set<string>, l: Licence)
    requires TableOk(table) && Sayable(table, l)
    ensures ReadsAsTree(table, Normalise(table, LicenceText(l)), NormTree(table, TreeOfLicence(table, l)))
    ensures Meaning(table, allow, NormTree(table, TreeOfLicence(table, l))) == Means(table, allow, l)
  {
    var t := TreeOfLicence(table, l);
    LicenceReadsAsTree(table, allow, l);
    PrintReadsAsTree(table, t);
    NormTreeIsRight(table, allow, t);
  }

  lemma GateOnNormalised(table: Spellings, allow: set<string>, ls: seq<Licence>)
    requires TableOk(table) && ls != [] && forall i | 0 <= i < |ls| :: Sayable(table, ls[i])
    ensures Allowed(table, allow, Listed(NormalisedTexts(table, ls))) <==>
            exists i | 0 <= i < |ls| :: Means(table, allow, ls[i])
  {
    var trees := seq(|ls|, i requires 0 <= i < |ls| => NormTree(table, TreeOfLicence(table, ls[i])));
    forall i | 0 <= i < |ls|
      ensures ReadsAsTree(table, NormalisedTexts(table, ls)[i], trees[i])
      ensures Meaning(table, allow, trees[i]) == Means(table, allow, ls[i])
    {
      NormalisedReadsAsTree(table, allow, ls[i]);
    }
    GateOnTexts(table, allow, NormalisedTexts(table, ls), trees);
  }

  /** Normalising the pieces before they are joined does not change the answer. */
  lemma NormalisingFirstChangesNothing(table: Spellings, allow: set<string>, ls: seq<Licence>)
    requires TableOk(table) && ls != [] && forall i | 0 <= i < |ls| :: Sayable(table, ls[i])
    ensures Allowed(table, allow, Listed(NormalisedTexts(table, ls))) <==> Allowed(table, allow, Listed(Texts(ls)))
  {
    GateOnNormalised(table, allow, ls);
    GateOnLicences(table, allow, ls);
  }

  /** With the shipped table. */
  lemma MetadataIsJudgedAsShipped(allow: set<string>, ls: seq<Licence>)
    requires ls != [] && forall i | 0 <= i < |ls| :: Sayable(SPELLINGS, ls[i])
    ensures Allowed(SPELLINGS, allow, Listed(NormalisedTexts(SPELLINGS, ls))) <==>
            exists i | 0 <= i < |ls| :: Means(SPELLINGS, allow, ls[i])
  {
    SpellingsAreOk();
    GateOnNormalised(SPELLINGS, allow, ls);
  }

  // --- A classifier as packages write it --------------------------------------------------------

  lemma MitIsInTable()
    ensures "mit license" in SPELLINGS
  {
    assert PERMISSIVE[0] == Phrase("mit", "license", "", "MIT");
    IsAnEntry(WORDS, PERMISSIVE, BERKELEY + FOUNDATIONS + LESSER + OTHERS, 0);
    EntriesInParts();
    EntryIsInTable(ENTRIES, PERMISSIVE[0]);
    MitKey();
  }

  lemma MitKey()
    ensures Key(Phrase("mit", "license", "", "MIT")) == "mit license"
  {
  }

  lemma IsAnEntry<T>(a: seq<T>, b: seq<T>, c: seq<T>, i: nat)
    requires i < |b|
    ensures b[i] in a + b + c
  {
    assert (a + b + c)[|a| + i] == b[i];
  }

  lemma FromTheLeft<T>(a: seq<T>, b: seq<T>, c: seq<T>, d: seq<T>, e: seq<T>, f: seq<T>)
    ensures a + b + c + d + e + f == a + b + (c + d + e + f)
  {
  }

  lemma EntriesInParts()
    ensures ENTRIES == WORDS + PERMISSIVE + (BERKELEY + FOUNDATIONS + LESSER + OTHERS)
  {
    FromTheLeft(WORDS, PERMISSIVE, BERKELEY, FOUNDATIONS, LESSER, OTHERS);
  }

  lemma MitIsASpelling()
    ensures IsSpelling(SPELLINGS, "MIT License")
  {
    MitIsInTable();
    assert Lower("MIT License") == "mit license";
  }

  lemma HeadingsAreHeadings()
    ensures Heads(Some(Heading("License", " ", " ")), "license")
    ensures Heads(Some(Heading("OSI Approved", " ", " ")), "osi approved")
  {
    assert Lower("License") == "license" && Lower("OSI Approved") == "osi approved";
  }

  const PLAIN := Wrapping("", "", "", "", "")

  lemma MitClassifierIsSayable()
    ensures Sayable(SPELLINGS,
                    Classifier(PLAIN, Some(Heading("License", " ", " ")), Some(Heading("OSI Approved", " ", " ")), "MIT License"))
  {
    MitIsASpelling();
    HeadingsAreHeadings();
  }
}
