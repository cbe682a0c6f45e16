/** The spellings table of the licence gate, and the proof that it is one the gate can rely on. */
module LicenseSpellings {
  import opened Basics
  import opened Text
  import opened LicenseLexer
  import opened LicenseParser
  import opened LicenseExpressions
  import opened LicenseReading

  /** An entry: one word, or a first word and a second one with whatever follows it. */
  datatype Spelling =
    | Word(first: string, id: string)
    | Phrase(first: string, second: string, more: string, id: string)

  const WORDS: seq<Spelling> := [
    Word("mit", "MIT"),
    Word("mit-0", "MIT-0"),
    Word("apache-2", "Apache-2.0"),
    Word("apache", "Apache-2.0"),
    Word("bsd", "BSD"),
    Word("bsd-3", "BSD-3-Clause"),
    Word("isc", "ISC"),
    Word("psf", "PSF-2.0"),
    Word("mpl-2.0", "MPL-2.0"),
    Word("unlicense", "Unlicense"),
    Word("zlib", "Zlib")]

  const PERMISSIVE: seq<Spelling> := [
    Phrase("mit", "license", "", "MIT"),
    Phrase("apache", "software", " license", "Apache-2.0"),
    Phrase("apache", "license", " 2.0", "Apache-2.0"),
    Phrase("apache", "license", ", version 2.0", "Apache-2.0"),
    Phrase("apache", "2.0", "", "Apache-2.0")]

  const BERKELEY: seq<Spelling> := [
    Phrase("bsd", "license", "", "BSD"),
    Phrase("3-clause", "bsd", " license", "BSD-3-Clause"),
    Phrase("new", "bsd", " license", "BSD-3-Clause"),
    Phrase("bsd", "3-clause", "", "BSD-3-Clause"),
    Phrase("bsd", "2-clause", "", "BSD-2-Clause"),
    Phrase("simplified", "bsd", "", "BSD-2-Clause")]

  const FOUNDATIONS: seq<Spelling> := [
    Phrase("isc", "license", " (iscl)", "ISC"),
    Phrase("python", "software", " foundation license", "PSF-2.0"),
    Phrase("mozilla", "public", " license 2.0 (mpl 2.0)", "MPL-2.0"),
    Phrase("mpl", "2.0", "", "MPL-2.0"),
    Phrase("the", "unlicense", " (unlicense)", "Unlicense")]

  const LESSER: seq<Spelling> := [
    Phrase("gnu", "library", " or lesser general public license (lgpl)", "LGPL"),
    Phrase("gnu", "lesser", " general public license v2 (lgplv2)", "LGPL-2.0"),
    Phrase("gnu", "lesser", " general public license v2.1 (lgplv2.1)", "LGPL-2.1"),
    Phrase("gnu", "lesser", " general public license v3 (lgplv3)", "LGPL-3.0"),
    Phrase("gnu", "lesser", " general public license v2 or later (lgplv2+)", "LGPL-2.1-or-later"),
    Phrase("gnu", "lesser", " general public license v3 or later (lgplv3+)", "LGPL-3.0-or-later")]

  const OTHERS: seq<Spelling> := [
    Phrase("historical", "permission", " notice and disclaimer (hpnd)", "HPND"),
    Phrase("zlib/libpng", "license", "", "Zlib"),
    Phrase("cc0", "1.0", " universal (cc0 1.0) public domain dedication", "CC0-1.0"),
    Phrase("freely", "distributable", "", "Freely-Distributable")]

  const ENTRIES: seq<Spelling> := WORDS + PERMISSIVE + BERKELEY + FOUNDATIONS + LESSER + OTHERS

  function Key(e: Spelling): string {
    match e
    case Word(first, _) => first
    case Phrase(first, second, more, _) => first + " " + (second + more)
  }

  function TableOf(entries: seq<Spelling>): Spellings {
    if entries == [] then map[]
    else TableOf(entries[..|entries| - 1])[Key(entries[|entries| - 1]) := entries[|entries| - 1].id]
  }

  const SPELLINGS: Spellings := TableOf(ENTRIES)

  // --- What an entry must be ------------------------------------------------------------------

  predicate IsPlain(c: char) {
    'a' <= c <= 'z' || 'A' <= c <= 'Z' || '0' <= c <= '9' || c == '-' || c == '.' || c == '/'
  }

  predicate AllPlain(s: string) { s != [] && forall i | 0 <= i < |s| :: IsPlain(s[i]) }

  predicate StartsNoKeyword(s: string) {
    s != [] && !IsSpace(s[0]) && LowerChar(s[0]) != 'a' && LowerChar(s[0]) != 'o' && LowerChar(s[0]) != 'w'
  }

  predicate EntryOk(e: Spelling) {
    && AllPlain(e.first) && (e.Phrase? ==> StartsNoKeyword(e.second))
    && PlainId(e.id)
  }

  predicate PlainId(id: string) { AllPlain(id) && id[|id| - 1] != '.' && IsFinal(id) }

  /** What the one word of this length and with this initial stands for, if there is such a word. */
  function WordLike(length: nat, initial: char): Option<string> {
    match (length, initial)
    case (3, 'm') => Some("MIT")
    case (5, 'm') => Some("MIT-0")
    case (8, 'a') => Some("Apache-2.0")
    case (6, 'a') => Some("Apache-2.0")
    case (3, 'b') => Some("BSD")
    case (5, 'b') => Some("BSD-3-Clause")
    case (3, 'i') => Some("ISC")
    case (3, 'p') => Some("PSF-2.0")
    case (7, 'm') => Some("MPL-2.0")
    case (9, 'u') => Some("Unlicense")
    case (4, 'z') => Some("Zlib")
    case _ => None
  }

  /** No word spells the identifier differently. */
  predicate IsFinal(id: string) {
    id != [] && (WordLike(|id|, LowerChar(id[0])) == None || WordLike(|id|, LowerChar(id[0])) == Some(id))
  }

  // --- What follows from it -----------------------------------------------------------------

  lemma {:induction false} TableHasEntries(entries: seq<Spelling>, k: string)
    requires k in TableOf(entries)
    ensures exists e :: e in entries && Key(e) == k && e.id == TableOf(entries)[k]
  {
    var last := entries[|entries| - 1];
    if k == Key(last) {
      assert last in entries && last.id == TableOf(entries)[k];
    } else {
      TableHasEntries(entries[..|entries| - 1], k);
    }
  }

  lemma {:induction false} EntryIsInTable(entries: seq<Spelling>, e: Spelling)
    requires e in entries
    ensures Key(e) in TableOf(entries)
  {
    var n := |entries| - 1;
    if e != entries[n] {
      assert e in entries[..n];
      EntryIsInTable(entries[..n], e);
    }
  }

  lemma {:induction false} NoSecondWord(k: string)
    requires forall i | 0 <= i < |k| :: !IsSpace(k[i])
    ensures SecondWord(k) == []
  {
    if k != [] {
      NoSecondWord(k[1..]);
    }
  }

  lemma NoKeywordStarts(s: string)
    requires StartsNoKeyword(s)
    ensures KeywordLength(s) == 0
  {
    assert Lower(s)[0] == LowerChar(s[0]);
    assert "and"[0] == 'a' && "or"[0] == 'o' && "with"[0] == 'w';
  }

  lemma PlainIsValid(s: string)
    requires AllPlain(s) && s[|s| - 1] != '.'
    ensures ValidId(s) && StripDots(s) == s
  {
  }

  lemma EntryIsPlain(e: Spelling)
    requires EntryOk(e)
    ensures PlainSpelling(Key(e))
  {
    match e
    case Word(first, _) =>
      NoSecondWord(first);
      assert KeywordLength(LStrip([])) == 0;
    case Phrase(first, second, more, _) =>
      SecondWordIs(first, ' ', second + more);
      assert (second + more)[0] == second[0];
      NoKeywordStarts(second + more);
  }

  lemma NoBlank(id: string)
    requires AllPlain(id)
    ensures ' ' !in Lower(id)
  {
  }

  lemma HasBlank(a: string, b: string)
    ensures ' ' in a + " " + b
  {
    assert (a + " " + b)[|a|] == ' ';
  }

  lemma KeyIsAWord(f: Spelling, id: string)
    requires AllPlain(id) && Key(f) == Lower(id)
    ensures f.Word?
  {
    NoBlank(id);
    if f.Phrase? {
      HasBlank(f.first, f.second + f.more);
    }
  }

  // --- The entries --------------------------------------------------------------------------

  lemma WordsFirsts()
    ensures AllPlain("mit") && AllPlain("mit-0") && AllPlain("apache-2") && AllPlain("apache") && AllPlain("bsd")
    ensures AllPlain("bsd-3") && AllPlain("isc") && AllPlain("psf") && AllPlain("mpl-2.0") && AllPlain("unlicense")
    ensures AllPlain("zlib")
  {
  }

  lemma WordsIds()
    ensures PlainId("MIT") && PlainId("MIT-0") && PlainId("Apache-2.0") && PlainId("BSD") && PlainId("BSD-3-Clause")
  {
  }

  lemma MoreWordsIds()
    ensures PlainId("ISC") && PlainId("PSF-2.0") && PlainId("MPL-2.0") && PlainId("Unlicense") && PlainId("Zlib")
  {
  }

  lemma WordsAreOk(e: Spelling)
    requires e in WORDS
    ensures EntryOk(e)
  {
    WordsFirsts();
    WordsIds();
    MoreWordsIds();
  }

  lemma PermissiveFirsts()
    ensures AllPlain("mit") && AllPlain("apache")
  {
  }

  lemma PermissiveIds()
    ensures PlainId("MIT") && PlainId("Apache-2.0")
  {
  }

  lemma PermissiveAreOk(e: Spelling)
    requires e in PERMISSIVE
    ensures EntryOk(e)
  {
    PermissiveFirsts();
    PermissiveIds();
  }

  lemma BerkeleyFirsts()
    ensures AllPlain("bsd") && AllPlain("3-clause") && AllPlain("new") && AllPlain("simplified")
  {
  }

  lemma BerkeleyIds()
    ensures PlainId("BSD") && PlainId("BSD-3-Clause") && PlainId("BSD-2-Clause")
  {
  }

  lemma BerkeleyAreOk(e: Spelling)
    requires e in BERKELEY
    ensures EntryOk(e)
  {
    BerkeleyFirsts();
    BerkeleyIds();
  }

  lemma FoundationsFirsts()
    ensures AllPlain("isc") && AllPlain("python") && AllPlain("mozilla") && AllPlain("mpl") && AllPlain("the")
  {
  }

  lemma FoundationsIds()
    ensures PlainId("ISC") && PlainId("PSF-2.0") && PlainId("MPL-2.0") && PlainId("Unlicense")
  {
  }

  lemma FoundationsAreOk(e: Spelling)
    requires e in FOUNDATIONS
    ensures EntryOk(e)
  {
    FoundationsFirsts();
    FoundationsIds();
  }

  lemma LesserFirsts()
    ensures AllPlain("gnu")
  {
  }

  lemma LesserIds()
    ensures PlainId("LGPL") && PlainId("LGPL-2.0") && PlainId("LGPL-2.1") && PlainId("LGPL-3.0") && PlainId("LGPL-2.1-or-later")
    ensures PlainId("LGPL-3.0-or-later")
  {
  }

  lemma LesserAreOk(e: Spelling)
    requires e in LESSER
    ensures EntryOk(e)
  {
    LesserFirsts();
    LesserIds();
  }

  lemma OthersFirsts()
    ensures AllPlain("historical") && AllPlain("zlib/libpng") && AllPlain("cc0") && AllPlain("freely")
  {
  }

  lemma OthersIds()
    ensures PlainId("HPND") && PlainId("Zlib") && PlainId("CC0-1.0") && PlainId("Freely-Distributable")
  {
  }

  lemma OthersAreOk(e: Spelling)
    requires e in OTHERS
    ensures EntryOk(e)
  {
    OthersFirsts();
    OthersIds();
  }

  lemma EveryEntryIsOk(e: Spelling)
    requires e in ENTRIES
    ensures EntryOk(e)
  {
    if e in WORDS { WordsAreOk(e); }
    else if e in PERMISSIVE { PermissiveAreOk(e); }
    else if e in BERKELEY { BerkeleyAreOk(e); }
    else if e in FOUNDATIONS { FoundationsAreOk(e); }
    else if e in LESSER { LesserAreOk(e); }
    else { OthersAreOk(e); }
  }

  lemma WordsAreSketched(w: Spelling)
    requires w in WORDS
    ensures w.first != [] && WordLike(|w.first|, w.first[0]) == Some(w.id)
  {
  }

  lemma EveryWordIsSketched(w: Spelling)
    requires w in ENTRIES && w.Word?
    ensures w.first != [] && WordLike(|w.first|, w.first[0]) == Some(w.id)
  {
    if w in WORDS { WordsAreSketched(w); }
  }

  /** An identifier of the table is its own normal form. */
  lemma IdIsKept(e: Spelling)
    requires e in ENTRIES
    ensures Lookup(SPELLINGS, e.id) == e.id
  {
    EveryEntryIsOk(e);
    var low := Lower(e.id);
    if low in SPELLINGS {
      TableHasEntries(ENTRIES, low);
      var w :| w in ENTRIES && Key(w) == low && w.id == SPELLINGS[low];
      KeyIsAWord(w, e.id);
      EveryWordIsSketched(w);
      assert low[0] == LowerChar(e.id[0]);
    }
  }

  /** The gate can rely on the table. */
  lemma SpellingsAreOk()
    ensures TableOk(SPELLINGS) && "" !in SPELLINGS
  {
    forall k | k in SPELLINGS
      ensures PlainSpelling(k) && k != "" && ValidId(SPELLINGS[k]) && StripDots(SPELLINGS[k]) == SPELLINGS[k]
      ensures Lookup(SPELLINGS, SPELLINGS[k]) == SPELLINGS[k]
    {
      TableHasEntries(ENTRIES, k);
      var e :| e in ENTRIES && Key(e) == k && e.id == SPELLINGS[k];
      EveryEntryIsOk(e);
      EntryIsPlain(e);
      PlainIsValid(e.id);
      IdIsKept(e);
    }
  }

  /** The gate with its own table: a list of written expressions is accepted exactly when one of them
      means an allowed licence. */
  lemma GateIsRightAsShipped(allow: set<string>, es: seq<Expr>)
    requires es != [] && forall i | 0 <= i < |es| :: Valid(es[i])
    ensures Allowed(SPELLINGS, allow, Listed(Prints(es))) <==> exists i | 0 <= i < |es| :: Meaning(SPELLINGS, allow, es[i])
  {
    SpellingsAreOk();
    GateIsRight(SPELLINGS, allow, es);
  }
}
