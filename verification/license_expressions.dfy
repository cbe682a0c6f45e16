/** Licence expressions as trees: how they are written, what they mean, and the proof that
    the gate reads what was written. */
module LicenseExpressions {
  import opened Basics
  import opened Text
  import opened LicenseLexer
  import opened LicenseParser
  import opened LicenseGrammar

  /** An operator as it is written: its word, and the blanks before and after it. */
  datatype Operator = Operator(before: string, word: string, after: string)

  datatype Expr =
    | Id(name: string)
    | With(name: string, withOp: Operator, exception: string)
    | And(left: Expr, andOp: Operator, right: Expr)
    | Or(first: Expr, orOp: Operator, second: Expr)
    | Paren(inner: Expr)

  // --- Writing and meaning ----------------------------------------------------------------

  predicate IsIdChar(c: char) { !IsSpace(c) && !IsParen(c) && c != ';' && c != '"' }

  /** No two colons in a row: "::" belongs to classifier names, not to expressions. */
  predicate NoDoubleColon(s: string) {
    forall i | 0 < i < |s| :: !(s[i - 1] == ':' && s[i] == ':')
  }

  /** A licence or exception identifier: not only dots. */
  predicate ValidId(s: string) {
    && (forall i | 0 <= i < |s| :: IsIdChar(s[i]))
    && NoDoubleColon(s)
    && StripDots(s) != []
  }

  /** The word in any case, with blanks on both sides. */
  predicate IsOperator(op: Operator, word: string) {
    && op.before != [] && IsBlank(op.before)
    && Lower(op.word) == word
    && op.after != [] && IsBlank(op.after)
  }

  predicate IsOr(op: Operator) { IsOperator(op, "or") }

  predicate IsAnd(op: Operator) { IsOperator(op, "and") }

  predicate IsWith(op: Operator) { IsOperator(op, "with") }

  function OpText(op: Operator): string { op.before + op.word + op.after }

  /** The operator that semicolons are replaced by. */
  const OR := Operator(" ", "OR", " ")

  predicate Valid(e: Expr) {
    match e
    case Id(n) => ValidId(n)
    case With(n, op, x) => ValidId(n) && IsWith(op) && ValidId(x)
    case And(l, op, r) => Valid(l) && IsAnd(op) && Valid(r)
    case Or(l, op, r) => Valid(l) && IsOr(op) && Valid(r)
    case Paren(i) => Valid(i)
  }

  /** One side of an AND, in parentheses when it is an OR. */
  function Factor(e: Expr): (f: Expr)
    ensures !f.Or? && Size(f) <= Size(e) + 1 && Valid(f) == Valid(e)
  {
    if e.Or? then Paren(e) else e
  }

  function Size(e: Expr): nat {
    match e
    case Id(_) => 1
    case With(_, _, _) => 1
    case And(l, _, r) => Size(l) + Size(r) + 3
    case Or(l, _, r) => Size(l) + Size(r) + 3
    case Paren(i) => Size(i) + 1
  }

  /** WITH binds before AND, AND before OR; an OR under an AND is put in parentheses. */
  function Print(e: Expr): string
    decreases Size(e)
  {
    match e
    case Id(n) => n
    case With(n, op, x) => n + OpText(op) + x
    case And(l, op, r) => Print(Factor(l)) + OpText(op) + Print(Factor(r))
    case Or(l, op, r) => Print(l) + OpText(op) + Print(r)
    case Paren(i) => "(" + Print(i) + ")"
  }

  /** The tokens the expression should be cut into. */
  function Toks(e: Expr): seq<string>
    decreases Size(e)
  {
    match e
    case Id(n) => [n]
    case With(n, op, x) => [n, OpText(op), x]
    case And(l, op, r) => Toks(Factor(l)) + [OpText(op)] + Toks(Factor(r))
    case Or(l, op, r) => Toks(l) + [OpText(op)] + Toks(r)
    case Paren(i) => ["("] + Toks(i) + [")"]
  }

  /** An exception does not change the grant of the licence it is attached to. */
  predicate Meaning(table: Spellings, allow: set<string>, e: Expr) {
    match e
    case Id(n) => Normalise(table, n) in allow
    case With(n, _, _) => Normalise(table, n) in allow
    case And(l, _, r) => Meaning(table, allow, l) && Meaning(table, allow, r)
    case Or(l, _, r) => Meaning(table, allow, l) || Meaning(table, allow, r)
    case Paren(i) => Meaning(table, allow, i)
  }

  // --- Reading the tokens -----------------------------------------------------------------

  /** A word of letters: small letters when it is lower-cased. */
  predicate IsSmall(word: string) {
    word != [] && forall i | 0 <= i < |word| :: 'a' <= word[i] <= 'z'
  }

  lemma WordIsLetters(op: Operator, word: string)
    requires IsOperator(op, word) && IsSmall(word)
    ensures |op.word| == |word|
    ensures forall i | 0 <= i < |op.word| :: 'a' <= LowerChar(op.word[i]) <= 'z'
    ensures forall i | 0 <= i < |op.word| :: !IsSpace(op.word[i])
  {
    assert forall i | 0 <= i < |op.word| :: Lower(op.word)[i] == LowerChar(op.word[i]);
  }

  lemma OperatorIsStripped(op: Operator, word: string)
    requires IsOperator(op, word) && IsSmall(word)
    ensures Strip(OpText(op)) == op.word
  {
    WordIsLetters(op, word);
    assert OpText(op) == op.before + (op.word + op.after);
    BlanksAreStripped(op.before, op.word + op.after);
    BlanksAreStrippedRight(op.word, op.after);
  }

  lemma WordsAreSmall()
    ensures IsSmall("or") && IsSmall("and") && IsSmall("with")
    ensures |"or"| == 2 && |"and"| == 3 && |"with"| == 4
  {
  }

  /** An operator is read as its word, in any case and with any blanks around it. */
  lemma OperatorIsRead(op: Operator)
    ensures IsOr(op) ==> KindOf(OpText(op)) == OrWord
    ensures IsAnd(op) ==> KindOf(OpText(op)) == AndWord
    ensures IsWith(op) ==> KindOf(OpText(op)) == WithWord
  {
    WordsAreSmall();
    if IsOr(op) { OperatorIsStripped(op, "or"); }
    if IsAnd(op) { OperatorIsStripped(op, "and"); }
    if IsWith(op) { OperatorIsStripped(op, "with"); }
    assert OpText(op) != [] && op.before != [] && IsBlank(op.before) ==> OpText(op)[0] == op.before[0];
  }

  lemma ParensAreRead()
    ensures KindOf("(") == Open && KindOf(")") == Close
  {
  }

  /** The word in any case, with blanks around it or none. */
  ghost predicate Spells(token: string, word: string) {
    exists before, middle, after ::
      token == before + middle + after && IsBlank(before) && IsBlank(after) && Lower(middle) == word
  }

  lemma PaddedIsKeyword(before: string, middle: string, after: string, word: string)
    requires IsSmall(word) && IsBlank(before) && IsBlank(after) && Lower(middle) == word
    ensures IsKeyword(before + middle + after, word)
  {
    LettersAreNoBlanks(middle, word);
    assert before + middle + after == before + (middle + after);
    BlanksAreStripped(before, middle + after);
    BlanksAreStrippedRight(middle, after);
  }

  lemma KeywordIsPadded(token: string, word: string)
    requires IsKeyword(token, word)
    ensures Spells(token, word)
  {
    var tail := LStrip(token);
    LStripForm(token);
    RStripForm(tail);
    assert token == token[..|token| - |tail|] + RStrip(tail) + tail[|RStrip(tail)|..];
  }

  lemma SpelledIsKeyword(token: string, word: string)
    requires IsSmall(word)
    ensures Spells(token, word) <==> IsKeyword(token, word)
  {
    if before, middle, after :|
      token == before + middle + after && IsBlank(before) && IsBlank(after) && Lower(middle) == word
    {
      PaddedIsKeyword(before, middle, after, word);
    }
    if IsKeyword(token, word) {
      KeywordIsPadded(token, word);
    }
  }

  lemma LettersAreNoBlanks(text: string, word: string)
    requires IsSmall(word) && Lower(text) == word
    ensures text != [] && !IsSpace(text[0]) && !IsSpace(text[|text| - 1])
  {
    assert Lower(text)[0] == LowerChar(text[0]) && Lower(text)[|text| - 1] == LowerChar(text[|text| - 1]);
  }

  /** How the parser takes a token: parentheses as they are, and the three words in any case, with any
      blanks around them. */
  lemma KindsInPlainTerms(token: string)
    ensures KindOf(token) == Open <==> token == "("
    ensures KindOf(token) == Close <==> token == ")"
    ensures KindOf(token) == OrWord <==> Spells(token, "or")
    ensures KindOf(token) == AndWord <==> Spells(token, "and")
    ensures KindOf(token) == WithWord <==> Spells(token, "with")
  {
    WordsAreSmall();
    SpelledIsKeyword(token, "or");
    SpelledIsKeyword(token, "and");
    SpelledIsKeyword(token, "with");
    assert "("[0] == '(' && ")"[0] == ')';
    assert "or"[0] == 'o' && "and"[0] == 'a' && "with"[0] == 'w';
  }

  /** The tree of symbols of an expression, when `f` reads the tokens. */
  function TreeBy(f: string -> Symbol, e: Expr): (t: Tree)
    ensures t.OrTree? == e.Or?
    decreases Size(e)
  {
    match e
    case Id(n) => Leaf(f(n))
    case With(n, op, x) => LeafWith(f(n), f(OpText(op)), f(x))
    case And(l, op, r) => AndTree(TreeBy(f, Factor(l)), f(OpText(op)), TreeBy(f, Factor(r)))
    case Or(l, op, r) => OrTree(TreeBy(f, l), f(OpText(op)), TreeBy(f, r))
    case Paren(i) => Group(f("("), TreeBy(f, i), f(")"))
  }

  function TreeOf(table: Spellings, allow: set<string>, e: Expr): Tree { TreeBy(Reader(table, allow), e) }

  lemma MapBinary<A, B>(f: A -> B, a: seq<A>, op: A, b: seq<A>)
    ensures Map(f, a + [op] + b) == Map(f, a) + [f(op)] + Map(f, b)
  {
  }

  lemma MapGroup<A, B>(f: A -> B, open: A, inner: seq<A>, close: A)
    ensures Map(f, [open] + inner + [close]) == [f(open)] + Map(f, inner) + [f(close)]
  {
  }

  lemma {:induction false} TreeHasTheTokens(f: string -> Symbol, e: Expr)
    ensures Map(f, Toks(e)) == Flat(TreeBy(f, e))
    decreases Size(e)
  {
    match e
    case And(left, op, right) =>
      var (l, r) := (Factor(left), Factor(right));
      TreeHasTheTokens(f, l);
      TreeHasTheTokens(f, r);
      MapBinary(f, Toks(l), OpText(op), Toks(r));
    case Or(first, op, second) =>
      TreeHasTheTokens(f, first);
      TreeHasTheTokens(f, second);
      MapBinary(f, Toks(first), OpText(op), Toks(second));
    case Paren(inner) =>
      TreeHasTheTokens(f, inner);
      MapGroup(f, "(", Toks(inner), ")");
    case _ =>
  }

  lemma IdIsNotOpen(n: string)
    requires ValidId(n)
    ensures !KindOf(n).Open?
  {
    if n == "(" {
      assert IsParen(n[0]);
    }
  }

  /** The kinds a reader of tokens must give. */
  ghost predicate ReadsKinds(f: string -> Symbol) {
    && f("(").kind == Open && f(")").kind == Close
    && (forall op | IsOr(op) :: f(OpText(op)).kind == OrWord)
    && (forall op | IsAnd(op) :: f(OpText(op)).kind == AndWord)
    && (forall op | IsWith(op) :: f(OpText(op)).kind == WithWord)
    && forall n | ValidId(n) :: !f(n).kind.Open?
  }

  /** No identifier is an operator word. */
  predicate NamesOnly(f: string -> Symbol, e: Expr) {
    match e
    case Id(n) => f(n).kind.Other?
    case With(n, _, x) => f(n).kind.Other? && f(x).kind.Other?
    case And(l, _, r) => NamesOnly(f, l) && NamesOnly(f, r)
    case Or(l, _, r) => NamesOnly(f, l) && NamesOnly(f, r)
    case Paren(i) => NamesOnly(f, i)
  }

  /** A written expression is always read as its tree; the tree is one of the grammar exactly when no
      identifier is an operator word. */
  lemma {:induction false} TreeIsWellFormed(f: string -> Symbol, e: Expr, next: Option<Kind>)
    requires ReadsKinds(f) && Valid(e) && next != Some(WithWord)
    ensures Relaxed(TreeBy(f, e), next)
    ensures WellFormed(TreeBy(f, e)) <==> NamesOnly(f, e)
    decreases Size(e)
  {
    match e
    case And(l, _, r) =>
      TreeIsWellFormed(f, Factor(l), Some(AndWord));
      TreeIsWellFormed(f, Factor(r), next);
    case Or(l, _, r) =>
      TreeIsWellFormed(f, l, Some(OrWord));
      TreeIsWellFormed(f, r, next);
    case Paren(i) =>
      TreeIsWellFormed(f, i, Some(Close));
    case _ =>
  }

  lemma ReaderReadsKinds(table: Spellings, allow: set<string>)
    ensures ReadsKinds(Reader(table, allow))
  {
    ParensAreRead();
    forall op
      ensures IsOr(op) ==> KindOf(OpText(op)) == OrWord
      ensures IsAnd(op) ==> KindOf(OpText(op)) == AndWord
      ensures IsWith(op) ==> KindOf(OpText(op)) == WithWord
    {
      OperatorIsRead(op);
    }
    forall n | ValidId(n) ensures !KindOf(n).Open? {
      IdIsNotOpen(n);
    }
  }

  lemma {:induction false} TreeMeans(table: Spellings, allow: set<string>, f: string -> Symbol, e: Expr)
    requires Valid(e) && forall n :: f(n).granted == (Normalise(table, n) in allow)
    ensures Value(TreeBy(f, e)) == Meaning(table, allow, e)
    decreases Size(e)
  {
    match e
    case And(l, _, r) =>
      TreeMeans(table, allow, f, Factor(l));
      TreeMeans(table, allow, f, Factor(r));
    case Or(l, _, r) =>
      TreeMeans(table, allow, f, l);
      TreeMeans(table, allow, f, r);
    case Paren(i) =>
      TreeMeans(table, allow, f, i);
    case _ =>
  }

  /** The tree is read as it stands, it obeys the grammar when its identifiers are names, and its value is
      the meaning. */
  lemma TreeIsRight(table: Spellings, allow: set<string>, e: Expr)
    requires Valid(e)
    ensures Relaxed(TreeOf(table, allow, e), None)
    ensures WellFormed(TreeOf(table, allow, e)) <==> NamesOnly(Reader(table, allow), e)
    ensures Value(TreeOf(table, allow, e)) == Meaning(table, allow, e)
  {
    ReaderReadsKinds(table, allow);
    TreeIsWellFormed(Reader(table, allow), e, None);
    TreeMeans(table, allow, Reader(table, allow), e);
  }
}
