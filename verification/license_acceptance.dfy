/** Which strings the licence gate accepts, well-formed or not. */
module LicenseAcceptance {
  import opened Basics
  import opened Text
  import opened LicenseLexer
  import opened LicenseParser
  import opened LicenseGrammar
  import opened LicenseExpressions
  import opened LicenseReading

  /** `t` is what the evaluator makes of the whole string. */
  ghost predicate IsReading(table: Spellings, allow: set<string>, expression: string, t: Tree) {
    Relaxed(t, None) && Flat(t) == Symbols(table, allow, Tokens(table, expression))
  }

  /** On all strings: accepted exactly when some relaxed tree of its tokens has a positive value. */
  lemma AllowedExactly(table: Spellings, allow: set<string>, expression: string)
    ensures Allowed(table, allow, expression) <==> exists t :: IsReading(table, allow, expression, t) && Value(t)
  {
    var g := Symbols(table, allow, Tokens(table, expression));
    AcceptsExactlyRelaxedTrees(g);
    if t :| Relaxed(t, None) && Flat(t) == g && Value(t) {
      assert IsReading(table, allow, expression, t);
    }
  }

  /** The liberties the evaluator takes with a string. */
  ghost function TextLiberties(table: Spellings, allow: set<string>, expression: string): set<Liberty> {
    OrLiberties(Symbols(table, allow, Tokens(table, expression)), 0)
  }

  /** The string is cut into an expression of the grammar that grants an allowed licence. */
  ghost predicate IsProperlyGranted(table: Spellings, allow: set<string>, expression: string) {
    IsGranted(Symbols(table, allow, Tokens(table, expression)))
  }

  /** On all strings: accepted exactly when properly granted, but for the strings with which one of the
      four liberties is taken; and no properly granted string takes one. */
  lemma AllowedIsGrantedOrTakesALiberty(table: Spellings, allow: set<string>, expression: string)
    ensures IsProperlyGranted(table, allow, expression) <==>
            Allowed(table, allow, expression) && TextLiberties(table, allow, expression) == {}
  {
    var g := Symbols(table, allow, Tokens(table, expression));
    if IsGranted(g) {
      GrantedIsAccepted(g);
    }
    if Accepts(g) {
      AcceptedIsGrantedOrTakesALiberty(g);
    }
  }

  // --- Malformed strings that pass ------------------------------------------------------------

  lemma OpenedIsSolid(n: string)
    requires ValidId(n)
    ensures Solid("(" + n + "(")
  {
    var s := "(" + n + "(";
    forall i | 0 < i < |s| ensures !(s[i - 1] == ':' && s[i] == ':') {
      if 1 < i < |s| - 1 {
        assert s[i - 1] == n[i - 2] && s[i] == n[i - 1];
      }
    }
  }

  lemma OpenedIsItself(table: Spellings, n: string)
    requires ValidId(n) && TableOk(table)
    ensures Joined(table, "(" + n + "(") == "(" + n + "("
  {
    var s := "(" + n + "(";
    OpenedIsSolid(n);
    JoinedSingle(table, s);
    NormaliseSolid(table, s);
    assert s[|s| - 1] == '(' && Lower(s)[0] == '(';
  }

  lemma OpenedIsCut(n: string)
    requires ValidId(n)
    ensures Lex("(" + (n + "("), []) == ["("] + ([n] + (["("] + []))
  {
    LexOpen(n + "(");
    LexId(n, "(");
    LexOpen([]);
    assert "(" + [] == "(";
  }

  lemma MapsTo<A, B>(f: A -> B, a: A, b: A, c: A)
    ensures Map(f, [a, b]) == [f(a), f(b)] && Map(f, [a, b, c]) == [f(a), f(b), f(c)]
  {
  }

  /** A relaxed tree with a positive value is accepted, and its liberties are those of its symbols. */
  lemma ReadsAs(t: Tree, g: Input)
    requires Relaxed(t, None) && Value(t) && Flat(t) == g
    ensures Accepts(g) && OrLiberties(g, 0) == Liberties(t)
  {
    RelaxedTreeIsRead(t);
    LibertiesAreRead(t);
    assert t != Missing;
  }

  lemma OpenGroupIsAccepted(open: Symbol, id: Symbol)
    requires open.kind.Open? && !id.kind.Open? && id.granted
    ensures Accepts([open, id, open]) && UncheckedClose in OrLiberties([open, id, open], 0)
  {
    ReadsAs(Group(open, Leaf(id), open), [open, id, open]);
  }

  lemma MissingOperandIsAccepted(id: Symbol, op: Symbol)
    requires !id.kind.Open? && id.granted && op.kind.OrWord?
    ensures Accepts([id, op]) && MissingOperand in OrLiberties([id, op], 0)
  {
    ReadsAs(OrTree(Leaf(id), op, Missing), [id, op]);
  }

  lemma OddOperandIsAccepted(id: Symbol, op: Symbol, close: Symbol)
    requires !id.kind.Open? && id.granted && op.kind.OrWord? && close.kind.Close?
    ensures Accepts([id, op, close]) && OddOperand in OrLiberties([id, op, close], 0)
  {
    ReadsAs(OrTree(Leaf(id), op, Leaf(close)), [id, op, close]);
  }

  lemma OddExceptionIsAccepted(id: Symbol, op: Symbol, open: Symbol)
    requires !id.kind.Open? && id.granted && op.kind.WithWord? && open.kind.Open?
    ensures Accepts([id, op, open]) && OddException in OrLiberties([id, op, open], 0)
  {
    ReadsAs(LeafWith(id, op, open), [id, op, open]);
  }

  lemma OpenedTokens(table: Spellings, n: string)
    requires ValidId(n) && TableOk(table)
    ensures Tokens(table, "(" + n + "(") == ["(", n, "("]
  {
    OpenedIsItself(table, n);
    OpenedIsCut(n);
    Regroup("(", n, "(");
    Associate(["("], [n], ["("], []);
  }

  lemma Regroup(a: string, b: string, c: string)
    ensures a + b + c == a + (b + c)
  {
  }

  /** The token taken for the closing parenthesis is not looked at: an allowed licence between two opening
      parentheses passes. */
  lemma UnclosedGroupPasses(table: Spellings, allow: set<string>, n: string)
    requires ValidId(n) && TableOk(table) && Normalise(table, n) in allow
    ensures Allowed(table, allow, "(" + n + "(") && UncheckedClose in TextLiberties(table, allow, "(" + n + "(")
  {
    OpenedTokens(table, n);
    MapsTo(Reader(table, allow), "(", n, "(");
    ParensAreRead();
    IdIsNotOpen(n);
    OpenGroupIsAccepted(SymbolOf(table, allow, "("), SymbolOf(table, allow, n));
  }

  lemma OrIsCutOff(id: string)
    requires ValidId(id)
    ensures Lex(id + OpText(OR), []) == [id] + ([OpText(OR)] + [])
  {
    SemicolonOperator();
    LexSeparator(OR, []);
    assert OpText(OR) + [] == OpText(OR);
    LexId(id, OpText(OR));
  }

  lemma NothingIsNormal(table: Spellings)
    requires "" !in table
    ensures Normalise(table, "") == "" && Pieces("") == [""]
  {
    assert Lower("") == "";
  }

  lemma JoinNothing(table: Spellings)
    requires "" !in table
    ensures Join(" OR ", NormaliseAll(table, [""])) == ""
  {
    NothingIsNormal(table);
    assert NormaliseAll(table, [""]) == [""];
  }

  lemma TrailingIsAnOr(table: Spellings, n: string)
    requires ValidId(n) && "" !in table
    ensures Joined(table, n + ";") == Normalise(table, n) + OpText(OR)
  {
    PiecesOfSolid(n, "");
    NothingIsNormal(table);
    assert n + (";" + "") == n + ";" && Pieces(n + ";") == [n] + [""];
    JoinStep(table, n, [""]);
    SemicolonOperator();
    JoinNothing(table);
    assert Normalise(table, n) + OpText(OR) + "" == Normalise(table, n) + OpText(OR);
  }

  /** An operand may be missing at the end: an allowed licence and a semicolon pass. */
  lemma MissingOperandPasses(table: Spellings, allow: set<string>, n: string)
    requires ValidId(n) && TableOk(table) && "" !in table && Normalise(table, n) in allow
    ensures Allowed(table, allow, n + ";") && MissingOperand in TextLiberties(table, allow, n + ";")
  {
    var id := Lookup(table, StripDots(n));
    NormaliseSolid(table, n);
    TrailingIsAnOr(table, n);
    NormTreeIsRight(table, allow, Id(n));
    assert Meaning(table, allow, Id(n)) && Meaning(table, allow, Id(id)) && Valid(Id(id));
    OrIsCutOff(id);
    assert Tokens(table, n + ";") == [id, OpText(OR)];
    MapsTo(Reader(table, allow), id, OpText(OR), OpText(OR));
    SemicolonOperator();
    OperatorIsRead(OR);
    IdIsNotOpen(id);
    MissingOperandIsAccepted(SymbolOf(table, allow, id), SymbolOf(table, allow, OpText(OR)));
  }

  /** An operator between an identifier and a parenthesis. */
  lemma OddIsSolid(n: string, op: Operator, end: string)
    requires ValidId(n) && (IsOr(op) || IsWith(op)) && (end == ")" || end == "(")
    ensures Solid(n + OpText(op) + end) && StripDots(n + OpText(op) + end) == n + OpText(op) + end
  {
    assert Solid(n) && Solid(end);
    SolidJoined(n, op, end);
    var s := n + OpText(op) + end;
    assert s[|s| - 1] == end[0];
  }

  lemma OddIsItself(table: Spellings, n: string, op: Operator, end: string)
    requires ValidId(n) && TableOk(table) && (IsOr(op) || IsWith(op)) && (end == ")" || end == "(")
    ensures Joined(table, n + OpText(op) + end) == n + OpText(op) + end
  {
    OddIsSolid(n, op, end);
    JoinedSingle(table, n + OpText(op) + end);
    NormaliseSolid(table, n + OpText(op) + end);
    SpacedIsNoSpelling(n, op, end);
  }

  lemma OddIsCut(n: string, op: Operator, end: string)
    requires ValidId(n) && (IsOr(op) || IsWith(op)) && (end == ")" || end == "(")
    ensures Lex(n + (OpText(op) + end), []) == [n] + ([OpText(op)] + [end])
  {
    LexSeparator(op, end);
    LexId(n, OpText(op) + end);
    LexOpen([]);
    assert end + [] == end && [end] + [] == [end];
  }

  lemma OddTokens(table: Spellings, n: string, op: Operator, end: string)
    requires ValidId(n) && TableOk(table) && (IsOr(op) || IsWith(op)) && (end == ")" || end == "(")
    ensures Tokens(table, n + OpText(op) + end) == [n, OpText(op), end]
  {
    OddIsItself(table, n, op, end);
    OddIsCut(n, op, end);
    Regroup(n, OpText(op), end);
  }

  /** A closing parenthesis can stand for an operand. */
  lemma OddOperandPasses(table: Spellings, allow: set<string>, n: string, op: Operator)
    requires ValidId(n) && IsOr(op) && TableOk(table) && Normalise(table, n) in allow
    ensures Allowed(table, allow, n + OpText(op) + ")") && OddOperand in TextLiberties(table, allow, n + OpText(op) + ")")
  {
    OddTokens(table, n, op, ")");
    MapsTo(Reader(table, allow), n, OpText(op), ")");
    ParensAreRead();
    OperatorIsRead(op);
    IdIsNotOpen(n);
    OddOperandIsAccepted(SymbolOf(table, allow, n), SymbolOf(table, allow, OpText(op)), SymbolOf(table, allow, ")"));
  }

  /** Anything can stand for an exception. */
  lemma OddExceptionPasses(table: Spellings, allow: set<string>, n: string, op: Operator)
    requires ValidId(n) && IsWith(op) && TableOk(table) && Normalise(table, n) in allow
    ensures Allowed(table, allow, n + OpText(op) + "(") && OddException in TextLiberties(table, allow, n + OpText(op) + "(")
  {
    OddTokens(table, n, op, "(");
    MapsTo(Reader(table, allow), n, OpText(op), "(");
    ParensAreRead();
    OperatorIsRead(op);
    IdIsNotOpen(n);
    OddExceptionIsAccepted(SymbolOf(table, allow, n), SymbolOf(table, allow, OpText(op)), SymbolOf(table, allow, "("));
  }
}
