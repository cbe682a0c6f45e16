/** From the written expression to the verdict: the lexer cuts a written tree into its tokens,
    normalising keeps its meaning, and the gate accepts it exactly when its meaning is true. */
module LicenseReading {
  import opened Text
  import opened LicenseLexer
  import opened LicenseParser
  import opened LicenseGrammar
  import opened LicenseExpressions

  // --- Cutting a written tree into tokens ---------------------------------------------------

  /** Where an identifier may end: at the end, at a parenthesis, or at a separator. */
  predicate Boundary(rest: string) {
    rest == [] || IsParen(rest[0]) || SeparatorLength(rest) > 0
  }

  predicate StartsSolid(s: string) { s != [] && !IsSpace(s[0]) }

  lemma NoSeparatorAtSolid(s: string)
    requires StartsSolid(s)
    ensures SeparatorLength(s) == 0
  {
  }

  lemma LexOneChar(c: char, rest: string, text: string)
    requires IsIdChar(c)
    ensures Lex([c] + rest, text) == Lex(rest, text + [c])
  {
    NoSeparatorAtSolid([c] + rest);
    assert ([c] + rest)[1..] == rest;
  }

  lemma {:induction false} LexIdChars(id: string, rest: string, text: string)
    requires forall i | 0 <= i < |id| :: IsIdChar(id[i])
    ensures Lex(id + rest, text) == Lex(rest, text + id)
    decreases |id|
  {
    if id == [] {
      assert id + rest == rest && text + id == text;
    } else {
      var (c, others) := (id[0], id[1..]);
      assert id + rest == [c] + (others + rest) && text + [c] + others == text + id;
      LexOneChar(c, others + rest, text);
      LexIdChars(others, rest, text + [c]);
    }
  }

  lemma FlushAtBoundary(rest: string, text: string)
    requires Boundary(rest) && !IsBlank(text)
    ensures Lex(rest, text) == [text] + Lex(rest, [])
  {
  }

  lemma LexId(id: string, rest: string)
    requires ValidId(id) && Boundary(rest)
    ensures Lex(id + rest, []) == [id] + Lex(rest, [])
  {
    LexIdChars(id, rest, []);
    assert [] + id == id;
    assert id != [] && !IsSpace(id[0]);
    FlushAtBoundary(rest, id);
  }

  lemma LexOpen(rest: string)
    ensures Lex("(" + rest, []) == ["("] + Lex(rest, [])
    ensures Lex(")" + rest, []) == [")"] + Lex(rest, [])
  {
    assert ("(" + rest)[1..] == rest && (")" + rest)[1..] == rest;
  }

  /** An operator of one of the three words. */
  predicate IsAnyOperator(op: Operator) { IsOr(op) || IsAnd(op) || IsWith(op) }

  lemma OperatorIsLetters(op: Operator)
    requires IsAnyOperator(op)
    ensures op.before != [] && IsBlank(op.before) && op.after != [] && IsBlank(op.after)
    ensures op.word != [] && forall i | 0 <= i < |op.word| :: 'a' <= LowerChar(op.word[i]) <= 'z' && !IsSpace(op.word[i])
  {
    WordsAreSmall();
    if IsOr(op) { WordIsLetters(op, "or"); }
    if IsAnd(op) { WordIsLetters(op, "and"); }
    if IsWith(op) { WordIsLetters(op, "with"); }
  }

  lemma LowerOfConcat(a: string, b: string)
    ensures Lower(a + b) == Lower(a) + Lower(b)
  {
  }

  lemma KeywordIsFound(op: Operator, rest: string)
    requires IsAnyOperator(op)
    ensures KeywordLength(op.word + rest) == |op.word|
  {
    WordsAreSmall();
    LowerOfConcat(op.word, rest);
    assert Lower(op.word) <= Lower(op.word + rest);
    var low := Lower(op.word + rest);
    assert low[0] == Lower(op.word)[0];
    assert "and"[0] == 'a' && "or"[0] == 'o' && "with"[0] == 'w';
  }

  lemma BlanksAreCounted(blanks: string, rest: string)
    requires IsBlank(blanks) && (rest != [] ==> !IsSpace(rest[0]))
    ensures SpaceCount(blanks + rest) == |blanks|
  {
    BlanksAreStripped(blanks, rest);
  }

  lemma SeparatorParts(before: string, word: string, after: string, rest: string)
    ensures
      var s := before + word + after + rest;
      && s == before + (word + (after + rest))
      && s[|before|..] == word + (after + rest)
      && s[|before| + |word|..] == after + rest
  {
    var s := before + word + after + rest;
    assert s == before + (word + (after + rest));
    assert s == before + word + (after + rest);
  }

  /** The separator at an operator is the operator, with all its blanks. */
  lemma SeparatorIs(op: Operator, rest: string)
    requires IsAnyOperator(op) && (rest != [] ==> !IsSpace(rest[0]))
    ensures SeparatorLength(OpText(op) + rest) == |OpText(op)|
  {
    var tail := op.word + (op.after + rest);
    OperatorIsLetters(op);
    SeparatorParts(op.before, op.word, op.after, rest);
    assert tail[0] == op.word[0];
    BlanksAreCounted(op.before, tail);
    KeywordIsFound(op, op.after + rest);
    BlanksAreCounted(op.after, rest);
  }

  lemma LexSeparator(op: Operator, rest: string)
    requires IsAnyOperator(op) && (rest != [] ==> !IsSpace(rest[0]))
    ensures SeparatorLength(OpText(op) + rest) > 0
    ensures Lex(OpText(op) + rest, []) == [OpText(op)] + Lex(rest, [])
  {
    SeparatorIs(op, rest);
    OperatorIsLetters(op);
    assert OpText(op)[0] == op.before[0];
    LexAtSeparator(OpText(op), rest);
  }

  lemma LexAtSeparator(op: string, rest: string)
    requires op != [] && !IsParen(op[0]) && SeparatorLength(op + rest) == |op|
    ensures Lex(op + rest, []) == [op] + Lex(rest, [])
  {
    assert (op + rest)[..|op|] == op && (op + rest)[|op|..] == rest;
  }

  lemma {:induction false} PrintStartsSolid(e: Expr)
    requires Valid(e)
    ensures StartsSolid(Print(e))
    decreases Size(e)
  {
    match e
    case Id(n) =>
    case With(n, _, x) =>
    case And(l, _, r) => PrintStartsSolid(Factor(l));
    case Or(l, _, r) => PrintStartsSolid(l);
    case Paren(i) =>
  }

  lemma {:induction false} LexPrint(e: Expr, rest: string)
    requires Valid(e) && Boundary(rest)
    ensures Lex(Print(e) + rest, []) == Toks(e) + Lex(rest, [])
    decreases Size(e), 0
  {
    match e
    case Id(n) =>
      LexId(n, rest);
    case With(n, op, x) =>
      LexWith(n, op, x, rest);
      Associate(n, OpText(op), x, rest);
      Associate([n], [OpText(op)], [x], Lex(rest, []));
      assert [n] + [OpText(op)] + [x] == Toks(e);
    case And(l, op, r) =>
      LexBinary(Factor(l), op, Factor(r), rest);
      Associate(Print(Factor(l)), OpText(op), Print(Factor(r)), rest);
      Associate(Toks(Factor(l)), [OpText(op)], Toks(Factor(r)), Lex(rest, []));
    case Or(l, op, r) =>
      LexBinary(l, op, r, rest);
      Associate(Print(l), OpText(op), Print(r), rest);
      Associate(Toks(l), [OpText(op)], Toks(r), Lex(rest, []));
    case Paren(i) =>
      LexParen(i, rest);
      Associate("(", Print(i), ")", rest);
      Associate(["("], Toks(i), [")"], Lex(rest, []));
  }

  lemma Associate<T>(a: seq<T>, b: seq<T>, c: seq<T>, d: seq<T>)
    ensures a + b + c + d == a + (b + (c + d))
  {
  }

  /** After an identifier or a written tree `part`, an operator and what follows it. */
  lemma LexOperand(op: Operator, part: string, tail: seq<string>, rest: string)
    requires IsAnyOperator(op)
    requires StartsSolid(part)
    requires Lex(part + rest, []) == tail
    ensures Boundary(OpText(op) + (part + rest))
    ensures Lex(OpText(op) + (part + rest), []) == [OpText(op)] + tail
  {
    assert StartsSolid(part + rest);
    LexSeparator(op, part + rest);
  }

  lemma LexWith(n: string, op: Operator, x: string, rest: string)
    requires ValidId(n) && IsWith(op) && ValidId(x) && Boundary(rest)
    ensures Lex(n + (OpText(op) + (x + rest)), []) == [n] + ([OpText(op)] + ([x] + Lex(rest, [])))
  {
    LexId(x, rest);
    assert StartsSolid(x);
    LexOperand(op, x, [x] + Lex(rest, []), rest);
    LexId(n, OpText(op) + (x + rest));
  }

  lemma {:induction false} LexParen(i: Expr, rest: string)
    requires Valid(i)
    ensures Lex("(" + (Print(i) + (")" + rest)), []) == ["("] + (Toks(i) + ([")"] + Lex(rest, [])))
    decreases Size(i), 1
  {
    LexOpen(rest);
    assert (")" + rest)[0] == ')';
    LexPrint(i, ")" + rest);
    LexOpen(Print(i) + (")" + rest));
  }

  lemma {:induction false} LexBinary(l: Expr, op: Operator, r: Expr, rest: string)
    requires Valid(l) && Valid(r) && (IsAnd(op) || IsOr(op)) && Boundary(rest)
    ensures Lex(Print(l) + (OpText(op) + (Print(r) + rest)), []) == Toks(l) + ([OpText(op)] + (Toks(r) + Lex(rest, [])))
    decreases Size(l) + Size(r), 1
  {
    LexPrint(r, rest);
    PrintStartsSolid(r);
    LexOperand(op, Print(r), Toks(r) + Lex(rest, []), rest);
    LexPrint(l, OpText(op) + (Print(r) + rest));
  }

  /** The lexer cuts a written tree into exactly its tokens. */
  lemma LexerReadsTrees(e: Expr)
    requires Valid(e)
    ensures Lex(Print(e), []) == Toks(e)
  {
    LexPrint(e, []);
    assert Print(e) + [] == Print(e);
    assert Lex([], []) == [];
  }

  // --- Cutting any text ----------------------------------------------------------------------

  /** The text without its blanks. */
  function Ink(s: string): string {
    if s == [] then [] else (if IsSpace(s[0]) then [] else [s[0]]) + Ink(s[1..])
  }

  lemma {:induction false} InkOfConcat(a: string, b: string)
    ensures Ink(a + b) == Ink(a) + Ink(b)
  {
    if a == [] {
      assert a + b == b;
    } else {
      assert (a + b)[1..] == a[1..] + b;
      InkOfConcat(a[1..], b);
    }
  }

  lemma {:induction false} BlanksHaveNoInk(s: string)
    requires IsBlank(s)
    ensures Ink(s) == []
  {
    if s != [] {
      BlanksHaveNoInk(s[1..]);
    }
  }

  lemma InkOfFlush(text: string)
    ensures Ink(Concat(Flush(text))) == Ink(text)
  {
    if IsBlank(text) {
      BlanksHaveNoInk(text);
    } else {
      assert Concat([text]) == text + Concat([]) == text;
    }
  }

  lemma InkOfStep(text: string, token: string, rest: seq<string>)
    ensures Ink(Concat(Flush(text) + [token] + rest)) == Ink(text) + Ink(token) + Ink(Concat(rest))
  {
    ConcatAppend(Flush(text) + [token], rest);
    ConcatAppend(Flush(text), [token]);
    assert Concat([token]) == token + Concat([]) == token;
    InkOfConcat(Concat(Flush(text) + [token]), Concat(rest));
    InkOfConcat(Concat(Flush(text)), token);
    InkOfFlush(text);
  }

  lemma InkOfSplit(s: string, n: nat)
    requires n <= |s|
    ensures Ink(s) == Ink(s[..n]) + Ink(s[n..])
  {
    TakeAndDrop(s, n);
    InkOfConcat(s[..n], s[n..]);
  }

  lemma TakeAndDrop(s: string, n: nat)
    requires n <= |s|
    ensures s[..n] + s[n..] == s
  {
  }

  lemma InkOfFirst(s: string)
    requires s != []
    ensures Ink(s) == Ink([s[0]]) + Ink(s[1..])
  {
    assert [s[0]][1..] == [] && Ink([]) == [];
  }

  /** Length of the token cut off at the front, if one is. */
  function Cut(s: string): (n: nat)
    requires s != []
    ensures n <= |s|
  {
    if IsParen(s[0]) then 1 else SeparatorLength(s)
  }

  lemma LexCuts(s: string, text: string)
    requires s != [] && Cut(s) > 0
    ensures Lex(s, text) == Flush(text) + [s[..Cut(s)]] + Lex(s[Cut(s)..], [])
  {
    assert s[..1] == [s[0]];
  }

  lemma LexGoesOn(s: string, text: string)
    requires s != [] && Cut(s) == 0
    ensures Lex(s, text) == Lex(s[1..], text + [s[0]])
  {
  }

  lemma InkAfterCut(a: string, token: string, rest: string, parts: string)
    requires parts == Ink([]) + Ink(rest)
    ensures a + Ink(token) + parts == a + (Ink(token) + Ink(rest))
  {
  }

  /** Cutting a text loses nothing but blanks. */
  lemma {:induction false} CuttingLosesOnlyBlanks(s: string, text: string)
    ensures Ink(Concat(Lex(s, text))) == Ink(text) + Ink(s)
    decreases |s|
  {
    if s == [] {
      InkOfFlush(text);
    } else if Cut(s) > 0 {
      var (token, rest) := (s[..Cut(s)], s[Cut(s)..]);
      CuttingLosesOnlyBlanks(rest, []);
      LexCuts(s, text);
      InkOfStep(text, token, Lex(rest, []));
      InkOfSplit(s, Cut(s));
      InkAfterCut(Ink(text), token, rest, Ink(Concat(Lex(rest, []))));
    } else {
      LexGoesOn(s, text);
      CuttingLosesOnlyBlanks(s[1..], text + [s[0]]);
      InkOfConcat(text, [s[0]]);
      InkOfFirst(s);
      InkGrouped(Ink(text), Ink([s[0]]), Ink(s[1..]));
    }
  }

  lemma InkGrouped(a: string, b: string, c: string)
    ensures a + b + c == a + (b + c)
  {
  }

  /** A token is a parenthesis, or holds none and is not blank. */
  predicate IsToken(t: string) {
    t == "(" || t == ")" || (!IsBlank(t) && forall i | 0 <= i < |t| :: !IsParen(t[i]))
  }

  lemma KeywordIsLetters(s: string, i: nat)
    requires i < KeywordLength(s)
    ensures 'a' <= LowerChar(s[i]) <= 'z'
  {
    WordsAreSmall();
    var (low, k) := (Lower(s), KeywordLength(s));
    assert low[..k] == "and" || low[..k] == "or" || low[..k] == "with";
    assert low[..k][i] == low[i] == LowerChar(s[i]);
  }

  lemma NoParenInBlanks(s: string, i: nat)
    requires i < SpaceCount(s)
    ensures !IsParen(s[i])
  {
    LStripForm(s);
  }

  lemma NoParenInSeparator(s: string, i: nat)
    requires i < SeparatorLength(s)
    ensures !IsParen(s[i])
  {
    var a := SpaceCount(s);
    var k := KeywordLength(s[a..]);
    if i < a {
      NoParenInBlanks(s, i);
    } else if i < a + k {
      KeywordIsLetters(s[a..], i - a);
      assert s[i] == s[a..][i - a];
    } else {
      NoParenInBlanks(s[a + k..], i - a - k);
      assert s[i] == s[a + k..][i - a - k];
    }
  }

  lemma SeparatorIsAToken(s: string)
    requires SeparatorLength(s) > 0
    ensures IsToken(s[..SeparatorLength(s)])
  {
    var (t, a) := (s[..SeparatorLength(s)], SpaceCount(s));
    forall i: nat | i < |t| ensures !IsParen(t[i]) {
      NoParenInSeparator(s, i);
    }
    KeywordIsLetters(s[a..], 0);
    assert t[a] == s[a..][0] && !IsSpace(t[a]);
  }

  lemma {:induction false} TokensAreTokens(s: string, text: string)
    requires forall i | 0 <= i < |text| :: !IsParen(text[i])
    ensures forall t | t in Lex(s, text) :: IsToken(t)
    decreases |s|
  {
    if s == [] {
    } else if IsParen(s[0]) {
      TokensAreTokens(s[1..], []);
    } else if SeparatorLength(s) > 0 {
      SeparatorIsAToken(s);
      TokensAreTokens(s[SeparatorLength(s)..], []);
    } else {
      TokensAreTokens(s[1..], text + [s[0]]);
    }
  }

  // --- Normalising a written tree -----------------------------------------------------------

  function Lookup(table: Spellings, s: string): string {
    if Lower(s) in table then table[Lower(s)] else s
  }

  /** The tree without the dots at the end of its last identifier. */
  function Trim(e: Expr): (t: Expr)
    ensures Size(t) == Size(e) && t.Or? == e.Or? && t.Id? == e.Id?
    decreases Size(e)
  {
    match e
    case Id(n) => Id(StripDots(n))
    case With(n, op, x) => With(n, op, StripDots(x))
    case And(l, op, r) => if r.Or? then e else And(l, op, Trim(r))
    case Or(l, op, r) => Or(l, op, Trim(r))
    case Paren(_) => e
  }

  lemma {:induction false} StripDotsIdempotent(s: string)
    ensures StripDots(StripDots(s)) == StripDots(s)
  {
    if s != [] && s[|s| - 1] == '.' {
      StripDotsIdempotent(s[..|s| - 1]);
    }
  }

  lemma TrimmedIdIsValid(n: string)
    requires ValidId(n)
    ensures ValidId(StripDots(n))
  {
    StripDotsIdempotent(n);
  }

  lemma {:induction false} StripDotsOfConcat(a: string, b: string)
    requires StripDots(b) != []
    ensures StripDots(a + b) == a + StripDots(b)
    decreases |b|
  {
    if b[|b| - 1] == '.' {
      StripDotsOfConcat(a, b[..|b| - 1]);
      assert (a + b)[..|a + b| - 1] == a + b[..|b| - 1];
    }
  }

  lemma EndsWithParen(s: string)
    requires s != [] && s[|s| - 1] == ')'
    ensures StripDots(s) == s
  {
  }

  lemma {:induction false} TrimIsStripDots(e: Expr)
    requires Valid(e)
    ensures Valid(Trim(e)) && StripDots(Print(e)) == Print(Trim(e)) && Print(Trim(e)) != []
    decreases Size(e)
  {
    match e
    case Id(n) =>
      TrimmedIdIsValid(n);
    case With(n, op, x) =>
      TrimmedIdIsValid(x);
      StripDotsOfConcat(n + OpText(op), x);
    case And(l, op, r) =>
      if r.Or? {
        var last := Print(Factor(r));
        assert last[|last| - 1] == ')' && Print(e)[|Print(e)| - 1] == last[|last| - 1];
        EndsWithParen(Print(e));
      } else {
        TrimIsStripDots(r);
        StripDotsOfConcat(Print(Factor(l)) + OpText(op), Print(r));
      }
    case Or(l, op, r) =>
      TrimIsStripDots(r);
      StripDotsOfConcat(Print(l) + OpText(op), Print(r));
    case Paren(i) =>
      EndsWithParen(Print(e));
  }

  lemma TrimmedIdMeansTheSame(table: Spellings, allow: set<string>, n: string)
    requires ValidId(n)
    ensures Normalise(table, n) == Lookup(table, StripDots(n))
    ensures Normalise(table, StripDots(n)) == Normalise(table, n)
  {
    TrimmedIdIsValid(n);
    StripDotsIdempotent(n);
    NormaliseSolid(table, n);
    NormaliseSolid(table, StripDots(n));
  }

  lemma {:induction false} TrimMeansTheSame(table: Spellings, allow: set<string>, e: Expr)
    requires Valid(e)
    ensures Meaning(table, allow, Trim(e)) == Meaning(table, allow, e)
    decreases Size(e)
  {
    match e
    case Id(n) => TrimmedIdMeansTheSame(table, allow, n);
    case With(n, _, x) =>
    case And(l, _, r) => if !r.Or? { TrimMeansTheSame(table, allow, r); }
    case Or(l, _, r) => TrimMeansTheSame(table, allow, r);
    case Paren(i) =>
  }

  /** Text that normalising does not strip: no blank at its ends, no quote, no double colon. */
  predicate Solid(s: string) {
    && s != [] && !IsSpace(s[0]) && !IsSpace(s[|s| - 1])
    && (forall i | 0 <= i < |s| :: s[i] != '"' && s[i] != ';')
    && NoDoubleColon(s)
  }

  lemma ColonsAreDouble(s: string, rest: string)
    requires |rest| <= |s| && rest == s[|s| - |rest|..] && StartsWith(rest, "::")
    ensures !NoDoubleColon(s)
  {
    var i := |s| - |rest|;
    assert s[i] == rest[0] == ':' && s[i + 1] == rest[1] == ':';
  }

  lemma DropPrefixOfSolid(s: string, word: string)
    requires NoDoubleColon(s)
    ensures DropPrefix(s, word) == s
  {
    if StartsWith(Lower(s), word) {
      var after := s[|word|..];
      var rest := LStrip(after);
      LStripForm(after);
      if StartsWith(rest, "::") {
        ColonsAreDouble(s, rest);
        assert false;
      }
    }
  }

  lemma StripOfSolid(s: string)
    requires Solid(s)
    ensures Strip(s) == s && StripQuotesLeft(s) == s && StripQuotesRight(s) == s
  {
  }

  lemma NormaliseSolid(table: Spellings, s: string)
    requires Solid(s) || ValidId(s)
    ensures Normalise(table, s) == Lookup(table, StripDots(s))
  {
    if ValidId(s) {
      assert s != [];
      assert Solid(s);
    }
    StripOfSolid(s);
    var text := StripDots(s);
    assert NoDoubleColon(text);
    DropPrefixOfSolid(text, "license");
    DropPrefixOfSolid(text, "osi approved");
  }

  lemma OperatorIsClean(op: Operator, i: nat)
    requires IsAnyOperator(op) && i < |OpText(op)|
    ensures OpText(op)[i] != '"' && OpText(op)[i] != ';' && OpText(op)[i] != ':'
    ensures i == 0 || i == |OpText(op)| - 1 ==> IsSpace(OpText(op)[i])
  {
    OperatorIsLetters(op);
    var (a, k) := (|op.before|, |op.word|);
    if i < a {
      assert OpText(op)[i] == op.before[i];
    } else if i < a + k {
      assert OpText(op)[i] == op.word[i - a];
    } else {
      assert OpText(op)[i] == op.after[i - a - k];
    }
  }

  lemma ColonsJoined(a: string, op: string, b: string)
    requires NoDoubleColon(a) && NoDoubleColon(b)
    requires op != [] && forall i | 0 <= i < |op| :: op[i] != ':'
    ensures NoDoubleColon(a + op + b)
  {
    var s := a + op + b;
    forall i | 0 < i < |s| ensures !(s[i - 1] == ':' && s[i] == ':') {
      if i < |a| {
        assert s[i - 1] == a[i - 1] && s[i] == a[i];
      } else if i > |a| + |op| {
        assert s[i - 1] == b[i - 1 - |a| - |op|] && s[i] == b[i - |a| - |op|];
      } else if i < |a| + |op| {
        assert s[i] == op[i - |a|];
      } else {
        assert s[i - 1] == op[i - 1 - |a|];
      }
    }
  }

  lemma SolidJoined(a: string, op: Operator, b: string)
    requires Solid(a) && Solid(b) && IsAnyOperator(op)
    ensures Solid(a + OpText(op) + b)
  {
    forall i: nat | i < |OpText(op)|
      ensures OpText(op)[i] != '"' && OpText(op)[i] != ';' && OpText(op)[i] != ':'
    {
      OperatorIsClean(op, i);
    }
    ColonsJoined(a, OpText(op), b);
  }

  lemma SolidInParens(a: string)
    requires Solid(a)
    ensures Solid("(" + a + ")")
  {
    var s := "(" + a + ")";
    forall i | 0 < i < |s| ensures !(s[i - 1] == ':' && s[i] == ':') {
      if 1 < i < |s| - 1 {
        assert s[i - 1] == a[i - 2] && s[i] == a[i - 1];
      }
    }
  }

  lemma {:induction false} PrintIsSolid(e: Expr)
    requires Valid(e)
    ensures Solid(Print(e))
    decreases Size(e)
  {
    match e
    case Id(n) =>
    case With(n, op, x) =>
      SolidJoined(n, op, x);
    case And(l, op, r) =>
      PrintIsSolid(Factor(l));
      PrintIsSolid(Factor(r));
      SolidJoined(Print(Factor(l)), op, Print(Factor(r)));
    case Or(l, op, r) =>
      PrintIsSolid(l);
      PrintIsSolid(r);
      SolidJoined(Print(l), op, Print(r));
    case Paren(i) =>
      PrintIsSolid(i);
      SolidInParens(Print(i));
  }

  // --- The spellings table ------------------------------------------------------------------

  /** A spelling of one licence: it opens no parenthesis first, and its second word is no operator. */
  predicate PlainSpelling(key: string) {
    && (key != [] ==> key[0] != '(')
    && KeywordLength(LStrip(SecondWord(key))) == 0
  }

  /** What follows the first blank. */
  function SecondWord(key: string): string {
    if key == [] then [] else if IsSpace(key[0]) then key[1..] else SecondWord(key[1..])
  }

  lemma {:induction false} SecondWordIs(head: string, blank: char, rest: string)
    requires (forall i | 0 <= i < |head| :: !IsSpace(head[i])) && IsSpace(blank)
    ensures SecondWord(head + [blank] + rest) == rest
  {
    var s := head + [blank] + rest;
    if head == [] {
      assert s[1..] == rest;
    } else {
      assert s[1..] == head[1..] + [blank] + rest;
      SecondWordIs(head[1..], blank, rest);
    }
  }

  /** What the gate relies on: keys are spellings of one licence, and values are final identifiers. */
  predicate TableOk(table: Spellings) {
    forall k | k in table ::
      && PlainSpelling(k)
      && ValidId(table[k]) && StripDots(table[k]) == table[k]
      && Lookup(table, table[k]) == table[k]
  }

  /** An identifier, an operator and what follows. */
  predicate IsSpaced(text: string, head: string, op: Operator, rest: string) {
    text == head + OpText(op) + rest && ValidId(head) && IsAnyOperator(op)
  }

  ghost predicate IsCompound(text: string) {
    text != [] && (text[..1] == "(" || exists head, op, rest :: IsSpaced(text, head, op, rest))
  }

  lemma CompoundGoesOn(text: string, op: Operator, tail: string)
    requires IsCompound(text)
    ensures IsCompound(text + OpText(op) + tail)
  {
    if text[..1] == "(" {
      assert (text + OpText(op) + tail)[..1] == text[..1];
    } else {
      var head, op1, rest :| IsSpaced(text, head, op1, rest);
      Reassociate(head, OpText(op1), rest, OpText(op), tail);
      assert IsSpaced(text + OpText(op) + tail, head, op1, rest + OpText(op) + tail);
    }
  }

  /** A written tree that is no single identifier opens a parenthesis or has an operator as second word. */
  lemma {:induction false} CompoundShape(e: Expr)
    requires Valid(e) && !e.Id?
    ensures IsCompound(Print(e))
    decreases Size(e)
  {
    match e
    case With(n, op, x) =>
      assert IsSpaced(Print(e), n, op, x);
    case And(l, op, r) =>
      if l.Id? {
        assert IsSpaced(Print(e), l.name, op, Print(Factor(r)));
      } else {
        CompoundShape(Factor(l));
        CompoundGoesOn(Print(Factor(l)), op, Print(Factor(r)));
      }
    case Or(l, op, r) =>
      if l.Id? {
        assert IsSpaced(Print(e), l.name, op, Print(r));
      } else {
        CompoundShape(l);
        CompoundGoesOn(Print(l), op, Print(r));
      }
    case Paren(i) =>
  }

  lemma Reassociate(head: string, op: string, rest: string, op2: string, tail: string)
    ensures head + op + rest + op2 + tail == head + op + (rest + op2 + tail)
  {
  }

  lemma LowerOfBlanks(blanks: string)
    requires IsBlank(blanks)
    ensures Lower(blanks) == blanks
  {
  }

  lemma LowerTwice(s: string)
    ensures Lower(Lower(s)) == Lower(s)
  {
  }

  lemma OperatorIsKeyword(op: Operator, rest: string)
    requires IsAnyOperator(op)
    ensures KeywordLength(Lower(op.word + rest)) > 0
  {
    OperatorIsLetters(op);
    KeywordIsFound(op, rest);
    LowerTwice(op.word + rest);
  }

  /** What an operator and the text after it are in small letters. */
  lemma LowerOfParts(head: string, op: Operator, rest: string)
    requires IsAnyOperator(op)
    ensures Lower(head + OpText(op) + rest) ==
            Lower(head) + [op.before[0]] + (op.before[1..] + Lower(op.word + (op.after + rest)))
  {
    OperatorIsLetters(op);
    var tail := op.word + (op.after + rest);
    assert head + OpText(op) + rest == head + (op.before + tail);
    LowerOfConcat(head, op.before + tail);
    LowerOfConcat(op.before, tail);
    LowerOfBlanks(op.before);
    FirstApart(Lower(head), op.before, Lower(tail));
  }

  lemma FirstApart(a: string, b: string, c: string)
    requires b != []
    ensures a + (b + c) == a + [b[0]] + (b[1..] + c)
  {
  }

  lemma SpacedIsNoSpelling(head: string, op: Operator, rest: string)
    requires ValidId(head) && IsAnyOperator(op)
    ensures !PlainSpelling(Lower(head + OpText(op) + rest))
  {
    OperatorIsLetters(op);
    OperatorIsKeyword(op, op.after + rest);
    var low := Lower(head);
    forall i | 0 <= i < |low| ensures !IsSpace(low[i]) {
      assert IsIdChar(head[i]);
    }
    LowerOfParts(head, op, rest);
    var second := Lower(op.word + (op.after + rest));
    assert second[0] == LowerChar(op.word[0]);
    SecondWordIs(low, op.before[0], op.before[1..] + second);
    BlanksAreStripped(op.before[1..], second);
  }

  lemma CompoundIsNoSpelling(e: Expr)
    requires Valid(e) && !e.Id?
    ensures !PlainSpelling(Lower(Print(e)))
  {
    CompoundShape(e);
    if Print(e)[..1] == "(" {
      assert Print(e)[0] == '(' && Lower(Print(e))[0] == '(';
    } else {
      var head, op, rest :| IsSpaced(Print(e), head, op, rest);
      SpacedIsNoSpelling(head, op, rest);
    }
  }

  /** The tree that is left after a whole written expression is normalised. */
  function NormTree(table: Spellings, e: Expr): Expr {
    var t := Trim(e);
    if t.Id? then Id(Lookup(table, t.name)) else t
  }

  lemma NormTreeIsRight(table: Spellings, allow: set<string>, e: Expr)
    requires Valid(e) && TableOk(table)
    ensures Valid(NormTree(table, e))
    ensures Normalise(table, Print(e)) == Print(NormTree(table, e))
    ensures Meaning(table, allow, NormTree(table, e)) == Meaning(table, allow, e)
  {
    PrintIsSolid(e);
    NormaliseSolid(table, Print(e));
    TrimIsStripDots(e);
    TrimMeansTheSame(table, allow, e);
    var t := Trim(e);
    if t.Id? {
      TrimmedIdMeansTheSame(table, allow, e.name);
      var v := Lookup(table, t.name);
      StripDotsIdempotent(e.name);
      assert ValidId(v) && StripDots(v) == v && Lookup(table, v) == v;
      NormaliseSolid(table, v);
    } else {
      CompoundIsNoSpelling(t);
    }
  }

  // --- Several licences, separated by semicolons ---------------------------------------------

  /** Texts, one after the other, as a list of classifiers is joined. */
  function Listed(texts: seq<string>): string { Join("; ", texts) }

  function Prints(es: seq<Expr>): seq<string> {
    seq(|es|, i requires 0 <= i < |es| => Print(es[i]))
  }

  /** The one tree that offers all of them. */
  function AnyOf(trees: seq<Expr>): Expr
    requires trees != []
  {
    if |trees| == 1 then trees[0] else Or(trees[0], OR, AnyOf(trees[1..]))
  }

  function Joined(table: Spellings, s: string): string {
    Join(" OR ", NormaliseAll(table, Pieces(s)))
  }

  lemma {:induction false} PiecesOfSolid(a: string, rest: string)
    requires forall i | 0 <= i < |a| :: a[i] != ';'
    ensures Pieces(a) == [a]
    ensures Pieces(a + (";" + rest)) == [a] + Pieces(rest)
  {
    if a == [] {
      assert a + (";" + rest) == ";" + rest && (";" + rest)[1..] == rest;
    } else {
      PiecesOfSolid(a[1..], rest);
      assert (a + (";" + rest))[1..] == a[1..] + (";" + rest);
      assert [a[0]] + a[1..] == a;
    }
  }

  lemma PieceIsStripped(table: Spellings, piece: string)
    ensures Normalise(table, [' '] + piece) == Normalise(table, piece)
  {
    assert ([' '] + piece)[1..] == piece;
    assert Strip([' '] + piece) == Strip(piece);
  }

  lemma NormaliseHead(table: Spellings, x: string, y: string, rest: seq<string>)
    requires Normalise(table, x) == Normalise(table, y)
    ensures NormaliseAll(table, [x] + rest) == NormaliseAll(table, [y] + rest)
  {
  }

  lemma PiecesOfPadded(s: string)
    ensures Pieces(" " + s) == [[' '] + Pieces(s)[0]] + Pieces(s)[1..]
  {
    assert (" " + s)[1..] == s;
  }

  /** A blank before an expression does not matter. */
  lemma PadIsStripped(table: Spellings, s: string)
    ensures NormaliseAll(table, Pieces(" " + s)) == NormaliseAll(table, Pieces(s))
  {
    var ps := Pieces(s);
    PiecesOfPadded(s);
    PieceIsStripped(table, ps[0]);
    NormaliseHead(table, [' '] + ps[0], ps[0], ps[1..]);
    assert [ps[0]] + ps[1..] == ps;
  }

  lemma JoinedSingle(table: Spellings, a: string)
    requires forall i | 0 <= i < |a| :: a[i] != ';'
    ensures Joined(table, a) == Normalise(table, a)
  {
    PiecesOfSolid(a, []);
  }

  lemma JoinedStep(table: Spellings, a: string, rest: string)
    requires forall i | 0 <= i < |a| :: a[i] != ';'
    ensures Joined(table, a + ("; " + rest)) == Normalise(table, a) + OpText(OR) + Joined(table, rest)
  {
    assert ";" + (" " + rest) == "; " + rest;
    PiecesOfSolid(a, " " + rest);
    PadIsStripped(table, rest);
    JoinStep(table, a, Pieces(" " + rest));
    SemicolonOperator();
  }

  lemma SemicolonOperator()
    ensures OpText(OR) == " OR " && IsOr(OR)
  {
    assert Lower("OR") == "or";
  }

  lemma JoinStep(table: Spellings, a: string, ps: seq<string>)
    requires ps != []
    ensures Join(" OR ", NormaliseAll(table, [a] + ps)) == Normalise(table, a) + " OR " + Join(" OR ", NormaliseAll(table, ps))
  {
    var all := NormaliseAll(table, [a] + ps);
    assert all[1..] == NormaliseAll(table, ps);
  }

  /** The text is one piece, and normalises to the written tree. */
  predicate ReadsAsTree(table: Spellings, text: string, t: Expr) {
    ';' !in text && Valid(t) && Normalise(table, text) == Print(t)
  }

  lemma ListedMore(texts: seq<string>)
    requires |texts| > 1
    ensures Listed(texts) == texts[0] + ("; " + Listed(texts[1..]))
  {
  }

  lemma {:induction false} ListIsJoined(table: Spellings, texts: seq<string>, trees: seq<Expr>)
    requires |texts| == |trees| > 0
    requires forall i | 0 <= i < |texts| :: ReadsAsTree(table, texts[i], trees[i])
    ensures Joined(table, Listed(texts)) == Print(AnyOf(trees))
  {
    assert ReadsAsTree(table, texts[0], trees[0]);
    if |texts| == 1 {
      JoinedSingle(table, texts[0]);
    } else {
      ListIsJoined(table, texts[1..], trees[1..]);
      ListedMore(texts);
      JoinedStep(table, texts[0], Listed(texts[1..]));
    }
  }

  lemma {:induction false} AnyOfIsValid(trees: seq<Expr>)
    requires trees != [] && forall i | 0 <= i < |trees| :: Valid(trees[i])
    ensures Valid(AnyOf(trees))
  {
    if |trees| > 1 {
      AnyOfIsValid(trees[1..]);
      SemicolonOperator();
    }
  }

  lemma {:induction false} AnyOfMeans(table: Spellings, allow: set<string>, trees: seq<Expr>)
    requires trees != []
    ensures Meaning(table, allow, AnyOf(trees)) <==> exists i | 0 <= i < |trees| :: Meaning(table, allow, trees[i])
  {
    if |trees| > 1 {
      AnyOfMeans(table, allow, trees[1..]);
      SomeMeans(table, allow, trees);
    }
  }

  lemma SomeMeans(table: Spellings, allow: set<string>, es: seq<Expr>)
    requires es != []
    ensures (exists i | 0 <= i < |es| :: Meaning(table, allow, es[i])) <==>
            Meaning(table, allow, es[0]) || exists i | 0 <= i < |es[1..]| :: Meaning(table, allow, es[1..][i])
  {
    assert forall i | 0 < i < |es| :: es[i] == es[1..][i - 1];
    assert forall i | 0 <= i < |es[1..]| :: es[1..][i] == es[i + 1];
  }

  lemma GateReadsTokens(table: Spellings, allow: set<string>, t: Expr)
    requires Valid(t)
    ensures Accepts(Symbols(table, allow, Toks(t))) <==> Meaning(table, allow, t)
  {
    TreeHasTheTokens(Reader(table, allow), t);
    TreeIsRight(table, allow, t);
    RelaxedTreeIsRead(TreeOf(table, allow, t));
  }

  /** The gate on any texts that normalise to written trees: it accepts their list exactly when one of the
      trees means an allowed licence. */
  lemma GateOnTexts(table: Spellings, allow: set<string>, texts: seq<string>, trees: seq<Expr>)
    requires |texts| == |trees| > 0
    requires forall i | 0 <= i < |texts| :: ReadsAsTree(table, texts[i], trees[i])
    ensures Allowed(table, allow, Listed(texts)) <==> exists i | 0 <= i < |trees| :: Meaning(table, allow, trees[i])
  {
    assert forall i | 0 <= i < |trees| :: ReadsAsTree(table, texts[i], trees[i]) ==> Valid(trees[i]);
    ListIsJoined(table, texts, trees);
    AnyOfIsValid(trees);
    AnyOfMeans(table, allow, trees);
    LexerReadsTrees(AnyOf(trees));
    GateReadsTokens(table, allow, AnyOf(trees));
    assert Tokens(table, Listed(texts)) == Lex(Joined(table, Listed(texts)), []);
  }

  lemma PrintReadsAsTree(table: Spellings, e: Expr)
    requires Valid(e) && TableOk(table)
    ensures ReadsAsTree(table, Print(e), NormTree(table, e))
  {
    NormTreeIsRight(table, {}, e);
    PrintIsSolid(e);
  }

  /** The gate is right on written expressions: it accepts a list of them exactly when one of them means
      an allowed licence. For a single expression this is its own meaning. */
  lemma GateIsRight(table: Spellings, allow: set<string>, es: seq<Expr>)
    requires es != [] && TableOk(table)
    requires forall i | 0 <= i < |es| :: Valid(es[i])
    ensures Allowed(table, allow, Listed(Prints(es))) <==> exists i | 0 <= i < |es| :: Meaning(table, allow, es[i])
  {
    var trees := seq(|es|, i requires 0 <= i < |es| => NormTree(table, es[i]));
    forall i | 0 <= i < |es|
      ensures ReadsAsTree(table, Prints(es)[i], trees[i]) && Meaning(table, allow, trees[i]) == Meaning(table, allow, es[i])
    {
      PrintReadsAsTree(table, es[i]);
      NormTreeIsRight(table, allow, es[i]);
    }
    GateOnTexts(table, allow, Prints(es), trees);
  }

  lemma ListedFew(a: string, b: string)
    ensures Listed([a]) == a && Listed([a, b]) == a + ("; " + b)
  {
    assert [a, b][1..] == [b] && Listed([b]) == b;
    ListedMore([a, b]);
  }

  lemma GateOnOne(table: Spellings, allow: set<string>, e: Expr)
    requires Valid(e) && TableOk(table)
    ensures Allowed(table, allow, Print(e)) <==> Meaning(table, allow, e)
  {
    ListedFew(Print(e), "");
    assert Prints([e]) == [Print(e)] && [e][0] == e;
    GateIsRight(table, allow, [e]);
  }

  lemma PrintsOfTwo(a: Expr, b: Expr)
    ensures Prints([a, b]) == [Print(a), Print(b)]
  {
  }

  lemma SomeOfTwo(table: Spellings, allow: set<string>, a: Expr, b: Expr)
    ensures (exists i | 0 <= i < |[a, b]| :: Meaning(table, allow, [a, b][i])) <==> Meaning(table, allow, a) || Meaning(table, allow, b)
  {
    assert [a, b][0] == a && [a, b][1] == b;
  }

  lemma GateOnTwo(table: Spellings, allow: set<string>, a: Expr, b: Expr)
    requires Valid(a) && Valid(b) && TableOk(table)
    ensures Allowed(table, allow, Print(a) + ("; " + Print(b))) <==> Meaning(table, allow, a) || Meaning(table, allow, b)
  {
    ListedFew(Print(a), Print(b));
    PrintsOfTwo(a, b);
    GateIsRight(table, allow, [a, b]);
    SomeOfTwo(table, allow, a, b);
  }

  /** Two licences with a semicolon between them are a choice, like the same two under OR. */
  lemma SemicolonIsOr(table: Spellings, allow: set<string>, a: Expr, op: Operator, b: Expr)
    requires Valid(a) && IsOr(op) && Valid(b) && TableOk(table)
    ensures Allowed(table, allow, Print(a) + ("; " + Print(b))) <==> Allowed(table, allow, Print(Or(a, op, b)))
    ensures Allowed(table, allow, Print(Or(a, op, b))) <==> Meaning(table, allow, a) || Meaning(table, allow, b)
  {
    GateOnTwo(table, allow, a, b);
    GateOnOne(table, allow, Or(a, op, b));
  }

  /** The same expression, but for how its operators are written. */
  predicate SameButOperators(a: Expr, b: Expr) {
    match (a, b)
    case (Id(n), Id(m)) => n == m
    case (With(n, _, x), With(m, _, y)) => n == m && x == y
    case (And(l, _, r), And(l2, _, r2)) => SameButOperators(l, l2) && SameButOperators(r, r2)
    case (Or(l, _, r), Or(l2, _, r2)) => SameButOperators(l, l2) && SameButOperators(r, r2)
    case (Paren(i), Paren(j)) => SameButOperators(i, j)
    case _ => false
  }

  lemma {:induction false} SameButOperatorsMeanTheSame(table: Spellings, allow: set<string>, a: Expr, b: Expr)
    requires SameButOperators(a, b)
    ensures Meaning(table, allow, a) == Meaning(table, allow, b)
  {
    match (a, b)
    case (And(l, _, r), And(l2, _, r2)) =>
      SameButOperatorsMeanTheSame(table, allow, l, l2);
      SameButOperatorsMeanTheSame(table, allow, r, r2);
    case (Or(l, _, r), Or(l2, _, r2)) =>
      SameButOperatorsMeanTheSame(table, allow, l, l2);
      SameButOperatorsMeanTheSame(table, allow, r, r2);
    case (Paren(i), Paren(j)) =>
      SameButOperatorsMeanTheSame(table, allow, i, j);
    case _ =>
  }

  /** The case of the operators and the blanks around them do not matter. */
  lemma OperatorsMayBeWrittenAnyWay(table: Spellings, allow: set<string>, a: Expr, b: Expr)
    requires Valid(a) && Valid(b) && SameButOperators(a, b) && TableOk(table)
    ensures Allowed(table, allow, Print(a)) <==> Allowed(table, allow, Print(b))
  {
    GateOnOne(table, allow, a);
    GateOnOne(table, allow, b);
    SameButOperatorsMeanTheSame(table, allow, a, b);
  }
}
