/** The recursive-descent evaluator of licence expressions, over one shared position. */
module LicenseParser {
  import opened Text
  import opened LicenseLexer

  // --- What each procedure computes, as a function of the position --------------------------

  datatype Kind = Open | Close | OrWord | AndWord | WithWord | Other

  /** A token as the procedures see it: what it reads as, and whether its licence is allowed. Both tests
      depend on the token alone, so they are made once for each. */
  datatype Symbol = Symbol(kind: Kind, granted: bool)

  type Input = seq<Symbol>

  function KindOf(token: string): Kind {
    if token == "(" then Open
    else if token == ")" then Close
    else if IsKeyword(token, "or") then OrWord
    else if IsKeyword(token, "and") then AndWord
    else if IsKeyword(token, "with") then WithWord
    else Other
  }

  function SymbolOf(table: Spellings, allow: set<string>, token: string): Symbol {
    Symbol(KindOf(token), Normalise(table, token) in allow)
  }

  function Map<A, B>(f: A -> B, xs: seq<A>): seq<B> {
    seq(|xs|, i requires 0 <= i < |xs| => f(xs[i]))
  }

  function Reader(table: Spellings, allow: set<string>): string -> Symbol {
    (token: string) => SymbolOf(table, allow, token)
  }

  function Symbols(table: Spellings, allow: set<string>, tokens: seq<string>): Input {
    Map(Reader(table, allow), tokens)
  }

  /** What a procedure returns, and the position it leaves. */
  datatype Outcome = Outcome(value: bool, pos: nat)

  predicate Next(g: Input, pos: nat, kind: Kind) {
    pos < |g| && g[pos].kind == kind
  }

  function Left(g: Input, pos: nat): nat {
    if pos < |g| then |g| - pos else 0
  }

  /** The value read from `pos` on, and the position after it. */
  function EvalOr(g: Input, pos: nat): (r: Outcome)
    ensures r.pos >= pos && (pos < |g| ==> r.pos > pos)
    decreases Left(g, pos), 4
  {
    var first := EvalAnd(g, pos);
    OrRest(g, first.pos, first.value)
  }

  function OrRest(g: Input, pos: nat, value: bool): (r: Outcome)
    ensures r.pos >= pos
    decreases Left(g, pos), 3
  {
    if Next(g, pos, OrWord) then
      var side := EvalAnd(g, pos + 1);
      OrRest(g, side.pos, side.value || value)
    else Outcome(value, pos)
  }

  function EvalAnd(g: Input, pos: nat): (r: Outcome)
    ensures r.pos >= pos && (pos < |g| ==> r.pos > pos)
    decreases Left(g, pos), 2
  {
    var first := EvalAtom(g, pos);
    AndRest(g, first.pos, first.value)
  }

  function AndRest(g: Input, pos: nat, value: bool): (r: Outcome)
    ensures r.pos >= pos
    decreases Left(g, pos), 1
  {
    if Next(g, pos, AndWord) then
      var side := EvalAtom(g, pos + 1);
      AndRest(g, side.pos, side.value && value)
    else Outcome(value, pos)
  }

  function EvalAtom(g: Input, pos: nat): (r: Outcome)
    ensures r.pos >= pos && (pos < |g| ==> r.pos > pos)
    decreases Left(g, pos), 0
  {
    if pos >= |g| then Outcome(false, pos)
    else if g[pos].kind.Open? then
      var inner := EvalOr(g, pos + 1);
      Outcome(inner.value, inner.pos + 1)
    else
      Outcome(g[pos].granted, if Next(g, pos + 1, WithWord) then pos + 3 else pos + 1)
  }

  predicate Accepts(g: Input) {
    g != [] && EvalOr(g, 0) == Outcome(true, |g|)
  }

  /** The licence gate. */
  predicate Allowed(table: Spellings, allow: set<string>, expression: string) {
    Accepts(Symbols(table, allow, Tokens(table, expression)))
  }

  // --- The procedures ---------------------------------------------------------------------

  lemma OrRestStep(g: Input, pos: nat, value: bool)
    requires Next(g, pos, OrWord)
    ensures
      var side := EvalAnd(g, pos + 1);
      Left(g, side.pos) < Left(g, pos) && OrRest(g, pos, value) == OrRest(g, side.pos, side.value || value)
  {
  }

  lemma AndRestStep(g: Input, pos: nat, value: bool)
    requires Next(g, pos, AndWord)
    ensures
      var side := EvalAtom(g, pos + 1);
      Left(g, side.pos) < Left(g, pos) && AndRest(g, pos, value) == AndRest(g, side.pos, side.value && value)
  {
  }

  class Parser {
    const g: Input
    var pos: nat

    constructor (g: Input)
      ensures this.g == g && pos == 0
    {
      this.g := g;
      pos := 0;
    }

    method ParseOr() returns (value: bool)
      modifies this
      ensures Outcome(value, pos) == EvalOr(g, old(pos))
      decreases Left(g, pos), 4
    {
      ghost var result := EvalOr(g, pos);
      value := ParseAnd();
      while Next(g, pos, OrWord)
        invariant Left(g, pos) <= old(Left(g, pos)) && (Left(g, pos) > 0 ==> Left(g, pos) < old(Left(g, pos)))
        invariant OrRest(g, pos, value) == result
        decreases Left(g, pos)
      {
        OrRestStep(g, pos, value);
        pos := pos + 1;
        var v := ParseAnd();
        value := v || value;
      }
    }

    method ParseAnd() returns (value: bool)
      modifies this
      ensures Outcome(value, pos) == EvalAnd(g, old(pos))
      decreases Left(g, pos), 2
    {
      ghost var result := EvalAnd(g, pos);
      value := ParseAtom();
      while Next(g, pos, AndWord)
        invariant Left(g, pos) <= old(Left(g, pos)) && (Left(g, pos) > 0 ==> Left(g, pos) < old(Left(g, pos)))
        invariant AndRest(g, pos, value) == result
        decreases Left(g, pos)
      {
        AndRestStep(g, pos, value);
        pos := pos + 1;
        var v := ParseAtom();
        value := v && value;
      }
    }

    method ParseAtom() returns (value: bool)
      modifies this
      ensures Outcome(value, pos) == EvalAtom(g, old(pos))
      decreases Left(g, pos), 0
    {
      if pos >= |g| {
        return false;
      }
      var piece := g[pos];
      pos := pos + 1;
      if piece.kind.Open? {
        value := ParseOr();
        pos := pos + 1;
        return;
      }
      if Next(g, pos, WithWord) {
        pos := pos + 2;
      }
      value := piece.granted;
    }
  }

  method CheckAllowed(table: Spellings, allow: set<string>, expression: string) returns (ok: bool)
    ensures ok == Allowed(table, allow, expression)
  {
    var g := Symbols(table, allow, Tokens(table, expression));
    var parser := new Parser(g);
    var result := parser.ParseOr();
    ok := g != [] && result && parser.pos == |g|;
  }

  // --- The allow-set ----------------------------------------------------------------------

  /** `big` accepts no less than `small`, and reads as far. */
  predicate Grows(small: Outcome, big: Outcome) {
    small.pos == big.pos && (small.value ==> big.value)
  }

  predicate Extends(g: Input, h: Input) {
    |g| == |h| && forall i | 0 <= i < |g| :: g[i].kind == h[i].kind && (g[i].granted ==> h[i].granted)
  }

  lemma {:induction false} OrGrows(g: Input, h: Input, pos: nat)
    requires Extends(g, h)
    ensures Grows(EvalOr(g, pos), EvalOr(h, pos))
    decreases Left(g, pos), 4
  {
    AndGrows(g, h, pos);
    var (a, b) := (EvalAnd(g, pos), EvalAnd(h, pos));
    OrRestGrows(g, h, a.pos, a.value, b.value);
  }

  lemma {:induction false} OrRestGrows(g: Input, h: Input, pos: nat, v: bool, w: bool)
    requires Extends(g, h) && (v ==> w)
    ensures Grows(OrRest(g, pos, v), OrRest(h, pos, w))
    decreases Left(g, pos), 3
  {
    if Next(g, pos, OrWord) {
      AndGrows(g, h, pos + 1);
      var (a, b) := (EvalAnd(g, pos + 1), EvalAnd(h, pos + 1));
      OrRestGrows(g, h, a.pos, a.value || v, b.value || w);
    }
  }

  lemma {:induction false} AndGrows(g: Input, h: Input, pos: nat)
    requires Extends(g, h)
    ensures Grows(EvalAnd(g, pos), EvalAnd(h, pos))
    decreases Left(g, pos), 2
  {
    AtomGrows(g, h, pos);
    var (a, b) := (EvalAtom(g, pos), EvalAtom(h, pos));
    AndRestGrows(g, h, a.pos, a.value, b.value);
  }

  lemma {:induction false} AndRestGrows(g: Input, h: Input, pos: nat, v: bool, w: bool)
    requires Extends(g, h) && (v ==> w)
    ensures Grows(AndRest(g, pos, v), AndRest(h, pos, w))
    decreases Left(g, pos), 1
  {
    if Next(g, pos, AndWord) {
      AtomGrows(g, h, pos + 1);
      var (a, b) := (EvalAtom(g, pos + 1), EvalAtom(h, pos + 1));
      AndRestGrows(g, h, a.pos, a.value && v, b.value && w);
    }
  }

  lemma {:induction false} AtomGrows(g: Input, h: Input, pos: nat)
    requires Extends(g, h)
    ensures Grows(EvalAtom(g, pos), EvalAtom(h, pos))
    decreases Left(g, pos), 0
  {
    if pos < |g| && g[pos].kind.Open? {
      OrGrows(g, h, pos + 1);
    }
  }

  lemma LargerAllowSetAccepts(table: Spellings, a: set<string>, b: set<string>, tokens: seq<string>)
    requires a <= b && Accepts(Symbols(table, a, tokens))
    ensures Accepts(Symbols(table, b, tokens))
  {
    OrGrows(Symbols(table, a, tokens), Symbols(table, b, tokens), 0);
  }

  /** A larger allow-set never refuses an expression a smaller one accepts, well-formed or not. */
  lemma LargerAllowSetNeverRefuses(table: Spellings, a: set<string>, b: set<string>, expression: string)
    requires a <= b && Allowed(table, a, expression)
    ensures Allowed(table, b, expression)
  {
    LargerAllowSetAccepts(table, a, b, Tokens(table, expression));
  }

  // --- Nothing is accepted without a grant --------------------------------------------------

  ghost predicate SomeGranted(g: Input) {
    exists i | 0 <= i < |g| :: g[i].granted
  }

  lemma {:induction false} OrNeedsAGrant(g: Input, pos: nat)
    ensures EvalOr(g, pos).value ==> SomeGranted(g)
    decreases Left(g, pos), 4
  {
    AndNeedsAGrant(g, pos);
    OrRestNeedsAGrant(g, EvalAnd(g, pos).pos, EvalAnd(g, pos).value);
  }

  lemma {:induction false} OrRestNeedsAGrant(g: Input, pos: nat, value: bool)
    requires value ==> SomeGranted(g)
    ensures OrRest(g, pos, value).value ==> SomeGranted(g)
    decreases Left(g, pos), 3
  {
    if Next(g, pos, OrWord) {
      AndNeedsAGrant(g, pos + 1);
      var side := EvalAnd(g, pos + 1);
      OrRestNeedsAGrant(g, side.pos, side.value || value);
    }
  }

  lemma {:induction false} AndNeedsAGrant(g: Input, pos: nat)
    ensures EvalAnd(g, pos).value ==> SomeGranted(g)
    decreases Left(g, pos), 2
  {
    if pos < |g| && g[pos].kind.Open? {
      OrNeedsAGrant(g, pos + 1);
    }
    AndRestNeedsAGrant(g, EvalAtom(g, pos).pos, EvalAtom(g, pos).value);
  }

  lemma {:induction false} AndRestNeedsAGrant(g: Input, pos: nat, value: bool)
    requires value ==> SomeGranted(g)
    ensures AndRest(g, pos, value).value ==> SomeGranted(g)
    decreases Left(g, pos), 1
  {
    if Next(g, pos, AndWord) {
      var side := EvalAtom(g, pos + 1);
      AndRestNeedsAGrant(g, side.pos, side.value && value);
    }
  }

  lemma AcceptedTokensNeedAGrant(table: Spellings, allow: set<string>, tokens: seq<string>)
    requires Accepts(Symbols(table, allow, tokens))
    ensures exists i | 0 <= i < |tokens| :: Normalise(table, tokens[i]) in allow
  {
    var g := Symbols(table, allow, tokens);
    OrNeedsAGrant(g, 0);
    var i :| 0 <= i < |g| && g[i].granted;
    assert Normalise(table, tokens[i]) in allow;
  }

  /** An accepted expression, well-formed or not, has a token that names an allowed licence. */
  lemma AcceptanceNeedsAGrant(table: Spellings, allow: set<string>, expression: string)
    requires Allowed(table, allow, expression)
    ensures exists i | 0 <= i < |Tokens(table, expression)| :: Normalise(table, Tokens(table, expression)[i]) in allow
  {
    AcceptedTokensNeedAGrant(table, allow, Tokens(table, expression));
  }
}
