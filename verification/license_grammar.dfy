/** Expressions as trees of symbols: the evaluator reads any of them as its precedence says, and
    accepts nothing that is not one of them. */
module LicenseGrammar {
  import opened Basics
  import opened LicenseParser

  datatype Tree =
    | Missing
    | Leaf(licence: Symbol)
    | LeafWith(licence: Symbol, op: Symbol, exception: Symbol)
    | AndTree(left: Tree, op: Symbol, right: Tree)
    | OrTree(left: Tree, op: Symbol, right: Tree)
    | Group(open: Symbol, inner: Tree, close: Symbol)

  /** Every symbol has the kind its place asks for, and no OR stands under an AND without a group. */
  predicate WellFormed(t: Tree) {
    match t
    case Missing => false
    case Leaf(s) => s.kind.Other?
    case LeafWith(s, w, x) => s.kind.Other? && w.kind.WithWord? && x.kind.Other?
    case AndTree(l, op, r) => op.kind.AndWord? && !l.OrTree? && !r.OrTree? && WellFormed(l) && WellFormed(r)
    case OrTree(l, op, r) => op.kind.OrWord? && WellFormed(l) && WellFormed(r)
    case Group(open, i, close) => open.kind.Open? && close.kind.Close? && WellFormed(i)
  }

  /** What the evaluator reads, when a symbol of kind `next` follows, or nothing does. It lets more pass
      than the grammar: see the liberties below. */
  predicate Relaxed(t: Tree, next: Option<Kind>) {
    match t
    case Missing => next == None
    case Leaf(s) => !s.kind.Open? && next != Some(WithWord)
    case LeafWith(s, w, _) => !s.kind.Open? && w.kind.WithWord?
    case AndTree(l, op, r) =>
      op.kind.AndWord? && !l.OrTree? && !r.OrTree? && Relaxed(l, Some(AndWord)) && Relaxed(r, next)
    case OrTree(l, op, r) => op.kind.OrWord? && Relaxed(l, Some(OrWord)) && Relaxed(r, next)
    case Group(open, i, close) =>
      open.kind.Open? && !close.kind.AndWord? && !close.kind.OrWord? && Relaxed(i, Some(close.kind))
  }

  /** How a tree departs from the grammar: a group closes with another symbol than a closing parenthesis,
      the last operand of the input is missing, a closing parenthesis or an operator word stands for a
      licence, or anything but a name follows WITH. */
  datatype Liberty = UncheckedClose | MissingOperand | OddOperand | OddException

  function OperandLiberty(s: Symbol): set<Liberty> { if s.kind.Other? then {} else {OddOperand} }

  function ExceptionLiberty(x: Symbol): set<Liberty> { if x.kind.Other? then {} else {OddException} }

  function CloseLiberty(close: Symbol): set<Liberty> { if close.kind.Close? then {} else {UncheckedClose} }

  function Liberties(t: Tree): set<Liberty> {
    match t
    case Missing => {MissingOperand}
    case Leaf(s) => OperandLiberty(s)
    case LeafWith(s, _, x) => OperandLiberty(s) + ExceptionLiberty(x)
    case AndTree(l, _, r) => Liberties(l) + Liberties(r)
    case OrTree(l, _, r) => Liberties(l) + Liberties(r)
    case Group(_, i, close) => Liberties(i) + CloseLiberty(close)
  }

  lemma {:induction false} WellFormedIsRelaxed(t: Tree, next: Option<Kind>)
    requires WellFormed(t) && next != Some(WithWord)
    ensures Relaxed(t, next) && Liberties(t) == {}
  {
    match t
    case AndTree(l, _, r) =>
      WellFormedIsRelaxed(l, Some(AndWord));
      WellFormedIsRelaxed(r, next);
    case OrTree(l, _, r) =>
      WellFormedIsRelaxed(l, Some(OrWord));
      WellFormedIsRelaxed(r, next);
    case Group(_, i, close) =>
      WellFormedIsRelaxed(i, Some(close.kind));
    case _ =>
  }

  /** These are all the liberties: a tree that takes none is well formed. */
  lemma {:induction false} NoLibertyIsWellFormed(t: Tree, next: Option<Kind>)
    requires Relaxed(t, next) && Liberties(t) == {}
    ensures WellFormed(t)
  {
    match t
    case AndTree(l, _, r) =>
      NoLibertyIsWellFormed(l, Some(AndWord));
      NoLibertyIsWellFormed(r, next);
    case OrTree(l, _, r) =>
      NoLibertyIsWellFormed(l, Some(OrWord));
      NoLibertyIsWellFormed(r, next);
    case Group(_, i, close) =>
      NoLibertyIsWellFormed(i, Some(close.kind));
    case _ =>
  }

  function Flat(t: Tree): seq<Symbol> {
    match t
    case Missing => []
    case Leaf(s) => [s]
    case LeafWith(s, w, x) => [s, w, x]
    case AndTree(l, op, r) => Flat(l) + [op] + Flat(r)
    case OrTree(l, op, r) => Flat(l) + [op] + Flat(r)
    case Group(open, i, close) => [open] + Flat(i) + [close]
  }

  /** AND needs both sides, OR needs one; an exception does not change the grant. */
  predicate Value(t: Tree) {
    match t
    case Missing => false
    case Leaf(s) => s.granted
    case LeafWith(s, _, _) => s.granted
    case AndTree(l, _, r) => Value(l) && Value(r)
    case OrTree(l, _, r) => Value(l) || Value(r)
    case Group(_, i, _) => Value(i)
  }

  function KindAt(g: Input, pos: nat): Option<Kind> {
    if pos < |g| then Some(g[pos].kind) else None
  }

  // --- Reading a tree -----------------------------------------------------------------------

  /** `part` stands in `g` at `pos`. */
  ghost predicate StandsAt(g: Input, pos: nat, part: seq<Symbol>) {
    pos + |part| <= |g| && forall i | 0 <= i < |part| :: part[i] == g[pos + i]
  }

  lemma SplitAt(g: Input, pos: nat, a: seq<Symbol>, op: Symbol, b: seq<Symbol>)
    requires StandsAt(g, pos, a + [op] + b)
    ensures StandsAt(g, pos, a) && StandsAt(g, pos + |a| + 1, b)
    ensures pos + |a| < |g| && g[pos + |a|] == op
  {
    var part := a + [op] + b;
    assert part[|a|] == op;
    forall i | 0 <= i < |a| ensures a[i] == g[pos + i] {
      assert a[i] == part[i];
    }
    forall i | 0 <= i < |b| ensures b[i] == g[pos + |a| + 1 + i] {
      assert b[i] == part[|a| + 1 + i];
    }
  }

  /** The tree stands in `g` at `pos`, and can be read there. */
  ghost predicate ReadableAt(g: Input, pos: nat, t: Tree) {
    StandsAt(g, pos, Flat(t)) && Relaxed(t, KindAt(g, pos + |Flat(t)|))
  }

  /** Both sides of an AND or an OR can be read where they stand. */
  lemma SidesAreReadable(g: Input, pos: nat, t: Tree)
    requires ReadableAt(g, pos, t) && (t.AndTree? || t.OrTree?)
    ensures
      var middle := pos + |Flat(t.left)|;
      && ReadableAt(g, pos, t.left) && Next(g, middle, t.op.kind) && ReadableAt(g, middle + 1, t.right)
      && pos + |Flat(t)| == middle + 1 + |Flat(t.right)|
  {
    SplitAt(g, pos, Flat(t.left), t.op, Flat(t.right));
  }

  /** What stands between the symbols of a group can be read where it stands. */
  lemma InnerIsReadable(g: Input, pos: nat, t: Tree)
    requires ReadableAt(g, pos, t) && t.Group?
    ensures
      var end := pos + 1 + |Flat(t.inner)|;
      && end < |g| && g[pos] == t.open && g[end] == t.close
      && ReadableAt(g, pos + 1, t.inner) && pos + |Flat(t)| == end + 1
  {
    assert Flat(t) == [] + [t.open] + (Flat(t.inner) + [t.close]);
    SplitAt(g, pos, [], t.open, Flat(t.inner) + [t.close]);
    assert Flat(t.inner) + [t.close] == Flat(t.inner) + [t.close] + [];
    SplitAt(g, pos + 1, Flat(t.inner), t.close, []);
  }

  lemma {:induction false} ReadsAtom(g: Input, pos: nat, t: Tree)
    requires ReadableAt(g, pos, t) && !t.AndTree? && !t.OrTree?
    ensures EvalAtom(g, pos) == Outcome(Value(t), pos + |Flat(t)|)
    decreases t, 0
  {
    match t
    case Missing =>
    case Leaf(s) =>
      assert Flat(t)[0] == g[pos];
    case LeafWith(s, w, x) =>
      assert Flat(t)[0] == g[pos] && Flat(t)[1] == g[pos + 1];
    case Group(open, i, close) =>
      InnerIsReadable(g, pos, t);
      ReadsOr(g, pos + 1, i);
  }

  lemma {:induction false} ReadsAnd(g: Input, pos: nat, t: Tree)
    requires ReadableAt(g, pos, t) && !t.OrTree?
    ensures EvalAnd(g, pos) == AndRest(g, pos + |Flat(t)|, Value(t))
    decreases t, 2
  {
    if t.AndTree? {
      SidesAreReadable(g, pos, t);
      ReadsAnd(g, pos, t.left);
      ReadsAndRest(g, pos + |Flat(t.left)|, Value(t.left), t.right);
    } else {
      ReadsAtom(g, pos, t);
    }
  }

  lemma AndRestReadsOne(g: Input, pos: nat, value: bool, side: bool, end: nat)
    requires Next(g, pos, AndWord) && EvalAtom(g, pos + 1) == Outcome(side, end)
    ensures AndRest(g, pos, value) == AndRest(g, end, side && value)
  {
  }

  lemma OrRestReadsOne(g: Input, pos: nat, value: bool, side: bool, end: nat)
    requires Next(g, pos, OrWord) && EvalAnd(g, pos + 1) == AndRest(g, end, side) && !Next(g, end, AndWord)
    ensures OrRest(g, pos, value) == OrRest(g, end, side || value)
  {
  }

  lemma {:induction false} ReadsAndRestBoth(g: Input, pos: nat, value: bool, t: Tree, middle: nat)
    requires t.AndTree? && Next(g, pos, AndWord) && ReadableAt(g, pos + 1, t.left) && !t.left.OrTree?
    requires middle == pos + 1 + |Flat(t.left)| && Next(g, middle, AndWord) && ReadableAt(g, middle + 1, t.right) && !t.right.OrTree?
    ensures AndRest(g, pos, value) == AndRest(g, middle + 1 + |Flat(t.right)|, Value(t.right) && (Value(t.left) && value))
    decreases t, 1
  {
    ReadsAndRest(g, pos, value, t.left);
    ReadsAndRest(g, middle, Value(t.left) && value, t.right);
  }

  lemma {:induction false} ReadsAndRest(g: Input, pos: nat, value: bool, t: Tree)
    requires Next(g, pos, AndWord) && ReadableAt(g, pos + 1, t) && !t.OrTree?
    ensures AndRest(g, pos, value) == AndRest(g, pos + 1 + |Flat(t)|, Value(t) && value)
    decreases t, 2
  {
    if t.AndTree? {
      SidesAreReadable(g, pos + 1, t);
      ReadsAndRestBoth(g, pos, value, t, pos + 1 + |Flat(t.left)|);
    } else {
      ReadsAtom(g, pos + 1, t);
      AndRestReadsOne(g, pos, value, Value(t), pos + 1 + |Flat(t)|);
    }
  }

  lemma {:induction false} ReadsOr(g: Input, pos: nat, t: Tree)
    requires ReadableAt(g, pos, t) && !Next(g, pos + |Flat(t)|, AndWord)
    ensures EvalOr(g, pos) == OrRest(g, pos + |Flat(t)|, Value(t))
    decreases t, 4
  {
    if t.OrTree? {
      SidesAreReadable(g, pos, t);
      ReadsOr(g, pos, t.left);
      ReadsOrRest(g, pos + |Flat(t.left)|, Value(t.left), t.right);
    } else {
      ReadsAnd(g, pos, t);
    }
  }

  lemma {:induction false} ReadsOrRestBoth(g: Input, pos: nat, value: bool, t: Tree, middle: nat)
    requires t.OrTree? && Next(g, pos, OrWord) && ReadableAt(g, pos + 1, t.left)
    requires middle == pos + 1 + |Flat(t.left)| && Next(g, middle, OrWord) && ReadableAt(g, middle + 1, t.right)
    requires !Next(g, middle + 1 + |Flat(t.right)|, AndWord)
    ensures OrRest(g, pos, value) == OrRest(g, middle + 1 + |Flat(t.right)|, Value(t.right) || (Value(t.left) || value))
    decreases t, 3
  {
    ReadsOrRest(g, pos, value, t.left);
    ReadsOrRest(g, middle, Value(t.left) || value, t.right);
  }

  lemma {:induction false} ReadsOrRest(g: Input, pos: nat, value: bool, t: Tree)
    requires Next(g, pos, OrWord) && ReadableAt(g, pos + 1, t) && !Next(g, pos + 1 + |Flat(t)|, AndWord)
    ensures OrRest(g, pos, value) == OrRest(g, pos + 1 + |Flat(t)|, Value(t) || value)
    decreases t, 4
  {
    if t.OrTree? {
      SidesAreReadable(g, pos + 1, t);
      ReadsOrRestBoth(g, pos, value, t, pos + 1 + |Flat(t.left)|);
    } else {
      ReadsAnd(g, pos + 1, t);
      OrRestReadsOne(g, pos, value, Value(t), pos + 1 + |Flat(t)|);
    }
  }

  lemma RelaxedTreeIsRead(t: Tree)
    requires Relaxed(t, None)
    ensures EvalOr(Flat(t), 0) == Outcome(Value(t), |Flat(t)|)
  {
    ReadsOr(Flat(t), 0, t);
  }

  /** The evaluator reads the symbols of a well-formed tree to their end and returns the tree's value. */
  lemma EvaluatorReadsTrees(t: Tree)
    requires WellFormed(t)
    ensures EvalOr(Flat(t), 0) == Outcome(Value(t), |Flat(t)|)
  {
    WellFormedIsRelaxed(t, None);
    RelaxedTreeIsRead(t);
  }

  // --- The tree of what was read ------------------------------------------------------------

  /** `t` is what was read from `start` with this outcome. */
  ghost predicate IsTreeOf(g: Input, start: nat, r: Outcome, t: Tree) {
    && start <= r.pos <= |g|
    && Flat(t) == g[start..r.pos] && Value(t) == r.value && Relaxed(t, KindAt(g, r.pos))
  }

  lemma Spliced(g: Input, a: nat, b: nat, c: nat)
    requires a <= b < c <= |g|
    ensures g[a..b] + [g[b]] + g[b + 1..c] == g[a..c]
  {
  }

  lemma {:induction false} AtomTree(g: Input, pos: nat) returns (t: Tree)
    requires pos <= |g| && EvalAtom(g, pos).pos <= |g|
    ensures IsTreeOf(g, pos, EvalAtom(g, pos), t) && !t.AndTree? && !t.OrTree?
    decreases Left(g, pos), 0
  {
    if pos == |g| {
      t := Missing;
    } else if g[pos].kind.Open? {
      var inner := EvalOr(g, pos + 1);
      var i := OrTreeOf(g, pos + 1);
      t := Group(g[pos], i, g[inner.pos]);
      Spliced(g, pos, pos, inner.pos);
      Spliced(g, pos, inner.pos, inner.pos + 1);
    } else if Next(g, pos + 1, WithWord) {
      t := LeafWith(g[pos], g[pos + 1], g[pos + 2]);
    } else {
      t := Leaf(g[pos]);
    }
  }

  lemma {:induction false} AndTreeOf(g: Input, pos: nat) returns (t: Tree)
    requires pos <= |g| && EvalAnd(g, pos).pos <= |g|
    ensures IsTreeOf(g, pos, EvalAnd(g, pos), t) && !t.OrTree?
    ensures !Next(g, EvalAnd(g, pos).pos, AndWord)
    decreases Left(g, pos), 2
  {
    var first := EvalAtom(g, pos);
    t := AtomTree(g, pos);
    t := AndRestTree(g, pos, first.pos, first.value, t);
  }

  lemma {:induction false} AndRestTree(g: Input, start: nat, pos: nat, value: bool, left: Tree) returns (t: Tree)
    requires IsTreeOf(g, start, Outcome(value, pos), left) && !left.OrTree? && AndRest(g, pos, value).pos <= |g|
    ensures IsTreeOf(g, start, AndRest(g, pos, value), t) && !t.OrTree?
    ensures !Next(g, AndRest(g, pos, value).pos, AndWord)
    decreases Left(g, pos), 1
  {
    t := left;
    if Next(g, pos, AndWord) {
      var side := EvalAtom(g, pos + 1);
      var right := AtomTree(g, pos + 1);
      Spliced(g, start, pos, side.pos);
      t := AndRestTree(g, start, side.pos, side.value && value, AndTree(left, g[pos], right));
    }
  }

  lemma {:induction false} OrTreeOf(g: Input, pos: nat) returns (t: Tree)
    requires pos <= |g| && EvalOr(g, pos).pos <= |g|
    ensures IsTreeOf(g, pos, EvalOr(g, pos), t)
    ensures !Next(g, EvalOr(g, pos).pos, AndWord) && !Next(g, EvalOr(g, pos).pos, OrWord)
    decreases Left(g, pos), 4
  {
    var first := EvalAnd(g, pos);
    t := AndTreeOf(g, pos);
    t := OrRestTree(g, pos, first.pos, first.value, t);
  }

  lemma {:induction false} OrRestTree(g: Input, start: nat, pos: nat, value: bool, left: Tree) returns (t: Tree)
    requires IsTreeOf(g, start, Outcome(value, pos), left) && !Next(g, pos, AndWord) && OrRest(g, pos, value).pos <= |g|
    ensures IsTreeOf(g, start, OrRest(g, pos, value), t)
    ensures !Next(g, OrRest(g, pos, value).pos, AndWord) && !Next(g, OrRest(g, pos, value).pos, OrWord)
    decreases Left(g, pos), 3
  {
    t := left;
    if Next(g, pos, OrWord) {
      var side := EvalAnd(g, pos + 1);
      var right := AndTreeOf(g, pos + 1);
      Spliced(g, start, pos, side.pos);
      t := OrRestTree(g, start, side.pos, side.value || value, OrTree(left, g[pos], right));
    }
  }

  /** The gate accepts exactly the symbols of the relaxed trees with a positive value. */
  lemma AcceptsExactlyRelaxedTrees(g: Input)
    ensures Accepts(g) <==> exists t :: Relaxed(t, None) && Flat(t) == g && Value(t)
  {
    if Accepts(g) {
      var t := OrTreeOf(g, 0);
      assert g[0..|g|] == g;
    }
    if t :| Relaxed(t, None) && Flat(t) == g && Value(t) {
      RelaxedTreeIsRead(t);
    }
  }

  // --- The liberties of a text ----------------------------------------------------------------

  /** The liberties taken while an atom is read from `pos`; those of the other procedures likewise. */
  ghost function AtomLiberties(g: Input, pos: nat): set<Liberty>
    decreases Left(g, pos), 0
  {
    if pos >= |g| then {MissingOperand}
    else if g[pos].kind.Open? then
      var end := EvalOr(g, pos + 1).pos;
      OrLiberties(g, pos + 1) + if end < |g| then CloseLiberty(g[end]) else {UncheckedClose}
    else if Next(g, pos + 1, WithWord) then
      OperandLiberty(g[pos]) + if pos + 2 < |g| then ExceptionLiberty(g[pos + 2]) else {OddException}
    else OperandLiberty(g[pos])
  }

  ghost function AndLiberties(g: Input, pos: nat): set<Liberty>
    decreases Left(g, pos), 2
  {
    AtomLiberties(g, pos) + AndRestLiberties(g, EvalAtom(g, pos).pos)
  }

  ghost function AndRestLiberties(g: Input, pos: nat): set<Liberty>
    decreases Left(g, pos), 1
  {
    if Next(g, pos, AndWord) then AtomLiberties(g, pos + 1) + AndRestLiberties(g, EvalAtom(g, pos + 1).pos) else {}
  }

  ghost function OrLiberties(g: Input, pos: nat): set<Liberty>
    decreases Left(g, pos), 4
  {
    AndLiberties(g, pos) + OrRestLiberties(g, EvalAnd(g, pos).pos)
  }

  ghost function OrRestLiberties(g: Input, pos: nat): set<Liberty>
    decreases Left(g, pos), 3
  {
    if Next(g, pos, OrWord) then AndLiberties(g, pos + 1) + OrRestLiberties(g, EvalAnd(g, pos + 1).pos) else {}
  }

  lemma UnionAssociates<T>(a: set<T>, b: set<T>, c: set<T>)
    ensures a + b + c == a + (b + c)
    ensures a + {} == a
  {
  }

  lemma AndTakesOne(g: Input, pos: nat, end: nat)
    requires EvalAtom(g, pos).pos == end
    ensures AndLiberties(g, pos) == AtomLiberties(g, pos) + AndRestLiberties(g, end)
  {
  }

  lemma AndRestTakesOne(g: Input, pos: nat, end: nat)
    requires Next(g, pos, AndWord) && EvalAtom(g, pos + 1).pos == end
    ensures AndRestLiberties(g, pos) == AtomLiberties(g, pos + 1) + AndRestLiberties(g, end)
  {
  }

  lemma OrTakesOne(g: Input, pos: nat, end: nat, value: bool, side: set<Liberty>)
    requires EvalAnd(g, pos) == AndRest(g, end, value) && !Next(g, end, AndWord)
    requires AndLiberties(g, pos) == side + AndRestLiberties(g, end)
    ensures OrLiberties(g, pos) == side + OrRestLiberties(g, end)
  {
    UnionAssociates(side, {}, {});
  }

  lemma OrRestTakesOne(g: Input, pos: nat, end: nat, value: bool, side: set<Liberty>)
    requires Next(g, pos, OrWord) && EvalAnd(g, pos + 1) == AndRest(g, end, value) && !Next(g, end, AndWord)
    requires AndLiberties(g, pos + 1) == side + AndRestLiberties(g, end)
    ensures OrRestLiberties(g, pos) == side + OrRestLiberties(g, end)
  {
    UnionAssociates(side, {}, {});
  }

  lemma {:induction false} AtomTakes(g: Input, pos: nat, t: Tree)
    requires ReadableAt(g, pos, t) && !t.AndTree? && !t.OrTree?
    ensures AtomLiberties(g, pos) == Liberties(t)
    decreases t, 0
  {
    match t
    case Missing =>
    case Leaf(s) =>
      assert Flat(t)[0] == g[pos];
    case LeafWith(s, w, x) =>
      assert Flat(t)[0] == g[pos] && Flat(t)[1] == g[pos + 1] && Flat(t)[2] == g[pos + 2];
    case Group(open, i, close) =>
      InnerIsReadable(g, pos, t);
      GroupTakes(g, pos, i, pos + 1 + |Flat(i)|);
  }

  lemma {:induction false} GroupTakes(g: Input, pos: nat, i: Tree, end: nat)
    requires pos < |g| && g[pos].kind.Open? && ReadableAt(g, pos + 1, i) && end == pos + 1 + |Flat(i)| < |g|
    requires !Next(g, end, AndWord) && !Next(g, end, OrWord)
    ensures AtomLiberties(g, pos) == Liberties(i) + CloseLiberty(g[end])
    decreases i, 5
  {
    ReadsOr(g, pos + 1, i);
    OrTakes(g, pos + 1, i);
    UnionAssociates(Liberties(i), {}, {});
  }

  lemma {:induction false} AndTakes(g: Input, pos: nat, t: Tree)
    requires ReadableAt(g, pos, t) && !t.OrTree?
    ensures AndLiberties(g, pos) == Liberties(t) + AndRestLiberties(g, pos + |Flat(t)|)
    decreases t, 2
  {
    if t.AndTree? {
      SidesAreReadable(g, pos, t);
      AndTakesBoth(g, pos, t, pos + |Flat(t.left)|);
    } else {
      ReadsAtom(g, pos, t);
      AtomTakes(g, pos, t);
      AndTakesOne(g, pos, pos + |Flat(t)|);
    }
  }

  lemma {:induction false} AndRestTakes(g: Input, pos: nat, t: Tree)
    requires Next(g, pos, AndWord) && ReadableAt(g, pos + 1, t) && !t.OrTree?
    ensures AndRestLiberties(g, pos) == Liberties(t) + AndRestLiberties(g, pos + 1 + |Flat(t)|)
    decreases t, 2
  {
    if t.AndTree? {
      SidesAreReadable(g, pos + 1, t);
      AndRestTakesBoth(g, pos, t, pos + 1 + |Flat(t.left)|);
    } else {
      ReadsAtom(g, pos + 1, t);
      AtomTakes(g, pos + 1, t);
      AndRestTakesOne(g, pos, pos + 1 + |Flat(t)|);
    }
  }

  lemma {:induction false} AndTakesBoth(g: Input, pos: nat, t: Tree, middle: nat)
    requires t.AndTree? && ReadableAt(g, pos, t.left) && !t.left.OrTree?
    requires middle == pos + |Flat(t.left)| && Next(g, middle, AndWord) && ReadableAt(g, middle + 1, t.right) && !t.right.OrTree?
    ensures AndLiberties(g, pos) == Liberties(t.left) + Liberties(t.right) + AndRestLiberties(g, middle + 1 + |Flat(t.right)|)
    decreases t, 1
  {
    AndTakes(g, pos, t.left);
    AndRestTakes(g, middle, t.right);
  }

  lemma {:induction false} AndRestTakesBoth(g: Input, pos: nat, t: Tree, middle: nat)
    requires t.AndTree? && Next(g, pos, AndWord) && ReadableAt(g, pos + 1, t.left) && !t.left.OrTree?
    requires middle == pos + 1 + |Flat(t.left)| && Next(g, middle, AndWord) && ReadableAt(g, middle + 1, t.right) && !t.right.OrTree?
    ensures AndRestLiberties(g, pos) == Liberties(t.left) + Liberties(t.right) + AndRestLiberties(g, middle + 1 + |Flat(t.right)|)
    decreases t, 1
  {
    AndRestTakes(g, pos, t.left);
    AndRestTakes(g, middle, t.right);
  }

  lemma {:induction false} OrTakes(g: Input, pos: nat, t: Tree)
    requires ReadableAt(g, pos, t) && !Next(g, pos + |Flat(t)|, AndWord)
    ensures OrLiberties(g, pos) == Liberties(t) + OrRestLiberties(g, pos + |Flat(t)|)
    decreases t, 4
  {
    if t.OrTree? {
      SidesAreReadable(g, pos, t);
      OrTakesBoth(g, pos, t, pos + |Flat(t.left)|);
    } else {
      ReadsAnd(g, pos, t);
      AndTakes(g, pos, t);
      OrTakesOne(g, pos, pos + |Flat(t)|, Value(t), Liberties(t));
    }
  }

  lemma {:induction false} OrRestTakes(g: Input, pos: nat, t: Tree)
    requires Next(g, pos, OrWord) && ReadableAt(g, pos + 1, t) && !Next(g, pos + 1 + |Flat(t)|, AndWord)
    ensures OrRestLiberties(g, pos) == Liberties(t) + OrRestLiberties(g, pos + 1 + |Flat(t)|)
    decreases t, 4
  {
    if t.OrTree? {
      SidesAreReadable(g, pos + 1, t);
      OrRestTakesBoth(g, pos, t, pos + 1 + |Flat(t.left)|);
    } else {
      ReadsAnd(g, pos + 1, t);
      AndTakes(g, pos + 1, t);
      OrRestTakesOne(g, pos, pos + 1 + |Flat(t)|, Value(t), Liberties(t));
    }
  }

  lemma {:induction false} OrTakesBoth(g: Input, pos: nat, t: Tree, middle: nat)
    requires t.OrTree? && ReadableAt(g, pos, t.left)
    requires middle == pos + |Flat(t.left)| && Next(g, middle, OrWord) && ReadableAt(g, middle + 1, t.right)
    requires !Next(g, middle + 1 + |Flat(t.right)|, AndWord)
    ensures OrLiberties(g, pos) == Liberties(t.left) + Liberties(t.right) + OrRestLiberties(g, middle + 1 + |Flat(t.right)|)
    decreases t, 3
  {
    OrTakes(g, pos, t.left);
    OrRestTakes(g, middle, t.right);
  }

  lemma {:induction false} OrRestTakesBoth(g: Input, pos: nat, t: Tree, middle: nat)
    requires t.OrTree? && Next(g, pos, OrWord) && ReadableAt(g, pos + 1, t.left)
    requires middle == pos + 1 + |Flat(t.left)| && Next(g, middle, OrWord) && ReadableAt(g, middle + 1, t.right)
    requires !Next(g, middle + 1 + |Flat(t.right)|, AndWord)
    ensures OrRestLiberties(g, pos) == Liberties(t.left) + Liberties(t.right) + OrRestLiberties(g, middle + 1 + |Flat(t.right)|)
    decreases t, 3
  {
    OrRestTakes(g, pos, t.left);
    OrRestTakes(g, middle, t.right);
  }

  lemma LibertiesAreRead(t: Tree)
    requires Relaxed(t, None)
    ensures Liberties(t) == OrLiberties(Flat(t), 0)
  {
    OrTakes(Flat(t), 0, t);
    UnionAssociates(Liberties(t), {}, {});
  }

  /** The liberties, the value and being well formed belong to the symbols, not to the tree read into them. */
  lemma LibertiesAreOfTheSymbols(t: Tree, u: Tree)
    requires Relaxed(t, None) && Relaxed(u, None) && Flat(t) == Flat(u)
    ensures Liberties(t) == Liberties(u) && Value(t) == Value(u) && WellFormed(t) == WellFormed(u)
  {
    LibertiesAreRead(t);
    LibertiesAreRead(u);
    RelaxedTreeIsRead(t);
    RelaxedTreeIsRead(u);
    if Liberties(t) == {} {
      NoLibertyIsWellFormed(t, None);
      NoLibertyIsWellFormed(u, None);
    }
    if WellFormed(t) { WellFormedIsRelaxed(t, None); }
    if WellFormed(u) { WellFormedIsRelaxed(u, None); }
  }

  /** The symbols of an expression of the grammar with a positive value. */
  ghost predicate IsGranted(g: Input) { exists t :: WellFormed(t) && Flat(t) == g && Value(t) }

  /** What is accepted is an expression of the grammar with a positive value exactly when no liberty was
      taken in reading it. */
  lemma AcceptedIsGrantedOrTakesALiberty(g: Input)
    requires Accepts(g)
    ensures IsGranted(g) <==> OrLiberties(g, 0) == {}
  {
    AcceptsExactlyRelaxedTrees(g);
    var t :| Relaxed(t, None) && Flat(t) == g && Value(t);
    LibertiesAreRead(t);
    if OrLiberties(g, 0) == {} {
      NoLibertyIsWellFormed(t, None);
      assert IsGranted(g);
    }
    if IsGranted(g) {
      var u :| WellFormed(u) && Flat(u) == g && Value(u);
      WellFormedIsRelaxed(u, None);
      LibertiesAreRead(u);
    }
  }

  /** What the grammar grants is accepted. */
  lemma GrantedIsAccepted(g: Input)
    requires IsGranted(g)
    ensures Accepts(g)
  {
    var t :| WellFormed(t) && Flat(t) == g && Value(t);
    EvaluatorReadsTrees(t);
    assert t != Missing;
  }
}
