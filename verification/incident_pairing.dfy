/** Pairing the checks an alert shows with the open incidents it carries. */
module IncidentPairing {
  import opened Basics

  /** A shown check: its id when the report carries one, and its name (names are not unique). */
  datatype Check = Check(id: Option<nat>, name: string)

  /** `incident` stands for everything else the card shows. */
  datatype Card = Card(incident: nat, checkId: nat, checkName: string)

  predicate Matches(check: Check, card: Card) {
    match check.id
    case Some(id) => card.checkId == id
    case None => card.checkName == check.name
  }

  /** Index of the first card the check may take, or |cards|. */
  function FirstMatch(cards: seq<Card>, check: Check): (i: nat)
    ensures i <= |cards|
    ensures i < |cards| ==> Matches(check, cards[i])
    ensures forall j | 0 <= j < i :: !Matches(check, cards[j])
  {
    if cards == [] then 0
    else if Matches(check, cards[0]) then 0
    else 1 + FirstMatch(cards[1..], check)
  }

  /** `left` is what stays of `cards` at the positions `at`, in the original order. */
  ghost predicate KeptAt(left: seq<Card>, cards: seq<Card>, at: seq<nat>) {
    && |at| == |left|
    && (forall i, j | 0 <= i < j < |at| :: at[i] < at[j])
    && (forall i | 0 <= i < |at| :: at[i] < |cards| && left[i] == cards[at[i]])
  }

  ghost predicate KeepsOrder(left: seq<Card>, cards: seq<Card>) {
    exists at :: KeptAt(left, cards, at)
  }

  /** The cards handed out to the first n checks, in the order of these checks. */
  ghost function Taken(paired: map<nat, Card>, n: nat): seq<Card> {
    if n == 0 then []
    else Taken(paired, n - 1) + if n - 1 in paired then [paired[n - 1]] else []
  }

  /** How often a card occurs. */
  ghost function Count(cards: seq<Card>, c: Card): nat {
    if cards == [] then 0
    else Count(cards[..|cards| - 1], c) + if cards[|cards| - 1] == c then 1 else 0
  }

  /** Left-over cards and handed-out cards are together the report's cards, as multisets. */
  ghost predicate Conserves(cards: seq<Card>, n: nat, paired: map<nat, Card>, left: seq<Card>) {
    forall c :: Count(left, c) + Count(Taken(paired, n), c) == Count(cards, c)
  }

  ghost predicate PairsMatch(shown: seq<Check>, paired: map<nat, Card>) {
    forall i | i in paired :: i < |shown| && Matches(shown[i], paired[i])
  }

  /** No unpaired check among the first n could have taken a left-over card. */
  ghost predicate NothingMissed(shown: seq<Check>, n: nat, paired: map<nat, Card>, left: seq<Card>)
    requires n <= |shown|
  {
    forall i, j | 0 <= i < n && i !in paired && 0 <= j < |left| :: !Matches(shown[i], left[j])
  }

  // --- The pairing ------------------------------------------------------------------------

  lemma {:induction false} CountIsMultiplicity(cards: seq<Card>, c: Card)
    ensures Count(cards, c) == multiset(cards)[c]
  {
    if cards != [] {
      CountIsMultiplicity(cards[..|cards| - 1], c);
      assert cards == cards[..|cards| - 1] + [cards[|cards| - 1]];
    }
  }

  lemma {:induction false} CountConcat(a: seq<Card>, b: seq<Card>, c: Card)
    ensures Count(a + b, c) == Count(a, c) + Count(b, c)
  {
    if b == [] {
      assert a + b == a;
    } else {
      CountConcat(a, b[..|b| - 1], c);
      assert (a + b)[..|a + b| - 1] == a + b[..|b| - 1];
    }
  }

  lemma CountMiddle(front: seq<Card>, card: Card, back: seq<Card>, c: Card)
    ensures Count(front + back, c) + (if card == c then 1 else 0) == Count(front + [card] + back, c)
  {
    CountConcat(front, back, c);
    CountConcat(front, [card], c);
    CountConcat(front + [card], back, c);
  }

  lemma SplitAt(cards: seq<Card>, i: nat)
    requires i < |cards|
    ensures cards[..i] + [cards[i]] + cards[i + 1..] == cards
  {
  }

  lemma RemoveOne(cards: seq<Card>, i: nat, c: Card)
    requires i < |cards|
    ensures Count(cards[..i] + cards[i + 1..], c) + (if cards[i] == c then 1 else 0) == Count(cards, c)
  {
    SplitAt(cards, i);
    CountMiddle(cards[..i], cards[i], cards[i + 1..], c);
  }

  lemma {:induction false} TakenIgnoresLater(paired: map<nat, Card>, n: nat, k: nat, card: Card)
    requires n <= k
    ensures Taken(paired[k := card], n) == Taken(paired, n)
  {
    if n > 0 {
      TakenIgnoresLater(paired, n - 1, k, card);
    }
  }

  lemma TakeConserves(cards: seq<Card>, n: nat, paired: map<nat, Card>, left: seq<Card>, m: nat)
    requires m < |left| && Conserves(cards, n, paired, left)
    ensures Conserves(cards, n + 1, paired[n := left[m]], left[..m] + left[m + 1..])
  {
    var paired' := paired[n := left[m]];
    TakenIgnoresLater(paired, n, n, left[m]);
    forall c ensures Count(left[..m] + left[m + 1..], c) + Count(Taken(paired', n + 1), c) == Count(cards, c) {
      RemoveOne(left, m, c);
      assert Taken(paired', n + 1)[..|Taken(paired', n)|] == Taken(paired, n);
    }
  }

  lemma SkipConserves(cards: seq<Card>, n: nat, paired: map<nat, Card>, left: seq<Card>)
    requires n !in paired && Conserves(cards, n, paired, left)
    ensures Conserves(cards, n + 1, paired, left)
  {
    assert Taken(paired, n + 1) == Taken(paired, n);
  }

  lemma RemovalKeepsOrder(left: seq<Card>, cards: seq<Card>, at: seq<nat>, m: nat)
    requires m < |left| && KeptAt(left, cards, at)
    ensures KeptAt(left[..m] + left[m + 1..], cards, at[..m] + at[m + 1..])
  {
  }

  lemma TakeMissesNothing(shown: seq<Check>, n: nat, paired: map<nat, Card>, left: seq<Card>, m: nat)
    requires n < |shown| && m < |left| && NothingMissed(shown, n, paired, left)
    ensures NothingMissed(shown, n + 1, paired[n := left[m]], left[..m] + left[m + 1..])
  {
    var left' := left[..m] + left[m + 1..];
    forall i, j | 0 <= i < n + 1 && i !in paired[n := left[m]] && 0 <= j < |left'| ensures !Matches(shown[i], left'[j]) {
      assert left'[j] == left[if j < m then j else j + 1];
    }
  }

  /** The loop's invariant: the first `n` checks have been served, and `at` says where the left-over
      cards stood. */
  ghost predicate Served(cards: seq<Card>, shown: seq<Check>, n: nat, paired: map<nat, Card>, left: seq<Card>, at: seq<nat>) {
    && n <= |shown|
    && (forall i | i in paired :: i < n)
    && Conserves(cards, n, paired, left)
    && KeptAt(left, cards, at)
    && PairsMatch(shown, paired)
    && NothingMissed(shown, n, paired, left)
  }

  lemma ServedByTaking(cards: seq<Card>, shown: seq<Check>, n: nat, paired: map<nat, Card>, left: seq<Card>, at: seq<nat>, m: nat)
    requires Served(cards, shown, n, paired, left, at) && n < |shown| && m < |left| && Matches(shown[n], left[m])
    ensures Served(cards, shown, n + 1, paired[n := left[m]], left[..m] + left[m + 1..], at[..m] + at[m + 1..])
  {
    TakeConserves(cards, n, paired, left, m);
    RemovalKeepsOrder(left, cards, at, m);
    TakeMissesNothing(shown, n, paired, left, m);
  }

  lemma ServedBySkipping(cards: seq<Card>, shown: seq<Check>, n: nat, paired: map<nat, Card>, left: seq<Card>, at: seq<nat>)
    requires Served(cards, shown, n, paired, left, at) && n < |shown| && FirstMatch(left, shown[n]) == |left|
    ensures Served(cards, shown, n + 1, paired, left, at)
  {
    SkipConserves(cards, n, paired, left);
  }

  /** The pairs and the left-over cards after the first `n` checks: each takes the first card that matches. */
  function Greedy(cards: seq<Card>, shown: seq<Check>, n: nat): (map<nat, Card>, seq<Card>)
    requires n <= |shown|
  {
    if n == 0 then (map[], cards)
    else
      var (paired, left) := Greedy(cards, shown, n - 1);
      var m := FirstMatch(left, shown[n - 1]);
      if m < |left| then (paired[n - 1 := left[m]], left[..m] + left[m + 1..]) else (paired, left)
  }

  /** Each shown check takes the first left-over card that matches it, by id or else by name. */
  method PairIncidents(cards: seq<Card>, shown: seq<Check>) returns (paired: map<nat, Card>, remaining: seq<Card>)
    ensures (paired, remaining) == Greedy(cards, shown, |shown|)
    ensures Conserves(cards, |shown|, paired, remaining)
    ensures KeepsOrder(remaining, cards)
    ensures PairsMatch(shown, paired) && NothingMissed(shown, |shown|, paired, remaining)
    ensures forall i | i in paired ::
      && i < |shown|
      && (shown[i].id.Some? ==> paired[i].checkId == shown[i].id.value)
      && (shown[i].id.None? ==> paired[i].checkName == shown[i].name)
    ensures forall i, j | 0 <= i < |shown| && i !in paired && 0 <= j < |remaining| ::
      && (shown[i].id.Some? ==> remaining[j].checkId != shown[i].id.value)
      && (shown[i].id.None? ==> remaining[j].checkName != shown[i].name)
  {
    paired, remaining := map[], cards;
    ghost var at: seq<nat> := seq<nat>(|cards|, i requires 0 <= i < |cards| => i);
    for index := 0 to |shown|
      invariant (paired, remaining) == Greedy(cards, shown, index)
      invariant Served(cards, shown, index, paired, remaining, at)
    {
      var m := FirstMatch(remaining, shown[index]);
      if m < |remaining| {
        ServedByTaking(cards, shown, index, paired, remaining, at, m);
        paired, remaining := paired[index := remaining[m]], remaining[..m] + remaining[m + 1..];
        at := at[..m] + at[m + 1..];
      } else {
        ServedBySkipping(cards, shown, index, paired, remaining, at);
      }
    }
    assert KeptAt(remaining, cards, at);
    MatchesInPlainTerms(shown, paired, remaining);
  }

  lemma MatchesInPlainTerms(shown: seq<Check>, paired: map<nat, Card>, remaining: seq<Card>)
    requires PairsMatch(shown, paired) && NothingMissed(shown, |shown|, paired, remaining)
    ensures forall i | i in paired ::
      && i < |shown|
      && (shown[i].id.Some? ==> paired[i].checkId == shown[i].id.value)
      && (shown[i].id.None? ==> paired[i].checkName == shown[i].name)
    ensures forall i, j | 0 <= i < |shown| && i !in paired && 0 <= j < |remaining| ::
      && (shown[i].id.Some? ==> remaining[j].checkId != shown[i].id.value)
      && (shown[i].id.None? ==> remaining[j].checkName != shown[i].name)
  {
    forall i, j | 0 <= i < |shown| && i !in paired && 0 <= j < |remaining| ensures !Matches(shown[i], remaining[j]) {
    }
  }

  // --- How many pairs ---------------------------------------------------------------------

  ghost predicate AllHaveIds(shown: seq<Check>) {
    forall i | 0 <= i < |shown| :: shown[i].id.Some?
  }

  ghost function CardsWith(id: nat, cards: seq<Card>): nat {
    if cards == [] then 0
    else CardsWith(id, cards[..|cards| - 1]) + if cards[|cards| - 1].checkId == id then 1 else 0
  }

  ghost function ChecksWith(id: nat, shown: seq<Check>): nat {
    if shown == [] then 0
    else ChecksWith(id, shown[..|shown| - 1]) + if shown[|shown| - 1].id == Some(id) then 1 else 0
  }

  ghost function Sum(ids: set<nat>, f: nat -> nat): nat {
    if ids == {} then 0
    else
      var id :| id in ids;
      f(id) + Sum(ids - {id}, f)
  }

  ghost function ShownIds(shown: seq<Check>): set<nat> {
    set i | 0 <= i < |shown| && shown[i].id.Some? :: shown[i].id.value
  }

  ghost function CardCounts(cards: seq<Card>): nat -> nat { (id: nat) => CardsWith(id, cards) }

  ghost function PairBounds(shown: seq<Check>, cards: seq<Card>): nat -> nat {
    (id: nat) => Min(ChecksWith(id, shown), CardsWith(id, cards))
  }

  /** The number of pairs the ids allow: min(checks, cards) for each id, added up. */
  ghost function PairCapacity(shown: seq<Check>, cards: seq<Card>): nat {
    Sum(ShownIds(shown), PairBounds(shown, cards))
  }

  function Min(a: nat, b: nat): nat { if a <= b then a else b }

  lemma {:induction false} SumPick(ids: set<nat>, f: nat -> nat, x: nat)
    requires x in ids
    ensures Sum(ids, f) == f(x) + Sum(ids - {x}, f)
    decreases |ids|
  {
    var id :| id in ids && Sum(ids, f) == f(id) + Sum(ids - {id}, f);
    if id != x {
      SumPick(ids - {id}, f, x);
      SumPick(ids - {x}, f, id);
      assert ids - {id} - {x} == ids - {x} - {id};
    }
  }

  lemma {:induction false} SumBound(ids: set<nat>, f: nat -> nat, g: nat -> nat)
    requires forall id | id in ids :: f(id) <= g(id)
    ensures Sum(ids, f) <= Sum(ids, g)
    ensures (forall id | id in ids :: f(id) == g(id)) ==> Sum(ids, f) == Sum(ids, g)
    decreases |ids|
  {
    if ids != {} {
      var x :| x in ids;
      SumPick(ids, f, x);
      SumPick(ids, g, x);
      SumBound(ids - {x}, f, g);
    }
  }

  /** Cards counted id by id are all the cards. */
  lemma {:induction false} CountById(ids: set<nat>, cards: seq<Card>)
    requires forall i | 0 <= i < |cards| :: cards[i].checkId in ids
    ensures Sum(ids, CardCounts(cards)) == |cards|
  {
    var f := CardCounts(cards);
    if cards == [] {
      SumOfZero(ids, f);
    } else {
      var rest := cards[..|cards| - 1];
      var x := cards[|cards| - 1].checkId;
      var g := CardCounts(rest);
      CountById(ids, rest);
      SumPick(ids, f, x);
      SumPick(ids, g, x);
      SumBound(ids - {x}, f, g);
    }
  }

  lemma {:induction false} SumOfZero(ids: set<nat>, f: nat -> nat)
    requires forall id | id in ids :: f(id) == 0
    ensures Sum(ids, f) == 0
    decreases |ids|
  {
    if ids != {} {
      var x :| x in ids;
      SumPick(ids, f, x);
      SumOfZero(ids - {x}, f);
    }
  }

  lemma {:induction false} TakenCount(paired: map<nat, Card>, n: nat)
    ensures |Taken(paired, n)| == |set i | i in paired.Keys && i < n|
  {
    var below := set i | i in paired.Keys && i < n;
    if n == 0 {
      assert below == {};
    } else {
      var rest := set i | i in paired.Keys && i < n - 1;
      TakenCount(paired, n - 1);
      assert below == if n - 1 in paired then rest + {n - 1} else rest;
    }
  }

  lemma {:induction false} TakenIsPaired(shown: seq<Check>, paired: map<nat, Card>, n: nat, k: nat)
    requires AllHaveIds(shown) && PairsMatch(shown, paired) && n <= |shown|
    requires k < |Taken(paired, n)|
    ensures Taken(paired, n)[k].checkId in ShownIds(shown)
  {
    if k < |Taken(paired, n - 1)| {
      TakenIsPaired(shown, paired, n - 1, k);
    } else {
      assert Taken(paired, n)[k] == paired[n - 1] && Matches(shown[n - 1], paired[n - 1]);
    }
  }

  ghost predicate EveryCheckPaired(shown: seq<Check>, n: nat, paired: map<nat, Card>, id: nat)
    requires n <= |shown|
  {
    forall i | 0 <= i < n && shown[i].id == Some(id) :: i in paired
  }

  /** Pairs use up checks: an id is taken at most as often as it is shown, and exactly as often when
      every check with that id is paired. */
  lemma {:induction false} TakenFromShown(shown: seq<Check>, n: nat, paired: map<nat, Card>, id: nat)
    requires n <= |shown| && AllHaveIds(shown) && PairsMatch(shown, paired)
    ensures CardsWith(id, Taken(paired, n)) <= ChecksWith(id, shown[..n])
    ensures EveryCheckPaired(shown, n, paired, id) ==> CardsWith(id, Taken(paired, n)) == ChecksWith(id, shown[..n])
  {
    if n > 0 {
      TakenFromShown(shown, n - 1, paired, id);
      assert shown[..n][..n - 1] == shown[..n - 1];
      if n - 1 in paired {
        assert Matches(shown[n - 1], paired[n - 1]);
        assert Taken(paired, n)[..|Taken(paired, n)| - 1] == Taken(paired, n - 1);
      } else {
        assert Taken(paired, n) == Taken(paired, n - 1);
      }
    }
  }

  lemma {:induction false} Find(cards: seq<Card>, c: Card) returns (i: nat)
    requires Count(cards, c) > 0
    ensures i < |cards| && cards[i] == c
  {
    i := |cards| - 1;
    if cards[i] != c {
      i := Find(cards[..i], c);
    }
  }

  lemma {:induction false} CardsWithConcat(id: nat, a: seq<Card>, b: seq<Card>)
    ensures CardsWith(id, a + b) == CardsWith(id, a) + CardsWith(id, b)
  {
    if b == [] {
      assert a + b == a;
    } else {
      CardsWithConcat(id, a, b[..|b| - 1]);
      assert (a + b)[..|a + b| - 1] == a + b[..|b| - 1];
    }
  }

  lemma NonEmptyCounts(cards: seq<Card>)
    requires cards != []
    ensures exists c :: Count(cards, c) > 0
  {
    assert Count(cards, cards[|cards| - 1]) > 0;
  }

  lemma CardsWithMiddle(id: nat, front: seq<Card>, card: Card, back: seq<Card>)
    ensures CardsWith(id, front + [card] + back) == CardsWith(id, front + back) + if card.checkId == id then 1 else 0
  {
    CardsWithConcat(id, front, back);
    CardsWithConcat(id, front, [card]);
    CardsWithConcat(id, front + [card], back);
  }

  lemma SameWithoutOne(a: seq<Card>, b: seq<Card>, i: nat, front: seq<Card>, rest: seq<Card>)
    requires a != [] && i < |b| && b[i] == a[|a| - 1] && forall c :: Count(a, c) == Count(b, c)
    requires front == a[..|a| - 1] && rest == b[..i] + b[i + 1..]
    ensures forall c :: Count(front, c) == Count(rest, c)
  {
    forall c ensures Count(front, c) == Count(rest, c) {
      RemoveOne(b, i, c);
      assert Count(a, c) == Count(b, c);
    }
  }

  /** The same cards in another order have the same ids. */
  lemma {:induction false} SameCardsSameIds(id: nat, a: seq<Card>, b: seq<Card>)
    requires forall c :: Count(a, c) == Count(b, c)
    ensures CardsWith(id, a) == CardsWith(id, b)
    decreases |a|
  {
    if a == [] {
      if b != [] {
        NonEmptyCounts(b);
        assert false;
      }
    } else {
      var n := |a| - 1;
      assert Count(a, a[n]) > 0;
      var i := Find(b, a[n]);
      var rest := b[..i] + b[i + 1..];
      SameWithoutOne(a, b, i, a[..n], rest);
      SameCardsSameIds(id, a[..n], rest);
      SplitAt(b, i);
      CardsWithMiddle(id, b[..i], b[i], b[i + 1..]);
    }
  }

  /** Pairs use up cards: what is not taken is left over. */
  lemma TakenFromCards(id: nat, cards: seq<Card>, n: nat, paired: map<nat, Card>, left: seq<Card>)
    requires Conserves(cards, n, paired, left)
    ensures CardsWith(id, cards) == CardsWith(id, Taken(paired, n)) + CardsWith(id, left)
  {
    var both := left + Taken(paired, n);
    forall c ensures Count(both, c) == Count(cards, c) {
      CountConcat(left, Taken(paired, n), c);
    }
    SameCardsSameIds(id, both, cards);
    CardsWithConcat(id, left, Taken(paired, n));
  }

  lemma {:induction false} NoCardNoId(id: nat, cards: seq<Card>)
    requires forall j | 0 <= j < |cards| :: cards[j].checkId != id
    ensures CardsWith(id, cards) == 0
  {
    if cards != [] {
      NoCardNoId(id, cards[..|cards| - 1]);
    }
  }

  /** The pairs, counted id by id. */
  lemma PairsById(shown: seq<Check>, paired: map<nat, Card>)
    requires AllHaveIds(shown) && PairsMatch(shown, paired)
    ensures Sum(ShownIds(shown), CardCounts(Taken(paired, |shown|))) == |paired|
  {
    var taken := Taken(paired, |shown|);
    forall k | 0 <= k < |taken| ensures taken[k].checkId in ShownIds(shown) {
      TakenIsPaired(shown, paired, |shown|, k);
    }
    CountById(ShownIds(shown), taken);
    TakenCount(paired, |shown|);
    assert (set i | i in paired.Keys && i < |shown|) == paired.Keys;
  }

  /** However the cards are handed to matching checks, no more pairs than the capacity come out. */
  lemma NoPairingBeatsCapacity(cards: seq<Card>, shown: seq<Check>, paired: map<nat, Card>, left: seq<Card>)
    requires AllHaveIds(shown)
    requires Conserves(cards, |shown|, paired, left) && PairsMatch(shown, paired)
    ensures |paired| <= PairCapacity(shown, cards)
  {
    var f := CardCounts(Taken(paired, |shown|));
    var g := PairBounds(shown, cards);
    assert shown[..|shown|] == shown;
    forall id | id in ShownIds(shown) ensures f(id) <= g(id) {
      TakenFromShown(shown, |shown|, paired, id);
      TakenFromCards(id, cards, |shown|, paired, left);
    }
    SumBound(ShownIds(shown), f, g);
    PairsById(shown, paired);
  }

  /** Greedy pairing reaches the capacity when every shown check carries its id. */
  lemma GreedyReachesCapacity(cards: seq<Card>, shown: seq<Check>, paired: map<nat, Card>, left: seq<Card>)
    requires AllHaveIds(shown)
    requires Conserves(cards, |shown|, paired, left) && PairsMatch(shown, paired)
    requires NothingMissed(shown, |shown|, paired, left)
    ensures |paired| == PairCapacity(shown, cards)
  {
    var n := |shown|;
    var f := CardCounts(Taken(paired, n));
    var g := PairBounds(shown, cards);
    assert shown[..n] == shown;
    forall id | id in ShownIds(shown) ensures f(id) == g(id) {
      TakenFromShown(shown, n, paired, id);
      TakenFromCards(id, cards, n, paired, left);
      if !EveryCheckPaired(shown, n, paired, id) {
        var i :| 0 <= i < n && shown[i].id == Some(id) && i !in paired;
        forall j | 0 <= j < |left| ensures left[j].checkId != id {
          assert !Matches(shown[i], left[j]);
        }
        NoCardNoId(id, left);
      }
    }
    SumBound(ShownIds(shown), f, g);
    PairsById(shown, paired);
  }

  // --- Checks without ids -----------------------------------------------------------------------

  lemma FirstOfTwo(first: Card, second: Card, check: Check)
    requires Matches(check, first)
    ensures FirstMatch([first, second], check) == 0
    ensures [first, second][..0] + [first, second][1..] == [second]
  {
  }

  lemma NoneOfOne(card: Card, check: Check)
    requires !Matches(check, card)
    ensures FirstMatch([card], check) == 1
  {
    assert [card][1..] == [];
  }

  lemma GreedyTakesTheFirst(first: Card, second: Card, one: Check, two: Check)
    requires Matches(one, first) && !Matches(two, second)
    ensures Greedy([first, second], [one, two], 2) == (map[0 := first], [second])
  {
    FirstOfTwo(first, second, one);
    NoneOfOne(second, two);
    assert Greedy([first, second], [one, two], 0) == (map[], [first, second]);
    assert Greedy([first, second], [one, two], 1) == (map[0 := first], [second]);
  }

  lemma CrossedPairsConserve(first: Card, second: Card)
    ensures Conserves([first, second], 2, map[0 := second, 1 := first], [])
  {
    var better := map[0 := second, 1 := first];
    assert Taken(better, 0) == [];
    assert Taken(better, 1) == Taken(better, 0) + [second] == [second];
    assert Taken(better, 2) == Taken(better, 1) + [first];
    forall c ensures Count([], c) + Count(Taken(better, 2), c) == Count([first, second], c) {
      CountConcat([second], [first], c);
      CountConcat([first], [second], c);
      assert [first] + [second] == [first, second];
    }
  }

  /** A check without an id may take the only card of another: greedy finds one pair where there are two. */
  lemma NamesCanCostAPair(name: string, other: string)
    ensures
      var (first, second) := (Card(10, 1, name), Card(20, 2, name));
      var (shown, better) := ([Check(None, name), Check(Some(1), other)], map[0 := second, 1 := first]);
      && Greedy([first, second], shown, 2) == (map[0 := first], [second])
      && Conserves([first, second], 2, better, []) && PairsMatch(shown, better) && |better| == 2
  {
    var (first, second) := (Card(10, 1, name), Card(20, 2, name));
    GreedyTakesTheFirst(first, second, Check(None, name), Check(Some(1), other));
    CrossedPairsConserve(first, second);
    assert |map[0 := second, 1 := first].Keys| == |{0, 1}|;
  }

  /** Counted card by card no more often, hence no longer. */
  lemma {:induction false} FewerCardsAreShorter(a: seq<Card>, b: seq<Card>)
    requires forall c :: Count(a, c) <= Count(b, c)
    ensures |a| <= |b|
    decreases |a|
  {
    if a != [] {
      var (n, last) := (|a| - 1, a[|a| - 1]);
      assert Count(a, last) > 0;
      var i := Find(b, last);
      var (front, rest) := (a[..n], b[..i] + b[i + 1..]);
      forall c ensures Count(front, c) <= Count(rest, c) {
        RemoveOne(b, i, c);
        assert Count(a, c) <= Count(b, c);
      }
      FewerCardsAreShorter(front, rest);
    }
  }

  lemma {:induction false} FewerPairsTakeFewer(p: map<nat, Card>, q: map<nat, Card>, n: nat, c: Card)
    requires forall i | i in p :: i in q && p[i] == q[i]
    ensures Count(Taken(p, n), c) <= Count(Taken(q, n), c)
  {
    if n > 0 {
      FewerPairsTakeFewer(p, q, n - 1, c);
      TakenOneMore(p, n, c);
      TakenOneMore(q, n, c);
    }
  }

  lemma TakenOneMore(p: map<nat, Card>, n: nat, c: Card)
    requires n > 0
    ensures Count(Taken(p, n), c) == Count(Taken(p, n - 1), c) + if n - 1 in p && p[n - 1] == c then 1 else 0
  {
    if n - 1 in p {
      assert Taken(p, n)[..|Taken(p, n)| - 1] == Taken(p, n - 1);
    } else {
      assert Taken(p, n) == Taken(p, n - 1);
    }
  }

  lemma {:induction false} CountedIsTaken(p: map<nat, Card>, n: nat, c: Card) returns (i: nat)
    requires Count(Taken(p, n), c) > 0
    ensures i < n && i in p && p[i] == c
  {
    TakenOneMore(p, n, c);
    if n - 1 in p && p[n - 1] == c {
      i := n - 1;
    } else {
      i := CountedIsTaken(p, n - 1, c);
    }
  }

  lemma {:induction false} AbsentCounts(cards: seq<Card>, c: Card)
    requires forall j | 0 <= j < |cards| :: cards[j] != c
    ensures Count(cards, c) == 0
  {
    if cards != [] {
      AbsentCounts(cards[..|cards| - 1], c);
    }
  }

  /** The pairs of `other` whose checks `paired` left out. */
  ghost function Extra(other: map<nat, Card>, paired: map<nat, Card>): map<nat, Card> {
    map i | i in other && i !in paired :: other[i]
  }

  /** A card that one more check could have had is not left over: it is in the pairs. */
  lemma ExtraCardsAreTaken(cards: seq<Card>, shown: seq<Check>, paired: map<nat, Card>, left: seq<Card>,
                           other: map<nat, Card>, rest: seq<Card>, c: Card)
    requires Conserves(cards, |shown|, paired, left) && NothingMissed(shown, |shown|, paired, left)
    requires Conserves(cards, |shown|, other, rest) && PairsMatch(shown, other)
    ensures Count(Taken(Extra(other, paired), |shown|), c) <= Count(Taken(paired, |shown|), c)
  {
    var (n, extra) := (|shown|, Extra(other, paired));
    if Count(Taken(extra, n), c) > 0 {
      var i := CountedIsTaken(extra, n, c);
      assert Matches(shown[i], c);
      forall j | 0 <= j < |left| ensures left[j] != c {
        assert !Matches(shown[i], left[j]);
      }
      AbsentCounts(left, c);
      FewerPairsTakeFewer(extra, other, n, c);
      assert Count(left, c) + Count(Taken(paired, n), c) == Count(cards, c);
      assert Count(rest, c) + Count(Taken(other, n), c) == Count(cards, c);
    }
  }

  lemma PairsAreTaken(shown: seq<Check>, p: map<nat, Card>)
    requires forall i | i in p :: i < |shown|
    ensures |Taken(p, |shown|)| == |p|
  {
    TakenCount(p, |shown|);
    assert (set i | i in p.Keys && i < |shown|) == p.Keys;
  }

  /** With or without ids: no way of handing the cards to matching checks has more than twice the pairs of
      one that misses nothing. */
  lemma GreedyReachesHalf(cards: seq<Card>, shown: seq<Check>, paired: map<nat, Card>, left: seq<Card>,
                          other: map<nat, Card>, rest: seq<Card>)
    requires Conserves(cards, |shown|, paired, left) && PairsMatch(shown, paired) && NothingMissed(shown, |shown|, paired, left)
    requires Conserves(cards, |shown|, other, rest) && PairsMatch(shown, other)
    ensures |other| <= 2 * |paired|
  {
    var extra := Extra(other, paired);
    forall c ensures Count(Taken(extra, |shown|), c) <= Count(Taken(paired, |shown|), c) {
      ExtraCardsAreTaken(cards, shown, paired, left, other, rest, c);
    }
    FewerCardsAreShorter(Taken(extra, |shown|), Taken(paired, |shown|));
    PairsAreTaken(shown, extra);
    PairsAreTaken(shown, paired);
    assert other.Keys <= extra.Keys + paired.Keys;
    SubsetSize(other.Keys, extra.Keys + paired.Keys);
    assert |other| == |other.Keys| && |extra| == |extra.Keys| && |paired| == |paired.Keys|;
  }
}
