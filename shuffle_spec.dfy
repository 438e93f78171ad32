/**
 * The deal of the reshuffle puzzle on plain sequences, top card first:
 * one card goes down on the table, the next goes under the hand, until the
 * hand is empty; the table deck is then picked up and dealt again. These
 * functions specify the linked decks of the `Reshuffle` module.
 */
module ShuffleSpec {

  /** The cards `1, 2, ..., n` from the top: the deck `init_deck` builds. */
  function Iota(n: nat): (d: seq<nat>)
    ensures |d| == n
    ensures forall i :: 0 <= i < n ==> d[i] == i + 1
  {
    seq(n, i => i + 1)
  }

  /** The top card moved under the rest; a deck of fewer than two cards stays as it is. */
  function Rotate<T>(s: seq<T>): seq<T>
  {
    if |s| > 1 then s[1..] + [s[0]] else s
  }

  /** Two decks, as `one_move` and `round` leave them. */
  datatype Decks<T> = Decks(hand: seq<T>, table: seq<T>)

  /** One move: the top card of the hand goes under the table deck, then the hand rotates by one. */
  function Move<T>(hand: seq<T>, table: seq<T>): Decks<T>
    requires hand != []
  {
    Decks(Rotate(hand[1..]), table + [hand[0]])
  }

  /** Moves until the hand is empty: the table deck they leave. */
  function Deal<T>(hand: seq<T>, table: seq<T>): seq<T>
    decreases |hand|
  {
    if hand == [] then table
    else
      var d := Move(hand, table);
      Deal(d.hand, d.table)
  }

  /** One round: the whole hand dealt onto an empty table. */
  function Round<T>(s: seq<T>): seq<T>
  {
    Deal(s, [])
  }

  /** The deck after `r` rounds, each picking up the table deck of the one before. */
  function Iterate<T>(s: seq<T>, r: nat): seq<T>
  {
    if r == 0 then s else Round(Iterate(s, r - 1))
  }

  /** `r` is a number of rounds after which the deck `1..n` is back in order. */
  predicate Returns(n: nat, r: nat)
  {
    Iterate(Iota(n), r) == Iota(n)
  }

  /** The deck `1..n` is not back in order after any of the rounds `1..r`. */
  predicate NoReturnWithin(n: nat, r: nat)
  {
    forall k :: 1 <= k <= r ==> !Returns(n, k)
  }

  /** `r` is the first round, from one on, after which the deck `1..n` is back in order. */
  predicate FirstReturn(n: nat, r: nat)
  {
    r >= 1 && Returns(n, r) && NoReturnWithin(n, r - 1)
  }

  /** Rounds `1..r` fail and round `r + 1` does not: the search goes on. */
  lemma NoReturnNext(n: nat, r: nat)
    requires NoReturnWithin(n, r) && !Returns(n, r + 1)
    ensures NoReturnWithin(n, r + 1)
  {
  }

  // ---------------------------------------------------------------------------
  // Cards are only moved

  /** Rotating keeps the cards. */
  lemma RotateMultiset<T>(s: seq<T>)
    ensures |Rotate(s)| == |s| && multiset(Rotate(s)) == multiset(s)
  {
    if |s| > 1 {
      assert s == [s[0]] + s[1..];
    }
  }

  /** A move takes one card from the hand to the table and loses or gains none. */
  lemma MoveMultiset<T>(hand: seq<T>, table: seq<T>)
    requires hand != []
    ensures var d := Move(hand, table);
      && |d.hand| == |hand| - 1 && |d.table| == |table| + 1
      && multiset(d.hand) + multiset(d.table) == multiset(hand) + multiset(table)
  {
    RotateMultiset(hand[1..]);
    assert hand == [hand[0]] + hand[1..];
  }

  /** Dealing puts every card of both decks on the table, each exactly once. */
  lemma {:induction false} DealMultiset<T>(hand: seq<T>, table: seq<T>)
    ensures |Deal(hand, table)| == |hand| + |table|
    ensures multiset(Deal(hand, table)) == multiset(hand) + multiset(table)
    decreases |hand|
  {
    if hand != [] {
      var d := Move(hand, table);
      MoveMultiset(hand, table);
      DealMultiset(d.hand, d.table);
    }
  }

  /** A round is a permutation of the deck. */
  lemma RoundPermutes<T>(s: seq<T>)
    ensures |Round(s)| == |s| && multiset(Round(s)) == multiset(s)
  {
    DealMultiset(s, []);
  }

  /** Any number of rounds is a permutation of the deck. */
  lemma {:induction false} IteratePermutes<T>(s: seq<T>, r: nat)
    ensures |Iterate(s, r)| == |s| && multiset(Iterate(s, r)) == multiset(s)
  {
    if r > 0 {
      IteratePermutes(s, r - 1);
      RoundPermutes(Iterate(s, r - 1));
    }
  }

  /** Dealing never looks at the table deck: it only grows under its cards. */
  lemma {:induction false} DealKeepsTable<T>(hand: seq<T>, table: seq<T>)
    ensures Deal(hand, table) == table + Round(hand)
    decreases |hand|
  {
    if hand != [] {
      var d := Move(hand, table);
      var e := Move(hand, []);
      assert e.hand == d.hand && d.table == table + e.table;
      DealKeepsTable(d.hand, d.table);
      DealKeepsTable(e.hand, e.table);
    }
  }

  // ---------------------------------------------------------------------------
  // Rounds do not look at the cards

  /** The cards `s` relabelled one by one with `f`. */
  function Map<T, U>(f: T -> U, s: seq<T>): (r: seq<U>)
    ensures |r| == |s|
  {
    seq(|s|, i requires 0 <= i < |s| => f(s[i]))
  }

  lemma MapRotate<T, U>(f: T -> U, s: seq<T>)
    ensures Map(f, Rotate(s)) == Rotate(Map(f, s))
  {
  }

  lemma MapMove<T, U>(f: T -> U, hand: seq<T>, table: seq<T>)
    requires hand != []
    ensures Move(Map(f, hand), Map(f, table)) == Decks(Map(f, Move(hand, table).hand), Map(f, Move(hand, table).table))
  {
    assert Map(f, hand)[1..] == Map(f, hand[1..]);
    MapRotate(f, hand[1..]);
  }

  lemma {:induction false} MapDeal<T, U>(f: T -> U, hand: seq<T>, table: seq<T>)
    ensures Map(f, Deal(hand, table)) == Deal(Map(f, hand), Map(f, table))
    decreases |hand|
  {
    if hand != [] {
      var d := Move(hand, table);
      MapMove(f, hand, table);
      MapDeal(f, d.hand, d.table);
    }
  }

  /**
   * A round moves cards by position only: relabelling the cards before or
   * after any number of rounds gives the same deck.
   */
  lemma {:induction false} MapIterate<T, U>(f: T -> U, s: seq<T>, r: nat)
    ensures Map(f, Iterate(s, r)) == Iterate(Map(f, s), r)
  {
    if r > 0 {
      MapIterate(f, s, r - 1);
      MapDeal(f, Iterate(s, r - 1), []);
      assert Map(f, []) == [];
    }
  }

  /** The deck `0, 1, ..., n - 1`: each card is its own position. */
  function Indices(n: nat): (d: seq<nat>)
    ensures |d| == n
    ensures forall i :: 0 <= i < n ==> d[i] == i
  {
    seq(n, i => i)
  }

  /** The positions a round takes its cards from: its result for the deck `Indices(n)`. */
  function Positions(n: nat): seq<nat>
  {
    Round(Indices(n))
  }

  /**
   * A round is one fixed permutation of positions for each deck size: the
   * card at position `k` after the round is the one at `Positions(|s|)[k]`
   * before it.
   */
  lemma RoundByPositions<T>(s: seq<T>)
    ensures |Positions(|s|)| == |s| == |Round(s)|
    ensures forall k :: 0 <= k < |s| ==> Positions(|s|)[k] < |s| && Round(s)[k] == s[Positions(|s|)[k]]
  {
    var ids := Indices(|s|);
    RoundPermutes(ids);
    RoundPermutes(s);
    if s != [] {
      var f := (i: nat) => if i < |s| then s[i] else s[0];
      assert Map(f, ids) == s;
      MapDeal(f, ids, []);
      assert Map(f, []) == [];
      forall k | 0 <= k < |s|
        ensures Positions(|s|)[k] < |s|
      {
        var p := Positions(|s|)[k];
        assert p in multiset(Round(ids));
        assert p in ids;
      }
    }
  }

  // ---------------------------------------------------------------------------
  // Small decks

  /** One card is back after one round, as is a deck of two. */
  lemma OneOrTwoCards(n: nat)
    requires 1 <= n <= 2
    ensures FirstReturn(n, 1)
  {
  }

  /** One move, inside a deal. */
  lemma DealStep<T>(hand: seq<T>, table: seq<T>, hand': seq<T>, table': seq<T>)
    requires hand != [] && Move(hand, table) == Decks(hand', table')
    ensures Deal(hand, table) == Deal(hand', table')
  {
  }

  /** The four moves of a round of `1 2 3 4`. */
  lemma FirstRoundOfFour(d: seq<nat>)
    requires d == [1, 2, 3, 4]
    ensures Round(d) == [1, 3, 2, 4]
  {
    assert d[1..] == [2, 3, 4];
    DealStep(d, [], [3, 4, 2], [1]);
    assert [3, 4, 2][1..] == [4, 2];
    DealStep([3, 4, 2], [1], [2, 4], [1, 3]);
    assert [2, 4][1..] == [4];
    DealStep([2, 4], [1, 3], [4], [1, 3, 2]);
    DealStep([4], [1, 3, 2], [], [1, 3, 2, 4]);
  }

  /** The four moves of a round of `1 3 2 4`. */
  lemma SecondRoundOfFour(d: seq<nat>)
    requires d == [1, 3, 2, 4]
    ensures Round(d) == [1, 2, 3, 4]
  {
    assert d[1..] == [3, 2, 4];
    DealStep(d, [], [2, 4, 3], [1]);
    assert [2, 4, 3][1..] == [4, 3];
    DealStep([2, 4, 3], [1], [3, 4], [1, 2]);
    assert [3, 4][1..] == [4];
    DealStep([3, 4], [1, 2], [4], [1, 2, 3]);
    DealStep([4], [1, 2, 3], [], [1, 2, 3, 4]);
  }

  /** Four cards go `1 3 2 4` after one round and are back after two. */
  lemma FourCards(d: seq<nat>)
    requires d == Iota(4)
    ensures Iterate(d, 1) == [1, 3, 2, 4]
    ensures FirstReturn(4, 2)
  {
    assert d == [1, 2, 3, 4];
    FirstRoundOfFour(d);
    SecondRoundOfFour([1, 3, 2, 4]);
  }
}
