/**
 * The reshuffle simulator of reshuffle.c: decks of card records kept as
 * circular doubly-linked lists, the moves of the deal, and the loop that
 * counts rounds until the deck is back in its first order.
 *
 * The card records live in one slab, the array `slab`; the address of a
 * record is its slot number and the null address is `Null`. Changing a record's
 * links writes its slot. Each `Deck` carries, as a ghost field, the slots of
 * its records from the top card down, and every operation is specified by
 * what it does to that sequence and to the cards read along it
 * (`ShuffleSpec`).
 */
module Reshuffle {
  import opened Optional
  import opened ShuffleSpec

  /** The null `prev` or `next` link. */
  const Null: int := -1

  /** One card record (`item_t`): the card and the slots of its neighbours. */
  datatype Item = Item(card: nat, prev: int, next: int)

  /** Every slot in `items` is one of the `n` slots of the slab, and none is used twice. */
  ghost predicate InSlab(items: seq<nat>, n: nat)
  {
    (forall k :: 0 <= k < |items| ==> items[k] < n) && Distinct(items)
  }

  ghost predicate Distinct(items: seq<nat>)
  {
    forall i, j :: 0 <= i < j < |items| ==> items[i] != items[j]
  }

  /**
   * The records in slots `items` form a circular doubly-linked list in that
   * order: each `next` leads to the record below, each `prev` to the one
   * above, the bottom card's `next` is the top card and the top card's
   * `prev` the bottom card.
   */
  ghost predicate Ring(s: seq<Item>, items: seq<nat>)
  {
    && InSlab(items, |s|)
    && (forall k :: 0 <= k < |items| - 1 ==> s[items[k]].next == items[k + 1])
    && (forall k :: 0 < k < |items| ==> s[items[k]].prev == items[k - 1])
    && (|items| > 0 ==> s[items[|items| - 1]].next == items[0] && s[items[0]].prev == items[|items| - 1])
  }

  /** No record is in both decks. */
  ghost predicate Apart(x: seq<nat>, y: seq<nat>)
  {
    forall k :: 0 <= k < |x| ==> x[k] !in y
  }

  /** The card in a slot of the slab. */
  function CardOf(s: seq<Item>): nat -> nat
  {
    (i: nat) => if i < |s| then s[i].card else 0
  }

  /** The cards read along the slots `items`, top card first. */
  ghost function Cards(s: seq<Item>, items: seq<nat>): seq<nat>
  {
    Map(CardOf(s), items)
  }

  /** Slab `s'` is slab `s` with at most the slots in `touched` rewritten. */
  ghost predicate Untouched(s: seq<Item>, s': seq<Item>, touched: seq<nat>)
  {
    |s'| == |s| && forall i :: 0 <= i < |s| && i !in touched ==> s'[i] == s[i]
  }

  /** Slab `s'` holds the same card in every slot as slab `s`. */
  ghost predicate SameCards(s: seq<Item>, s': seq<Item>)
  {
    |s'| == |s| && forall i :: 0 <= i < |s| ==> s'[i].card == s[i].card
  }

  /** Rewriting slots outside a list leaves the list as it is. */
  lemma RingFrame(s: seq<Item>, s': seq<Item>, touched: seq<nat>, items: seq<nat>)
    requires Ring(s, items) && Untouched(s, s', touched) && Apart(items, touched)
    ensures Ring(s', items)
  {
    forall k | 0 <= k < |items|
      ensures s'[items[k]] == s[items[k]]
    {
      assert items[k] !in touched;
    }
    if |items| > 0 {
      assert s'[items[0]] == s[items[0]];
      assert s'[items[|items| - 1]] == s[items[|items| - 1]];
    }
  }

  /** Relinking records does not change the cards they hold. */
  lemma CardsFrame(s: seq<Item>, s': seq<Item>, items: seq<nat>)
    requires SameCards(s, s')
    ensures Cards(s', items) == Cards(s, items)
  {
  }

  /** A deck (`deck_t`): its card count and the slot of its top card. */
  class Deck {
    var count: nat
    var cards: int
    /** The slots of the deck's records, top card first. */
    ghost var items: seq<nat>

    ghost predicate Valid(slab: array<Item>)
      reads this, slab
    {
      && count == |items|
      && (items != [] ==> cards == items[0])
      && Ring(slab[..], items)
    }

    /** The deck's cards, top card first. */
    ghost function Contents(slab: array<Item>): seq<nat>
      reads this, slab
    {
      Cards(slab[..], items)
    }

    /**
     * `init_deck`: the deck of cards `1..n`, built in the first `n` slots of
     * the slab, card `i` in slot `i - 1`, and closed into a ring.
     */
    constructor Init(slab: array<Item>, n: nat)
      requires n <= slab.Length
      modifies slab
      ensures Valid(slab) && items == Indices(n) && Contents(slab) == Iota(n)
      ensures forall i :: n <= i < slab.Length ==> slab[i] == old(slab[i])
    {
      if n > 0 {
        var current := 0;
        slab[current] := Item(1, Null, Null);
        var prev := current;
        var i := 2;
        while i < n + 1
          invariant 2 <= i <= n + 1 && prev == current == i - 2
          invariant forall k :: 0 <= k < i - 1 ==> slab[k].card == k + 1
          invariant forall k :: 0 <= k < i - 2 ==> slab[k].next == k + 1
          invariant forall k :: 0 < k < i - 1 ==> slab[k].prev == k - 1
          invariant forall k :: n <= k < slab.Length ==> slab[k] == old(slab[k])
        {
          current := i - 1;
          slab[current] := Item(i, prev, Null);
          slab[prev] := slab[prev].(next := current);
          prev := current;
          i := i + 1;
        }
        slab[current] := slab[current].(next := 0);
        slab[0] := slab[0].(prev := current);
        InitRing(slab[..], n);
      }
      count, cards, items := n, if n == 0 then Null else 0, Indices(n);
    }

    /**
     * `nip_top`: unlinks the top record of a non-empty deck and returns its
     * slot with both links null; the rest of the deck keeps its order.
     */
    method NipTop(slab: array<Item>) returns (nip: nat)
      requires Valid(slab) && count > 0
      modifies this, slab
      ensures nip == old(items[0]) && items == old(items[1..]) && count == old(count) - 1
      ensures Valid(slab)
      ensures slab[nip] == old(slab[nip]).(prev := Null, next := Null)
      ensures Untouched(old(slab[..]), slab[..], old(items)) && SameCards(old(slab[..]), slab[..])
    {
      ghost var s, all := slab[..], items;
      nip := cards;
      var p, q := slab[nip].prev, slab[nip].next;
      assert p == all[|all| - 1] && q == (if |all| > 1 then all[1] else nip);
      slab[p] := slab[p].(next := q);
      slab[q] := slab[q].(prev := p);
      cards := slab[nip].next;
      count := count - 1;
      items := items[1..];
      slab[nip] := slab[nip].(prev := Null, next := Null);
      if |all| > 1 {
        NipRing(s, slab[..], all);
      }
    }

    /**
     * `tuck_bottom`: links the record in slot `tuck` under the bottom card,
     * or makes it a one-card ring when the deck is empty.
     */
    method TuckBottom(slab: array<Item>, tuck: nat)
      requires Valid(slab) && tuck < slab.Length && tuck !in items
      modifies this, slab
      ensures items == old(items) + [tuck] && count == old(count) + 1
      ensures Valid(slab)
      ensures Untouched(old(slab[..]), slab[..], items) && SameCards(old(slab[..]), slab[..])
    {
      ghost var s := slab[..];
      if count == 0 {
        slab[tuck] := slab[tuck].(prev := tuck, next := tuck);
        cards := tuck;
        count := count + 1;
        items := [tuck];
        assert Ring(slab[..], items);
        return;
      }
      var current := slab[cards].prev;
      var first := slab[current].next;
      slab[tuck] := slab[tuck].(prev := current, next := first);
      slab[first] := slab[first].(prev := tuck);
      slab[current] := slab[current].(next := tuck);
      count := count + 1;
      items := items + [tuck];
      TuckRing(s, slab[..], old(items), tuck);
    }

    /**
     * Step (2) of `one_move`: `nip_top` followed by `tuck_bottom` on the same
     * deck, which moves the top card under the others. The deck stays apart
     * from any deck `other` it was apart from.
     */
    method TopToBottom(slab: array<Item>, ghost other: seq<nat>)
      requires Valid(slab) && count > 0 && Apart(items, other)
      modifies this, slab
      ensures items == old(items[1..]) + [old(items[0])] && count == old(count)
      ensures Valid(slab) && Apart(items, other) && Apart(other, items)
      ensures Untouched(old(slab[..]), slab[..], items) && SameCards(old(slab[..]), slab[..])
    {
      ghost var all := items;
      var nip := NipTop(slab);
      ApartRotate(all, other);
      TuckBottom(slab, nip);
      ApartSym(items, other);
    }

    /**
     * `is_orig_deck`: whether the deck holds `decksize` cards and they read
     * `1, 2, ..., decksize` from the top along the `next` links.
     */
    method IsOrig(slab: array<Item>, decksize: nat) returns (orig: bool)
      requires Valid(slab)
      ensures orig <==> count == decksize && Contents(slab) == Iota(decksize)
    {
      if count != decksize {
        return false;
      }
      var current := cards;
      var i := 1;
      while i < count + 1
        invariant 1 <= i <= count + 1
        invariant i <= count ==> current == items[i - 1]
        invariant count > 0 && i == count + 1 ==> current == items[0]
        invariant forall k :: 0 <= k < i - 1 ==> Contents(slab)[k] == k + 1
      {
        if slab[current].card != i {
          assert Contents(slab)[i - 1] != Iota(decksize)[i - 1];
          return false;
        }
        current := slab[current].next;
        i := i + 1;
      }
      assert count > 0 ==> current == cards;
      return true;
    }
  }

  /** The links and cards `init_deck` leaves in the first `n` slots: the ring of cards `1..n`. */
  lemma InitRing(s: seq<Item>, n: nat)
    requires 1 <= n <= |s|
    requires forall k :: 0 <= k < n ==> s[k].card == k + 1
    requires forall k :: 0 <= k < n - 1 ==> s[k].next == k + 1
    requires forall k :: 0 < k < n ==> s[k].prev == k - 1
    requires s[n - 1].next == 0 && s[0].prev == n - 1
    ensures Ring(s, Indices(n)) && Cards(s, Indices(n)) == Iota(n)
  {
  }

  /**
   * The links `nip_top` leaves on a ring of two or more records: the bottom
   * record `p` and the second record `q` are linked to each other, and the
   * rest is the ring without its top record.
   */
  lemma NipRing(s: seq<Item>, s': seq<Item>, items: seq<nat>)
    requires Ring(s, items) && |items| > 1 && |s'| == |s|
    requires var t, p, q := items[0], items[|items| - 1], items[1];
      && (forall i :: 0 <= i < |s| && i != p && i != q && i != t ==> s'[i] == s[i])
      && s'[p].next == q && s'[q].prev == p
      && (p != q ==> s'[p].prev == s[p].prev && s'[q].next == s[q].next)
    ensures Ring(s', items[1..])
  {
    var rest := items[1..];
    forall k | 0 <= k < |rest| - 1
      ensures s'[rest[k]].next == rest[k + 1]
    {
      assert rest[k] == items[k + 1];
    }
    forall k | 0 < k < |rest|
      ensures s'[rest[k]].prev == rest[k - 1]
    {
      assert rest[k] == items[k + 1];
    }
  }

  /** The links `tuck_bottom` leaves on a non-empty ring: the ring with `tuck` under its bottom record. */
  lemma TuckRing(s: seq<Item>, s': seq<Item>, items: seq<nat>, tuck: nat)
    requires Ring(s, items) && items != [] && |s'| == |s| && tuck < |s| && tuck !in items
    requires var first, last := items[0], items[|items| - 1];
      && (forall i :: 0 <= i < |s| && i != first && i != last && i != tuck ==> s'[i] == s[i])
      && s'[tuck] == s[tuck].(prev := last, next := first)
      && (first != last ==> s'[first] == s[first].(prev := tuck) && s'[last] == s[last].(next := tuck))
      && (first == last ==> s'[first] == s[first].(prev := tuck, next := tuck))
    ensures Ring(s', items + [tuck])
  {
    var all := items + [tuck];
    forall k | 0 <= k < |all| - 1
      ensures s'[all[k]].next == all[k + 1]
    {
      assert all[k] == items[k];
    }
    forall k | 0 < k < |all|
      ensures s'[all[k]].prev == all[k - 1]
    {
      assert all[k - 1] == items[k - 1];
    }
  }

  /**
   * Step (1) of `one_move`: `nip_top` on `a` followed by `tuck_bottom` on
   * `b`, which moves the top card of `a` under `b`.
   */
  method TopToOther(slab: array<Item>, a: Deck, b: Deck)
    requires a != b && a.Valid(slab) && b.Valid(slab) && Apart(a.items, b.items) && a.count > 0
    modifies a, b, slab
    ensures a.Valid(slab) && b.Valid(slab) && Apart(a.items, b.items)
    ensures a.items == old(a.items[1..]) && b.items == old(b.items) + [old(a.items[0])]
    ensures SameCards(old(slab[..]), slab[..])
  {
    ghost var a0, b0, s0 := a.items, b.items, slab[..];
    var nip := a.NipTop(slab);
    ghost var s1 := slab[..];
    RingFrame(s0, s1, a0, b0);
    ApartNip(a0, b0);
    b.TuckBottom(slab, nip);
    ApartSym(a.items, b.items);
    RingFrame(s1, slab[..], b.items, a.items);
  }

  /**
   * `one_move`: the top card of `a` goes under `b`, then, if `a` still has
   * more than one card, the new top card of `a` goes under `a`.
   */
  method OneMove(slab: array<Item>, a: Deck, b: Deck)
    requires a != b && a.Valid(slab) && b.Valid(slab) && Apart(a.items, b.items) && a.count > 0
    modifies a, b, slab
    ensures a.Valid(slab) && b.Valid(slab) && Apart(a.items, b.items)
    ensures Decks(a.items, b.items) == Move(old(a.items), old(b.items))
    ensures a.count == old(a.count) - 1 && b.count == old(b.count) + 1
    ensures multiset(a.items) + multiset(b.items) == old(multiset(a.items) + multiset(b.items))
    ensures SameCards(old(slab[..]), slab[..])
  {
    TopToOther(slab, a, b);
    if a.count > 1 {
      ghost var s := slab[..];
      a.TopToBottom(slab, b.items);
      RingFrame(s, slab[..], old(a.items)[1..], b.items);
    }
    MoveMultiset(old(a.items), old(b.items));
  }

  lemma ApartSym(x: seq<nat>, y: seq<nat>)
    requires Apart(x, y)
    ensures Apart(y, x)
  {
  }

  /** The top record leaves one deck for the bottom of the other: they stay apart. */
  lemma ApartNip(x: seq<nat>, y: seq<nat>)
    requires Apart(x, y) && x != [] && Distinct(x)
    ensures x[0] !in y && Apart(x[1..], y + [x[0]])
  {
    forall k | 0 <= k < |x[1..]|
      ensures x[1..][k] !in y + [x[0]]
    {
      assert x[1..][k] == x[k + 1];
    }
  }

  /** The top record of a deck goes under the same deck: the two decks stay apart. */
  lemma ApartRotate(x: seq<nat>, y: seq<nat>)
    requires Apart(x, y) && x != [] && Distinct(x)
    ensures x[0] !in x[1..] && Apart(x[1..] + [x[0]], y)
  {
    var r := x[1..] + [x[0]];
    forall k | 0 <= k < |r|
      ensures r[k] !in y
    {
      if k < |x| - 1 {
        assert r[k] == x[k + 1];
      }
    }
  }

  /**
   * `round`: moves until `b` holds all `decksize` cards; `a` ends empty and
   * `b` holds the round of `a`'s deck.
   */
  method Round(slab: array<Item>, a: Deck, b: Deck, decksize: nat)
    requires a != b && a.Valid(slab) && b.Valid(slab) && Apart(a.items, b.items)
    requires a.count == decksize && b.count == 0 && decksize > 0
    modifies a, b, slab
    ensures a.Valid(slab) && b.Valid(slab) && Apart(a.items, b.items)
    ensures a.items == [] && b.items == ShuffleSpec.Round(old(a.items)) && b.count == decksize
    ensures SameCards(old(slab[..]), slab[..])
  {
    OneMove(slab, a, b);
    while b.count < decksize
      invariant a.Valid(slab) && b.Valid(slab) && Apart(a.items, b.items)
      invariant a.count + b.count == decksize
      invariant Deal(a.items, b.items) == ShuffleSpec.Round(old(a.items))
      invariant SameCards(old(slab[..]), slab[..])
      decreases decksize - b.count
    {
      OneMove(slab, a, b);
    }
  }

  /** A round relinks the records so that they read as the round of the deck's cards. */
  lemma CardsRound(s: seq<Item>, s': seq<Item>, items: seq<nat>)
    requires SameCards(s, s')
    ensures Cards(s', ShuffleSpec.Round(items)) == ShuffleSpec.Round(Cards(s, items))
  {
    CardsFrame(s, s', items);
    MapDeal(CardOf(s'), items, []);
    assert Map(CardOf(s'), []) == [];
  }

  /**
   * The round-counting loop of `main` for a deck of `decksize` cards, given
   * at most `fuel` rounds: the number of rounds it prints is the first after
   * which the deck is `1..decksize` again.
   */
  method CountRounds(decksize: nat, fuel: nat) returns (rounds: Option<nat>)
    requires decksize > 0
    ensures rounds.Some? ==> rounds.value <= fuel && FirstReturn(decksize, rounds.value)
    ensures rounds.None? ==> NoReturnWithin(decksize, fuel)
  {
    var slab := new Item[decksize](_ => Item(0, Null, Null));
    var hand := new Deck.Init(slab, decksize);
    ghost var s := slab[..];
    var table := new Deck.Init(slab, 0);
    assert slab[..] == s;
    assert hand.Contents(slab) == Iota(decksize) == Iterate(Iota(decksize), 0);
    var decka, deckb := hand, table;
    var r := 0;
    while r < fuel
      invariant (decka, deckb) == (hand, table) || (decka, deckb) == (table, hand)
      invariant decka.Valid(slab) && deckb.Valid(slab) && Apart(decka.items, deckb.items)
      invariant decka.count == decksize && deckb.count == 0
      invariant decka.Contents(slab) == Iterate(Iota(decksize), r)
      invariant NoReturnWithin(decksize, r)
    {
      s := slab[..];
      ghost var before := decka.items;
      Round(slab, decka, deckb, decksize);
      CardsRound(s, slab[..], before);
      assert deckb.Contents(slab) == Iterate(Iota(decksize), r + 1);
      var orig := deckb.IsOrig(slab, decksize);
      if orig {
        assert Returns(decksize, r + 1);
        return Some(r + 1);
      }
      NoReturnNext(decksize, r);
      decka, deckb := deckb, decka;
      r := r + 1;
    }
    return None;
  }
}
