/**
 * The card queries. Reads are functions of the tables; each write is
 * specified by a function from the old `cards` table to the new one (and to
 * the rows it returns), which `Database.Db` applies in place.
 */
module CardQueries {
  import opened Wrappers
  import opened Seqs
  import opened Sorting
  import opened Schema
  import opened CardValidation

  /** `WHERE cards.deckId = deckId` */
  function InDeck(deckId: int): Card -> bool { (c: Card) => c.deckId == deckId }

  /** `WHERE cards.id = cardId AND cards.deckId = deckId` */
  function Matches(cardId: int, deckId: int): Card -> bool { (c: Card) => c.id == cardId && c.deckId == deckId }

  /** The complement of `Matches`: the rows a delete keeps. */
  function Unmatched(cardId: int, deckId: int): Card -> bool { (c: Card) => !(c.id == cardId && c.deckId == deckId) }

  /** `ORDER BY cards.order, cards.createdAt` */
  function PositionKey(c: Card): Key { Key(c.order, c.createdAt) }

  // ----- reads -----

  /** `getCardsByDeckId`: exactly the deck's cards, sorted by `(order, createdAt)`. */
  function CardsByDeckId(cards: seq<Card>, deckId: int): (r: seq<Card>)
    ensures forall c :: c in r <==> c in cards && c.deckId == deckId
    ensures forall c :: multiset(r)[c] == if c.deckId == deckId then multiset(cards)[c] else 0
    ensures SortedBy(r, PositionKey)
  {
    var r := SortBy(Filter(cards, InDeck(deckId)), PositionKey);
    SortedSelection(cards, InDeck(deckId), PositionKey, r);
    r
  }

  /** `getCardById`: the card with both that id and that deck, if there is one. */
  function CardById(cards: seq<Card>, cardId: int, deckId: int): (r: Option<Card>)
    ensures r.Some? <==> exists c :: c in cards && c.id == cardId && c.deckId == deckId
    ensures r.Some? ==> r.value in cards && r.value.id == cardId && r.value.deckId == deckId
  {
    First(cards, Matches(cardId, deckId))
  }

  /** The row `verifyCardOwnership` selects from `cards JOIN decks`. */
  datatype Ownership = Ownership(cardId: int, deckId: int, userId: string)

  /** `WHERE cards.id = cardId AND decks.userId = userId` over the join on `cards.deckId = decks.id`. */
  function OwnedCard(decks: seq<Deck>, cardId: int, userId: string): Card -> bool {
    (c: Card) => c.id == cardId && OwnsDeck(decks, c.deckId, userId)
  }

  /** `verifyCardOwnership`: found exactly when the card exists and its deck belongs to the caller. */
  function VerifyCardOwnership(decks: seq<Deck>, cards: seq<Card>, cardId: int, userId: string): (r: Option<Ownership>)
    ensures r.Some? <==> exists c :: c in cards && c.id == cardId && OwnsDeck(decks, c.deckId, userId)
    ensures r.Some? ==> r.value.cardId == cardId && r.value.userId == userId
                        && OwnsDeck(decks, r.value.deckId, userId)
                        && HasCard(cardId, r.value.deckId, cards)
  {
    match First(cards, OwnedCard(decks, cardId, userId))
    case None => None
    case Some(c) => Some(Ownership(c.id, c.deckId, userId))
  }

  /** Some row of `cards` has this id and this deck. */
  predicate HasCard(cardId: int, deckId: int, cards: seq<Card>) {
    exists c :: c in cards && c.id == cardId && c.deckId == deckId
  }

  // ----- insertCard -----

  /** The largest `order` among `s`. */
  function MaxOrder(s: seq<Card>): (m: int)
    requires s != []
    ensures forall c :: c in s ==> c.order <= m
    ensures exists c :: c in s && c.order == m
  {
    if |s| == 1 then s[0].order
    else
      var rest := MaxOrder(s[1..]);
      assert forall c :: c in s ==> c == s[0] || c in s[1..];
      if s[0].order >= rest then s[0].order else rest
  }

  /** The order `insertCard` gives a new card: one past the deck's largest order, or 0 in an empty deck. */
  function NextOrder(cards: seq<Card>, deckId: int): (r: int)
    ensures forall c :: c in cards && c.deckId == deckId ==> c.order < r
    ensures (forall c :: c in cards ==> c.deckId != deckId) ==> r == 0
    ensures (exists c :: c in cards && c.deckId == deckId) ==>
              exists c :: c in cards && c.deckId == deckId && c.order == r - 1
  {
    var inDeck := CardsByDeckId(cards, deckId);
    var maxOrder := if |inDeck| > 0 then MaxOrder(inDeck) else -1;
    assert (exists c :: c in cards && c.deckId == deckId) ==> inDeck != [];
    maxOrder + 1
  }

  /** The row `insertCard` adds, with id and timestamp supplied by the database. */
  function NewCardRow(cards: seq<Card>, id: int, deckId: int, front: string, back: string, now: nat): (c: Card)
    ensures c.id == id && c.deckId == deckId && c.front == front && c.back == back
    ensures c.createdAt == now && c.updatedAt == now
    ensures forall x :: x in cards && x.deckId == deckId ==> x.order < c.order
  {
    Card(id, deckId, front, back, NextOrder(cards, deckId), now, now)
  }

  /** A fresh id in an existing deck keeps the tables consistent. */
  lemma InsertKeepsConsistent(decks: seq<Deck>, cards: seq<Card>, c: Card)
    requires Consistent(decks, cards)
    requires HasDeck(decks, c.deckId)
    requires forall x :: x in cards ==> x.id != c.id
    ensures Consistent(decks, cards + [c])
  {
    var cards' := cards + [c];
    forall i, j | 0 <= i < j < |cards'| ensures cards'[i].id != cards'[j].id {
      if j == |cards| { assert cards'[i] in cards; }
    }
  }

  // ----- updateCardById -----

  /** `SET front, back, updatedAt`: an absent field is left as it is. */
  function EditCard(c: Card, front: Option<string>, back: Option<string>, now: nat): (e: Card)
    ensures e.id == c.id && e.deckId == c.deckId && e.order == c.order && e.createdAt == c.createdAt
    ensures e.front == (if front.Some? then front.value else c.front)
    ensures e.back == (if back.Some? then back.value else c.back)
    ensures e.updatedAt == now
  {
    c.(front := front.GetOr(c.front), back := back.GetOr(c.back), updatedAt := now)
  }

  /** The `cards` table after `updateCardById`. */
  function UpdateCards(cards: seq<Card>, cardId: int, deckId: int, front: Option<string>, back: Option<string>, now: nat): seq<Card> {
    seq(|cards|, i requires 0 <= i < |cards| =>
      if cards[i].id == cardId && cards[i].deckId == deckId then EditCard(cards[i], front, back, now) else cards[i])
  }

  /** The row `updateCardById` returns. */
  function UpdatedCard(cards: seq<Card>, cardId: int, deckId: int, front: Option<string>, back: Option<string>, now: nat): (r: Option<Card>)
    ensures r.None? <==> CardById(cards, cardId, deckId).None?
    ensures r.Some? ==> r.value == EditCard(CardById(cards, cardId, deckId).value, front, back, now)
  {
    match CardById(cards, cardId, deckId)
    case None => None
    case Some(c) => Some(EditCard(c, front, back, now))
  }

  /** Only the row matching both `id` and `deckId` changes, and only in `front`, `back` and `updatedAt`. */
  lemma UpdateChangesOnlyMatch(cards: seq<Card>, cardId: int, deckId: int, front: Option<string>, back: Option<string>, now: nat)
    ensures var r := UpdateCards(cards, cardId, deckId, front, back, now);
            && |r| == |cards|
            && (forall i :: 0 <= i < |cards| && !(cards[i].id == cardId && cards[i].deckId == deckId) ==> r[i] == cards[i])
            && (forall i :: 0 <= i < |cards| ==>
                  r[i].id == cards[i].id && r[i].deckId == cards[i].deckId
                  && r[i].order == cards[i].order && r[i].createdAt == cards[i].createdAt)
  {
  }

  /** An update never breaks consistency: ids and deck references are untouched. */
  lemma UpdateKeepsConsistent(decks: seq<Deck>, cards: seq<Card>, cardId: int, deckId: int,
                              front: Option<string>, back: Option<string>, now: nat)
    requires Consistent(decks, cards)
    ensures Consistent(decks, UpdateCards(cards, cardId, deckId, front, back, now))
  {
    var r := UpdateCards(cards, cardId, deckId, front, back, now);
    forall c | c in r ensures HasDeck(decks, c.deckId) {
      var i :| 0 <= i < |r| && r[i] == c;
      assert cards[i] in cards;
    }
  }

  /** An update keyed on an id and deck id that no row has leaves the table as it is. */
  lemma UnmatchedUpdateChangesNothing(cards: seq<Card>, cardId: int, deckId: int,
                                      front: Option<string>, back: Option<string>, now: nat)
    requires !HasCard(cardId, deckId, cards)
    ensures UpdateCards(cards, cardId, deckId, front, back, now) == cards
    ensures UpdatedCard(cards, cardId, deckId, front, back, now).None?
  {
    var r := UpdateCards(cards, cardId, deckId, front, back, now);
    forall i | 0 <= i < |cards| ensures r[i] == cards[i] {
      assert cards[i] in cards;
    }
  }

  // ----- updateCardsOrder -----

  /** One `UPDATE cards SET order, updatedAt WHERE id AND deckId` of the batch. */
  function SetOrder(cards: seq<Card>, deckId: int, pair: CardOrder, now: nat): (r: seq<Card>)
    ensures |r| == |cards|
  {
    if cards == [] then []
    else
      var c := cards[0];
      [if c.id == pair.id && c.deckId == deckId then c.(order := pair.order, updatedAt := now) else c]
      + SetOrder(cards[1..], deckId, pair, now)
  }

  /** Each update of the batch changes the matching row only, and only its order and update time. */
  lemma {:induction false} SetOrderAt(cards: seq<Card>, deckId: int, pair: CardOrder, now: nat)
    ensures forall i :: 0 <= i < |cards| ==>
              SetOrder(cards, deckId, pair, now)[i]
              == if cards[i].id == pair.id && cards[i].deckId == deckId
                 then cards[i].(order := pair.order, updatedAt := now) else cards[i]
  {
    if cards != [] {
      SetOrderAt(cards[1..], deckId, pair, now);
      var r := SetOrder(cards, deckId, pair, now);
      forall i | 1 <= i < |cards| ensures r[i] == SetOrder(cards[1..], deckId, pair, now)[i - 1] {
      }
    }
  }

  /**
   * An update of the batch runs only when its deck id, card id and order all
   * fit their `integer` columns; the others are refused by the database.
   */
  predicate OrderFits(deckId: int, pair: CardOrder) {
    FitsInteger(deckId) && FitsInteger(pair.id) && FitsInteger(pair.order)
  }

  /** The pairs of the batch whose updates run, in their order. */
  function FittingOrders(deckId: int, pairs: seq<CardOrder>): seq<CardOrder>
    decreases |pairs|
  {
    if pairs == [] then []
    else (if OrderFits(deckId, pairs[0]) then [pairs[0]] else []) + FittingOrders(deckId, pairs[1..])
  }

  /** The updates that run are those of the pairs that fit, and all of them when every pair fits. */
  lemma {:induction false} FittingOrdersEffect(deckId: int, pairs: seq<CardOrder>)
    ensures forall p :: p in FittingOrders(deckId, pairs) <==> p in pairs && OrderFits(deckId, p)
    ensures (forall p :: p in pairs ==> OrderFits(deckId, p)) ==> FittingOrders(deckId, pairs) == pairs
    decreases |pairs|
  {
    if pairs != [] {
      FittingOrdersEffect(deckId, pairs[1..]);
      assert pairs == [pairs[0]] + pairs[1..];
    }
  }

  /** The `cards` table after the batch, its updates run one after another, each at its own clock reading. */
  function ApplyOrders(cards: seq<Card>, deckId: int, pairs: seq<CardOrder>, now: nat): seq<Card>
    decreases |pairs|
  {
    if pairs == [] then cards
    else ApplyOrders(SetOrder(cards, deckId, pairs[0], now + 1), deckId, pairs[1..], now + 1)
  }

  /** `.returning()` of one update of the batch, taken as `u[0]` and kept if present. */
  function ReturnedRow(cards: seq<Card>, deckId: int, pair: CardOrder): seq<Card> {
    var row := CardById(cards, pair.id, deckId);
    if row.Some? then [row.value] else []
  }

  /** The rows the batch returns: for each pair in turn the row it updated, pairs that matched nothing dropped. */
  function ReorderedRows(cards: seq<Card>, deckId: int, pairs: seq<CardOrder>, now: nat): seq<Card>
    decreases |pairs|
  {
    if pairs == [] then []
    else
      var next := SetOrder(cards, deckId, pairs[0], now + 1);
      ReturnedRow(next, deckId, pairs[0]) + ReorderedRows(next, deckId, pairs[1..], now + 1)
  }

  /** The order a card ends with: that of the last pair naming it, or the one it had. */
  function FinalOrder(pairs: seq<CardOrder>, id: int, current: int): int
    decreases |pairs|
  {
    if pairs == [] then current
    else FinalOrder(pairs[1..], id, if pairs[0].id == id then pairs[0].order else current)
  }

  /**
   * The update time a card ends with when the batch starts after clock
   * reading `now`: the reading of the last pair naming it, or the one it had.
   */
  function FinalStamp(pairs: seq<CardOrder>, id: int, current: nat, now: nat): nat
    decreases |pairs|
  {
    if pairs == [] then current
    else FinalStamp(pairs[1..], id, if pairs[0].id == id then now + 1 else current, now + 1)
  }

  /**
   * What the batch does to the table: cards of other decks are left as they
   * are; a card of the deck changes in its order and update time only, both
   * taken from the last pair that names it.
   */
  lemma {:induction false} ApplyOrdersEffect(cards: seq<Card>, deckId: int, pairs: seq<CardOrder>, now: nat)
    ensures var r := ApplyOrders(cards, deckId, pairs, now);
            && |r| == |cards|
            && (forall i :: 0 <= i < |cards| && cards[i].deckId != deckId ==> r[i] == cards[i])
            && (forall i :: 0 <= i < |cards| ==>
                  r[i].id == cards[i].id && r[i].deckId == cards[i].deckId
                  && r[i].front == cards[i].front && r[i].back == cards[i].back
                  && r[i].createdAt == cards[i].createdAt)
            && (forall i :: 0 <= i < |cards| && cards[i].deckId == deckId ==>
                  r[i] == cards[i].(order := FinalOrder(pairs, cards[i].id, cards[i].order),
                                    updatedAt := FinalStamp(pairs, cards[i].id, cards[i].updatedAt, now)))
    decreases |pairs|
  {
    if pairs != [] {
      var next := SetOrder(cards, deckId, pairs[0], now + 1);
      SetOrderAt(cards, deckId, pairs[0], now + 1);
      ApplyOrdersEffect(next, deckId, pairs[1..], now + 1);
    }
  }

  /** No pair names `id`. */
  ghost predicate Unnamed(pairs: seq<CardOrder>, id: int) {
    forall k :: 0 <= k < |pairs| ==> pairs[k].id != id
  }

  lemma UnnamedTail(pairs: seq<CardOrder>, id: int)
    requires pairs != [] && Unnamed(pairs, id)
    ensures Unnamed(pairs[1..], id)
  {
    forall k | 0 <= k < |pairs[1..]| ensures pairs[1..][k].id != id {
      assert pairs[1..][k] == pairs[k + 1];
    }
  }

  /** A card that no pair names keeps its order. */
  lemma {:induction false} FinalOrderUnnamed(pairs: seq<CardOrder>, id: int, current: int)
    requires Unnamed(pairs, id)
    ensures FinalOrder(pairs, id, current) == current
    decreases |pairs|
  {
    if pairs != [] {
      assert pairs[0].id != id;
      UnnamedTail(pairs, id);
      FinalOrderUnnamed(pairs[1..], id, current);
    }
  }

  /** A card that no pair names keeps its update time. */
  lemma {:induction false} FinalStampUnnamed(pairs: seq<CardOrder>, id: int, current: nat, now: nat)
    requires Unnamed(pairs, id)
    ensures FinalStamp(pairs, id, current, now) == current
    decreases |pairs|
  {
    if pairs != [] {
      assert pairs[0].id != id;
      UnnamedTail(pairs, id);
      FinalStampUnnamed(pairs[1..], id, current, now + 1);
    }
  }

  /** The last pair naming a card decides its order. */
  lemma {:induction false} FinalOrderLastWins(pairs: seq<CardOrder>, id: int, current: int, k: nat)
    requires k < |pairs| && pairs[k].id == id
    requires Unnamed(pairs[k + 1..], id)
    ensures FinalOrder(pairs, id, current) == pairs[k].order
    decreases |pairs|
  {
    var current' := if pairs[0].id == id then pairs[0].order else current;
    if k == 0 {
      assert pairs[1..] == pairs[k + 1..];
      FinalOrderUnnamed(pairs[1..], id, current');
    } else {
      assert pairs[1..][k - 1] == pairs[k];
      assert pairs[1..][k..] == pairs[k + 1..];
      FinalOrderLastWins(pairs[1..], id, current', k - 1);
    }
  }

  /** A card whose order fits `integer`, named only by pairs whose orders fit, ends with an order that fits. */
  lemma {:induction false} FinalOrderFits(pairs: seq<CardOrder>, id: int, current: int)
    requires FitsInteger(current)
    requires forall p :: p in pairs ==> FitsInteger(p.order)
    ensures FitsInteger(FinalOrder(pairs, id, current))
    decreases |pairs|
  {
    if pairs != [] {
      assert pairs[0] in pairs;
      assert forall p :: p in pairs[1..] ==> p in pairs;
      FinalOrderFits(pairs[1..], id, if pairs[0].id == id then pairs[0].order else current);
    }
  }

  /** The last pair naming a card decides its update time: the clock reading of that pair's update. */
  lemma {:induction false} FinalStampLastWins(pairs: seq<CardOrder>, id: int, current: nat, now: nat, k: nat)
    requires k < |pairs| && pairs[k].id == id
    requires Unnamed(pairs[k + 1..], id)
    ensures FinalStamp(pairs, id, current, now) == now + k + 1
    decreases |pairs|
  {
    var current' := if pairs[0].id == id then now + 1 else current;
    if k == 0 {
      assert pairs[1..] == pairs[k + 1..];
      FinalStampUnnamed(pairs[1..], id, current', now + 1);
    } else {
      assert pairs[1..][k - 1] == pairs[k];
      assert pairs[1..][k..] == pairs[k + 1..];
      FinalStampLastWins(pairs[1..], id, current', now + 1, k - 1);
    }
  }

  /** A card of the deck that no pair names comes out of the batch exactly as it was, update time included. */
  lemma ApplyOrdersKeepsUnnamed(cards: seq<Card>, deckId: int, pairs: seq<CardOrder>, now: nat, i: int)
    requires 0 <= i < |cards| && cards[i].deckId == deckId && Unnamed(pairs, cards[i].id)
    ensures |ApplyOrders(cards, deckId, pairs, now)| == |cards|
    ensures ApplyOrders(cards, deckId, pairs, now)[i] == cards[i]
  {
    ApplyOrdersEffect(cards, deckId, pairs, now);
    FinalOrderUnnamed(pairs, cards[i].id, cards[i].order);
    FinalStampUnnamed(pairs, cards[i].id, cards[i].updatedAt, now);
  }

  /**
   * A card of the deck named by pair `k` and by no later pair ends with that
   * pair's order, updated at the clock reading of the `k`-th update.
   */
  lemma ApplyOrdersLastWins(cards: seq<Card>, deckId: int, pairs: seq<CardOrder>, now: nat, i: int, k: nat)
    requires 0 <= i < |cards| && cards[i].deckId == deckId
    requires k < |pairs| && pairs[k].id == cards[i].id && Unnamed(pairs[k + 1..], cards[i].id)
    ensures |ApplyOrders(cards, deckId, pairs, now)| == |cards|
    ensures ApplyOrders(cards, deckId, pairs, now)[i]
            == cards[i].(order := pairs[k].order, updatedAt := now + k + 1)
  {
    ApplyOrdersEffect(cards, deckId, pairs, now);
    FinalOrderLastWins(pairs, cards[i].id, cards[i].order, k);
    FinalStampLastWins(pairs, cards[i].id, cards[i].updatedAt, now, k);
  }

  /** The pair names a card of the deck. */
  function NamesCardIn(cards: seq<Card>, deckId: int): CardOrder -> bool {
    (p: CardOrder) => HasCard(p.id, deckId, cards)
  }

  /** An update of the batch keeps every row's id and deck, so the same pairs name cards of the deck after it. */
  lemma SetOrderKeepsNames(cards: seq<Card>, deckId: int, pair: CardOrder, now: nat, pairs: seq<CardOrder>)
    ensures Filter(pairs, NamesCardIn(SetOrder(cards, deckId, pair, now), deckId)) == Filter(pairs, NamesCardIn(cards, deckId))
  {
    var next := SetOrder(cards, deckId, pair, now);
    SetOrderAt(cards, deckId, pair, now);
    forall p | p in pairs ensures NamesCardIn(next, deckId)(p) == NamesCardIn(cards, deckId)(p) {
      if HasCard(p.id, deckId, cards) {
        var c :| c in cards && c.id == p.id && c.deckId == deckId;
        var i :| 0 <= i < |cards| && cards[i] == c;
        assert next[i] in next;
      }
      if HasCard(p.id, deckId, next) {
        var c :| c in next && c.id == p.id && c.deckId == deckId;
        var i :| 0 <= i < |next| && next[i] == c;
        assert cards[i] in cards;
      }
    }
    FilterCongruent(pairs, NamesCardIn(next, deckId), NamesCardIn(cards, deckId));
  }

  /** The row an update of the batch returns carries that update's id and order. */
  lemma ReturnedRowOfPair(cards: seq<Card>, deckId: int, pair: CardOrder, now: nat)
    ensures var row := ReturnedRow(SetOrder(cards, deckId, pair, now), deckId, pair);
            && |row| == (if HasCard(pair.id, deckId, cards) then 1 else 0)
            && forall c :: c in row ==> c.deckId == deckId && c.id == pair.id && c.order == pair.order
  {
    var next := SetOrder(cards, deckId, pair, now);
    SetOrderAt(cards, deckId, pair, now);
    SetOrderKeepsNames(cards, deckId, pair, now, [pair]);
    var found := CardById(next, pair.id, deckId);
    if found.Some? {
      var i :| 0 <= i < |next| && next[i] == found.value;
      assert cards[i].id == pair.id && cards[i].deckId == deckId;
    }
  }

  /**
   * The batch returns exactly one row for each pair that names a card of the
   * deck, in the order of the pairs, and each row carries the id and order of
   * a pair of the batch.
   */
  lemma {:induction false} ReorderedRowsEffect(cards: seq<Card>, deckId: int, pairs: seq<CardOrder>, now: nat)
    ensures var rows := ReorderedRows(cards, deckId, pairs, now);
            && |rows| == |Filter(pairs, NamesCardIn(cards, deckId))| <= |pairs|
            && forall c :: c in rows ==>
                 c.deckId == deckId && exists k :: 0 <= k < |pairs| && c.id == pairs[k].id && c.order == pairs[k].order
    decreases |pairs|
  {
    if pairs != [] {
      var next := SetOrder(cards, deckId, pairs[0], now + 1);
      ReturnedRowOfPair(cards, deckId, pairs[0], now + 1);
      ReorderedRowsEffect(next, deckId, pairs[1..], now + 1);
      SetOrderKeepsNames(cards, deckId, pairs[0], now + 1, pairs[1..]);
      var rows := ReorderedRows(cards, deckId, pairs, now);
      var head := ReturnedRow(next, deckId, pairs[0]);
      var tail := ReorderedRows(next, deckId, pairs[1..], now + 1);
      assert rows == head + tail;
      forall c | c in rows
        ensures c.deckId == deckId && exists k :: 0 <= k < |pairs| && c.id == pairs[k].id && c.order == pairs[k].order
      {
        if c in head {
          assert c.id == pairs[0].id && c.order == pairs[0].order;
        } else {
          assert c in tail;
          var k :| 0 <= k < |pairs[1..]| && c.id == pairs[1..][k].id && c.order == pairs[1..][k].order;
          assert pairs[1..][k] == pairs[k + 1];
        }
      }
    }
  }

  /** The batch never breaks consistency. */
  lemma ApplyOrdersKeepsConsistent(decks: seq<Deck>, cards: seq<Card>, deckId: int, pairs: seq<CardOrder>, now: nat)
    requires Consistent(decks, cards)
    ensures Consistent(decks, ApplyOrders(cards, deckId, pairs, now))
  {
    ApplyOrdersEffect(cards, deckId, pairs, now);
    var r := ApplyOrders(cards, deckId, pairs, now);
    forall c | c in r ensures HasDeck(decks, c.deckId) {
      var i :| 0 <= i < |r| && r[i] == c;
      assert cards[i] in cards;
    }
  }

  /** One update of a batch that names no card of the deck leaves the table as it is. */
  lemma {:induction false} SetOrderUnmatched(cards: seq<Card>, deckId: int, pair: CardOrder, now: nat)
    requires forall c :: c in cards && c.deckId == deckId ==> c.id != pair.id
    ensures SetOrder(cards, deckId, pair, now) == cards
  {
    if cards != [] {
      assert cards[0] in cards;
      assert forall c :: c in cards[1..] ==> c in cards;
      SetOrderUnmatched(cards[1..], deckId, pair, now);
      assert cards == [cards[0]] + cards[1..];
    }
  }

  /** A batch none of whose ids is a card of the deck changes nothing and returns no rows. */
  lemma {:induction false} ForeignBatchChangesNothing(cards: seq<Card>, deckId: int, pairs: seq<CardOrder>, now: nat)
    requires forall k, c :: 0 <= k < |pairs| && c in cards && c.deckId == deckId ==> c.id != pairs[k].id
    ensures ApplyOrders(cards, deckId, pairs, now) == cards
    ensures ReorderedRows(cards, deckId, pairs, now) == []
  {
    if pairs != [] {
      SetOrderUnmatched(cards, deckId, pairs[0], now + 1);
      assert CardById(cards, pairs[0].id, deckId).None?;
      ForeignBatchChangesNothing(cards, deckId, pairs[1..], now + 1);
    }
  }

  // ----- deleteCardById -----

  /** The `cards` table after `deleteCardById`. */
  function DeleteCards(cards: seq<Card>, cardId: int, deckId: int): (r: seq<Card>)
    ensures forall c :: c in r <==> c in cards && !(c.id == cardId && c.deckId == deckId)
  {
    Filter(cards, Unmatched(cardId, deckId))
  }

  /** With unique ids a delete removes at most one row, and none when nothing matches. */
  lemma {:induction false} DeleteRemovesAtMostOne(cards: seq<Card>, cardId: int, deckId: int)
    requires UniqueBy(cards, CardId)
    ensures |cards| - 1 <= |DeleteCards(cards, cardId, deckId)| <= |cards|
    ensures CardById(cards, cardId, deckId).None? ==> DeleteCards(cards, cardId, deckId) == cards
  {
    if CardById(cards, cardId, deckId).None? {
      FilterAll(cards, Unmatched(cardId, deckId));
    } else if cards != [] {
      var tail := cards[1..];
      assert UniqueBy(tail, CardId) by {
        forall i, j | 0 <= i < j < |tail| ensures tail[i].id != tail[j].id {
          assert tail[i] == cards[i + 1] && tail[j] == cards[j + 1];
        }
      }
      if Matches(cardId, deckId)(cards[0]) {
        forall c | c in tail ensures Unmatched(cardId, deckId)(c) {
          var k :| 0 <= k < |tail| && tail[k] == c;
          assert cards[k + 1] == c;
        }
        FilterAll(tail, Unmatched(cardId, deckId));
      } else {
        DeleteRemovesAtMostOne(tail, cardId, deckId);
      }
    }
  }

  /** A delete never breaks consistency. */
  lemma DeleteKeepsConsistent(decks: seq<Deck>, cards: seq<Card>, cardId: int, deckId: int)
    requires Consistent(decks, cards)
    ensures Consistent(decks, DeleteCards(cards, cardId, deckId))
  {
    FilterKeepsUnique(cards, Unmatched(cardId, deckId), CardId);
  }
}
