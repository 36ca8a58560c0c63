/**
 * The database as a mutable object: the two tables, the identity sequences
 * that number their rows, and the clock that `defaultNow()` and
 * `new Date()` read. Every write query is a method that applies the
 * function specifying it in `CardQueries` or `DeckQueries`.
 */
module Database {
  import opened Wrappers
  import opened Schema
  import opened CardValidation
  import opened CardQueries
  import opened DeckQueries

  /**
   * The tables are consistent, every id was drawn from its identity sequence,
   * neither sequence has gone past the largest `integer`, and every card's
   * order fits its `integer` column.
   */
  ghost predicate TablesValid(decks: seq<Deck>, cards: seq<Card>, nextDeckId: nat, nextCardId: nat) {
    && Consistent(decks, cards)
    && 1 <= nextDeckId <= IntegerMax + 1 && 1 <= nextCardId <= IntegerMax + 1
    && (forall d :: d in decks ==> 1 <= d.id < nextDeckId)
    && (forall c :: c in cards ==> 1 <= c.id < nextCardId)
    && (forall c :: c in cards ==> FitsInteger(c.order))
  }

  lemma InsertCardValid(decks: seq<Deck>, cards: seq<Card>, nextDeckId: nat, nextCardId: nat, row: Card)
    requires TablesValid(decks, cards, nextDeckId, nextCardId)
    requires HasDeck(decks, row.deckId) && row.id == nextCardId && FitsInteger(nextCardId) && FitsInteger(row.order)
    ensures TablesValid(decks, cards + [row], nextDeckId, nextCardId + 1)
  {
    InsertKeepsConsistent(decks, cards, row);
  }

  /** Drawing an id from either sequence without inserting a row keeps the tables valid. */
  lemma DrawIdValid(decks: seq<Deck>, cards: seq<Card>, nextDeckId: nat, nextCardId: nat)
    requires TablesValid(decks, cards, nextDeckId, nextCardId)
    ensures FitsInteger(nextDeckId) ==> TablesValid(decks, cards, nextDeckId + 1, nextCardId)
    ensures FitsInteger(nextCardId) ==> TablesValid(decks, cards, nextDeckId, nextCardId + 1)
  {
  }

  lemma UpdateCardValid(decks: seq<Deck>, cards: seq<Card>, nextDeckId: nat, nextCardId: nat,
                        cardId: int, deckId: int, front: Option<string>, back: Option<string>, now: nat)
    requires TablesValid(decks, cards, nextDeckId, nextCardId)
    ensures TablesValid(decks, UpdateCards(cards, cardId, deckId, front, back, now), nextDeckId, nextCardId)
  {
    UpdateKeepsConsistent(decks, cards, cardId, deckId, front, back, now);
    var cards' := UpdateCards(cards, cardId, deckId, front, back, now);
    UpdateChangesOnlyMatch(cards, cardId, deckId, front, back, now);
    forall c | c in cards' ensures 1 <= c.id < nextCardId && FitsInteger(c.order) {
      var i :| 0 <= i < |cards'| && cards'[i] == c;
      assert cards[i] in cards;
    }
  }

  lemma ApplyOrdersValid(decks: seq<Deck>, cards: seq<Card>, nextDeckId: nat, nextCardId: nat,
                          deckId: int, pairs: seq<CardOrder>, now: nat)
    requires TablesValid(decks, cards, nextDeckId, nextCardId)
    requires forall p :: p in pairs ==> FitsInteger(p.order)
    ensures TablesValid(decks, ApplyOrders(cards, deckId, pairs, now), nextDeckId, nextCardId)
  {
    ApplyOrdersKeepsConsistent(decks, cards, deckId, pairs, now);
    ApplyOrdersEffect(cards, deckId, pairs, now);
    var cards' := ApplyOrders(cards, deckId, pairs, now);
    forall c | c in cards' ensures 1 <= c.id < nextCardId && FitsInteger(c.order) {
      var i :| 0 <= i < |cards'| && cards'[i] == c;
      assert cards[i] in cards;
      if cards[i].deckId == deckId {
        FinalOrderFits(pairs, cards[i].id, cards[i].order);
      }
    }
  }

  /**
   * One step of the reorder batch: applying its first pair at the next clock
   * reading leaves the rest of the batch to produce the same table and,
   * after the row that pair returned, the same rows.
   */
  lemma RunOrdersStep(cards: seq<Card>, rows: seq<Card>, deckId: int, pairs: seq<CardOrder>, now: nat,
                      table: seq<Card>, returned: seq<Card>)
    requires pairs != []
    requires ApplyOrders(cards, deckId, pairs, now) == table
    requires rows + ReorderedRows(cards, deckId, pairs, now) == returned
    ensures var next := SetOrder(cards, deckId, pairs[0], now + 1);
            && ApplyOrders(next, deckId, pairs[1..], now + 1) == table
            && (rows + ReturnedRow(next, deckId, pairs[0])) + ReorderedRows(next, deckId, pairs[1..], now + 1) == returned
  {
    var next := SetOrder(cards, deckId, pairs[0], now + 1);
    var got := ReturnedRow(next, deckId, pairs[0]);
    var later := ReorderedRows(next, deckId, pairs[1..], now + 1);
    assert ReorderedRows(cards, deckId, pairs, now) == got + later;
    assert rows + (got + later) == (rows + got) + later;
  }

  lemma DeleteCardValid(decks: seq<Deck>, cards: seq<Card>, nextDeckId: nat, nextCardId: nat, cardId: int, deckId: int)
    requires TablesValid(decks, cards, nextDeckId, nextCardId)
    ensures TablesValid(decks, DeleteCards(cards, cardId, deckId), nextDeckId, nextCardId)
  {
    DeleteKeepsConsistent(decks, cards, cardId, deckId);
  }

  lemma InsertDeckValid(decks: seq<Deck>, cards: seq<Card>, nextDeckId: nat, nextCardId: nat, row: Deck)
    requires TablesValid(decks, cards, nextDeckId, nextCardId)
    requires FitsVarchar(row.userId) && FitsVarchar(row.name) && row.id == nextDeckId && FitsInteger(nextDeckId)
    ensures TablesValid(decks + [row], cards, nextDeckId + 1, nextCardId)
  {
    InsertDeckKeepsConsistent(decks, cards, row);
  }

  lemma UpdateDeckValid(decks: seq<Deck>, cards: seq<Card>, nextDeckId: nat, nextCardId: nat,
                        deckId: int, userId: string, name: Option<string>, description: Option<string>, now: nat)
    requires TablesValid(decks, cards, nextDeckId, nextCardId)
    requires OwnsDeck(decks, deckId, userId) && name.Some? ==> FitsVarchar(name.value)
    ensures TablesValid(UpdateDecks(decks, deckId, userId, name, description, now), cards, nextDeckId, nextCardId)
  {
    var decks' := UpdateDecks(decks, deckId, userId, name, description, now);
    UpdateDeckChangesOnlyOwned(decks, deckId, userId, name, description, now);
    if OwnsDeck(decks, deckId, userId) {
      UpdateDeckKeepsConsistent(decks, cards, deckId, userId, name, description, now);
    }
    forall d | d in decks' ensures 1 <= d.id < nextDeckId {
      var i :| 0 <= i < |decks'| && decks'[i] == d;
      assert decks[i] in decks;
    }
  }

  lemma DeleteDeckValid(decks: seq<Deck>, cards: seq<Card>, nextDeckId: nat, nextCardId: nat, deckId: int, userId: string)
    requires TablesValid(decks, cards, nextDeckId, nextCardId)
    ensures TablesValid(DeleteDecks(decks, deckId, userId), DeleteDeckCards(decks, cards, deckId, userId), nextDeckId, nextCardId)
  {
    DeleteDeckEffect(decks, cards, deckId, userId);
  }

  /**
   * The updates of `updateCardsOrder`, one per pair in turn, each at the next
   * clock reading after `now`; returns the table, the updated rows and the
   * last clock reading.
   */
  method RunOrders(cards: seq<Card>, deckId: int, pairs: seq<CardOrder>, now: nat)
    returns (cards': seq<Card>, rows: seq<Card>, now': nat)
    ensures cards' == ApplyOrders(cards, deckId, pairs, now)
    ensures rows == ReorderedRows(cards, deckId, pairs, now)
    ensures now' == now + |pairs|
  {
    cards', now' := cards, now;
    var rest := pairs;
    rows := [];
    while rest != []
      invariant now' + |rest| == now + |pairs|
      invariant ApplyOrders(cards', deckId, rest, now') == ApplyOrders(cards, deckId, pairs, now)
      invariant rows + ReorderedRows(cards', deckId, rest, now') == ReorderedRows(cards, deckId, pairs, now)
      decreases |rest|
    {
      RunOrdersStep(cards', rows, deckId, rest, now', ApplyOrders(cards, deckId, pairs, now),
                    ReorderedRows(cards, deckId, pairs, now));
      cards' := SetOrder(cards', deckId, rest[0], now' + 1);
      rows := rows + ReturnedRow(cards', deckId, rest[0]);
      rest, now' := rest[1..], now' + 1;
    }
  }

  class Db {
    var decks: seq<Deck>
    var cards: seq<Card>
    /** The next value of the `decks.id` identity sequence. */
    var nextDeckId: nat
    /** The next value of the `cards.id` identity sequence. */
    var nextCardId: nat
    /** The last clock reading. */
    var clock: nat

    ghost predicate Valid()
      reads this
    {
      TablesValid(decks, cards, nextDeckId, nextCardId)
    }

    constructor ()
      ensures Valid()
      ensures decks == [] && cards == [] && clock == 0
    {
      decks, cards := [], [];
      nextDeckId, nextCardId, clock := 1, 1, 0;
    }

    /** Reads the clock; every reading is later than the one before. */
    method Now() returns (now: nat)
      modifies this`clock
      ensures clock == old(clock) + 1 && now == clock
    {
      clock := clock + 1;
      now := clock;
    }

    /**
     * The `INSERT INTO cards` statement of `insertCard`. The deck id and the
     * order are bound to `integer` parameters and refused before the
     * statement runs when they do not fit. The row's id is drawn from the
     * identity sequence as it runs, and stays drawn when the foreign key then
     * refuses the row.
     */
    method InsertCardRow(deckId: int, order: int, front: string, back: string) returns (r: Result<Card, StoreError>)
      requires Valid()
      modifies this
      ensures Valid()
      ensures decks == old(decks) && nextDeckId == old(nextDeckId)
      ensures r.Failure? <==> !FitsInteger(deckId) || !FitsInteger(order) || !FitsInteger(old(nextCardId))
                              || !HasDeck(old(decks), deckId)
      ensures !FitsInteger(deckId) || !FitsInteger(order) ==> r == Failure(OutOfRange) && unchanged(this)
      ensures FitsInteger(deckId) && FitsInteger(order) && !FitsInteger(old(nextCardId)) ==>
                r == Failure(SequenceExhausted) && unchanged(this)
      ensures FitsInteger(deckId) && FitsInteger(order) && FitsInteger(old(nextCardId)) && !HasDeck(old(decks), deckId) ==>
                && r == Failure(ForeignKeyViolation) && cards == old(cards) && clock == old(clock)
                && nextCardId == old(nextCardId) + 1
      ensures r.Success? ==> && clock == old(clock) + 1
                             && r.value == Card(old(nextCardId), deckId, front, back, order, clock, clock)
                             && cards == old(cards) + [r.value]
                             && nextCardId == old(nextCardId) + 1
    {
      if !FitsInteger(deckId) || !FitsInteger(order) {
        return Failure(OutOfRange);
      }
      if !FitsInteger(nextCardId) {
        return Failure(SequenceExhausted);
      }
      if !HasDeck(decks, deckId) {
        DrawIdValid(decks, cards, nextDeckId, nextCardId);
        nextCardId := nextCardId + 1;
        return Failure(ForeignKeyViolation);
      }
      var now := Now();
      var row := Card(nextCardId, deckId, front, back, order, now, now);
      InsertCardValid(decks, cards, nextDeckId, nextCardId, row);
      cards := cards + [row];
      nextCardId := nextCardId + 1;
      r := Success(row);
    }

    /**
     * `insertCard`: reads the deck's cards for the next order (a deck id that
     * does not fit an `integer` makes the read throw), then inserts one row.
     */
    method InsertCard(deckId: int, front: string, back: string) returns (r: Result<Card, StoreError>)
      requires Valid()
      modifies this
      ensures Valid()
      ensures decks == old(decks) && nextDeckId == old(nextDeckId)
      ensures var order := NextOrder(old(cards), deckId);
              && (r.Failure? <==> !FitsInteger(deckId) || !FitsInteger(order) || !FitsInteger(old(nextCardId))
                                  || !HasDeck(old(decks), deckId))
              && (!FitsInteger(deckId) || !FitsInteger(order) ==> r == Failure(OutOfRange) && unchanged(this))
              && (FitsInteger(deckId) && FitsInteger(order) && !FitsInteger(old(nextCardId)) ==>
                    r == Failure(SequenceExhausted) && unchanged(this))
              && (FitsInteger(deckId) && FitsInteger(order) && FitsInteger(old(nextCardId)) && !HasDeck(old(decks), deckId) ==>
                    && r == Failure(ForeignKeyViolation) && cards == old(cards) && clock == old(clock)
                    && nextCardId == old(nextCardId) + 1)
      ensures r.Success? ==> && clock == old(clock) + 1
                             && r.value == NewCardRow(old(cards), old(nextCardId), deckId, front, back, clock)
                             && cards == old(cards) + [r.value]
                             && nextCardId == old(nextCardId) + 1
    {
      if !FitsInteger(deckId) {
        return Failure(OutOfRange);
      }
      var order := NextOrder(cards, deckId);
      r := InsertCardRow(deckId, order, front, back);
    }

    /**
     * `updateCardById`: the clock is read as the `SET` is built; a card id or
     * deck id that does not fit an `integer` is then refused and no row changes.
     */
    method UpdateCardById(cardId: int, deckId: int, front: Option<string>, back: Option<string>)
      returns (r: Result<Option<Card>, StoreError>)
      requires Valid()
      modifies this
      ensures Valid()
      ensures decks == old(decks) && nextDeckId == old(nextDeckId) && nextCardId == old(nextCardId)
      ensures clock == old(clock) + 1
      ensures r.Failure? <==> !(FitsInteger(cardId) && FitsInteger(deckId))
      ensures r.Failure? ==> r.error == OutOfRange && cards == old(cards)
      ensures r.Success? ==> && cards == UpdateCards(old(cards), cardId, deckId, front, back, clock)
                             && r.value == UpdatedCard(old(cards), cardId, deckId, front, back, clock)
    {
      var now := Now();
      if !(FitsInteger(cardId) && FitsInteger(deckId)) {
        return Failure(OutOfRange);
      }
      r := Success(UpdatedCard(cards, cardId, deckId, front, back, now));
      UpdateCardValid(decks, cards, nextDeckId, nextCardId, cardId, deckId, front, back, now);
      cards := UpdateCards(cards, cardId, deckId, front, back, now);
    }

    /**
     * `updateCardsOrder`: one update per pair, run in the order of the pairs,
     * each reading the clock. The batch fails when some pair does not fit its
     * `integer` columns, but the updates of the pairs that fit still run.
     */
    method UpdateCardsOrder(deckId: int, pairs: seq<CardOrder>) returns (r: Result<seq<Card>, StoreError>)
      requires Valid()
      modifies this
      ensures Valid()
      ensures decks == old(decks) && nextDeckId == old(nextDeckId) && nextCardId == old(nextCardId)
      ensures clock == old(clock) + |pairs|
      ensures cards == ApplyOrders(old(cards), deckId, FittingOrders(deckId, pairs), old(clock))
      ensures r.Success? <==> forall p :: p in pairs ==> OrderFits(deckId, p)
      ensures r.Failure? ==> r.error == OutOfRange
      ensures r.Success? ==> && cards == ApplyOrders(old(cards), deckId, pairs, old(clock))
                             && r.value == ReorderedRows(old(cards), deckId, pairs, old(clock))
    {
      var run := FittingOrders(deckId, pairs);
      FittingOrdersEffect(deckId, pairs);
      ApplyOrdersValid(decks, cards, nextDeckId, nextCardId, deckId, run, clock);
      var cs, rows, last := RunOrders(cards, deckId, run, clock);
      cards, clock := cs, clock + |pairs|;
      if forall p :: p in pairs ==> OrderFits(deckId, p) {
        r := Success(rows);
      } else {
        r := Failure(OutOfRange);
      }
    }

    /** `deleteCardById`: a card id or deck id that does not fit an `integer` is refused and nothing changes. */
    method DeleteCardById(cardId: int, deckId: int) returns (r: Result<Option<Card>, StoreError>)
      requires Valid()
      modifies this
      ensures Valid()
      ensures decks == old(decks) && nextDeckId == old(nextDeckId) && nextCardId == old(nextCardId)
      ensures clock == old(clock)
      ensures r.Failure? <==> !(FitsInteger(cardId) && FitsInteger(deckId))
      ensures r.Failure? ==> r.error == OutOfRange && unchanged(this)
      ensures r.Success? ==> && cards == DeleteCards(old(cards), cardId, deckId)
                             && r.value == CardById(old(cards), cardId, deckId)
    {
      if !(FitsInteger(cardId) && FitsInteger(deckId)) {
        return Failure(OutOfRange);
      }
      r := Success(CardById(cards, cardId, deckId));
      DeleteCardValid(decks, cards, nextDeckId, nextCardId, cardId, deckId);
      cards := DeleteCards(cards, cardId, deckId);
    }

    /**
     * `insertDeck`: the id is drawn from the identity sequence as the insert
     * runs, before `userId` and `name` are checked against their
     * `varchar(255)` columns, so a refused row still uses up an id.
     */
    method InsertDeck(userId: string, name: string, description: Option<string>) returns (r: Result<Deck, StoreError>)
      requires Valid()
      modifies this
      ensures Valid()
      ensures cards == old(cards) && nextCardId == old(nextCardId)
      ensures r.Failure? <==> !FitsInteger(old(nextDeckId)) || !(FitsVarchar(userId) && FitsVarchar(name))
      ensures !FitsInteger(old(nextDeckId)) ==> r == Failure(SequenceExhausted) && unchanged(this)
      ensures FitsInteger(old(nextDeckId)) && !(FitsVarchar(userId) && FitsVarchar(name)) ==>
                && r == Failure(ValueTooLong) && decks == old(decks) && clock == old(clock)
                && nextDeckId == old(nextDeckId) + 1
      ensures r.Success? ==> && clock == old(clock) + 1
                             && r.value == NewDeckRow(old(nextDeckId), userId, name, description, clock)
                             && decks == old(decks) + [r.value]
                             && nextDeckId == old(nextDeckId) + 1
    {
      if !FitsInteger(nextDeckId) {
        return Failure(SequenceExhausted);
      }
      if !(FitsVarchar(userId) && FitsVarchar(name)) {
        DrawIdValid(decks, cards, nextDeckId, nextCardId);
        nextDeckId := nextDeckId + 1;
        return Failure(ValueTooLong);
      }
      var now := Now();
      var row := NewDeckRow(nextDeckId, userId, name, description, now);
      InsertDeckValid(decks, cards, nextDeckId, nextCardId, row);
      decks := decks + [row];
      nextDeckId := nextDeckId + 1;
      r := Success(row);
    }

    /**
     * `updateDeckById`: the clock is read as the `SET` is built. A deck id
     * that does not fit an `integer` is refused; a new name that does not fit
     * its column is refused when a row matches.
     */
    method UpdateDeckById(deckId: int, userId: string, name: Option<string>, description: Option<string>)
      returns (r: Result<Option<Deck>, StoreError>)
      requires Valid()
      modifies this
      ensures Valid()
      ensures cards == old(cards) && nextDeckId == old(nextDeckId) && nextCardId == old(nextCardId)
      ensures clock == old(clock) + 1
      ensures r.Failure? <==> !FitsInteger(deckId)
                              || (OwnsDeck(old(decks), deckId, userId) && name.Some? && !FitsVarchar(name.value))
      ensures r.Failure? ==> r.error == (if FitsInteger(deckId) then ValueTooLong else OutOfRange) && decks == old(decks)
      ensures r.Success? ==> && decks == UpdateDecks(old(decks), deckId, userId, name, description, clock)
                             && r.value == UpdatedDeck(old(decks), deckId, userId, name, description, clock)
    {
      var now := Now();
      if !FitsInteger(deckId) {
        return Failure(OutOfRange);
      }
      if OwnsDeck(decks, deckId, userId) && name.Some? && !FitsVarchar(name.value) {
        return Failure(ValueTooLong);
      }
      r := Success(UpdatedDeck(decks, deckId, userId, name, description, now));
      UpdateDeckValid(decks, cards, nextDeckId, nextCardId, deckId, userId, name, description, now);
      decks := UpdateDecks(decks, deckId, userId, name, description, now);
    }

    /**
     * `deleteDeckById`: the deck's cards are deleted with it by the
     * `ON DELETE CASCADE` foreign key; a deck id that does not fit an
     * `integer` is refused and nothing changes.
     */
    method DeleteDeckById(deckId: int, userId: string) returns (r: Result<Option<Deck>, StoreError>)
      requires Valid()
      modifies this
      ensures Valid()
      ensures nextDeckId == old(nextDeckId) && nextCardId == old(nextCardId) && clock == old(clock)
      ensures r.Failure? <==> !FitsInteger(deckId)
      ensures r.Failure? ==> r.error == OutOfRange && unchanged(this)
      ensures r.Success? ==> && decks == DeleteDecks(old(decks), deckId, userId)
                             && cards == DeleteDeckCards(old(decks), old(cards), deckId, userId)
                             && r.value == DeletedDeck(old(decks), deckId, userId)
    {
      if !FitsInteger(deckId) {
        return Failure(OutOfRange);
      }
      r := Success(DeletedDeck(decks, deckId, userId));
      DeleteDeckValid(decks, cards, nextDeckId, nextCardId, deckId, userId);
      cards := DeleteDeckCards(decks, cards, deckId, userId);
      decks := DeleteDecks(decks, deckId, userId);
    }
  }
}
