/**
 * The card server actions. Each validates its input, requires a signed-in
 * caller, checks that the caller owns what the input names, and only then
 * writes. Every failure is caught and turned into a `{ success: false }`
 * reply, so a card action never throws.
 *
 * The checks that come before the write read the tables only and are
 * functions; each action is a method that takes the database and calls the
 * write methods of `Database.Db`.
 */
module CardActions {
  import opened Wrappers
  import opened Schema
  import opened CardValidation
  import opened CardQueries
  import opened DeckQueries
  import opened Database
  import opened Server

  /** `{ success: true, data? }` or `{ success: false, error }`. */
  datatype CardReply = Succeeded(data: Option<Card>) | Failed(error: ActionError)

  // ----- the checks before the write -----

  /**
   * Steps 1 to 3 of `createCard`: valid input, a signed-in caller, and a deck
   * the caller owns. A deck id past the `integer` range makes the read throw.
   */
  function CheckCreateCard(decks: seq<Deck>, caller: Option<string>, input: CreateCardInput): (r: Result<NewCard, ActionError>)
    ensures var p := ParseCreateCard(input);
            && (r.Success? <==> p.Success? && Authenticated(caller) && FitsInteger(p.value.deckId)
                                && OwnsDeck(decks, p.value.deckId, UserOf(caller)))
            && (r.Success? ==> r.value == p.value)
            && (p.Failure? ==> r == Failure(Invalid(p.error)))
            && (r == Failure(Unauthorized) <==> p.Success? && !Authenticated(caller))
            && (r == Failure(Storage(OutOfRange)) <==>
                  p.Success? && Authenticated(caller) && !FitsInteger(p.value.deckId))
            && (r == Failure(DeckNotFound) <==>
                  p.Success? && Authenticated(caller) && FitsInteger(p.value.deckId)
                  && !OwnsDeck(decks, p.value.deckId, UserOf(caller)))
  {
    match Gate(ParseCreateCard(input), caller)
    case Failure(e) => Failure(e)
    case Success(v) =>
      if !FitsInteger(v.deckId) then Failure(Storage(OutOfRange))
      else if DeckById(decks, v.deckId, UserOf(caller)).Some? then Success(v) else Failure(DeckNotFound)
  }

  /**
   * Steps 1 to 3 of `updateCard`: valid input, a signed-in caller, and a card
   * with that id in some deck the caller owns. The deck id of the input plays
   * no part in this check.
   */
  function CheckUpdateCard(decks: seq<Deck>, cards: seq<Card>, caller: Option<string>, input: UpdateCardInput)
    : (r: Result<CardEdit, ActionError>)
    ensures var p := ParseUpdateCard(input);
            && (r.Success? <==> p.Success? && Authenticated(caller) && FitsInteger(p.value.id)
                                && exists c :: c in cards && c.id == p.value.id && OwnsDeck(decks, c.deckId, UserOf(caller)))
            && (r.Success? ==> r.value == p.value)
            && (p.Failure? ==> r == Failure(Invalid(p.error)))
            && (r == Failure(Unauthorized) <==> p.Success? && !Authenticated(caller))
            && (r == Failure(Storage(OutOfRange)) <==> p.Success? && Authenticated(caller) && !FitsInteger(p.value.id))
            && (r.Failure? && p.Success? && Authenticated(caller) && FitsInteger(p.value.id) ==> r.error == CardNotFound)
  {
    match Gate(ParseUpdateCard(input), caller)
    case Failure(e) => Failure(e)
    case Success(v) =>
      if !FitsInteger(v.id) then Failure(Storage(OutOfRange))
      else if VerifyCardOwnership(decks, cards, v.id, UserOf(caller)).Some? then Success(v) else Failure(CardNotFound)
  }

  /** Steps 1 to 3 of `deleteCard`, the same checks as for an update. */
  function CheckDeleteCard(decks: seq<Deck>, cards: seq<Card>, caller: Option<string>, input: DeleteCardInput)
    : (r: Result<CardRef, ActionError>)
    ensures var p := ParseDeleteCard(input);
            && (r.Success? <==> p.Success? && Authenticated(caller) && FitsInteger(p.value.id)
                                && exists c :: c in cards && c.id == p.value.id && OwnsDeck(decks, c.deckId, UserOf(caller)))
            && (r.Success? ==> r.value == p.value)
            && (p.Failure? ==> r == Failure(Invalid(p.error)))
            && (r == Failure(Unauthorized) <==> p.Success? && !Authenticated(caller))
            && (r == Failure(Storage(OutOfRange)) <==> p.Success? && Authenticated(caller) && !FitsInteger(p.value.id))
            && (r.Failure? && p.Success? && Authenticated(caller) && FitsInteger(p.value.id) ==> r.error == CardNotFound)
  {
    match Gate(ParseDeleteCard(input), caller)
    case Failure(e) => Failure(e)
    case Success(v) =>
      if !FitsInteger(v.id) then Failure(Storage(OutOfRange))
      else if VerifyCardOwnership(decks, cards, v.id, UserOf(caller)).Some? then Success(v) else Failure(CardNotFound)
  }

  /**
   * Steps 1 to 3 of `reorderCards`: valid input, a signed-in caller, and a
   * deck the caller owns. The card ids of the batch are not checked.
   */
  function CheckReorderCards(decks: seq<Deck>, caller: Option<string>, input: ReorderCardsInput)
    : (r: Result<Reorder, ActionError>)
    ensures var p := ParseReorderCards(input);
            && (r.Success? <==> p.Success? && Authenticated(caller) && FitsInteger(p.value.deckId)
                                && OwnsDeck(decks, p.value.deckId, UserOf(caller)))
            && (r.Success? ==> r.value == p.value)
            && (p.Failure? ==> r == Failure(Invalid(p.error)))
            && (r == Failure(Unauthorized) <==> p.Success? && !Authenticated(caller))
            && (r == Failure(Storage(OutOfRange)) <==>
                  p.Success? && Authenticated(caller) && !FitsInteger(p.value.deckId))
            && (r == Failure(DeckNotFound) <==>
                  p.Success? && Authenticated(caller) && FitsInteger(p.value.deckId)
                  && !OwnsDeck(decks, p.value.deckId, UserOf(caller)))
  {
    match Gate(ParseReorderCards(input), caller)
    case Failure(e) => Failure(e)
    case Success(v) =>
      if !FitsInteger(v.deckId) then Failure(Storage(OutOfRange))
      else if DeckById(decks, v.deckId, UserOf(caller)).Some? then Success(v) else Failure(DeckNotFound)
  }

  // ----- the actions -----

  /**
   * `createCard`: on success the new row, appended at the end of the deck's
   * order. The insert throws when that order or the next card id would not
   * fit an `integer`.
   */
  method CreateCard(db: Db, caller: Option<string>, input: CreateCardInput) returns (reply: CardReply, stale: seq<Path>)
    requires db.Valid()
    modifies db
    ensures db.Valid()
    ensures var check := CheckCreateCard(old(db.decks), caller, input);
            && (check.Failure? ==> reply == Failed(check.error) && stale == [] && unchanged(db))
            && (check.Success? && !FitsInteger(NextOrder(old(db.cards), check.value.deckId)) ==>
                  reply == Failed(Storage(OutOfRange)) && stale == [] && unchanged(db))
            && (check.Success? && FitsInteger(NextOrder(old(db.cards), check.value.deckId))
                && !FitsInteger(old(db.nextCardId)) ==>
                  reply == Failed(Storage(SequenceExhausted)) && stale == [] && unchanged(db))
            && (check.Success? && FitsInteger(NextOrder(old(db.cards), check.value.deckId))
                && FitsInteger(old(db.nextCardId)) ==>
                  && db.decks == old(db.decks) && db.clock == old(db.clock) + 1
                  && db.nextDeckId == old(db.nextDeckId) && db.nextCardId == old(db.nextCardId) + 1
                  && reply.Succeeded? && reply.data.Some?
                  && reply.data.value == NewCardRow(old(db.cards), old(db.nextCardId), check.value.deckId,
                                                    check.value.front, check.value.back, db.clock)
                  && db.cards == old(db.cards) + [reply.data.value]
                  && stale == [DeckPage(check.value.deckId), Dashboard])
  {
    var check := CheckCreateCard(db.decks, caller, input);
    if check.Failure? {
      return Failed(check.error), [];
    }
    var card := check.value;
    var r := db.InsertCard(card.deckId, card.front, card.back);
    if r.Failure? {
      return Failed(Storage(r.error)), [];
    }
    reply := Succeeded(Some(r.value));
    stale := [DeckPage(card.deckId), Dashboard];
  }

  /**
   * `updateCard`: the update is keyed on the id and the deck id of the input;
   * when no row has both, the reply is the same "card not found" as when the
   * ownership check fails, but the clock has been read.
   */
  method UpdateCard(db: Db, caller: Option<string>, input: UpdateCardInput) returns (reply: CardReply, stale: seq<Path>)
    requires db.Valid()
    modifies db
    ensures db.Valid()
    ensures var check := CheckUpdateCard(old(db.decks), old(db.cards), caller, input);
            && (check.Failure? ==> reply == Failed(check.error) && stale == [] && unchanged(db))
            && (check.Success? ==>
                  var e := check.value;
                  var updated := UpdatedCard(old(db.cards), e.id, e.deckId, Some(e.front), Some(e.back), db.clock);
                  && db.decks == old(db.decks) && db.clock == old(db.clock) + 1
                  && db.nextDeckId == old(db.nextDeckId) && db.nextCardId == old(db.nextCardId)
                  && (!FitsInteger(e.deckId) ==>
                        db.cards == old(db.cards) && reply == Failed(Storage(OutOfRange)) && stale == [])
                  && (FitsInteger(e.deckId) ==>
                        && db.cards == UpdateCards(old(db.cards), e.id, e.deckId, Some(e.front), Some(e.back), db.clock)
                        && (updated.None? ==> reply == Failed(CardNotFound) && stale == [])
                        && (updated.Some? ==> reply == Succeeded(updated) && stale == [DeckPage(e.deckId)])))
  {
    var check := CheckUpdateCard(db.decks, db.cards, caller, input);
    if check.Failure? {
      return Failed(check.error), [];
    }
    var e := check.value;
    var r := db.UpdateCardById(e.id, e.deckId, Some(e.front), Some(e.back));
    if r.Failure? {
      return Failed(Storage(r.error)), [];
    }
    if r.value.None? {
      return Failed(CardNotFound), [];
    }
    reply := Succeeded(r.value);
    stale := [DeckPage(e.deckId)];
  }

  /** `deleteCard`: removes the row with the id and deck id of the input, if there is one. */
  method DeleteCard(db: Db, caller: Option<string>, input: DeleteCardInput) returns (reply: CardReply, stale: seq<Path>)
    requires db.Valid()
    modifies db
    ensures db.Valid()
    ensures var check := CheckDeleteCard(old(db.decks), old(db.cards), caller, input);
            && (check.Failure? ==> reply == Failed(check.error) && stale == [] && unchanged(db))
            && (check.Success? && !FitsInteger(check.value.deckId) ==>
                  reply == Failed(Storage(OutOfRange)) && stale == [] && unchanged(db))
            && (check.Success? && FitsInteger(check.value.deckId) ==>
                  var e := check.value;
                  && db.decks == old(db.decks) && db.clock == old(db.clock)
                  && db.nextDeckId == old(db.nextDeckId) && db.nextCardId == old(db.nextCardId)
                  && db.cards == DeleteCards(old(db.cards), e.id, e.deckId)
                  && (!HasCard(e.id, e.deckId, old(db.cards)) ==> reply == Failed(CardNotFound) && stale == [])
                  && (HasCard(e.id, e.deckId, old(db.cards)) ==>
                        reply == Succeeded(None) && stale == [DeckPage(e.deckId), Dashboard]))
  {
    var check := CheckDeleteCard(db.decks, db.cards, caller, input);
    if check.Failure? {
      return Failed(check.error), [];
    }
    var e := check.value;
    var r := db.DeleteCardById(e.id, e.deckId);
    if r.Failure? {
      return Failed(Storage(r.error)), [];
    }
    if r.value.None? {
      return Failed(CardNotFound), [];
    }
    reply := Succeeded(None);
    stale := [DeckPage(e.deckId), Dashboard];
  }

  /**
   * `reorderCards`: runs the whole batch against the deck and succeeds
   * whatever the batch matched, provided every pair fits its `integer`
   * columns. Otherwise the reply is a failure, yet the updates of the pairs
   * that fit have been made.
   */
  method ReorderCards(db: Db, caller: Option<string>, input: ReorderCardsInput) returns (reply: CardReply, stale: seq<Path>)
    requires db.Valid()
    modifies db
    ensures db.Valid()
    ensures var check := CheckReorderCards(old(db.decks), caller, input);
            && (check.Failure? ==> reply == Failed(check.error) && stale == [] && unchanged(db))
            && (check.Success? ==>
                  var batch := check.value;
                  var fits := forall p :: p in batch.cardOrders ==> OrderFits(batch.deckId, p);
                  && db.decks == old(db.decks) && db.clock == old(db.clock) + |batch.cardOrders|
                  && db.nextDeckId == old(db.nextDeckId) && db.nextCardId == old(db.nextCardId)
                  && db.cards == ApplyOrders(old(db.cards), batch.deckId,
                                             FittingOrders(batch.deckId, batch.cardOrders), old(db.clock))
                  && (fits ==> && db.cards == ApplyOrders(old(db.cards), batch.deckId, batch.cardOrders, old(db.clock))
                               && reply == Succeeded(None) && stale == [DeckPage(batch.deckId)])
                  && (!fits ==> reply == Failed(Storage(OutOfRange)) && stale == []))
  {
    var check := CheckReorderCards(db.decks, caller, input);
    if check.Failure? {
      return Failed(check.error), [];
    }
    var batch := check.value;
    var r := db.UpdateCardsOrder(batch.deckId, batch.cardOrders);
    if r.Failure? {
      return Failed(Storage(r.error)), [];
    }
    reply := Succeeded(None);
    stale := [DeckPage(batch.deckId)];
  }

  // ----- what the actions let through -----

  /**
   * A card of one of the caller's decks passes the ownership check of an
   * update whatever deck id the input carries; the update itself then
   * matches nothing when that deck id is not the card's, and the table is
   * left as it was.
   */
  lemma UpdateWithWrongDeckChangesNothing(decks: seq<Deck>, cards: seq<Card>, caller: Option<string>,
                                          input: UpdateCardInput, now: nat)
    requires CheckUpdateCard(decks, cards, caller, input).Success?
    requires !HasCard(CheckUpdateCard(decks, cards, caller, input).value.id,
                    CheckUpdateCard(decks, cards, caller, input).value.deckId, cards)
    ensures var e := CheckUpdateCard(decks, cards, caller, input).value;
            && UpdateCards(cards, e.id, e.deckId, Some(e.front), Some(e.back), now) == cards
            && UpdatedCard(cards, e.id, e.deckId, Some(e.front), Some(e.back), now).None?
  {
    var e := CheckUpdateCard(decks, cards, caller, input).value;
    UnmatchedUpdateChangesNothing(cards, e.id, e.deckId, Some(e.front), Some(e.back), now);
  }

  /** A batch of ids that belong to no card of the deck leaves the cards table exactly as it was. */
  lemma ForeignReorderSucceeds(decks: seq<Deck>, cards: seq<Card>, caller: Option<string>,
                               input: ReorderCardsInput, now: nat)
    requires CheckReorderCards(decks, caller, input).Success?
    requires var batch := CheckReorderCards(decks, caller, input).value;
             forall k, c :: 0 <= k < |batch.cardOrders| && c in cards && c.deckId == batch.deckId ==>
               c.id != batch.cardOrders[k].id
    ensures var batch := CheckReorderCards(decks, caller, input).value;
            ApplyOrders(cards, batch.deckId, batch.cardOrders, now) == cards
  {
    var batch := CheckReorderCards(decks, caller, input).value;
    ForeignBatchChangesNothing(cards, batch.deckId, batch.cardOrders, now);
  }

  /**
   * `reorderCards` on a batch of ids that belong to no card of the caller's
   * deck: when its numbers fit their `integer` columns the action replies
   * success, though no card has changed.
   */
  method ReorderForeignBatch(db: Db, caller: Option<string>, input: ReorderCardsInput) returns (reply: CardReply, stale: seq<Path>)
    requires db.Valid()
    requires CheckReorderCards(db.decks, caller, input).Success?
    requires var batch := CheckReorderCards(db.decks, caller, input).value;
             forall p :: p in batch.cardOrders ==> OrderFits(batch.deckId, p)
    requires var batch := CheckReorderCards(db.decks, caller, input).value;
             forall k, c :: 0 <= k < |batch.cardOrders| && c in db.cards && c.deckId == batch.deckId ==>
               c.id != batch.cardOrders[k].id
    modifies db
    ensures reply == Succeeded(None)
    ensures db.cards == old(db.cards) && db.decks == old(db.decks)
  {
    ForeignReorderSucceeds(db.decks, db.cards, caller, input, db.clock);
    reply, stale := ReorderCards(db, caller, input);
  }
}
