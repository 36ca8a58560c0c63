/**
 * The deck server actions. Each validates its input and requires a signed-in
 * caller; ownership is not checked beforehand but is part of the query's
 * `WHERE`. Unlike the card actions these catch nothing: every failure
 * escapes to the caller as a thrown error.
 */
module DeckActions {
  import opened Wrappers
  import opened Schema
  import opened Seqs
  import opened DeckValidation
  import opened DeckQueries
  import opened Database
  import opened Server

  /** `{ success: true, data? }` returned, or an error thrown. */
  datatype DeckOutcome = Returned(data: Option<Deck>) | Threw(error: ActionError)

  /**
   * `createDeck`: the new deck belongs to the caller. The insert throws when
   * the identity sequence is used up, or when the user id is too long for
   * its column, which still uses up an id.
   */
  method CreateDeck(db: Db, caller: Option<string>, input: CreateDeckInput) returns (outcome: DeckOutcome, stale: seq<Path>)
    requires db.Valid()
    modifies db
    ensures db.Valid()
    ensures var check := Gate(ParseCreateDeck(input), caller);
            && (check.Failure? ==> outcome == Threw(check.error) && stale == [] && unchanged(db))
            && (check.Success? && !FitsInteger(old(db.nextDeckId)) ==>
                  outcome == Threw(Storage(SequenceExhausted)) && stale == [] && unchanged(db))
            && (check.Success? && FitsInteger(old(db.nextDeckId)) && !FitsVarchar(UserOf(caller)) ==>
                  && outcome == Threw(Storage(ValueTooLong)) && stale == []
                  && db.decks == old(db.decks) && db.cards == old(db.cards) && db.clock == old(db.clock)
                  && db.nextDeckId == old(db.nextDeckId) + 1 && db.nextCardId == old(db.nextCardId))
            && (check.Success? && FitsInteger(old(db.nextDeckId)) && FitsVarchar(UserOf(caller)) ==>
                  && db.cards == old(db.cards) && db.clock == old(db.clock) + 1
                  && db.nextDeckId == old(db.nextDeckId) + 1 && db.nextCardId == old(db.nextCardId)
                  && outcome.Returned? && outcome.data.Some?
                  && outcome.data.value == NewDeckRow(old(db.nextDeckId), UserOf(caller), check.value.name,
                                                      check.value.description, db.clock)
                  && db.decks == old(db.decks) + [outcome.data.value]
                  && stale == [Dashboard])
  {
    var check := Gate(ParseCreateDeck(input), caller);
    if check.Failure? {
      return Threw(check.error), [];
    }
    var deck := check.value;
    var r := db.InsertDeck(UserOf(caller), deck.name, deck.description);
    if r.Failure? {
      return Threw(Storage(r.error)), [];
    }
    outcome := Returned(Some(r.value));
    stale := [Dashboard];
  }

  /** A validated deck name always fits its `varchar(255)` column. */
  lemma ValidNameFits(input: UpdateDeckInput)
    requires ParseUpdateDeck(input).Success?
    ensures FitsVarchar(ParseUpdateDeck(input).value.name)
  {
  }

  /**
   * `updateDeck`: the name is always set, the description only when given.
   * A deck the caller does not own matches nothing and the action throws
   * "deck not found", though the clock has been read; so does a deck id past
   * the `integer` range, with the database's error.
   */
  method UpdateDeck(db: Db, caller: Option<string>, input: UpdateDeckInput) returns (outcome: DeckOutcome, stale: seq<Path>)
    requires db.Valid()
    modifies db
    ensures db.Valid()
    ensures var check := Gate(ParseUpdateDeck(input), caller);
            && (check.Failure? ==> outcome == Threw(check.error) && stale == [] && unchanged(db))
            && (check.Success? ==>
                  var e := check.value;
                  var user := UserOf(caller);
                  && db.cards == old(db.cards) && db.clock == old(db.clock) + 1
                  && db.nextDeckId == old(db.nextDeckId) && db.nextCardId == old(db.nextCardId)
                  && (!FitsInteger(e.id) ==>
                        db.decks == old(db.decks) && outcome == Threw(Storage(OutOfRange)) && stale == [])
                  && (FitsInteger(e.id) ==>
                        && db.decks == UpdateDecks(old(db.decks), e.id, user, Some(e.name), e.description, db.clock)
                        && (!OwnsDeck(old(db.decks), e.id, user) ==> outcome == Threw(DeckNotFound) && stale == [])
                        && (OwnsDeck(old(db.decks), e.id, user) ==>
                              && outcome == Returned(UpdatedDeck(old(db.decks), e.id, user, Some(e.name), e.description, db.clock))
                              && stale == [Dashboard, DeckPage(e.id)])))
  {
    var check := Gate(ParseUpdateDeck(input), caller);
    if check.Failure? {
      return Threw(check.error), [];
    }
    var e := check.value;
    ValidNameFits(input);
    var r := db.UpdateDeckById(e.id, UserOf(caller), Some(e.name), e.description);
    if r.Failure? {
      return Threw(Storage(r.error)), [];
    }
    if r.value.None? {
      return Threw(DeckNotFound), [];
    }
    outcome := Returned(r.value);
    stale := [Dashboard, DeckPage(e.id)];
  }

  /** `deleteDeck`: removes the caller's deck and, by cascade, its cards. */
  method DeleteDeck(db: Db, caller: Option<string>, input: DeleteDeckInput) returns (outcome: DeckOutcome, stale: seq<Path>)
    requires db.Valid()
    modifies db
    ensures db.Valid()
    ensures var check := Gate(ParseDeleteDeck(input), caller);
            && (check.Failure? ==> outcome == Threw(check.error) && stale == [] && unchanged(db))
            && (check.Success? && !FitsInteger(check.value) ==>
                  outcome == Threw(Storage(OutOfRange)) && stale == [] && unchanged(db))
            && (check.Success? && FitsInteger(check.value) ==>
                  var id := check.value;
                  var user := UserOf(caller);
                  && db.clock == old(db.clock)
                  && db.nextDeckId == old(db.nextDeckId) && db.nextCardId == old(db.nextCardId)
                  && db.decks == DeleteDecks(old(db.decks), id, user)
                  && db.cards == DeleteDeckCards(old(db.decks), old(db.cards), id, user)
                  && (!OwnsDeck(old(db.decks), id, user) ==> outcome == Threw(DeckNotFound) && stale == [])
                  && (OwnsDeck(old(db.decks), id, user) ==> outcome == Returned(None) && stale == [Dashboard]))
  {
    var check := Gate(ParseDeleteDeck(input), caller);
    if check.Failure? {
      return Threw(check.error), [];
    }
    var id := check.value;
    var r := db.DeleteDeckById(id, UserOf(caller));
    if r.Failure? {
      return Threw(Storage(r.error)), [];
    }
    if r.value.None? {
      return Threw(DeckNotFound), [];
    }
    outcome := Returned(None);
    stale := [Dashboard];
  }

  /**
   * A delete naming a deck the caller does not own, whether it is missing or
   * someone else's, leaves both tables as they are.
   */
  lemma DeleteOfUnownedChangesNothing(decks: seq<Deck>, cards: seq<Card>, deckId: int, userId: string)
    requires !OwnsDeck(decks, deckId, userId)
    ensures DeleteDecks(decks, deckId, userId) == decks
    ensures DeleteDeckCards(decks, cards, deckId, userId) == cards
  {
    forall d | d in decks ensures NotOwned(deckId, userId)(d) {
    }
    FilterAll(decks, NotOwned(deckId, userId));
  }

  /** An update naming a deck the caller does not own leaves the decks table as it is. */
  lemma UpdateOfUnownedChangesNothing(decks: seq<Deck>, deckId: int, userId: string, name: Option<string>,
                                      description: Option<string>, now: nat)
    requires !OwnsDeck(decks, deckId, userId)
    ensures UpdateDecks(decks, deckId, userId, name, description, now) == decks
    ensures UpdatedDeck(decks, deckId, userId, name, description, now).None?
  {
    UpdateDeckChangesOnlyOwned(decks, deckId, userId, name, description, now);
  }
}
