/**
 * The deck queries. Reads are functions of the two tables; each write is
 * specified by a function from the old tables to the new ones (and to the
 * row it returns), which `Database.Db` applies in place.
 */
module DeckQueries {
  import opened Wrappers
  import opened Seqs
  import opened Sorting
  import opened Schema
  import opened CardQueries

  /** `WHERE decks.userId = userId` */
  function OwnedBy(userId: string): Deck -> bool { (d: Deck) => d.userId == userId }

  /** `WHERE decks.id = deckId AND decks.userId = userId` */
  function Owned(deckId: int, userId: string): Deck -> bool { (d: Deck) => d.id == deckId && d.userId == userId }

  /** The complement of `Owned`: the rows a delete keeps. */
  function NotOwned(deckId: int, userId: string): Deck -> bool { (d: Deck) => !(d.id == deckId && d.userId == userId) }

  /** `ORDER BY decks.createdAt DESC` */
  function NewestFirst(d: Deck): Key { Key(-(d.createdAt as int), 0) }

  /** `ORDER BY cards.createdAt ASC` */
  function OldestFirst(c: Card): Key { Key(c.createdAt, 0) }

  // ----- reads -----

  /** `getUserDecks`: exactly the user's decks, newest first. */
  function UserDecks(decks: seq<Deck>, userId: string): (r: seq<Deck>)
    ensures forall d :: multiset(r)[d] == if d.userId == userId then multiset(decks)[d] else 0
    ensures forall d :: d in r <==> d in decks && d.userId == userId
    ensures forall i, j :: 0 <= i < j < |r| ==> r[i].createdAt >= r[j].createdAt
  {
    var r := SortBy(Filter(decks, OwnedBy(userId)), NewestFirst);
    SortedSelection(decks, OwnedBy(userId), NewestFirst, r);
    NewestFirstDescending(r);
    r
  }

  /** Sorted on `NewestFirst`, creation times descend. */
  lemma NewestFirstDescending(r: seq<Deck>)
    requires SortedBy(r, NewestFirst)
    ensures forall i, j :: 0 <= i < j < |r| ==> r[i].createdAt >= r[j].createdAt
  {
    forall i, j | 0 <= i < j < |r| ensures r[i].createdAt >= r[j].createdAt {
      assert KeyLe(NewestFirst(r[i]), NewestFirst(r[j]));
    }
  }

  /** A listed deck has each of its user's decks exactly once (deck ids being unique). */
  lemma UserDecksExactlyOnce(decks: seq<Deck>, userId: string, d: Deck)
    requires UniqueBy(decks, DeckId) && d in decks && d.userId == userId
    ensures multiset(UserDecks(decks, userId))[d] == 1
  {
    UniqueOccursOnce(decks, DeckId, d);
  }

  /** A row of `getUserDecksWithCardCounts`. */
  datatype DeckSummary = DeckSummary(id: int, name: string, description: Option<string>,
                                     createdAt: nat, updatedAt: nat, cardCount: nat)

  /** `count(cards.id)` over the `LEFT JOIN`: a deck without cards counts 0. */
  function CardCount(cards: seq<Card>, deckId: int): (n: nat)
    ensures n == 0 <==> forall c :: c in cards ==> c.deckId != deckId
    ensures n <= |cards|
  {
    var inDeck := Filter(cards, InDeck(deckId));
    assert inDeck != [] ==> inDeck[0] in inDeck;
    |inDeck|
  }

  /** One summary row per listed deck, in the same order, each counting that deck's cards. */
  function Summaries(listed: seq<Deck>, cards: seq<Card>): (r: seq<DeckSummary>)
    ensures |r| == |listed|
    ensures forall i :: 0 <= i < |r| ==>
              && r[i].id == listed[i].id && r[i].name == listed[i].name
              && r[i].description == listed[i].description
              && r[i].createdAt == listed[i].createdAt && r[i].updatedAt == listed[i].updatedAt
              && r[i].cardCount == |Filter(cards, InDeck(listed[i].id))|
  {
    seq(|listed|, i requires 0 <= i < |listed| =>
      var d := listed[i];
      DeckSummary(d.id, d.name, d.description, d.createdAt, d.updatedAt, CardCount(cards, d.id)))
  }

  /** `getUserDecksWithCardCounts`: the user's decks, newest first, each with the number of its cards. */
  function UserDecksWithCardCounts(decks: seq<Deck>, cards: seq<Card>, userId: string): (r: seq<DeckSummary>)
    ensures |r| == |UserDecks(decks, userId)|
    ensures forall i :: 0 <= i < |r| ==>
              var d := UserDecks(decks, userId)[i];
              && r[i].id == d.id && r[i].name == d.name && r[i].description == d.description
              && r[i].createdAt == d.createdAt && r[i].updatedAt == d.updatedAt
              && r[i].cardCount == |Filter(cards, InDeck(d.id))|
    ensures forall i, j :: 0 <= i < j < |r| ==> r[i].createdAt >= r[j].createdAt
  {
    Summaries(UserDecks(decks, userId), cards)
  }

  /** `getDeckById`: found exactly when the deck exists and belongs to the user. */
  function DeckById(decks: seq<Deck>, deckId: int, userId: string): (r: Option<Deck>)
    ensures r.Some? <==> OwnsDeck(decks, deckId, userId)
    ensures r.Some? ==> r.value in decks && r.value.id == deckId && r.value.userId == userId
  {
    First(decks, Owned(deckId, userId))
  }

  /** Sorted on `OldestFirst`, creation times ascend. */
  lemma OldestFirstAscending(r: seq<Card>)
    requires SortedBy(r, OldestFirst)
    ensures forall i, j :: 0 <= i < j < |r| ==> r[i].createdAt <= r[j].createdAt
  {
    forall i, j | 0 <= i < j < |r| ensures r[i].createdAt <= r[j].createdAt {
      assert KeyLe(OldestFirst(r[i]), OldestFirst(r[j]));
    }
  }

  /** What `getDeckWithCards` returns: the deck's row and its cards. */
  datatype DeckWithCards = DeckWithCards(deck: Deck, cards: seq<Card>)

  /** `getDeckWithCards`: `null` unless owned; otherwise the deck with all its cards, oldest first. */
  function GetDeckWithCards(decks: seq<Deck>, cards: seq<Card>, deckId: int, userId: string): (r: Option<DeckWithCards>)
    ensures r.None? <==> !OwnsDeck(decks, deckId, userId)
    ensures r.Some? ==> r.value.deck == DeckById(decks, deckId, userId).value
    ensures r.Some? ==> forall c :: multiset(r.value.cards)[c] == if c.deckId == deckId then multiset(cards)[c] else 0
    ensures r.Some? ==> forall i, j :: 0 <= i < j < |r.value.cards| ==>
                          r.value.cards[i].createdAt <= r.value.cards[j].createdAt
  {
    match DeckById(decks, deckId, userId)
    case None => None
    case Some(deck) =>
      var sorted := SortBy(Filter(cards, InDeck(deckId)), OldestFirst);
      SortedSelection(cards, InDeck(deckId), OldestFirst, sorted);
      OldestFirstAscending(sorted);
      Some(DeckWithCards(deck, sorted))
  }

  /**
   * `getDeckWithCards` ignores `order`: in a deck where the later card has
   * the smaller order, the deck page lists the cards in the opposite order
   * from `getCardsByDeckId`.
   */
  lemma DeckPageIgnoresOrder(deck: Deck, older: Card, newer: Card)
    requires older.deckId == deck.id && newer.deckId == deck.id
    requires older.createdAt < newer.createdAt && newer.order < older.order
    ensures GetDeckWithCards([deck], [older, newer], deck.id, deck.userId) == Some(DeckWithCards(deck, [older, newer]))
    ensures CardsByDeckId([older, newer], deck.id) == [newer, older]
  {
    DeckPageOldestFirst(deck, older, newer);
    CardsListedByOrder(older, newer);
  }

  /** `getCardsByDeckId` lists two cards of a deck smaller order first. */
  lemma CardsListedByOrder(older: Card, newer: Card)
    requires older.deckId == newer.deckId && newer.order < older.order
    ensures CardsByDeckId([older, newer], older.deckId) == [newer, older]
  {
    assert multiset([older, newer]) == multiset{older, newer};
    TwoCardsInOrder(CardsByDeckId([older, newer], older.deckId), [older, newer], newer, older, PositionKey);
  }

  /** The deck page of a deck with two cards lists the older one first. */
  lemma DeckPageOldestFirst(deck: Deck, older: Card, newer: Card)
    requires older.deckId == deck.id && newer.deckId == deck.id
    requires older.createdAt < newer.createdAt
    ensures GetDeckWithCards([deck], [older, newer], deck.id, deck.userId) == Some(DeckWithCards(deck, [older, newer]))
  {
    assert deck in [deck];
    var page := GetDeckWithCards([deck], [older, newer], deck.id, deck.userId);
    assert page.value.deck == deck;
    assert multiset([older, newer]) == multiset{older, newer};
    TwoCardsInOrder(page.value.cards, [older, newer], older, newer, OldestFirst);
  }

  /** A sorted list of the two cards of `cards`, whose keys are strictly ordered, lists them in key order. */
  lemma TwoCardsInOrder(s: seq<Card>, cards: seq<Card>, a: Card, b: Card, key: Card -> Key)
    requires multiset(cards) == multiset{a, b} && a.deckId == b.deckId
    requires forall c :: multiset(s)[c] == if c.deckId == a.deckId then multiset(cards)[c] else 0
    requires SortedBy(s, key)
    requires KeyLe(key(a), key(b)) && !KeyLe(key(b), key(a))
    ensures s == [a, b]
  {
    assert multiset(s) == multiset{a, b};
    assert |s| == 2;
    assert s[0] in multiset(s) && s[1] in multiset(s);
  }

  // ----- insertDeck -----

  /** The row `insertDeck` adds, with id and timestamps supplied by the database. */
  function NewDeckRow(id: int, userId: string, name: string, description: Option<string>, now: nat): (d: Deck)
    ensures d.id == id && d.userId == userId && d.name == name && d.description == description
    ensures d.createdAt == now && d.updatedAt == now
  {
    Deck(id, userId, name, description, now, now)
  }

  /** A fresh id and columns that fit keep the tables consistent. */
  lemma InsertDeckKeepsConsistent(decks: seq<Deck>, cards: seq<Card>, d: Deck)
    requires Consistent(decks, cards)
    requires FitsVarchar(d.userId) && FitsVarchar(d.name)
    requires forall x :: x in decks ==> x.id != d.id
    ensures Consistent(decks + [d], cards)
  {
    var decks' := decks + [d];
    forall i, j | 0 <= i < j < |decks'| ensures decks'[i].id != decks'[j].id {
      if j == |decks| { assert decks'[i] in decks; }
    }
    forall c | c in cards ensures HasDeck(decks', c.deckId) {
      var x :| x in decks && x.id == c.deckId;
      assert x in decks';
    }
  }

  // ----- updateDeckById -----

  /** `SET name, description, updatedAt`: an absent (`undefined`) field is left as it is. */
  function EditDeck(d: Deck, name: Option<string>, description: Option<string>, now: nat): (e: Deck)
    ensures e.id == d.id && e.userId == d.userId && e.createdAt == d.createdAt && e.updatedAt == now
    ensures e.name == (if name.Some? then name.value else d.name)
    ensures e.description == (if description.Some? then description else d.description)
  {
    d.(name := name.GetOr(d.name), description := if description.Some? then description else d.description,
       updatedAt := now)
  }

  /** The `decks` table after `updateDeckById`. */
  function UpdateDecks(decks: seq<Deck>, deckId: int, userId: string, name: Option<string>,
                       description: Option<string>, now: nat): seq<Deck> {
    seq(|decks|, i requires 0 <= i < |decks| =>
      if decks[i].id == deckId && decks[i].userId == userId then EditDeck(decks[i], name, description, now) else decks[i])
  }

  /** The row `updateDeckById` returns. */
  function UpdatedDeck(decks: seq<Deck>, deckId: int, userId: string, name: Option<string>,
                       description: Option<string>, now: nat): (r: Option<Deck>)
    ensures r.None? <==> !OwnsDeck(decks, deckId, userId)
    ensures r.Some? ==> r.value.id == deckId && r.value.userId == userId && r.value.updatedAt == now
    ensures r.Some? ==> r.value == EditDeck(DeckById(decks, deckId, userId).value, name, description, now)
  {
    match DeckById(decks, deckId, userId)
    case None => None
    case Some(d) => Some(EditDeck(d, name, description, now))
  }

  /** Only the owned deck changes, in name, description and `updatedAt` only; cards are not touched. */
  lemma UpdateDeckChangesOnlyOwned(decks: seq<Deck>, deckId: int, userId: string, name: Option<string>,
                                   description: Option<string>, now: nat)
    ensures var r := UpdateDecks(decks, deckId, userId, name, description, now);
            && |r| == |decks|
            && (forall i :: 0 <= i < |decks| && !(decks[i].id == deckId && decks[i].userId == userId) ==> r[i] == decks[i])
            && (forall i :: 0 <= i < |decks| ==>
                  r[i].id == decks[i].id && r[i].userId == decks[i].userId && r[i].createdAt == decks[i].createdAt)
            && (!OwnsDeck(decks, deckId, userId) ==> r == decks)
  {
    var r := UpdateDecks(decks, deckId, userId, name, description, now);
    if !OwnsDeck(decks, deckId, userId) {
      forall i | 0 <= i < |decks| ensures r[i] == decks[i] {
        assert decks[i] in decks;
      }
    }
  }

  /** An update whose new name fits keeps the tables consistent. */
  lemma UpdateDeckKeepsConsistent(decks: seq<Deck>, cards: seq<Card>, deckId: int, userId: string,
                                  name: Option<string>, description: Option<string>, now: nat)
    requires Consistent(decks, cards)
    requires name.Some? ==> FitsVarchar(name.value)
    ensures Consistent(UpdateDecks(decks, deckId, userId, name, description, now), cards)
  {
    var r := UpdateDecks(decks, deckId, userId, name, description, now);
    forall d | d in r ensures FitsVarchar(d.userId) && FitsVarchar(d.name) {
      var i :| 0 <= i < |r| && r[i] == d;
      assert decks[i] in decks;
    }
    forall c | c in cards ensures HasDeck(r, c.deckId) {
      var x :| x in decks && x.id == c.deckId;
      var i :| 0 <= i < |decks| && decks[i] == x;
      assert r[i] in r;
    }
  }

  // ----- deleteDeckById -----

  /** The `decks` table after `deleteDeckById`. */
  function DeleteDecks(decks: seq<Deck>, deckId: int, userId: string): (r: seq<Deck>)
    ensures forall d :: d in r <==> d in decks && !(d.id == deckId && d.userId == userId)
  {
    Filter(decks, NotOwned(deckId, userId))
  }

  /** The `cards` table after `deleteDeckById`: the deleted deck's cards go with it, by cascade. */
  function DeleteDeckCards(decks: seq<Deck>, cards: seq<Card>, deckId: int, userId: string): (r: seq<Card>)
    ensures OwnsDeck(decks, deckId, userId) ==> forall c :: c in r <==> c in cards && c.deckId != deckId
    ensures !OwnsDeck(decks, deckId, userId) ==> r == cards
  {
    if OwnsDeck(decks, deckId, userId) then Cascade(cards, deckId) else cards
  }

  /** The row `deleteDeckById` returns. */
  function DeletedDeck(decks: seq<Deck>, deckId: int, userId: string): (r: Option<Deck>)
    ensures r.None? <==> !OwnsDeck(decks, deckId, userId)
  {
    DeckById(decks, deckId, userId)
  }

  /** With unique deck ids, deleting an owned deck by id and owner is deleting it by id alone. */
  lemma DeleteOwnedIsDeleteById(decks: seq<Deck>, deckId: int, userId: string)
    requires UniqueBy(decks, DeckId) && OwnsDeck(decks, deckId, userId)
    ensures DeleteDecks(decks, deckId, userId) == Filter(decks, OtherDeck(deckId))
  {
    var d :| d in decks && d.id == deckId && d.userId == userId;
    forall x | x in decks ensures NotOwned(deckId, userId)(x) == OtherDeck(deckId)(x) {
      if x.id == deckId { UniqueMembers(decks, DeckId, x, d); }
    }
    FilterCongruent(decks, NotOwned(deckId, userId), OtherDeck(deckId));
  }

  /** Deleting an owned deck removes exactly one row of `decks`. */
  lemma DeleteOwnedRemovesOne(decks: seq<Deck>, deckId: int, userId: string)
    requires UniqueBy(decks, DeckId) && OwnsDeck(decks, deckId, userId)
    ensures |DeleteDecks(decks, deckId, userId)| == |decks| - 1
  {
    var d :| d in decks && d.id == deckId && d.userId == userId;
    UniqueOccursOnce(decks, DeckId, d);
    forall y | y in decks ensures NotOwned(deckId, userId)(y) <==> y != d {
      if y.id == deckId { UniqueMembers(decks, DeckId, y, d); }
    }
    FilterDropsOne(decks, NotOwned(deckId, userId), d);
  }

  /**
   * Deleting an owned deck removes that deck and every card of it and keeps
   * the tables consistent; deleting a deck that is not the caller's changes
   * nothing.
   */
  lemma DeleteDeckEffect(decks: seq<Deck>, cards: seq<Card>, deckId: int, userId: string)
    requires Consistent(decks, cards)
    ensures var decks', cards' := DeleteDecks(decks, deckId, userId), DeleteDeckCards(decks, cards, deckId, userId);
            && Consistent(decks', cards')
            && (OwnsDeck(decks, deckId, userId) ==> !HasDeck(decks', deckId) && |decks'| == |decks| - 1)
            && (!OwnsDeck(decks, deckId, userId) ==> decks' == decks && cards' == cards)
  {
    if OwnsDeck(decks, deckId, userId) {
      DeleteOwnedIsDeleteById(decks, deckId, userId);
      CascadeKeepsConsistent(decks, cards, deckId);
      DeleteOwnedRemovesOne(decks, deckId, userId);
    } else {
      FilterAll(decks, NotOwned(deckId, userId));
    }
  }
}
