/**
 * The two tables, `decks` and `cards`, and the rules the database enforces
 * on them: identity primary keys, `NOT NULL` columns, `varchar(255)` limits
 * on `userId` and `name`, and the foreign key from `cards.deckId` to
 * `decks.id` with `ON DELETE CASCADE`. Timestamps are readings of an
 * abstract clock (a natural number).
 */
module Schema {
  import opened Wrappers
  import opened Seqs

  const VarcharLength: nat := 255

  /** A row of `decks`; a `NULL` description is `None`. */
  datatype Deck = Deck(id: int, userId: string, name: string, description: Option<string>,
                       createdAt: nat, updatedAt: nat)

  /** A row of `cards`; `order` is `NOT NULL` (its column default 0 is never used, since every insert supplies it). */
  datatype Card = Card(id: int, deckId: int, front: string, back: string, order: int,
                       createdAt: nat, updatedAt: nat)

  /**
   * Why the database refuses a query: a missing deck behind `cards.deckId`;
   * a string too long for its `varchar(255)` column; a number that does not
   * fit the 32-bit `integer` column it is bound to; an identity sequence
   * past the largest `integer`.
   */
  datatype StoreError = ForeignKeyViolation | ValueTooLong | OutOfRange | SequenceExhausted

  /** The range of a Postgres `integer`: `id`, `deckId` and `order` are such columns. */
  const IntegerMin: int := -0x8000_0000
  const IntegerMax: int := 0x7FFF_FFFF

  /** A number bound to an `integer` column is refused, before the query runs, when it does not fit. */
  predicate FitsInteger(n: int) {
    IntegerMin <= n <= IntegerMax
  }

  function DeckId(d: Deck): int { d.id }
  function CardId(c: Card): int { c.id }

  /** `WHERE decks.id != deckId` and `WHERE cards.deckId != deckId`: the rows a deck deletion keeps. */
  function OtherDeck(deckId: int): Deck -> bool { (d: Deck) => d.id != deckId }
  function OutsideDeck(deckId: int): Card -> bool { (c: Card) => c.deckId != deckId }

  predicate HasDeck(decks: seq<Deck>, id: int) {
    exists d :: d in decks && d.id == id
  }

  /** Deck `deckId` exists and belongs to `userId`. */
  predicate OwnsDeck(decks: seq<Deck>, deckId: int, userId: string) {
    exists d :: d in decks && d.id == deckId && d.userId == userId
  }

  /** `varchar(255)`: a longer value is refused (one whose excess is all spaces is not modelled). */
  predicate FitsVarchar(s: string) {
    |s| <= VarcharLength
  }

  /** What the database guarantees of any state of the two tables. */
  ghost predicate Consistent(decks: seq<Deck>, cards: seq<Card>) {
    && UniqueBy(decks, DeckId)
    && UniqueBy(cards, CardId)
    && (forall d :: d in decks ==> FitsVarchar(d.userId) && FitsVarchar(d.name))
    && (forall c :: c in cards ==> HasDeck(decks, c.deckId))
  }

  /** The rows of `cards` that survive deleting deck `deckId`: `ON DELETE CASCADE`. */
  function Cascade(cards: seq<Card>, deckId: int): (r: seq<Card>)
    ensures forall c :: c in r <==> c in cards && c.deckId != deckId
  {
    Filter(cards, OutsideDeck(deckId))
  }

  /** Deleting a deck together with its cards keeps the tables consistent. */
  lemma CascadeKeepsConsistent(decks: seq<Deck>, cards: seq<Card>, deckId: int)
    requires Consistent(decks, cards)
    ensures Consistent(Filter(decks, OtherDeck(deckId)), Cascade(cards, deckId))
  {
    var decks' := Filter(decks, OtherDeck(deckId));
    FilterKeepsUnique(decks, OtherDeck(deckId), DeckId);
    FilterKeepsUnique(cards, OutsideDeck(deckId), CardId);
    forall c | c in Cascade(cards, deckId) ensures HasDeck(decks', c.deckId) {
      var d :| d in decks && d.id == c.deckId;
      assert d in decks';
    }
  }

  /** Without the cascade, deleting a deck that still has cards would leave them dangling. */
  lemma DeleteWithoutCascadeDangles(decks: seq<Deck>, cards: seq<Card>, deckId: int, c: Card)
    requires c in cards && c.deckId == deckId
    ensures !Consistent(Filter(decks, OtherDeck(deckId)), cards)
  {
  }
}
