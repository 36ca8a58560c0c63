# Flashcard server write path, modelled in Dafny

The flashcard app keeps decks of two-sided cards per signed-in user. This
project models its server side:

- the Zod schemas that validate the inputs of every action;
- the two Postgres tables, `decks` and `cards`, with the cascade from a deck
  to its cards;
- the query helpers that read and write those tables, each scoped by the
  keys in its `WHERE` clause;
- the seven server actions. Each one validates its input, requires a
  signed-in caller, checks ownership, writes, and marks pages stale.

It then proves what each step promises.

Modules, in dependency order:

| file | module | what it holds |
|---|---|---|
| wrappers.dfy | `Wrappers` | `Option` and `Result` |
| seqs.dfy | `Seqs` | `Filter` and `First` over sequences, uniqueness of keys |
| sorting.dfy | `Sorting` | an insertion sort on `(primary, secondary)` keys, the model of `ORDER BY`; rows with equal keys come out in reverse table order |
| text.dfy | `Text` | ECMAScript `String.prototype.trim` on `seq<char>` |
| zod.dfy | `Zod` | the few Zod checks the schemas use, each yielding its list of issues |
| card_validation.dfy | `CardValidation` | the four card schemas |
| deck_validation.dfy | `DeckValidation` | the three deck schemas |
| schema.dfy | `Schema` | `Deck` and `Card` rows, the foreign key and its cascade, `varchar(255)`, the range of `integer`, the errors the database raises |
| card_queries.dfy | `CardQueries` | each card query as a function from the old table to the result and the new table |
| deck_queries.dfy | `DeckQueries` | the same for the deck queries |
| database.dfy | `Database` | class `Db`: the two tables, the identity counters and the clock, one method per write query |
| server.dfy | `Server` | the caller, the action errors, the stale pages, validation before authentication |
| card_actions.dfy | `CardActions` | `createCard`, `updateCard`, `deleteCard`, `reorderCards` |
| deck_actions.dfy | `DeckActions` | `createDeck`, `updateDeck`, `deleteDeck` |

How the source's concepts are represented:

- **Write queries.** Each write query has a specification function on the old
  table and a `Db` method proved against it. The method cannot break
  `Db.Valid()`, which requires that:
  - every card references an existing deck;
  - ids are unique and below the identity counters;
  - neither identity counter has gone past the largest `integer`;
  - `userId` and `name` fit their `varchar(255)` columns.
- **Integer columns.** `id`, `deckId` and `order` are 32-bit `integer`
  columns, while the model's numbers are unbounded. A number outside
  −2³¹..2³¹−1 bound to one of these columns makes the query fail with
  `OutOfRange` before it runs. An identity sequence past 2³¹−1 makes the
  insert fail with `SequenceExhausted`. Within one insert the database meets
  the errors in this order: a parameter out of range, the identity value
  drawn, a value too long for its `varchar(255)` column, the foreign key. So
  an insert refused for length or for the foreign key has already used up an
  id. The database invariant `Database.TablesValid` includes that every stored
  card's `order` is within that range.
- **Action results.** Each action is a module-level method that takes the
  database as a parameter `db: Db` and calls its write methods. It takes the
  caller (`auth()`'s user id) as an explicit `Option<string>`. It returns its
  outcome together with the list of paths it passes to `revalidatePath`.
- **Card versus deck actions.** A card action catches every error and replies
  `Failed(error)`. A deck action lets the error escape, modelled as
  `Threw(error)`.
- **Error messages.** The `ActionError` constructors stand for the messages
  the source throws:
  - `Unauthorized` for "Unauthorized";
  - `DeckNotFound` for "Deck not found or access denied";
  - `CardNotFound` for "Card not found or access denied";
  - `Storage(e)` for the error the database raises.

## Model

| member | source | states |
|---|---|---|
| Text.TrimSplits | src/lib/validations/card.ts:7 | the trimmed string is a contiguous slice of the input and has no white space at either end |
| Text.TrimOfPadded | src/lib/validations/card.ts:7 | surrounding any trimmed text with white space on both sides trims back to that text |
| Text.AllWhiteSpaceTrimsToEmpty | src/lib/validations/card.ts:5-7 | a string trims to `""` if and only if it is all white space |
| Text.TrimIdempotent | src/lib/validations/card.ts:7 | trimming twice gives the same as trimming once |
| Zod.IntegerIssues | src/lib/validations/card.ts:31 | `z.number().int()` reports no issue exactly for integral numbers |
| Zod.PositiveIntegerIssues | src/lib/validations/card.ts:4 | `.int().positive()` reports no issue exactly for integers above 0; every issue is on the given path and none is a custom one |
| Zod.NonNegativeIntegerIssues | src/lib/validations/card.ts:31 | `.int().min(0)` reports no issue exactly for integers at least 0 |
| Zod.LengthIssues | src/lib/validations/card.ts:5-6 | `.min(lo).max(hi)` on a string reports no issue exactly when its untrimmed length is in `[lo, hi]` |
| Zod.MaxLengthIssues | src/lib/validations/deck.ts:5 | `.max(hi)` reports no issue exactly when the length is at most `hi` |
| CardValidation.SideIssues | src/lib/validations/card.ts:5-10 | no issue if and only if both sides have length 1..5000 and differ after trimming; the refinement's issue is present if and only if the trimmed sides are equal |
| CardValidation.ParseCreateCard | src/lib/validations/card.ts:3-10 | accepted if and only if `deckId` is a positive integer, both lengths are in 1..5000 and the trimmed sides differ; the accepted value is the input unchanged, untrimmed; a rejection has at least one issue, and the identical-sides issue exactly when the trimmed sides are equal |
| CardValidation.ParseUpdateCard | src/lib/validations/card.ts:12-20 | accepted if and only if `id` and `deckId` are positive integers and the side rules hold; the value is the input unchanged |
| CardValidation.ParseDeleteCard | src/lib/validations/card.ts:22-25 | accepted if and only if `id` and `deckId` are positive integers |
| CardValidation.EntryIssues | src/lib/validations/card.ts:29-31 | the entries from `k` on report no issue if and only if every one has a positive-integer `id` and an integer `order >= 0` |
| CardValidation.ParseReorderCards | src/lib/validations/card.ts:27-33 | accepted if and only if `deckId` is a positive integer, the batch is non-empty and every entry is valid; the parsed batch keeps the entries' count, order and values; an empty batch is rejected with the "At least one card order is required" issue |
| CardValidation.WhiteSpaceFrontAccepted | src/lib/validations/card.ts:5-7 | a front of white space only, of length at least 1, is accepted when the back is not all white space |
| CardValidation.PaddedCopyRejected | src/lib/validations/card.ts:7-10 | two sides that differ only in surrounding white space are rejected, and the identical-sides issue is among the issues |
| CardValidation.IdenticalSidesRejected | src/lib/validations/card.ts:7-10 | `front = back = "X"` yields exactly one issue, "Front and back cannot be identical" on path `back` |
| CardValidation.UpdateExtendsCreate | src/lib/validations/card.ts:12-20 | an update input is valid if and only if its `id` is a positive integer and the same input without `id` is a valid create input |
| CardValidation.DuplicateIdsAccepted | src/lib/validations/card.ts:29-32 | a batch naming the same card id twice is accepted |
| DeckValidation.NameAndDescriptionIssues | src/lib/validations/deck.ts:4-5 | no issue if and only if the name has length 1..255 and a present description has length at most 1000 |
| DeckValidation.ParseCreateDeck | src/lib/validations/deck.ts:3-6 | accepted if and only if those bounds hold; the value is the input unchanged |
| DeckValidation.ParseUpdateDeck | src/lib/validations/deck.ts:8-12 | accepted if and only if `id` is a positive integer and the bounds hold |
| DeckValidation.ParseDeleteDeck | src/lib/validations/deck.ts:14-16 | accepted if and only if `id` is a positive integer; the value is that id, above 0 |
| DeckValidation.WhiteSpaceNameAccepted | src/lib/validations/deck.ts:3-6 | a name of white space only is valid, though it trims to `""`; an empty description is valid |
| DeckValidation.UpdateExtendsCreate | src/lib/validations/deck.ts:8-12 | an update input is valid if and only if its `id` is a positive integer and its name and description make a valid create input |
| Schema.Cascade | src/db/schema.ts:14 | the cards that survive deleting a deck are exactly those of other decks |
| Schema.CascadeKeepsConsistent | src/db/schema.ts:14 | deleting a deck together with its cards keeps every card pointing at an existing deck, and ids unique |
| Schema.DeleteWithoutCascadeDangles | src/db/schema.ts:14 | without the cascade, deleting a deck that has a card breaks the foreign key |
| CardQueries.CardsByDeckId | src/db/queries/card-queries.ts:12-18 | exactly the deck's cards, each as often as in the table, sorted by `(order, createdAt)` |
| CardQueries.CardById | src/db/queries/card-queries.ts:23-33 | found if and only if a row has both the id and the deck id; the row found has both |
| CardQueries.VerifyCardOwnership | src/db/queries/card-queries.ts:38-53 | found if and only if a card with that id lies in a deck of that user; the result names the card, its deck and the user |
| CardQueries.MaxOrder | src/db/queries/card-queries.ts:69 | an upper bound of the orders that some card attains |
| CardQueries.NextOrder | src/db/queries/card-queries.ts:67-69 | 0 for a deck with no cards; otherwise one above the order of some card of the deck; always above every order in the deck, so it is the largest order plus 1 |
| CardQueries.NewCardRow | src/db/queries/card-queries.ts:71-79 | the inserted row carries the given deck and sides, the clock reading, and an order above every order in that deck |
| CardQueries.InsertKeepsConsistent | src/db/schema.ts:13-14 | a fresh id in an existing deck keeps the tables consistent |
| CardQueries.EditCard | src/db/queries/card-queries.ts:97-102 | `.set` replaces only the sides that are given, and the update time; id, deck, order and creation time are kept |
| CardQueries.UpdatedCard | src/db/queries/card-queries.ts:97-109 | nothing is returned if and only if no row has both keys; otherwise the edited row |
| CardQueries.UpdateChangesOnlyMatch | src/db/queries/card-queries.ts:103-106 | rows not matching both keys are unchanged; every row keeps its id, deck, order and creation time |
| CardQueries.UpdateKeepsConsistent | src/db/queries/card-queries.ts:89-110 | an update keeps the tables consistent |
| CardQueries.UnmatchedUpdateChangesNothing | src/db/queries/card-queries.ts:103-109 | an update whose keys match no row leaves the table as it was and returns nothing |
| CardQueries.SetOrderAt | src/db/queries/card-queries.ts:122-129 | one update of the batch changes only the row matching the pair's id and the deck, and only its order and update time |
| CardQueries.ApplyOrdersEffect | src/db/queries/card-queries.ts:115-131 | after the batch, the table has the same length; cards of other decks are unchanged; every card keeps id, deck, sides and creation time; a card of the deck is the same row with the order `FinalOrder` gives it and the update time `FinalStamp` gives it, and nothing else changed |
| CardQueries.FinalOrderUnnamed | src/db/queries/card-queries.ts:121-128 | a card that no pair names keeps its order |
| CardQueries.FinalOrderLastWins | src/db/queries/card-queries.ts:121-128 | a card named several times ends with the order of the last pair naming it |
| CardQueries.FinalOrderFits | src/db/schema.ts:17 | a card whose order fits `integer`, updated only by pairs whose orders fit, ends with an order that fits, so the column's range is kept |
| CardQueries.FinalStampUnnamed | src/db/queries/card-queries.ts:121-128 | a card that no pair names keeps its update time |
| CardQueries.FinalStampLastWins | src/db/queries/card-queries.ts:121-128 | a card's update time is the clock reading of the update of the last pair naming it |
| CardQueries.ApplyOrdersKeepsUnnamed | src/db/queries/card-queries.ts:121-128 | a card of the deck that no pair names comes out of the batch exactly as it was, update time included |
| CardQueries.ApplyOrdersLastWins | src/db/queries/card-queries.ts:121-128 | a card of the deck named last by pair `k` ends with that pair's order and the clock reading of the `k`-th update, and is otherwise unchanged |
| CardQueries.SetOrderKeepsNames | src/db/queries/card-queries.ts:124-128 | an update of the batch keeps every id and deck, so the same pairs name cards of the deck after it |
| CardQueries.ReturnedRowOfPair | src/db/queries/card-queries.ts:129-133 | one update returns one row if its pair names a card of the deck and none otherwise; that row has the deck, the pair's id and the pair's new order |
| CardQueries.ReorderedRowsEffect | src/db/queries/card-queries.ts:133 | the batch returns exactly one row for each pair that names a card of the deck, so at most one per pair; each row is in the deck and carries the id and order of some pair of the batch |
| CardQueries.FittingOrdersEffect | src/db/queries/card-queries.ts:121-131 | the updates that run are exactly those of the pairs whose numbers fit `integer`, and all of them when every pair fits |
| CardQueries.ApplyOrdersKeepsConsistent | src/db/queries/card-queries.ts:115-134 | the batch keeps the tables consistent |
| CardQueries.SetOrderUnmatched | src/db/queries/card-queries.ts:125-128 | one update naming no card of the deck leaves the table as it was |
| CardQueries.ForeignBatchChangesNothing | src/db/queries/card-queries.ts:115-134 | a batch none of whose ids is a card of the deck changes nothing and returns no rows |
| CardQueries.DeleteCards | src/db/queries/card-queries.ts:143-150 | the rows kept are exactly those not matching both keys |
| CardQueries.DeleteRemovesAtMostOne | src/db/queries/card-queries.ts:143-153 | with unique ids, at most one row is removed, and none when nothing matches |
| CardQueries.DeleteKeepsConsistent | src/db/queries/card-queries.ts:143-153 | a delete keeps the tables consistent |
| DeckQueries.UserDecks | src/db/queries/deck-queries.ts:33-39 | exactly the user's decks, each as often as in the table, `createdAt` descending |
| DeckQueries.UserDecksExactlyOnce | src/db/queries/deck-queries.ts:33-39 | with unique ids, each of the user's decks is listed exactly once |
| DeckQueries.CardCount | src/db/queries/deck-queries.ts:21-24 | the count of the `LEFT JOIN` is 0 if and only if the deck has no card, and never more than the table |
| DeckQueries.Summaries | src/db/queries/deck-queries.ts:15-22 | one summary per listed deck, in the same order, carrying its id, name, description and times, and the number of cards whose `deckId` is that deck's |
| DeckQueries.UserDecksWithCardCounts | src/db/queries/deck-queries.ts:13-28 | one row per deck of `UserDecks`, decks without cards included, with its card count, `createdAt` descending |
| DeckQueries.DeckById | src/db/queries/deck-queries.ts:44-54 | found if and only if a deck has both the id and the user; the row found has both |
| DeckQueries.GetDeckWithCards | src/db/queries/deck-queries.ts:59-73 | nothing if and only if the deck is not the user's; otherwise that deck with exactly its cards, `createdAt` ascending |
| DeckQueries.DeckPageOldestFirst | src/db/queries/deck-queries.ts:66-70 | a deck page lists an older card before a newer one, whatever their orders |
| DeckQueries.CardsListedByOrder | src/db/queries/card-queries.ts:17 | `getCardsByDeckId` lists the card with the smaller order first, whatever the creation times |
| DeckQueries.DeckPageIgnoresOrder | src/db/queries/deck-queries.ts:66-70 | for two cards whose creation times and orders disagree, the deck page and `getCardsByDeckId` list them in opposite orders |
| DeckQueries.NewDeckRow | src/db/queries/deck-queries.ts:82-92 | the inserted deck carries the given user, name and description and the clock reading |
| DeckQueries.InsertDeckKeepsConsistent | src/db/schema.ts:4-6 | a fresh id with `userId` and `name` that fit keeps the tables consistent |
| DeckQueries.EditDeck | src/db/queries/deck-queries.ts:109-113 | `.set` replaces only the given name and description, and the update time; id, owner and creation time are kept |
| DeckQueries.UpdatedDeck | src/db/queries/deck-queries.ts:109-120 | nothing is returned if and only if the deck is not the user's; a returned row is that deck with `EditDeck` applied, so it has that id and user and the new update time |
| DeckQueries.UpdateDeckChangesOnlyOwned | src/db/queries/deck-queries.ts:114-117 | only the deck with both keys changes; an unowned id leaves the table unchanged |
| DeckQueries.UpdateDeckKeepsConsistent | src/db/queries/deck-queries.ts:101-121 | an update whose new name fits keeps the tables consistent |
| DeckQueries.DeleteDecks | src/db/queries/deck-queries.ts:130-136 | the decks kept are exactly those not matching both keys |
| DeckQueries.DeleteDeckCards | src/db/schema.ts:14 | when the deck is the user's, the cards kept are exactly those of other decks; otherwise the cards table is unchanged |
| DeckQueries.DeletedDeck | src/db/queries/deck-queries.ts:130-139 | nothing is returned if and only if the deck is not the user's |
| DeckQueries.DeleteOwnedIsDeleteById | src/db/queries/deck-queries.ts:132-135 | with unique ids, deleting an owned deck by id and owner is the same as deleting it by id alone |
| DeckQueries.DeleteOwnedRemovesOne | src/db/queries/deck-queries.ts:130-139 | deleting an owned deck removes exactly one row |
| DeckQueries.DeleteDeckEffect | src/db/queries/deck-queries.ts:130-139 | the deletion keeps the tables consistent; an owned deck is gone, with exactly one row removed; deleting an unowned deck changes neither table |
| Database.RunOrders | src/db/queries/card-queries.ts:115-134 | running the batch pair by pair yields the `ApplyOrders` table and the `ReorderedRows` result, one clock tick per pair |
| Database.DrawIdValid | src/db/schema.ts:4-13 | drawing an identity value without inserting a row keeps the tables valid |
| Database.Db.InsertCardRow | src/db/queries/card-queries.ts:71-77 | the insert fails if and only if the deck id or the order is out of `integer` range (changing nothing), the card sequence is used up (changing nothing), or the deck does not exist (using up the id); otherwise it appends exactly the new row, with the next id and one clock reading |
| Database.Db.InsertCard | src/db/queries/card-queries.ts:62-80 | the same, with the order being one past the deck's largest; a deck id out of range fails at the read, before the insert; on success exactly the new row is appended and every other row kept |
| Database.Db.UpdateCardById | src/db/queries/card-queries.ts:89-110 | reads the clock; fails with `OutOfRange`, changing no row, if and only if the card id or deck id is out of range; otherwise the table becomes the `UpdateCards` result and the reply is `UpdatedCard` |
| Database.Db.UpdateCardsOrder | src/db/queries/card-queries.ts:115-134 | one clock reading per pair; the table becomes the `ApplyOrders` result of the pairs that fit `integer`; the batch succeeds if and only if every pair fits, and then the table is the `ApplyOrders` result of the whole batch and the reply is `ReorderedRows` |
| Database.Db.DeleteCardById | src/db/queries/card-queries.ts:143-153 | fails with `OutOfRange`, changing nothing, if and only if the card id or deck id is out of range; otherwise the table becomes the `DeleteCards` result and the reply is the removed row, if any |
| Database.Db.InsertDeck | src/db/queries/deck-queries.ts:82-92 | fails if and only if the deck sequence is used up (changing nothing) or `userId` or `name` exceeds 255 characters (using up the id); otherwise appends exactly the new deck, with the next id and one clock reading |
| Database.Db.UpdateDeckById | src/db/queries/deck-queries.ts:101-121 | reads the clock; fails if and only if the deck id is out of range (`OutOfRange`) or the deck is owned and the new name is too long (`ValueTooLong`), changing no deck; otherwise the table becomes the `UpdateDecks` result and the reply is `UpdatedDeck` |
| Database.Db.DeleteDeckById | src/db/queries/deck-queries.ts:130-139 | fails with `OutOfRange`, changing nothing, if and only if the deck id is out of range; otherwise both tables become the result of the delete and its cascade and the reply is the removed deck, if any |
| Server.Gate | src/app/actions/card-actions.ts:27-33 | passes if and only if the input is valid and the caller is signed in; an invalid input fails with its issues whoever the caller is; `Unauthorized` if and only if the input is valid and nobody is signed in |
| CardActions.CheckCreateCard | src/app/actions/card-actions.ts:27-39 | passes if and only if the input is valid, the caller is signed in, the deck id fits `integer` and the caller owns the deck; each failure is reported by the first check that fails, an out-of-range deck id as `OutOfRange` |
| CardActions.CheckUpdateCard | src/app/actions/card-actions.ts:64-76 | passes if and only if the input is valid, the caller is signed in, the card id fits `integer` and a card with that id lies in one of the caller's decks, whatever deck id the input names; an out-of-range id fails with `OutOfRange`, any other miss with "card not found" |
| CardActions.CheckDeleteCard | src/app/actions/card-actions.ts:104-116 | the same check for a delete |
| CardActions.CheckReorderCards | src/app/actions/card-actions.ts:142-154 | passes if and only if the input is valid, the caller is signed in, the deck id fits `integer` and the caller owns the deck; the batch's ids are not checked |
| CardActions.CreateCard | src/app/actions/card-actions.ts:24-60 | a failed check replies with its error and changes nothing; a next order or card id past the `integer` range replies with the storage error and changes nothing; otherwise exactly the new row is appended and returned, the card counter advances by one, and the deck page and the dashboard go stale |
| CardActions.UpdateCard | src/app/actions/card-actions.ts:62-100 | a failed check changes nothing; otherwise the clock is read and the update runs on `(id, deckId)`; an out-of-range deck id replies `OutOfRange` and changes no row, a miss replies "card not found", a hit returns the row and makes the deck page stale; the counters never change |
| CardActions.DeleteCard | src/app/actions/card-actions.ts:102-138 | a failed check, or an out-of-range deck id, changes nothing; otherwise the delete runs on `(id, deckId)`; a miss replies "card not found", a hit replies success with no data and makes the deck page and the dashboard stale |
| CardActions.ReorderCards | src/app/actions/card-actions.ts:140-171 | a failed check changes nothing; otherwise the updates of the pairs that fit `integer` run, one clock reading per pair; when every pair fits the reply is success with no data, whatever the batch matched; otherwise it is `OutOfRange`, though the other updates have been made |
| CardActions.UpdateWithWrongDeckChangesNothing | src/app/actions/card-actions.ts:74-87 | an update that passes the ownership check but names a deck id other than the card's changes no row and finds nothing |
| CardActions.ForeignReorderSucceeds | src/app/actions/card-actions.ts:152-158 | a reorder that passes its checks but names no card of the deck leaves the cards table unchanged |
| CardActions.ReorderForeignBatch | src/app/actions/card-actions.ts:140-163 | on such a batch whose numbers fit `integer`, the action replies success with no data while the cards and decks tables stay as they were |
| DeckActions.CreateDeck | src/app/actions/deck-actions.ts:19-40 | invalid input or no caller throws and changes nothing; a used-up deck sequence throws and changes nothing; a caller id too long for its column throws and uses up a deck id; otherwise the deck is stored under the caller's id and returned, and the dashboard goes stale |
| DeckActions.ValidNameFits | src/lib/validations/deck.ts:10 | a validated name always fits the `varchar(255)` column, so the update cannot fail on it |
| DeckActions.UpdateDeck | src/app/actions/deck-actions.ts:42-67 | a failed check throws and changes nothing; otherwise the clock is read; an out-of-range id throws `OutOfRange` and changes no deck; else the update runs on `(id, userId)` and throws "deck not found" on an unowned deck; on an owned deck it returns the row and makes the dashboard and the deck page stale |
| DeckActions.DeleteDeck | src/app/actions/deck-actions.ts:69-90 | a failed check, or an out-of-range id, throws and changes nothing; otherwise the delete and its cascade run on `(id, userId)` and throw "deck not found" on an unowned deck; on an owned deck it returns success with no data and makes the dashboard stale |
| DeckActions.DeleteOfUnownedChangesNothing | src/app/actions/deck-actions.ts:80-84 | deleting a deck the caller does not own leaves both tables unchanged |
| DeckActions.UpdateOfUnownedChangesNothing | src/app/actions/deck-actions.ts:53-60 | updating a deck the caller does not own leaves the decks table unchanged and returns nothing |

## Left out

- **Clerk `auth()`.** It is a foreign identity lookup. It becomes the `caller` parameter.
- **`revalidatePath`.** It is a cache side effect. The paths are returned as a list of `Path` values, not rendered as strings.
- **`console.error`.** It only logs.
- **Concurrency.** `Promise.all` in `updateCardsOrder` starts its updates at once. The model runs them one after another, in the order of the pairs, each at its own clock reading. With duplicate ids the last pair wins, which is what a sequential run gives.
- Database.Db.UpdateCardsOrder: when some pair does not fit `integer`, the updates of the other pairs are stamped with consecutive clock readings from the start of the batch, and the clock then moves on by one reading per pair. The timestamps the concurrent updates really get are not modelled.
- **Concurrent `insertCard` calls.** `insertCard` reads the deck's cards and then inserts, non-atomically. Two concurrent inserts could share an order; the model does not capture that.
- **Database failures** (lost connection, timeouts) are not modelled. The store errors modelled are the foreign-key violation, the `varchar(255)` overflow, a number out of `integer` range and a used-up identity sequence.
- CardQueries.CardsByDeckId, CardQueries.CardById, CardQueries.VerifyCardOwnership, DeckQueries.DeckById, DeckQueries.GetDeckWithCards, DeckQueries.UserDecksWithCardCounts: these read functions answer for any id, while the source's query throws for an id outside the `integer` range. The actions test the range themselves before they use them.
- DeckActions.CreateDeck, Database.Db.InsertDeck: Postgres silently cuts a value longer than 255 characters down to 255 when every character past the 255th is a space. The model refuses every longer value (`Schema.FitsVarchar`). A valid deck name never exceeds 255 characters, so only the caller's id can reach this case.
- **Time.** `new Date()` and `defaultNow()` are readings of an abstract counter (`Database.Db.clock`), and each reading is one more than the last. A successful insert reads it once; `updateCardById` and `updateDeckById` read it once even when they then refuse or match nothing; `updateCardsOrder` reads it once per pair; the deletes never read it.
- **ZodError messages.** A card action's failure reply carries the message of the error it caught. For a ZodError that message is a JSON rendering of the issues. The model keeps the issues themselves instead of their rendering.
- Zod reports the issues of the object's fields before those of `.refine`. That order matters only for the issue list, which the model keeps in the same order. It never affects the verdict.
- **Input types.** Each action's input is a record of the TypeScript input type, so a missing field or a field of the wrong JavaScript type cannot occur, and Zod's `invalid_type` issues for them are not modelled.
- **JavaScript numbers** are modelled as `real`. NaN and the infinities are not represented; `.int()` rejects them anyway. `-0` is not represented either. `.int().min(0)` accepts it as an `order`, and Postgres stores it as `0`, which is what the model stores for `0`.
- **`trim` on UTF-16.** `trim` works on code points of `seq<char>`, with ECMAScript's white space and line terminators. String lengths count code points, not UTF-16 code units, so a string with characters outside the Basic Multilingual Plane is shorter here than Zod measures it.
- **The pages, components and the study and drag-reorder client code.** They are UI and are not part of this model.
- **Drizzle and SQL generation.** Only the meaning of each query over the in-memory tables is modelled.
- **The equal-key order of `ORDER BY`.** Postgres leaves the order of rows with equal sort keys unspecified. The model fixes one: reverse table order.
- **`getCardById` has no caller among the actions.** It is modelled as `CardQueries.CardById` and used to specify the update and delete queries.

## Behaviour worth knowing

- `getDeckWithCards` sorts a deck's cards by `createdAt` only (src/db/queries/deck-queries.ts:66-70), while `getCardsByDeckId` sorts by `order` first. `DeckQueries.DeckPageIgnoresOrder` exhibits two cards that the two queries list in opposite orders. A reorder keeps each card's position and `createdAt` (`CardQueries.ApplyOrdersEffect`), so it does not change the deck page's listing.
- The deck actions catch nothing. Every failure, invalid input and "Unauthorized" included, escapes as a thrown error (src/app/actions/deck-actions.ts:21-27, 58-60, 82-84). The card actions instead reply `{ success: false }`. The model writes these as `DeckActions.DeckOutcome.Threw` and `CardActions.CardReply.Failed`.
- The limits of 1000 characters for a description and 5000 for a card side exist only in the Zod schemas. The `text` columns accept any length (src/db/schema.ts:7, 15-16).
- A reorder batch with an `order` or id past 2³¹−1 fails with the database's error, yet the updates of its other pairs have been made (`CardActions.ReorderCards`). So does `createCard` once a deck holds a card of order 2³¹−1, since the next order does not fit (`CardActions.CreateCard`).
- An insert refused for a too-long value or a missing deck still uses up an identity value (`Database.Db.InsertDeck`, `Database.Db.InsertCardRow`).
- `reorderCards` checks that the caller owns the deck but not that the batch's ids belong to it. A batch of foreign ids changes nothing (`CardActions.ForeignReorderSucceeds`), yet the action reports success (`CardActions.ReorderForeignBatch`, from the reply stated by `CardActions.ReorderCards`).
- The reorder schema accepts the same id twice (`CardValidation.DuplicateIdsAccepted`). The last pair naming a card decides its order (`CardQueries.FinalOrderLastWins`).
- Every action validates before it authenticates. An invalid input from a caller who is not signed in therefore fails with the validation issues, not with "Unauthorized" (`Server.Gate`).
- `updateCard` and `deleteCard` check ownership by the card's id alone, then write on `(id, deckId)`. A wrong `deckId` fails with the same "Card not found or access denied" as a card of another user, and changes no row (`CardActions.UpdateWithWrongDeckChangesNothing`). The failed update still reads the clock.
- A deck name of white space only is valid: deck validation neither trims nor compares fields (`DeckValidation.WhiteSpaceNameAccepted`). For cards, a white-space-only front passes the length check (`CardValidation.WhiteSpaceFrontAccepted`).
