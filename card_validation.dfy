/** The card input schemas: what `createCardSchema`, `updateCardSchema`, `deleteCardSchema` and `reorderCardsSchema` accept. */
module CardValidation {
  import opened Wrappers
  import opened Text
  import opened Zod

  const MaxSideLength: nat := 5000
  const IdenticalMessage := "Front and back cannot be identical"
  const EmptyBatchMessage := "At least one card order is required"

  /** Inputs as the client sends them: numbers are JavaScript numbers. */
  datatype CreateCardInput = CreateCardInput(deckId: real, front: string, back: string)
  datatype UpdateCardInput = UpdateCardInput(id: real, deckId: real, front: string, back: string)
  datatype DeleteCardInput = DeleteCardInput(id: real, deckId: real)
  datatype CardOrderInput = CardOrderInput(id: real, order: real)
  datatype ReorderCardsInput = ReorderCardsInput(deckId: real, cardOrders: seq<CardOrderInput>)

  /** Parsed values: the numbers are known to be integers. */
  datatype NewCard = NewCard(deckId: int, front: string, back: string)
  datatype CardEdit = CardEdit(id: int, deckId: int, front: string, back: string)
  datatype CardRef = CardRef(id: int, deckId: int)
  datatype CardOrder = CardOrder(id: int, order: int)
  datatype Reorder = Reorder(deckId: int, cardOrders: seq<CardOrder>)

  /** The refinement's issue, reported on field `back`. */
  const IdenticalIssue := Issue([Field("back")], Custom, Some(IdenticalMessage))

  /** The length checks on the untrimmed sides, then the refinement on the trimmed sides. */
  function SideIssues(front: string, back: string): (r: seq<Issue>)
    ensures r == [] <==> 1 <= |front| <= MaxSideLength && 1 <= |back| <= MaxSideLength && Trim(front) != Trim(back)
    ensures IdenticalIssue in r <==> Trim(front) == Trim(back)
  {
    var lengths := LengthIssues(front, [Field("front")], 1, "Front text is required", MaxSideLength, "Front text too long")
                   + LengthIssues(back, [Field("back")], 1, "Back text is required", MaxSideLength, "Back text too long");
    assert IdenticalIssue !in lengths by {
      assert forall i :: 0 <= i < |lengths| ==> lengths[i].code != Custom;
    }
    if Trim(front) == Trim(back) then
      assert (lengths + [IdenticalIssue])[|lengths|] == IdenticalIssue;
      lengths + [IdenticalIssue]
    else
      lengths
  }

  /** `createCardSchema.parse` */
  function ParseCreateCard(input: CreateCardInput): (r: Parsed<NewCard>)
    ensures r.Success? <==>
              IsPositiveInteger(input.deckId)
              && 1 <= |input.front| <= MaxSideLength && 1 <= |input.back| <= MaxSideLength
              && Trim(input.front) != Trim(input.back)
    ensures r.Success? ==> r.value == NewCard(input.deckId.Floor, input.front, input.back)
    ensures r.Failure? ==> r.error != []
    ensures r.Failure? ==> (IdenticalIssue in r.error <==> Trim(input.front) == Trim(input.back))
  {
    var issues := PositiveIntegerIssues(input.deckId, [Field("deckId")]) + SideIssues(input.front, input.back);
    assert IdenticalIssue !in PositiveIntegerIssues(input.deckId, [Field("deckId")]);
    if issues == [] then Success(NewCard(input.deckId.Floor, input.front, input.back)) else Failure(issues)
  }

  /** `updateCardSchema.parse` */
  function ParseUpdateCard(input: UpdateCardInput): (r: Parsed<CardEdit>)
    ensures r.Success? <==>
              IsPositiveInteger(input.id) && IsPositiveInteger(input.deckId)
              && 1 <= |input.front| <= MaxSideLength && 1 <= |input.back| <= MaxSideLength
              && Trim(input.front) != Trim(input.back)
    ensures r.Success? ==> r.value == CardEdit(input.id.Floor, input.deckId.Floor, input.front, input.back)
    ensures r.Failure? ==> r.error != []
  {
    var issues := PositiveIntegerIssues(input.id, [Field("id")])
                  + PositiveIntegerIssues(input.deckId, [Field("deckId")])
                  + SideIssues(input.front, input.back);
    if issues == [] then Success(CardEdit(input.id.Floor, input.deckId.Floor, input.front, input.back)) else Failure(issues)
  }

  /** `deleteCardSchema.parse` */
  function ParseDeleteCard(input: DeleteCardInput): (r: Parsed<CardRef>)
    ensures r.Success? <==> IsPositiveInteger(input.id) && IsPositiveInteger(input.deckId)
    ensures r.Success? ==> r.value == CardRef(input.id.Floor, input.deckId.Floor)
    ensures r.Failure? ==> r.error != []
  {
    var issues := PositiveIntegerIssues(input.id, [Field("id")]) + PositiveIntegerIssues(input.deckId, [Field("deckId")]);
    if issues == [] then Success(CardRef(input.id.Floor, input.deckId.Floor)) else Failure(issues)
  }

  predicate ValidOrderEntry(e: CardOrderInput) {
    IsPositiveInteger(e.id) && IsInteger(e.order) && e.order >= 0.0
  }

  /** The issues of entries `k..` of `cardOrders`, each reported under its own index. */
  function EntryIssues(entries: seq<CardOrderInput>, k: nat): (r: seq<Issue>)
    requires k <= |entries|
    ensures r == [] <==> forall j :: k <= j < |entries| ==> ValidOrderEntry(entries[j])
    decreases |entries| - k
  {
    if k == |entries| then []
    else
      var at := [Field("cardOrders"), Index(k)];
      PositiveIntegerIssues(entries[k].id, at + [Field("id")])
      + NonNegativeIntegerIssues(entries[k].order, at + [Field("order")])
      + EntryIssues(entries, k + 1)
  }

  /** `reorderCardsSchema.parse`: the array's length check comes before its elements'. */
  function ParseReorderCards(input: ReorderCardsInput): (r: Parsed<Reorder>)
    ensures r.Success? <==>
              IsPositiveInteger(input.deckId) && |input.cardOrders| >= 1
              && forall j :: 0 <= j < |input.cardOrders| ==> ValidOrderEntry(input.cardOrders[j])
    ensures r.Success? ==> r.value.deckId == input.deckId.Floor
    ensures r.Success? ==> |r.value.cardOrders| == |input.cardOrders|
    ensures r.Success? ==> forall j :: 0 <= j < |input.cardOrders| ==>
              r.value.cardOrders[j] == CardOrder(input.cardOrders[j].id.Floor, input.cardOrders[j].order.Floor)
    ensures r.Success? ==> forall j :: 0 <= j < |r.value.cardOrders| ==>
              r.value.cardOrders[j].id > 0 && r.value.cardOrders[j].order >= 0
    ensures r.Failure? ==> r.error != []
    ensures input.cardOrders == [] ==>
              r.Failure? && Issue([Field("cardOrders")], TooSmall, Some(EmptyBatchMessage)) in r.error
  {
    var batch := if |input.cardOrders| >= 1 then []
                 else [Issue([Field("cardOrders")], TooSmall, Some(EmptyBatchMessage))];
    var issues := PositiveIntegerIssues(input.deckId, [Field("deckId")]) + batch + EntryIssues(input.cardOrders, 0);
    if issues == [] then
      Success(Reorder(input.deckId.Floor,
                      seq(|input.cardOrders|, j requires 0 <= j < |input.cardOrders| =>
                        CardOrder(input.cardOrders[j].id.Floor, input.cardOrders[j].order.Floor))))
    else Failure(issues)
  }

  /**
   * The length bounds apply to the untrimmed text: a front made only of
   * white space is accepted, and stored as it is, as long as the back has
   * some text.
   */
  lemma WhiteSpaceFrontAccepted(deckId: real, front: string, back: string)
    requires IsPositiveInteger(deckId)
    requires 1 <= |front| <= MaxSideLength && AllWhiteSpace(front)
    requires 1 <= |back| <= MaxSideLength && !AllWhiteSpace(back)
    ensures ParseCreateCard(CreateCardInput(deckId, front, back)) == Success(NewCard(deckId.Floor, front, back))
  {
    AllWhiteSpaceTrimsToEmpty(front);
    AllWhiteSpaceTrimsToEmpty(back);
  }

  /** Two sides that differ only in surrounding white space are rejected as identical. */
  lemma PaddedCopyRejected(deckId: real, text: string, p1: string, q1: string, p2: string, q2: string)
    requires Trimmed(text)
    requires AllWhiteSpace(p1) && AllWhiteSpace(q1) && AllWhiteSpace(p2) && AllWhiteSpace(q2)
    ensures var r := ParseCreateCard(CreateCardInput(deckId, p1 + text + q1, p2 + text + q2));
            r.Failure? && IdenticalIssue in r.error
  {
    TrimOfPadded(p1, text, q1);
    TrimOfPadded(p2, text, q2);
  }

  /** `front = "X", back = "X"`: exactly one issue, the refinement's, on field `back`. */
  lemma IdenticalSidesRejected()
    ensures ParseCreateCard(CreateCardInput(1.0, "X", "X")) == Failure([IdenticalIssue])
    ensures IdenticalIssue.path == [Field("back")]
  {
    assert PositiveIntegerIssues(1.0, [Field("deckId")]) == [];
    assert SideIssues("X", "X") == [IdenticalIssue];
  }

  /** The update schema is the create schema plus a positive integer `id`. */
  lemma UpdateExtendsCreate(input: UpdateCardInput)
    ensures ParseUpdateCard(input).Success? <==>
              IsPositiveInteger(input.id) && ParseCreateCard(CreateCardInput(input.deckId, input.front, input.back)).Success?
  {
  }

  /** Nothing in the reorder schema forbids the same card id twice in one batch. */
  lemma DuplicateIdsAccepted()
    ensures ParseReorderCards(ReorderCardsInput(1.0, [CardOrderInput(7.0, 0.0), CardOrderInput(7.0, 1.0)]))
            == Success(Reorder(1, [CardOrder(7, 0), CardOrder(7, 1)]))
  {
    var input := ReorderCardsInput(1.0, [CardOrderInput(7.0, 0.0), CardOrderInput(7.0, 1.0)]);
    assert ValidOrderEntry(input.cardOrders[0]) && ValidOrderEntry(input.cardOrders[1]);
    assert (7.0).Floor == 7 && (1.0).Floor == 1 && (0.0).Floor == 0;
    var r := ParseReorderCards(input);
    assert r.Success?;
    assert r.value.cardOrders == [CardOrder(7, 0), CardOrder(7, 1)];
  }
}
