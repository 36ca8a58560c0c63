/** The deck input schemas: what `createDeckSchema`, `updateDeckSchema` and `deleteDeckSchema` accept. */
module DeckValidation {
  import opened Wrappers
  import opened Text
  import opened Zod

  const MaxNameLength: nat := 255
  const MaxDescriptionLength: nat := 1000

  datatype CreateDeckInput = CreateDeckInput(name: string, description: Option<string>)
  datatype UpdateDeckInput = UpdateDeckInput(id: real, name: string, description: Option<string>)
  datatype DeleteDeckInput = DeleteDeckInput(id: real)

  datatype NewDeck = NewDeck(name: string, description: Option<string>)
  datatype DeckEdit = DeckEdit(id: int, name: string, description: Option<string>)

  /** `name` and the optional `description`; no trimming, no cross-field rule. */
  function NameAndDescriptionIssues(name: string, description: Option<string>): (r: seq<Issue>)
    ensures r == [] <==>
              1 <= |name| <= MaxNameLength
              && (description.Some? ==> |description.value| <= MaxDescriptionLength)
  {
    LengthIssues(name, [Field("name")], 1, "Name is required", MaxNameLength, "Name too long")
    + match description
      case None => []
      case Some(text) => MaxLengthIssues(text, [Field("description")], MaxDescriptionLength, "Description too long")
  }

  /** `createDeckSchema.parse` */
  function ParseCreateDeck(input: CreateDeckInput): (r: Parsed<NewDeck>)
    ensures r.Success? <==>
              1 <= |input.name| <= MaxNameLength
              && (input.description.Some? ==> |input.description.value| <= MaxDescriptionLength)
    ensures r.Success? ==> r.value == NewDeck(input.name, input.description)
    ensures r.Failure? ==> r.error != []
  {
    var issues := NameAndDescriptionIssues(input.name, input.description);
    if issues == [] then Success(NewDeck(input.name, input.description)) else Failure(issues)
  }

  /** `updateDeckSchema.parse` */
  function ParseUpdateDeck(input: UpdateDeckInput): (r: Parsed<DeckEdit>)
    ensures r.Success? <==>
              IsPositiveInteger(input.id)
              && 1 <= |input.name| <= MaxNameLength
              && (input.description.Some? ==> |input.description.value| <= MaxDescriptionLength)
    ensures r.Success? ==> r.value == DeckEdit(input.id.Floor, input.name, input.description)
    ensures r.Failure? ==> r.error != []
  {
    var issues := PositiveIntegerIssues(input.id, [Field("id")]) + NameAndDescriptionIssues(input.name, input.description);
    if issues == [] then Success(DeckEdit(input.id.Floor, input.name, input.description)) else Failure(issues)
  }

  /** `deleteDeckSchema.parse` */
  function ParseDeleteDeck(input: DeleteDeckInput): (r: Parsed<int>)
    ensures r.Success? <==> IsPositiveInteger(input.id)
    ensures r.Success? ==> r.value == input.id.Floor && r.value > 0
    ensures r.Failure? ==> r.error != []
  {
    var issues := PositiveIntegerIssues(input.id, [Field("id")]);
    if issues == [] then Success(input.id.Floor) else Failure(issues)
  }

  /** A name of white space only is a valid name; an empty description is a valid description. */
  lemma WhiteSpaceNameAccepted(name: string)
    requires 1 <= |name| <= MaxNameLength && AllWhiteSpace(name)
    ensures ParseCreateDeck(CreateDeckInput(name, Some(""))) == Success(NewDeck(name, Some("")))
    ensures Trim(name) == []
  {
    AllWhiteSpaceTrimsToEmpty(name);
  }

  /** The update schema is the create schema plus a positive integer `id`. */
  lemma UpdateExtendsCreate(input: UpdateDeckInput)
    ensures ParseUpdateDeck(input).Success? <==>
              IsPositiveInteger(input.id) && ParseCreateDeck(CreateDeckInput(input.name, input.description)).Success?
  {
  }
}
