/**
 * What every server action shares: the caller as the authentication
 * service reports it, the errors an action ends with, the pages it marks
 * stale, and the order of its first two steps (validate the input, then
 * require a signed-in caller).
 */
module Server {
  import opened Wrappers
  import opened Zod
  import opened Schema

  /** `auth()` yields a user id; a missing or empty one is falsy and means nobody is signed in. */
  predicate Authenticated(caller: Option<string>) {
    caller.Some? && caller.value != ""
  }

  function UserOf(caller: Option<string>): string
    requires Authenticated(caller)
  {
    caller.value
  }

  /** Why an action ended without doing its work. */
  datatype ActionError =
    | Invalid(issues: seq<Issue>)   // the schema's `parse` threw
    | Unauthorized                  // "Unauthorized"
    | DeckNotFound                  // "Deck not found or access denied"
    | CardNotFound                  // "Card not found or access denied"
    | Storage(cause: StoreError)    // a query threw

  /** The pages `revalidatePath` marks stale: `/dashboard` and `/deck/{id}`. */
  datatype Path = Dashboard | DeckPage(deckId: int)

  /**
   * Steps 1 and 2 of every action: the input is validated first, and only a
   * valid input goes on to the authentication check.
   */
  function Gate<T>(parsed: Parsed<T>, caller: Option<string>): (r: Result<T, ActionError>)
    ensures r.Success? <==> parsed.Success? && Authenticated(caller)
    ensures r.Success? ==> r.value == parsed.value
    ensures parsed.Failure? ==> r == Failure(Invalid(parsed.error))
    ensures r == Failure(Unauthorized) <==> parsed.Success? && !Authenticated(caller)
  {
    match parsed
    case Failure(issues) => Failure(Invalid(issues))
    case Success(v) => if Authenticated(caller) then Success(v) else Failure(Unauthorized)
  }
}
