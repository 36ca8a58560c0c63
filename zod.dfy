/**
 * The few Zod checks the schemas use, as functions from a value to the list
 * of issues it raises. A JavaScript number is modelled as a `real` (NaN and
 * the infinities are left out), so `.int()` is a real check.
 * None of these checks aborts parsing: every check of every field runs and
 * contributes its issues, and a value is accepted exactly when no issue is
 * raised.
 */
module Zod {
  import opened Wrappers

  datatype Segment = Field(name: string) | Index(position: nat)

  /** `NotInteger` is `.int()`, `TooSmall`/`TooBig` are `.positive()`, `.min()`, `.max()`, `Custom` is `.refine()`. */
  datatype Code = NotInteger | TooSmall | TooBig | Custom

  /** One issue of a ZodError: where, which check, and the schema's own message if it gives one. */
  datatype Issue = Issue(path: seq<Segment>, code: Code, message: Option<string>)

  /** What `schema.parse` does: return the parsed value or throw a ZodError with its issues. */
  type Parsed<T> = Result<T, seq<Issue>>

  predicate IsInteger(x: real) {
    x.Floor as real == x
  }

  predicate IsPositiveInteger(x: real) {
    IsInteger(x) && x > 0.0
  }

  /** `z.number().int()` */
  function IntegerIssues(x: real, path: seq<Segment>): (r: seq<Issue>)
    ensures r == [] <==> IsInteger(x)
  {
    if IsInteger(x) then [] else [Issue(path, NotInteger, None)]
  }

  /** `z.number().int().positive()` */
  function PositiveIntegerIssues(x: real, path: seq<Segment>): (r: seq<Issue>)
    ensures r == [] <==> IsPositiveInteger(x)
    ensures forall i :: 0 <= i < |r| ==> r[i].path == path && r[i].code != Custom
  {
    IntegerIssues(x, path) + (if x > 0.0 then [] else [Issue(path, TooSmall, None)])
  }

  /** `z.number().int().min(0)` */
  function NonNegativeIntegerIssues(x: real, path: seq<Segment>): (r: seq<Issue>)
    ensures r == [] <==> IsInteger(x) && x >= 0.0
  {
    IntegerIssues(x, path) + (if x >= 0.0 then [] else [Issue(path, TooSmall, None)])
  }

  /** `z.string().min(lo, loMessage).max(hi, hiMessage)`, on the untrimmed string. */
  function LengthIssues(s: string, path: seq<Segment>, lo: nat, loMessage: string, hi: nat, hiMessage: string): (r: seq<Issue>)
    ensures r == [] <==> lo <= |s| <= hi
    ensures forall i :: 0 <= i < |r| ==> r[i].path == path && r[i].code != Custom
  {
    (if |s| >= lo then [] else [Issue(path, TooSmall, Some(loMessage))])
    + (if |s| <= hi then [] else [Issue(path, TooBig, Some(hiMessage))])
  }

  /** `z.string().max(hi, hiMessage)` */
  function MaxLengthIssues(s: string, path: seq<Segment>, hi: nat, hiMessage: string): (r: seq<Issue>)
    ensures r == [] <==> |s| <= hi
  {
    if |s| <= hi then [] else [Issue(path, TooBig, Some(hiMessage))]
  }
}
