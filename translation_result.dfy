/**
 * The shared accumulator that every operator translator writes into. Its concrete
 * semantics (how caps combine, how filters join) are not part of this model, so
 * every call made on it is recorded, in order.
 */
module TranslationResult {
  import opened Wrappers
  import opened Expressions

  /** A client-side step recorded for after the fetch: replay of an operator, or of a projection. */
  datatype PostProcessing = ReplayOperator(methodName: string) | ReplaySelect(call: Expr)

  datatype ResultCall =
    | FilterAdded(filter: string)
    | ColumnAdded(column: string)
    | TopAdded(count: int)
    | PostProcessingAdded(step: PostProcessing)

  class TranslationLog {
    var calls: seq<ResultCall>

    constructor ()
      ensures calls == []
    {
      calls := [];
    }

    method AddFilter(filter: string)
      modifies this
      ensures calls == old(calls) + [FilterAdded(filter)]
    {
      calls := calls + [FilterAdded(filter)];
    }

    method AddColumn(column: string)
      modifies this
      ensures calls == old(calls) + [ColumnAdded(column)]
    {
      calls := calls + [ColumnAdded(column)];
    }

    method AddTop(count: int)
      modifies this
      ensures calls == old(calls) + [TopAdded(count)]
    {
      calls := calls + [TopAdded(count)];
    }

    method AddPostProcessing(step: PostProcessing)
      modifies this
      ensures calls == old(calls) + [PostProcessingAdded(step)]
    {
      calls := calls + [PostProcessingAdded(step)];
    }
  }

  /**
   * What a translator does to the shared result: the calls it made, in order,
   * and the exception that stopped it, if one did. Calls made before an
   * exception stay recorded.
   */
  datatype Effect = Effect(calls: seq<ResultCall>, error: Option<Exception>)

  /** The effect of a step that either makes all its calls or throws before making any. */
  function EffectOf(r: Result<seq<ResultCall>, Exception>): (e: Effect)
    ensures e.error.None? <==> r.Ok?
    ensures r.Ok? ==> e.calls == r.value
    ensures r.Err? ==> e.calls == [] && e.error == Some(r.error)
  {
    if r.Ok? then Effect(r.value, None) else Effect([], Some(r.error))
  }

  /** Running one step after another: the second runs only when the first did not throw. */
  function Then(a: Effect, b: Effect): Effect
  {
    if a.error.Some? then a else Effect(a.calls + b.calls, b.error)
  }

  /** The outcome a caller observes. */
  function Status(e: Effect): Outcome<Exception>
  {
    if e.error.Some? then Fail(e.error.value) else Pass
  }

  lemma ThenAssociative(a: Effect, b: Effect, c: Effect)
    ensures Then(Then(a, b), c) == Then(a, Then(b, c))
  {
    if a.error.None? && b.error.None? {
      assert (a.calls + b.calls) + c.calls == a.calls + (b.calls + c.calls);
    }
  }
}
