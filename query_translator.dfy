/**
 * The query translator: a registry of operator translators keyed by operator
 * name, and the walk over a chain of operator calls that dispatches each call,
 * outermost first, and then descends into the arguments that are calls.
 */
module QueryTranslator {
  import opened Wrappers
  import opened Expressions
  import opened TranslationResult
  import opened MethodTranslators
  import ET = ExpressionTranslator

  datatype QueryTranslator = QueryTranslator(methodTranslators: map<string, Translator>)

  /** `ToDictionary` keyed by name: the translators in order, refusing a name seen before. */
  function Registry(translators: seq<Translator>): Result<map<string, Translator>, Exception>
  {
    if translators == [] then Ok(map[])
    else
      var registry :- Registry(translators[..|translators| - 1]);
      var last := translators[|translators| - 1];
      if Name(last) in registry then Err(ArgumentException)
      else Ok(registry[Name(last) := last])
  }

  /** Builds the translator from its operator translators. */
  function NewQueryTranslator(translators: seq<Translator>): Result<QueryTranslator, Exception>
  {
    var registry :- Registry(translators);
    Ok(QueryTranslator(registry))
  }

  /** The operator translators the default translator is built from. */
  function GetTranslators(names: map<string, string>): seq<Translator>
  {
    [ WhereTranslator(names),
      FirstTranslator(names),
      FirstOrDefaultTranslator(names),
      SingleTranslator(names),
      SingleOrDefaultTranslator(names),
      SelectTranslator(names),
      TakeTranslator ]
  }

  /** No two translators share a name. */
  predicate DistinctNames(translators: seq<Translator>)
  {
    forall i, j :: 0 <= i < j < |translators| ==> Name(translators[i]) != Name(translators[j])
  }

  /** The effect of handing one call to its translator, or of refusing it. */
  function DispatchEffect(qt: QueryTranslator, rt: Runtime, call: Expr): Effect
    requires call.CallExpr?
  {
    if call.declaringType != QueryableType then Effect([], Some(NotSupportedException))
    else if call.methodName !in qt.methodTranslators then Effect([], Some(NotSupportedException))
    else TranslatorEffect(qt.methodTranslators[call.methodName], rt, call)
  }

  /** The effect of translating an expression: nothing for a non-call; the call, then its call arguments in order. */
  function ChainEffect(qt: QueryTranslator, rt: Runtime, e: Expr): Effect
    decreases Size(e), 1
  {
    if !e.CallExpr? then Effect([], None)
    else Then(DispatchEffect(qt, rt, e), ArgumentsEffect(qt, rt, e.args))
  }

  function ArgumentsEffect(qt: QueryTranslator, rt: Runtime, args: seq<Expr>): Effect
    decreases SizeAll(args), 2
  {
    if args == [] then Effect([], None)
    else Then(ChainEffect(qt, rt, args[0]), ArgumentsEffect(qt, rt, args[1..]))
  }

  // ---------------------------------------------------------------------------
  // Facts about the registry and the walk
  // ---------------------------------------------------------------------------

  /** The translators' names, in order. */
  function Names(translators: seq<Translator>): (ns: seq<string>)
    ensures |ns| == |translators|
    ensures forall i :: 0 <= i < |translators| ==> ns[i] == Name(translators[i])
  {
    if translators == [] then [] else Names(translators[..|translators| - 1]) + [Name(translators[|translators| - 1])]
  }

  /** One step of `ToDictionary`: the last translator is added to the registry of the others, or refused. */
  lemma RegistrySnoc(translators: seq<Translator>)
    requires translators != []
    ensures var init, last := translators[..|translators| - 1], translators[|translators| - 1];
      && (Registry(init).Err? ==> Registry(translators) == Err(Registry(init).error))
      && (Registry(init).Ok? && Name(last) in Registry(init).value ==> Registry(translators) == Err(ArgumentException))
      && (Registry(init).Ok? && Name(last) !in Registry(init).value ==>
            Registry(translators) == Ok(Registry(init).value[Name(last) := last]))
  {
  }

  /** A built registry holds a key exactly when some translator has that name. */
  lemma {:induction false} RegistryKeys(translators: seq<Translator>)
    requires Registry(translators).Ok?
    ensures forall k :: k in Registry(translators).value <==> k in Names(translators)
  {
    if translators != [] {
      var init, last := translators[..|translators| - 1], translators[|translators| - 1];
      RegistrySnoc(translators);
      RegistryKeys(init);
      assert Names(translators) == Names(init) + [Name(last)];
    }
  }

  /** A built registry maps each translator's name to that translator. */
  lemma {:induction false} RegistryValues(translators: seq<Translator>)
    requires Registry(translators).Ok?
    ensures forall i :: 0 <= i < |translators| ==>
      Name(translators[i]) in Registry(translators).value && Registry(translators).value[Name(translators[i])] == translators[i]
  {
    if translators != [] {
      var init, last := translators[..|translators| - 1], translators[|translators| - 1];
      RegistrySnoc(translators);
      RegistryValues(init);
      forall i | 0 <= i < |init|
        ensures translators[i] == init[i]
      {
      }
    }
  }

  /** A built registry comes from translators with distinct names. */
  lemma {:induction false} RegistryBuiltHasDistinctNames(translators: seq<Translator>)
    requires Registry(translators).Ok?
    ensures DistinctNames(translators)
  {
    if translators != [] {
      var init, last := translators[..|translators| - 1], translators[|translators| - 1];
      RegistrySnoc(translators);
      RegistryBuiltHasDistinctNames(init);
      RegistryValues(init);
      forall i, j | 0 <= i < j < |translators|
        ensures Name(translators[i]) != Name(translators[j])
      {
        assert translators[i] == init[i];
        if j < |init| {
          assert translators[j] == init[j];
        }
      }
    }
  }

  /** Translators with distinct names always build a registry. */
  lemma {:induction false} DistinctNamesBuildRegistry(translators: seq<Translator>)
    requires DistinctNames(translators)
    ensures Registry(translators).Ok?
  {
    if translators != [] {
      var init, last := translators[..|translators| - 1], translators[|translators| - 1];
      RegistrySnoc(translators);
      assert DistinctNames(init) by {
        forall i, j | 0 <= i < j < |init|
          ensures Name(init[i]) != Name(init[j])
        {
          assert init[i] == translators[i] && init[j] == translators[j];
        }
      }
      DistinctNamesBuildRegistry(init);
      RegistryKeys(init);
      forall i | 0 <= i < |init|
        ensures Names(init)[i] != Name(last)
      {
        assert init[i] == translators[i];
      }
      assert Name(last) !in Names(init);
    }
  }

  /** The only exception building the registry throws is `ArgumentException`. */
  lemma {:induction false} RegistryRefusalIsArgument(translators: seq<Translator>)
    requires Registry(translators).Err?
    ensures Registry(translators).error == ArgumentException
  {
    var init := translators[..|translators| - 1];
    RegistrySnoc(translators);
    if Registry(init).Err? {
      RegistryRefusalIsArgument(init);
    }
  }

  /** The registry is built exactly when the names are distinct, and fails with `ArgumentException` otherwise. */
  lemma RegistryBuiltIffDistinct(translators: seq<Translator>)
    ensures Registry(translators).Ok? <==> DistinctNames(translators)
    ensures Registry(translators).Err? ==> Registry(translators).error == ArgumentException
  {
    if Registry(translators).Ok? {
      RegistryBuiltHasDistinctNames(translators);
    } else {
      RegistryRefusalIsArgument(translators);
      if DistinctNames(translators) {
        DistinctNamesBuildRegistry(translators);
      }
    }
  }

  /** A built registry holds every translator under its own name, and nothing else. */
  lemma RegistryHoldsEach(translators: seq<Translator>)
    requires Registry(translators).Ok?
    ensures forall k :: k in Registry(translators).value <==> k in Names(translators)
    ensures forall i :: 0 <= i < |translators| ==> Registry(translators).value[Name(translators[i])] == translators[i]
  {
    RegistryKeys(translators);
    RegistryValues(translators);
  }

  /** Every registered translator is registered under its own name. */
  lemma RegisteredUnderOwnName(translators: seq<Translator>, key: string)
    requires Registry(translators).Ok? && key in Registry(translators).value
    ensures Name(Registry(translators).value[key]) == key
  {
    RegistryHoldsEach(translators);
    var i :| 0 <= i < |translators| && Names(translators)[i] == key;
  }

  /** The default translators' names, in order. */
  lemma DefaultNames(names: map<string, string>)
    ensures Names(GetTranslators(names)) == ["Where", "First", "FirstOrDefault", "Single", "SingleOrDefault", "Select", "Take"]
  {
  }

  /** The seven default translators have seven different names. */
  lemma DefaultNamesDistinct(names: map<string, string>)
    ensures DistinctNames(GetTranslators(names))
  {
    var ts := GetTranslators(names);
    var ns := Names(ts);
    DefaultNames(names);
    forall i, j | 0 <= i < j < |ts|
      ensures Name(ts[i]) != Name(ts[j])
    {
      assert Name(ts[i]) == ns[i] && Name(ts[j]) == ns[j];
    }
  }

  /** The operator names the default registry is keyed by. */
  const DefaultOperators: set<string> := {"Where", "First", "FirstOrDefault", "Single", "SingleOrDefault", "Select", "Take"}

  /** The default registry's keys are exactly the seven supported operators. */
  lemma DefaultRegistryKeys(names: map<string, string>)
    ensures Registry(GetTranslators(names)).Ok?
    ensures Registry(GetTranslators(names)).value.Keys == DefaultOperators
  {
    var ts := GetTranslators(names);
    DefaultNamesDistinct(names);
    DistinctNamesBuildRegistry(ts);
    RegistryKeys(ts);
    DefaultNames(names);
    var ns := Names(ts);
    forall k | k in DefaultOperators
      ensures k in ns
    {
    }
  }

  /** The default registry holds exactly the seven supported operators, each under its name. */
  lemma DefaultRegistry(names: map<string, string>)
    ensures NewQueryTranslator(GetTranslators(names)).Ok?
    ensures var registry := NewQueryTranslator(GetTranslators(names)).value.methodTranslators;
      && registry.Keys == DefaultOperators
      && registry["Where"] == WhereTranslator(names)
      && registry["First"] == FirstTranslator(names)
      && registry["FirstOrDefault"] == FirstOrDefaultTranslator(names)
      && registry["Single"] == SingleTranslator(names)
      && registry["SingleOrDefault"] == SingleOrDefaultTranslator(names)
      && registry["Select"] == SelectTranslator(names)
      && registry["Take"] == TakeTranslator
  {
    var ts := GetTranslators(names);
    DefaultRegistryKeys(names);
    RegistryValues(ts);
    assert Name(ts[0]) == "Where" && Name(ts[1]) == "First" && Name(ts[2]) == "FirstOrDefault";
    assert Name(ts[3]) == "Single" && Name(ts[4]) == "SingleOrDefault";
    assert Name(ts[5]) == "Select" && Name(ts[6]) == "Take";
  }

  /** Translating anything but a call leaves the result as it was. */
  lemma NonCallUnchanged(qt: QueryTranslator, rt: Runtime, e: Expr)
    requires !e.CallExpr?
    ensures ChainEffect(qt, rt, e) == Effect([], None)
  {
  }

  /** A call from outside `System.Linq.Queryable` is refused before any translator runs. */
  lemma ForeignCallRefused(qt: QueryTranslator, rt: Runtime, e: Expr)
    requires e.CallExpr? && e.declaringType != QueryableType
    ensures ChainEffect(qt, rt, e) == Effect([], Some(NotSupportedException))
  {
  }

  /** An operator without a registered translator is refused. */
  lemma UnknownOperatorRefused(qt: QueryTranslator, rt: Runtime, e: Expr)
    requires e.CallExpr? && e.declaringType == QueryableType && e.methodName !in qt.methodTranslators
    ensures ChainEffect(qt, rt, e) == Effect([], Some(NotSupportedException))
  {
  }

  /** Arguments that are not calls contribute nothing to the walk. */
  lemma {:induction false} OnlyCallArgumentsCount(qt: QueryTranslator, rt: Runtime, args: seq<Expr>)
    requires forall i :: 0 <= i < |args| ==> !args[i].CallExpr?
    ensures ArgumentsEffect(qt, rt, args) == Effect([], None)
    decreases |args|
  {
    if args != [] {
      OnlyCallArgumentsCount(qt, rt, args[1..]);
    }
  }

  /**
   * `source.Where(p).First()` with the default registry: `First` translates the
   * predicate of its inner `Where` call, and the walk then visits that call and
   * translates it again, so the filter is recorded twice.
   */
  lemma WhereThenFirstFiltersTwice(rt: Runtime, names: map<string, string>, source: Expr, lambda: Expr, f: string)
    requires !source.CallExpr?
    requires ET.FilterCalls(rt, names, CallExpr(QueryableType, "Where", None, [source, lambda])) == Ok([FilterAdded(f)])
    ensures var where := CallExpr(QueryableType, "Where", None, [source, lambda]);
      var first := CallExpr(QueryableType, "First", None, [where]);
      && NewQueryTranslator(GetTranslators(names)).Ok?
      && ChainEffect(NewQueryTranslator(GetTranslators(names)).value, rt, first) ==
        Effect([FilterAdded(f), PostProcessingAdded(ReplayOperator("First")), TopAdded(1), FilterAdded(f)], None)
  {
    var where := CallExpr(QueryableType, "Where", None, [source, lambda]);
    var first := CallExpr(QueryableType, "First", None, [where]);
    DefaultRegistry(names);
    var qt := NewQueryTranslator(GetTranslators(names)).value;
    assert DispatchEffect(qt, rt, first) ==
      Effect([FilterAdded(f), PostProcessingAdded(ReplayOperator("First")), TopAdded(1)], None);
    assert DispatchEffect(qt, rt, where) == Effect([FilterAdded(f)], None);
    assert [where][1..] == [];
    assert ArgumentsEffect(qt, rt, [source, lambda]) == Effect([], None) by {
      assert !lambda.CallExpr? by {
        assert ET.Unquoted(lambda).LambdaExpr?;
      }
      OnlyCallArgumentsCount(qt, rt, [source, lambda]);
    }
    assert ChainEffect(qt, rt, where) == Effect([FilterAdded(f)], None);
    assert ArgumentsEffect(qt, rt, [where]) == Effect([FilterAdded(f)], None);
  }

  lemma {:induction false} ElementSmaller(es: seq<Expr>, i: nat)
    requires i < |es|
    ensures Size(es[i]) <= SizeAll(es)
  {
    if i > 0 {
      ElementSmaller(es[1..], i - 1);
    }
  }

  // ---------------------------------------------------------------------------
  // The walk, writing into the shared result
  // ---------------------------------------------------------------------------

  method Translate(qt: QueryTranslator, rt: Runtime, expression: Expr, result: TranslationLog) returns (r: Outcome<Exception>)
    modifies result
    decreases Size(expression)
    ensures result.calls == old(result.calls) + ChainEffect(qt, rt, expression).calls
    ensures r == Status(ChainEffect(qt, rt, expression))
  {
    if !expression.CallExpr? {
      return Pass;
    }
    r := VisitMethodCall(qt, rt, expression, result);
    if r.Fail? {
      return;
    }
    var args := expression.args;
    ghost var done := DispatchEffect(qt, rt, expression);
    assert args[0..] == args;
    for i := 0 to |args|
      invariant r == Pass && done.error.None?
      invariant result.calls == old(result.calls) + done.calls
      invariant Then(done, ArgumentsEffect(qt, rt, args[i..])) == ChainEffect(qt, rt, expression)
    {
      assert args[i..][1..] == args[i + 1..];
      ghost var step := ChainEffect(qt, rt, args[i]);
      ThenAssociative(done, step, ArgumentsEffect(qt, rt, args[i + 1..]));
      if args[i].CallExpr? {
        ElementSmaller(args, i);
        r := Translate(qt, rt, args[i], result);
        if r.Fail? {
          return;
        }
      }
      done := Then(done, step);
    }
    assert args[|args|..] == [];
  }

  method VisitMethodCall(qt: QueryTranslator, rt: Runtime, call: Expr, result: TranslationLog) returns (r: Outcome<Exception>)
    requires call.CallExpr?
    modifies result
    ensures result.calls == old(result.calls) + DispatchEffect(qt, rt, call).calls
    ensures r == Status(DispatchEffect(qt, rt, call))
  {
    if call.declaringType != QueryableType {
      return Fail(NotSupportedException);
    }
    if call.methodName !in qt.methodTranslators {
      return Fail(NotSupportedException);
    }
    var translator := qt.methodTranslators[call.methodName];
    r := MethodTranslators.Translate(translator, rt, call, result);
  }
}
