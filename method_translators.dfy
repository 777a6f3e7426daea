/**
 * The operator translators: one per supported query operator, each checking the
 * call it is handed and writing into the shared translation result. `Where`
 * delegates to the expression translator; `Select` records projected columns;
 * `Take` records a row cap; `First`, `FirstOrDefault`, `Single` and
 * `SingleOrDefault` share one base behaviour and then install a cap of their own.
 *
 * Each translator is a value (its fields are never reassigned); what it does to
 * the result is given by a function to an `Effect`, and the methods that write
 * into a `TranslationLog` are proved to make exactly those calls.
 */
module MethodTranslators {
  import opened Wrappers
  import opened Expressions
  import opened TranslationResult
  import ET = ExpressionTranslator

  datatype Translator =
    | WhereTranslator(nameChanges: map<string, string>)
    | SelectTranslator(nameChanges: map<string, string>)
    | TakeTranslator
      /** A subclass of the shared base: its operator name and the cap it installs afterwards. */
    | CappedTranslator(nameChanges: map<string, string>, methodName: string, cap: int)

  function FirstTranslator(nameChanges: map<string, string>): Translator
  {
    CappedTranslator(nameChanges, "First", 1)
  }

  function FirstOrDefaultTranslator(nameChanges: map<string, string>): Translator
  {
    CappedTranslator(nameChanges, "FirstOrDefault", 1)
  }

  function SingleTranslator(nameChanges: map<string, string>): Translator
  {
    CappedTranslator(nameChanges, "Single", 2)
  }

  function SingleOrDefaultTranslator(nameChanges: map<string, string>): Translator
  {
    CappedTranslator(nameChanges, "SingleOrDefault", 2)
  }

  /** The operator name a translator is registered under. */
  function Name(t: Translator): string
  {
    match t
    case WhereTranslator(_) => "Where"
    case SelectTranslator(_) => "Select"
    case TakeTranslator => "Take"
    case CappedTranslator(_, methodName, _) => methodName
  }

  /** What every translator does with a call of another name. */
  function Rejected(): Effect
  {
    Effect([], Some(ArgumentOutOfRangeException))
  }

  // ---------------------------------------------------------------------------
  // Where
  // ---------------------------------------------------------------------------

  function WhereEffect(rt: Runtime, names: map<string, string>, call: Expr): Effect
    requires call.CallExpr?
  {
    if call.methodName != "Where" then Rejected()
    else EffectOf(ET.FilterCalls(rt, names, call))
  }

  // ---------------------------------------------------------------------------
  // Select
  // ---------------------------------------------------------------------------

  /** One column per binding, in binding order, each under its mapped name. */
  function BindingColumns(names: map<string, string>, bindings: seq<Binding>): (cs: seq<ResultCall>)
    ensures |cs| == |bindings|
    ensures forall j :: 0 <= j < |bindings| ==> cs[j] == ColumnAdded(ET.MappedName(names, bindings[j].member))
  {
    if bindings == [] then []
    else BindingColumns(names, bindings[..|bindings| - 1]) + [ColumnAdded(ET.MappedName(names, bindings[|bindings| - 1].member))]
  }

  /** The constructor arguments' columns, in order; the first argument that is not a member access fails the cast. */
  function ArgumentColumns(names: map<string, string>, args: seq<Expr>): Effect
  {
    if args == [] then Effect([], None)
    else
      var previous := ArgumentColumns(names, args[..|args| - 1]);
      var last := args[|args| - 1];
      if previous.error.Some? then previous
      else if !last.MemberExpr? then Effect(previous.calls, Some(InvalidCastException))
      else Effect(previous.calls + [ColumnAdded(ET.MappedName(names, last.member))], None)
  }

  function SelectEffect(names: map<string, string>, call: Expr): Effect
    requires call.CallExpr?
  {
    if call.methodName != "Select" || |call.args| != 2 then Rejected()
    else
      var lambda := ET.Unquoted(call.args[1]);
      if !lambda.LambdaExpr? then Effect([], Some(InvalidCastException))
      else
        var marker := Effect([PostProcessingAdded(ReplaySelect(call))], None);
        match lambda.body
        case MemberInitExpr(_, bindings) => Then(Effect(BindingColumns(names, bindings), None), marker)
        case NewExpr(args) => Then(ArgumentColumns(names, args), marker)
        case _ => Effect([], Some(NotSupportedException))
  }

  // ---------------------------------------------------------------------------
  // Take
  // ---------------------------------------------------------------------------

  /** The cap is the second argument, which must be a constant holding a boxed integer. */
  function TakeEffect(call: Expr): Effect
    requires call.CallExpr?
  {
    if call.methodName != "Take" || |call.args| != 2 then Rejected()
    else if !call.args[1].ConstantExpr? then Effect([], Some(InvalidCastException))
    else
      match call.args[1].value
      case Int(n) => Effect([TopAdded(n)], None)
      case NullValue => Effect([], Some(NullReferenceException))
      case _ => Effect([], Some(InvalidCastException))
  }

  // ---------------------------------------------------------------------------
  // The shared base and its four subclasses
  // ---------------------------------------------------------------------------

  /** The call whose predicate is translated: the sole argument when that is a call, else the call itself. */
  function TargetCall(call: Expr): (target: Expr)
    requires call.CallExpr?
    ensures target.CallExpr?
    ensures target == call || (|call.args| == 1 && target == call.args[0])
  {
    if |call.args| == 1 && call.args[0].CallExpr? then call.args[0] else call
  }

  function BaseEffect(rt: Runtime, names: map<string, string>, methodName: string, call: Expr): Effect
    requires call.CallExpr?
  {
    if call.methodName != methodName then Rejected()
    else Then(EffectOf(ET.FilterCalls(rt, names, TargetCall(call))), EffectOf(ET.PostProcessingCalls(call)))
  }

  function CappedEffect(rt: Runtime, names: map<string, string>, methodName: string, cap: int, call: Expr): Effect
    requires call.CallExpr?
  {
    Then(BaseEffect(rt, names, methodName, call), Effect([TopAdded(cap)], None))
  }

  function TranslatorEffect(t: Translator, rt: Runtime, call: Expr): Effect
    requires call.CallExpr?
  {
    match t
    case WhereTranslator(names) => WhereEffect(rt, names, call)
    case SelectTranslator(names) => SelectEffect(names, call)
    case TakeTranslator => TakeEffect(call)
    case CappedTranslator(names, methodName, cap) => CappedEffect(rt, names, methodName, cap, call)
  }

  // ---------------------------------------------------------------------------
  // Facts about the translators
  // ---------------------------------------------------------------------------

  /** Every translator rejects a call of another name, before touching the result. */
  lemma NameChecked(t: Translator, rt: Runtime, call: Expr)
    requires call.CallExpr? && call.methodName != Name(t)
    ensures TranslatorEffect(t, rt, call) == Effect([], Some(ArgumentOutOfRangeException))
  {
  }

  /** `Where` adds at most one filter and nothing else. */
  lemma WhereAddsOnlyAFilter(rt: Runtime, names: map<string, string>, call: Expr)
    requires call.CallExpr?
    ensures var e := WhereEffect(rt, names, call);
      |e.calls| <= 1 && forall j :: 0 <= j < |e.calls| ==> e.calls[j].FilterAdded?
    ensures call.methodName == "Where" && |call.args| != 2 ==> WhereEffect(rt, names, call) == Effect([], None)
  {
    ET.FilterCallsShape(rt, names, call);
  }

  /**
   * The constructor arguments give the columns of their members, in order, up to
   * the first argument that is not a member access, where the cast fails.
   */
  lemma {:induction false} ArgumentColumnsInOrder(names: map<string, string>, args: seq<Expr>)
    ensures var e := ArgumentColumns(names, args);
      && (e.error.None? <==> forall j :: 0 <= j < |args| ==> args[j].MemberExpr?)
      && (e.error.None? ==> |e.calls| == |args|)
      && (e.error.Some? ==> e.error == Some(InvalidCastException) && |e.calls| < |args| && !args[|e.calls|].MemberExpr?)
      && |e.calls| <= |args|
      && forall j :: 0 <= j < |e.calls| ==> args[j].MemberExpr? && e.calls[j] == ColumnAdded(ET.MappedName(names, args[j].member))
  {
    if args != [] {
      var init := args[..|args| - 1];
      ArgumentColumnsInOrder(names, init);
      assert forall j :: 0 <= j < |init| ==> init[j] == args[j];
      var previous := ArgumentColumns(names, init);
      if previous.error.None? && args[|args| - 1].MemberExpr? {
        var e := ArgumentColumns(names, args);
        assert e.calls == previous.calls + [ColumnAdded(ET.MappedName(names, args[|args| - 1].member))];
        assert forall j :: 0 <= j < |previous.calls| ==> e.calls[j] == previous.calls[j];
      }
    }
  }

  /**
   * A successful projection records one column per binding or constructor
   * argument, in order, and then exactly one replay marker.
   */
  lemma SelectColumnsThenMarker(names: map<string, string>, call: Expr)
    requires call.CallExpr? && SelectEffect(names, call).error.None?
    ensures var e := SelectEffect(names, call);
      var body := ET.Unquoted(call.args[1]).body;
      && (body.MemberInitExpr? || body.NewExpr?)
      && |e.calls| >= 1
      && e.calls[|e.calls| - 1] == PostProcessingAdded(ReplaySelect(call))
      && (body.MemberInitExpr? ==>
            && |e.calls| == |body.bindings| + 1
            && forall j :: 0 <= j < |body.bindings| ==> e.calls[j] == ColumnAdded(ET.MappedName(names, body.bindings[j].member)))
      && (body.NewExpr? ==>
            && |e.calls| == |body.args| + 1
            && forall j :: 0 <= j < |body.args| ==>
                 body.args[j].MemberExpr? && e.calls[j] == ColumnAdded(ET.MappedName(names, body.args[j].member)))
  {
    var body := ET.Unquoted(call.args[1]).body;
    if body.NewExpr? {
      ArgumentColumnsInOrder(names, body.args);
    }
  }

  /** Any body but a member initialiser or a constructor call is refused, with no column added. */
  lemma SelectRejectsOtherShapes(names: map<string, string>, call: Expr)
    requires call.CallExpr? && call.methodName == "Select" && |call.args| == 2
    requires ET.Unquoted(call.args[1]).LambdaExpr?
    requires !ET.Unquoted(call.args[1]).body.MemberInitExpr? && !ET.Unquoted(call.args[1]).body.NewExpr?
    ensures SelectEffect(names, call) == Effect([], Some(NotSupportedException))
  {
  }

  /** `Take` installs exactly the constant's value as a cap, and records nothing else. */
  lemma TakeRecordsTheCap(call: Expr, n: int)
    requires call.CallExpr? && call.methodName == "Take" && |call.args| == 2 && call.args[1] == ConstantExpr(Int(n))
    ensures TakeEffect(call) == Effect([TopAdded(n)], None)
  {
  }

  lemma TakeNeedsAConstant(call: Expr)
    requires call.CallExpr? && call.methodName == "Take" && |call.args| == 2 && !call.args[1].ConstantExpr?
    ensures TakeEffect(call) == Effect([], Some(InvalidCastException))
  {
  }

  /**
   * A successful `First`, `FirstOrDefault`, `Single` or `SingleOrDefault`: the
   * target call's filter (at most one), then the replay marker, then the cap;
   * so the cap is installed once, last.
   */
  lemma CappedOrder(rt: Runtime, names: map<string, string>, methodName: string, cap: int, call: Expr)
    requires call.CallExpr? && CappedEffect(rt, names, methodName, cap, call).error.None?
    ensures var e := CappedEffect(rt, names, methodName, cap, call);
      var filters := ET.FilterCalls(rt, names, TargetCall(call));
      && call.methodName == methodName
      && filters.Ok? && |filters.value| <= 1
      && e.calls == filters.value + [PostProcessingAdded(ReplayOperator(methodName)), TopAdded(cap)]
      && TopCount(e.calls) == 1
  {
    CappedCalls(rt, names, methodName, cap, call);
    var filters := ET.FilterCalls(rt, names, TargetCall(call)).value;
    FiltersCarryNoCap(rt, names, TargetCall(call));
    var tail := [PostProcessingAdded(ReplayOperator(methodName)), TopAdded(cap)];
    assert TopCount(tail) == 1 by {
      assert tail[1..] == [TopAdded(cap)] && tail[1..][1..] == [];
    }
    TopCountAppend(filters, tail);
  }

  /** A successful capped translation records the filters, the marker and the cap, in that order. */
  lemma CappedCalls(rt: Runtime, names: map<string, string>, methodName: string, cap: int, call: Expr)
    requires call.CallExpr? && CappedEffect(rt, names, methodName, cap, call).error.None?
    ensures call.methodName == methodName && ET.FilterCalls(rt, names, TargetCall(call)).Ok?
    ensures CappedEffect(rt, names, methodName, cap, call).calls
         == ET.FilterCalls(rt, names, TargetCall(call)).value + [PostProcessingAdded(ReplayOperator(methodName)), TopAdded(cap)]
  {
    var filters := ET.FilterCalls(rt, names, TargetCall(call));
    var marker := [PostProcessingAdded(ReplayOperator(methodName))];
    assert filters.value + marker + [TopAdded(cap)] == filters.value + [marker[0], TopAdded(cap)];
  }

  /** The filter a target call contributes is at most one call, and never a cap. */
  lemma FiltersCarryNoCap(rt: Runtime, names: map<string, string>, target: Expr)
    requires target.CallExpr? && ET.FilterCalls(rt, names, target).Ok?
    ensures |ET.FilterCalls(rt, names, target).value| <= 1
    ensures TopCount(ET.FilterCalls(rt, names, target).value) == 0
  {
    var filters := ET.FilterCalls(rt, names, target).value;
    ET.FilterCallsShape(rt, names, target);
    if filters != [] {
      assert filters[1..] == [];
    }
  }

  /** A capped translator whose call has another name throws from the base, and no cap is installed. */
  lemma CappedRejectsWithoutCap(rt: Runtime, names: map<string, string>, methodName: string, cap: int, call: Expr)
    requires call.CallExpr? && call.methodName != methodName
    ensures CappedEffect(rt, names, methodName, cap, call) == Effect([], Some(ArgumentOutOfRangeException))
    ensures TopCount(CappedEffect(rt, names, methodName, cap, call).calls) == 0
  {
  }

  /** `First(Where(source, p))`: the sole argument is a call, so it is that call's predicate that becomes the filter. */
  lemma CappedTranslatesTheInnerCall(rt: Runtime, names: map<string, string>, methodName: string, cap: int, call: Expr)
    requires call.CallExpr? && call.methodName == methodName && |call.args| == 1 && call.args[0].CallExpr?
    requires ET.FilterCalls(rt, names, call.args[0]).Ok?
    ensures CappedEffect(rt, names, methodName, cap, call).calls ==
      ET.FilterCalls(rt, names, call.args[0]).value + [PostProcessingAdded(ReplayOperator(methodName)), TopAdded(cap)]
  {
    assert ET.PostProcessingCalls(call) == Ok([PostProcessingAdded(ReplayOperator(methodName))]);
  }

  /** The four subclasses' names and caps. */
  lemma CapsOfTheSubclasses(names: map<string, string>)
    ensures Name(FirstTranslator(names)) == "First" && FirstTranslator(names).cap == 1
    ensures Name(FirstOrDefaultTranslator(names)) == "FirstOrDefault" && FirstOrDefaultTranslator(names).cap == 1
    ensures Name(SingleTranslator(names)) == "Single" && SingleTranslator(names).cap == 2
    ensures Name(SingleOrDefaultTranslator(names)) == "SingleOrDefault" && SingleOrDefaultTranslator(names).cap == 2
  {
  }

  /** How many of the recorded calls install a row cap. */
  function TopCount(cs: seq<ResultCall>): nat
  {
    if cs == [] then 0 else (if cs[0].TopAdded? then 1 else 0) + TopCount(cs[1..])
  }

  lemma {:induction false} TopCountAppend(a: seq<ResultCall>, b: seq<ResultCall>)
    ensures TopCount(a + b) == TopCount(a) + TopCount(b)
  {
    if a == [] {
      assert a + b == b;
    } else {
      assert (a + b)[1..] == a[1..] + b;
      TopCountAppend(a[1..], b);
    }
  }

  // ---------------------------------------------------------------------------
  // The translators, writing into the shared result
  // ---------------------------------------------------------------------------

  method Translate(t: Translator, rt: Runtime, call: Expr, result: TranslationLog) returns (r: Outcome<Exception>)
    requires call.CallExpr?
    modifies result
    ensures result.calls == old(result.calls) + TranslatorEffect(t, rt, call).calls
    ensures r == Status(TranslatorEffect(t, rt, call))
  {
    match t
    case WhereTranslator(names) => r := TranslateWhere(rt, names, call, result);
    case SelectTranslator(names) => r := TranslateSelect(names, call, result);
    case TakeTranslator => r := TranslateTake(call, result);
    case CappedTranslator(names, methodName, cap) => r := TranslateCapped(rt, names, methodName, cap, call, result);
  }

  method TranslateWhere(rt: Runtime, names: map<string, string>, call: Expr, result: TranslationLog) returns (r: Outcome<Exception>)
    requires call.CallExpr?
    modifies result
    ensures result.calls == old(result.calls) + WhereEffect(rt, names, call).calls
    ensures r == Status(WhereEffect(rt, names, call))
  {
    if call.methodName != "Where" {
      return Fail(ArgumentOutOfRangeException);
    }
    var translator := new ET.ExpressionTranslator(rt, names);
    r := translator.Translate(result, call);
  }

  /** Records a projected column under its mapped name. */
  method AddColumn(names: map<string, string>, parameterName: string, result: TranslationLog)
    modifies result
    ensures result.calls == old(result.calls) + [ColumnAdded(ET.MappedName(names, parameterName))]
  {
    var name := parameterName;
    if parameterName in names {
      name := names[parameterName];
    }
    result.AddColumn(name);
  }

  method TranslateSelect(names: map<string, string>, call: Expr, result: TranslationLog) returns (r: Outcome<Exception>)
    requires call.CallExpr?
    modifies result
    ensures result.calls == old(result.calls) + SelectEffect(names, call).calls
    ensures r == Status(SelectEffect(names, call))
  {
    if call.methodName != "Select" || |call.args| != 2 {
      return Fail(ArgumentOutOfRangeException);
    }
    var lambda := ET.StripQuotes(call.args[1]);
    if !lambda.LambdaExpr? {
      return Fail(InvalidCastException);
    }
    var body := lambda.body;
    if body.MemberInitExpr? {
      AddBindingColumns(names, body.bindings, result);
    } else if body.NewExpr? {
      var columns := AddArgumentColumns(names, body.args, result);
      if columns.Fail? {
        return columns;
      }
    } else {
      return Fail(NotSupportedException);
    }
    result.AddPostProcessing(ReplaySelect(call));
    r := Pass;
  }

  /** Adds the column of each member initialiser, in order. */
  method AddBindingColumns(names: map<string, string>, bindings: seq<Binding>, result: TranslationLog)
    modifies result
    ensures result.calls == old(result.calls) + BindingColumns(names, bindings)
  {
    var i := 0;
    while i < |bindings|
      invariant 0 <= i <= |bindings|
      invariant result.calls == old(result.calls) + BindingColumns(names, bindings[..i])
    {
      AddColumn(names, bindings[i].member, result);
      assert bindings[..i + 1][..i] == bindings[..i];
      i := i + 1;
    }
    assert bindings[..i] == bindings;
  }

  /** Adds the column of each constructor argument, in order, stopping at the first that is not a member access. */
  method AddArgumentColumns(names: map<string, string>, args: seq<Expr>, result: TranslationLog) returns (r: Outcome<Exception>)
    modifies result
    ensures result.calls == old(result.calls) + ArgumentColumns(names, args).calls
    ensures r == Status(ArgumentColumns(names, args))
  {
    var i := 0;
    while i < |args|
      invariant 0 <= i <= |args|
      invariant ArgumentColumns(names, args[..i]).error.None?
      invariant result.calls == old(result.calls) + ArgumentColumns(names, args[..i]).calls
    {
      assert args[..i + 1][..i] == args[..i];
      if !args[i].MemberExpr? {
        ArgumentColumnsFailure(names, args, i);
        return Fail(InvalidCastException);
      }
      AddColumn(names, args[i].member, result);
      i := i + 1;
    }
    assert args[..i] == args;
    return Pass;
  }

  /** Once the cast has failed, later arguments add nothing. */
  lemma {:induction false} ArgumentColumnsFailure(names: map<string, string>, args: seq<Expr>, i: nat)
    requires i < |args| && ArgumentColumns(names, args[..i]).error.None? && !args[i].MemberExpr?
    ensures ArgumentColumns(names, args) == Effect(ArgumentColumns(names, args[..i]).calls, Some(InvalidCastException))
    decreases |args| - i
  {
    if i + 1 == |args| {
      assert args[..|args| - 1] == args[..i];
    } else {
      var init := args[..|args| - 1];
      assert init[..i] == args[..i];
      ArgumentColumnsFailure(names, init, i);
    }
  }

  method TranslateTake(call: Expr, result: TranslationLog) returns (r: Outcome<Exception>)
    requires call.CallExpr?
    modifies result
    ensures result.calls == old(result.calls) + TakeEffect(call).calls
    ensures r == Status(TakeEffect(call))
  {
    if call.methodName != "Take" || |call.args| != 2 {
      return Fail(ArgumentOutOfRangeException);
    }
    var constant := call.args[1];
    if !constant.ConstantExpr? {
      return Fail(InvalidCastException);
    }
    match constant.value
    case Int(n) =>
      result.AddTop(n);
      r := Pass;
    case NullValue => r := Fail(NullReferenceException);
    case _ => r := Fail(InvalidCastException);
  }

  /** The shared base: name check, choice of the target call, its filter, then the replay marker. */
  method TranslateBase(rt: Runtime, names: map<string, string>, methodName: string, call: Expr, result: TranslationLog)
    returns (r: Outcome<Exception>)
    requires call.CallExpr?
    modifies result
    ensures result.calls == old(result.calls) + BaseEffect(rt, names, methodName, call).calls
    ensures r == Status(BaseEffect(rt, names, methodName, call))
  {
    if call.methodName != methodName {
      return Fail(ArgumentOutOfRangeException);
    }
    var translator := new ET.ExpressionTranslator(rt, names);
    var targetMethod := call;
    if |call.args| == 1 && call.args[0].CallExpr? {
      targetMethod := call.args[0];
    }
    r := translator.Translate(result, targetMethod);
    if r.Fail? {
      return;
    }
    r := translator.AddPostProcessing(result, call);
  }

  /** `First`, `FirstOrDefault`, `Single`, `SingleOrDefault`: the base, then the cap. */
  method TranslateCapped(rt: Runtime, names: map<string, string>, methodName: string, cap: int, call: Expr, result: TranslationLog)
    returns (r: Outcome<Exception>)
    requires call.CallExpr?
    modifies result
    ensures result.calls == old(result.calls) + CappedEffect(rt, names, methodName, cap, call).calls
    ensures r == Status(CappedEffect(rt, names, methodName, cap, call))
  {
    r := TranslateBase(rt, names, methodName, call, result);
    if r.Fail? {
      return;
    }
    result.AddTop(cap);
  }
}
