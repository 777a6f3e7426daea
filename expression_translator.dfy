/**
 * The predicate-to-filter compiler: a visitor that renders an expression tree
 * into the table service's infix filter grammar by appending to (and cutting
 * from) one text buffer, and the parenthesis clean-up pass run on the result.
 *
 * The functions below give the meaning of each visitor routine as a map from the
 * buffer before the call to the buffer after it (or the exception thrown); the
 * class `ExpressionTranslator` at the end is the imperative visitor, proved to
 * agree with them.
 */
module ExpressionTranslator {
  import opened Wrappers
  import opened Expressions
  import opened TranslationResult

  /** The wire name of a member: its entry in the name-mapping table, or the name itself. */
  function MappedName(names: map<string, string>, member: string): string
  {
    if member in names then names[member] else member
  }

  // ---------------------------------------------------------------------------
  // Quote stripping
  // ---------------------------------------------------------------------------

  /** The expression under every enclosing quote node. */
  function Unquoted(e: Expr): Expr
  {
    match e
    case UnaryExpr(uop, operand) => if uop == Quote then Unquoted(operand) else e
    case _ => e
  }

  // ---------------------------------------------------------------------------
  // Parenthesis clean-up (TrimString)
  // ---------------------------------------------------------------------------

  /** The character the clean-up pass uses to mark, and then drop, positions. */
  const Marker: char := '$'

  /**
   * The stack of open-parenthesis positions after the clean-up pass has scanned
   * the first `k` characters of `s`, or the exception the scan throws there: a
   * `)` with nothing to pop, or a `)` at the very end whose partner follows a `(`
   * (the lookahead past the end of the buffer).
   */
  function StackAfter(s: string, k: nat): (r: Result<seq<nat>, Exception>)
    requires k <= |s|
    ensures r.Ok? ==> forall j :: 0 <= j < |r.value| ==> r.value[j] < k
  {
    if k == 0 then Ok([])
    else
      var stack :- StackAfter(s, k - 1);
      var i := k - 1;
      if s[i] == '(' then Ok(stack + [i])
      else if s[i] != ')' then Ok(stack)
      else if stack == [] then Err(InvalidOperationException)
      else
        var start := stack[|stack| - 1];
        if start != 0 && s[start - 1] == '(' && i + 1 >= |s| then Err(IndexOutOfRangeException)
        else Ok(stack[..|stack| - 1])
  }

  /** The first character is a `(` matched by the `)` that is the last character. */
  predicate OuterPair(s: string)
  {
    && |s| >= 2
    && s[|s| - 1] == ')'
    && var stack := StackAfter(s, |s| - 1);
    && stack.Ok? && stack.value != [] && stack.value[|stack.value| - 1] == 0
  }

  function WithoutMarkers(s: string): string
  {
    if s == [] then [] else (if s[0] == Marker then [] else [s[0]]) + WithoutMarkers(s[1..])
  }

  function TrimStart(ws: char -> bool, s: string): (r: string)
    ensures |r| <= |s| && r == s[|s| - |r|..]
  {
    if s != [] && ws(s[0]) then TrimStart(ws, s[1..]) else s
  }

  function TrimEnd(ws: char -> bool, s: string): (r: string)
    ensures |r| <= |s| && r == s[..|r|]
  {
    if s != [] && ws(s[|s| - 1]) then TrimEnd(ws, s[..|s| - 1]) else s
  }

  /** `String.Trim`: drop leading and trailing white space. */
  function Trim(ws: char -> bool, s: string): string
  {
    TrimStart(ws, TrimEnd(ws, s))
  }

  /**
   * What the clean-up pass returns: the input without an outer pair of
   * parentheses, without any marker character, trimmed.
   */
  function Trimmed(ws: char -> bool, s: string): Result<string, Exception>
  {
    var stack :- StackAfter(s, |s|);
    var core := if OuterPair(s) then s[1..|s| - 1] else s;
    Ok(Trim(ws, WithoutMarkers(core)))
  }

  // ---------------------------------------------------------------------------
  // Rendering
  // ---------------------------------------------------------------------------

  /** An operator token with its surrounding spaces. */
  function Token(rt: Runtime, t: NodeType): string
  {
    " " + rt.serializeType(t) + " "
  }

  /** The buffer after a comparison call, and whether it rendered the whole binary node. */
  datatype Rendering = Rendering(text: string, complete: bool)

  predicate ParenthesesRequired(rt: Runtime, e: Expr)
    requires e.BinaryExpr?
  {
    rt.isSupported(Kind(e)) && (rt.isSupported(Kind(e.left)) || rt.isSupported(Kind(e.right)))
  }

  function RenderParameter(names: map<string, string>, node: Expr, buf: string): Result<string, Exception>
  {
    if node.MemberExpr? then Ok(buf + MappedName(names, node.member)) else Err(NotSupportedException)
  }

  function RenderConstant(rt: Runtime, node: Expr, buf: string): Result<string, Exception>
  {
    var c := if node.ConstantExpr? then node else rt.evaluate(node);
    if c.ConstantExpr? then Ok(buf + rt.serializeConstant(c.value)) else Err(InvalidDataException)
  }

  function Render(rt: Runtime, names: map<string, string>, e: Expr, buf: string): Result<string, Exception>
    decreases Size(e), 2
  {
    match e
    case BinaryExpr(_, _, _) => RenderBinary(rt, names, e, buf)
    case UnaryExpr(uop, operand) => Render(rt, names, operand, buf + Token(rt, Unary(uop)))
    case MemberExpr(_, _) => RenderParameter(names, e, buf)
    case CallExpr(_, _, _, _) => RenderMethodCall(rt, names, e, buf)
    case ParameterExpr(_) => Ok(buf)
    case ConstantExpr(_) => Ok(buf)
    case _ => ChildrenSmaller(e); RenderAll(rt, names, Children(e), buf)
  }

  function RenderAll(rt: Runtime, names: map<string, string>, es: seq<Expr>, buf: string): Result<string, Exception>
    decreases SizeAll(es), 3
  {
    if es == [] then Ok(buf)
    else
      var b :- Render(rt, names, es[0], buf);
      RenderAll(rt, names, es[1..], b)
  }

  function RenderBinary(rt: Runtime, names: map<string, string>, e: Expr, buf: string): Result<string, Exception>
    requires e.BinaryExpr?
    decreases Size(e), 1
  {
    var parens := ParenthesesRequired(rt, e);
    var prefix := if parens then buf + "(" else buf;
    if e.left.CallExpr? then
      var left :- RenderBinaryCall(rt, names, e.left, Kind(e), prefix);
      if left.complete then Ok(left.text)
      else RenderRight(rt, names, e, left.text + Token(rt, Kind(e)), parens)
    else
      var left :- RenderBinaryPart(rt, names, e.left, prefix);
      RenderRight(rt, names, e, left + Token(rt, Kind(e)), parens)
  }

  function RenderRight(rt: Runtime, names: map<string, string>, e: Expr, buf: string, parens: bool): Result<string, Exception>
    requires e.BinaryExpr?
    decreases Size(e), 0
  {
    if e.right.CallExpr? then
      var right :- RenderBinaryCall(rt, names, e.right, Kind(e), buf);
      if right.complete then Err(ArgumentException)
      else Ok(if parens then right.text + ")" else right.text)
    else
      var right :- RenderBinaryPart(rt, names, e.right, buf);
      Ok(if parens then right + ")" else right)
  }

  function RenderBinaryPart(rt: Runtime, names: map<string, string>, node: Expr, buf: string): Result<string, Exception>
    decreases Size(node), 3
  {
    match node
    case InvokeExpr(callee, _) => Render(rt, names, callee, buf)
    case NewExpr(_) => RenderConstant(rt, rt.evaluate(node), buf)
    case NewArrayInitExpr(_) => RenderConstant(rt, rt.evaluate(node), buf)
    case ConstantExpr(_) => RenderConstant(rt, rt.evaluate(node), buf)
    case MemberExpr(target, _) =>
      if target.Some? && Kind(target.value) == Parameter then RenderParameter(names, node, buf)
      else RenderConstant(rt, node, buf)
    case UnaryExpr(uop, operand) =>
      if uop == Convert || uop == ConvertChecked then RenderConstant(rt, rt.evaluate(operand), buf)
      else if rt.isSupported(Kind(node)) then Render(rt, names, node, buf)
      else Err(ArgumentException)
    case _ =>
      if rt.isSupported(Kind(node)) then Render(rt, names, node, buf) else Err(ArgumentException)
  }

  function RenderBinaryCall(rt: Runtime, names: map<string, string>, node: Expr, t: NodeType, buf: string): Result<Rendering, Exception>
    requires node.CallExpr?
    decreases Size(node), 3
  {
    if node.methodName == "CompareTo" then
      if node.target.None? then Err(NullReferenceException)
      else
        var b :- RenderParameter(names, rt.evaluate(node.target.value), buf);
        if |node.args| == 0 then Err(ArgumentOutOfRangeException)
        else
          var b' :- RenderConstant(rt, rt.evaluate(node.args[0]), b + Token(rt, t));
          Ok(Rendering(b', true))
    else if node.methodName == "Compare" || node.methodName == "CompareOrdinal" then
      if |node.args| >= 2 then
        var b :- RenderParameter(names, rt.evaluate(node.args[0]), buf);
        var b' :- RenderConstant(rt, rt.evaluate(node.args[1]), b + Token(rt, t));
        Ok(Rendering(b', true))
      else Err(ArgumentException)
    else
      var b :- RenderMethodCall(rt, names, node, buf);
      Ok(Rendering(b, false))
  }

  /** The buffer ends in the negation token that a membership test absorbs. */
  predicate EndsWithNot(buf: string)
  {
    |buf| >= 5 && buf[|buf| - 5..] == " not "
  }

  function Join(parts: seq<string>, sep: string): string
  {
    if |parts| == 0 then "" else if |parts| == 1 then parts[0] else parts[0] + sep + Join(parts[1..], sep)
  }

  /** One comparison `column equality value` per element, in order. */
  function Comparisons(rt: Runtime, column: string, equality: string, values: seq<Value>): (cs: seq<string>)
    ensures |cs| == |values|
    ensures forall k :: 0 <= k < |values| ==> cs[k] == column + equality + rt.serializeConstant(values[k])
  {
    if values == [] then []
    else [column + equality + rt.serializeConstant(values[0])] + Comparisons(rt, column, equality, values[1..])
  }

  /**
   * A membership test over a constant collection: a parenthesised disjunction of
   * comparisons, `ne` instead of `eq` when the buffer ended in ` not ` (which is
   * removed), and nothing at all for an empty collection.
   */
  function RenderContains(rt: Runtime, names: map<string, string>, parameter: Expr, values: seq<Value>, buf: string): Result<string, Exception>
  {
    var negated := EndsWithNot(buf);
    var start := if negated then buf[..|buf| - 5] else buf;
    var equality := if negated then " ne " else " eq ";
    if values == [] then Ok(start)
    else if !parameter.MemberExpr? then Err(NotSupportedException)
    else
      var column := MappedName(names, parameter.member);
      Ok(start + "(" + Join(Comparisons(rt, column, equality, values), " or ") + ")")
  }

  function RenderMethodCall(rt: Runtime, names: map<string, string>, node: Expr, buf: string): Result<string, Exception>
    requires node.CallExpr?
    decreases Size(node), 1
  {
    if node.methodName == "Contains" then
      if |node.args| != 1 then Err(ArgumentException)
      else if node.target.None? then Err(NullReferenceException)
      else
        var c := rt.evaluate(node.target.value);
        if !c.ConstantExpr? then Err(InvalidCastException)
        else
          match rt.enumerate(c.value)
          case None => Err(ArgumentException)
          case Some(values) => RenderContains(rt, names, node.args[0], values, buf)
    else if node.methodName == "ToString" then
      var text := if node.target.Some? then rt.describe(rt.evaluate(node.target.value)) else "";
      RenderConstant(rt, ConstantExpr(Str(text)), buf)
    else
      RenderConstant(rt, rt.evaluate(node), buf)
  }

  // ---------------------------------------------------------------------------
  // The entry points the operator translators call
  // ---------------------------------------------------------------------------

  /**
   * The calls `Translate` makes on the shared result for an operator call: none
   * unless the call has two arguments and its quote-stripped lambda has a
   * non-constant body; otherwise one filter, the cleaned-up rendering of the body.
   */
  function FilterCalls(rt: Runtime, names: map<string, string>, call: Expr): Result<seq<ResultCall>, Exception>
    requires call.CallExpr?
  {
    if |call.args| != 2 then Ok([])
    else
      var lambda := Unquoted(call.args[1]);
      if !lambda.LambdaExpr? then Err(InvalidCastException)
      else if Kind(lambda.body) == Constant then Ok([])
      else
        var rendered :- Render(rt, names, lambda.body, "");
        var filter :- Trimmed(rt.isWhiteSpace, rendered);
        Ok([FilterAdded(filter)])
  }

  /** The calls `AddPostProcessing` makes: one replay marker naming the operator. */
  function PostProcessingCalls(call: Expr): Result<seq<ResultCall>, Exception>
    requires call.CallExpr?
  {
    if |call.args| == 0 then Err(ArgumentOutOfRangeException)
    else Ok([PostProcessingAdded(ReplayOperator(call.methodName))])
  }

  // ---------------------------------------------------------------------------
  // Facts about quote stripping and the clean-up pass
  // ---------------------------------------------------------------------------

  /** Stripping leaves no quote at the top, and stripping again changes nothing. */
  lemma {:induction false} UnquotedIsNotQuoted(e: Expr)
    ensures !(Unquoted(e).UnaryExpr? && Unquoted(e).uop == Quote)
    ensures Unquoted(Unquoted(e)) == Unquoted(e)
  {
    match e
    case UnaryExpr(uop, operand) =>
      if uop == Quote { UnquotedIsNotQuoted(operand); }
    case _ =>
  }

  /** Once the scan has thrown, it has thrown for every longer prefix too. */
  lemma {:induction false} StackErrorPersists(s: string, k: nat, m: nat)
    requires k <= m <= |s|
    requires StackAfter(s, k).Err?
    ensures StackAfter(s, m) == StackAfter(s, k)
  {
    if m > k { StackErrorPersists(s, k, m - 1); }
  }

  lemma {:induction false} WithoutMarkersAppend(a: string, b: string)
    ensures WithoutMarkers(a + b) == WithoutMarkers(a) + WithoutMarkers(b)
  {
    if a == [] {
      assert a + b == b;
    } else {
      assert (a + b)[1..] == a[1..] + b;
      WithoutMarkersAppend(a[1..], b);
    }
  }

  lemma {:induction false} WithoutMarkersHasNoMarker(s: string)
    ensures Marker !in WithoutMarkers(s)
  {
    if s != [] { WithoutMarkersHasNoMarker(s[1..]); }
  }

  lemma {:induction false} TrimStartKeeps(ws: char -> bool, s: string, c: char)
    requires c in TrimStart(ws, s)
    ensures c in s
  {
    if s != [] && ws(s[0]) { TrimStartKeeps(ws, s[1..], c); }
  }

  lemma {:induction false} TrimEndKeeps(ws: char -> bool, s: string, c: char)
    requires c in TrimEnd(ws, s)
    ensures c in s
  {
    if s != [] && ws(s[|s| - 1]) { TrimEndKeeps(ws, s[..|s| - 1], c); }
  }

  /** Every `$` is dropped, including any inside a rendered literal. */
  lemma TrimmedHasNoMarker(ws: char -> bool, s: string)
    ensures Trimmed(ws, s).Ok? ==> Marker !in Trimmed(ws, s).value
  {
    if Trimmed(ws, s).Ok? && Marker in Trimmed(ws, s).value {
      var core := if OuterPair(s) then s[1..|s| - 1] else s;
      var w := WithoutMarkers(core);
      TrimStartKeeps(ws, TrimEnd(ws, w), Marker);
      TrimEndKeeps(ws, w, Marker);
      WithoutMarkersHasNoMarker(core);
    }
  }

  lemma {:induction false} WithoutMarkersKeepsClean(s: string)
    requires Marker !in s
    ensures WithoutMarkers(s) == s
  {
    if s != [] {
      assert s[0] != Marker && Marker !in s[1..];
      WithoutMarkersKeepsClean(s[1..]);
      assert [s[0]] + s[1..] == s;
    }
  }

  /** Without a marker, an outer pair or white space at either end, the text comes back as it was. */
  lemma CleanTextUnchanged(ws: char -> bool, s: string)
    requires StackAfter(s, |s|).Ok? && !OuterPair(s) && Marker !in s
    requires s != [] ==> !ws(s[0]) && !ws(s[|s| - 1])
    ensures Trimmed(ws, s) == Ok(s)
  {
    WithoutMarkersKeepsClean(s);
  }

  /** An outer pair goes, and nothing else does. */
  lemma OuterPairRemoved(ws: char -> bool, s: string)
    requires StackAfter(s, |s|).Ok? && OuterPair(s) && Marker !in s
    requires |s| > 2 ==> !ws(s[1]) && !ws(s[|s| - 2])
    ensures Trimmed(ws, s) == Ok(s[1..|s| - 1])
  {
    WithoutMarkersKeepsClean(s[1..|s| - 1]);
  }

  /** A `)` reached while no `(` is open makes the pass throw, whatever follows it. */
  lemma UnmatchedCloseAlwaysThrows(ws: char -> bool, s: string, k: nat)
    requires k < |s| && s[k] == ')' && StackAfter(s, k) == Ok([])
    ensures Trimmed(ws, s) == Err(InvalidOperationException)
  {
    StackErrorPersists(s, k + 1, |s|);
  }

  // One step of the scan, for the worked examples below.

  lemma StackOpen(s: string, k: nat, stack: seq<nat>)
    requires k < |s| && StackAfter(s, k) == Ok(stack) && s[k] == '('
    ensures StackAfter(s, k + 1) == Ok(stack + [k])
  {
  }

  lemma StackOther(s: string, k: nat, stack: seq<nat>)
    requires k < |s| && StackAfter(s, k) == Ok(stack) && s[k] != '(' && s[k] != ')'
    ensures StackAfter(s, k + 1) == Ok(stack)
  {
  }

  lemma StackClose(s: string, k: nat, stack: seq<nat>)
    requires k < |s| && StackAfter(s, k) == Ok(stack) && s[k] == ')' && stack != []
    requires var start := stack[|stack| - 1]; !(start != 0 && s[start - 1] == '(' && k + 1 >= |s|)
    ensures StackAfter(s, k + 1) == Ok(stack[..|stack| - 1])
  {
  }

  lemma MiddleRuleOpens(s: string)
    requires s == "((a))"
    ensures StackAfter(s, 3) == Ok([0, 1])
  {
    StackOpen(s, 0, []);
    assert [] + [0] == [0];
    StackOpen(s, 1, [0]);
    assert [0] + [1] == [0, 1];
    StackOther(s, 2, [0, 1]);
  }

  lemma MiddleRuleInnerClose(s: string)
    requires s == "((a))" && StackAfter(s, 3) == Ok([0, 1])
    ensures StackAfter(s, 4) == Ok([0])
  {
    StackClose(s, 3, [0, 1]);
    assert [0, 1][..1] == [0];
  }

  lemma MiddleRuleOuterClose(s: string)
    requires s == "((a))" && StackAfter(s, 4) == Ok([0])
    ensures OuterPair(s) && StackAfter(s, 5) == Ok([])
  {
    StackClose(s, 4, [0]);
    assert [0][..0] == [];
  }

  lemma MiddleRuleCore(ws: char -> bool)
    requires !ws('(') && !ws(')')
    ensures Trim(ws, WithoutMarkers("(a)")) == "(a)"
  {
    assert WithoutMarkers("(a)") == "(a)" by {
      assert "(a)"[1..] == "a)";
      assert "a)"[1..] == ")";
      assert ")"[1..] == "";
    }
    assert TrimEnd(ws, "(a)") == "(a)";
    assert TrimStart(ws, "(a)") == "(a)";
  }

  /** A parenthesis pair in the middle of the text is never removed: the lookahead reads an unfilled cell. */
  lemma MiddleRuleNeverFires(ws: char -> bool, s: string)
    requires !ws('(') && !ws(')') && s == "((a))"
    ensures Trimmed(ws, s) == Ok("(a)")
  {
    MiddleRuleOpens(s);
    MiddleRuleInnerClose(s);
    MiddleRuleOuterClose(s);
    assert s[1..4] == "(a)";
    MiddleRuleCore(ws);
  }

  lemma SeparateGroupsFirst(s: string)
    requires s == "(a) or (b)"
    ensures StackAfter(s, 3) == Ok([])
  {
    StackOpen(s, 0, []);
    assert [] + [0] == [0];
    StackOther(s, 1, [0]);
    StackClose(s, 2, [0]);
    assert [0][..0] == [];
  }

  lemma SeparateGroupsMiddle(s: string)
    requires s == "(a) or (b)" && StackAfter(s, 3) == Ok([])
    ensures StackAfter(s, 7) == Ok([])
  {
    StackOther(s, 3, []);
    StackOther(s, 4, []);
    StackOther(s, 5, []);
    StackOther(s, 6, []);
  }

  lemma SeparateGroupsScan(s: string)
    requires s == "(a) or (b)"
    ensures StackAfter(s, |s|) == Ok([]) && !OuterPair(s)
  {
    SeparateGroupsFirst(s);
    SeparateGroupsMiddle(s);
    SeparateGroupsLast(s);
  }

  lemma SeparateGroupsLast(s: string)
    requires s == "(a) or (b)" && StackAfter(s, 7) == Ok([])
    ensures StackAfter(s, 10) == Ok([]) && !OuterPair(s)
  {
    StackOpen(s, 7, []);
    assert [] + [7] == [7];
    StackOther(s, 8, [7]);
    assert StackAfter(s, 9) == Ok([7]);
    StackClose(s, 9, [7]);
    assert [7][..0] == [];
  }

  lemma SeparateGroupsUnmarked(s: string)
    requires s == "(a) or (b)"
    ensures WithoutMarkers(s) == s
  {
    var k := 10;
    while k > 0
      invariant 0 <= k <= 10
      invariant WithoutMarkers(s[k..]) == s[k..]
    {
      k := k - 1;
      assert s[k..][1..] == s[k + 1..];
    }
  }

  /** The outer parentheses go only when the first and the last character are partners. */
  lemma SeparateGroupsKept(ws: char -> bool, s: string)
    requires !ws('(') && !ws(')') && s == "(a) or (b)"
    ensures Trimmed(ws, s) == Ok(s)
  {
    SeparateGroupsScan(s);
    SeparateGroupsUnmarked(s);
    assert TrimEnd(ws, s) == s;
    assert TrimStart(ws, s) == s;
  }

  /** A `)` with no open partner empties the stack: `Stack.Pop` throws. */
  lemma UnmatchedCloseThrows(ws: char -> bool, s: string)
    requires s == "a)"
    ensures Trimmed(ws, s) == Err(InvalidOperationException)
  {
    StackOther(s, 0, []);
  }

  /** A final `)` whose partner follows a `(` makes the lookahead index past the end. */
  lemma NestedCloseAtEndThrows(ws: char -> bool, s: string)
    requires s == "((a)"
    ensures Trimmed(ws, s) == Err(IndexOutOfRangeException)
  {
    StackOpen(s, 0, []);
    assert [] + [0] == [0];
    StackOpen(s, 1, [0]);
    assert [0] + [1] == [0, 1];
    StackOther(s, 2, [0, 1]);
  }

  // ---------------------------------------------------------------------------
  // Facts about rendering
  // ---------------------------------------------------------------------------

  /** The calls that render a whole comparison by themselves. */
  predicate IsComparison(methodName: string)
  {
    methodName == "CompareTo" || methodName == "Compare" || methodName == "CompareOrdinal"
  }

  /**
   * A column compared with a constant renders `column op value`, in parentheses
   * exactly when the operator and one of the operand kinds are supported.
   */
  lemma ComparisonRendering(rt: Runtime, names: map<string, string>, e: Expr, buf: string)
    requires e.BinaryExpr? && e.left.MemberExpr? && e.left.target.Some? && e.left.target.value.ParameterExpr?
    requires e.right.ConstantExpr? && rt.evaluate(e.right) == e.right
    ensures var text := MappedName(names, e.left.member) + Token(rt, Kind(e)) + rt.serializeConstant(e.right.value);
      RenderBinary(rt, names, e, buf) == Ok(if ParenthesesRequired(rt, e) then buf + "(" + text + ")" else buf + text)
  {
    var text := MappedName(names, e.left.member) + Token(rt, Kind(e)) + rt.serializeConstant(e.right.value);
    var prefix := if ParenthesesRequired(rt, e) then buf + "(" else buf;
    var left := prefix + MappedName(names, e.left.member);
    assert RenderBinaryPart(rt, names, e.left, prefix) == Ok(left);
    var right := left + Token(rt, Kind(e)) + rt.serializeConstant(e.right.value);
    assert RenderBinaryPart(rt, names, e.right, left + Token(rt, Kind(e))) == Ok(right);
    assert right == prefix + text;
    assert RenderRight(rt, names, e, left + Token(rt, Kind(e)), ParenthesesRequired(rt, e))
      == Ok(if ParenthesesRequired(rt, e) then right + ")" else right);
  }

  /** A comparison call renders the whole binary node exactly when it is `CompareTo`, `Compare` or `CompareOrdinal`. */
  lemma ComparisonCallsComplete(rt: Runtime, names: map<string, string>, node: Expr, t: NodeType, buf: string)
    requires node.CallExpr?
    ensures RenderBinaryCall(rt, names, node, t, buf).Ok? ==>
      (RenderBinaryCall(rt, names, node, t, buf).value.complete <==> IsComparison(node.methodName))
  {
  }

  /**
   * `CompareTo` on the left renders `column op value` and stops: the parenthesis
   * opened for the node is never closed.
   */
  lemma CompareToLeavesParenthesisOpen(rt: Runtime, names: map<string, string>, e: Expr, buf: string)
    requires e.BinaryExpr? && e.left.CallExpr? && e.left.methodName == "CompareTo"
    requires e.left.target.Some? && rt.evaluate(e.left.target.value).MemberExpr?
    requires |e.left.args| >= 1 && rt.evaluate(e.left.args[0]).ConstantExpr?
    ensures var column := MappedName(names, rt.evaluate(e.left.target.value).member);
      var value := rt.serializeConstant(rt.evaluate(e.left.args[0]).value);
      RenderBinary(rt, names, e, buf) ==
        Ok((if ParenthesesRequired(rt, e) then buf + "(" else buf) + column + Token(rt, Kind(e)) + value)
  {
  }

  /** A comparison call on the left decides the rendering alone: the right operand is never read. */
  lemma LeftComparisonIgnoresRight(rt: Runtime, names: map<string, string>, e: Expr, other: Expr, buf: string)
    requires e.BinaryExpr? && e.left.CallExpr? && IsComparison(e.left.methodName)
    requires Kind(other) == Kind(e.right)
    ensures RenderBinary(rt, names, e, buf) == RenderBinary(rt, names, e.(right := other), buf)
  {
    ComparisonCallsComplete(rt, names, e.left, Kind(e), if ParenthesesRequired(rt, e) then buf + "(" else buf);
  }

  /** The same call on the right always throws; once both sides have rendered, with `ArgumentException`. */
  lemma RightComparisonThrows(rt: Runtime, names: map<string, string>, e: Expr, buf: string)
    requires e.BinaryExpr? && !e.left.CallExpr? && e.right.CallExpr? && IsComparison(e.right.methodName)
    ensures RenderBinary(rt, names, e, buf).Err?
    ensures var prefix := if ParenthesesRequired(rt, e) then buf + "(" else buf;
      var left := RenderBinaryPart(rt, names, e.left, prefix);
      left.Ok? && RenderBinaryCall(rt, names, e.right, Kind(e), left.value + Token(rt, Kind(e))).Ok? ==>
        RenderBinary(rt, names, e, buf) == Err(ArgumentException)
  {
    var prefix := if ParenthesesRequired(rt, e) then buf + "(" else buf;
    var left := RenderBinaryPart(rt, names, e.left, prefix);
    if left.Ok? {
      ComparisonCallsComplete(rt, names, e.right, Kind(e), left.value + Token(rt, Kind(e)));
    }
  }

  lemma CompareNeedsTwoArguments(rt: Runtime, names: map<string, string>, node: Expr, t: NodeType, buf: string)
    requires node.CallExpr? && (node.methodName == "Compare" || node.methodName == "CompareOrdinal")
    requires |node.args| < 2
    ensures RenderBinaryCall(rt, names, node, t, buf) == Err(ArgumentException)
  {
  }

  /** A two-element membership test renders a parenthesised disjunction of two equalities. */
  lemma MembershipOfTwo(rt: Runtime, names: map<string, string>, p: Expr, a: Value, b: Value, buf: string)
    requires p.MemberExpr? && !EndsWithNot(buf)
    ensures var column := MappedName(names, p.member);
      RenderContains(rt, names, p, [a, b], buf) ==
        Ok(buf + "(" + column + " eq " + rt.serializeConstant(a) + " or " + column + " eq " + rt.serializeConstant(b) + ")")
  {
    var column := MappedName(names, p.member);
    var cs := Comparisons(rt, column, " eq ", [a, b]);
    assert cs == [column + " eq " + rt.serializeConstant(a), column + " eq " + rt.serializeConstant(b)];
    assert cs[1..] == [cs[1]];
    assert Join(cs, " or ") == cs[0] + " or " + cs[1];
    assert buf + "(" + Join(cs, " or ") + ")" ==
      buf + "(" + column + " eq " + rt.serializeConstant(a) + " or " + column + " eq " + rt.serializeConstant(b) + ")";
  }

  /**
   * After ` not `, the negation is absorbed: the token goes, every comparison
   * becomes `ne`, and they are still joined by ` or `.
   */
  lemma NegationAbsorbed(rt: Runtime, names: map<string, string>, p: Expr, values: seq<Value>, pre: string)
    requires p.MemberExpr? && values != []
    ensures RenderContains(rt, names, p, values, pre + " not ") ==
      Ok(pre + "(" + Join(Comparisons(rt, MappedName(names, p.member), " ne ", values), " or ") + ")")
  {
    var buf := pre + " not ";
    assert buf[|buf| - 5..] == " not ";
    assert buf[..|buf| - 5] == pre;
  }

  /** An empty collection emits nothing, and takes a preceding negation with it. */
  lemma EmptyMembership(rt: Runtime, names: map<string, string>, p: Expr, pre: string)
    ensures !EndsWithNot(pre) ==> RenderContains(rt, names, p, [], pre) == Ok(pre)
    ensures RenderContains(rt, names, p, [], pre + " not ") == Ok(pre)
  {
    var buf := pre + " not ";
    assert buf[|buf| - 5..] == " not ";
    assert buf[..|buf| - 5] == pre;
  }

  /** `Contains` needs exactly one argument and an enumerable object. */
  lemma ContainsRejects(rt: Runtime, names: map<string, string>, node: Expr, buf: string)
    requires node.CallExpr? && node.methodName == "Contains"
    ensures |node.args| != 1 ==> RenderMethodCall(rt, names, node, buf) == Err(ArgumentException)
    ensures (|node.args| == 1 && node.target.Some? && rt.evaluate(node.target.value).ConstantExpr?
      && rt.enumerate(rt.evaluate(node.target.value).value).None?) ==>
      RenderMethodCall(rt, names, node, buf) == Err(ArgumentException)
  {
  }

  /** A member is written under its mapped name, or its own name when it has none; anything else is refused. */
  lemma ParameterNaming(names: map<string, string>, node: Expr, buf: string)
    ensures !node.MemberExpr? ==> RenderParameter(names, node, buf) == Err(NotSupportedException)
    ensures node.MemberExpr? && node.member in names ==> RenderParameter(names, node, buf) == Ok(buf + names[node.member])
    ensures node.MemberExpr? && node.member !in names ==> RenderParameter(names, node, buf) == Ok(buf + node.member)
  {
  }

  /**
   * `Translate` adds nothing unless the call has two arguments and a lambda with a
   * non-constant body; otherwise exactly one filter, which holds no marker.
   */
  lemma FilterCallsShape(rt: Runtime, names: map<string, string>, call: Expr)
    requires call.CallExpr?
    ensures |call.args| != 2 ==> FilterCalls(rt, names, call) == Ok([])
    ensures |call.args| == 2 && !Unquoted(call.args[1]).LambdaExpr? ==> FilterCalls(rt, names, call) == Err(InvalidCastException)
    ensures |call.args| == 2 && Unquoted(call.args[1]).LambdaExpr? && Kind(Unquoted(call.args[1]).body) == Constant ==>
      FilterCalls(rt, names, call) == Ok([])
    ensures (|call.args| == 2 && Unquoted(call.args[1]).LambdaExpr? && Kind(Unquoted(call.args[1]).body) != Constant
      && FilterCalls(rt, names, call).Ok?) ==>
      var calls := FilterCalls(rt, names, call).value;
      |calls| == 1 && calls[0].FilterAdded? && Marker !in calls[0].filter
  {
    if |call.args| == 2 && Unquoted(call.args[1]).LambdaExpr? {
      var rendered := Render(rt, names, Unquoted(call.args[1]).body, "");
      if rendered.Ok? {
        TrimmedHasNoMarker(rt.isWhiteSpace, rendered.value);
      }
    }
  }

  // ---------------------------------------------------------------------------
  // The static helpers, as the visitor runs them
  // ---------------------------------------------------------------------------

  method StripQuotes(expression: Expr) returns (r: Expr)
    ensures r == Unquoted(expression)
  {
    r := expression;
    while Kind(r) == Unary(Quote)
      invariant Unquoted(r) == Unquoted(expression)
      decreases Size(r)
    {
      r := r.operand;
    }
  }

  /**
   * The text as the clean-up pass leaves it in its character array: the input,
   * with the outer pair (if any) overwritten by the marker.
   */
  function MarkedCopy(input: string): (m: string)
    ensures |m| == |input|
  {
    if OuterPair(input) then [Marker] + input[1..|input| - 1] + [Marker] else input
  }

  /**
   * The array after the scan has copied `i` cells: the stack is the scan's,
   * the cells not yet reached are unfilled, and the cells reached hold the
   * input, unless the outer pair has been overwritten at the end.
   */
  ghost predicate Scanned(input: string, t: seq<char>, i: nat, stack: seq<nat>, marked: bool)
  {
    && |t| == |input| && i <= |input|
    && StackAfter(input, i) == Ok(stack)
    && (forall j :: i <= j < |t| ==> t[j] == '\0')
    && (if marked then i == |t| && t == MarkedCopy(input)
        else (forall j :: 0 <= j < i ==> t[j] == input[j]) && (i == |t| ==> !OuterPair(input)))
  }

  /** A completed scan leaves the marked copy in the array. */
  lemma ScannedIsMarkedCopy(input: string, t: seq<char>, stack: seq<nat>, marked: bool)
    requires Scanned(input, t, |input|, stack, marked)
    ensures t == MarkedCopy(input)
  {
    if !marked {
      assert forall j :: 0 <= j < |t| ==> t[j] == input[j];
    }
  }

  /**
   * The scanning loop of the clean-up pass: copies the text into the array cell
   * by cell, pushing the position of each `(` and handing each `)` to
   * `CloseParenthesis`.
   */
  method MarkParentheses(input: string, s: array<char>) returns (r: Outcome<Exception>)
    requires s.Length == |input|
    requires forall j :: 0 <= j < s.Length ==> s[j] == '\0'
    modifies s
    ensures r == OutcomeOf(StackAfter(input, |input|))
    ensures r.Pass? ==> s[..] == MarkedCopy(input)
  {
    var n := |input|;
    var stack: seq<nat> := [];
    ghost var marked := false;
    var i := 0;
    while i < n
      invariant 0 <= i <= n
      invariant Scanned(input, s[..], i, stack, marked)
    {
      var step;
      step, stack, marked := ScanCell(input, s, i, stack, marked);
      if step.Fail? {
        StackErrorPersists(input, i + 1, n);
        return step;
      }
      i := i + 1;
    }
    r := Pass;
    ScannedIsMarkedCopy(input, s[..], stack, marked);
  }

  /** One cell of the scan: copies it, then pushes a `(` or closes at a `)`. */
  method ScanCell(input: string, s: array<char>, i: nat, stack: seq<nat>, ghost marked: bool)
      returns (r: Outcome<Exception>, stack': seq<nat>, ghost marked': bool)
    requires s.Length == |input| && i < |input|
    requires Scanned(input, s[..], i, stack, marked)
    modifies s
    ensures r == OutcomeOf(StackAfter(input, i + 1))
    ensures r.Pass? ==> Scanned(input, s[..], i + 1, stack', marked')
  {
    assert !marked;
    s[i] := input[i];
    r, stack', marked' := Pass, stack, false;
    if s[i] == '(' {
      stack' := stack + [i];
    } else if s[i] == ')' {
      r, stack', marked' := CloseParenthesis(input, s, stack, i);
      if r.Pass? && marked' {
        MarkedCopyIs(input, s[..], true);
      }
    }
  }

  lemma MarkedCopyIs(input: string, t: seq<char>, marked: bool)
    requires |t| == |input|
    requires !marked ==> !OuterPair(input) && forall j :: 0 <= j < |t| ==> t[j] == input[j]
    requires marked ==> OuterPair(input) && t[0] == Marker && t[|t| - 1] == Marker
    requires marked ==> forall j :: 0 < j < |t| - 1 ==> t[j] == input[j]
    ensures t == MarkedCopy(input)
  {
    if marked {
      var m := MarkedCopy(input);
      forall j | 0 <= j < |t| ensures t[j] == m[j] {
        if 0 < j < |t| - 1 {
          assert m[j] == input[1..|input| - 1][j - 1];
        }
      }
    }
  }

  /**
   * One `)` of the scan: pops its partner and overwrites the pair with the
   * marker when the pair spans the whole text, or when it sits directly inside
   * another pair. That second test looks at the cell after the `)`, which the
   * copy has not filled yet, so it never holds.
   */
  method CloseParenthesis(input: string, s: array<char>, stack: seq<nat>, i: nat)
      returns (r: Outcome<Exception>, stack': seq<nat>, marked: bool)
    requires s.Length == |input| && i < |input| && input[i] == ')' && s[i] == ')'
    requires StackAfter(input, i) == Ok(stack)
    requires forall j :: 0 <= j < i ==> s[j] == input[j]
    requires forall j :: i < j < |input| ==> s[j] == '\0'
    modifies s
    ensures r == OutcomeOf(StackAfter(input, i + 1))
    ensures r.Pass? ==> StackAfter(input, i + 1) == Ok(stack')
    ensures !marked ==> s[..] == old(s[..])
    ensures r.Pass? && !marked && i == |input| - 1 ==> !OuterPair(input)
    ensures marked ==> i == |input| - 1 && OuterPair(input) && s[0] == Marker && s[i] == Marker
    ensures marked ==> forall j :: 0 < j < i ==> s[j] == old(s[j])
  {
    marked := false;
    stack' := stack;
    if stack == [] {
      return Fail(InvalidOperationException), stack', marked;
    }
    var start := stack[|stack| - 1];
    stack' := stack[..|stack| - 1];
    var endParenthesis := start == 0 && i == s.Length - 1;
    var middleParenthesis := false;
    if start != 0 && s[start - 1] == '(' {
      if i + 1 >= s.Length {
        return Fail(IndexOutOfRangeException), stack', marked;
      }
      middleParenthesis := s[i + 1] == ')';
    }
    if endParenthesis || middleParenthesis {
      s[start] := Marker;
      s[i] := Marker;
      marked := true;
    }
    r := Pass;
  }

  /** The LINQ filter that keeps every character other than the marker. */
  method DropMarkers(s: array<char>) returns (kept: string)
    ensures kept == WithoutMarkers(s[..])
  {
    kept := [];
    for j := 0 to s.Length
      invariant kept == WithoutMarkers(s[..j])
    {
      assert s[..j + 1] == s[..j] + [s[j]];
      WithoutMarkersAppend(s[..j], [s[j]]);
      if s[j] != Marker {
        kept := kept + [s[j]];
      }
    }
    assert s[..s.Length] == s[..];
  }

  /** The clean-up pass run by `Translate` on the rendered buffer. */
  method TrimString(ws: char -> bool, input: string) returns (r: Result<string, Exception>)
    ensures r == Trimmed(ws, input)
  {
    var s := new char[|input|](_ => '\0');
    var scanned := MarkParentheses(input, s);
    if scanned.Fail? {
      return Err(scanned.error);
    }
    var kept := DropMarkers(s);
    MarkedCopyCleaned(ws, input);
    r := Ok(Trim(ws, kept));
  }

  /** Dropping the markers from the marked copy leaves the text `Trimmed` trims. */
  lemma MarkedCopyCleaned(ws: char -> bool, input: string)
    requires StackAfter(input, |input|).Ok?
    ensures Trimmed(ws, input) == Ok(Trim(ws, WithoutMarkers(MarkedCopy(input))))
  {
    if OuterPair(input) {
      var core := input[1..|input| - 1];
      assert WithoutMarkers([Marker]) == [] by { assert [Marker][1..] == []; }
      calc {
        WithoutMarkers(MarkedCopy(input));
        WithoutMarkers(([Marker] + core) + [Marker]);
        { WithoutMarkersAppend([Marker] + core, [Marker]); }
        WithoutMarkers([Marker] + core) + WithoutMarkers([Marker]);
        { WithoutMarkersAppend([Marker], core); }
        WithoutMarkers(core);
      }
    }
  }

  // ---------------------------------------------------------------------------
  // The visitor
  // ---------------------------------------------------------------------------

  /** The visitor's outcome and buffer agree with a rendering: the same exception, or the same text. */
  predicate Agrees(r: Outcome<Exception>, filter: string, spec: Result<string, Exception>)
  {
    r == OutcomeOf(spec) && (r.Pass? ==> filter == spec.value)
  }

  /** The parts, each followed by the separator: what the membership loop appends. */
  function Terminated(parts: seq<string>, sep: string): string
  {
    if parts == [] then "" else parts[0] + sep + Terminated(parts[1..], sep)
  }

  lemma {:induction false} TerminatedAppend(parts: seq<string>, part: string, sep: string)
    ensures Terminated(parts + [part], sep) == Terminated(parts, sep) + part + sep
  {
    if parts == [] {
      assert parts + [part] == [part];
      assert [part][1..] == [];
    } else {
      assert (parts + [part])[1..] == parts[1..] + [part];
      TerminatedAppend(parts[1..], part, sep);
    }
  }

  /** Cutting the last separator off the terminated parts leaves them joined. */
  lemma {:induction false} TerminatedIsJoined(parts: seq<string>, sep: string)
    requires parts != []
    ensures Terminated(parts, sep) == Join(parts, sep) + sep
  {
    if |parts| > 1 {
      TerminatedIsJoined(parts[1..], sep);
    }
  }

  lemma TerminatedStep(prefix: string, parts: seq<string>, k: nat)
    requires k < |parts|
    ensures prefix + Terminated(parts[..k], " or ") + parts[k] + " or " == prefix + Terminated(parts[..k + 1], " or ")
  {
    TerminatedAppend(parts[..k], parts[k], " or ");
    assert parts[..k + 1] == parts[..k] + [parts[k]];
  }

  lemma TerminatedClosed(prefix: string, parts: seq<string>)
    requires parts != []
    ensures var t := prefix + Terminated(parts[..|parts|], " or ");
      |t| >= 4 && t[..|t| - 4] + ")" == prefix + Join(parts, " or ") + ")"
  {
    assert parts[..|parts|] == parts;
    TerminatedIsJoined(parts, " or ");
    var t := prefix + Terminated(parts, " or ");
    assert t == (prefix + Join(parts, " or ")) + " or ";
    assert t[..|t| - 4] == prefix + Join(parts, " or ");
  }

  class ExpressionTranslator {
    const nameChanges: map<string, string>
    const rt: Runtime
    var filter: string

    constructor (rt: Runtime, nameChanges: map<string, string>)
      ensures this.rt == rt && this.nameChanges == nameChanges && filter == ""
    {
      this.rt := rt;
      this.nameChanges := nameChanges;
      filter := "";
    }

    /** Adds the filter an operator call's predicate renders to, if it has one. */
    method Translate(result: TranslationLog, call: Expr) returns (r: Outcome<Exception>)
      requires call.CallExpr?
      modifies this, result
      ensures result.calls == old(result.calls) + EffectOf(FilterCalls(rt, nameChanges, call)).calls
      ensures r == OutcomeOf(FilterCalls(rt, nameChanges, call))
    {
      if |call.args| != 2 {
        return Pass;
      }
      var lambda := StripQuotes(call.args[1]);
      if !lambda.LambdaExpr? {
        return Fail(InvalidCastException);
      }
      if Kind(lambda.body) == Constant {
        return Pass;
      }
      filter := "";
      r := Visit(lambda.body);
      if r.Fail? {
        return;
      }
      var trimmed := TrimString(rt.isWhiteSpace, filter);
      if trimmed.Err? {
        return Fail(trimmed.error);
      }
      result.AddFilter(trimmed.value);
    }

    /** Records that the operator is replayed on the fetched rows. */
    method AddPostProcessing(result: TranslationLog, call: Expr) returns (r: Outcome<Exception>)
      requires call.CallExpr?
      modifies result
      ensures result.calls == old(result.calls) + EffectOf(PostProcessingCalls(call)).calls
      ensures r == OutcomeOf(PostProcessingCalls(call))
    {
      if |call.args| == 0 {
        return Fail(ArgumentOutOfRangeException);
      }
      result.AddPostProcessing(ReplayOperator(call.methodName));
      r := Pass;
    }

    /** The dispatch of the base visitor to the overridden routines. */
    method Visit(e: Expr) returns (r: Outcome<Exception>)
      modifies this
      decreases Size(e), 2
      ensures Agrees(r, filter, Render(rt, nameChanges, e, old(filter)))
    {
      match e
      case BinaryExpr(_, _, _) => r := VisitBinary(e);
      case UnaryExpr(_, _) => r := VisitUnary(e);
      case MemberExpr(_, _) => r := VisitMember(e);
      case CallExpr(_, _, _, _) => r := VisitMethodCall(e);
      case ParameterExpr(_) => r := Pass;
      case ConstantExpr(_) => r := Pass;
      case _ =>
        ChildrenSmaller(e);
        r := VisitChildren(Children(e));
    }

    /** The base visitor's walk over the children of a node kind that is not overridden. */
    method VisitChildren(es: seq<Expr>) returns (r: Outcome<Exception>)
      modifies this
      decreases SizeAll(es), 3
      ensures Agrees(r, filter, RenderAll(rt, nameChanges, es, old(filter)))
    {
      if es == [] {
        return Pass;
      }
      r := Visit(es[0]);
      if r.Fail? {
        return;
      }
      r := VisitChildren(es[1..]);
    }

    method VisitUnary(e: Expr) returns (r: Outcome<Exception>)
      requires e.UnaryExpr?
      modifies this
      decreases Size(e), 1
      ensures Agrees(r, filter, Render(rt, nameChanges, e, old(filter)))
    {
      filter := filter + Token(rt, Unary(e.uop));
      r := Visit(e.operand);
    }

    method VisitBinary(e: Expr) returns (r: Outcome<Exception>)
      requires e.BinaryExpr?
      modifies this
      decreases Size(e), 1
      ensures Agrees(r, filter, RenderBinary(rt, nameChanges, e, old(filter)))
    {
      var parens := ParenthesesRequired(rt, e);
      if parens {
        filter := filter + "(";
      }
      ghost var afterOpen := filter;
      var complete: bool;
      if e.left.CallExpr? {
        r, complete := AppendBinaryCall(e.left, Kind(e));
        if r.Fail? || complete {
          return;
        }
      } else {
        r := AppendBinaryPart(e.left);
        if r.Fail? {
          return;
        }
      }
      filter := filter + Token(rt, Kind(e));
      ghost var beforeRight := filter;
      if e.right.CallExpr? {
        r, complete := AppendBinaryCall(e.right, Kind(e));
        if r.Fail? {
          return;
        }
        if complete {
          return Fail(ArgumentException);
        }
      } else {
        r := AppendBinaryPart(e.right);
        if r.Fail? {
          return;
        }
      }
      if parens {
        filter := filter + ")";
      }
      assert Agrees(r, filter, RenderRight(rt, nameChanges, e, beforeRight, parens));
    }

    method AppendBinaryPart(node: Expr) returns (r: Outcome<Exception>)
      modifies this
      decreases Size(node), 3
      ensures Agrees(r, filter, RenderBinaryPart(rt, nameChanges, node, old(filter)))
    {
      match node
      case InvokeExpr(callee, _) => r := Visit(callee);
      case NewExpr(_) => r := AppendConstant(rt.evaluate(node));
      case NewArrayInitExpr(_) => r := AppendConstant(rt.evaluate(node));
      case ConstantExpr(_) => r := AppendConstant(rt.evaluate(node));
      case MemberExpr(target, _) =>
        if target.Some? && Kind(target.value) == Parameter {
          r := AppendParameter(node);
        } else {
          r := AppendConstant(node);
        }
      case UnaryExpr(uop, operand) =>
        if uop == Convert || uop == ConvertChecked {
          r := AppendConstant(rt.evaluate(operand));
        } else if rt.isSupported(Kind(node)) {
          r := Visit(node);
        } else {
          r := Fail(ArgumentException);
        }
      case _ =>
        if rt.isSupported(Kind(node)) {
          r := Visit(node);
        } else {
          r := Fail(ArgumentException);
        }
    }

    /** Renders a comparison call, and says whether that rendered the whole enclosing binary node. */
    method AppendBinaryCall(node: Expr, t: NodeType) returns (r: Outcome<Exception>, complete: bool)
      requires node.CallExpr?
      modifies this
      decreases Size(node), 3
      ensures r == OutcomeOf(RenderBinaryCall(rt, nameChanges, node, t, old(filter)))
      ensures r.Pass? ==> filter == RenderBinaryCall(rt, nameChanges, node, t, old(filter)).value.text
      ensures r.Pass? ==> complete == RenderBinaryCall(rt, nameChanges, node, t, old(filter)).value.complete
    {
      complete := false;
      if node.methodName == "CompareTo" {
        if node.target.None? {
          r := Fail(NullReferenceException);
          return;
        }
        r := AppendParameter(rt.evaluate(node.target.value));
        if r.Fail? {
          return;
        }
        filter := filter + Token(rt, t);
        if |node.args| == 0 {
          r := Fail(ArgumentOutOfRangeException);
          return;
        }
        r := AppendConstant(rt.evaluate(node.args[0]));
        complete := true;
      } else if node.methodName == "Compare" || node.methodName == "CompareOrdinal" {
        if |node.args| >= 2 {
          r := AppendParameter(rt.evaluate(node.args[0]));
          if r.Fail? {
            return;
          }
          filter := filter + Token(rt, t);
          r := AppendConstant(rt.evaluate(node.args[1]));
        } else {
          r := Fail(ArgumentException);
        }
        complete := true;
      } else {
        r := VisitMethodCall(node);
      }
    }

    method VisitMethodCall(node: Expr) returns (r: Outcome<Exception>)
      requires node.CallExpr?
      modifies this
      ensures Agrees(r, filter, RenderMethodCall(rt, nameChanges, node, old(filter)))
    {
      if node.methodName == "Contains" {
        if |node.args| != 1 {
          return Fail(ArgumentException);
        }
        if node.target.None? {
          return Fail(NullReferenceException);
        }
        var c := rt.evaluate(node.target.value);
        if !c.ConstantExpr? {
          return Fail(InvalidCastException);
        }
        var enumerable := rt.enumerate(c.value);
        if enumerable.None? {
          return Fail(ArgumentException);
        }
        r := AppendMembership(node.args[0], enumerable.value);
      } else if node.methodName == "ToString" {
        var constant: Expr;
        if node.target.Some? {
          var instance := rt.evaluate(node.target.value);
          constant := ConstantExpr(Str(rt.describe(instance)));
        } else {
          constant := ConstantExpr(Str(""));
        }
        r := AppendConstant(constant);
      } else {
        r := AppendConstant(rt.evaluate(node));
      }
    }

    /** The body of the membership case: one comparison per element, joined by `or`. */
    method AppendMembership(parameter: Expr, values: seq<Value>) returns (r: Outcome<Exception>)
      modifies this
      ensures Agrees(r, filter, RenderContains(rt, nameChanges, parameter, values, old(filter)))
    {
      var equality: string;
      if |filter| >= 5 && filter[|filter| - 5..] == " not " {
        filter := filter[..|filter| - 5];
        equality := " ne ";
      } else {
        equality := " eq ";
      }
      r := AppendDisjunction(parameter, equality, values);
    }

    /** The membership loop: nothing for no elements, else the parenthesised comparisons joined by ` or `. */
    method AppendDisjunction(parameter: Expr, equality: string, values: seq<Value>) returns (r: Outcome<Exception>)
      modifies this
      ensures r == (if values != [] && !parameter.MemberExpr? then Fail(NotSupportedException) else Pass)
      ensures r.Pass? && values == [] ==> filter == old(filter)
      ensures r.Pass? && values != [] ==>
        filter == old(filter) + "(" + Join(Comparisons(rt, MappedName(nameChanges, parameter.member), equality, values), " or ") + ")"
    {
      ghost var start := filter;
      ghost var column := if parameter.MemberExpr? then MappedName(nameChanges, parameter.member) else "";
      ghost var cs := Comparisons(rt, column, equality, values);
      filter := filter + "(";
      ghost var open := filter;
      var count := 0;
      while count < |values|
        invariant 0 <= count <= |values|
        invariant count > 0 ==> parameter.MemberExpr?
        invariant filter == open + Terminated(cs[..count], " or ")
      {
        ghost var done := filter;
        r := AppendComparison(parameter, equality, values[count]);
        if r.Fail? {
          return;
        }
        assert filter == done + cs[count] + " or ";
        TerminatedStep(open, cs, count);
        count := count + 1;
      }
      if count > 0 {
        TerminatedClosed(open, cs);
        filter := filter[..|filter| - 4] + ")";
      } else {
        filter := filter[..|filter| - 1];
        assert filter == start;
      }
      r := Pass;
    }

    /** One pass of the membership loop: the column, the equality token, the element and ` or `. */
    method AppendComparison(parameter: Expr, equality: string, value: Value) returns (r: Outcome<Exception>)
      modifies this
      ensures r == (if parameter.MemberExpr? then Pass else Fail(NotSupportedException))
      ensures r.Pass? ==> filter == old(filter) + MappedName(nameChanges, parameter.member) + equality + rt.serializeConstant(value) + " or "
    {
      r := AppendParameter(parameter);
      if r.Fail? {
        return;
      }
      filter := filter + equality;
      r := AppendConstant(ConstantExpr(value));
      filter := filter + " or ";
    }

    method VisitMember(node: Expr) returns (r: Outcome<Exception>)
      requires node.MemberExpr?
      modifies this
      ensures Agrees(r, filter, Render(rt, nameChanges, node, old(filter)))
    {
      r := AppendParameter(node);
    }

    method AppendParameter(node: Expr) returns (r: Outcome<Exception>)
      modifies this
      ensures Agrees(r, filter, RenderParameter(nameChanges, node, old(filter)))
    {
      if !node.MemberExpr? {
        return Fail(NotSupportedException);
      }
      var name := node.member;
      if name in nameChanges {
        name := nameChanges[name];
      }
      filter := filter + name;
      r := Pass;
    }

    method AppendConstant(node: Expr) returns (r: Outcome<Exception>)
      modifies this
      ensures Agrees(r, filter, RenderConstant(rt, node, old(filter)))
    {
      var constant := node;
      if !constant.ConstantExpr? {
        constant := rt.evaluate(node);
        if !constant.ConstantExpr? {
          return Fail(InvalidDataException);
        }
      }
      filter := filter + rt.serializeConstant(constant.value);
      r := Pass;
    }
  }
}
