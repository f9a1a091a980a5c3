/** The SDF shader routine generators of
    crates/core/src/shape/compiled/shader/routine/: each one appends
    expressions to the expression arena of a naga function, declares a
    fresh `i32` local variable and pushes `Emit`, `Call` and `Store`
    statements onto the function body.

    A handle is an index into its arena. Distances are WGSL `i32` values,
    whose negation and absolute value wrap at the most negative value. */
module SdfRoutine {
  import opened Common

  /** The naga expressions these routines create. */
  datatype Expression =
    | LocalVariable(variable: nat)
    | Load(pointer: nat)
    | Negate(operand: nat)
    | Max(arg: nat, arg1: nat)
    | Abs(arg: nat)
    | FunctionArgument(index: nat)
    | CallResult(callee: nat)

  /** The naga statements these routines push; `Emit(start, end)` is the
      handle range `start..end`. */
  datatype Statement =
    | Emit(start: nat, end: nat)
    | Store(pointer: nat, value: nat)
    | Call(callee: nat, arguments: seq<nat>, result: nat)

  /** `TypeInner`, reduced to what the `i32` lookup distinguishes. */
  datatype TypeInner = Scalar(kind: ScalarKind, width: nat) | OtherType
  datatype ScalarKind = Sint | Uint | Float | Bool

  /** `LocalVariable { name, ty, init: None }`. */
  datatype LocalVar = LocalVar(name: string, ty: nat)

  /** `RoutineResult { argument_len, variable }`. */
  datatype RoutineResult = RoutineResult(argumentLen: u8, variable: nat)

  /** A routine either returns its result or panics with a message; the
      function's contents after a panic are of no further use. */
  datatype Outcome = Completed(result: RoutineResult) | Panicked(message: string)

  const I32_NOT_FOUND := "i32 type not found in module"

  /** A naga function under construction: three append-only arenas. */
  class Function {
    var expressions: seq<Expression>
    var localVariables: seq<LocalVar>
    var body: seq<Statement>

    constructor (expressions: seq<Expression>, localVariables: seq<LocalVar>, body: seq<Statement>)
      ensures this.expressions == expressions && this.localVariables == localVariables && this.body == body
    {
      this.expressions := expressions;
      this.localVariables := localVariables;
      this.body := body;
    }

    /** `expressions.append`: the handle of the new expression. */
    method Append(e: Expression) returns (h: nat)
      modifies this
      ensures expressions == old(expressions) + [e] && h == |old(expressions)|
      ensures localVariables == old(localVariables) && body == old(body)
    {
      h := |expressions|;
      expressions := expressions + [e];
    }

    /** `local_variables.append`: the handle of the new variable. */
    method AppendLocal(v: LocalVar) returns (h: nat)
      modifies this
      ensures localVariables == old(localVariables) + [v] && h == |old(localVariables)|
      ensures expressions == old(expressions) && body == old(body)
    {
      h := |localVariables|;
      localVariables := localVariables + [v];
    }

    /** `body.push`. */
    method Push(s: Statement)
      modifies this
      ensures body == old(body) + [s]
      ensures expressions == old(expressions) && localVariables == old(localVariables)
    {
      body := body + [s];
    }
  }

  // ---------------------------------------------------------------- lookups

  predicate IsI32(t: TypeInner)
  {
    t == Scalar(Sint, 4)
  }

  /** The first `i32` type of the module (`types.iter().find(..)`). */
  function FindI32(types: seq<TypeInner>): (r: Option<nat>)
    ensures r.Some? ==> r.value < |types| && IsI32(types[r.value]) && forall k | 0 <= k < r.value :: !IsI32(types[k])
    ensures r.None? ==> forall k | 0 <= k < |types| :: !IsI32(types[k])
  {
    if types == [] then None
    else if IsI32(types[0]) then Some(0)
    else match FindI32(types[1..])
      case None => None
      case Some(k) => Some(k + 1)
  }

  /** The first function named `name` (`functions.iter().find(..)`). */
  function FindFunction(names: seq<Option<string>>, name: string): (r: Option<nat>)
    ensures r.Some? ==> r.value < |names| && names[r.value] == Some(name)
                        && forall k | 0 <= k < r.value :: names[k] != Some(name)
    ensures r.None? ==> forall k | 0 <= k < |names| :: names[k] != Some(name)
  {
    if names == [] then None
    else if names[0] == Some(name) then Some(0)
    else match FindFunction(names[1..], name)
      case None => None
      case Some(k) => Some(k + 1)
  }

  // ---------------------------------------------------------------- well-formed arenas

  /** Expressions that must be emitted before use; local-variable pointers,
      function arguments and call results are in scope without it. */
  predicate Emittable(e: Expression)
  {
    e.Load? || e.Negate? || e.Max? || e.Abs?
  }

  /** Expression `h` refers only to earlier expressions, and loads only through local-variable pointers. */
  predicate ExprOk(exprs: seq<Expression>, h: nat)
    requires h < |exprs|
  {
    match exprs[h]
    case Load(p) => p < h && exprs[p].LocalVariable?
    case Negate(e) => e < h
    case Max(a, b) => a < h && b < h
    case Abs(a) => a < h
    case _ => true
  }

  /** A statement names existing expressions; an emitted range holds only
      emittable expressions; a store writes through a local-variable pointer;
      a call's result expression belongs to the called function. */
  predicate StmtOk(exprs: seq<Expression>, s: Statement)
  {
    match s
    case Emit(start, end) => start <= end <= |exprs| && forall h | start <= h < end :: Emittable(exprs[h])
    case Store(p, v) => p < |exprs| && exprs[p].LocalVariable? && v < |exprs|
    case Call(f, args, r) => (forall a <- args :: a < |exprs|) && r < |exprs| && exprs[r] == CallResult(f)
  }

  predicate Valid(exprs: seq<Expression>, body: seq<Statement>)
  {
    (forall h | 0 <= h < |exprs| :: ExprOk(exprs, h)) && (forall s <- body :: StmtOk(exprs, s))
  }

  /** Appending expressions and statements keeps a valid function valid as
      long as each new expression and each new statement is well formed. */
  lemma ExtendValid(exprs: seq<Expression>, body: seq<Statement>, more: seq<Expression>, stmts: seq<Statement>)
    requires Valid(exprs, body)
    requires forall h | |exprs| <= h < |exprs + more| :: ExprOk(exprs + more, h)
    requires forall s <- stmts :: StmtOk(exprs + more, s)
    ensures Valid(exprs + more, body + stmts)
  {
    var all := exprs + more;
    forall h | 0 <= h < |exprs|
      ensures ExprOk(all, h)
    {
      assert all[h] == exprs[h];
      assert ExprOk(exprs, h);
      match exprs[h]
      case Load(p) => assert all[p] == exprs[p];
      case _ =>
    }
    forall s <- body
      ensures StmtOk(all, s)
    {
      assert StmtOk(exprs, s);
      match s
      case Emit(start, end) =>
        assert forall h | start <= h < end :: all[h] == exprs[h];
      case Store(p, v) => assert all[p] == exprs[p];
      case Call(f, args, r) => assert all[r] == exprs[r];
    }
    assert forall s <- body + stmts :: s in body || s in stmts;
  }

  // ---------------------------------------------------------------- values

  function MaxI32(a: i32, b: i32): i32 { if a >= b then a else b }

  /** WGSL `-e` on `i32`: the most negative value is its own negation. */
  function Neg(v: i32): (r: i32)
  {
    if v == I32_MIN then v else -v
  }

  /** WGSL `abs(e)` on `i32`: the most negative value is its own absolute value. */
  function AbsI32(v: i32): (r: i32)
    ensures v != I32_MIN ==> r >= 0 && (r == v || r == -v)
  {
    if v < 0 then Neg(v) else v
  }

  /** The value of expression `h` when each local variable `v` holds `values[v]`. */
  function Eval(exprs: seq<Expression>, h: nat, values: map<nat, i32>): i32
    requires h < |exprs|
    decreases h
  {
    match exprs[h]
    case Load(p) =>
      if p < h && exprs[p].LocalVariable? && exprs[p].variable in values then values[exprs[p].variable] else 0
    case Negate(e) => if e < h then Neg(Eval(exprs, e, values)) else 0
    case Max(a, b) => if a < h && b < h then MaxI32(Eval(exprs, a, values), Eval(exprs, b, values)) else 0
    case Abs(a) =>
      if a < h then AbsI32(Eval(exprs, a, values)) else 0
    case _ => 0
  }

  /** An expression's value depends only on the arena up to it. */
  lemma {:induction false} EvalPrefix(exprs: seq<Expression>, more: seq<Expression>, h: nat, values: map<nat, i32>)
    requires h < |exprs|
    ensures Eval(exprs + more, h, values) == Eval(exprs, h, values)
    decreases h
  {
    var all := exprs + more;
    assert all[h] == exprs[h];
    match exprs[h]
    case Load(p) => if p < h { assert all[p] == exprs[p]; }
    case Negate(e) => if e < h { EvalPrefix(exprs, more, e, values); }
    case Max(a, b) => if a < h && b < h { EvalPrefix(exprs, more, a, values); EvalPrefix(exprs, more, b, values); }
    case Abs(a) => if a < h { EvalPrefix(exprs, more, a, values); }
    case _ =>
  }

  /** Where each element of a seven-element extension lands. */
  lemma Seven<T>(pre: seq<T>, a: T, b: T, c: T, d: T, e: T, f: T, g: T)
    ensures var s, n := pre + [a, b, c, d, e, f, g], |pre|;
      |s| == n + 7 && s[n] == a && s[n + 1] == b && s[n + 2] == c && s[n + 3] == d
      && s[n + 4] == e && s[n + 5] == f && s[n + 6] == g
  {
  }

  // ---------------------------------------------------------------- subtract

  const SUBTRACT_SUFFIX := "__subtract_distance"

  /** What `compile_subtract` appends to an arena of length `n`: the two
      pointers (not emitted), `Load`, `Load`, `Negate`, `Max` (emitted), then
      the result variable's pointer. */
  function SubtractExprs(n: nat, left: nat, right: nat, result: nat): (r: seq<Expression>)
  {
    [LocalVariable(left), LocalVariable(right), Load(n), Load(n + 1), Negate(n + 3), Max(n + 2, n + 4), LocalVariable(result)]
  }

  /** `compile_subtract(left, right)` applied to function `into`. */
  method CompileSubtract(left: nat, right: nat, into: Function, types: seq<TypeInner>,
                         registerMap: map<nat, nat>, uniqueId: string)
    returns (outcome: Outcome)
    modifies into
    ensures left !in registerMap ==> outcome == Panicked("Left register not found") && unchanged(into)
    ensures left in registerMap && right !in registerMap ==> outcome == Panicked("Right register not found") && unchanged(into)
    ensures left in registerMap && right in registerMap && FindI32(types).None? ==> outcome == Panicked(I32_NOT_FOUND)
    ensures left in registerMap && right in registerMap && FindI32(types).Some? ==>
      var n, result := |old(into.expressions)|, |old(into.localVariables)|;
      && outcome == Completed(RoutineResult(0, result))
      && into.expressions == old(into.expressions) + SubtractExprs(n, registerMap[left], registerMap[right], result)
      && into.localVariables == old(into.localVariables) + [LocalVar(uniqueId + SUBTRACT_SUFFIX, FindI32(types).value)]
      && into.body == old(into.body) + [Emit(n + 2, n + 6), Store(n + 6, n + 5)]
  {
    if left !in registerMap { return Panicked("Left register not found"); }
    if right !in registerMap { return Panicked("Right register not found"); }
    var leftPtr := into.Append(LocalVariable(registerMap[left]));
    var rightPtr := into.Append(LocalVariable(registerMap[right]));
    var emitStart := |into.expressions|;
    var leftExpr := into.Append(Load(leftPtr));
    var rightExpr := into.Append(Load(rightPtr));
    var negRight := into.Append(Negate(rightExpr));
    var subtractExpr := into.Append(Max(leftExpr, negRight));
    into.Push(Emit(emitStart, |into.expressions|));
    var i32Type := FindI32(types);
    if i32Type.None? { return Panicked(I32_NOT_FOUND); }
    var resultVar := into.AppendLocal(LocalVar(uniqueId + SUBTRACT_SUFFIX, i32Type.value));
    var varPtr := into.Append(LocalVariable(resultVar));
    into.Push(Store(varPtr, subtractExpr));
    outcome := Completed(RoutineResult(0, resultVar));
  }

  /** The stored value is `max(left, -right)`. */
  lemma SubtractValue(pre: seq<Expression>, left: nat, right: nat, result: nat, values: map<nat, i32>)
    requires left in values && right in values
    ensures var exprs := pre + SubtractExprs(|pre|, left, right, result);
      Eval(exprs, |pre| + 5, values) == MaxI32(values[left], Neg(values[right]))
  {
    var n := |pre|;
    Seven(pre, LocalVariable(left), LocalVariable(right), Load(n), Load(n + 1), Negate(n + 3), Max(n + 2, n + 4), LocalVariable(result));
    EvalSubtract(pre + SubtractExprs(n, left, right, result), n, left, right, values);
  }

  lemma EvalSubtract(exprs: seq<Expression>, n: nat, left: nat, right: nat, values: map<nat, i32>)
    requires n + 6 <= |exprs| && left in values && right in values
    requires exprs[n] == LocalVariable(left) && exprs[n + 1] == LocalVariable(right)
    requires exprs[n + 2] == Load(n) && exprs[n + 3] == Load(n + 1)
    requires exprs[n + 4] == Negate(n + 3) && exprs[n + 5] == Max(n + 2, n + 4)
    ensures Eval(exprs, n + 5, values) == MaxI32(values[left], Neg(values[right]))
  {
    assert Eval(exprs, n + 2, values) == values[left];
    assert Eval(exprs, n + 3, values) == values[right];
  }

  /** Subtracting keeps the function valid: only the four value expressions
      are emitted and the store goes through the new variable's pointer. */
  lemma SubtractValid(exprs: seq<Expression>, body: seq<Statement>, left: nat, right: nat, result: nat)
    requires Valid(exprs, body)
    ensures var n := |exprs|;
      Valid(exprs + SubtractExprs(n, left, right, result), body + [Emit(n + 2, n + 6), Store(n + 6, n + 5)])
  {
    var n := |exprs|;
    Seven(exprs, LocalVariable(left), LocalVariable(right), Load(n), Load(n + 1), Negate(n + 3), Max(n + 2, n + 4), LocalVariable(result));
    ExtendValid(exprs, body, SubtractExprs(n, left, right, result), [Emit(n + 2, n + 6), Store(n + 6, n + 5)]);
  }

  // ---------------------------------------------------------------- invert and edge

  const INVERT_SUFFIX := "__invert_distance"
  const EDGE_SUFFIX := "__edge_distance"

  /** What `compile_invert` (`negate`) or `compile_edge` (not `negate`)
      appends to an arena of length `n`: the pointer (not emitted), `Load`
      and `Negate` or `Abs` (emitted), then the result variable's pointer. */
  function UnaryExprs(n: nat, input: nat, result: nat, negate: bool): seq<Expression>
  {
    [LocalVariable(input), Load(n), if negate then Negate(n + 1) else Abs(n + 1), LocalVariable(result)]
  }

  /** Where each element of a four-element extension lands. */
  lemma Four<T>(pre: seq<T>, a: T, b: T, c: T, d: T)
    ensures var s, n := pre + [a, b, c, d], |pre|;
      |s| == n + 4 && s[n] == a && s[n + 1] == b && s[n + 2] == c && s[n + 3] == d
  {
  }

  /** `compile_invert(register)` (`negate`) or `compile_edge(register)`
      (not `negate`), applied to function `into`: the two files differ only
      in the operation and the variable name. */
  method CompileUnary(register: nat, negate: bool, into: Function, types: seq<TypeInner>,
                      registerMap: map<nat, nat>, uniqueId: string)
    returns (outcome: Outcome)
    modifies into
    ensures register !in registerMap ==> outcome == Panicked("Register not found") && unchanged(into)
    ensures register in registerMap && FindI32(types).None? ==> outcome == Panicked(I32_NOT_FOUND)
    ensures register in registerMap && FindI32(types).Some? ==>
      var n, result := |old(into.expressions)|, |old(into.localVariables)|;
      && outcome == Completed(RoutineResult(0, result))
      && into.expressions == old(into.expressions) + UnaryExprs(n, registerMap[register], result, negate)
      && into.localVariables == old(into.localVariables)
           + [LocalVar(uniqueId + if negate then INVERT_SUFFIX else EDGE_SUFFIX, FindI32(types).value)]
      && into.body == old(into.body) + [Emit(n + 1, n + 3), Store(n + 3, n + 2)]
  {
    if register !in registerMap { return Panicked("Register not found"); }
    var varPtr := into.Append(LocalVariable(registerMap[register]));
    var emitStart := |into.expressions|;
    var loadExpr := into.Append(Load(varPtr));
    var valueExpr := into.Append(if negate then Negate(loadExpr) else Abs(loadExpr));
    into.Push(Emit(emitStart, |into.expressions|));
    var i32Type := FindI32(types);
    if i32Type.None? { return Panicked(I32_NOT_FOUND); }
    var resultVar := into.AppendLocal(LocalVar(uniqueId + if negate then INVERT_SUFFIX else EDGE_SUFFIX, i32Type.value));
    var resultPtr := into.Append(LocalVariable(resultVar));
    into.Push(Store(resultPtr, valueExpr));
    outcome := Completed(RoutineResult(0, resultVar));
  }

  /** The stored value is `-x` for invert and `|x|` for edge. */
  lemma UnaryValue(pre: seq<Expression>, input: nat, result: nat, negate: bool, values: map<nat, i32>)
    requires input in values
    ensures var exprs := pre + UnaryExprs(|pre|, input, result, negate);
      Eval(exprs, |pre| + 2, values) == if negate then Neg(values[input]) else AbsI32(values[input])
  {
    var n := |pre|;
    Four(pre, LocalVariable(input), Load(n), if negate then Negate(n + 1) else Abs(n + 1), LocalVariable(result));
    EvalUnary(pre + UnaryExprs(n, input, result, negate), n, input, negate, values);
  }

  lemma EvalUnary(exprs: seq<Expression>, n: nat, input: nat, negate: bool, values: map<nat, i32>)
    requires n + 3 <= |exprs| && input in values
    requires exprs[n] == LocalVariable(input) && exprs[n + 1] == Load(n)
    requires exprs[n + 2] == if negate then Negate(n + 1) else Abs(n + 1)
    ensures Eval(exprs, n + 2, values) == if negate then Neg(values[input]) else AbsI32(values[input])
  {
    assert Eval(exprs, n + 1, values) == values[input];
  }

  /** Inverting or taking the edge keeps the function valid. */
  lemma UnaryValid(exprs: seq<Expression>, body: seq<Statement>, input: nat, result: nat, negate: bool)
    requires Valid(exprs, body)
    ensures var n := |exprs|;
      Valid(exprs + UnaryExprs(n, input, result, negate), body + [Emit(n + 1, n + 3), Store(n + 3, n + 2)])
  {
    var n := |exprs|;
    Four(exprs, LocalVariable(input), Load(n), if negate then Negate(n + 1) else Abs(n + 1), LocalVariable(result));
    ExtendValid(exprs, body, UnaryExprs(n, input, result, negate), [Emit(n + 1, n + 3), Store(n + 3, n + 2)]);
  }

  // ---------------------------------------------------------------- dilate

  const DILATE_SUFFIX := "__dilate_distance"

  /** What `compile_dilate` appends to an arena of length `n`: the pointer,
      the `Load` (the only emitted expression), the two function arguments,
      the call result and the result variable's pointer. */
  function DilateExprs(n: nat, input: nat, dilate: nat, result: nat): seq<Expression>
  {
    [LocalVariable(input), Load(n), FunctionArgument(0), FunctionArgument(1), CallResult(dilate), LocalVariable(result)]
  }

  /** The statements `compile_dilate` pushes: emit the load, call `dilate`
      with `(distance, sample, idx_ptr)`, store the call's result. */
  function DilateStmts(n: nat, dilate: nat): seq<Statement>
  {
    [Emit(n + 1, n + 2), Call(dilate, [n + 1, n + 2, n + 3], n + 4), Store(n + 5, n + 4)]
  }

  /** Where each element of a six-element extension lands. */
  lemma Six<T>(pre: seq<T>, a: T, b: T, c: T, d: T, e: T, f: T)
    ensures var s, n := pre + [a, b, c, d, e, f], |pre|;
      |s| == n + 6 && s[n] == a && s[n + 1] == b && s[n + 2] == c && s[n + 3] == d && s[n + 4] == e && s[n + 5] == f
  {
  }

  /** `compile_dilate(register)` applied to function `into`; `functionNames`
      are the names of the module's functions, in handle order. */
  method CompileDilate(register: nat, into: Function, types: seq<TypeInner>, functionNames: seq<Option<string>>,
                       registerMap: map<nat, nat>, uniqueId: string)
    returns (outcome: Outcome)
    modifies into
    ensures FindFunction(functionNames, "dilate").None? ==>
      outcome == Panicked("dilate routine not found in module") && unchanged(into)
    ensures FindFunction(functionNames, "dilate").Some? && register !in registerMap ==>
      outcome == Panicked("Register not found") && unchanged(into)
    ensures FindFunction(functionNames, "dilate").Some? && register in registerMap && FindI32(types).None? ==>
      outcome == Panicked(I32_NOT_FOUND)
    ensures FindFunction(functionNames, "dilate").Some? && register in registerMap && FindI32(types).Some? ==>
      var n, result, dilate := |old(into.expressions)|, |old(into.localVariables)|, FindFunction(functionNames, "dilate").value;
      && outcome == Completed(RoutineResult(1, result))
      && into.expressions == old(into.expressions) + DilateExprs(n, registerMap[register], dilate, result)
      && into.localVariables == old(into.localVariables) + [LocalVar(uniqueId + DILATE_SUFFIX, FindI32(types).value)]
      && into.body == old(into.body) + DilateStmts(n, dilate)
  {
    var dilateRoutine := FindFunction(functionNames, "dilate");
    if dilateRoutine.None? { return Panicked("dilate routine not found in module"); }
    if register !in registerMap { return Panicked("Register not found"); }
    var varPtr := into.Append(LocalVariable(registerMap[register]));
    var emitStart := |into.expressions|;
    var distanceExpr := into.Append(Load(varPtr));
    into.Push(Emit(emitStart, |into.expressions|));
    var sampleExpr := into.Append(FunctionArgument(0));
    var idxPtrExpr := into.Append(FunctionArgument(1));
    var i32Type := FindI32(types);
    if i32Type.None? { return Panicked(I32_NOT_FOUND); }
    var callResult := into.Append(CallResult(dilateRoutine.value));
    into.Push(Call(dilateRoutine.value, [distanceExpr, sampleExpr, idxPtrExpr], callResult));
    var resultVar := into.AppendLocal(LocalVar(uniqueId + DILATE_SUFFIX, i32Type.value));
    var resultPtr := into.Append(LocalVariable(resultVar));
    into.Push(Store(resultPtr, callResult));
    outcome := Completed(RoutineResult(1, resultVar));
  }

  /** Dilating keeps the function valid: only the load is emitted, the
      call's arguments are the loaded distance and the two function
      arguments, and the stored value is the call's result. */
  lemma DilateValid(exprs: seq<Expression>, body: seq<Statement>, input: nat, dilate: nat, result: nat)
    requires Valid(exprs, body)
    ensures var n := |exprs|;
      Valid(exprs + DilateExprs(n, input, dilate, result), body + DilateStmts(n, dilate))
  {
    var n := |exprs|;
    Six(exprs, LocalVariable(input), Load(n), FunctionArgument(0), FunctionArgument(1), CallResult(dilate), LocalVariable(result));
    ExtendValid(exprs, body, DilateExprs(n, input, dilate, result), DilateStmts(n, dilate));
  }

  /** The distance passed to `dilate` is the input register's value. */
  lemma DilateArgument(pre: seq<Expression>, input: nat, dilate: nat, result: nat, values: map<nat, i32>)
    requires input in values
    ensures Eval(pre + DilateExprs(|pre|, input, dilate, result), DilateStmts(|pre|, dilate)[1].arguments[0], values)
            == values[input]
  {
    var n := |pre|;
    Six(pre, LocalVariable(input), Load(n), FunctionArgument(0), FunctionArgument(1), CallResult(dilate), LocalVariable(result));
  }

  // ---------------------------------------------------------------- intersection

  const INTERSECTION_SUFFIX := "__intersection_distance"

  /** The local variable of each register, or `None` if any is missing from the map. */
  function LookupAll(registers: seq<nat>, registerMap: map<nat, nat>): (r: Option<seq<nat>>)
    ensures r.Some? ==> |r.value| == |registers|
  {
    if registers == [] then Some([])
    else if registers[0] !in registerMap then None
    else match LookupAll(registers[1..], registerMap)
      case None => None
      case Some(rest) => Some([registerMap[registers[0]]] + rest)
  }

  /** The lookup succeeds exactly when every register is mapped, and then
      yields each register's variable in order. */
  lemma {:induction false} LookupAllFound(registers: seq<nat>, registerMap: map<nat, nat>)
    ensures var r := LookupAll(registers, registerMap);
      && (r.Some? <==> forall reg <- registers :: reg in registerMap)
      && (r.Some? ==> forall i | 0 <= i < |registers| :: r.value[i] == registerMap[registers[i]])
  {
    if registers != [] {
      LookupAllFound(registers[1..], registerMap);
      assert forall reg <- registers[1..] :: reg in registers;
      if registers[0] in registerMap {
        assert forall i | 1 <= i < |registers| :: registers[i] == registers[1..][i - 1];
      }
    }
  }

  /** One local-variable pointer per variable, in order. */
  function PointerExprs(vars: seq<nat>): seq<Expression>
  {
    seq(|vars|, i requires 0 <= i < |vars| => LocalVariable(vars[i]))
  }

  /** The handles `start .. start + count`. */
  function Handles(start: nat, count: nat): seq<nat>
  {
    seq(count, i => start + i)
  }

  /** The pointer expressions of `compile_intersection`. */
  method AppendPointers(into: Function, vars: seq<nat>) returns (ptrs: seq<nat>)
    modifies into
    ensures into.expressions == old(into.expressions) + PointerExprs(vars)
    ensures ptrs == Handles(|old(into.expressions)|, |vars|)
    ensures into.localVariables == old(into.localVariables) && into.body == old(into.body)
  {
    ghost var n := |into.expressions|;
    ptrs := [];
    for i := 0 to |vars|
      invariant |into.expressions| == n + i && old(into.expressions) <= into.expressions
      invariant forall j | 0 <= j < i :: into.expressions[n + j] == LocalVariable(vars[j])
      invariant ptrs == Handles(n, i)
      invariant into.localVariables == old(into.localVariables) && into.body == old(into.body)
    {
      var h := into.Append(LocalVariable(vars[i]));
      ptrs := ptrs + [h];
    }
    assert into.expressions == old(into.expressions) + PointerExprs(vars);
  }

  /** Where `build_max_tree` splits the slice `ptrs[lo..hi]` of more than
      one pointer: `mid = len / 2` of the slice, so `lo + (hi - lo) / 2`. */
  function Mid(lo: nat, hi: nat): (mid: nat)
    requires lo + 1 < hi
    ensures lo < mid < hi
  {
    lo + (hi - lo) / 2
  }

  /** The arena holds, from index `base` on, what `build_max_tree` appends
      for the slice `ptrs[lo..hi]`: one `Load` for a single pointer;
      otherwise the left half's tree, the right half's tree, and the `Max`
      of their two roots. A tree over `n` pointers has `n + n - 1` nodes
      and its root is the last of them. */
  predicate TreeAt(exprs: seq<Expression>, ptrs: seq<nat>, lo: nat, hi: nat, base: nat)
    requires lo < hi <= |ptrs|
    decreases hi - lo
  {
    if lo + 1 >= hi then base < |exprs| && exprs[base] == Load(ptrs[lo])
    else
      var mid := Mid(lo, hi);
      var rb := base + (mid - lo) + (mid - lo) - 1;
      var root := rb + (hi - mid) + (hi - mid) - 1;
      && TreeAt(exprs, ptrs, lo, mid, base)
      && TreeAt(exprs, ptrs, mid, hi, rb)
      && root < |exprs| && exprs[root] == Max(rb - 1, root - 1)
  }

  /** Appending to the arena leaves a tree in place. */
  lemma {:induction false} TreeAtExtend(exprs: seq<Expression>, more: seq<Expression>, ptrs: seq<nat>, lo: nat, hi: nat, base: nat)
    requires lo < hi <= |ptrs| && TreeAt(exprs, ptrs, lo, hi, base) && exprs <= more
    ensures TreeAt(more, ptrs, lo, hi, base)
    decreases hi - lo
  {
    if lo + 1 >= hi {
      assert more[base] == exprs[base];
    } else {
      var mid := Mid(lo, hi);
      var rb := base + (mid - lo) + (mid - lo) - 1;
      var root := rb + (hi - mid) + (hi - mid) - 1;
      TreeAtExtend(exprs, more, ptrs, lo, mid, base);
      TreeAtExtend(exprs, more, ptrs, mid, hi, rb);
      assert more[root] == exprs[root];
    }
  }

  /** `TreeAt` fixes every one of the tree's `n + n - 1` expressions:
      two arenas holding the same tree at the same place agree there. */
  lemma {:induction false} TreeAtUnique(a: seq<Expression>, b: seq<Expression>, ptrs: seq<nat>, lo: nat, hi: nat, base: nat)
    requires lo < hi <= |ptrs| && TreeAt(a, ptrs, lo, hi, base) && TreeAt(b, ptrs, lo, hi, base)
    ensures forall h | base <= h < base + (hi - lo) + (hi - lo) - 1 :: h < |a| && h < |b| && a[h] == b[h]
    decreases hi - lo
  {
    if lo + 1 < hi {
      var mid := Mid(lo, hi);
      var rb := base + (mid - lo) + (mid - lo) - 1;
      TreeAtUnique(a, b, ptrs, lo, mid, base);
      TreeAtUnique(a, b, ptrs, mid, hi, rb);
    }
  }

  /** `build_max_tree(module, into, &ptrs[lo..hi])`: appends the tree over
      the slice (the slice is modelled as the bounds into `ptrs`) and
      returns the handle of its root. */
  method BuildMaxTree(into: Function, ptrs: seq<nat>, lo: nat, hi: nat) returns (root: nat)
    requires lo < hi <= |ptrs|
    modifies into
    ensures |into.expressions| == |old(into.expressions)| + (hi - lo) + (hi - lo) - 1
    ensures old(into.expressions) <= into.expressions
    ensures TreeAt(into.expressions, ptrs, lo, hi, |old(into.expressions)|)
    ensures root == |into.expressions| - 1
    ensures into.localVariables == old(into.localVariables) && into.body == old(into.body)
    decreases hi - lo
  {
    if lo + 1 >= hi {
      root := into.Append(Load(ptrs[lo]));
      return;
    }
    var mid := lo + (hi - lo) / 2;
    ghost var pre := into.expressions;
    var left := BuildMaxTree(into, ptrs, lo, mid);
    ghost var withLeft := into.expressions;
    var right := BuildMaxTree(into, ptrs, mid, hi);
    ghost var withRight := into.expressions;
    root := into.Append(Max(left, right));
    PrefixTrans(withLeft, withRight, into.expressions);
    PrefixTrans(pre, withLeft, into.expressions);
    TreeAtExtend(withLeft, into.expressions, ptrs, lo, mid, |pre|);
    TreeAtExtend(withRight, into.expressions, ptrs, mid, hi, |withLeft|);
  }

  /** Prefixes of prefixes. */
  lemma {:induction false} PrefixTrans(a: seq<Expression>, b: seq<Expression>, c: seq<Expression>)
    requires a <= b && b <= c
    ensures a <= c
  {
  }

  /** `build_max_tree` over all of `ptrs` followed by the `Emit` of
      everything it appended; returns the root. */
  method EmitMaxTree(into: Function, ptrs: seq<nat>) returns (root: nat)
    requires ptrs != []
    modifies into
    ensures |into.expressions| == |old(into.expressions)| + |ptrs| + |ptrs| - 1
    ensures old(into.expressions) <= into.expressions
    ensures TreeAt(into.expressions, ptrs, 0, |ptrs|, |old(into.expressions)|)
    ensures root == |into.expressions| - 1
    ensures into.localVariables == old(into.localVariables)
    ensures into.body == old(into.body) + [Emit(|old(into.expressions)|, |into.expressions|)]
  {
    var emitStart := |into.expressions|;
    root := BuildMaxTree(into, ptrs, 0, |ptrs|);
    into.Push(Emit(emitStart, |into.expressions|));
  }

  /** Declares the result local variable `v`, takes a pointer to it and
      stores `value` through the pointer; returns the variable's handle. */
  method StoreResult(into: Function, v: LocalVar, value: nat) returns (resultVar: nat)
    modifies into
    ensures resultVar == |old(into.localVariables)|
    ensures into.localVariables == old(into.localVariables) + [v]
    ensures into.expressions == old(into.expressions) + [LocalVariable(resultVar)]
    ensures into.body == old(into.body) + [Store(|old(into.expressions)|, value)]
  {
    resultVar := into.AppendLocal(v);
    var varPtr := into.Append(LocalVariable(resultVar));
    into.Push(Store(varPtr, value));
  }

  /** The arena `compile_intersection` leaves behind, starting from `pre`,
      for the local variables `vars` and the result variable `result`:
      `pre` unchanged, one pointer per variable, the max tree over those
      pointers, and the result variable's pointer. */
  predicate IntersectionArena(pre: seq<Expression>, exprs: seq<Expression>, vars: seq<nat>, result: nat)
    requires vars != []
  {
    var n, k := |pre|, |vars|;
    && |exprs| == n + 3 * k && pre <= exprs
    && (forall i | 0 <= i < k :: exprs[n + i] == LocalVariable(vars[i]))
    && TreeAt(exprs, Handles(n, k), 0, k, n + k)
    && exprs[n + 3 * k - 1] == LocalVariable(result)
  }

  /** The statements `compile_intersection` pushes for `k` registers. */
  function IntersectionStmts(n: nat, k: nat): seq<Statement>
    requires k > 0
  {
    [Emit(n + k, n + 3 * k - 1), Store(n + 3 * k - 1, n + 3 * k - 2)]
  }

  /** An arena extending `pre` by the pointers to `vars` holds pointer `i`
      right after `pre`. */
  lemma {:induction false} PointersKept(pre: seq<Expression>, vars: seq<nat>, withPtrs: seq<Expression>, exprs: seq<Expression>)
    requires withPtrs == pre + PointerExprs(vars) && withPtrs <= exprs
    ensures forall i | 0 <= i < |vars| :: exprs[|pre| + i] == LocalVariable(vars[i])
  {
    forall i | 0 <= i < |vars|
      ensures exprs[|pre| + i] == LocalVariable(vars[i])
    {
      assert exprs[|pre| + i] == withPtrs[|pre| + i];
    }
  }

  /** The three appending steps of `compile_intersection` leave its arena. */
  lemma {:induction false} IntersectionBuilt(pre: seq<Expression>, withPtrs: seq<Expression>, withTree: seq<Expression>, result: nat, vars: seq<nat>)
    requires vars != [] && withPtrs == pre + PointerExprs(vars) && withPtrs <= withTree
    requires |withTree| == |pre| + 3 * |vars| - 1
    requires TreeAt(withTree, Handles(|pre|, |vars|), 0, |vars|, |pre| + |vars|)
    ensures IntersectionArena(pre, withTree + [LocalVariable(result)], vars, result)
  {
    var exprs := withTree + [LocalVariable(result)];
    PrefixTrans(withPtrs, withTree, exprs);
    PrefixTrans(pre, withPtrs, exprs);
    TreeAtExtend(withTree, exprs, Handles(|pre|, |vars|), 0, |vars|, |pre| + |vars|);
    PointersKept(pre, vars, withPtrs, exprs);
  }

  /** `compile_intersection(registers)` applied to function `into`. */
  method CompileIntersection(registers: seq<nat>, into: Function, types: seq<TypeInner>,
                             registerMap: map<nat, nat>, uniqueId: string)
    returns (outcome: Outcome)
    modifies into
    ensures LookupAll(registers, registerMap).None? ==> outcome == Panicked("Register not found in map") && unchanged(into)
    ensures registers == [] ==>
      && outcome == Panicked("Cannot intersect zero values")
      && into.expressions == old(into.expressions) && into.localVariables == old(into.localVariables)
      && into.body == old(into.body)
    ensures LookupAll(registers, registerMap).Some? && registers != [] && FindI32(types).None? ==>
      outcome == Panicked(I32_NOT_FOUND)
    ensures LookupAll(registers, registerMap).Some? && registers != [] && FindI32(types).Some? ==>
      var n, k, result := |old(into.expressions)|, |registers|, |old(into.localVariables)|;
      && outcome == Completed(RoutineResult(0, result))
      && IntersectionArena(old(into.expressions), into.expressions, LookupAll(registers, registerMap).value, result)
      && into.localVariables == old(into.localVariables) + [LocalVar(uniqueId + INTERSECTION_SUFFIX, FindI32(types).value)]
      && into.body == old(into.body) + IntersectionStmts(n, k)
  {
    var varHandles := LookupAll(registers, registerMap);
    if varHandles.None? { return Panicked("Register not found in map"); }
    var varPtrs := AppendPointers(into, varHandles.value);
    if varPtrs == [] {
      assert into.expressions == old(into.expressions) + [] == old(into.expressions);
      return Panicked("Cannot intersect zero values");
    }
    outcome := FinishIntersection(into, old(into.expressions), varHandles.value, varPtrs, types, uniqueId);
  }

  /** The rest of `compile_intersection` once the pointers `ptrs` to the
      non-empty `vars` are appended: the max tree over them and its `Emit`,
      then the `i32` lookup, then the result variable and its `Store`. */
  method FinishIntersection(into: Function, ghost pre: seq<Expression>, vars: seq<nat>, ptrs: seq<nat>,
                            types: seq<TypeInner>, uniqueId: string)
    returns (outcome: Outcome)
    requires vars != [] && into.expressions == pre + PointerExprs(vars) && ptrs == Handles(|pre|, |vars|)
    modifies into
    ensures FindI32(types).None? ==> outcome == Panicked(I32_NOT_FOUND)
    ensures FindI32(types).Some? ==>
      var result := |old(into.localVariables)|;
      && outcome == Completed(RoutineResult(0, result))
      && IntersectionArena(pre, into.expressions, vars, result)
      && into.localVariables == old(into.localVariables) + [LocalVar(uniqueId + INTERSECTION_SUFFIX, FindI32(types).value)]
      && into.body == old(into.body) + IntersectionStmts(|pre|, |vars|)
  {
    var maxExpr := EmitMaxTree(into, ptrs);
    var i32Type := FindI32(types);
    if i32Type.None? { return Panicked(I32_NOT_FOUND); }
    var resultVar := StoreIntersection(into, pre, old(into.body), vars, ptrs,
                                       LocalVar(uniqueId + INTERSECTION_SUFFIX, i32Type.value), maxExpr);
    outcome := Completed(RoutineResult(0, resultVar));
  }

  /** The result variable of `compile_intersection`: a fresh local `v`, a
      pointer to it and the store of the tree's root `maxExpr`, completing
      the statements pushed onto `preBody`. */
  method StoreIntersection(into: Function, ghost pre: seq<Expression>, ghost preBody: seq<Statement>,
                           vars: seq<nat>, ptrs: seq<nat>, v: LocalVar, maxExpr: nat)
    returns (resultVar: nat)
    requires vars != [] && ptrs == Handles(|pre|, |vars|) && pre + PointerExprs(vars) <= into.expressions
    requires |into.expressions| == |pre + PointerExprs(vars)| + |ptrs| + |ptrs| - 1
    requires TreeAt(into.expressions, ptrs, 0, |ptrs|, |pre + PointerExprs(vars)|)
    requires maxExpr == |into.expressions| - 1
    requires into.body == preBody + [Emit(|pre + PointerExprs(vars)|, |into.expressions|)]
    modifies into
    ensures IntersectionArena(pre, into.expressions, vars, resultVar)
    ensures resultVar == |old(into.localVariables)|
    ensures into.localVariables == old(into.localVariables) + [v]
    ensures into.body == preBody + IntersectionStmts(|pre|, |vars|)
  {
    ghost var withTree := into.expressions;
    ghost var n, k := |pre|, |vars|;
    assert |PointerExprs(vars)| == |ptrs| == k;
    resultVar := StoreResult(into, v, maxExpr);
    IntersectionBuilt(pre, pre + PointerExprs(vars), withTree, resultVar, vars);
    AppendPair(preBody, Emit(n + k, n + 3 * k - 1), Store(n + 3 * k - 1, n + 3 * k - 2));
  }

  // ---------------------------------------------------------------- the value of a max tree

  /** One evaluation step of expression `h` as `Eval` takes it, reading the
      values of earlier expressions from the table `vals`. */
  function Step(exprs: seq<Expression>, values: map<nat, i32>, vals: seq<i32>, h: nat): i32
    requires h < |exprs| && |vals| == |exprs|
  {
    match exprs[h]
    case Load(p) =>
      if p < h && exprs[p].LocalVariable? && exprs[p].variable in values then values[exprs[p].variable] else 0
    case Negate(e) => if e < h then Neg(vals[e]) else 0
    case Max(a, b) => if a < h && b < h then MaxI32(vals[a], vals[b]) else 0
    case Abs(a) => if a < h then AbsI32(vals[a]) else 0
    case _ => 0
  }

  /** `vals` gives every expression of the arena the value one step of
      evaluation computes from the values before it. */
  predicate Consistent(exprs: seq<Expression>, values: map<nat, i32>, vals: seq<i32>)
  {
    |vals| == |exprs| && forall h {:trigger Step(exprs, values, vals, h)} | 0 <= h < |exprs| :: vals[h] == Step(exprs, values, vals, h)
  }

  /** The values of the first `n` expressions. */
  function Evals(exprs: seq<Expression>, values: map<nat, i32>, n: nat): (r: seq<i32>)
    requires n <= |exprs|
    ensures |r| == n
  {
    if n == 0 then [] else Evals(exprs, values, n - 1) + [Eval(exprs, n - 1, values)]
  }

  /** Entry `h` of the table is the value of expression `h`. */
  lemma {:induction false} EvalsAt(exprs: seq<Expression>, values: map<nat, i32>, n: nat, h: nat)
    requires h < n <= |exprs|
    ensures Evals(exprs, values, n)[h] == Eval(exprs, h, values)
  {
    if h < n - 1 {
      EvalsAt(exprs, values, n - 1, h);
    }
  }

  /** The values `Eval` gives form a consistent table. */
  lemma {:induction false} EvalsConsistent(exprs: seq<Expression>, values: map<nat, i32>)
    ensures Consistent(exprs, values, Evals(exprs, values, |exprs|))
  {
    var vals := Evals(exprs, values, |exprs|);
    forall h | 0 <= h < |exprs|
      ensures vals[h] == Step(exprs, values, vals, h)
    {
      EvalsAt(exprs, values, |exprs|, h);
      match exprs[h]
      case Negate(e) => if e < h { EvalsAt(exprs, values, |exprs|, e); }
      case Max(a, b) => if a < h && b < h { EvalsAt(exprs, values, |exprs|, a); EvalsAt(exprs, values, |exprs|, b); }
      case Abs(a) => if a < h { EvalsAt(exprs, values, |exprs|, a); }
      case _ =>
    }
  }

  /** The value a load through pointer `p` reads (as `Eval` reads it). */
  function LoadedValue(exprs: seq<Expression>, values: map<nat, i32>, p: nat): i32
  {
    if p < |exprs| && exprs[p].LocalVariable? && exprs[p].variable in values then values[exprs[p].variable] else 0
  }

  /** The value the root of the tree over `ptrs[lo..hi]` computes. */
  function TreeMax(exprs: seq<Expression>, values: map<nat, i32>, ptrs: seq<nat>, lo: nat, hi: nat): i32
    requires lo < hi <= |ptrs|
    decreases hi - lo
  {
    if lo + 1 >= hi then LoadedValue(exprs, values, ptrs[lo])
    else MaxI32(TreeMax(exprs, values, ptrs, lo, Mid(lo, hi)), TreeMax(exprs, values, ptrs, Mid(lo, hi), hi))
  }

  /** `v` is the largest value loaded through `ptrs[lo..hi]`: no smaller
      than any, and equal to one. */
  predicate IsMaxLoaded(exprs: seq<Expression>, values: map<nat, i32>, ptrs: seq<nat>, lo: nat, hi: nat, v: i32)
    requires hi <= |ptrs|
  {
    && (forall i | lo <= i < hi :: LoadedValue(exprs, values, ptrs[i]) <= v)
    && (exists i | lo <= i < hi :: LoadedValue(exprs, values, ptrs[i]) == v)
  }

  /** The larger of the maxima of two adjacent slices is the maximum of both. */
  lemma {:induction false} JoinMaxima(exprs: seq<Expression>, values: map<nat, i32>, ptrs: seq<nat>, lo: nat, mid: nat, hi: nat, a: i32, b: i32)
    requires lo <= mid <= hi <= |ptrs|
    requires IsMaxLoaded(exprs, values, ptrs, lo, mid, a) && IsMaxLoaded(exprs, values, ptrs, mid, hi, b)
    ensures IsMaxLoaded(exprs, values, ptrs, lo, hi, MaxI32(a, b))
  {
    if a >= b {
      var i :| lo <= i < mid && LoadedValue(exprs, values, ptrs[i]) == a;
    } else {
      var i :| mid <= i < hi && LoadedValue(exprs, values, ptrs[i]) == b;
    }
  }

  /** `TreeMax` is the largest loaded value. */
  lemma {:induction false} TreeMaxIsMax(exprs: seq<Expression>, values: map<nat, i32>, ptrs: seq<nat>, lo: nat, hi: nat)
    requires lo < hi <= |ptrs|
    ensures IsMaxLoaded(exprs, values, ptrs, lo, hi, TreeMax(exprs, values, ptrs, lo, hi))
    decreases hi - lo
  {
    if lo + 1 < hi {
      var mid := Mid(lo, hi);
      TreeMaxIsMax(exprs, values, ptrs, lo, mid);
      TreeMaxIsMax(exprs, values, ptrs, mid, hi);
      JoinMaxima(exprs, values, ptrs, lo, mid, hi, TreeMax(exprs, values, ptrs, lo, mid), TreeMax(exprs, values, ptrs, mid, hi));
    }
  }

  /** In a consistent table, the root of a tree whose pointers lie below it
      holds `TreeMax`. */
  lemma {:induction false} TreeValue(exprs: seq<Expression>, values: map<nat, i32>, vals: seq<i32>, ptrs: seq<nat>, lo: nat, hi: nat, base: nat)
    requires lo < hi <= |ptrs| && Consistent(exprs, values, vals) && TreeAt(exprs, ptrs, lo, hi, base)
    requires forall i | lo <= i < hi :: ptrs[i] < base
    ensures base + (hi - lo) + (hi - lo) - 2 < |vals|
    ensures vals[base + (hi - lo) + (hi - lo) - 2] == TreeMax(exprs, values, ptrs, lo, hi)
    decreases hi - lo
  {
    if lo + 1 >= hi {
      assert vals[base] == Step(exprs, values, vals, base);
    } else {
      var mid := Mid(lo, hi);
      var rb := base + (mid - lo) + (mid - lo) - 1;
      var root := rb + (hi - mid) + (hi - mid) - 1;
      TreeValue(exprs, values, vals, ptrs, lo, mid, base);
      TreeValue(exprs, values, vals, ptrs, mid, hi, rb);
      assert vals[root] == Step(exprs, values, vals, root);
    }
  }

  /** In a consistent table, the root of a tree whose pointers lie below it
      holds the largest value loaded through them. */
  lemma {:induction false} TreeRootIsMax(exprs: seq<Expression>, values: map<nat, i32>, vals: seq<i32>, ptrs: seq<nat>, lo: nat, hi: nat, base: nat)
    requires lo < hi <= |ptrs| && Consistent(exprs, values, vals) && TreeAt(exprs, ptrs, lo, hi, base)
    requires forall i | lo <= i < hi :: ptrs[i] < base
    ensures base + (hi - lo) + (hi - lo) - 2 < |vals|
    ensures IsMaxLoaded(exprs, values, ptrs, lo, hi, vals[base + (hi - lo) + (hi - lo) - 2])
  {
    TreeValue(exprs, values, vals, ptrs, lo, hi, base);
    TreeMaxIsMax(exprs, values, ptrs, lo, hi);
  }

  /** Every expression of a tree whose pointers lie below it and point at
      local variables is well formed and emittable. */
  lemma {:induction false} TreeOk(exprs: seq<Expression>, ptrs: seq<nat>, lo: nat, hi: nat, base: nat)
    requires lo < hi <= |ptrs| && TreeAt(exprs, ptrs, lo, hi, base)
    requires forall i | lo <= i < hi :: ptrs[i] < base && exprs[ptrs[i]].LocalVariable?
    ensures forall h | base <= h < base + (hi - lo) + (hi - lo) - 1 :: h < |exprs| && ExprOk(exprs, h) && Emittable(exprs[h])
    decreases hi - lo
  {
    if lo + 1 < hi {
      var mid := Mid(lo, hi);
      var rb := base + (mid - lo) + (mid - lo) - 1;
      TreeOk(exprs, ptrs, lo, mid, base);
      TreeOk(exprs, ptrs, mid, hi, rb);
    }
  }

  /** The pointers `compile_intersection` builds its tree over. */
  lemma {:induction false} IntersectionPointers(pre: seq<Expression>, exprs: seq<Expression>, vars: seq<nat>, result: nat)
    requires vars != [] && IntersectionArena(pre, exprs, vars, result)
    ensures var n, k := |pre|, |vars|;
      forall i | 0 <= i < k :: Handles(n, k)[i] < n + k && exprs[Handles(n, k)[i]] == LocalVariable(vars[i])
  {
    var n, k := |pre|, |vars|;
    forall i | 0 <= i < k
      ensures Handles(n, k)[i] < n + k && exprs[Handles(n, k)[i]] == LocalVariable(vars[i])
    {
    }
  }

  /** `v` is the largest of the variables' values: no smaller than any,
      and equal to one. */
  predicate IsMaxValue(vars: seq<nat>, values: map<nat, i32>, v: i32)
    requires forall u <- vars :: u in values
  {
    && (forall u <- vars :: values[u] <= v)
    && (exists u <- vars :: values[u] == v)
  }

  /** The maximum over the pointers is the maximum over the variables'
      values. */
  lemma {:induction false} MaxOfVariables(exprs: seq<Expression>, vars: seq<nat>, n: nat, values: map<nat, i32>, t: i32)
    requires vars != [] && forall u <- vars :: u in values
    requires forall i | 0 <= i < |vars| :: n + i < |exprs| && exprs[n + i] == LocalVariable(vars[i])
    requires IsMaxLoaded(exprs, values, Handles(n, |vars|), 0, |vars|, t)
    ensures IsMaxValue(vars, values, t)
  {
    var ptrs := Handles(n, |vars|);
    forall u <- vars
      ensures values[u] <= t
    {
      var i :| 0 <= i < |vars| && vars[i] == u;
      assert LoadedValue(exprs, values, ptrs[i]) == values[u];
    }
    var i :| 0 <= i < |vars| && LoadedValue(exprs, values, ptrs[i]) == t;
    assert vars[i] in vars && LoadedValue(exprs, values, ptrs[i]) == values[vars[i]];
  }

  /** `compile_intersection` stores into its result variable the largest
      of the registers' values: no smaller than any, and equal to one. */
  lemma {:induction false} IntersectionValue(pre: seq<Expression>, exprs: seq<Expression>, vars: seq<nat>, result: nat, values: map<nat, i32>)
    requires vars != [] && IntersectionArena(pre, exprs, vars, result) && forall u <- vars :: u in values
    ensures IsMaxValue(vars, values, Eval(exprs, |pre| + 3 * |vars| - 2, values))
  {
    var n, k := |pre|, |vars|;
    var ptrs := Handles(n, k);
    var root := n + k + k + k - 2;
    IntersectionPointers(pre, exprs, vars, result);
    EvalsConsistent(exprs, values);
    var vals := Evals(exprs, values, |exprs|);
    TreeRootIsMax(exprs, values, vals, ptrs, 0, k, n + k);
    MaxOfVariables(exprs, vars, n, values, vals[root]);
    EvalsAt(exprs, values, |exprs|, root);
  }

  /** Intersecting keeps the function valid: only the loads and maxima are
      emitted and the store goes through the new variable's pointer. */
  lemma {:induction false} IntersectionValid(pre: seq<Expression>, exprs: seq<Expression>, body: seq<Statement>, vars: seq<nat>, result: nat)
    requires Valid(pre, body) && vars != [] && IntersectionArena(pre, exprs, vars, result)
    ensures Valid(exprs, body + IntersectionStmts(|pre|, |vars|))
  {
    var n, k := |pre|, |vars|;
    IntersectionExprsOk(pre, exprs, vars, result);
    IntersectionStmtsOk(pre, exprs, vars, result);
    assert exprs == pre + exprs[n..];
    ExtendValid(pre, body, exprs[n..], IntersectionStmts(n, k));
  }

  /** Every expression intersecting appends refers only to earlier ones. */
  lemma {:induction false} IntersectionExprsOk(pre: seq<Expression>, exprs: seq<Expression>, vars: seq<nat>, result: nat)
    requires vars != [] && IntersectionArena(pre, exprs, vars, result)
    ensures forall h | |pre| <= h < |exprs| :: ExprOk(exprs, h)
  {
    var n, k := |pre|, |vars|;
    IntersectionPointers(pre, exprs, vars, result);
    TreeOk(exprs, Handles(n, k), 0, k, n + k);
    forall h | n <= h < |exprs|
      ensures ExprOk(exprs, h)
    {
      if h < n + k {
        assert exprs[h] == LocalVariable(vars[h - n]);
      } else if h == n + 3 * k - 1 {
        assert exprs[h] == LocalVariable(result);
      }
    }
  }

  /** Both statements intersecting pushes are well formed: the `Emit`
      covers only the tree's loads and maxima, and the `Store` goes through
      the result pointer. */
  lemma {:induction false} IntersectionStmtsOk(pre: seq<Expression>, exprs: seq<Expression>, vars: seq<nat>, result: nat)
    requires vars != [] && IntersectionArena(pre, exprs, vars, result)
    ensures forall s <- IntersectionStmts(|pre|, |vars|) :: StmtOk(exprs, s)
  {
    var n, k := |pre|, |vars|;
    IntersectionPointers(pre, exprs, vars, result);
    TreeOk(exprs, Handles(n, k), 0, k, n + k);
    assert StmtOk(exprs, Emit(n + k, n + 3 * k - 1));
  }

}
