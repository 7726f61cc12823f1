/** The reference elaborator: a pure function from a parse tree and a lexical environment to a typed
    program (the meaning of src/extrapolate.cpp:120-362). It knows nothing of frames. */
module Resolver {
  import opened Wrappers
  import opened LokTypes
  import opened LokSyntax
  import opened Scoping

  // ----- Calls and implicit conversions ---------------------------------------

  function NonNull(e: Option<Expr>): (r: Result<Expr, Error>)
    ensures r.Failure? ==> Local(r.error)
  {
    if e.Some? then Success(e.value) else Failure(NullExpression)
  }

  /** CallExpr around a SymbolExpr: reads the function type of the symbol. */
  function MakeCall(s: Symbol, args: seq<Expr>): (r: Result<Expr, Error>)
    ensures r.Failure? ==> Local(r.error)
  {
    if s.sort.Function? then Success(CallExpr(s.sort.output, SymbolExpr(s.sort, s), args))
    else Failure(NotAFunction)
  }

  function MakeArgs(es: seq<Option<Expr>>): (r: Result<Expr, Error>)
    ensures r.Failure? ==> Local(r.error)
  {
    if exists e <- es :: e.None? then Failure(NullExpression)
    else
      var exprs := seq(|es|, i requires 0 <= i < |es| => (assert es[i] in es; es[i].value));
      Success(ArgsExpr(Tuple(TypesOf(exprs)), exprs))
  }

  /** emplace on the std::multimap of forced constructors: a new entry goes in front of the first that it
      precedes. */
  function FileForced(forced: seq<(Type, Symbol)>, entry: (Type, Symbol)): (filed: seq<(Type, Symbol)>)
    ensures multiset(filed) == multiset(forced) + multiset{entry}
    ensures forall e :: e in filed <==> e in forced || e == entry
  {
    if forced == [] then [entry]
    else if Less(entry.0, forced[0].0) then [entry] + forced
    else
      assert forced == [forced[0]] + forced[1..];
      [forced[0]] + FileForced(forced[1..], entry)
  }

  /** equal_range: the constructors whose keys neither precede nor follow a type, in the order of the table. */
  function ForcedFor(forced: seq<(Type, Symbol)>, key: Type): seq<Symbol> {
    if forced == [] then []
    else (if Equivalent(forced[0].0, key) then [forced[0].1] else []) + ForcedFor(forced[1..], key)
  }

  /** The first candidate that returns the wanted type; looking stops the program at a candidate that
      is not a function or whose comparison throws. */
  function FirstReturning(candidates: seq<Symbol>, target: Type): (r: Result<Option<Symbol>, Error>)
    ensures r.Failure? ==> Local(r.error)
  {
    if candidates == [] then Success(None)
    else if !candidates[0].sort.Function? then Failure(NotAFunction)
    else
      var same := Equals(candidates[0].sort.output, target);
      if same.None? then Failure(UndecidedEquality)
      else if same.value then Success(Some(candidates[0]))
      else FirstReturning(candidates[1..], target)
  }

  /** Wraps an expression in a forced constructor: the one that returns the target, else the only one. */
  function ForceUpgrade(e: Expr, target: Type, ctx: Context): (r: Result<Expr, Error>)
    ensures r.Failure? ==> Local(r.error)
  {
    var candidates := ForcedFor(ctx.forced, e.sort);
    var found :- FirstReturning(candidates, target);
    if found.Some? then MakeCall(found.value, [e])
    else if |candidates| == 1 then MakeCall(candidates[0], [e])
    else Success(e)
  }

  /** The arguments a call keeps: as many as there are parameters, each of exactly its type. */
  function CoerceArgs(args: seq<Expr>, params: seq<Type>): (r: Result<seq<Expr>, Error>)
    ensures r.Failure? ==> Local(r.error)
    decreases params
  {
    if params == [] then Success([])
    else if args == [] then Failure(OutOfRange)
    else
      var same := Equals(args[0].sort, params[0]);
      if same.None? then Failure(UndecidedEquality)
      else if !same.value then Failure(TypeMismatch)
      else
        var rest :- CoerceArgs(args[1..], params[1..]);
        Success([args[0]] + rest)
  }

  /** The first overload of an operator whose first two parameters are exactly the operand types. */
  function GetOverload(l: Expr, r: Expr, op: string, overloads: seq<(string, Symbol)>): (e: Result<Expr, Error>)
    ensures e.Failure? ==> Local(e.error)
  {
    if overloads == [] then Failure(NoOverload)
    else if overloads[0].0 != op then GetOverload(l, r, op, overloads[1..])
    else
      var s := overloads[0].1;
      if !s.sort.Function? then Failure(NotAFunction)
      else if |s.sort.input| < 2 then Failure(OutOfRange)
      else
        var left, right := Equals(s.sort.input[0], l.sort), Equals(s.sort.input[1], r.sort);
        if left.None? || right.None? then Failure(UndecidedEquality)
        else if left.value && right.value then MakeCall(s, [l, r])
        else GetOverload(l, r, op, overloads[1..])
  }

  // ----- Expressions ----------------------------------------------------------

  function ElabExpr(n: Node, env: Env, ctx: Context): (r: Result<Option<Expr>, Error>)
    ensures r.Failure? ==> FailsInScope(env, r.error)
    decreases n, 1
  {
    match n.kind
    case FUNCDEF => ElabFunction(n, env, ctx)
    case EXPRBASIC => ElabOperator(n, env, ctx)
    case ARGLIST =>
      var es :- ElabExprs(n.children, env, ctx);
      var args :- MakeArgs(es);
      Success(Some(args))
    case VALSTR => Success(Some(StringValue(TextType(|n.text|), n.text)))
    case VALINT => Success(Some(IntValue(BitArray(64), n.number)))
    case VALFLOAT => Success(Some(FloatValue(BitArray(64), n.decimal)))
    case VALBIT => Success(Some(BitValue(BIT, n.flag)))
    case FQUALPATH => Reference(n, env, ctx)
    case NONE => Success(None)
    case _ => Failure(Unhandled)
  }

  function Reference(n: Node, env: Env, ctx: Context): (r: Result<Option<Expr>, Error>)
    ensures r.Failure? ==> FailsInScope(env, r.error)
  {
    var id :- MakeIdentifier(n, true, ctx.ns);
    var s :- Lookup(id, env, ctx);
    Success(Some(SymbolExpr(s.sort, s)))
  }

  function ElabExprs(nodes: seq<Node>, env: Env, ctx: Context): (r: Result<seq<Option<Expr>>, Error>)
    ensures r.Success? ==> |r.value| == |nodes|
    ensures r.Failure? ==> FailsInScope(env, r.error)
    decreases nodes, 0
  {
    if nodes == [] then Success([])
    else
      var head :- ElabExpr(nodes[0], env, ctx);
      var tail :- ElabExprs(nodes[1..], env, ctx);
      Success([head] + tail)
  }

  /** The body sees the parameters in a scope of their own; the surrounding scope is unchanged. */
  function ElabFunction(n: Node, env: Env, ctx: Context): (r: Result<Option<Expr>, Error>)
    ensures r.Failure? ==> Local(r.error)
    decreases n, 0
  {
    var sort :- FunctionType(n, ctx.ns);
    var params :- ParamSymbols(n.children[1].children, ctx.ns);
    var body :- ElabStmt(n.children[0], Scope(Visible(env), BindAll(map[], params)), ctx);
    Success(Some(FuncValue(sort, body.0)))
  }

  function ElabOperator(n: Node, env: Env, ctx: Context): (r: Result<Option<Expr>, Error>)
    ensures r.Failure? ==> FailsInScope(env, r.error)
    decreases n, 0
  {
    if n.children == [] then Failure(OutOfRange) else
    var left :- ElabExpr(n.children[0], env, ctx);
    var l :- NonNull(left);
    var callee :- ForceUpgrade(l, Unknown, ctx);
    if |n.children| == 1 then Success(None) else
    var right :- ElabExpr(n.children[1], env, ctx);
    var r :- NonNull(right);
    Apply(callee, r, n.text, ctx)
  }

  /** A call when the left operand is a function and the operator is `()`, else an overload. */
  function Apply(l: Expr, r: Expr, op: string, ctx: Context): (e: Result<Option<Expr>, Error>)
    ensures e.Failure? ==> Local(e.error)
  {
    if l.sort.Function? && op == "()" then
      if !r.ArgsExpr? then Failure(BadCast) else
      var args :- CoerceArgs(r.exprs, l.sort.input);
      Success(Some(CallExpr(l.sort.output, l, args)))
    else if l.sort.Tuple? || l.sort.Single? then
      var upgraded :- ForceUpgrade(r, Unknown, ctx);
      var call :- GetOverload(l, upgraded, op, ctx.overloads);
      Success(Some(call))
    else
      Failure(Unhandled)
  }

  // ----- Statements -----------------------------------------------------------

  /** A statement also yields the environment the next statement sees. */
  function ElabStmt(n: Node, env: Env, ctx: Context): (r: Result<(Option<Stmt>, Env), Error>)
    ensures r.Success? ==> Continues(env, r.value.1)
    ensures r.Failure? ==> FailsInScope(env, r.error)
    decreases n, 2
  {
    if IsExprStmt(n.kind) then
      var e :- ElabExpr(n, env, ctx);
      Success((AsStmt(e), env))
    else if IsLoop(n.kind) then ElabLoop(n, env, ctx)
    else match n.kind
    case DECL => ElabDecl(n, env, ctx)
    case BLOCK =>
      var block :- ElabStmts(n.children, Enter(env), ctx);
      Success((Some(BlockStmt(block.0)), env))
    case STMTRTN =>
      var first :- Child(n, 0);
      var value :- ElabExpr(first, env, ctx);
      Success((Some(ReturnStmt(value)), env))
    case STMTIF => ElabIf(n, env, ctx)
    case NONE => Success((None, env))
    case _ => Failure(Unhandled)
  }

  function ElabLoop(n: Node, env: Env, ctx: Context): (r: Result<(Option<Stmt>, Env), Error>)
    requires IsLoop(n.kind)
    ensures r.Success? ==> Continues(env, r.value.1)
    ensures r.Failure? ==> FailsInScope(env, r.error)
    decreases n, 2, 0
  {
    if n.kind == STMTDOFOR then ElabDoFor(n, env, ctx)
    else if n.kind == STMTFOR then ElabFor(n, env, ctx)
    else ElabWhile(n, env, ctx)
  }

  predicate IsExprStmt(k: Kind) {
    k in {EXPRBASIC, FUNCDEF, VALSTR, VALINT, VALFLOAT, VALBIT, FQUALPATH}
  }

  predicate IsLoop(k: Kind) {
    k in {STMTWHILE, STMTDOWHILE, STMTFOR, STMTDOFOR}
  }

  function AsStmt(e: Option<Expr>): Option<Stmt> {
    if e.Some? then Some(ExprStmt(e.value)) else None
  }

  function ElabStmts(nodes: seq<Node>, env: Env, ctx: Context): (r: Result<(seq<Option<Stmt>>, Env), Error>)
    ensures r.Success? ==> |r.value.0| == |nodes| && Continues(env, r.value.1)
    ensures r.Failure? ==> FailsInScope(env, r.error)
    decreases nodes, 0
  {
    if nodes == [] then Success(([], env))
    else
      var head :- ElabStmt(nodes[0], env, ctx);
      var tail :- ElabStmts(nodes[1..], head.1, ctx);
      Success(([head.0] + tail.0, tail.1))
  }

  function ElabDecl(n: Node, env: Env, ctx: Context): (r: Result<(Option<Stmt>, Env), Error>)
    ensures r.Success? ==> Continues(env, r.value.1)
    ensures r.Failure? ==> FailsInScope(env, r.error)
    decreases n, 1
  {
    if n.children == [] then Failure(OutOfRange) else
    var declared :- if IsTypeNode(n.children[0]) then MakeType(n.children[0], ctx.ns) else Success(Unknown);
    var at := if IsTypeNode(n.children[0]) then 1 else 0;
    var sort :- DeclaredSort(n, at, declared, env, ctx);
    var after :- Declare(env, Symbol(sort, [n.text], {}));
    Success((Some(DeclStmt([n.text], sort)), after))
  }

  /** The declared type, unless there is an initialiser at an index. */
  function DeclaredSort(n: Node, at: nat, declared: Type, env: Env, ctx: Context): (r: Result<Type, Error>)
    ensures r.Failure? ==> FailsInScope(env, r.error)
    decreases n, 0
  {
    if |n.children| > at && n.children[at].kind != ATTRS then
      var value :- ElabExpr(n.children[at], env, ctx);
      Initialised(value, declared, ctx)
    else Success(declared)
  }

  /** The type a declaration gets from its initialiser, which must agree with a declared type. */
  function Initialised(value: Option<Expr>, declared: Type, ctx: Context): (r: Result<Type, Error>)
    ensures r.Failure? ==> Local(r.error)
  {
    var e :- NonNull(value);
    var upgraded :- ForceUpgrade(e, declared, ctx);
    if declared.Unknown? then Success(upgraded.sort)
    else
      var same := Equals(upgraded.sort, declared);
      if same.None? then Failure(UndecidedEquality)
      else if same.value then Success(upgraded.sort)
      else Failure(TypeMismatch)
  }

  /** Both halves read child 0, as the source does; the body, child 1, is never visited. */
  function ElabWhile(n: Node, env: Env, ctx: Context): (r: Result<(Option<Stmt>, Env), Error>)
    ensures r.Success? ==> Continues(env, r.value.1)
    ensures r.Failure? ==> FailsInScope(env, r.error)
    decreases n, 1
  {
    if n.children == [] then Failure(OutOfRange) else
    var cond :- ElabExpr(n.children[0], env, ctx);
    var loop :- ElabStmt(n.children[0], env, ctx);
    Success((Some(WhileStmt(cond, loop.0, n.kind == STMTDOWHILE)), loop.1))
  }

  /** The third child, a start or an else, if there is one. */
  function ElabThird(n: Node, env: Env, ctx: Context): (r: Result<(Option<Stmt>, Env), Error>)
    ensures r.Success? ==> Continues(env, r.value.1)
    ensures r.Failure? ==> FailsInScope(env, r.error)
    decreases n, 0
  {
    if |n.children| > 2 then ElabStmt(n.children[2], env, ctx) else Success((None, env))
  }

  function ElabDoFor(n: Node, env: Env, ctx: Context): (r: Result<(Option<Stmt>, Env), Error>)
    ensures r.Success? ==> Continues(env, r.value.1)
    ensures r.Failure? ==> FailsInScope(env, r.error)
    decreases n, 1
  {
    var decl :- ElabThird(n, Enter(env), ctx);
    var parts :- ElabLoopParts(n, 0, decl.1, ctx);
    Success((Some(ForStmt(decl.0, parts.0, parts.1, parts.2, true)), env))
  }

  function ElabFor(n: Node, env: Env, ctx: Context): (r: Result<(Option<Stmt>, Env), Error>)
    ensures r.Success? ==> Continues(env, r.value.1)
    ensures r.Failure? ==> FailsInScope(env, r.error)
    decreases n, 1
  {
    var header :- Child(n, 0);
    var start :- Child(header, 0);
    var decl :- ElabStmt(start, Enter(env), ctx);
    var parts :- ElabLoopParts(n, 1, decl.1, ctx);
    Success((Some(ForStmt(decl.0, parts.0, parts.1, parts.2, false)), env))
  }

  /** Condition and increment, two neighbouring children of the header, and then the body. */
  function ElabLoopParts(n: Node, at: nat, env: Env, ctx: Context)
    : (r: Result<(Option<Expr>, Option<Expr>, Option<Stmt>), Error>)
    ensures r.Failure? ==> FailsInScope(env, r.error)
    decreases n, 0
  {
    var header :- Child(n, 0);
    var test :- Child(header, at);
    var cond :- ElabExpr(test, env, ctx);
    var step :- Child(header, at + 1);
    var inc :- ElabExpr(step, env, ctx);
    var body :- Child(n, 1);
    var loop :- ElabStmt(body, env, ctx);
    Success((cond, inc, loop.0))
  }

  /** A branch that is a bare declaration declares into the scope of the whole statement. */
  function ElabIf(n: Node, env: Env, ctx: Context): (r: Result<(Option<Stmt>, Env), Error>)
    ensures r.Success? ==> Continues(env, r.value.1)
    ensures r.Failure? ==> FailsInScope(env, r.error)
    decreases n, 1
  {
    var first :- Child(n, 0);
    var test :- ElabExpr(first, env, ctx);
    var second :- Child(n, 1);
    var yes :- ElabStmt(second, env, ctx);
    var no :- ElabThird(n, yes.1, ctx);
    Success((Some(IfStmt(test, yes.0, no.0)), no.1))
  }
}
