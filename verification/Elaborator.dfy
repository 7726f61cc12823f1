/** The elaborator as it runs: an object whose methods push and pop scope frames
    (src/extrapolate.cpp:120-362, src/util.cpp:17-47). Each method is proved against the resolver. */
module Elaborator {
  import opened Wrappers
  import opened LokTypes
  import opened LokSyntax
  import opened Scoping
  import Resolver
  import opened Passes

  /** Statements keep the depth of the stack and every outer frame, and only append to the innermost. */
  ghost predicate KeepsOuter(before: seq<Frame>, after: seq<Frame>) {
    && |before| == |after|
    && (before != [] ==>
      && after[..|after| - 1] == before[..|before| - 1]
      && before[|before| - 1] <= after[|after| - 1])
  }

  /** The outcome and the new stack are those of the resolver. */
  ghost predicate Matches<T>(spec: Result<(T, Env), Error>, r: Result<T, Error>, before: seq<Frame>,
                             after: seq<Frame>) {
    match spec
    case Failure(e) => r == Failure(e)
    case Success(v) => r == Success(v.0) && EnvOf(after) == v.1 && KeepsOuter(before, after)
  }

  ghost function Prepend<T>(done: seq<T>, rest: Result<seq<T>, Error>): Result<seq<T>, Error> {
    if rest.Success? then Success(done + rest.value) else rest
  }

  lemma PrependNothing<T>(rest: Result<seq<T>, Error>)
    ensures Prepend([], rest) == rest
  {
    assert rest.Success? ==> [] + rest.value == rest.value;
  }

  lemma PrependOne<T>(done: seq<T>, x: T, rest: Result<seq<T>, Error>)
    ensures Prepend(done + [x], rest) == Prepend(done, Prepend([x], rest))
  {
    assert rest.Success? ==> done + [x] + rest.value == done + ([x] + rest.value);
  }

  /** The same for results that also carry a state. */
  ghost function PrependTo<T, S>(done: seq<T>, rest: Result<(seq<T>, S), Error>): Result<(seq<T>, S), Error> {
    if rest.Success? then Success((done + rest.value.0, rest.value.1)) else rest
  }

  lemma PrependSome<T, S>(done: seq<T>, more: seq<T>, rest: Result<(seq<T>, S), Error>)
    ensures PrependTo([], rest) == rest
    ensures PrependTo(done + more, rest) == PrependTo(done, PrependTo(more, rest))
  {
    if rest.Success? {
      assert [] + rest.value.0 == rest.value.0;
      assert done + more + rest.value.0 == done + (more + rest.value.0);
    }
  }

  lemma FindFront(symbols: seq<Symbol>, i: nat, id: Path)
    requires i < |symbols|
    ensures FindSymbol(symbols[i..], id) ==
            if symbols[i].id == id then Some(symbols[i]) else FindSymbol(symbols[i + 1..], id)
  {
    assert symbols[i..][1..] == symbols[i + 1..];
  }

  /** aggregateStack: pops a copy of the frames, innermost first; `back()` on no frames is undefined. */
  method AggregateStack(stack: seq<Frame>) returns (r: Result<seq<Symbol>, Error>)
    ensures r == if stack == [] then Failure(EmptyStack) else Success(Aggregate(stack))
  {
    if stack == [] { return Failure(EmptyStack); }
    var frames := stack;
    var symbols := frames[|frames| - 1];
    frames := frames[..|frames| - 1];
    while frames != []
      invariant symbols + Aggregate(frames) == Aggregate(stack)
      decreases |frames|
    {
      symbols := symbols + frames[|frames| - 1];
      frames := frames[..|frames| - 1];
    }
    assert symbols + [] == symbols;
    return Success(symbols);
  }

  lemma ForcedForFront(forced: seq<(Type, Symbol)>, i: nat, key: Type, before: seq<Symbol>)
    requires i < |forced|
    ensures var more := if Equivalent(forced[i].0, key) then [forced[i].1] else [];
            before + Resolver.ForcedFor(forced[i..], key) == before + more + Resolver.ForcedFor(forced[i + 1..], key)
    ensures before + [] == before
  {
    assert forced[i..][1..] == forced[i + 1..];
    var more := if Equivalent(forced[i].0, key) then [forced[i].1] else [];
    assert before + (more + Resolver.ForcedFor(forced[i + 1..], key))
           == before + more + Resolver.ForcedFor(forced[i + 1..], key);
  }

  /** std::find_if over the constructors that were found. */
  method FindReturning(candidates: seq<Symbol>, target: Type) returns (r: Result<Option<Symbol>, Error>)
    ensures r == Resolver.FirstReturning(candidates, target)
  {
    for i := 0 to |candidates|
      invariant Resolver.FirstReturning(candidates[i..], target) == Resolver.FirstReturning(candidates, target)
    {
      assert candidates[i..][1..] == candidates[i + 1..];
      if !candidates[i].sort.Function? { return Failure(NotAFunction); }
      var same := Equals(candidates[i].sort.output, target);
      if same.None? { return Failure(UndecidedEquality); }
      if same.value { return Success(Some(candidates[i])); }
    }
    return Success(None);
  }

  /** One declaration more has been elaborated. */
  lemma DriveOn(done: seq<Extrapolated>, nodes: seq<Node>, i: nat, ctx: Context, loader: Loader)
    requires i < |nodes|
    ensures PrependTo(done, Drive(nodes[i..], ctx, loader)) ==
            match DriveOne(nodes[i], ctx, loader)
            case Failure(e) => Failure(e)
            case Success(step) => PrependTo(done + step.0, Drive(nodes[i + 1..], step.1, loader))
  {
    assert nodes[i..][1..] == nodes[i + 1..];
    var step := DriveOne(nodes[i], ctx, loader);
    if step.Success? { PrependSome(done, step.value.0, Drive(nodes[i + 1..], step.value.1, loader)); }
  }

  /** The end of getOverload: one convertible overload is called, none or several are refused. */
  function OnlyCandidate(possible: seq<Symbol>, args: seq<Expr>): Result<Expr, Error> {
    if |possible| == 1 then Resolver.MakeCall(possible[0], args) else Failure(NoOverload)
  }

  class Program {
    var currentNamespace: Path
    var symbols: Bindings
    var externalSymbols: seq<(string, Bindings)>
    var forcedConstructors: seq<(Type, Symbol)>
    var opOverloads: seq<(string, Symbol)>
    var stackFrames: seq<Frame>
    var extrapolatedSymbols: seq<Extrapolated>

    function Ctx(): Context
      reads this
    {
      Context(currentNamespace, symbols, externalSymbols, forcedConstructors, opOverloads)
    }

    constructor ()
      ensures Ctx() == Context([], map[], [], [], [])
      ensures stackFrames == [] && extrapolatedSymbols == []
    {
      currentNamespace, symbols, externalSymbols := [], map[], [];
      forcedConstructors, opOverloads := [], [];
      stackFrames, extrapolatedSymbols := [], [];
    }

    // ----- Lookup and implicit conversions --------------------------------------

    method GetSymbol(id: Path) returns (r: Result<Symbol, Error>)
      ensures r == Lookup(id, EnvOf(stackFrames), Ctx())
    {
      var stack :- AggregateStack(stackFrames);
      VisibleIsFlatten(stackFrames);
      AggregateFinds(stackFrames, id);
      for i := 0 to |stack|
        invariant FindSymbol(stack[i..], id) == FindSymbol(stack, id)
      {
        FindFront(stack, i, id);
        if stack[i].id == id { return Success(stack[i]); }
      }
      if id in symbols { return Success(symbols[id]); }
      for i := 0 to |externalSymbols|
        invariant FindExternal(externalSymbols[i..], id) == FindExternal(externalSymbols, id)
      {
        assert externalSymbols[i..][1..] == externalSymbols[i + 1..];
        if id in externalSymbols[i].1 { return Success(externalSymbols[i].1[id]); }
      }
      return Failure(BadSymbol(id));
    }

    /** The constructors that equal_range returns for a type. */
    method PossibleConstructors(key: Type) returns (possible: seq<Symbol>)
      ensures possible == Resolver.ForcedFor(forcedConstructors, key)
    {
      possible := [];
      for i := 0 to |forcedConstructors|
        invariant possible + Resolver.ForcedFor(forcedConstructors[i..], key)
                  == Resolver.ForcedFor(forcedConstructors, key)
      {
        ForcedForFront(forcedConstructors, i, key, possible);
        if Equivalent(forcedConstructors[i].0, key) {
          possible := possible + [forcedConstructors[i].1];
        }
      }
      assert possible + [] == possible;
    }

    /** forceUpgrade. */
    method ForceUpgrade(e: Expr, target: Type) returns (r: Result<Expr, Error>)
      ensures r == Resolver.ForceUpgrade(e, target, Ctx())
    {
      var candidates := PossibleConstructors(e.sort);
      if |candidates| > 0 {
        var found :- FindReturning(candidates, target);
        if found.Some? {
          return Resolver.MakeCall(found.value, [e]);
        } else if |candidates| == 1 {
          return Resolver.MakeCall(candidates[0], [e]);
        }
      }
      return Success(e);
    }

    /** coerceType: the expression itself or nothing; upgrades are not attempted. */
    method CoerceType(e: Expr, target: Type) returns (r: Result<Option<Expr>, Error>)
      ensures r == match Equals(e.sort, target)
                   case None => Failure(UndecidedEquality)
                   case Some(same) => Success(if same then Some(e) else None)
    {
      var same := Equals(e.sort, target);
      if same.None? { return Failure(UndecidedEquality); }
      return Success(if same.value then Some(e) else None);
    }

    /** getOverload: the list of convertible overloads is kept as in the source, and proved to stay
        empty, so its two branches for one and for several candidates are never taken. */
    method GetOverload(l: Expr, r: Expr, op: string) returns (call: Result<Expr, Error>)
      ensures call == Resolver.GetOverload(l, r, op, opOverloads)
    {
      var possible: seq<Symbol> := [];
      for i := 0 to |opOverloads|
        invariant possible == []
        invariant Resolver.GetOverload(l, r, op, opOverloads[i..]) == Resolver.GetOverload(l, r, op, opOverloads)
      {
        assert opOverloads[i..][1..] == opOverloads[i + 1..];
        if opOverloads[i].0 != op { continue; }
        var s := opOverloads[i].1;
        if !s.sort.Function? { return Failure(NotAFunction); }
        if |s.sort.input| < 2 { return Failure(OutOfRange); }
        var t1, t2 := s.sort.input[0], s.sort.input[1];
        EqualsSymmetric(t1, l.sort);
        EqualsSymmetric(t2, r.sort);
        var left := Equals(t1, l.sort);
        if left.None? { return Failure(UndecidedEquality); }
        if left.value {
          var right := Equals(t2, r.sort);
          if right.None? { return Failure(UndecidedEquality); }
          if right.value { return Resolver.MakeCall(s, [l, r]); }
        }
        var cl := CoerceType(l, t1);
        var cr := CoerceType(r, t2);
        if cl.Failure? || cr.Failure? { return Failure(UndecidedEquality); }
        if cl.value.Some? && cr.value.Some? {
          possible := possible + [s];
        }
      }
      return OnlyCandidate(possible, [l, r]);
    }

    method CoerceArgs(args: seq<Expr>, params: seq<Type>) returns (r: Result<seq<Expr>, Error>)
      ensures r == Resolver.CoerceArgs(args, params)
    {
      var exprs: seq<Expr> := [];
      PrependNothing(Resolver.CoerceArgs(args, params));
      for i := 0 to |params|
        invariant i <= |args|
        invariant Prepend(exprs, Resolver.CoerceArgs(args[i..], params[i..])) == Resolver.CoerceArgs(args, params)
      {
        if i >= |args| { return Failure(OutOfRange); }
        assert args[i..][1..] == args[i + 1..] && params[i..][1..] == params[i + 1..];
        var arg :- CoerceType(args[i], params[i]);
        if arg.None? { return Failure(TypeMismatch); }
        PrependOne(exprs, arg.value, Resolver.CoerceArgs(args[i + 1..], params[i + 1..]));
        exprs := exprs + [arg.value];
      }
      assert exprs + [] == exprs;
      return Success(exprs);
    }

    // ----- Expressions ------------------------------------------------------------

    /** _extrapolate: leaves the stack exactly as it was. */
    method ExtrapolateExpr(n: Node) returns (r: Result<Option<Expr>, Error>)
      modifies this`stackFrames
      decreases n, 1
      ensures r == Resolver.ElabExpr(n, EnvOf(old(stackFrames)), Ctx())
      ensures r.Success? ==> stackFrames == old(stackFrames)
    {
      match n.kind
      case FUNCDEF => r := ExtrapolateFunction(n);
      case EXPRBASIC => r := ExtrapolateOperator(n);
      case ARGLIST =>
        var exprs :- ExtrapolateArgs(n);
        var args :- Resolver.MakeArgs(exprs);
        r := Success(Some(args));
      case VALSTR => r := Success(Some(StringValue(TextType(|n.text|), n.text)));
      case VALINT => r := Success(Some(IntValue(BitArray(64), n.number)));
      case VALFLOAT => r := Success(Some(FloatValue(BitArray(64), n.decimal)));
      case VALBIT => r := Success(Some(BitValue(BIT, n.flag)));
      case FQUALPATH =>
        var id :- MakeIdentifier(n, true, currentNamespace);
        var s :- GetSymbol(id);
        r := Success(Some(SymbolExpr(s.sort, s)));
      case NONE => r := Success(None);
      case _ => r := Failure(Unhandled);
    }

    method ExtrapolateArgs(n: Node) returns (r: Result<seq<Option<Expr>>, Error>)
      modifies this`stackFrames
      decreases n, 0
      ensures r == Resolver.ElabExprs(n.children, EnvOf(old(stackFrames)), Ctx())
      ensures r.Success? ==> stackFrames == old(stackFrames)
    {
      var exprs: seq<Option<Expr>> := [];
      PrependNothing(Resolver.ElabExprs(n.children, EnvOf(stackFrames), Ctx()));
      for i := 0 to |n.children|
        invariant stackFrames == old(stackFrames)
        invariant Prepend(exprs, Resolver.ElabExprs(n.children[i..], EnvOf(stackFrames), Ctx()))
               == Resolver.ElabExprs(n.children, EnvOf(stackFrames), Ctx())
      {
        assert n.children[i..][1..] == n.children[i + 1..];
        var e :- ExtrapolateExpr(n.children[i]);
        PrependOne(exprs, e, Resolver.ElabExprs(n.children[i + 1..], EnvOf(stackFrames), Ctx()));
        exprs := exprs + [e];
      }
      assert exprs + [] == exprs;
      return Success(exprs);
    }

    method ExtrapolateFunction(n: Node) returns (r: Result<Option<Expr>, Error>)
      modifies this`stackFrames
      decreases n, 0
      ensures r == Resolver.ElabFunction(n, EnvOf(old(stackFrames)), Ctx())
      ensures r.Success? ==> stackFrames == old(stackFrames)
    {
      var sort :- FunctionType(n, currentNamespace);
      var frame :- ParamSymbols(n.children[1].children, currentNamespace);
      PushIsEnter(stackFrames, frame);
      stackFrames := stackFrames + [frame];
      var body :- ExtrapStmt(n.children[0]);
      stackFrames := stackFrames[..|stackFrames| - 1];
      return Success(Some(FuncValue(sort, body)));
    }

    method ExtrapolateOperator(n: Node) returns (r: Result<Option<Expr>, Error>)
      modifies this`stackFrames
      decreases n, 0
      ensures r == Resolver.ElabOperator(n, EnvOf(old(stackFrames)), Ctx())
      ensures r.Success? ==> stackFrames == old(stackFrames)
    {
      if n.children == [] { return Failure(OutOfRange); }
      var left :- ExtrapolateExpr(n.children[0]);
      var l :- Resolver.NonNull(left);
      l :- ForceUpgrade(l, Unknown);
      if |n.children| == 1 { return Success(None); }
      var right :- ExtrapolateExpr(n.children[1]);
      var e :- Resolver.NonNull(right);
      if l.sort.Function? && n.text == "()" {
        if !e.ArgsExpr? { return Failure(BadCast); }
        var args :- CoerceArgs(e.exprs, l.sort.input);
        return Success(Some(CallExpr(l.sort.output, l, args)));
      } else if l.sort.Tuple? || l.sort.Single? {
        e :- ForceUpgrade(e, Unknown);
        var call :- GetOverload(l, e, n.text);
        return Success(Some(call));
      } else {
        return Failure(Unhandled);
      }
    }

    // ----- Statements -------------------------------------------------------------

    /** _extrapStmt. */
    method ExtrapStmt(n: Node) returns (r: Result<Option<Stmt>, Error>)
      modifies this`stackFrames
      decreases n, 2
      ensures Matches(Resolver.ElabStmt(n, EnvOf(old(stackFrames)), Ctx()), r, old(stackFrames), stackFrames)
    {
      if Resolver.IsExprStmt(n.kind) {
        var e :- ExtrapolateExpr(n);
        return Success(Resolver.AsStmt(e));
      }
      if Resolver.IsLoop(n.kind) {
        r := ExtrapLoop(n);
        return;
      }
      match n.kind
      case DECL => r := ExtrapDecl(n);
      case BLOCK => r := ExtrapBlock(n);
      case STMTRTN => r := ExtrapReturn(n);
      case STMTIF => r := ExtrapIf(n);
      case NONE => r := Success(None);
      case _ => r := Failure(Unhandled);
    }

    /** The cases of _extrapStmt for loops. */
    method ExtrapLoop(n: Node) returns (r: Result<Option<Stmt>, Error>)
      requires Resolver.IsLoop(n.kind)
      modifies this`stackFrames
      decreases n, 1, 1
      ensures Matches(Resolver.ElabLoop(n, EnvOf(old(stackFrames)), Ctx()), r, old(stackFrames), stackFrames)
    {
      if n.kind == STMTDOFOR {
        r := ExtrapDoFor(n);
      } else if n.kind == STMTFOR {
        r := ExtrapFor(n);
      } else {
        r := ExtrapWhile(n);
      }
    }

    method ExtrapReturn(n: Node) returns (r: Result<Option<Stmt>, Error>)
      requires n.kind == STMTRTN
      modifies this`stackFrames
      decreases n, 1
      ensures Matches(Resolver.ElabStmt(n, EnvOf(old(stackFrames)), Ctx()), r, old(stackFrames), stackFrames)
    {
      if n.children == [] { return Failure(OutOfRange); }
      var value :- ExtrapolateExpr(n.children[0]);
      return Success(Some(ReturnStmt(value)));
    }

    method ExtrapDecl(n: Node) returns (r: Result<Option<Stmt>, Error>)
      modifies this`stackFrames
      decreases n, 1
      ensures Matches(Resolver.ElabDecl(n, EnvOf(old(stackFrames)), Ctx()), r, old(stackFrames), stackFrames)
    {
      if n.children == [] { return Failure(OutOfRange); }
      var sort := Unknown;
      var expressionIndex := 0;
      if IsTypeNode(n.children[0]) {
        sort :- MakeType(n.children[0], currentNamespace);
        expressionIndex := 1;
      }
      sort :- ExtrapDeclaredSort(n, expressionIndex, sort);
      if stackFrames == [] { return Failure(EmptyStack); }
      var last := |stackFrames| - 1;
      var s := Symbol(sort, [n.text], {});
      DeclareIsAppend(stackFrames, s);
      stackFrames := stackFrames[last := stackFrames[last] + [s]];
      return Success(Some(DeclStmt([n.text], sort)));
    }

    method ExtrapBlock(n: Node) returns (r: Result<Option<Stmt>, Error>)
      requires n.kind == BLOCK
      modifies this`stackFrames
      decreases n, 1
      ensures Matches(Resolver.ElabStmt(n, EnvOf(old(stackFrames)), Ctx()), r, old(stackFrames), stackFrames)
    {
      PushIsEnter(stackFrames, []);
      stackFrames := stackFrames + [[]];
      var statements :- ExtrapStmts(n.children);
      stackFrames := stackFrames[..|stackFrames| - 1];
      return Success(Some(BlockStmt(statements)));
    }

    /** The declared type, or that of the initialiser if there is one. */
    method ExtrapDeclaredSort(n: Node, expressionIndex: nat, declared: Type) returns (r: Result<Type, Error>)
      modifies this`stackFrames
      decreases n, 0
      ensures r == Resolver.DeclaredSort(n, expressionIndex, declared, EnvOf(old(stackFrames)), Ctx())
      ensures r.Success? ==> stackFrames == old(stackFrames)
    {
      if |n.children| <= expressionIndex || n.children[expressionIndex].kind == ATTRS { return Success(declared); }
      var value :- ExtrapolateExpr(n.children[expressionIndex]);
      var e :- Resolver.NonNull(value);
      e :- ForceUpgrade(e, declared);
      if declared != Unknown {
        var same := Equals(e.sort, declared);
        if same.None? { return Failure(UndecidedEquality); }
        if !same.value { return Failure(TypeMismatch); }
      }
      return Success(e.sort);
    }

    /** The loop over the statements of a block. */
    method ExtrapStmts(nodes: seq<Node>) returns (r: Result<seq<Option<Stmt>>, Error>)
      modifies this`stackFrames
      decreases nodes, 0
      ensures Matches(Resolver.ElabStmts(nodes, EnvOf(old(stackFrames)), Ctx()), r, old(stackFrames), stackFrames)
    {
      var statements: seq<Option<Stmt>> := [];
      PrependSome([], [], Resolver.ElabStmts(nodes, EnvOf(stackFrames), Ctx()));
      for i := 0 to |nodes|
        invariant KeepsOuter(old(stackFrames), stackFrames)
        invariant PrependTo(statements, Resolver.ElabStmts(nodes[i..], EnvOf(stackFrames), Ctx()))
               == Resolver.ElabStmts(nodes, EnvOf(old(stackFrames)), Ctx())
      {
        assert nodes[i..][1..] == nodes[i + 1..];
        var s :- ExtrapStmt(nodes[i]);
        PrependSome(statements, [s], Resolver.ElabStmts(nodes[i + 1..], EnvOf(stackFrames), Ctx()));
        statements := statements + [s];
      }
      assert statements + [] == statements;
      return Success(statements);
    }

    method ExtrapWhile(n: Node) returns (r: Result<Option<Stmt>, Error>)
      modifies this`stackFrames
      decreases n, 1, 0
      ensures Matches(Resolver.ElabWhile(n, EnvOf(old(stackFrames)), Ctx()), r, old(stackFrames), stackFrames)
    {
      if n.children == [] { return Failure(OutOfRange); }
      var cond :- ExtrapolateExpr(n.children[0]);
      var loop :- ExtrapStmt(n.children[0]);
      return Success(Some(WhileStmt(cond, loop, n.kind == STMTDOWHILE)));
    }

    method ExtrapDoFor(n: Node) returns (r: Result<Option<Stmt>, Error>)
      modifies this`stackFrames
      decreases n, 1, 0
      ensures Matches(Resolver.ElabDoFor(n, EnvOf(old(stackFrames)), Ctx()), r, old(stackFrames), stackFrames)
    {
      PushIsEnter(stackFrames, []);
      stackFrames := stackFrames + [[]];
      var decl: Option<Stmt> := None;
      if |n.children| > 2 {
        decl :- ExtrapStmt(n.children[2]);
      }
      var parts :- ExtrapLoopParts(n, 0);
      stackFrames := stackFrames[..|stackFrames| - 1];
      return Success(Some(ForStmt(decl, parts.0, parts.1, parts.2, true)));
    }

    method ExtrapFor(n: Node) returns (r: Result<Option<Stmt>, Error>)
      modifies this`stackFrames
      decreases n, 1, 0
      ensures Matches(Resolver.ElabFor(n, EnvOf(old(stackFrames)), Ctx()), r, old(stackFrames), stackFrames)
    {
      PushIsEnter(stackFrames, []);
      stackFrames := stackFrames + [[]];
      var header :- Child(n, 0);
      var start :- Child(header, 0);
      var decl :- ExtrapStmt(start);
      var parts :- ExtrapLoopParts(n, 1);
      stackFrames := stackFrames[..|stackFrames| - 1];
      return Success(Some(ForStmt(decl, parts.0, parts.1, parts.2, false)));
    }

    method ExtrapLoopParts(n: Node, at: nat) returns (r: Result<(Option<Expr>, Option<Expr>, Option<Stmt>), Error>)
      modifies this`stackFrames
      decreases n, 0
      ensures r == Resolver.ElabLoopParts(n, at, EnvOf(old(stackFrames)), Ctx())
      ensures r.Success? ==> KeepsOuter(old(stackFrames), stackFrames)
    {
      var header :- Child(n, 0);
      var test :- Child(header, at);
      var cond :- ExtrapolateExpr(test);
      var step :- Child(header, at + 1);
      var inc :- ExtrapolateExpr(step);
      var body :- Child(n, 1);
      var loop :- ExtrapStmt(body);
      return Success((cond, inc, loop));
    }

    method ExtrapIf(n: Node) returns (r: Result<Option<Stmt>, Error>)
      modifies this`stackFrames
      decreases n, 1
      ensures Matches(Resolver.ElabIf(n, EnvOf(old(stackFrames)), Ctx()), r, old(stackFrames), stackFrames)
    {
      var first :- Child(n, 0);
      var test :- ExtrapolateExpr(first);
      var second :- Child(n, 1);
      var yes :- ExtrapStmt(second);
      var no: Option<Stmt> := None;
      if |n.children| > 2 {
        no :- ExtrapStmt(n.children[2]);
      }
      return Success(Some(IfStmt(test, yes, no)));
    }

    // ----- The two passes ---------------------------------------------------------

    /** The state after a registration step that succeeded with this context. */
    ghost predicate Holds(ctx: Context)
      reads this
    {
      Ctx() == ctx
    }

    /** findSymbols. */
    method FindSymbols(nodes: seq<Node>) returns (r: Result<(), Error>)
      modifies this`currentNamespace, this`symbols, this`forcedConstructors, this`opOverloads
      decreases nodes, 0
      ensures match Register(nodes, old(Ctx()))
              case Failure(e) => r == Failure(e)
              case Success(ctx) => r == Success(()) && Holds(ctx)
    {
      for i := 0 to |nodes|
        invariant Register(nodes[i..], Ctx()) == Register(nodes, old(Ctx()))
      {
        assert nodes[i..][1..] == nodes[i + 1..];
        var _ :- FindSymbol1(nodes[i]);
      }
      return Success(());
    }

    method FindSymbol1(n: Node) returns (r: Result<(), Error>)
      modifies this`currentNamespace, this`symbols, this`forcedConstructors, this`opOverloads
      decreases n, 1
      ensures match RegisterOne(n, old(Ctx()))
              case Failure(e) => r == Failure(e)
              case Success(ctx) => r == Success(()) && Holds(ctx)
    {
      if Encloses(n) {
        r := FindEnclosed(n);
      } else {
        r := FindLeaf(n);
      }
    }

    method FindEnclosed(n: Node) returns (r: Result<(), Error>)
      requires Encloses(n)
      modifies this`currentNamespace, this`symbols, this`forcedConstructors, this`opOverloads
      decreases n, 0
      ensures match RegisterEnclosed(n, old(Ctx()))
              case Failure(e) => r == Failure(e)
              case Success(ctx) => r == Success(()) && Holds(ctx)
    {
      if n.kind == TYPEDECL {
        currentNamespace := currentNamespace + [n.text];
        var def :- Child(n, 0);
        var body :- Child(def, 0);
        var _ :- FindSymbols(body.children);
        if currentNamespace == [] { return Failure(EmptyNamespace); }
        currentNamespace := currentNamespace[..|currentNamespace| - 1];
        var s :- DeclaredSymbol(n, currentNamespace);
        Emplace(s);
      } else {
        var path :- Child(n, 0);
        currentNamespace :- MakeIdentifier(path, true, currentNamespace);
        var body :- Child(n, 1);
        var _ :- FindSymbols(body.children);
        currentNamespace := [];
      }
      r := Success(());
    }

    method FindLeaf(n: Node) returns (r: Result<(), Error>)
      modifies this`symbols, this`forcedConstructors, this`opOverloads
      ensures match RegisterLeaf(n, old(Ctx()))
              case Failure(e) => r == Failure(e)
              case Success(ctx) => r == Success(()) && Holds(ctx)
    {
      match n.kind
      case DECL =>
        var s :- DeclaredSymbol(n, currentNamespace);
        Emplace(s);
        r := Success(());
      case CTORDEF => r := FindConstructor(n);
      case DTORDEF =>
        if n.children == [] { return Failure(OutOfRange); }
        Emplace(Symbol(Single(currentNamespace, None), currentNamespace + ["del"], Attributes(n)));
        r := Success(());
      case OPOVERLOAD =>
        var first :- Child(n, 0);
        var sort :- FunctionType(first, currentNamespace);
        var s := Symbol(sort, currentNamespace + [n.text], Attributes(n));
        Emplace(s);
        opOverloads := opOverloads + [(n.text, s)];
        r := Success(());
      case _ => r := Success(());
    }

    method FindConstructor(n: Node) returns (r: Result<(), Error>)
      requires n.kind == CTORDEF
      modifies this`symbols, this`forcedConstructors
      ensures match RegisterConstructor(n, old(Ctx()))
              case Failure(e) => r == Failure(e)
              case Success(ctx) => r == Success(()) && Holds(ctx)
    {
      var list :- Child(n, 0);
      var params :- ParamTypes(list.children, currentNamespace);
      var s := Symbol(Function(params, Single(currentNamespace, None)), currentNamespace + ["new"], Attributes(n));
      if "forced" in s.attrs {
        if |params| > 1 { return Failure(ForcedArity); }
        if |params| == 0 { return Failure(OutOfRange); }
        forcedConstructors := Resolver.FileForced(forcedConstructors, (params[0], s));
      }
      Emplace(s);
      r := Success(());
    }

    /** std::map::emplace: an existing entry stays. */
    method Emplace(s: Symbol)
      modifies this`symbols
      ensures Ctx() == AddSymbol(old(Ctx()), s)
    {
      if s.id !in symbols {
        symbols := symbols[s.id := s];
      }
    }

    /** The outcome and new state of the second pass, from what was elaborated before; the stack ends as
        empty as it began. */
    ghost predicate Drove(spec: Result<(seq<Extrapolated>, Context), Error>, r: Result<(), Error>,
                          before: seq<Extrapolated>)
      reads this
    {
      match spec
      case Failure(e) => r == Failure(e)
      case Success(v) =>
        && r == Success(())
        && Ctx() == v.1
        && stackFrames == []
        && extrapolatedSymbols == before + v.0
    }

    /** extrapolate. */
    method Extrapolate(nodes: seq<Node>, loader: Loader) returns (r: Result<(), Error>)
      requires stackFrames == []
      modifies this
      decreases nodes, 0
      ensures Drove(Drive(nodes, old(Ctx()), loader), r, old(extrapolatedSymbols))
    {
      ghost var done: seq<Extrapolated> := [];
      ghost var whole := Drive(nodes, Ctx(), loader);
      PrependSome([], [], whole);
      for i := 0 to |nodes|
        invariant stackFrames == []
        invariant extrapolatedSymbols == old(extrapolatedSymbols) + done
        invariant whole == PrependTo(done, Drive(nodes[i..], Ctx(), loader))
      {
        DriveOn(done, nodes, i, Ctx(), loader);
        ghost var step := DriveOne(nodes[i], Ctx(), loader);
        var _ :- Extrapolate1(nodes[i], loader);
        done := done + step.value.0;
      }
      assert done + [] == done;
      return Success(());
    }

    method Extrapolate1(n: Node, loader: Loader) returns (r: Result<(), Error>)
      requires stackFrames == []
      modifies this
      decreases n, 1
      ensures Drove(DriveOne(n, old(Ctx()), loader), r, old(extrapolatedSymbols))
    {
      if Encloses(n) {
        r := ExtrapolateEnclosed(n, loader);
      } else {
        r := ExtrapolateLeaf(n, loader);
      }
    }

    method ExtrapolateLeaf(n: Node, loader: Loader) returns (r: Result<(), Error>)
      requires stackFrames == []
      modifies this
      ensures Drove(DriveLeaf(n, old(Ctx()), loader), r, old(extrapolatedSymbols))
    {
      match n.kind
      case DECL =>
        var first :- Child(n, 0);
        if IsTypeNode(first) {
          var _ :- MakeType(first, currentNamespace);
        }
        r := Success(());
      case RUN => r := ExtrapolateFunctionDecl(n);
      case OPOVERLOAD => r := ExtrapolateFunctionDecl(n);
      case LOAD => r := ExtrapolateLoad(n, loader);
      case CTORDEF => r := ExtrapolateConstructor(n);
      case DTORDEF => r := ExtrapolateDestructor(n);
      case _ => r := Success(());
    }

    /** The function of a run or of an operator. */
    method ExtrapolateFunctionDecl(n: Node) returns (r: Result<(), Error>)
      requires stackFrames == [] && (n.kind == RUN || n.kind == OPOVERLOAD)
      modifies this
      ensures Drove(DriveFunction(n, old(Ctx())), r, old(extrapolatedSymbols))
    {
      if n.kind == RUN {
        var first :- Child(n, 0);
        var sort :- FunctionType(first, currentNamespace);
        var e :- ExtrapolateExpr(first);
        Push(Symbol(sort, ["run", "0"], {}), Resolver.AsStmt(e), true);
      } else {
        var s :- Registered(Ctx(), currentNamespace + [n.text]);
        var first :- Child(n, 0);
        var e :- ExtrapolateExpr(first);
        Push(s, Resolver.AsStmt(e), false);
      }
      r := Success(());
    }

    method ExtrapolateLoad(n: Node, loader: Loader) returns (r: Result<(), Error>)
      requires stackFrames == []
      modifies this`externalSymbols
      ensures Drove(DriveLoad(n, old(Ctx()), loader), r, old(extrapolatedSymbols))
    {
      var path :- Child(n, 0);
      var file :- Child(path, 0);
      var name := FileName(file) + ".lok";
      if name !in loader.canonical { return Failure(NoFile); }
      var key := loader.canonical[name];
      externalSymbols := SetExternal(externalSymbols, key, if key in loader.programs then loader.programs[key]
                                     else map[]);
      r := Success(());
      assert extrapolatedSymbols + [] == extrapolatedSymbols;
    }

    /** The declarations inside a namespace or a type. */
    method ExtrapolateEnclosed(n: Node, loader: Loader) returns (r: Result<(), Error>)
      requires stackFrames == [] && Encloses(n)
      modifies this
      decreases n, 0
      ensures Drove(DriveEnclosed(n, old(Ctx()), loader), r, old(extrapolatedSymbols))
    {
      if n.kind == NAMESPACE {
        var path :- Child(n, 0);
        var id :- MakeIdentifier(path, true, currentNamespace);
        var body :- Child(n, 1);
        r := ExtrapolateWithin(body.children, id, [], loader);
      } else {
        var def :- Child(n, 0);
        var body :- Child(def, 0);
        r := ExtrapolateWithin(body.children, currentNamespace + [n.text], currentNamespace, loader);
      }
    }

    method ExtrapolateWithin(nodes: seq<Node>, ns: Path, after: Path, loader: Loader) returns (r: Result<(), Error>)
      requires stackFrames == []
      modifies this
      decreases nodes, 1
      ensures Drove(DriveWithin(nodes, ns, after, old(Ctx()), loader), r, old(extrapolatedSymbols))
    {
      currentNamespace := ns;
      assert Ctx() == old(Ctx()).(ns := ns);
      var _ :- Extrapolate(nodes, loader);
      currentNamespace := after;
      r := Success(());
    }

    method ExtrapolateDestructor(n: Node) returns (r: Result<(), Error>)
      requires stackFrames == [] && n.kind == DTORDEF
      modifies this
      ensures Drove(DriveDestructor(n, old(Ctx())), r, old(extrapolatedSymbols))
    {
      var s :- Registered(Ctx(), currentNamespace + ["del"]);
      var body :- Child(n, 0);
      var block :- ExtrapStmt(body);
      Push(s, block, false);
      r := Success(());
    }

    /** The block of a constructor is its second or its third child. */
    method ExtrapolateConstructor(n: Node) returns (r: Result<(), Error>)
      requires stackFrames == [] && n.kind == CTORDEF
      modifies this
      ensures Drove(DriveConstructor(n, old(Ctx())), r, old(extrapolatedSymbols))
    {
      var s :- Registered(Ctx(), currentNamespace + ["new"]);
      var second :- Child(n, 1);
      if second.kind == BLOCK {
        var block :- ExtrapStmt(second);
        Push(s, block, false);
      } else if |n.children| >= 3 && n.children[2].kind == BLOCK {
        var block :- ExtrapStmt(n.children[2]);
        Push(s, block, false);
      }
      r := Success(());
      assert extrapolatedSymbols + [] == extrapolatedSymbols;
    }

    method Push(s: Symbol, value: Option<Stmt>, owned: bool)
      modifies this`extrapolatedSymbols
      ensures extrapolatedSymbols == old(extrapolatedSymbols) + [Extrapolated(s, value, owned)]
    {
      extrapolatedSymbols := extrapolatedSymbols + [Extrapolated(s, value, owned)];
    }
  }
}
