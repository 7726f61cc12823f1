/** Parse trees, the typed program the elaborator builds from them, and the constructors that read
    types and identifiers off a tree (src/grammar.ypp, src/program.hpp, src/constructs.cpp). */
module LokSyntax {
  import opened Wrappers
  import opened LokTypes

  datatype Kind =
    | NONE | LOAD | RUN | FUNCDEF | BLOCK | TYPESINGLE | TYPEMULTI | TYPEFN | PARAMLIST | PARAM
    | DECL | LIBNAME | FILEPATH | EXPRBASIC | EXPRDECL | VALINT | VALFLOAT | VALSTR | STMTIF | STMTFOR
    | ARGLIST | TYPEQUALPTR | TYPEQUALUPG | TYPEQUALARR | STMTWHILE | ARGSFOR | TYPEDEF | CTORDEF
    | CTORINIT | ATTRS | ATTR | NAMESPACE | STMTRTN | DTORDEF | OPOVERLOAD | VALBIT | TYPEDECL
    | STMTDOWHILE | STMTDOFOR | QUALPATH | FQUALPATH

  /** `text` is the interned string of the node; `number`, `decimal` and `flag` are its literal values. */
  datatype Node = Node(kind: Kind, text: string, number: int, decimal: real, flag: bool, children: seq<Node>)

  /** Every way a pass can stop: a throw, or an access that is undefined in the source. */
  datatype Error =
    | OutOfRange
    | NullExpression
    | EmptyStack
    | EmptyNamespace
    | BadSymbol(id: Path)
    | BadCast
    | NotAFunction
    | NotAType
    | TypeMismatch
    | UndecidedEquality
    | NoOverload
    | Unhandled
    | ForcedArity
    | Unregistered(id: Path)
    | NoFile

  datatype Symbol = Symbol(sort: Type, id: Path, attrs: set<string>)

  /** Each expression stores its own type, as the source's Expr objects do. */
  datatype Expr =
    | IntValue(sort: Type, int)
    | FloatValue(sort: Type, real)
    | BitValue(sort: Type, bool)
    | StringValue(sort: Type, string)
    | FuncValue(sort: Type, body: Option<Stmt>)
    | CallExpr(sort: Type, callee: Expr, args: seq<Expr>)
    | ArgsExpr(sort: Type, exprs: seq<Expr>)
    | SymbolExpr(sort: Type, symbol: Symbol)

  datatype Stmt =
    | ExprStmt(expr: Expr)
    | DeclStmt(id: Path, sort: Type)
    | BlockStmt(stmts: seq<Option<Stmt>>)
    | WhileStmt(cond: Option<Expr>, loop: Option<Stmt>, isDo: bool)
    | ForStmt(decl: Option<Stmt>, cond: Option<Expr>, inc: Option<Expr>, loop: Option<Stmt>, isDo: bool)
    | ReturnStmt(value: Option<Expr>)
    | IfStmt(test: Option<Expr>, yes: Option<Stmt>, no: Option<Stmt>)

  /** Neither of the two failures that speak of the compiler's own state. */
  predicate Local(e: Error) {
    !e.EmptyStack? && !e.Unregistered?
  }

  function Child(n: Node, i: nat): (r: Result<Node, Error>)
    ensures r.Failure? ==> Local(r.error)
    ensures r.Success? ==> i < |n.children| && r.value == n.children[i]
  {
    if i < |n.children| then Success(n.children[i]) else Failure(OutOfRange)
  }

  predicate IsTypeNode(n: Node) {
    n.kind in {TYPESINGLE, TYPEMULTI, TYPEFN}
  }

  /** The texts along the chain of first children. */
  function Chain(n: Node): Path {
    if n.children == [] then [n.text] else [n.text] + Chain(n.children[0])
  }

  /** The paths that elaborating a tree may look up. The types of declarations and parameters name types, which
      are not looked up. */
  function Mentions(n: Node): set<Path>
    decreases n, 0
  {
    if n.children == [] then {}
    else match n.kind
      case FQUALPATH => {Chain(n.children[0])} + MentionsAll(n.children)
      case FUNCDEF => Mentions(n.children[0])
      case CTORDEF => MentionsAll(n.children[1..])
      case STMTFOR => MentionsAll(n.children[0].children) + MentionsAll(n.children[1..])
      case STMTDOFOR => MentionsAll(n.children[0].children) + MentionsAll(n.children[1..])
      case DECL => if IsTypeNode(n.children[0]) then MentionsAll(n.children[1..]) else MentionsAll(n.children)
      case _ => MentionsAll(n.children)
  }

  function MentionsAll(nodes: seq<Node>): (names: set<Path>)
    ensures forall n <- nodes :: Mentions(n) <= names
    decreases nodes, 1
  {
    if nodes == [] then {} else Mentions(nodes[0]) + MentionsAll(nodes[1..])
  }

  /** Identifier(node, ignoreCurrentNamespace, context). */
  function MakeIdentifier(n: Node, ignore: bool, ns: Path): (r: Result<Path, Error>)
    ensures r.Failure? ==> Local(r.error)
  {
    var first :- Child(n, 0);
    Success((if ignore || first.text == "bit" then [] else ns) + Chain(first))
  }

  /** The array size of a pointer or upgrade qualifier, which the source leaves unset, is 0 here. */
  function MakeQualifier(n: Node): (r: Result<Qualifier, Error>)
    ensures r.Failure? ==> Local(r.error)
  {
    if n.children == [] then Failure(OutOfRange)
    else
      var size := if n.kind == TYPEQUALARR then n.number else 0;
      if n.children[0].kind == NONE then
        Success(Qualifier(n.kind == TYPEQUALPTR, n.kind == TYPEQUALUPG, size, None))
      else
        var nested :- MakeQualifier(n.children[0]);
        Success(Qualifier(n.kind == TYPEQUALPTR, n.kind == TYPEQUALUPG, size, Some(nested)))
  }

  /** Type(node, context). */
  function MakeType(n: Node, ns: Path): (r: Result<Type, Error>)
    ensures r.Failure? ==> Local(r.error)
    decreases n
  {
    match n.kind
    case TYPESINGLE =>
      var path :- Child(n, 0);
      var id :- MakeIdentifier(path, false, ns);
      var qualifier :- Child(n, 1);
      if qualifier.kind == NONE then Success(Single(id, None))
      else
        var q :- MakeQualifier(qualifier);
        Success(Single(id, Some(q)))
    case TYPEMULTI =>
      var types :- MakeTypes(n.children, ns);
      Success(Tuple(types))
    case TYPEFN =>
      if n.children == [] then Failure(OutOfRange) else
      var input :- MakeTypes(n.children[0].children, ns);
      if |n.children| > 1 then
        var output :- MakeType(n.children[1], ns);
        Success(Function(input, output))
      else Success(Function(input, Unknown))
    case _ => Failure(NotAType)
  }

  function MakeTypes(nodes: seq<Node>, ns: Path): (r: Result<seq<Type>, Error>)
    ensures r.Success? ==> |r.value| == |nodes|
    ensures r.Failure? ==> Local(r.error)
    decreases nodes
  {
    if nodes == [] then Success([])
    else
      var head :- MakeType(nodes[0], ns);
      var tail :- MakeTypes(nodes[1..], ns);
      Success([head] + tail)
  }

  /** The declared types of a parameter list. */
  function ParamTypes(params: seq<Node>, ns: Path): (r: Result<seq<Type>, Error>)
    ensures r.Success? ==> |r.value| == |params|
    ensures r.Failure? ==> Local(r.error)
  {
    if params == [] then Success([])
    else
      var first :- Child(params[0], 0);
      var head :- MakeType(first, ns);
      var tail :- ParamTypes(params[1..], ns);
      Success([head] + tail)
  }

  /** The frame a function definition pushes: one symbol per parameter. */
  function ParamSymbols(params: seq<Node>, ns: Path): (r: Result<seq<Symbol>, Error>)
    ensures r.Failure? ==> Local(r.error)
  {
    if params == [] then Success([])
    else
      var first :- Child(params[0], 0);
      var sort :- MakeType(first, ns);
      var tail :- ParamSymbols(params[1..], ns);
      Success([Symbol(sort, [params[0].text], {})] + tail)
  }

  /** typeFromFunction in src/util.cpp. */
  function FunctionType(n: Node, ns: Path): (r: Result<Type, Error>)
    ensures r.Success? ==> |n.children| >= 2 && r.value.Function?
    ensures r.Failure? ==> Local(r.error)
  {
    var params :- Child(n, 1);
    var input :- ParamTypes(params.children, ns);
    if |n.children| > 2 then
      var output :- MakeType(n.children[2], ns);
      Success(Function(input, output))
    else Success(Function(input, Unknown))
  }

  // ----- Literals -----------------------------------------------------------

  function BitArray(size: int): Type {
    Single(["bit"], Some(Qualifier(false, false, size, None)))
  }

  const BIT: Type := Single(["bit"], None)

  function TextType(length: nat): Type {
    Single(["bit"], Some(Qualifier(false, false, length,
      Some(Qualifier(false, true, 0, Some(Qualifier(false, false, 8, None)))))))
  }

  function TypesOf(es: seq<Expr>): (ts: seq<Type>)
    ensures |ts| == |es|
    ensures forall i :: 0 <= i < |es| ==> ts[i] == es[i].sort
  {
    seq(|es|, i requires 0 <= i < |es| => es[i].sort)
  }

  // ----- Well-typedness -----------------------------------------------------

  /** Every call inside has a callee of function type, arguments of exactly the parameter types and the
      callee's result as its own type; every other expression carries the type of its form. A call of one of
      the constructors in `slack` may also take an argument whose type the table of constructors cannot tell
      from the parameter's. */
  predicate WellTyped(e: Expr, slack: seq<(Type, Symbol)>) {
    match e
    case IntValue(t, _) => t == BitArray(64)
    case FloatValue(t, _) => t == BitArray(64)
    case BitValue(t, _) => t == BIT
    case StringValue(t, s) => t == TextType(|s|)
    case FuncValue(t, body) => t.Function? && (body.Some? ==> WellTypedStmt(body.value, slack))
    case CallExpr(t, callee, args) =>
      && WellTyped(callee, slack)
      && (forall a <- args :: WellTyped(a, slack))
      && callee.sort.Function?
      && (TypesOf(args) == callee.sort.input || Upgrades(callee, args, slack))
      && t == callee.sort.output
    case ArgsExpr(t, es) => (forall a <- es :: WellTyped(a, slack)) && t == Tuple(TypesOf(es))
    case SymbolExpr(t, s) => t == s.sort
  }

  /** The callee is one of the constructors, filed under a type not told apart from its one argument's. */
  predicate Upgrades(callee: Expr, args: seq<Expr>, slack: seq<(Type, Symbol)>) {
    && callee.SymbolExpr? && |args| == 1
    && exists entry <- slack :: entry.1 == callee.symbol && Equivalent(entry.0, args[0].sort)
  }

  predicate WellTypedStmt(s: Stmt, slack: seq<(Type, Symbol)>) {
    match s
    case ExprStmt(e) => WellTyped(e, slack)
    case DeclStmt(_, _) => true
    case BlockStmt(ss) => forall o <- ss :: o.Some? ==> WellTypedStmt(o.value, slack)
    case WhileStmt(c, l, _) => (c.Some? ==> WellTyped(c.value, slack)) && (l.Some? ==> WellTypedStmt(l.value, slack))
    case ForStmt(d, c, i, l, _) =>
      && (d.Some? ==> WellTypedStmt(d.value, slack))
      && (c.Some? ==> WellTyped(c.value, slack))
      && (i.Some? ==> WellTyped(i.value, slack))
      && (l.Some? ==> WellTypedStmt(l.value, slack))
    case ReturnStmt(v) => v.Some? ==> WellTyped(v.value, slack)
    case IfStmt(c, y, n) =>
      && (c.Some? ==> WellTyped(c.value, slack))
      && (y.Some? ==> WellTypedStmt(y.value, slack))
      && (n.Some? ==> WellTypedStmt(n.value, slack))
  }
}
