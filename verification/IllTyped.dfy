/** Files on which the compiler does not keep its promises: an ill-typed call is built, or the operators of a class
    do not take its objects. Each is of the grammar's shape, is registered, and is elaborated as the source does. */
module IllTyped {
  import opened Wrappers
  import opened LokTypes
  import opened LokSyntax
  import opened Scoping
  import opened Resolver
  import opened Typing
  import opened Passes

  /** The file is of the grammar's shape, it is registered and elaborated, and what is built of it holds an ill-typed
      call. */
  ghost predicate BuildsIllTyped(file: seq<Node>, loader: Loader) {
    && Shaped(file) && Register(file, EMPTY).Success?
    && var r := Drive(file, Register(file, EMPTY).value, loader); r.Success? && !AllWellTyped(r.value.0, [])
  }

  // ----- Pieces of files ---------------------------------------------------------------

  function Tree(kind: Kind, text: string, children: seq<Node>): Node {
    Node(kind, text, 0, 0.0, false, children)
  }

  function Path1(name: string): Node {
    Tree(FQUALPATH, "", [Tree(QUALPATH, name, [])])
  }

  function TypeNamed(name: string): Node {
    Tree(TYPESINGLE, "", [Path1(name), Tree(NONE, "", [])])
  }

  /** bit[64]. */
  function Word(): Node {
    Tree(TYPESINGLE, "", [Path1("bit"), Node(TYPEQUALARR, "", 64, 0.0, false, [Tree(NONE, "", [])])])
  }

  /** A function type from a bit to a result. */
  function FunctionOfBit(result: Node): Node {
    Tree(TYPEFN, "", [Tree(TYPEMULTI, "", [TypeNamed("bit")]), result])
  }

  const ZERO := Tree(VALBIT, "", [])

  function Param(sort: Node): Node {
    Tree(PARAM, "x", [sort])
  }

  function Params(sorts: seq<Node>): seq<Node> {
    if sorts == [] then [] else [Param(sorts[0])] + Params(sorts[1..])
  }

  /** A class with one member. */
  function Class(name: string, member: Node): Node {
    Tree(TYPEDECL, name, [Tree(TYPEDEF, "", [Tree(NONE, "", [member])])])
  }

  /** operator + (..) -> bit => 0b. */
  function Operator(sorts: seq<Node>): Node {
    Tree(OPOVERLOAD, "+", [Tree(FUNCDEF, "", [ZERO, Tree(PARAMLIST, "", Params(sorts)), TypeNamed("bit")])])
  }

  /** @(forced) new (x: ..) >=> { }. */
  function Constructor(sort: Node): Node {
    Tree(CTORDEF, "",
         [Tree(PARAMLIST, "", [Param(sort)]), Tree(BLOCK, "", []), Tree(ATTRS, "", [Tree(ATTR, "forced", [])])])
  }

  /** A namespace statement with one class. */
  function Space(name: string, c: Node): Node {
    Tree(NAMESPACE, "", [Path1(name), Tree(NONE, "", [c])])
  }

  function Run(e: Node): Node {
    Tree(RUN, "", [Tree(FUNCDEF, "", [e, Tree(PARAMLIST, "", [])])])
  }

  function Plus(l: Node, r: Node): Node {
    Tree(EXPRBASIC, "+", [l, r])
  }

  // ----- Registering and elaborating them ------------------------------------------------

  lemma RegisterFirst(n: Node, rest: seq<Node>, ctx: Context)
    requires RegisterOne(n, ctx).Success?
    ensures Register([n] + rest, ctx) == Register(rest, RegisterOne(n, ctx).value)
  {
    assert ([n] + rest)[1..] == rest;
  }

  lemma RegisterSingle(n: Node, ctx: Context)
    ensures Register([n], ctx) == RegisterOne(n, ctx)
  {
    assert [n][1..] == [];
  }

  /** The symbol of a type is filed after its members. */
  lemma RegisterTypeDecl(n: Node, ctx: Context, inner: Context)
    requires n.kind == TYPEDECL && |n.children| == 1 && n.children[0].kind == TYPEDEF && n.children[0].children != []
    requires Register(n.children[0].children[0].children, ctx.(ns := ctx.ns + [n.text])) == Success(inner)
    requires inner.ns == ctx.ns + [n.text]
    ensures RegisterOne(n, ctx) == Success(AddSymbol(inner.(ns := ctx.ns), Symbol(Unknown, ctx.ns + [n.text], {})))
  {
    assert inner.ns[..|inner.ns| - 1] == ctx.ns;
    assert DeclaredSymbol(n, ctx.ns) == Success(Symbol(Unknown, ctx.ns + [n.text], {}));
    assert RegisterOne(n, ctx) == RegisterEnclosed(n, ctx);
  }

  /** Registering a class with one member. */
  lemma RegisterClass(name: string, member: Node, ctx: Context, after: Context)
    requires !Encloses(member) && RegisterLeaf(member, ctx.(ns := ctx.ns + [name])) == Success(after)
    ensures RegisterOne(Class(name, member), ctx) ==
            Success(AddSymbol(after.(ns := ctx.ns), Symbol(Unknown, ctx.ns + [name], {})))
  {
    RegisterSingle(member, ctx.(ns := ctx.ns + [name]));
    RegisterTypeDecl(Class(name, member), ctx, after);
  }

  /** The types that some type nodes make. */
  predicate Make(sorts: seq<Node>, types: seq<Type>, ns: Path) {
    |sorts| == |types| && forall i :: 0 <= i < |sorts| ==> MakeType(sorts[i], ns) == Success(types[i])
  }

  lemma {:induction false} ParamsMake(sorts: seq<Node>, types: seq<Type>, ns: Path)
    requires Make(sorts, types, ns)
    ensures ParamTypes(Params(sorts), ns) == Success(types)
    decreases sorts
  {
    if sorts != [] {
      ParamsMake(sorts[1..], types[1..], ns);
      assert Params(sorts)[1..] == Params(sorts[1..]);
      assert types == [types[0]] + types[1..];
    }
  }

  lemma {:induction false} ParamsNamed(sorts: seq<Node>, types: seq<Type>, ns: Path)
    requires Make(sorts, types, ns)
    ensures ParamSymbols(Params(sorts), ns).Success?
    decreases sorts
  {
    if sorts != [] {
      ParamsNamed(sorts[1..], types[1..], ns);
      assert Params(sorts)[1..] == Params(sorts[1..]);
    }
  }

  lemma BitMade(ns: Path)
    ensures MakeType(TypeNamed("bit"), ns) == Success(BIT)
  {
    var n := TypeNamed("bit");
    assert n.children[0].children[0].text == "bit" && Chain(n.children[0].children[0]) == ["bit"]
           && [] + ["bit"] == ["bit"];
  }

  /** The symbol of an operator in a namespace. */
  function PlusOn(types: seq<Type>, ns: Path): Symbol {
    Symbol(Function(types, BIT), ns + ["+"], {})
  }

  lemma OperatorSort(sorts: seq<Node>, types: seq<Type>, ns: Path)
    requires Make(sorts, types, ns)
    ensures FunctionType(Operator(sorts).children[0], ns) == Success(Function(types, BIT))
  {
    ParamsMake(sorts, types, ns);
    BitMade(ns);
  }

  lemma RegisterOperator(sorts: seq<Node>, types: seq<Type>, ctx: Context)
    requires Make(sorts, types, ctx.ns)
    ensures var s := PlusOn(types, ctx.ns);
            RegisterLeaf(Operator(sorts), ctx) == Success(AddSymbol(ctx, s).(overloads := ctx.overloads + [("+", s)]))
  {
    OperatorSort(sorts, types, ctx.ns);
    OverloadRegisters(Operator(sorts), Function(types, BIT), ctx);
  }

  lemma OverloadRegisters(n: Node, sort: Type, ctx: Context)
    requires n.kind == OPOVERLOAD && |n.children| == 1 && n.children[0].kind == FUNCDEF
    requires FunctionType(n.children[0], ctx.ns) == Success(sort)
    ensures var s := Symbol(sort, ctx.ns + [n.text], {});
            RegisterLeaf(n, ctx) == Success(AddSymbol(ctx, s).(overloads := ctx.overloads + [(n.text, s)]))
  {
    assert Attributes(n) == {};
  }

  lemma DriveFirst(n: Node, rest: seq<Node>, ctx: Context, loader: Loader, es: seq<Extrapolated>)
    requires DriveOne(n, ctx, loader) == Success((es, ctx)) && Drive(rest, ctx, loader).Success?
    ensures var tail := Drive(rest, ctx, loader).value; Drive([n] + rest, ctx, loader) == Success((es + tail.0, tail.1))
  {
    assert ([n] + rest)[1..] == rest;
  }

  lemma DriveSingle(n: Node, ctx: Context, loader: Loader)
    ensures Drive([n], ctx, loader) == DriveOne(n, ctx, loader)
  {
    assert [n][1..] == [];
    var r := DriveOne(n, ctx, loader);
    assert r.Success? ==> r.value.0 + [] == r.value.0;
  }

  lemma DriveTypeDecl(n: Node, ctx: Context, loader: Loader, es: seq<Extrapolated>)
    requires n.kind == TYPEDECL && n.children != [] && n.children[0].children != []
    requires var inner := ctx.(ns := ctx.ns + [n.text]);
             Drive(n.children[0].children[0].children, inner, loader) == Success((es, inner))
    ensures DriveOne(n, ctx, loader) == Success((es, ctx))
  {
    var inner, body := ctx.ns + [n.text], n.children[0].children[0].children;
    assert ctx.(ns := inner).(ns := ctx.ns) == ctx;
    assert DriveWithin(body, inner, ctx.ns, ctx, loader) == Success((es, ctx));
    assert DriveOne(n, ctx, loader) == DriveEnclosed(n, ctx, loader);
  }

  lemma DriveClass(name: string, member: Node, ctx: Context, loader: Loader, es: seq<Extrapolated>)
    requires !Encloses(member)
    requires var inner := ctx.(ns := ctx.ns + [name]); DriveLeaf(member, inner, loader) == Success((es, inner))
    ensures DriveOne(Class(name, member), ctx, loader) == Success((es, ctx))
  {
    DriveSingle(member, ctx.(ns := ctx.ns + [name]), loader);
    DriveTypeDecl(Class(name, member), ctx, loader, es);
  }

  lemma FunctionElaborates(f: Node, sort: Type, body: Option<Stmt>, env: Env, ctx: Context)
    requires f.kind == FUNCDEF && FunctionType(f, ctx.ns) == Success(sort)
             && ParamSymbols(f.children[1].children, ctx.ns).Success?
    requires var params := ParamSymbols(f.children[1].children, ctx.ns).value;
             var r := ElabStmt(f.children[0], Scope(Visible(env), BindAll(map[], params)), ctx);
             r.Success? && r.value.0 == body
    ensures ElabExpr(f, env, ctx) == Success(Some(FuncValue(sort, body)))
  {
    assert ElabExpr(f, env, ctx) == ElabFunction(f, env, ctx);
  }

  lemma ZeroElaborates(env: Env, ctx: Context)
    ensures ElabExpr(ZERO, env, ctx) == Success(Some(BitValue(BIT, false)))
    ensures ElabStmt(ZERO, env, ctx) == Success((Some(ExprStmt(BitValue(BIT, false))), env))
  {
  }

  lemma OverloadDrives(n: Node, ctx: Context, loader: Loader)
    requires n.kind == OPOVERLOAD && n.children != [] && ctx.ns + [n.text] in ctx.symbols
             && ElabExpr(n.children[0], NoScope, ctx).Success?
    ensures DriveLeaf(n, ctx, loader).Success? && DriveLeaf(n, ctx, loader).value.1 == ctx
  {
    assert DriveLeaf(n, ctx, loader) == DriveFunction(n, ctx);
  }

  lemma OperatorDrives(sorts: seq<Node>, types: seq<Type>, ctx: Context, loader: Loader) returns (es: seq<Extrapolated>)
    requires Make(sorts, types, ctx.ns) && ctx.ns + ["+"] in ctx.symbols
    ensures DriveLeaf(Operator(sorts), ctx, loader) == Success((es, ctx))
  {
    var f := Operator(sorts).children[0];
    OperatorSort(sorts, types, ctx.ns);
    ParamsNamed(sorts, types, ctx.ns);
    ZeroElaborates(Scope(Visible(NoScope), BindAll(map[], ParamSymbols(Params(sorts), ctx.ns).value)), ctx);
    FunctionElaborates(f, Function(types, BIT), Some(ExprStmt(BitValue(BIT, false))), NoScope, ctx);
    OverloadDrives(Operator(sorts), ctx, loader);
    es := DriveLeaf(Operator(sorts), ctx, loader).value.0;
  }

  /** The tables with a class of one operator. */
  function WithOperator(ctx: Context, name: string, types: seq<Type>): Context {
    var s := PlusOn(types, ctx.ns + [name]);
    AddSymbol(AddSymbol(ctx, s).(overloads := ctx.overloads + [("+", s)]), Symbol(Unknown, ctx.ns + [name], {}))
  }

  lemma OperatorClassRegisters(name: string, sorts: seq<Node>, types: seq<Type>, ctx: Context)
    requires Make(sorts, types, ctx.ns + [name])
    ensures RegisterOne(Class(name, Operator(sorts)), ctx) == Success(WithOperator(ctx, name, types))
  {
    var inner := ctx.(ns := ctx.ns + [name]);
    RegisterOperator(sorts, types, inner);
    RegisterClass(name, Operator(sorts), ctx, RegisterLeaf(Operator(sorts), inner).value);
  }

  lemma OperatorClassDrives(name: string, sorts: seq<Node>, types: seq<Type>, ctx: Context, loader: Loader)
    returns (es: seq<Extrapolated>)
    requires Make(sorts, types, ctx.ns + [name]) && ctx.ns + [name] + ["+"] in ctx.symbols
    ensures DriveOne(Class(name, Operator(sorts)), ctx, loader) == Success((es, ctx))
  {
    es := OperatorDrives(sorts, types, ctx.(ns := ctx.ns + [name]), loader);
    DriveClass(name, Operator(sorts), ctx, loader, es);
  }

  /** What a run of an expression adds. */
  function RunOf(x: Expr): Extrapolated {
    Extrapolated(Symbol(Function([], Unknown), ["run", "0"], {}),
                 Some(ExprStmt(FuncValue(Function([], Unknown), Some(ExprStmt(x))))), true)
  }

  const INNER := Scope(map[], map[])

  lemma RunRegisters(e: Node, ctx: Context)
    ensures RegisterOne(Run(e), ctx) == Success(ctx)
  {
  }

  lemma RunDrives(e: Node, x: Expr, ctx: Context, loader: Loader)
    requires IsExprStmt(e.kind) && ElabExpr(e, INNER, ctx) == Success(Some(x))
    ensures DriveOne(Run(e), ctx, loader) == Success(([RunOf(x)], ctx))
  {
    var f := Run(e).children[0];
    assert FunctionType(f, ctx.ns) == Success(Function([], Unknown));
    assert ElabStmt(e, INNER, ctx) == Success((Some(ExprStmt(x)), INNER));
    FunctionElaborates(f, Function([], Unknown), Some(ExprStmt(x)), NoScope, ctx);
    assert DriveOne(Run(e), ctx, loader) == DriveFunction(Run(e), ctx);
  }

  lemma RunIllTyped(es: seq<Extrapolated>, x: Expr, more: seq<Extrapolated>)
    requires !WellTyped(x, [])
    ensures !AllWellTyped(es + ([RunOf(x)] + more), [])
  {
    var s := ExprStmt(x);
    assert !WellTypedStmt(s, []);
    assert !WellTyped(FuncValue(Function([], Unknown), Some(s)), []);
    assert RunOf(x) in es + ([RunOf(x)] + more);
  }

  // ----- Three operands ------------------------------------------------------------------

  function Bits(): seq<Node> {
    [TypeNamed("bit"), TypeNamed("bit"), TypeNamed("bit")]
  }

  lemma BitsMade(ns: Path)
    ensures Make(Bits(), [BIT, BIT, BIT], ns)
  {
    BitMade(ns);
  }

  /** A class with an operator of three parameters, and a sum of bits. */
  function TernaryFile(): seq<Node> {
    [Class("N", Operator(Bits()))] + [Run(Plus(ZERO, ZERO))]
  }

  lemma TernaryRegisters(ctx: Context)
    ensures Register(TernaryFile(), ctx) == Success(WithOperator(ctx, "N", [BIT, BIT, BIT]))
  {
    var after := WithOperator(ctx, "N", [BIT, BIT, BIT]);
    BitsMade(ctx.ns + ["N"]);
    OperatorClassRegisters("N", Bits(), [BIT, BIT, BIT], ctx);
    RegisterFirst(Class("N", Operator(Bits())), [Run(Plus(ZERO, ZERO))], ctx);
    RegisterSingle(Run(Plus(ZERO, ZERO)), after);
    RunRegisters(Plus(ZERO, ZERO), after);
  }

  /** The call of an operator on two expressions. */
  function CallOn(types: seq<Type>, ns: Path, l: Expr, r: Expr): Expr {
    var s := PlusOn(types, ns);
    CallExpr(BIT, SymbolExpr(s.sort, s), [l, r])
  }

  /** A sum that the one operator there is takes. */
  lemma SumElaborates(l: Node, r: Node, x: Expr, y: Expr, types: seq<Type>, ns: Path, env: Env, ctx: Context)
    requires ElabExpr(l, env, ctx).Success? && ElabExpr(r, env, ctx).Success?
    requires var a := ElabExpr(l, env, ctx).value; a.Some? && ForceUpgrade(a.value, Unknown, ctx) == Success(x)
    requires var b := ElabExpr(r, env, ctx).value; b.Some? && ForceUpgrade(b.value, Unknown, ctx) == Success(y)
    requires x.sort.Single? && ctx.overloads == [("+", PlusOn(types, ns))]
    requires |types| >= 2 && types[0] == x.sort && types[1] == y.sort && Known(types[0]) && Known(types[1])
    ensures ElabExpr(Plus(l, r), env, ctx) == Success(Some(CallOn(types, ns, x, y)))
  {
    EqualsMeaning(types[0], x.sort);
    EqualsMeaning(types[1], y.sort);
    assert GetOverload(x, y, "+", ctx.overloads) == Success(CallOn(types, ns, x, y));
    assert ElabExpr(Plus(l, r), env, ctx) == ElabOperator(Plus(l, r), env, ctx);
  }

  lemma TernarySum(ctx: Context, env: Env)
    requires ctx.forced == [] && ctx.overloads == [("+", PlusOn([BIT, BIT, BIT], ["N"]))]
    ensures var b := BitValue(BIT, false);
            ElabExpr(Plus(ZERO, ZERO), env, ctx) == Success(Some(CallOn([BIT, BIT, BIT], ["N"], b, b)))
            && !WellTyped(CallOn([BIT, BIT, BIT], ["N"], b, b), [])
  {
    var b := BitValue(BIT, false);
    ZeroElaborates(env, ctx);
    assert ForceUpgrade(b, Unknown, ctx) == Success(b);
    SumElaborates(ZERO, ZERO, b, b, [BIT, BIT, BIT], ["N"], env, ctx);
    assert |TypesOf([b, b])| == 2;
  }

  /** A class of one operator and then a run that is built ill typed. */
  lemma ClassThenRun(name: string, sorts: seq<Node>, types: seq<Type>, e: Node, x: Expr, rest: seq<Node>,
                     ctx: Context, loader: Loader)
    requires Make(sorts, types, ctx.ns + [name]) && ctx.ns + [name] + ["+"] in ctx.symbols
    requires IsExprStmt(e.kind) && ElabExpr(e, INNER, ctx) == Success(Some(x)) && !WellTyped(x, [])
    requires Drive(rest, ctx, loader).Success?
    ensures var r := Drive([Class(name, Operator(sorts))] + ([Run(e)] + rest), ctx, loader);
            r.Success? && !AllWellTyped(r.value.0, [])
  {
    RunDrives(e, x, ctx, loader);
    DriveFirst(Run(e), rest, ctx, loader, [RunOf(x)]);
    var es := OperatorClassDrives(name, sorts, types, ctx, loader);
    DriveFirst(Class(name, Operator(sorts)), [Run(e)] + rest, ctx, loader, es);
    RunIllTyped(es, x, Drive(rest, ctx, loader).value.0);
  }

  lemma ClassShaped(name: string, member: Node)
    requires ShapedOne(member)
    ensures ShapedOne(Class(name, member))
  {
  }

  lemma RunShaped(e: Node)
    ensures ShapedOne(Run(e))
  {
  }

  lemma TernaryTables(ctx: Context)
    requires ctx == WithOperator(EMPTY, "N", [BIT, BIT, BIT])
    ensures ctx.ns == [] && ctx.forced == [] && ctx.overloads == [("+", PlusOn([BIT, BIT, BIT], ["N"]))]
    ensures ctx.ns + ["N"] + ["+"] in ctx.symbols
  {
    assert [] + ["N"] == ["N"];
  }

  lemma TernaryDrives(ctx: Context, loader: Loader)
    requires ctx.ns == [] && ctx.forced == [] && ctx.overloads == [("+", PlusOn([BIT, BIT, BIT], ["N"]))]
    requires ctx.ns + ["N"] + ["+"] in ctx.symbols
    ensures var r := Drive(TernaryFile(), ctx, loader); r.Success? && !AllWellTyped(r.value.0, [])
  {
    var sum, b := Plus(ZERO, ZERO), BitValue(BIT, false);
    TernarySum(ctx, INNER);
    BitsMade(ctx.ns + ["N"]);
    ClassThenRun("N", Bits(), [BIT, BIT, BIT], sum, CallOn([BIT, BIT, BIT], ["N"], b, b), [], ctx, loader);
    assert [Run(sum)] + [] == [Run(sum)];
  }

  /** An overload with three parameters, which the compiler resolves a sum of two bits to, makes an ill-typed call. */
  lemma TernaryOverloadIllTyped(loader: Loader)
    ensures BuildsIllTyped(TernaryFile(), loader) && Register(TernaryFile(), EMPTY).value.forced == []
  {
    var ctx := WithOperator(EMPTY, "N", [BIT, BIT, BIT]);
    TernaryRegisters(EMPTY);
    TernaryTables(ctx);
    TernaryDrives(ctx, loader);
    TernaryShaped();
  }

  lemma TernaryShaped()
    ensures Shaped(TernaryFile())
  {
    ClassShaped("N", Operator(Bits()));
    RunShaped(Plus(ZERO, ZERO));
    assert forall n <- TernaryFile() :: n in {Class("N", Operator(Bits())), Run(Plus(ZERO, ZERO))};
  }

  // ----- Operands that are not told apart from a key --------------------------------------------

  /** A declaration of f; a class N with an operator on C and bit[64]; the run of f + 1; and in the namespace N a
      class C with a forced constructor. */
  function UpgradeFile(f: Node, key: Node): seq<Node> {
    [f] + AfterDecl(key)
  }

  function AfterDecl(key: Node): seq<Node> {
    [Class("N", Operator(Pair()))] + ([Run(Sum())] + [Space("N", Class("C", Constructor(key)))])
  }

  function Pair(): seq<Node> {
    [TypeNamed("C"), Word()]
  }

  function Sum(): Node {
    Plus(Path1("f"), Tree(VALINT, "", []))
  }

  const OBJECT := Single(["N", "C"], None)
  const PAIR := [OBJECT, BitArray(64)]

  lemma NamedMade(name: string, ns: Path)
    requires name != "bit"
    ensures MakeType(TypeNamed(name), ns) == Success(Single(ns + [name], None))
  {
    assert Chain(TypeNamed(name).children[0].children[0]) == [name];
  }

  lemma WordMade(ns: Path)
    ensures MakeType(Word(), ns) == Success(BitArray(64))
  {
    var path := Word().children[0];
    assert path.children[0].text == "bit" && Chain(path.children[0]) == ["bit"] && [] + ["bit"] == ["bit"];
    assert MakeIdentifier(path, false, ns) == Success(["bit"]);
    assert MakeQualifier(Word().children[1]) == Success(Qualifier(false, false, 64, None));
  }

  lemma PairMade(ns: Path)
    requires ns == ["N"]
    ensures Make(Pair(), PAIR, ns)
  {
    NamedMade("C", ns);
    WordMade(ns);
    assert ["N"] + ["C"] == ["N", "C"];
  }

  /** The symbol of a forced constructor in a namespace. */
  function New(key: Type, ns: Path): Symbol {
    Symbol(Function([key], Single(ns, None)), ns + ["new"], {"forced"})
  }

  /** The tables with a namespace of one class, which has one forced constructor. */
  function WithConstructor(ctx: Context, space: string, name: string, key: Type): Context {
    var s := New(key, [space] + [name]);
    AddSymbol(AddSymbol(ctx, s).(forced := FileForced(ctx.forced, (key, s)), ns := []),
              Symbol(Unknown, [space] + [name], {}))
  }

  lemma RegisterNew(sort: Node, key: Type, ctx: Context)
    requires MakeType(sort, ctx.ns) == Success(key)
    ensures var s := New(key, ctx.ns);
            RegisterLeaf(Constructor(sort), ctx)
                == Success(AddSymbol(ctx, s).(forced := FileForced(ctx.forced, (key, s))))
  {
    var n := Constructor(sort);
    assert n.children[0].children == Params([sort]);
    ParamsMake([sort], [key], ctx.ns);
    ForcedAttribute(sort);
    ForcedRegisters(n, key, ctx);
  }

  lemma ForcedAttribute(sort: Node)
    ensures Attributes(Constructor(sort)) == {"forced"}
  {
    assert Constructor(sort).children[2].children == [Tree(ATTR, "forced", [])];
  }

  lemma ForcedRegisters(n: Node, key: Type, ctx: Context)
    requires n.kind == CTORDEF && n.children != [] && ParamTypes(n.children[0].children, ctx.ns) == Success([key])
    requires Attributes(n) == {"forced"}
    ensures var s := New(key, ctx.ns);
            RegisterLeaf(n, ctx) == Success(AddSymbol(ctx, s).(forced := FileForced(ctx.forced, (key, s))))
  {
    assert RegisterLeaf(n, ctx) == RegisterConstructor(n, ctx);
  }

  lemma PathMade(name: string, ns: Path)
    ensures MakeIdentifier(Path1(name), true, ns) == Success([name])
  {
    assert Chain(Path1(name).children[0]) == [name] && [] + [name] == [name];
  }

  lemma RegisterSpace(name: string, c: Node, ctx: Context, inner: Context)
    requires RegisterOne(c, ctx.(ns := [name])) == Success(inner)
    ensures RegisterOne(Space(name, c), ctx) == Success(inner.(ns := []))
  {
    var n := Space(name, c);
    RegisterSingle(c, ctx.(ns := [name]));
    PathMade(name, ctx.ns);
    assert RegisterOne(n, ctx) == RegisterEnclosed(n, ctx);
  }

  lemma ConstructorRegisters(space: string, name: string, sort: Node, key: Type, ctx: Context)
    requires MakeType(sort, [space] + [name]) == Success(key)
    ensures RegisterOne(Space(space, Class(name, Constructor(sort))), ctx)
            == Success(WithConstructor(ctx, space, name, key))
  {
    var spaced := ctx.(ns := [space]);
    var inner := spaced.(ns := spaced.ns + [name]);
    RegisterNew(sort, key, inner);
    var after := RegisterLeaf(Constructor(sort), inner).value;
    RegisterClass(name, Constructor(sort), spaced, after);
    RegisterSpace(space, Class(name, Constructor(sort)), ctx,
                  AddSymbol(after.(ns := [space]), Symbol(Unknown, [space] + [name], {})));
  }

  lemma NewDrives(sort: Node, ctx: Context, loader: Loader) returns (es: seq<Extrapolated>)
    requires ctx.ns + ["new"] in ctx.symbols
    ensures DriveLeaf(Constructor(sort), ctx, loader) == Success((es, ctx))
  {
    var n, block := Constructor(sort), Tree(BLOCK, "", []);
    assert ElabStmt(block, NoScope, ctx) == Success((Some(BlockStmt([])), NoScope));
    assert DriveLeaf(n, ctx, loader) == DriveConstructor(n, ctx);
    es := DriveLeaf(n, ctx, loader).value.0;
  }

  lemma SpaceDrives(name: string, c: Node, ctx: Context, loader: Loader, es: seq<Extrapolated>)
    requires ctx.ns == [] && DriveOne(c, ctx.(ns := [name]), loader) == Success((es, ctx.(ns := [name])))
    ensures DriveOne(Space(name, c), ctx, loader) == Success((es, ctx))
  {
    var n := Space(name, c);
    DriveSingle(c, ctx.(ns := [name]), loader);
    assert ctx.(ns := [name]).(ns := []) == ctx;
    assert DriveWithin([c], [name], [], ctx, loader) == Success((es, ctx));
    PathMade(name, ctx.ns);
    assert DriveOne(n, ctx, loader) == DriveEnclosed(n, ctx, loader);
  }

  lemma ConstructorDrives(space: string, name: string, sort: Node, ctx: Context, loader: Loader)
    returns (es: seq<Extrapolated>)
    requires ctx.ns == [] && [space] + [name] + ["new"] in ctx.symbols
    ensures DriveOne(Space(space, Class(name, Constructor(sort))), ctx, loader) == Success((es, ctx))
  {
    var spaced := ctx.(ns := [space]);
    es := NewDrives(sort, spaced.(ns := spaced.ns + [name]), loader);
    DriveClass(name, Constructor(sort), spaced, loader, es);
    SpaceDrives(space, Class(name, Constructor(sort)), ctx, loader, es);
  }

  /** The declaration of f. */
  predicate Declares1(f: Node, sort: Type) {
    f.kind == DECL && f.text == "f" && DeclaredSymbol(f, []) == Success(Symbol(sort, ["f"], {}))
  }

  /** What the file registers. */
  function UpgradeTables(ctx: Context, f: Type, key: Type): Context {
    WithConstructor(WithOperator(AddSymbol(ctx, Symbol(f, ["f"], {})), "N", PAIR), "N", "C", key)
  }

  lemma UpgradesAreRegistered(f: Node, sort: Node, t: Type, key: Type, ctx: Context)
    requires ctx.ns == [] && Declares1(f, t) && MakeType(sort, ["N"] + ["C"]) == Success(key)
    ensures Register(UpgradeFile(f, sort), ctx) == Success(UpgradeTables(ctx, t, key))
  {
    var declared := AddSymbol(ctx, Symbol(t, ["f"], {}));
    assert RegisterOne(f, ctx) == Success(declared);
    RegisterFirst(f, AfterDecl(sort), ctx);
    RestRegisters(sort, key, declared);
  }

  lemma RestRegisters(sort: Node, key: Type, ctx: Context)
    requires ctx.ns == [] && MakeType(sort, ["N"] + ["C"]) == Success(key)
    ensures Register(AfterDecl(sort), ctx) == Success(WithConstructor(WithOperator(ctx, "N", PAIR), "N", "C", key))
  {
    var c, run, space := Class("N", Operator(Pair())), Run(Sum()), Space("N", Class("C", Constructor(sort)));
    PairMade(ctx.ns + ["N"]);
    OperatorClassRegisters("N", Pair(), PAIR, ctx);
    var operated := WithOperator(ctx, "N", PAIR);
    RegisterFirst(c, [run] + [space], ctx);
    RunRegisters(Sum(), operated);
    RegisterFirst(run, [space], operated);
    ConstructorRegisters("N", "C", sort, key, operated);
    RegisterSingle(space, operated);
  }

  /** What the elaboration of the file uses of the tables. */
  predicate Tables(ctx: Context, f: Type, key: Type) {
    && ctx.ns == [] && ctx.forced == [(key, New(key, ["N", "C"]))] && ctx.overloads == [("+", PlusOn(PAIR, ["N"]))]
    && ["N"] + ["+"] in ctx.symbols && ["N"] + ["C"] + ["new"] in ctx.symbols
    && ["f"] in ctx.symbols && ctx.symbols[["f"]] == Symbol(f, ["f"], {})
  }

  lemma TablesAre(f: Type, key: Type)
    ensures Tables(UpgradeTables(EMPTY, f, key), f, key)
  {
    assert [] + ["N"] == ["N"] && ["N"] + ["C"] == ["N", "C"];
  }

  /** The operand f, and the upgrade that the compiler makes of it. */
  function Operand(f: Type): Expr {
    SymbolExpr(f, Symbol(f, ["f"], {}))
  }

  function Upgraded(key: Type, f: Type): Expr {
    UpgradeBy((key, New(key, ["N", "C"])), Operand(f))
  }

  lemma OperandUpgraded(ctx: Context, f: Type, key: Type)
    requires Tables(ctx, f, key) && Equivalent(key, f) && !Equivalent(key, BitArray(64))
    ensures ForceUpgrade(Operand(f), Unknown, ctx) == Success(Upgraded(key, f))
    ensures ForceUpgrade(IntValue(BitArray(64), 0), Unknown, ctx) == Success(IntValue(BitArray(64), 0))
  {
    UpgradeIsChosen(Operand(f), Unknown, ctx);
    assert Chosen(ctx.forced, f, Unknown, 0);
    NothingChosen(IntValue(BitArray(64), 0), Unknown, ctx);
  }

  lemma OperandsElaborate(ctx: Context, f: Type, key: Type)
    requires Tables(ctx, f, key)
    ensures ElabExpr(Path1("f"), INNER, ctx) == Success(Some(Operand(f)))
    ensures ElabExpr(Tree(VALINT, "", []), INNER, ctx) == Success(Some(IntValue(BitArray(64), 0)))
  {
    var n := Path1("f");
    assert Chain(n.children[0]) == ["f"] && [] + ["f"] == ["f"];
    assert ElabExpr(n, INNER, ctx) == Reference(n, INNER, ctx);
  }

  lemma SumIllTyped(ctx: Context, f: Type, key: Type)
    requires Tables(ctx, f, key) && Equivalent(key, f) && key != f && !Equivalent(key, BitArray(64))
    ensures var call := CallOn(PAIR, ["N"], Upgraded(key, f), IntValue(BitArray(64), 0));
            ElabExpr(Sum(), INNER, ctx) == Success(Some(call)) && !WellTyped(call, [])
  {
    var x, y := Upgraded(key, f), IntValue(BitArray(64), 0);
    OperandsElaborate(ctx, f, key);
    OperandUpgraded(ctx, f, key);
    SumElaborates(Path1("f"), Tree(VALINT, "", []), x, y, PAIR, ["N"], INNER, ctx);
    EntryCall((key, New(key, ["N", "C"])), Operand(f), []);
    assert x in [x, y];
  }

  lemma DeclDrives(f: Node, t: Type, rest: seq<Node>, ctx: Context, loader: Loader)
    requires Declares1(f, t) && ctx.ns == []
    ensures Drive([f] + rest, ctx, loader) == Drive(rest, ctx, loader)
  {
    assert DriveOne(f, ctx, loader) == DriveLeaf(f, ctx, loader) == Success(([], ctx));
    assert ([f] + rest)[1..] == rest;
    var r := Drive(rest, ctx, loader);
    assert r.Success? ==> [] + r.value.0 == r.value.0;
  }

  lemma SumDrives(sort: Node, t: Type, key: Type, ctx: Context, loader: Loader)
    requires Tables(ctx, t, key) && Equivalent(key, t) && key != t && !Equivalent(key, BitArray(64))
    ensures var r := Drive(AfterDecl(sort), ctx, loader); r.Success? && !AllWellTyped(r.value.0, [])
  {
    var space, call := Space("N", Class("C", Constructor(sort))),
        CallOn(PAIR, ["N"], Upgraded(key, t), IntValue(BitArray(64), 0));
    SumIllTyped(ctx, t, key);
    var es := ConstructorDrives("N", "C", sort, ctx, loader);
    DriveSingle(space, ctx, loader);
    var ns := ctx.ns + ["N"];
    assert ns == ["N"];
    PairMade(ns);
    ClassThenRun("N", Pair(), PAIR, Sum(), call, [space], ctx, loader);
  }

  lemma SpaceShaped(name: string, c: Node)
    requires ShapedOne(c)
    ensures ShapedOne(Space(name, c))
  {
    assert forall n <- [c] :: n == c;
  }

  lemma UpgradeShaped(f: Node, sort: Node)
    requires f.kind == DECL
    ensures Shaped(UpgradeFile(f, sort))
  {
    var c, run, made := Class("N", Operator(Pair())), Run(Sum()), Class("C", Constructor(sort));
    ClassShaped("N", Operator(Pair()));
    ClassShaped("C", Constructor(sort));
    RunShaped(Sum());
    SpaceShaped("N", made);
    AllShaped(f, c, run, Space("N", made));
  }

  lemma AllShaped(a: Node, b: Node, c: Node, d: Node)
    requires a.kind == DECL && ShapedOne(b) && ShapedOne(c) && ShapedOne(d)
    ensures Shaped([a] + ([b] + ([c] + [d])))
  {
    assert forall n <- [a] + ([b] + ([c] + [d])) :: n in {a, b, c, d};
  }

  lemma TablesSound(ctx: Context, t: Type, key: Type)
    requires Tables(ctx, t, key)
    ensures SoundTables(ctx)
  {
  }

  /** An operand whose type differs from a constructor's key, but is not told apart from it, is passed to the
      constructor all the same. */
  lemma OperandIllTyped(f: Node, sort: Node, t: Type, key: Type, loader: Loader)
    requires Declares1(f, t) && MakeType(sort, ["N"] + ["C"]) == Success(key)
    requires Equivalent(key, t) && key != t && !Equivalent(key, BitArray(64))
    ensures Register(UpgradeFile(f, sort), EMPTY) == Success(UpgradeTables(EMPTY, t, key))
    ensures BuildsIllTyped(UpgradeFile(f, sort), loader) && SoundTables(UpgradeTables(EMPTY, t, key))
  {
    var ctx := UpgradeTables(EMPTY, t, key);
    UpgradesAreRegistered(f, sort, t, key, EMPTY);
    TablesAre(t, key);
    TablesSound(ctx, t, key);
    DeclDrives(f, t, AfterDecl(sort), ctx, loader);
    SumDrives(sort, t, key, ctx, loader);
    UpgradeShaped(f, sort);
  }

  /** `f : = 0b`. */
  function Untyped(): Node {
    Tree(DECL, "f", [ZERO])
  }

  lemma UntypedDeclares()
    ensures Declares1(Untyped(), Unknown)
  {
    assert [] + ["f"] == ["f"];
  }

  /** So is an operand of unknown type, here `f : = 0b`, whatever the constructor takes, here a bit. */
  lemma UnknownOperandIllTyped(loader: Loader)
    ensures var file := UpgradeFile(Untyped(), TypeNamed("bit"));
            BuildsIllTyped(file, loader)
            && var ctx := Register(file, EMPTY).value; SoundTables(ctx) && PlainKeys(ctx.forced)
  {
    UntypedDeclares();
    BitMade(["N"] + ["C"]);
    UnknownIsEquivalent(BIT);
    BitIsNoWord();
    OperandIllTyped(Untyped(), TypeNamed("bit"), Unknown, BIT, loader);
    TablesAre(Unknown, BIT);
  }

  lemma BitIsNoWord()
    ensures !Equivalent(BIT, BitArray(64))
  {
  }

  /** `f : (bit) -> bit`. */
  function Typed(): Node {
    Tree(DECL, "f", [FunctionOfBit(TypeNamed("bit"))])
  }

  lemma TypedDeclares()
    ensures Declares1(Typed(), Function([BIT], BIT))
  {
    BitMade([]);
    FunctionMade(TypeNamed("bit"), BIT, []);
    assert [] + ["f"] == ["f"];
  }

  /** And a function `f : (bit) -> bit`, if the constructor takes a function `(bit) -> bit[64]`. */
  lemma FunctionOperandIllTyped(loader: Loader)
    ensures var file := UpgradeFile(Typed(), FunctionOfBit(Word()));
            BuildsIllTyped(file, loader) && SoundTables(Register(file, EMPTY).value)
  {
    TypedDeclares();
    WordMade(["N"] + ["C"]);
    FunctionMade(Word(), BitArray(64), ["N"] + ["C"]);
    FunctionsUnordered();
    OperandIllTyped(Typed(), FunctionOfBit(Word()), Function([BIT], BIT), Function([BIT], BitArray(64)), loader);
  }

  lemma FunctionsUnordered()
    ensures var a, b := Function([BIT], BIT), Function([BIT], BitArray(64));
            a != b && Equivalent(b, a) && !Equivalent(b, BitArray(64))
  {
    LessAllSeparates([BIT], [BIT]);
  }

  lemma FunctionMade(result: Node, t: Type, ns: Path)
    requires MakeType(result, ns) == Success(t)
    ensures MakeType(FunctionOfBit(result), ns) == Success(Function([BIT], t))
  {
    BitMade(ns);
    OneMade(TypeNamed("bit"), BIT, ns);
    var n := FunctionOfBit(result);
    assert n.children[0].children == [TypeNamed("bit")];
  }

  lemma OneMade(n: Node, t: Type, ns: Path)
    requires MakeType(n, ns) == Success(t)
    ensures MakeTypes([n], ns) == Success([t])
  {
    assert [n][1..] == [] && MakeTypes([], ns) == Success([]) && [t] + [] == [t];
  }

  // ----- Operators on a class's own objects ----------------------------------------------------

  /** `f : i8`, a class i8 with an operator on two i8, and the run of f + f. */
  function OwnFile(): seq<Node> {
    [Object()] + ([Class("i8", Operator(Own()))] + [Run(Plus(Path1("f"), Path1("f")))])
  }

  function Object(): Node {
    Tree(DECL, "f", [TypeNamed("i8")])
  }

  function Own(): seq<Node> {
    [TypeNamed("i8"), TypeNamed("i8")]
  }

  const BYTE := Single(["i8"], None)
  const INNER_BYTE := Single(["i8", "i8"], None)

  lemma OwnMade(ns: Path)
    requires ns == ["i8"]
    ensures Make(Own(), [INNER_BYTE, INNER_BYTE], ns)
  {
    NamedMade("i8", ns);
    assert ["i8"] + ["i8"] == ["i8", "i8"];
  }

  lemma ObjectDeclares()
    ensures Declares1(Object(), BYTE)
  {
    NamedMade("i8", []);
    assert [] + ["f"] == ["f"] && [] + ["i8"] == ["i8"];
  }

  function OwnTables(ctx: Context): Context {
    WithOperator(AddSymbol(ctx, Symbol(BYTE, ["f"], {})), "i8", [INNER_BYTE, INNER_BYTE])
  }

  lemma OwnRegisters(ctx: Context)
    requires ctx.ns == []
    ensures Register(OwnFile(), ctx) == Success(OwnTables(ctx))
  {
    var declared := AddSymbol(ctx, Symbol(BYTE, ["f"], {}));
    var c, run := Class("i8", Operator(Own())), Run(Plus(Path1("f"), Path1("f")));
    ObjectDeclares();
    assert RegisterOne(Object(), ctx) == Success(declared);
    RegisterFirst(Object(), [c] + [run], ctx);
    OwnMade(declared.ns + ["i8"]);
    OperatorClassRegisters("i8", Own(), [INNER_BYTE, INNER_BYTE], declared);
    RegisterFirst(c, [run], declared);
    RunRegisters(Plus(Path1("f"), Path1("f")), OwnTables(ctx));
    RegisterSingle(run, OwnTables(ctx));
  }

  /** What the elaboration of the file uses of the tables. */
  predicate OwnUses(ctx: Context) {
    && ctx.ns == [] && ctx.forced == [] && ctx.overloads == [("+", PlusOn([INNER_BYTE, INNER_BYTE], ["i8"]))]
    && ["i8"] + ["+"] in ctx.symbols && ["f"] in ctx.symbols && ctx.symbols[["f"]] == Symbol(BYTE, ["f"], {})
  }

  lemma OwnTablesUse()
    ensures OwnUses(OwnTables(EMPTY))
  {
    assert [] + ["i8"] == ["i8"];
  }

  lemma OwnSum(ctx: Context)
    requires OwnUses(ctx)
    ensures ElabExpr(Plus(Path1("f"), Path1("f")), INNER, ctx) == Failure(NoOverload)
  {
    var n, x := Path1("f"), SymbolExpr(BYTE, Symbol(BYTE, ["f"], {}));
    assert Chain(n.children[0]) == ["f"] && [] + ["f"] == ["f"];
    assert ElabExpr(n, INNER, ctx) == Reference(n, INNER, ctx) == Success(Some(x));
    assert ForceUpgrade(x, Unknown, ctx) == Success(x);
    EqualsMeaning(INNER_BYTE, BYTE);
    assert GetOverload(x, x, "+", ctx.overloads) == Failure(NoOverload);
    assert ElabExpr(Plus(n, n), INNER, ctx) == ElabOperator(Plus(n, n), INNER, ctx);
  }

  lemma RunFails(e: Node, error: Error, ctx: Context, loader: Loader)
    requires IsExprStmt(e.kind) && ElabExpr(e, INNER, ctx) == Failure(error)
    ensures DriveOne(Run(e), ctx, loader) == Failure(error)
  {
    var f := Run(e).children[0];
    assert FunctionType(f, ctx.ns) == Success(Function([], Unknown));
    assert ElabStmt(e, INNER, ctx) == Failure(error);
    assert ElabExpr(f, NoScope, ctx) == ElabFunction(f, NoScope, ctx) == Failure(error);
    assert DriveOne(Run(e), ctx, loader) == DriveFunction(Run(e), ctx);
  }

  lemma DriveOnFails(n: Node, rest: seq<Node>, ctx: Context, loader: Loader, es: seq<Extrapolated>)
    requires DriveOne(n, ctx, loader) == Success((es, ctx)) && Drive(rest, ctx, loader).Failure?
    ensures Drive([n] + rest, ctx, loader) == Drive(rest, ctx, loader)
  {
    assert ([n] + rest)[1..] == rest;
  }

  lemma OwnDrives(ctx: Context, loader: Loader)
    requires OwnUses(ctx)
    ensures Drive(OwnFile(), ctx, loader) == Failure(NoOverload)
  {
    var c, run := Class("i8", Operator(Own())), Run(Plus(Path1("f"), Path1("f")));
    OwnSum(ctx);
    RunFails(Plus(Path1("f"), Path1("f")), NoOverload, ctx, loader);
    DriveSingle(run, ctx, loader);
    var ns := ctx.ns + ["i8"];
    assert ns == ["i8"];
    OwnMade(ns);
    var es := OperatorClassDrives("i8", Own(), [INNER_BYTE, INNER_BYTE], ctx, loader);
    DriveOnFails(c, [run], ctx, loader, es);
    ObjectDeclares();
    DeclDrives(Object(), BYTE, [c] + [run], ctx, loader);
  }

  /** The operator that a class i8 declares on two i8 is not the one of two objects of that class: there is none. */
  lemma OwnOperatorUnused(loader: Loader)
    ensures Register(OwnFile(), EMPTY).Success?
    ensures Drive(OwnFile(), Register(OwnFile(), EMPTY).value, loader) == Failure(NoOverload)
  {
    OwnRegisters(EMPTY);
    OwnTablesUse();
    OwnDrives(OwnTables(EMPTY), loader);
  }
}
