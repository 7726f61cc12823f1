/** The two passes over a file: findSymbols registers every declaration, extrapolate elaborates them
    (src/extrapolate.cpp:23-83, 364-424), and what one guarantees the other. */
module Passes {
  import opened Wrappers
  import opened LokTypes
  import opened LokSyntax
  import opened Scoping
  import opened Resolver
  import opened Typing

  /** A declaration with its elaborated value; `owned` marks a symbol made for a `run`. */
  datatype Extrapolated = Extrapolated(symbol: Symbol, value: Option<Stmt>, owned: bool)

  /** What loading needs from outside: canonical file names, and the symbols of the other programs. */
  datatype Loader = Loader(canonical: map<string, string>, programs: map<string, Bindings>)

  const EMPTY: Context := Context([], map[], [], [], [])

  // ----- findSymbols ------------------------------------------------------------

  /** The attribute names of a node whose last child is an attribute list. */
  function Attributes(n: Node): set<string>
    requires n.children != []
  {
    var last := n.children[|n.children| - 1];
    if last.kind == ATTRS then set a <- last.children :: a.text else {}
  }

  /** Symbol(node, isType, context). */
  function DeclaredSymbol(n: Node, ns: Path): (r: Result<Symbol, Error>)
    ensures r.Failure? ==> Local(r.error)
  {
    var first :- Child(n, 0);
    var sort :- if IsTypeNode(first) then MakeType(first, ns) else Success(Unknown);
    Success(Symbol(sort, ns + [n.text], Attributes(n)))
  }

  function AddSymbol(ctx: Context, s: Symbol): Context {
    ctx.(symbols := Bind(ctx.symbols, s))
  }

  /** Registration only adds, and ends in the namespace it began in, or in none after a namespace
      statement. */
  predicate Grows(before: Context, after: Context) {
    && (after.ns == before.ns || after.ns == [])
    && before.symbols.Keys <= after.symbols.Keys
    && (forall id <- before.symbols :: after.symbols[id] == before.symbols[id])
    && after.external == before.external
    && (forall entry <- before.forced :: entry in after.forced)
    && before.overloads <= after.overloads
    && (ForcedTakeTheirKey(before.forced) ==> ForcedTakeTheirKey(after.forced))
  }

  function Register(nodes: seq<Node>, ctx: Context): (r: Result<Context, Error>)
    ensures r.Success? ==> Grows(ctx, r.value)
    decreases nodes, 0
  {
    if nodes == [] then Success(ctx)
    else
      var next :- RegisterOne(nodes[0], ctx);
      Register(nodes[1..], next)
  }

  /** A type declaration or a namespace, which hold declarations of their own. */
  predicate Encloses(n: Node) {
    n.kind == TYPEDECL || n.kind == NAMESPACE
  }

  function RegisterOne(n: Node, ctx: Context): (r: Result<Context, Error>)
    ensures r.Success? ==> Grows(ctx, r.value)
    decreases n, 1
  {
    if Encloses(n) then RegisterEnclosed(n, ctx) else RegisterLeaf(n, ctx)
  }

  function RegisterEnclosed(n: Node, ctx: Context): (r: Result<Context, Error>)
    requires Encloses(n)
    ensures r.Success? ==> Grows(ctx, r.value)
    decreases n, 0
  {
    if n.kind == TYPEDECL then
      var def :- Child(n, 0);
      var body :- Child(def, 0);
      var inner :- Register(body.children, ctx.(ns := ctx.ns + [n.text]));
      if inner.ns == [] then Failure(EmptyNamespace) else
      var outer := inner.(ns := inner.ns[..|inner.ns| - 1]);
      var s :- DeclaredSymbol(n, outer.ns);
      Success(AddSymbol(outer, s))
    else
      var path :- Child(n, 0);
      var id :- MakeIdentifier(path, true, ctx.ns);
      var body :- Child(n, 1);
      var inner :- Register(body.children, ctx.(ns := id));
      Success(inner.(ns := []))
  }

  function RegisterLeaf(n: Node, ctx: Context): (r: Result<Context, Error>)
    ensures r.Success? ==> Grows(ctx, r.value) && r.value.ns == ctx.ns
  {
    match n.kind
    case DECL =>
      var s :- DeclaredSymbol(n, ctx.ns);
      Success(AddSymbol(ctx, s))
    case CTORDEF => RegisterConstructor(n, ctx)
    case DTORDEF =>
      if n.children == [] then Failure(OutOfRange) else
      Success(AddSymbol(ctx, Symbol(Single(ctx.ns, None), ctx.ns + ["del"], Attributes(n))))
    case OPOVERLOAD =>
      var first :- Child(n, 0);
      var sort :- FunctionType(first, ctx.ns);
      var s := Symbol(sort, ctx.ns + [n.text], Attributes(n));
      Success(AddSymbol(ctx, s).(overloads := ctx.overloads + [(n.text, s)]))
    case _ => Success(ctx)
  }

  /** A forced constructor is filed under the type of its one parameter. */
  function RegisterConstructor(n: Node, ctx: Context): (r: Result<Context, Error>)
    ensures r.Success? ==> Grows(ctx, r.value) && r.value.ns == ctx.ns && ctx.ns + ["new"] in r.value.symbols
  {
    var params :- Child(n, 0);
    var input :- ParamTypes(params.children, ctx.ns);
    var s := Symbol(Function(input, Single(ctx.ns, None)), ctx.ns + ["new"], Attributes(n));
    if "forced" in s.attrs then
      if |input| > 1 then Failure(ForcedArity)
      else if input == [] then Failure(OutOfRange)
      else Success(AddSymbol(ctx, s).(forced := FileForced(ctx.forced, (input[0], s))))
    else
      Success(AddSymbol(ctx, s))
  }

  // ----- extrapolate ------------------------------------------------------------

  function Registered(ctx: Context, id: Path): (r: Result<Symbol, Error>)
    ensures r.Success? <==> id in ctx.symbols
    ensures r.Failure? ==> r.error == Unregistered(id)
  {
    if id in ctx.symbols then Success(ctx.symbols[id]) else Failure(Unregistered(id))
  }

  /** parseFilename: the path parts run together. */
  function FileName(n: Node): string {
    if n.children == [] then n.text else n.text + FileName(n.children[0])
  }

  predicate HeadedBy(n: Node, k: Kind) {
    n.children != [] ==> n.children[0].kind == k
  }

  /** What the grammar makes of a file: runs and operators hold a function, destructors a block. */
  predicate Shaped(nodes: seq<Node>)
    decreases nodes, 0
  {
    forall n <- nodes :: ShapedOne(n)
  }

  predicate ShapedOne(n: Node)
    decreases n, 1
  {
    match n.kind
    case RUN => HeadedBy(n, FUNCDEF)
    case OPOVERLOAD => HeadedBy(n, FUNCDEF)
    case DTORDEF => HeadedBy(n, BLOCK)
    case NAMESPACE => |n.children| > 1 ==> Shaped(n.children[1].children)
    case TYPEDECL => n.children != [] && n.children[0].children != [] ==> Shaped(n.children[0].children[0].children)
    case _ => true
  }

  /** Only the namespace and the loaded files change while a file is elaborated. */
  predicate SameTables(before: Context, after: Context) {
    after.symbols == before.symbols && after.forced == before.forced && after.overloads == before.overloads
  }

  function Drive(nodes: seq<Node>, ctx: Context, loader: Loader): (r: Result<(seq<Extrapolated>, Context), Error>)
    ensures r.Success? ==> SameTables(ctx, r.value.1)
    ensures Shaped(nodes) && r.Failure? ==> !r.error.EmptyStack?
    decreases nodes, 0
  {
    if nodes == [] then Success(([], ctx))
    else
      var head :- DriveOne(nodes[0], ctx, loader);
      var tail :- Drive(nodes[1..], head.1, loader);
      Success((head.0 + tail.0, tail.1))
  }

  function DriveOne(n: Node, ctx: Context, loader: Loader): (r: Result<(seq<Extrapolated>, Context), Error>)
    ensures r.Success? ==> SameTables(ctx, r.value.1)
    ensures ShapedOne(n) && r.Failure? ==> !r.error.EmptyStack?
    decreases n, 1
  {
    if Encloses(n) then DriveEnclosed(n, ctx, loader) else DriveLeaf(n, ctx, loader)
  }

  function DriveEnclosed(n: Node, ctx: Context, loader: Loader): (r: Result<(seq<Extrapolated>, Context), Error>)
    requires Encloses(n)
    ensures r.Success? ==> SameTables(ctx, r.value.1)
    ensures ShapedOne(n) && r.Failure? ==> !r.error.EmptyStack?
    decreases n, 0
  {
    if n.kind == TYPEDECL then
      var def :- Child(n, 0);
      var body :- Child(def, 0);
      DriveWithin(body.children, ctx.ns + [n.text], ctx.ns, ctx, loader)
    else
      var path :- Child(n, 0);
      var id :- MakeIdentifier(path, true, ctx.ns);
      var body :- Child(n, 1);
      DriveWithin(body.children, id, [], ctx, loader)
  }

  /** Elaborates declarations in a namespace and goes on in another. */
  function DriveWithin(nodes: seq<Node>, ns: Path, after: Path, ctx: Context, loader: Loader)
    : (r: Result<(seq<Extrapolated>, Context), Error>)
    ensures r.Success? ==> SameTables(ctx, r.value.1)
    ensures Shaped(nodes) && r.Failure? ==> !r.error.EmptyStack?
    decreases nodes, 1
  {
    var inner :- Drive(nodes, ctx.(ns := ns), loader);
    Success((inner.0, inner.1.(ns := after)))
  }

  /** A declaration without declarations of its own. A top-level variable's initialiser is never elaborated: the
      guard `children.size() < expressionIndex` cannot hold once child 0 has been read. */
  function DriveLeaf(n: Node, ctx: Context, loader: Loader): (r: Result<(seq<Extrapolated>, Context), Error>)
    ensures r.Success? ==> SameTables(ctx, r.value.1) && r.value.1.ns == ctx.ns && (n.kind != LOAD ==> r.value.1 == ctx)
    ensures !Encloses(n) && ShapedOne(n) && r.Failure? ==> !r.error.EmptyStack?
  {
    match n.kind
    case DECL =>
      var first :- Child(n, 0);
      var _ :- if IsTypeNode(first) then MakeType(first, ctx.ns) else Success(Unknown);
      Success(([], ctx))
    case RUN => DriveFunction(n, ctx)
    case OPOVERLOAD => DriveFunction(n, ctx)
    case LOAD => DriveLoad(n, ctx, loader)
    case CTORDEF => DriveConstructor(n, ctx)
    case DTORDEF => DriveDestructor(n, ctx)
    case _ => Success(([], ctx))
  }

  function DriveFunction(n: Node, ctx: Context): (r: Result<(seq<Extrapolated>, Context), Error>)
    requires n.kind == RUN || n.kind == OPOVERLOAD
    ensures r.Success? ==> r.value.1 == ctx
    ensures ShapedOne(n) && r.Failure? ==> !r.error.EmptyStack?
  {
    if n.kind == RUN then
      var first :- Child(n, 0);
      var sort :- FunctionType(first, ctx.ns);
      var e :- ElabExpr(first, NoScope, ctx);
      Success(([Extrapolated(Symbol(sort, ["run", "0"], {}), AsStmt(e), true)], ctx))
    else
      var s :- Registered(ctx, ctx.ns + [n.text]);
      var first :- Child(n, 0);
      var e :- ElabExpr(first, NoScope, ctx);
      Success(([Extrapolated(s, AsStmt(e), false)], ctx))
  }

  function DriveLoad(n: Node, ctx: Context, loader: Loader): (r: Result<(seq<Extrapolated>, Context), Error>)
    ensures r.Success? ==> SameTables(ctx, r.value.1) && r.value.1.ns == ctx.ns
    ensures r.Failure? ==> Local(r.error)
  {
    var path :- Child(n, 0);
    var file :- Child(path, 0);
    var name := FileName(file) + ".lok";
    if name !in loader.canonical then Failure(NoFile) else
    var key := loader.canonical[name];
    var loaded := if key in loader.programs then loader.programs[key] else map[];
    Success(([], ctx.(external := SetExternal(ctx.external, key, loaded))))
  }

  function DriveDestructor(n: Node, ctx: Context): (r: Result<(seq<Extrapolated>, Context), Error>)
    requires n.kind == DTORDEF
    ensures r.Success? ==> r.value.1 == ctx
    ensures ShapedOne(n) && r.Failure? ==> !r.error.EmptyStack?
  {
    var s :- Registered(ctx, ctx.ns + ["del"]);
    var body :- Child(n, 0);
    var block :- ElabStmt(body, NoScope, ctx);
    Success(([Extrapolated(s, block.0, false)], ctx))
  }

  /** A constructor's body is its second or third child, if one of them is a block. */
  function DriveConstructor(n: Node, ctx: Context): (r: Result<(seq<Extrapolated>, Context), Error>)
    ensures r.Success? ==> r.value.1 == ctx
    ensures r.Failure? ==> !r.error.EmptyStack?
  {
    var s :- Registered(ctx, ctx.ns + ["new"]);
    var second :- Child(n, 1);
    if second.kind == BLOCK then
      var block :- ElabStmt(second, NoScope, ctx);
      Success(([Extrapolated(s, block.0, false)], ctx))
    else if |n.children| >= 3 && n.children[2].kind == BLOCK then
      var block :- ElabStmt(n.children[2], NoScope, ctx);
      Success(([Extrapolated(s, block.0, false)], ctx))
    else
      Success(([], ctx))
  }

  // ----- The passes agree ---------------------------------------------------------

  /** Elaborating a registered declaration finds every path it looks up and ends in the namespace that
      registration ended in. */
  ghost predicate Agrees(registered: Result<Context, Error>, drove: Result<(seq<Extrapolated>, Context), Error>) {
    registered.Success? ==>
      if drove.Success? then drove.value.1.ns == registered.value.ns else !drove.error.Unregistered?
  }

  predicate RegisteredIn(registered: Result<Context, Error>, ctx: Context) {
    registered.Success? ==> registered.value.symbols.Keys <= ctx.symbols.Keys
  }

  lemma ConstructorAgrees(n: Node, before: Context, ctx: Context)
    requires ctx.ns == before.ns && RegisteredIn(RegisterConstructor(n, before), ctx)
    ensures Agrees(RegisterConstructor(n, before), DriveConstructor(n, ctx))
  {
  }

  lemma FunctionAgrees(n: Node, before: Context, ctx: Context, loader: Loader)
    requires n.kind == RUN || n.kind == OPOVERLOAD
    requires ctx.ns == before.ns && RegisteredIn(RegisterLeaf(n, before), ctx)
    ensures Agrees(RegisterLeaf(n, before), DriveLeaf(n, ctx, loader))
  {
  }

  lemma OtherAgrees(n: Node, before: Context, ctx: Context, loader: Loader)
    requires n.kind != RUN && n.kind != OPOVERLOAD && n.kind != CTORDEF
    requires ctx.ns == before.ns && RegisteredIn(RegisterLeaf(n, before), ctx)
    ensures Agrees(RegisterLeaf(n, before), DriveLeaf(n, ctx, loader))
  {
  }

  lemma LeafAgrees(n: Node, before: Context, ctx: Context, loader: Loader)
    requires ctx.ns == before.ns && RegisteredIn(RegisterLeaf(n, before), ctx)
    ensures Agrees(RegisterLeaf(n, before), DriveLeaf(n, ctx, loader))
  {
    if n.kind == CTORDEF {
      ConstructorAgrees(n, before, ctx);
    } else if n.kind == RUN || n.kind == OPOVERLOAD {
      FunctionAgrees(n, before, ctx, loader);
    } else {
      OtherAgrees(n, before, ctx, loader);
    }
  }

  lemma {:induction false} EnclosedAgrees(n: Node, before: Context, ctx: Context, loader: Loader)
    requires Encloses(n) && ctx.ns == before.ns && RegisteredIn(RegisterEnclosed(n, before), ctx)
    ensures Agrees(RegisterEnclosed(n, before), DriveEnclosed(n, ctx, loader))
    decreases n, 0
  {
    if RegisterEnclosed(n, before).Success? {
      if n.kind == TYPEDECL {
        var inner := before.(ns := before.ns + [n.text]);
        PassesAgree(n.children[0].children[0].children, inner, ctx.(ns := ctx.ns + [n.text]), loader);
      } else {
        var id := MakeIdentifier(n.children[0], true, ctx.ns).value;
        PassesAgree(n.children[1].children, before.(ns := id), ctx.(ns := id), loader);
      }
    }
  }

  lemma {:induction false} PassesAgreeOne(n: Node, before: Context, ctx: Context, loader: Loader)
    requires ctx.ns == before.ns && RegisteredIn(RegisterOne(n, before), ctx)
    ensures Agrees(RegisterOne(n, before), DriveOne(n, ctx, loader))
    decreases n, 1
  {
    if Encloses(n) {
      EnclosedAgrees(n, before, ctx, loader);
    } else {
      LeafAgrees(n, before, ctx, loader);
    }
  }

  /** Once declarations are registered, elaborating them in the same namespace agrees with registration. */
  lemma {:induction false} PassesAgree(nodes: seq<Node>, before: Context, ctx: Context, loader: Loader)
    requires ctx.ns == before.ns && RegisteredIn(Register(nodes, before), ctx)
    ensures Agrees(Register(nodes, before), Drive(nodes, ctx, loader))
    decreases nodes, 0
  {
    if nodes != [] && Register(nodes, before).Success? {
      var next := RegisterOne(nodes[0], before).value;
      PassesAgreeOne(nodes[0], before, ctx, loader);
      var drove := DriveOne(nodes[0], ctx, loader);
      if drove.Success? { PassesAgree(nodes[1..], next, drove.value.1, loader); }
    }
  }

  // ----- What is elaborated is well typed ---------------------------------------------

  predicate AllWellTyped(entries: seq<Extrapolated>, slack: Forced) {
    forall x <- entries :: WellTypedIfAny(x.value, slack)
  }

  /** The parameters and the body of a function are fully typed; its result may be missing. */
  predicate TypedFunction(n: Node) {
    if n.kind == FUNCDEF then
      && (n.children != [] ==> FullyTyped(n.children[0]))
      && (|n.children| > 1 ==> FullyTyped(n.children[1]))
    else FullyTyped(n)
  }

  /** Everything that is elaborated for some declarations is fully typed. */
  predicate TypedDecls(nodes: seq<Node>)
    decreases nodes, 0
  {
    forall n <- nodes :: TypedDecl(n)
  }

  predicate TypedDecl(n: Node)
    decreases n, 1
  {
    match n.kind
    case RUN => n.children != [] ==> TypedFunction(n.children[0])
    case OPOVERLOAD => n.children != [] ==> TypedFunction(n.children[0])
    case DTORDEF => n.children != [] ==> FullyTyped(n.children[0])
    case CTORDEF => (|n.children| > 1 ==> FullyTyped(n.children[1])) && (|n.children| > 2 ==> FullyTyped(n.children[2]))
    case NAMESPACE => |n.children| > 1 ==> TypedDecls(n.children[1].children)
    case TYPEDECL => n.children != [] && n.children[0].children != [] ==> TypedDecls(n.children[0].children[0].children)
    case _ => true
  }

  /** The names that some declarations may look up, being among these. */
  predicate DeclsMention(nodes: seq<Node>, names: set<Path>)
    decreases nodes, 0
  {
    forall n <- nodes :: DeclMentions(n, names)
  }

  predicate DeclMentions(n: Node, names: set<Path>)
    decreases n, 1
  {
    match n.kind
    case NAMESPACE => |n.children| > 1 ==> DeclsMention(n.children[1].children, names)
    case TYPEDECL =>
      n.children != [] && n.children[0].children != [] ==> DeclsMention(n.children[0].children[0].children, names)
    case CTORDEF => n.children != [] ==> MentionsAll(n.children[1..]) <= names
    case _ => MentionsAll(n.children) <= names
  }

  predicate KnownPrograms(loader: Loader, names: set<Path>) {
    forall file <- loader.programs :: KnownNames(loader.programs[file], names)
  }

  /** Either upgrades are given slack, or the declarations and the other programs are known throughout. */
  predicate Admits(slack: Forced, ctx: Context, names: set<Path>, loader: Loader) {
    Fair(slack, NoScope, ctx, names) && (slack == ctx.forced || KnownPrograms(loader, names))
  }

  predicate DeclSuits(slack: Forced, ctx: Context, n: Node, names: set<Path>) {
    slack == ctx.forced || (TypedDecl(n) && DeclMentions(n, names))
  }

  predicate DeclsSuit(slack: Forced, ctx: Context, nodes: seq<Node>, names: set<Path>) {
    slack == ctx.forced || (TypedDecls(nodes) && DeclsMention(nodes, names))
  }

  predicate DroveFine(slack: Forced, names: set<Path>, loader: Loader, r: (seq<Extrapolated>, Context)) {
    AllWellTyped(r.0, slack) && Admits(slack, r.1, names, loader)
  }

  lemma LoadFine(slack: Forced, ctx: Context, file: string, names: set<Path>, loader: Loader)
    requires Admits(slack, ctx, names, loader)
    ensures var loaded := if file in loader.programs then loader.programs[file] else map[];
            Admits(slack, ctx.(external := SetExternal(ctx.external, file, loaded)), names, loader)
  {
    var loaded := if file in loader.programs then loader.programs[file] else map[];
    SetExternalContents(ctx.external, file, loaded);
  }

  lemma FunctionFine(slack: Forced, n: Node, ctx: Context, names: set<Path>)
    requires Fair(slack, NoScope, ctx, names)
    requires slack == ctx.forced || (TypedFunction(n) && Mentions(n) <= names)
    ensures var e := ElabExpr(n, NoScope, ctx); e.Success? ==> WellTypedIfAny(AsStmt(e.value), slack)
  {
    if n.kind == FUNCDEF {
      assert n.children != [] ==> Mentions(n) == Mentions(n.children[0]);
      ElabFunctionWellTyped(slack, n, NoScope, ctx, names);
    } else {
      ElabExprFine(slack, n, NoScope, ctx, names);
    }
  }

  lemma DriveFunctionFine(slack: Forced, n: Node, ctx: Context, names: set<Path>, loader: Loader)
    requires n.kind == RUN || n.kind == OPOVERLOAD
    requires Admits(slack, ctx, names, loader) && DeclSuits(slack, ctx, n, names)
    ensures var r := DriveFunction(n, ctx); r.Success? ==> DroveFine(slack, names, loader, r.value)
  {
    if n.children != [] {
      assert n.children[0] in n.children;
      FunctionFine(slack, n.children[0], ctx, names);
    }
  }

  lemma ConstructorFine(slack: Forced, n: Node, ctx: Context, names: set<Path>, loader: Loader)
    requires n.kind == CTORDEF && Admits(slack, ctx, names, loader) && DeclSuits(slack, ctx, n, names)
    ensures var r := DriveConstructor(n, ctx); r.Success? ==> DroveFine(slack, names, loader, r.value)
  {
    if DriveConstructor(n, ctx).Success? {
      assert n.children[1] in n.children[1..];
      ElabStmtFineIf(slack, n.children[1], ctx, names);
      if |n.children| > 2 {
        assert n.children[2] in n.children[1..];
        ElabStmtFineIf(slack, n.children[2], ctx, names);
      }
    }
  }

  lemma ElabStmtFineIf(slack: Forced, n: Node, ctx: Context, names: set<Path>)
    requires Fair(slack, NoScope, ctx, names) && Suits(slack, ctx, n, names)
    ensures var s := ElabStmt(n, NoScope, ctx); s.Success? ==> WellTypedIfAny(s.value.0, slack)
  {
    ElabStmtFine(slack, n, NoScope, ctx, names);
  }

  lemma {:induction false} DriveOneFine(slack: Forced, n: Node, ctx: Context, names: set<Path>, loader: Loader)
    requires Admits(slack, ctx, names, loader) && DeclSuits(slack, ctx, n, names)
    ensures var r := DriveOne(n, ctx, loader); r.Success? ==> DroveFine(slack, names, loader, r.value)
    decreases n, 1
  {
    if n.kind == TYPEDECL {
      DriveTypeFine(slack, n, ctx, names, loader);
    } else if n.kind == NAMESPACE {
      DriveNamespaceFine(slack, n, ctx, names, loader);
    } else {
      DriveLeafFine(slack, n, ctx, names, loader);
    }
  }

  lemma DriveLoadFine(slack: Forced, n: Node, ctx: Context, names: set<Path>, loader: Loader)
    requires Admits(slack, ctx, names, loader)
    ensures var r := DriveLoad(n, ctx, loader); r.Success? ==> DroveFine(slack, names, loader, r.value)
  {
    if DriveLoad(n, ctx, loader).Success? {
      LoadFine(slack, ctx, loader.canonical[FileName(n.children[0].children[0]) + ".lok"], names, loader);
    }
  }

  lemma DriveLeafFine(slack: Forced, n: Node, ctx: Context, names: set<Path>, loader: Loader)
    requires Admits(slack, ctx, names, loader) && DeclSuits(slack, ctx, n, names)
    ensures var r := DriveLeaf(n, ctx, loader); r.Success? ==> DroveFine(slack, names, loader, r.value)
  {
    if n.kind == LOAD {
      DriveLoadFine(slack, n, ctx, names, loader);
    } else if n.kind == CTORDEF {
      ConstructorFine(slack, n, ctx, names, loader);
    } else if n.kind == RUN || n.kind == OPOVERLOAD {
      DriveFunctionFine(slack, n, ctx, names, loader);
    } else if n.kind == DTORDEF {
      DestructorFine(slack, n, ctx, names, loader);
    } else {
      NothingFine(slack, n, ctx, names, loader);
    }
  }

  /** The other declarations leave everything as it was. */
  lemma NothingFine(slack: Forced, n: Node, ctx: Context, names: set<Path>, loader: Loader)
    requires n.kind !in {LOAD, CTORDEF, RUN, OPOVERLOAD, DTORDEF} && Admits(slack, ctx, names, loader)
    ensures var r := DriveLeaf(n, ctx, loader); r.Success? ==> DroveFine(slack, names, loader, r.value)
  {
    var r := DriveLeaf(n, ctx, loader);
    assert r.Success? ==> r.value == ([], ctx);
  }

  lemma DestructorFine(slack: Forced, n: Node, ctx: Context, names: set<Path>, loader: Loader)
    requires n.kind == DTORDEF && Admits(slack, ctx, names, loader) && DeclSuits(slack, ctx, n, names)
    ensures var r := DriveDestructor(n, ctx); r.Success? ==> DroveFine(slack, names, loader, r.value)
  {
    if n.children != [] {
      assert n.children[0] in n.children;
      ElabStmtFineIf(slack, n.children[0], ctx, names);
    }
  }

  /** The tables admit the declarations inside, whatever the namespace. */
  lemma AdmitsWithin(slack: Forced, ctx: Context, ns: Path, names: set<Path>, loader: Loader)
    requires Admits(slack, ctx, names, loader)
    ensures Admits(slack, ctx.(ns := ns), names, loader)
  {
  }

  lemma {:induction false} DriveWithinFine(
      slack: Forced, nodes: seq<Node>, ns: Path, after: Path, ctx: Context, names: set<Path>, loader: Loader)
    requires Admits(slack, ctx, names, loader) && DeclsSuit(slack, ctx, nodes, names)
    ensures var r := DriveWithin(nodes, ns, after, ctx, loader); r.Success? ==> DroveFine(slack, names, loader, r.value)
    decreases nodes, 1
  {
    AdmitsWithin(slack, ctx, ns, names, loader);
    var inner := Drive(nodes, ctx.(ns := ns), loader);
    if inner.Success? {
      DriveFine(slack, nodes, ctx.(ns := ns), names, loader);
      AdmitsWithin(slack, inner.value.1, after, names, loader);
    }
  }

  lemma {:induction false} DriveTypeFine(slack: Forced, n: Node, ctx: Context, names: set<Path>, loader: Loader)
    requires n.kind == TYPEDECL && Admits(slack, ctx, names, loader) && DeclSuits(slack, ctx, n, names)
    ensures var r := DriveEnclosed(n, ctx, loader); r.Success? ==> DroveFine(slack, names, loader, r.value)
    decreases n, 0
  {
    if n.children != [] && n.children[0].children != [] {
      DriveWithinFine(slack, n.children[0].children[0].children, ctx.ns + [n.text], ctx.ns, ctx, names, loader);
    }
  }

  lemma {:induction false} DriveNamespaceFine(slack: Forced, n: Node, ctx: Context, names: set<Path>, loader: Loader)
    requires n.kind == NAMESPACE && Admits(slack, ctx, names, loader) && DeclSuits(slack, ctx, n, names)
    ensures var r := DriveEnclosed(n, ctx, loader); r.Success? ==> DroveFine(slack, names, loader, r.value)
    decreases n, 0
  {
    if |n.children| > 1 && MakeIdentifier(n.children[0], true, ctx.ns).Success? {
      var id := MakeIdentifier(n.children[0], true, ctx.ns).value;
      DriveWithinFine(slack, n.children[1].children, id, [], ctx, names, loader);
    }
  }

  lemma {:induction false} DriveFine(slack: Forced, nodes: seq<Node>, ctx: Context, names: set<Path>, loader: Loader)
    requires Admits(slack, ctx, names, loader) && DeclsSuit(slack, ctx, nodes, names)
    ensures var r := Drive(nodes, ctx, loader); r.Success? ==> DroveFine(slack, names, loader, r.value)
    decreases nodes, 0
  {
    if nodes != [] && Drive(nodes, ctx, loader).Success? {
      assert nodes[0] in nodes && forall n <- nodes[1..] :: n in nodes;
      DriveOneFine(slack, nodes[0], ctx, names, loader);
      DriveFine(slack, nodes[1..], DriveOne(nodes[0], ctx, loader).value.1, names, loader);
    }
  }

  /** Everything elaborated is well typed, but that an upgrade may take an operand whose type the table of
      constructors does not tell from its key; with no forced constructors, or with everything known, there is no
      such upgrade. */
  lemma DriveWellTyped(nodes: seq<Node>, ctx: Context, names: set<Path>, loader: Loader)
    requires SoundTables(ctx) && Drive(nodes, ctx, loader).Success?
    ensures var entries := Drive(nodes, ctx, loader).value.0;
            && AllWellTyped(entries, ctx.forced)
            && (ctx.forced == [] || Knowable(nodes, ctx, names, loader) ==> AllWellTyped(entries, []))
  {
    DriveFine(ctx.forced, nodes, ctx, names, loader);
    if Knowable(nodes, ctx, names, loader) { DriveFine([], nodes, ctx, names, loader); }
  }

  /** What a caller can look up before the second pass: every piece of code is fully typed, the keys of the forced
      constructors can be told apart, and every overload and every name that is mentioned has a known type. */
  predicate Knowable(nodes: seq<Node>, ctx: Context, names: set<Path>, loader: Loader) {
    && TypedDecls(nodes) && DeclsMention(nodes, names)
    && AllKnown(NoScope, ctx, names) && KnownPrograms(loader, names)
  }

  // ----- Loaded files stay in order -------------------------------------------------------

  lemma LeafKeepsFiles(n: Node, ctx: Context, loader: Loader)
    requires FilesAscend(ctx.external) && DriveLeaf(n, ctx, loader).Success?
    ensures FilesAscend(DriveLeaf(n, ctx, loader).value.1.external)
  {
    if n.kind == LOAD { LoadKeepsFiles(n, ctx, loader); }
  }

  lemma LoadKeepsFiles(n: Node, ctx: Context, loader: Loader)
    requires FilesAscend(ctx.external) && DriveLoad(n, ctx, loader).Success?
    ensures FilesAscend(DriveLoad(n, ctx, loader).value.1.external)
  {
    var file := loader.canonical[FileName(n.children[0].children[0]) + ".lok"];
    SetExternalAscends(ctx.external, file, if file in loader.programs then loader.programs[file] else map[]);
  }

  lemma {:induction false} EnclosedKeepsFiles(n: Node, ctx: Context, loader: Loader)
    requires Encloses(n) && FilesAscend(ctx.external) && DriveEnclosed(n, ctx, loader).Success?
    ensures FilesAscend(DriveEnclosed(n, ctx, loader).value.1.external)
    decreases n, 0
  {
    if n.kind == TYPEDECL {
      DriveKeepsFiles(n.children[0].children[0].children, ctx.(ns := ctx.ns + [n.text]), loader);
    } else {
      DriveKeepsFiles(n.children[1].children, ctx.(ns := MakeIdentifier(n.children[0], true, ctx.ns).value), loader);
    }
  }

  /** Elaboration keeps the loaded files in the order of their names. */
  lemma {:induction false} DriveKeepsFiles(nodes: seq<Node>, ctx: Context, loader: Loader)
    requires FilesAscend(ctx.external) && Drive(nodes, ctx, loader).Success?
    ensures FilesAscend(Drive(nodes, ctx, loader).value.1.external)
    decreases nodes, 0
  {
    if nodes != [] {
      if Encloses(nodes[0]) {
        EnclosedKeepsFiles(nodes[0], ctx, loader);
      } else {
        LeafKeepsFiles(nodes[0], ctx, loader);
      }
      DriveKeepsFiles(nodes[1..], DriveOne(nodes[0], ctx, loader).value.1, loader);
    }
  }

  // ----- What registration files -----------------------------------------------------------

  /** A type written in a class is that of the class's objects only in a class whose path begins with `bit`, if it
      spells the whole path. */
  lemma WrittenInClass(n: Node, ns: Path)
    requires MakeType(n, ns).Success?
    ensures MakeType(n, ns).value == Single(ns, None) <==>
              && n.kind == TYPESINGLE && n.children[1].kind == NONE && ns != [] && ns[0] == "bit"
              && Chain(n.children[0].children[0]) == ns
  {
    if n.kind == TYPESINGLE {
      var first := n.children[0].children[0];
      assert Chain(first)[0] == first.text;
      assert first.text == "bit" ==> [] + Chain(first) == Chain(first);
      assert |ns + Chain(first)| > |ns|;
    }
  }

  /** The class or namespace that a symbol stands in. */
  function Home(s: Symbol): Path {
    if s.id == [] then [] else s.id[..|s.id| - 1]
  }

  predicate OfBits(ns: Path) {
    ns != [] && ns[0] == "bit"
  }

  /** No parameter is an object of the class that the symbol stands in. */
  predicate RefusesOwn(s: Symbol) {
    OfBits(Home(s)) || (s.sort.Function? && Single(Home(s), None) !in s.sort.input)
  }

  /** The symbol makes an object of the class that it stands in. */
  predicate MakesOwn(s: Symbol) {
    s.sort.Function? && s.sort.output == Single(Home(s), None)
  }

  /** What holds of tables that registration filled. */
  predicate Tidy(ctx: Context) {
    && (forall entry <- ctx.overloads :: RefusesOwn(entry.1))
    && (forall entry <- ctx.forced :: MakesOwn(entry.1))
    && (Ordered(Keys(ctx.forced)) ==> Sorted(ctx.forced))
  }

  lemma {:induction false} ParamsRefuseOwn(params: seq<Node>, ns: Path)
    requires ParamTypes(params, ns).Success? && !OfBits(ns)
    ensures Single(ns, None) !in ParamTypes(params, ns).value
    decreases params
  {
    if params != [] {
      WrittenInClass(params[0].children[0], ns);
      ParamsRefuseOwn(params[1..], ns);
    }
  }

  lemma OverloadTidy(n: Node, ctx: Context)
    requires n.kind == OPOVERLOAD && Tidy(ctx) && RegisterLeaf(n, ctx).Success?
    ensures Tidy(RegisterLeaf(n, ctx).value)
  {
    var sort := FunctionType(n.children[0], ctx.ns).value;
    var s := Symbol(sort, ctx.ns + [n.text], Attributes(n));
    assert Home(s) == ctx.ns;
    if !OfBits(ctx.ns) { ParamsRefuseOwn(n.children[0].children[1].children, ctx.ns); }
    WithOverloadTidy(ctx, RegisterLeaf(n, ctx).value, n.text, s);
  }

  lemma WithOverloadTidy(ctx: Context, after: Context, op: string, s: Symbol)
    requires Tidy(ctx) && RefusesOwn(s) && after.forced == ctx.forced && after.overloads == ctx.overloads + [(op, s)]
    ensures Tidy(after)
  {
  }

  lemma ForcedTidy(forced: Forced, entry: (Type, Symbol))
    requires Ordered(Keys(forced)) ==> Sorted(forced)
    ensures Ordered(Keys(FileForced(forced, entry))) ==> Sorted(FileForced(forced, entry))
  {
    var filed := FileForced(forced, entry);
    if Ordered(Keys(filed)) {
      assert Keys(filed) == Keys(forced) + {entry.0};
      FiledSorted(forced, entry);
    }
  }

  lemma ConstructorTidy(n: Node, ctx: Context)
    requires Tidy(ctx) && RegisterConstructor(n, ctx).Success?
    ensures Tidy(RegisterConstructor(n, ctx).value)
  {
    var input := ParamTypes(n.children[0].children, ctx.ns).value;
    var s := Symbol(Function(input, Single(ctx.ns, None)), ctx.ns + ["new"], Attributes(n));
    assert Home(s) == ctx.ns;
    if input != [] { ForcedTidy(ctx.forced, (input[0], s)); }
  }

  lemma {:induction false} EnclosedTidy(n: Node, ctx: Context)
    requires Encloses(n) && Tidy(ctx) && RegisterEnclosed(n, ctx).Success?
    ensures Tidy(RegisterEnclosed(n, ctx).value)
    decreases n, 0
  {
    if n.kind == TYPEDECL {
      RegisterTidy(n.children[0].children[0].children, ctx.(ns := ctx.ns + [n.text]));
    } else {
      RegisterTidy(n.children[1].children, ctx.(ns := MakeIdentifier(n.children[0], true, ctx.ns).value));
    }
  }

  lemma LeafTidy(n: Node, ctx: Context)
    requires Tidy(ctx) && RegisterLeaf(n, ctx).Success?
    ensures Tidy(RegisterLeaf(n, ctx).value)
  {
    if n.kind == CTORDEF {
      ConstructorTidy(n, ctx);
    } else if n.kind == OPOVERLOAD {
      OverloadTidy(n, ctx);
    } else {
      OtherTidy(n, ctx);
    }
  }

  lemma OtherTidy(n: Node, ctx: Context)
    requires n.kind != CTORDEF && n.kind != OPOVERLOAD && Tidy(ctx) && RegisterLeaf(n, ctx).Success?
    ensures Tidy(RegisterLeaf(n, ctx).value)
  {
    var after := RegisterLeaf(n, ctx).value;
    assert after.forced == ctx.forced && after.overloads == ctx.overloads;
  }

  lemma {:induction false} RegisterTidy(nodes: seq<Node>, ctx: Context)
    requires Tidy(ctx) && Register(nodes, ctx).Success?
    ensures Tidy(Register(nodes, ctx).value)
    decreases nodes, 0
  {
    if nodes != [] {
      if Encloses(nodes[0]) {
        EnclosedTidy(nodes[0], ctx);
      } else {
        LeafTidy(nodes[0], ctx);
      }
      RegisterTidy(nodes[1..], RegisterOne(nodes[0], ctx).value);
    }
  }

  /** The operators of a class never take the objects that its constructors make, unless its path begins with `bit`:
      an operator on such an object resolves to one of another class. */
  lemma OwnOperatorsRefuse(file: seq<Node>, op: string, l: Type, r: Type, ns: Path, i: nat)
    requires Register(file, EMPTY).Success? && !OfBits(ns) && (l == Single(ns, None) || r == Single(ns, None))
    requires FirstExact(Register(file, EMPTY).value.overloads, op, l, r, i)
    ensures Home(Register(file, EMPTY).value.overloads[i].1) != ns
  {
    var overloads := Register(file, EMPTY).value.overloads;
    RegisterTidy(file, EMPTY);
    assert overloads[i] in overloads;
    var input := overloads[i].1.sort.input;
    assert input[0] == input[..2][0] && input[1] == input[..2][1];
  }

  /** Where the keys of a file's forced constructors and a type are in order, what an upgrade finds for the type is
      the one range between its bounds in the table, as a multimap has it. */
  lemma RegisteredRange(file: seq<Node>, t: Type) returns (lo: nat, hi: nat)
    requires Register(file, EMPTY).Success? && Ordered(Keys(Register(file, EMPTY).value.forced) + {t})
    ensures var forced := Register(file, EMPTY).value.forced;
            Sorted(forced) && Bounds(forced, t, lo, hi) && ForcedFor(forced, t) == Symbols(forced[lo..hi])
  {
    RegisterTidy(file, EMPTY);
    lo, hi := EqualRange(Register(file, EMPTY).value.forced, t);
  }

  // ----- A whole file -----------------------------------------------------------------------

  /** Both passes over a whole file: no looked-up declaration is missing, the stack is never found empty in a file
      of the grammar's shape, the loaded files stay in order, and everything elaborated is well typed, unless some
      operator overload declares three or more parameters or an upgrade takes an operand of unknown type. */
  lemma FileTheorem(file: seq<Node>, names: set<Path>, loader: Loader)
    requires Register(file, EMPTY).Success?
    ensures var ctx := Register(file, EMPTY).value;
            var r := Drive(file, ctx, loader);
            && (r.Failure? ==> !r.error.Unregistered?)
            && (r.Failure? && Shaped(file) ==> !r.error.EmptyStack?)
            && (r.Success? ==> FilesAscend(r.value.1.external))
            && (r.Success? && AtMostBinary(ctx.overloads) ==>
                  && AllWellTyped(r.value.0, ctx.forced)
                  && (ctx.forced == [] || Knowable(file, ctx, names, loader) ==> AllWellTyped(r.value.0, [])))
  {
    var ctx := Register(file, EMPTY).value;
    PassesAgree(file, EMPTY, ctx, loader);
    if Drive(file, ctx, loader).Success? {
      DriveKeepsFiles(file, ctx, loader);
      if AtMostBinary(ctx.overloads) { DriveWellTyped(file, ctx, names, loader); }
    }
  }
}
