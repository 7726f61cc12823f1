/** What the second pass emits for a file, read off its declarations. */
module Emission {
  import opened Wrappers
  import opened LokTypes
  import opened LokSyntax
  import opened Scoping
  import opened Resolver
  import opened Typing
  import opened Passes
  import opened Rules

  /** A declaration that has code: the path of its symbol, the code, and what is known where it stands. */
  datatype Unit = Unit(kind: Kind, id: Path, code: Node, ctx: Context)

  // ----- The units of a file ----------------------------------------------------------------

  /** Runs, operators, destructors and constructors with a block, in the order of the file. */
  function Units(nodes: seq<Node>, ctx: Context, loader: Loader): seq<Unit>
    decreases nodes, 0
  {
    if nodes == [] then []
    else UnitsOf(nodes[0], ctx, loader) + Units(nodes[1..], Behind(nodes[0], ctx, loader), loader)
  }

  /** The code is the first child, or the block of a constructor behind its parameters. */
  function UnitsOf(n: Node, ctx: Context, loader: Loader): seq<Unit>
    decreases n, 1
  {
    if n.kind == NAMESPACE && IsSpace(n) then Units(n.children[1].children, ctx.(ns := SpaceName(n)), loader)
    else if n.kind == TYPEDECL && IsClass(n)
         then Units(n.children[0].children[0].children, ctx.(ns := ctx.ns + [n.text]), loader)
    else if n.kind == RUN && n.children != [] then [Unit(RUN, ["run", "0"], n.children[0], ctx)]
    else if n.kind == OPOVERLOAD && n.children != [] then [Unit(OPOVERLOAD, ctx.ns + [n.text], n.children[0], ctx)]
    else if n.kind == DTORDEF && n.children != [] then [Unit(DTORDEF, ctx.ns + ["del"], n.children[0], ctx)]
    else if n.kind == CTORDEF && BlockAt(n, 1) then [Unit(CTORDEF, ctx.ns + ["new"], n.children[1], ctx)]
    else if n.kind == CTORDEF && BlockAt(n, 2) then [Unit(CTORDEF, ctx.ns + ["new"], n.children[2], ctx)]
    else []
  }

  predicate BlockAt(n: Node, i: nat) {
    i < |n.children| && n.children[i].kind == BLOCK
  }

  /** A namespace statement has a path and declarations. */
  predicate IsSpace(n: Node) {
    |n.children| > 1 && n.children[0].children != []
  }

  function SpaceName(n: Node): Path
    requires IsSpace(n)
  {
    Chain(n.children[0].children[0])
  }

  predicate IsClass(n: Node) {
    n.children != [] && n.children[0].children != []
  }

  /** What is known behind a declaration: a load brings in a file's symbols, and a namespace statement ends in no
      namespace. */
  function Behind(n: Node, ctx: Context, loader: Loader): Context
    decreases n, 1
  {
    if n.kind == NAMESPACE && IsSpace(n) then
      BehindAll(n.children[1].children, ctx.(ns := SpaceName(n)), loader).(ns := [])
    else if n.kind == TYPEDECL && IsClass(n) then
      BehindAll(n.children[0].children[0].children, ctx.(ns := ctx.ns + [n.text]), loader).(ns := ctx.ns)
    else if n.kind == LOAD && IsClass(n) && LoadName(n) in loader.canonical then
      var file := loader.canonical[LoadName(n)];
      ctx.(external := SetExternal(ctx.external, file, if file in loader.programs then loader.programs[file]
                                   else map[]))
    else ctx
  }

  function BehindAll(nodes: seq<Node>, ctx: Context, loader: Loader): Context
    decreases nodes, 0
  {
    if nodes == [] then ctx else BehindAll(nodes[1..], Behind(nodes[0], ctx, loader), loader)
  }

  /** The parts of the path of a load statement, run together. */
  function LoadName(n: Node): string
    requires IsClass(n)
  {
    RunTogether(Chain(n.children[0].children[0])) + ".lok"
  }

  function RunTogether(path: Path): string {
    if path == [] then [] else path[0] + RunTogether(path[1..])
  }

  // ----- What each unit emits ------------------------------------------------------------------

  /** A run emits a symbol of its own, with the type of its function; any other unit the registered symbol. */
  ghost predicate SymbolOf(x: Extrapolated, u: Unit) {
    if u.kind == RUN then
      && x.owned && x.symbol == Symbol(x.symbol.sort, u.id, {})
      && exists frame :: FunctionWritten(u.code, x.symbol.sort, frame, u.ctx.ns)
    else !x.owned && u.id in u.ctx.symbols && x.symbol == u.ctx.symbols[u.id]
  }

  /** The value is what the code denotes outside every scope: a statement for a block, else an expression. */
  ghost predicate ValueOf(x: Extrapolated, u: Unit) {
    if u.kind == RUN || u.kind == OPOVERLOAD then
      && (x.value.Some? ==> x.value.value.ExprStmt?)
      && Denotes(u.code, if x.value.Some? then Some(x.value.value.expr) else None, NoScope, u.ctx)
    else BlockDenotes(u, x.value)
  }

  ghost predicate BlockDenotes(u: Unit, s: Option<Stmt>) {
    exists after :: DenotesStmt(u.code, s, NoScope, after, u.ctx)
  }

  ghost predicate Emitted(x: Extrapolated, u: Unit) {
    SymbolOf(x, u) && ValueOf(x, u)
  }

  /** One entry for each unit, in their order. */
  ghost predicate AllEmitted(entries: seq<Extrapolated>, units: seq<Unit>) {
    |entries| == |units| && (units != [] ==> Emitted(entries[0], units[0]) && AllEmitted(entries[1..], units[1..]))
  }

  lemma {:induction false} EmittedAt(entries: seq<Extrapolated>, units: seq<Unit>, i: nat)
    requires AllEmitted(entries, units) && i < |units|
    ensures Emitted(entries[i], units[i])
    decreases i
  {
    if i > 0 { EmittedAt(entries[1..], units[1..], i - 1); }
  }

  lemma {:induction false} EmittedConcat(a: seq<Extrapolated>, b: seq<Extrapolated>, u: seq<Unit>, v: seq<Unit>)
    requires |a| == |u|
    ensures AllEmitted(a + b, u + v) <==> AllEmitted(a, u) && AllEmitted(b, v)
    decreases a
  {
    if a == [] {
      assert a + b == b && u + v == v;
    } else {
      assert (a + b)[0] == a[0] && (u + v)[0] == u[0] && (a + b)[1..] == a[1..] + b && (u + v)[1..] == u[1..] + v;
      EmittedConcat(a[1..], b, u[1..], v);
    }
  }

  /** What a declaration needs besides its code: types that can be read, and names that are there. */
  ghost predicate Admissible(nodes: seq<Node>, ctx: Context, loader: Loader)
    decreases nodes, 0
  {
    nodes != [] ==>
      && AdmissibleOne(nodes[0], ctx, loader)
      && Admissible(nodes[1..], Behind(nodes[0], ctx, loader), loader)
  }

  ghost predicate AdmissibleOne(n: Node, ctx: Context, loader: Loader)
    decreases n, 1
  {
    match n.kind
    case NAMESPACE => IsSpace(n) && Admissible(n.children[1].children, ctx.(ns := SpaceName(n)), loader)
    case TYPEDECL => IsClass(n) && Admissible(n.children[0].children[0].children, ctx.(ns := ctx.ns + [n.text]), loader)
    case DECL => n.children != [] && (IsTypeNode(n.children[0]) ==> exists t :: Written(n.children[0], t, ctx.ns))
    case LOAD => IsClass(n) && LoadName(n) in loader.canonical
    case RUN => n.children != []
    case OPOVERLOAD => n.children != []
    case DTORDEF => n.children != []
    case CTORDEF => |n.children| > 1 && ctx.ns + ["new"] in ctx.symbols
    case _ => true
  }

  // ----- The second pass emits them ----------------------------------------------------------------

  lemma {:induction false} FileNameIs(n: Node)
    ensures FileName(n) == RunTogether(Chain(n))
    decreases n
  {
    if n.children != [] {
      FileNameIs(n.children[0]);
      assert Chain(n)[1..] == Chain(n.children[0]);
    } else {
      assert Chain(n)[1..] == [] && n.text + [] == n.text;
    }
  }

  lemma {:induction false} BehindTables(n: Node, ctx: Context, loader: Loader)
    ensures SameTables(ctx, Behind(n, ctx, loader))
    decreases n, 1
  {
    if n.kind == NAMESPACE && IsSpace(n) {
      BehindAllTables(n.children[1].children, ctx.(ns := SpaceName(n)), loader);
    } else if n.kind == TYPEDECL && IsClass(n) {
      BehindAllTables(n.children[0].children[0].children, ctx.(ns := ctx.ns + [n.text]), loader);
    }
  }

  lemma {:induction false} BehindAllTables(nodes: seq<Node>, ctx: Context, loader: Loader)
    ensures SameTables(ctx, BehindAll(nodes, ctx, loader))
    decreases nodes, 0
  {
    if nodes != [] {
      BehindTables(nodes[0], ctx, loader);
      BehindAllTables(nodes[1..], Behind(nodes[0], ctx, loader), loader);
    }
  }

  /** A declaration is admissible, and these are its entries and what is known behind it. */
  ghost predicate EmitsOne(n: Node, ctx: Context, loader: Loader, entries: seq<Extrapolated>, after: Context) {
    AdmissibleOne(n, ctx, loader) && after == Behind(n, ctx, loader) && AllEmitted(entries, UnitsOf(n, ctx, loader))
  }

  ghost predicate EmitsAll(nodes: seq<Node>, ctx: Context, loader: Loader, entries: seq<Extrapolated>, after: Context) {
    Admissible(nodes, ctx, loader) && after == BehindAll(nodes, ctx, loader)
        && AllEmitted(entries, Units(nodes, ctx, loader))
  }

  /** Runs and operators: the value is an expression. */
  lemma FunctionValue(n: Node, x: Extrapolated, u: Unit, loader: Loader)
    requires (n.kind == RUN || n.kind == OPOVERLOAD) && n.children != [] && ForcedTakeTheirKey(u.ctx.forced)
    requires u == UnitsOf(n, u.ctx, loader)[0]
    ensures Emitted(x, u) <==> DriveFunction(n, u.ctx) == Success(([x], u.ctx))
  {
    var first, ctx := n.children[0], u.ctx;
    if x.value.Some? && x.value.value.ExprStmt? {
      ExprIff(first, Some(x.value.value.expr), NoScope, ctx);
    } else if x.value.None? {
      ExprIff(first, None, NoScope, ctx);
    }
    if n.kind == RUN { RunType(first, x.symbol.sort, ctx.ns); }
  }

  lemma RunType(n: Node, t: Type, ns: Path)
    ensures (exists frame :: FunctionWritten(n, t, frame, ns)) <==> FunctionType(n, ns) == Success(t)
  {
    if frame :| FunctionWritten(n, t, frame, ns) {
      FunctionWrittenIff(n, t, frame, ns);
    } else if FunctionType(n, ns) == Success(t) {
      ParameterTypes(n.children[1].children, ns);
      FunctionWrittenIff(n, t, ParamSymbols(n.children[1].children, ns).value, ns);
    }
  }

  /** Constructors and destructors: the value is a block. */
  lemma BlockValue(u: Unit, x: Extrapolated)
    requires ForcedTakeTheirKey(u.ctx.forced)
    ensures BlockDenotes(u, x.value) <==>
              var r := ElabStmt(u.code, NoScope, u.ctx); r.Success? && r.value.0 == x.value
  {
    if after :| DenotesStmt(u.code, x.value, NoScope, after, u.ctx) {
      StmtIff(u.code, x.value, NoScope, after, u.ctx);
    } else if ElabStmt(u.code, NoScope, u.ctx).Success? && ElabStmt(u.code, NoScope, u.ctx).value.0 == x.value {
      StmtIff(u.code, x.value, NoScope, ElabStmt(u.code, NoScope, u.ctx).value.1, u.ctx);
    }
  }

  lemma OneUnit(entries: seq<Extrapolated>, u: Unit)
    ensures AllEmitted(entries, [u]) <==> |entries| == 1 && Emitted(entries[0], u)
  {
  }

  lemma FunctionEmits(n: Node, ctx: Context, loader: Loader, entries: seq<Extrapolated>, after: Context)
    requires (n.kind == RUN || n.kind == OPOVERLOAD) && ForcedTakeTheirKey(ctx.forced)
    ensures EmitsOne(n, ctx, loader, entries, after) <==> DriveFunction(n, ctx) == Success((entries, after))
  {
    if n.children != [] {
      var u := UnitsOf(n, ctx, loader)[0];
      OneUnit(entries, u);
      if |entries| == 1 {
        FunctionValue(n, entries[0], u, loader);
        assert entries == [entries[0]];
      }
    }
  }

  /** What a block of a constructor or destructor emits, as the pass computes it. */
  function BlockResult(u: Unit): Result<(seq<Extrapolated>, Context), Error> {
    var s :- Registered(u.ctx, u.id);
    var block :- ElabStmt(u.code, NoScope, u.ctx);
    Success(([Extrapolated(s, block.0, false)], u.ctx))
  }

  lemma BlockEmits(u: Unit, entries: seq<Extrapolated>)
    requires ForcedTakeTheirKey(u.ctx.forced) && u.kind != RUN && u.kind != OPOVERLOAD
    ensures AllEmitted(entries, [u]) <==> BlockResult(u) == Success((entries, u.ctx))
  {
    OneUnit(entries, u);
    if |entries| == 1 {
      var x := entries[0];
      BlockValue(u, x);
      assert entries == [x] && x == Extrapolated(x.symbol, x.value, x.owned);
      BlockIs(u, x);
    } else {
      assert BlockResult(u).Success? ==> |BlockResult(u).value.0| == 1;
    }
  }

  lemma BlockIs(u: Unit, x: Extrapolated)
    ensures BlockResult(u) == Success(([x], u.ctx)) <==>
              && !x.owned && u.id in u.ctx.symbols && x.symbol == u.ctx.symbols[u.id]
              && ElabStmt(u.code, NoScope, u.ctx).Success? && x.value == ElabStmt(u.code, NoScope, u.ctx).value.0
  {
    var r := BlockResult(u);
    assert r.Success? && r.value.0 == [x] ==> r.value.0[0] == x;
  }

  lemma DestructorEmits(n: Node, ctx: Context, loader: Loader, entries: seq<Extrapolated>, after: Context)
    requires n.kind == DTORDEF && ForcedTakeTheirKey(ctx.forced)
    ensures EmitsOne(n, ctx, loader, entries, after) <==> DriveDestructor(n, ctx) == Success((entries, after))
  {
    if n.children != [] {
      var u := Unit(DTORDEF, ctx.ns + ["del"], n.children[0], ctx);
      assert UnitsOf(n, ctx, loader) == [u];
      BlockEmits(u, entries);
      assert DriveDestructor(n, ctx) == BlockResult(u);
    }
  }

  lemma ConstructorEmits(n: Node, ctx: Context, loader: Loader, entries: seq<Extrapolated>, after: Context)
    requires n.kind == CTORDEF && ForcedTakeTheirKey(ctx.forced)
    ensures EmitsOne(n, ctx, loader, entries, after) <==> DriveConstructor(n, ctx) == Success((entries, after))
  {
    if BlockAt(n, 1) || BlockAt(n, 2) {
      var u := Unit(CTORDEF, ctx.ns + ["new"], n.children[if BlockAt(n, 1) then 1 else 2], ctx);
      assert UnitsOf(n, ctx, loader) == [u];
      BlockEmits(u, entries);
      ConstructorBlock(n, u);
    } else {
      assert UnitsOf(n, ctx, loader) == [];
    }
  }

  lemma ConstructorBlock(n: Node, u: Unit)
    requires n.kind == CTORDEF && (BlockAt(n, 1) || BlockAt(n, 2))
    requires u == Unit(CTORDEF, u.ctx.ns + ["new"], n.children[if BlockAt(n, 1) then 1 else 2], u.ctx)
    ensures DriveConstructor(n, u.ctx) == BlockResult(u)
  {
  }

  lemma DeclEmits(n: Node, ctx: Context, loader: Loader, entries: seq<Extrapolated>, after: Context)
    requires n.kind == DECL
    ensures EmitsOne(n, ctx, loader, entries, after) <==> DriveLeaf(n, ctx, loader) == Success((entries, after))
  {
    if n.children != [] && IsTypeNode(n.children[0]) {
      if t :| Written(n.children[0], t, ctx.ns) {
        WrittenIff(n.children[0], t, ctx.ns);
      } else if MakeType(n.children[0], ctx.ns).Success? {
        WrittenIff(n.children[0], MakeType(n.children[0], ctx.ns).value, ctx.ns);
      }
    }
  }

  lemma LoadEmits(n: Node, ctx: Context, loader: Loader, entries: seq<Extrapolated>, after: Context)
    requires n.kind == LOAD
    ensures EmitsOne(n, ctx, loader, entries, after) <==> DriveLoad(n, ctx, loader) == Success((entries, after))
  {
    if IsClass(n) { FileNameIs(n.children[0].children[0]); }
  }

  lemma LeafEmits(n: Node, ctx: Context, loader: Loader, entries: seq<Extrapolated>, after: Context)
    requires !Encloses(n) && ForcedTakeTheirKey(ctx.forced)
    ensures EmitsOne(n, ctx, loader, entries, after) <==> DriveLeaf(n, ctx, loader) == Success((entries, after))
  {
    if n.kind == RUN || n.kind == OPOVERLOAD {
      FunctionEmits(n, ctx, loader, entries, after);
    } else if n.kind == DTORDEF {
      DestructorEmits(n, ctx, loader, entries, after);
    } else if n.kind == CTORDEF {
      ConstructorEmits(n, ctx, loader, entries, after);
    } else if n.kind == DECL {
      DeclEmits(n, ctx, loader, entries, after);
    } else if n.kind == LOAD {
      LoadEmits(n, ctx, loader, entries, after);
    } else {
      OtherEmits(n, ctx, loader, entries, after);
    }
  }

  lemma OtherEmits(n: Node, ctx: Context, loader: Loader, entries: seq<Extrapolated>, after: Context)
    requires !Encloses(n) && n.kind !in {RUN, OPOVERLOAD, DTORDEF, CTORDEF, DECL, LOAD}
    ensures EmitsOne(n, ctx, loader, entries, after) <==> DriveLeaf(n, ctx, loader) == Success((entries, after))
  {
  }

  /** What declarations emit in a namespace, when another one is current behind them. */
  ghost predicate EmitsWithin(nodes: seq<Node>, ns: Path, behind: Path, ctx: Context, loader: Loader,
                              entries: seq<Extrapolated>, after: Context) {
    var inner := ctx.(ns := ns);
    && Admissible(nodes, inner, loader) && after == BehindAll(nodes, inner, loader).(ns := behind)
    && AllEmitted(entries, Units(nodes, inner, loader))
  }

  lemma SpaceIs(n: Node, ctx: Context, loader: Loader, entries: seq<Extrapolated>, after: Context)
    requires n.kind == NAMESPACE && IsSpace(n)
    ensures EmitsOne(n, ctx, loader, entries, after) <==>
              EmitsWithin(n.children[1].children, SpaceName(n), [], ctx, loader, entries, after)
    ensures DriveEnclosed(n, ctx, loader) == DriveWithin(n.children[1].children, SpaceName(n), [], ctx, loader)
  {
    assert [] + Chain(n.children[0].children[0]) == SpaceName(n);
  }

  lemma ClassIs(n: Node, ctx: Context, loader: Loader, entries: seq<Extrapolated>, after: Context)
    requires n.kind == TYPEDECL && IsClass(n)
    ensures var members := n.children[0].children[0].children;
            && (EmitsOne(n, ctx, loader, entries, after) <==>
                  EmitsWithin(members, ctx.ns + [n.text], ctx.ns, ctx, loader, entries, after))
            && DriveEnclosed(n, ctx, loader) == DriveWithin(members, ctx.ns + [n.text], ctx.ns, ctx, loader)
  {
  }

  lemma {:induction false} EnclosedEmits(
      n: Node, ctx: Context, loader: Loader, entries: seq<Extrapolated>, after: Context)
    requires Encloses(n) && ForcedTakeTheirKey(ctx.forced)
    ensures EmitsOne(n, ctx, loader, entries, after) <==> DriveEnclosed(n, ctx, loader) == Success((entries, after))
    decreases n, 0
  {
    if n.kind == NAMESPACE && IsSpace(n) {
      SpaceIs(n, ctx, loader, entries, after);
      WithinEmits(n.children[1].children, SpaceName(n), [], ctx, loader, entries, after);
    } else if n.kind == TYPEDECL && IsClass(n) {
      ClassIs(n, ctx, loader, entries, after);
      WithinEmits(n.children[0].children[0].children, ctx.ns + [n.text], ctx.ns, ctx, loader, entries, after);
    } else {
      NothingEnclosed(n, ctx, loader);
    }
  }

  lemma NothingEnclosed(n: Node, ctx: Context, loader: Loader)
    requires Encloses(n) && !(n.kind == NAMESPACE && IsSpace(n)) && !(n.kind == TYPEDECL && IsClass(n))
    ensures !AdmissibleOne(n, ctx, loader) && DriveEnclosed(n, ctx, loader).Failure?
  {
  }

  lemma {:induction false} WithinEmits(nodes: seq<Node>, ns: Path, behind: Path, ctx: Context, loader: Loader,
                                       entries: seq<Extrapolated>, after: Context)
    requires ForcedTakeTheirKey(ctx.forced)
    ensures EmitsWithin(nodes, ns, behind, ctx, loader, entries, after) <==>
              DriveWithin(nodes, ns, behind, ctx, loader) == Success((entries, after))
    decreases nodes, 3
  {
    var inner := ctx.(ns := ns);
    var r := Drive(nodes, inner, loader);
    DriveEmits(nodes, inner, loader, entries, BehindAll(nodes, inner, loader));
    if r.Success? { DriveEmits(nodes, inner, loader, r.value.0, r.value.1); }
  }

  lemma {:induction false} OneEmits(n: Node, ctx: Context, loader: Loader, entries: seq<Extrapolated>, after: Context)
    requires ForcedTakeTheirKey(ctx.forced)
    ensures EmitsOne(n, ctx, loader, entries, after) <==> DriveOne(n, ctx, loader) == Success((entries, after))
    decreases n, 1
  {
    if Encloses(n) {
      EnclosedEmits(n, ctx, loader, entries, after);
    } else {
      LeafEmits(n, ctx, loader, entries, after);
    }
  }

  /** The entries of a list of declarations are those of the first one and those of the others. */
  lemma EmitsParts(nodes: seq<Node>, ctx: Context, loader: Loader, a: seq<Extrapolated>, b: seq<Extrapolated>,
                   after: Context)
    requires nodes != [] && |a| == |UnitsOf(nodes[0], ctx, loader)|
    ensures var mid := Behind(nodes[0], ctx, loader);
            EmitsAll(nodes, ctx, loader, a + b, after) <==>
              EmitsOne(nodes[0], ctx, loader, a, mid) && EmitsAll(nodes[1..], mid, loader, b, after)
  {
    EmittedConcat(a, b, UnitsOf(nodes[0], ctx, loader), Units(nodes[1..], Behind(nodes[0], ctx, loader), loader));
  }

  lemma DriveParts(nodes: seq<Node>, ctx: Context, mid: Context, loader: Loader, a: seq<Extrapolated>)
    requires nodes != [] && DriveOne(nodes[0], ctx, loader) == Success((a, mid))
    ensures var tail := Drive(nodes[1..], mid, loader);
            Drive(nodes, ctx, loader) == if tail.Failure? then tail else Success((a + tail.value.0, tail.value.1))
  {
  }

  lemma EmitsSplit(nodes: seq<Node>, ctx: Context, loader: Loader, entries: seq<Extrapolated>, after: Context)
    returns (a: seq<Extrapolated>, b: seq<Extrapolated>, mid: Context)
    requires nodes != [] && EmitsAll(nodes, ctx, loader, entries, after)
    ensures entries == a + b && SameTables(ctx, mid)
    ensures EmitsOne(nodes[0], ctx, loader, a, mid) && EmitsAll(nodes[1..], mid, loader, b, after)
  {
    var k := |UnitsOf(nodes[0], ctx, loader)|;
    a, b, mid := entries[..k], entries[k..], Behind(nodes[0], ctx, loader);
    assert entries == a + b;
    EmitsParts(nodes, ctx, loader, a, b, after);
    BehindTables(nodes[0], ctx, loader);
  }

  lemma {:induction false} DriveComplete(
      nodes: seq<Node>, ctx: Context, loader: Loader, a: seq<Extrapolated>, mid: Context, b: seq<Extrapolated>,
          after: Context)
    requires ForcedTakeTheirKey(ctx.forced) && nodes != [] && SameTables(ctx, mid)
    requires EmitsOne(nodes[0], ctx, loader, a, mid) && EmitsAll(nodes[1..], mid, loader, b, after)
    ensures Drive(nodes, ctx, loader) == Success((a + b, after))
    decreases nodes, 1
  {
    OneEmits(nodes[0], ctx, loader, a, mid);
    DriveEmits(nodes[1..], mid, loader, b, after);
    DriveParts(nodes, ctx, mid, loader, a);
  }

  lemma {:induction false} DriveSound(
      nodes: seq<Node>, ctx: Context, loader: Loader, entries: seq<Extrapolated>, after: Context)
    requires ForcedTakeTheirKey(ctx.forced) && nodes != [] && Drive(nodes, ctx, loader) == Success((entries, after))
    ensures EmitsAll(nodes, ctx, loader, entries, after)
    decreases nodes, 1
  {
    var head := DriveOne(nodes[0], ctx, loader).value;
    var tail := Drive(nodes[1..], head.1, loader).value;
    OneEmits(nodes[0], ctx, loader, head.0, head.1);
    DriveEmits(nodes[1..], head.1, loader, tail.0, tail.1);
    EmitsParts(nodes, ctx, loader, head.0, tail.0, after);
  }

  lemma SomeExpr(n: Node, e: Option<Expr>, env: Env, ctx: Context)
    requires Denotes(n, e, env, ctx) && n.kind in {FUNCDEF, BLOCK}
    ensures e.Some?
  {
  }

  lemma SomeStmt(n: Node, s: Option<Stmt>, env: Env, after: Env, ctx: Context)
    requires DenotesStmt(n, s, env, after, ctx) && n.kind in {FUNCDEF, BLOCK}
    ensures s.Some?
  {
  }

  /** A unit whose code is a function or a block emits it. */
  lemma EmitsCode(x: Extrapolated, u: Unit)
    requires ValueOf(x, u) && u.code.kind in {FUNCDEF, BLOCK}
    ensures x.value.Some?
  {
    if u.kind == RUN || u.kind == OPOVERLOAD {
      SomeExpr(u.code, if x.value.Some? then Some(x.value.value.expr) else None, NoScope, u.ctx);
    } else {
      var after :| DenotesStmt(u.code, x.value, NoScope, after, u.ctx);
      SomeStmt(u.code, x.value, NoScope, after, u.ctx);
    }
  }

  /** Elaborating declarations emits exactly their units, and fails exactly when they are not admissible or some code
      denotes nothing. */
  lemma {:induction false} DriveEmits(
      nodes: seq<Node>, ctx: Context, loader: Loader, entries: seq<Extrapolated>, after: Context)
    requires ForcedTakeTheirKey(ctx.forced)
    ensures EmitsAll(nodes, ctx, loader, entries, after) <==> Drive(nodes, ctx, loader) == Success((entries, after))
    decreases nodes, 2
  {
    if nodes == [] {
    } else if EmitsAll(nodes, ctx, loader, entries, after) {
      var a, b, mid := EmitsSplit(nodes, ctx, loader, entries, after);
      DriveComplete(nodes, ctx, loader, a, mid, b, after);
    } else if Drive(nodes, ctx, loader) == Success((entries, after)) {
      DriveSound(nodes, ctx, loader, entries, after);
    }
  }
}
