/** What the compiler makes of a tree, by rules that read it off the tree. They name neither the elaborator nor the
    functions that make types and identifiers; both are shown to follow them exactly. */
module Rules {
  import opened Wrappers
  import opened LokTypes
  import opened LokSyntax
  import opened Scoping
  import opened Resolver
  import opened Typing

  // ----- Paths and types ------------------------------------------------------------------

  /** The parts of a path, one for each node along the first children. */
  predicate Spells(n: Node, path: Path) {
    && path != [] && path[0] == n.text
    && if n.children == [] then |path| == 1 else Spells(n.children[0], path[1..])
  }

  lemma {:induction false} SpellsIff(n: Node, path: Path)
    ensures Spells(n, path) <==> Chain(n) == path
    decreases n
  {
    if n.children != [] && path != [] {
      SpellsIff(n.children[0], path[1..]);
      assert path == [path[0]] + path[1..];
    }
  }

  /** A type's path: as it is spelled if it begins with `bit`, else behind the current namespace. */
  predicate Named(n: Node, id: Path, ns: Path) {
    n.children != [] &&
    var first := n.children[0];
    if first.text == "bit" then Spells(first, id) else |ns| <= |id| && id[..|ns|] == ns && Spells(first, id[|ns|..])
  }

  lemma NamedIff(n: Node, id: Path, ns: Path)
    ensures Named(n, id, ns) <==> MakeIdentifier(n, false, ns) == Success(id)
  {
    if n.children != [] {
      var first := n.children[0];
      SpellsIff(first, id);
      if |ns| <= |id| { SpellsIff(first, id[|ns|..]); }
      assert [] + Chain(first) == Chain(first);
      assert |ns| <= |id| && id[..|ns|] == ns ==> id == ns + id[|ns|..];
      assert (ns + Chain(first))[..|ns|] == ns && (ns + Chain(first))[|ns|..] == Chain(first);
    }
  }

  /** Each qualifier node tells a pointer, an upgrade or an array of a size, around those inside. */
  predicate Qualified(n: Node, q: Option<Qualifier>) {
    if n.kind == NONE then q.None?
    else
      && q.Some? && n.children != []
      && q.value.isPointer == (n.kind == TYPEQUALPTR)
      && q.value.forceUpgrade == (n.kind == TYPEQUALUPG)
      && q.value.arraySize == (if n.kind == TYPEQUALARR then n.number else 0)
      && Qualified(n.children[0], q.value.nested)
  }

  lemma {:induction false} QualifiedIff(n: Node, q: Qualifier)
    requires n.kind != NONE
    ensures Qualified(n, Some(q)) <==> MakeQualifier(n) == Success(q)
    decreases n
  {
    if n.children != [] && n.children[0].kind != NONE && q.nested.Some? {
      QualifiedIff(n.children[0], q.nested.value);
    }
  }

  predicate Written(n: Node, t: Type, ns: Path)
    decreases n
  {
    match n.kind
    case TYPESINGLE =>
      t.Single? && |n.children| > 1 && Named(n.children[0], t.id, ns) && Qualified(n.children[1], t.qualifier)
    case TYPEMULTI => t.Tuple? && AllWritten(n.children, t.types, ns)
    case TYPEFN =>
      && t.Function? && n.children != [] && AllWritten(n.children[0].children, t.input, ns)
      && if |n.children| > 1 then Written(n.children[1], t.output, ns) else t.output == Unknown
    case _ => false
  }

  predicate AllWritten(nodes: seq<Node>, types: seq<Type>, ns: Path)
    decreases nodes
  {
    |nodes| == |types| && (nodes != [] ==> Written(nodes[0], types[0], ns) && AllWritten(nodes[1..], types[1..], ns))
  }

  /** The type of a node, in a namespace, is the one that is written there. */
  lemma {:induction false} WrittenIff(n: Node, t: Type, ns: Path)
    ensures Written(n, t, ns) <==> MakeType(n, ns) == Success(t)
    decreases n
  {
    match n.kind
    case TYPESINGLE => SingleIff(n, t, ns);
    case TYPEMULTI => if t.Tuple? { AllWrittenIff(n.children, t.types, ns); }
    case TYPEFN =>
      if n.children != [] && t.Function? {
        AllWrittenIff(n.children[0].children, t.input, ns);
        if |n.children| > 1 { WrittenIff(n.children[1], t.output, ns); }
      }
    case _ =>
  }

  lemma SingleIff(n: Node, t: Type, ns: Path)
    requires n.kind == TYPESINGLE
    ensures Written(n, t, ns) <==> MakeType(n, ns) == Success(t)
  {
    if t.Single? && |n.children| > 1 {
      NamedIff(n.children[0], t.id, ns);
      if n.children[1].kind != NONE && t.qualifier.Some? { QualifiedIff(n.children[1], t.qualifier.value); }
    }
  }

  lemma {:induction false} AllWrittenIff(nodes: seq<Node>, types: seq<Type>, ns: Path)
    ensures AllWritten(nodes, types, ns) <==> MakeTypes(nodes, ns) == Success(types)
    decreases nodes
  {
    if nodes != [] && types != [] {
      WrittenIff(nodes[0], types[0], ns);
      AllWrittenIff(nodes[1..], types[1..], ns);
      assert types == [types[0]] + types[1..];
    }
  }

  /** A type that is written as `bit` with some qualifiers. */
  predicate BitsOf(n: Node, q: Node) {
    && n.kind == TYPESINGLE && |n.children| > 1 && n.children[1] == q
    && n.children[0].children != [] && n.children[0].children[0].text == "bit"
       && n.children[0].children[0].children == []
  }

  predicate Array(q: Node, size: int) {
    q.kind == TYPEQUALARR && q.number == size && q.children != []
  }

  /** The types of literals as they are written: bit, bit[size], and for a text an array of its length, of upgrades to
      arrays of eight. */
  lemma LiteralsWritten(n: Node, q: Node, size: nat, ns: Path)
    requires BitsOf(n, q)
    ensures q.kind == NONE ==> Written(n, BIT, ns)
    ensures Array(q, size) && q.children[0].kind == NONE ==> Written(n, BitArray(size), ns)
    ensures Array(q, size) && q.children[0].kind == TYPEQUALUPG && q.children[0].children != []
              && Array(q.children[0].children[0], 8) && q.children[0].children[0].children[0].kind == NONE
            ==> Written(n, TextType(size), ns)
  {
    assert Spells(n.children[0].children[0], ["bit"]);
    assert Named(n.children[0], ["bit"], ns);
    if Array(q, size) && q.children[0].kind == NONE { assert Qualified(q, BitArray(size).qualifier); }
    if Array(q, size) && q.children[0].kind == TYPEQUALUPG && q.children[0].children != []
      && Array(q.children[0].children[0], 8) && q.children[0].children[0].children[0].kind == NONE
    {
      var eight := Some(Qualifier(false, false, 8, None));
      assert Qualified(q.children[0].children[0], eight);
      assert Qualified(q.children[0], Some(Qualifier(false, true, 0, eight)));
      assert Qualified(q, TextType(size).qualifier);
    }
  }

  predicate WrittenBy(kind: Kind, m: Node, t: Type) {
    m.kind == kind && Written(m, t, [])
  }

  /** The kinds of nodes that are types. */
  lemma TypesAreWritten(n: Node)
    ensures IsTypeNode(n) <==> exists m, t :: WrittenBy(n.kind, m, t)
  {
    if IsTypeNode(n) {
      var none := Node(NONE, "bit", 0, 0.0, false, []);
      var path := none.(children := [none]);
      var m := none.(kind := n.kind, children := if n.kind == TYPESINGLE then [path, none]
                                 else if n.kind == TYPEFN then [none] else []);
      var t := if n.kind == TYPESINGLE then BIT else if n.kind == TYPEMULTI then Tuple([]) else Function([], Unknown);
      if n.kind == TYPESINGLE { LiteralsWritten(m, none, 0, []); }
      assert WrittenBy(n.kind, m, t);
    }
  }

  // ----- Functions ------------------------------------------------------------------------

  /** Each parameter has its name and its type. */
  predicate Parameters(nodes: seq<Node>, frame: Frame, ns: Path) {
    && |nodes| == |frame|
    && (nodes != [] ==>
          && nodes[0].children != [] && Written(nodes[0].children[0], frame[0].sort, ns)
          && frame[0] == Symbol(frame[0].sort, [nodes[0].text], {})
          && Parameters(nodes[1..], frame[1..], ns))
  }

  lemma {:induction false} ParametersIff(nodes: seq<Node>, frame: Frame, ns: Path)
    ensures Parameters(nodes, frame, ns) <==> ParamSymbols(nodes, ns) == Success(frame)
    decreases nodes
  {
    if nodes != [] && frame != [] && nodes[0].children != [] {
      WrittenIff(nodes[0].children[0], frame[0].sort, ns);
      ParametersIff(nodes[1..], frame[1..], ns);
      assert frame == [frame[0]] + frame[1..];
    }
  }

  function SortsOf(frame: Frame): (sorts: seq<Type>)
    ensures |sorts| == |frame|
  {
    if frame == [] then [] else [frame[0].sort] + SortsOf(frame[1..])
  }

  lemma {:induction false} ParameterTypes(nodes: seq<Node>, ns: Path)
    ensures ParamTypes(nodes, ns).Success? <==> ParamSymbols(nodes, ns).Success?
    ensures ParamSymbols(nodes, ns).Success?
            ==> ParamTypes(nodes, ns) == Success(SortsOf(ParamSymbols(nodes, ns).value))
    decreases nodes
  {
    if nodes != [] {
      ParameterTypes(nodes[1..], ns);
      var r := ParamSymbols(nodes, ns);
      assert r.Success? ==> r.value[1..] == ParamSymbols(nodes[1..], ns).value;
    }
  }

  /** A function's type: those of its parameters, and its result's if it has one. */
  predicate FunctionWritten(n: Node, t: Type, frame: Frame, ns: Path) {
    && |n.children| > 1 && t.Function? && Parameters(n.children[1].children, frame, ns) && t.input == SortsOf(frame)
    && if |n.children| > 2 then Written(n.children[2], t.output, ns) else t.output == Unknown
  }

  lemma FunctionWrittenIff(n: Node, t: Type, frame: Frame, ns: Path)
    ensures FunctionWritten(n, t, frame, ns) <==>
              FunctionType(n, ns) == Success(t) && ParamSymbols(n.children[1].children, ns) == Success(frame)
  {
    if |n.children| > 1 {
      ParametersIff(n.children[1].children, frame, ns);
      ParameterTypes(n.children[1].children, ns);
      if |n.children| > 2 && t.Function? { WrittenIff(n.children[2], t.output, ns); }
    }
  }

  // ----- Upgrades and calls -----------------------------------------------------------------

  /** The expression, or the call of the constructor that the table chooses for it. */
  ghost predicate Upgraded(e: Expr, x: Expr, target: Type, forced: Forced) {
    || ((forall i :: !Chosen(forced, e.sort, target, i)) && x == e)
    || exists i | Chosen(forced, e.sort, target, i) :: forced[i].1.sort.Function? && x == UpgradeBy(forced[i], e)
  }

  lemma UpgradedIff(e: Expr, x: Expr, target: Type, ctx: Context)
    requires ForcedTakeTheirKey(ctx.forced)
    ensures Upgraded(e, x, target, ctx.forced) <==> ForceUpgrade(e, target, ctx) == Success(x)
  {
    UpgradeIsChosen(e, target, ctx);
  }

  /** A call keeps one argument for each parameter, of exactly its type. */
  predicate Kept(args: seq<Expr>, params: seq<Type>, kept: seq<Expr>) {
    && |params| <= |args| && kept == args[..|params|]
    && TypesOf(kept) == params && forall t <- params :: Known(t)
  }

  lemma {:induction false} KeptSucceeds(args: seq<Expr>, params: seq<Type>, kept: seq<Expr>)
    requires Kept(args, params, kept)
    ensures CoerceArgs(args, params) == Success(kept)
    decreases params
  {
    if params == [] {
      assert kept == [];
    } else {
      EqualsMeaning(args[0].sort, params[0]);
      assert kept[0] == args[0] && TypesOf(kept)[0] == params[0] && TypesOf(kept[1..]) == params[1..];
      KeptSucceeds(args[1..], params[1..], kept[1..]);
      assert kept == [kept[0]] + kept[1..];
    }
  }

  lemma {:induction false} KeptKnown(args: seq<Expr>, params: seq<Type>)
    requires CoerceArgs(args, params).Success?
    ensures forall t <- params :: Known(t)
    decreases params
  {
    if params != [] {
      EqualsMeaning(args[0].sort, params[0]);
      KeptKnown(args[1..], params[1..]);
    }
  }

  lemma KeptIff(args: seq<Expr>, params: seq<Type>, kept: seq<Expr>)
    ensures Kept(args, params, kept) <==> CoerceArgs(args, params) == Success(kept)
  {
    if Kept(args, params, kept) {
      KeptSucceeds(args, params, kept);
    } else if CoerceArgs(args, params) == Success(kept) {
      CoerceArgsExact(args, params);
      KeptKnown(args, params);
    }
  }

  /** An overload of an operator can be compared with two operands. */
  predicate Comparable(entry: (string, Symbol), op: string, l: Type, r: Type) {
    entry.0 == op ==>
      var t := entry.1.sort;
      t.Function? && |t.input| >= 2 && Equals(t.input[0], l).Some? && Equals(t.input[1], r).Some?
  }

  /** The first overload whose first two parameters are of the operands' known types; those before it can be compared
      and differ. */
  predicate Selected(overloads: Overloads, op: string, l: Type, r: Type, i: nat) {
    && FirstExact(overloads, op, l, r, i) && Known(l) && Known(r)
    && forall k :: 0 <= k < i ==> Comparable(overloads[k], op, l, r)
  }

  function CallOf(s: Symbol, args: seq<Expr>): Expr
    requires s.sort.Function?
  {
    CallExpr(s.sort.output, SymbolExpr(s.sort, s), args)
  }

  /** An operator on two operands is a call of the selected overload. */
  ghost predicate Overloaded(l: Expr, r: Expr, op: string, overloads: Overloads, call: Expr) {
    exists i: nat | Selected(overloads, op, l.sort, r.sort, i) :: call == CallOf(overloads[i].1, [l, r])
  }

  lemma {:induction false} OverloadedSucceeds(l: Expr, r: Expr, op: string, overloads: Overloads, i: nat)
    requires FirstExact(overloads, op, l.sort, r.sort, i) && Known(l.sort) && Known(r.sort)
    requires forall k :: 0 <= k < i ==> Comparable(overloads[k], op, l.sort, r.sort)
    ensures var s := overloads[i].1;
            GetOverload(l, r, op, overloads) == Success(CallExpr(s.sort.output, SymbolExpr(s.sort, s), [l, r]))
    decreases overloads
  {
    var t := overloads[0].1.sort;
    if overloads[0].0 == op {
      assert Comparable(overloads[0], op, l.sort, r.sort) || i == 0;
      EqualsMeaning(t.input[0], l.sort);
      EqualsMeaning(t.input[1], r.sort);
      assert t.input[..2] == [t.input[0], t.input[1]];
    }
    if i > 0 {
      assert !Exact(overloads[0], op, l.sort, r.sort);
      var rest := overloads[1..];
      assert forall k :: 0 <= k < i ==> rest[k] == overloads[k + 1];
      assert FirstExact(rest, op, l.sort, r.sort, i - 1);
      OverloadedSucceeds(l, r, op, rest, i - 1);
    }
  }

  lemma {:induction false} PassedOverloads(l: Expr, r: Expr, op: string, overloads: Overloads, i: nat)
    requires GetOverload(l, r, op, overloads).Success? && FirstExact(overloads, op, l.sort, r.sort, i)
    ensures Known(l.sort) && Known(r.sort) && forall k :: 0 <= k < i ==> Comparable(overloads[k], op, l.sort, r.sort)
    decreases overloads
  {
    var t := overloads[0].1.sort;
    if overloads[0].0 == op {
      EqualsMeaning(t.input[0], l.sort);
      EqualsMeaning(t.input[1], r.sort);
      assert t.input[..2] == [t.input[0], t.input[1]];
    }
    if i > 0 {
      assert !Exact(overloads[0], op, l.sort, r.sort);
      var rest := overloads[1..];
      assert forall k :: 0 <= k < i ==> rest[k] == overloads[k + 1];
      PassedOverloads(l, r, op, rest, i - 1);
      forall k | 0 <= k < i ensures Comparable(overloads[k], op, l.sort, r.sort) {
        if k > 0 { assert Comparable(rest[k - 1], op, l.sort, r.sort); }
      }
    }
  }

  lemma OverloadedIff(l: Expr, r: Expr, op: string, overloads: Overloads, call: Expr)
    ensures Overloaded(l, r, op, overloads, call) <==> GetOverload(l, r, op, overloads) == Success(call)
  {
    if i: nat :| Selected(overloads, op, l.sort, r.sort, i) && call == CallOf(overloads[i].1, [l, r]) {
      OverloadedSucceeds(l, r, op, overloads, i);
    } else if GetOverload(l, r, op, overloads) == Success(call) {
      var i := GetOverloadExact(l, r, op, overloads);
      PassedOverloads(l, r, op, overloads, i);
      assert Selected(overloads, op, l.sort, r.sort, i);
    }
  }

  // ----- Expressions and statements ------------------------------------------------------------

  /** An expression from a tree, in an environment. */
  ghost predicate Denotes(n: Node, e: Option<Expr>, env: Env, ctx: Context)
    decreases n, 2
  {
    match n.kind
    case VALSTR => e == Some(StringValue(TextType(|n.text|), n.text))
    case VALINT => e == Some(IntValue(BitArray(64), n.number))
    case VALFLOAT => e == Some(FloatValue(BitArray(64), n.decimal))
    case VALBIT => e == Some(BitValue(BIT, n.flag))
    case NONE => e == None
    case FQUALPATH => e.Some? && Refers(n, e.value, env, ctx)
    case ARGLIST => e.Some? && DenotesArgs(n, e.value, env, ctx)
    case FUNCDEF => e.Some? && DenotesFunction(n, e.value, env, ctx)
    case EXPRBASIC => DenotesOperator(n, e, env, ctx)
    case _ => false
  }

  /** A name denotes the symbol that a lookup of its path finds. */
  ghost predicate Refers(n: Node, e: Expr, env: Env, ctx: Context) {
    && e.SymbolExpr? && e.sort == e.symbol.sort && n.children != []
    && exists path | Spells(n.children[0], path) :: Lookup(path, env, ctx) == Success(e.symbol)
  }

  /** Each argument denotes the child at its place. */
  ghost predicate DenotesArgs(n: Node, e: Expr, env: Env, ctx: Context)
    decreases n, 1
  {
    && e.ArgsExpr? && |e.exprs| == |n.children| && e.sort == Tuple(TypesOf(e.exprs))
    && forall i :: 0 <= i < |e.exprs| ==> Denotes(n.children[i], Some(e.exprs[i]), env, ctx)
  }

  /** A function has the type that is written, and the body that child 0 denotes where its parameters are visible. */
  ghost predicate DenotesFunction(n: Node, e: Expr, env: Env, ctx: Context)
    decreases n, 1
  {
    && e.FuncValue? && n.children != []
    && exists frame, after | FunctionWritten(n, e.sort, frame, ctx.ns) ::
         DenotesStmt(n.children[0], e.body, Scope(Visible(env), BindAll(map[], frame)), after, ctx)
  }

  /** An operator on one operand denotes nothing; one on two denotes a call. */
  ghost predicate DenotesOperator(n: Node, e: Option<Expr>, env: Env, ctx: Context)
    decreases n, 1
  {
    n.children != [] &&
    exists left, l | Denotes(n.children[0], Some(left), env, ctx) && Upgraded(left, l, Unknown, ctx.forced) ::
      if |n.children| == 1 then e == None
      else
        exists right | Denotes(n.children[1], Some(right), env, ctx) ::
          e.Some? && Applied(l, right, n.text, e.value, ctx)
  }

  /** A function applied to its arguments keeps them in order; any other left operand takes an overload. */
  ghost predicate Applied(l: Expr, right: Expr, op: string, e: Expr, ctx: Context) {
    if l.sort.Function? && op == "()" then
      right.ArgsExpr? && exists kept | Kept(right.exprs, l.sort.input, kept) :: e == CallExpr(l.sort.output, l, kept)
    else
      && (l.sort.Tuple? || l.sort.Single?)
      && exists r | Upgraded(right, r, Unknown, ctx.forced) :: Overloaded(l, r, op, ctx.overloads, e)
  }

  /** A statement from a tree, and the environment behind it. */
  ghost predicate DenotesStmt(n: Node, s: Option<Stmt>, env: Env, after: Env, ctx: Context)
    decreases n, 4
  {
    match n.kind
    case DECL => s.Some? && DenotesDecl(n, s.value, env, after, ctx)
    case BLOCK => s.Some? && DenotesBlock(n, s.value, env, after, ctx)
    case STMTWHILE => s.Some? && DenotesLoop(n, s.value, env, after, ctx)
    case STMTDOWHILE => s.Some? && DenotesLoop(n, s.value, env, after, ctx)
    case STMTFOR => s.Some? && DenotesLoop(n, s.value, env, after, ctx)
    case STMTDOFOR => s.Some? && DenotesLoop(n, s.value, env, after, ctx)
    case STMTIF => s.Some? && DenotesIf(n, s.value, env, after, ctx)
    case STMTRTN => s.Some? && DenotesReturn(n, s.value, env, after, ctx)
    case NONE => s == None && after == env
    case ARGLIST => false
    case _ =>
      && (s.Some? ==> s.value.ExprStmt?) && after == env
      && Denotes(n, if s.Some? then Some(s.value.expr) else None, env, ctx)
  }

  ghost predicate DenotesLoop(n: Node, s: Stmt, env: Env, after: Env, ctx: Context)
    decreases n, 3, 1
  {
    if n.kind == STMTDOFOR then DenotesDoFor(n, s, env, after, ctx)
    else if n.kind == STMTFOR then DenotesFor(n, s, env, after, ctx)
    else DenotesWhile(n, s, env, after, ctx)
  }

  ghost predicate DenotesReturn(n: Node, s: Stmt, env: Env, after: Env, ctx: Context)
    decreases n, 3
  {
    s.ReturnStmt? && n.children != [] && after == env && Denotes(n.children[0], s.value, env, ctx)
  }

  /** A declared type is the one that is written, and an initialiser, upgraded to it, has it; without a written type the
      initialiser's is taken. */
  ghost predicate DenotesSort(n: Node, sort: Type, env: Env, ctx: Context)
    decreases n, 2
  {
    n.children != [] &&
    var at := if IsTypeNode(n.children[0]) then 1 else 0;
    exists declared | (if at == 1 then Written(n.children[0], declared, ctx.ns) else declared == Unknown) ::
      if |n.children| > at && n.children[at].kind != ATTRS then
        exists value, x | Denotes(n.children[at], Some(value), env, ctx) && Upgraded(value, x, declared, ctx.forced) ::
          sort == x.sort && (declared.Unknown? || (sort == declared && Known(declared)))
      else sort == declared
  }

  /** A declaration binds its name in the innermost scope. */
  ghost predicate DenotesDecl(n: Node, s: Stmt, env: Env, after: Env, ctx: Context)
    decreases n, 3
  {
    && s.DeclStmt? && s.id == [n.text] && DenotesSort(n, s.sort, env, ctx)
    && env.Scope? && after == Scope(env.outer, Bind(env.here, Symbol(s.sort, s.id, {})))
  }

  /** Statements in their order, each behind the one before. */
  ghost predicate DenotesAll(nodes: seq<Node>, ss: seq<Option<Stmt>>, env: Env, after: Env, ctx: Context)
    decreases nodes
  {
    && |nodes| == |ss|
    && if nodes == [] then after == env
       else exists mid | DenotesStmt(nodes[0], ss[0], env, mid, ctx) :: DenotesAll(nodes[1..], ss[1..], mid, after, ctx)
  }

  /** A block is a scope of its own. */
  ghost predicate DenotesBlock(n: Node, s: Stmt, env: Env, after: Env, ctx: Context)
    decreases n, 3
  {
    s.BlockStmt? && after == env && exists inner :: DenotesAll(n.children, s.stmts, Enter(env), inner, ctx)
  }

  /** Child 0 is the condition, and it is the body as well. */
  ghost predicate DenotesWhile(n: Node, s: Stmt, env: Env, after: Env, ctx: Context)
    decreases n, 3, 0
  {
    && s.WhileStmt? && n.children != [] && s.isDo == (n.kind == STMTDOWHILE)
    && Denotes(n.children[0], s.cond, env, ctx) && DenotesStmt(n.children[0], s.loop, env, after, ctx)
  }

  /** Child 2, if there is one. */
  ghost predicate DenotesThird(n: Node, s: Option<Stmt>, env: Env, after: Env, ctx: Context)
    decreases n, 2
  {
    if |n.children| > 2 then DenotesStmt(n.children[2], s, env, after, ctx) else s == None && after == env
  }

  /** The condition and the increment of a loop, two neighbours in its header, and its body, child 1. */
  ghost predicate DenotesParts(n: Node, at: nat, s: Stmt, env: Env, ctx: Context)
    decreases n, 2
  {
    && s.ForStmt? && |n.children| > 1 && |n.children[0].children| > at + 1
    && Denotes(n.children[0].children[at], s.cond, env, ctx)
    && Denotes(n.children[0].children[at + 1], s.inc, env, ctx)
    && exists last :: DenotesStmt(n.children[1], s.loop, env, last, ctx)
  }

  /** The declaration of a loop is the first child of its header. */
  ghost predicate DenotesFor(n: Node, s: Stmt, env: Env, after: Env, ctx: Context)
    decreases n, 3, 0
  {
    && s.ForStmt? && !s.isDo && after == env && n.children != [] && n.children[0].children != []
    && exists mid | DenotesStmt(n.children[0].children[0], s.decl, Enter(env), mid, ctx) :: DenotesParts(n, 1, s, mid,
        ctx)
  }

  /** That of a loop with its test at the end is child 2, if there is one. */
  ghost predicate DenotesDoFor(n: Node, s: Stmt, env: Env, after: Env, ctx: Context)
    decreases n, 3, 0
  {
    && s.ForStmt? && s.isDo && after == env
    && exists mid | DenotesThird(n, s.decl, Enter(env), mid, ctx) :: DenotesParts(n, 0, s, mid, ctx)
  }

  /** Child 0 is the test, child 1 what is done if it holds, and child 2, if there is one, what is done if not. */
  ghost predicate DenotesIf(n: Node, s: Stmt, env: Env, after: Env, ctx: Context)
    decreases n, 3
  {
    && s.IfStmt? && |n.children| > 1 && Denotes(n.children[0], s.test, env, ctx)
    && exists mid | DenotesStmt(n.children[1], s.yes, env, mid, ctx) :: DenotesThird(n, s.no, mid, after, ctx)
  }

  // ----- The compiler follows them ------------------------------------------------------------

  lemma ReferenceIff(n: Node, e: Expr, env: Env, ctx: Context)
    ensures Refers(n, e, env, ctx) <==> Reference(n, env, ctx) == Success(Some(e))
  {
    if n.children != [] {
      var path := Chain(n.children[0]);
      assert [] + path == path;
      SpellsIff(n.children[0], path);
      forall other ensures Spells(n.children[0], other) <==> other == path { SpellsIff(n.children[0], other); }
    }
  }

  lemma {:induction false} ExprIff(n: Node, e: Option<Expr>, env: Env, ctx: Context)
    requires ForcedTakeTheirKey(ctx.forced)
    ensures Denotes(n, e, env, ctx) <==> ElabExpr(n, env, ctx) == Success(e)
    decreases n, 2
  {
    match n.kind
    case FQUALPATH => ReferenceSome(n, env, ctx); if e.Some? { ReferenceIff(n, e.value, env, ctx); }
    case ARGLIST => ArgsIff(n, e, env, ctx);
    case FUNCDEF => FunctionIff(n, e, env, ctx);
    case EXPRBASIC => OperatorIff(n, e, env, ctx);
    case _ =>
  }

  lemma ReferenceSome(n: Node, env: Env, ctx: Context)
    ensures Reference(n, env, ctx).Success? ==> Reference(n, env, ctx).value.Some?
  {
  }

  lemma {:induction false} ArgsIff(n: Node, e: Option<Expr>, env: Env, ctx: Context)
    requires n.kind == ARGLIST && ForcedTakeTheirKey(ctx.forced)
    ensures (e.Some? && DenotesArgs(n, e.value, env, ctx)) <==> ElabExpr(n, env, ctx) == Success(e)
    decreases n, 1
  {
    if e.Some? && DenotesArgs(n, e.value, env, ctx) {
      ExprsComplete(n.children, e.value.exprs, env, ctx);
      MakeArgsOf(ElabExprs(n.children, env, ctx).value, e.value.exprs);
    } else if ElabExpr(n, env, ctx) == Success(e) {
      var es := ElabExprs(n.children, env, ctx).value;
      var exprs := MakeArgs(es).value.exprs;
      MakeArgsOf(es, exprs);
      ExprsSound(n.children, exprs, env, ctx);
    }
  }

  lemma MakeArgsOf(es: seq<Option<Expr>>, exprs: seq<Expr>)
    ensures MakeArgs(es).Success? ==> MakeArgs(es).value.ArgsExpr?
    ensures |es| == |exprs| && (forall i :: 0 <= i < |es| ==> es[i] == Some(exprs[i])) <==>
              MakeArgs(es).Success? && MakeArgs(es).value == ArgsExpr(Tuple(TypesOf(exprs)), exprs)
  {
    if |es| == |exprs| && forall i :: 0 <= i < |es| ==> es[i] == Some(exprs[i]) {
      assert forall e <- es :: e.Some?;
      assert MakeArgs(es).value.exprs == exprs;
    } else if MakeArgs(es).Success? && MakeArgs(es).value.exprs == exprs {
      forall i | 0 <= i < |es| ensures es[i] == Some(exprs[i]) { assert es[i] in es; }
    }
  }

  lemma {:induction false} ExprsComplete(nodes: seq<Node>, exprs: seq<Expr>, env: Env, ctx: Context)
    requires ForcedTakeTheirKey(ctx.forced) && |nodes| == |exprs|
    requires forall i :: 0 <= i < |nodes| ==> Denotes(nodes[i], Some(exprs[i]), env, ctx)
    ensures var r := ElabExprs(nodes, env, ctx);
            r.Success? && |r.value| == |exprs| && forall i :: 0 <= i < |exprs| ==> r.value[i] == Some(exprs[i])
    decreases nodes
  {
    if nodes != [] {
      ExprIff(nodes[0], Some(exprs[0]), env, ctx);
      ExprsComplete(nodes[1..], exprs[1..], env, ctx);
    }
  }

  lemma {:induction false} ExprsSound(nodes: seq<Node>, exprs: seq<Expr>, env: Env, ctx: Context)
    requires ForcedTakeTheirKey(ctx.forced) && |nodes| == |exprs| && ElabExprs(nodes, env, ctx).Success?
    requires forall i :: 0 <= i < |exprs| ==> ElabExprs(nodes, env, ctx).value[i] == Some(exprs[i])
    ensures forall i :: 0 <= i < |nodes| ==> Denotes(nodes[i], Some(exprs[i]), env, ctx)
    decreases nodes
  {
    if nodes != [] {
      var more := ElabExprs(nodes[1..], env, ctx).value;
      assert ElabExprs(nodes, env, ctx).value[1..] == more;
      ExprIff(nodes[0], Some(exprs[0]), env, ctx);
      ExprsSound(nodes[1..], exprs[1..], env, ctx);
      forall i | 0 <= i < |nodes| ensures Denotes(nodes[i], Some(exprs[i]), env, ctx) {
        if i > 0 { assert nodes[i] == nodes[1..][i - 1] && exprs[i] == exprs[1..][i - 1]; }
      }
    }
  }

  lemma {:induction false} FunctionIff(n: Node, e: Option<Expr>, env: Env, ctx: Context)
    requires n.kind == FUNCDEF && ForcedTakeTheirKey(ctx.forced)
    ensures e.Some? && DenotesFunction(n, e.value, env, ctx) <==> ElabFunction(n, env, ctx) == Success(e)
    decreases n, 1, 1
  {
    if e.Some? && DenotesFunction(n, e.value, env, ctx) {
      FunctionComplete(n, e, env, ctx);
    } else if ElabFunction(n, env, ctx) == Success(e) {
      FunctionSound(n, e, env, ctx);
    }
  }

  lemma {:induction false} FunctionComplete(n: Node, e: Option<Expr>, env: Env, ctx: Context)
    requires n.kind == FUNCDEF && ForcedTakeTheirKey(ctx.forced) && e.Some? && DenotesFunction(n, e.value, env, ctx)
    ensures ElabFunction(n, env, ctx) == Success(e)
    decreases n, 1, 0
  {
    var frame, after :| FunctionWritten(n, e.value.sort, frame, ctx.ns)
      && DenotesStmt(n.children[0], e.value.body, Scope(Visible(env), BindAll(map[], frame)), after, ctx);
    FunctionWrittenIff(n, e.value.sort, frame, ctx.ns);
    StmtIff(n.children[0], e.value.body, Scope(Visible(env), BindAll(map[], frame)), after, ctx);
  }

  lemma {:induction false} FunctionSound(n: Node, e: Option<Expr>, env: Env, ctx: Context)
    requires n.kind == FUNCDEF && ForcedTakeTheirKey(ctx.forced) && ElabFunction(n, env, ctx) == Success(e)
    ensures e.Some? && DenotesFunction(n, e.value, env, ctx)
    decreases n, 1, 0
  {
    var frame := ParamSymbols(n.children[1].children, ctx.ns).value;
    var inner := Scope(Visible(env), BindAll(map[], frame));
    FunctionWrittenIff(n, e.value.sort, frame, ctx.ns);
    StmtIff(n.children[0], e.value.body, inner, ElabStmt(n.children[0], inner, ctx).value.1, ctx);
  }

  lemma AppliedIff(l: Expr, right: Expr, op: string, e: Expr, ctx: Context)
    requires ForcedTakeTheirKey(ctx.forced)
    ensures Applied(l, right, op, e, ctx) <==> Apply(l, right, op, ctx) == Success(Some(e))
  {
    if l.sort.Function? && op == "()" {
      if right.ArgsExpr? {
        if kept :| Kept(right.exprs, l.sort.input, kept) && e == CallExpr(l.sort.output, l, kept) {
          KeptIff(right.exprs, l.sort.input, kept);
        } else if Apply(l, right, op, ctx) == Success(Some(e)) {
          KeptIff(right.exprs, l.sort.input, CoerceArgs(right.exprs, l.sort.input).value);
        }
      }
    } else {
      UpgradeIsChosen(right, Unknown, ctx);
      var r := ForceUpgrade(right, Unknown, ctx).value;
      forall x ensures Upgraded(right, x, Unknown, ctx.forced) <==> x == r { UpgradedIff(right, x, Unknown, ctx); }
      OverloadedIff(l, r, op, ctx.overloads, e);
    }
  }

  lemma {:induction false} OperatorIff(n: Node, e: Option<Expr>, env: Env, ctx: Context)
    requires n.kind == EXPRBASIC && ForcedTakeTheirKey(ctx.forced)
    ensures DenotesOperator(n, e, env, ctx) <==> ElabExpr(n, env, ctx) == Success(e)
    decreases n, 1
  {
    if DenotesOperator(n, e, env, ctx) {
      OperatorComplete(n, e, env, ctx);
    } else if ElabExpr(n, env, ctx) == Success(e) {
      OperatorSound(n, e, env, ctx);
    }
  }

  lemma {:induction false} OperatorComplete(n: Node, e: Option<Expr>, env: Env, ctx: Context)
    requires n.kind == EXPRBASIC && ForcedTakeTheirKey(ctx.forced) && DenotesOperator(n, e, env, ctx)
    ensures ElabOperator(n, env, ctx) == Success(e)
    decreases n, 0
  {
    var left, l :| Denotes(n.children[0], Some(left), env, ctx) && Upgraded(left, l, Unknown, ctx.forced)
      && if |n.children| == 1 then e == None
         else
           exists right | Denotes(n.children[1], Some(right), env, ctx) ::
             e.Some? && Applied(l, right, n.text, e.value, ctx);
    ExprIff(n.children[0], Some(left), env, ctx);
    UpgradedIff(left, l, Unknown, ctx);
    if |n.children| > 1 {
      var right :| Denotes(n.children[1], Some(right), env, ctx) && Applied(l, right, n.text, e.value, ctx);
      ExprIff(n.children[1], Some(right), env, ctx);
      AppliedIff(l, right, n.text, e.value, ctx);
    }
  }

  lemma {:induction false} OperatorSound(n: Node, e: Option<Expr>, env: Env, ctx: Context)
    requires n.kind == EXPRBASIC && ForcedTakeTheirKey(ctx.forced) && ElabOperator(n, env, ctx) == Success(e)
    ensures DenotesOperator(n, e, env, ctx)
    decreases n, 0
  {
    var left := ElabExpr(n.children[0], env, ctx).value.value;
    var l := ForceUpgrade(left, Unknown, ctx).value;
    ExprIff(n.children[0], Some(left), env, ctx);
    UpgradedIff(left, l, Unknown, ctx);
    if |n.children| > 1 {
      var right := ElabExpr(n.children[1], env, ctx).value.value;
      ExprIff(n.children[1], Some(right), env, ctx);
      assert e.Some?;
      AppliedIff(l, right, n.text, e.value, ctx);
    }
  }

  lemma {:induction false} StmtIff(n: Node, s: Option<Stmt>, env: Env, after: Env, ctx: Context)
    requires ForcedTakeTheirKey(ctx.forced)
    ensures DenotesStmt(n, s, env, after, ctx) <==> ElabStmt(n, env, ctx) == Success((s, after))
    decreases n, 5
  {
    if IsExprStmt(n.kind) {
      ExprStmtIff(n, s, env, after, ctx);
    } else if IsLoop(n.kind) {
      LoopIff(n, s, env, after, ctx);
    } else {
      OtherStmtIff(n, s, env, after, ctx);
    }
  }

  lemma {:induction false} OtherStmtIff(n: Node, s: Option<Stmt>, env: Env, after: Env, ctx: Context)
    requires !IsExprStmt(n.kind) && !IsLoop(n.kind) && ForcedTakeTheirKey(ctx.forced)
    ensures DenotesStmt(n, s, env, after, ctx) <==> ElabStmt(n, env, ctx) == Success((s, after))
    decreases n, 4
  {
    match n.kind
    case DECL => DeclIff(n, s, env, after, ctx);
    case BLOCK => BlockIff(n, s, env, after, ctx);
    case STMTRTN => ReturnIff(n, s, env, after, ctx);
    case STMTIF => IfIff(n, s, env, after, ctx);
    case _ =>
  }

  lemma {:induction false} ExprStmtIff(n: Node, s: Option<Stmt>, env: Env, after: Env, ctx: Context)
    requires IsExprStmt(n.kind) && ForcedTakeTheirKey(ctx.forced)
    ensures DenotesStmt(n, s, env, after, ctx) <==> ElabStmt(n, env, ctx) == Success((s, after))
    decreases n, 3
  {
    if s.Some? && s.value.ExprStmt? {
      ExprIff(n, Some(s.value.expr), env, ctx);
    } else if s.None? {
      ExprIff(n, None, env, ctx);
    }
  }

  lemma {:induction false} LoopIff(n: Node, s: Option<Stmt>, env: Env, after: Env, ctx: Context)
    requires IsLoop(n.kind) && ForcedTakeTheirKey(ctx.forced)
    ensures (s.Some? && DenotesLoop(n, s.value, env, after, ctx)) <==> ElabLoop(n, env, ctx) == Success((s, after))
    decreases n, 3, 1
  {
    if n.kind == STMTDOFOR {
      DoForIff(n, s, env, after, ctx);
    } else if n.kind == STMTFOR {
      ForIff(n, s, env, after, ctx);
    } else {
      WhileIff(n, s, env, after, ctx);
    }
  }

  lemma {:induction false} ReturnIff(n: Node, s: Option<Stmt>, env: Env, after: Env, ctx: Context)
    requires n.kind == STMTRTN && ForcedTakeTheirKey(ctx.forced)
    ensures (s.Some? && DenotesReturn(n, s.value, env, after, ctx)) <==> ElabStmt(n, env, ctx) == Success((s, after))
    decreases n, 3
  {
    if s.Some? && s.value.ReturnStmt? && n.children != [] { ExprIff(n.children[0], s.value.value, env, ctx); }
  }

  lemma {:induction false} SortComplete(n: Node, sort: Type, env: Env, ctx: Context)
    requires n.kind == DECL && ForcedTakeTheirKey(ctx.forced) && DenotesSort(n, sort, env, ctx) && env.Scope?
    ensures ElabDecl(n, env, ctx).Success? && ElabDecl(n, env, ctx).value.0 == Some(DeclStmt([n.text], sort))
    decreases n, 2
  {
    var at := if IsTypeNode(n.children[0]) then 1 else 0;
    var initialised := |n.children| > at && n.children[at].kind != ATTRS;
    var declared :| (if at == 1 then Written(n.children[0], declared, ctx.ns) else declared == Unknown)
      && if initialised then
           exists value, x | Denotes(n.children[at], Some(value), env, ctx)
               && Upgraded(value, x, declared, ctx.forced) ::
             sort == x.sort && (declared.Unknown? || (sort == declared && Known(declared)))
         else sort == declared;
    if at == 1 { WrittenIff(n.children[0], declared, ctx.ns); }
    if initialised {
      var value, x :| Denotes(n.children[at], Some(value), env, ctx) && Upgraded(value, x, declared, ctx.forced)
        && sort == x.sort && (declared.Unknown? || (sort == declared && Known(declared)));
      ExprIff(n.children[at], Some(value), env, ctx);
      UpgradedIff(value, x, declared, ctx);
      EqualsMeaning(sort, declared);
    }
    assert DeclaredSort(n, at, declared, env, ctx) == Success(sort);
  }

  lemma {:induction false} SortSound(n: Node, sort: Type, env: Env, ctx: Context)
    requires n.kind == DECL && ForcedTakeTheirKey(ctx.forced) && ElabDecl(n, env, ctx).Success?
    requires ElabDecl(n, env, ctx).value.0 == Some(DeclStmt([n.text], sort))
    ensures DenotesSort(n, sort, env, ctx)
    decreases n, 2
  {
    var typed := IsTypeNode(n.children[0]);
    var at, declared := if typed then 1 else 0, if typed then MakeType(n.children[0], ctx.ns).value else Unknown;
    if typed { WrittenIff(n.children[0], declared, ctx.ns); }
    assert DeclaredSort(n, at, declared, env, ctx) == Success(sort);
    if |n.children| > at && n.children[at].kind != ATTRS {
      var value := ElabExpr(n.children[at], env, ctx).value.value;
      var x := ForceUpgrade(value, declared, ctx).value;
      ExprIff(n.children[at], Some(value), env, ctx);
      UpgradedIff(value, x, declared, ctx);
      EqualsMeaning(x.sort, declared);
    }
  }

  lemma {:induction false} DeclIff(n: Node, s: Option<Stmt>, env: Env, after: Env, ctx: Context)
    requires n.kind == DECL && ForcedTakeTheirKey(ctx.forced)
    ensures (s.Some? && DenotesDecl(n, s.value, env, after, ctx)) <==> ElabDecl(n, env, ctx) == Success((s, after))
    decreases n, 3
  {
    if s.Some? && DenotesDecl(n, s.value, env, after, ctx) {
      SortComplete(n, s.value.sort, env, ctx);
    } else if ElabDecl(n, env, ctx) == Success((s, after)) {
      SortSound(n, s.value.sort, env, ctx);
    }
  }

  lemma {:induction false} AllIff(nodes: seq<Node>, ss: seq<Option<Stmt>>, env: Env, after: Env, ctx: Context)
    requires |nodes| == |ss| && ForcedTakeTheirKey(ctx.forced)
    ensures DenotesAll(nodes, ss, env, after, ctx) <==> ElabStmts(nodes, env, ctx) == Success((ss, after))
    decreases nodes, 1, 1
  {
    if DenotesAll(nodes, ss, env, after, ctx) {
      AllComplete(nodes, ss, env, after, ctx);
    } else if ElabStmts(nodes, env, ctx) == Success((ss, after)) {
      AllSound(nodes, ss, env, after, ctx);
    }
  }

  lemma {:induction false} AllComplete(nodes: seq<Node>, ss: seq<Option<Stmt>>, env: Env, after: Env, ctx: Context)
    requires |nodes| == |ss| && ForcedTakeTheirKey(ctx.forced) && DenotesAll(nodes, ss, env, after, ctx)
    ensures ElabStmts(nodes, env, ctx) == Success((ss, after))
    decreases nodes, 1, 0
  {
    if nodes != [] {
      var mid :| DenotesStmt(nodes[0], ss[0], env, mid, ctx) && DenotesAll(nodes[1..], ss[1..], mid, after, ctx);
      StmtIff(nodes[0], ss[0], env, mid, ctx);
      AllIff(nodes[1..], ss[1..], mid, after, ctx);
      assert ss == [ss[0]] + ss[1..];
    }
  }

  lemma {:induction false} AllSound(nodes: seq<Node>, ss: seq<Option<Stmt>>, env: Env, after: Env, ctx: Context)
    requires |nodes| == |ss| && ForcedTakeTheirKey(ctx.forced) && ElabStmts(nodes, env, ctx) == Success((ss, after))
    ensures DenotesAll(nodes, ss, env, after, ctx)
    decreases nodes, 1, 0
  {
    if nodes != [] {
      var mid := ElabStmt(nodes[0], env, ctx).value.1;
      StmtIff(nodes[0], ss[0], env, mid, ctx);
      AllIff(nodes[1..], ss[1..], mid, after, ctx);
    }
  }

  lemma {:induction false} BlockIff(n: Node, s: Option<Stmt>, env: Env, after: Env, ctx: Context)
    requires n.kind == BLOCK && ForcedTakeTheirKey(ctx.forced)
    ensures s.Some? && DenotesBlock(n, s.value, env, after, ctx) <==> ElabStmt(n, env, ctx) == Success((s, after))
    decreases n, 3, 1
  {
    if s.Some? && DenotesBlock(n, s.value, env, after, ctx) {
      BlockComplete(n, s, env, after, ctx);
    } else if ElabStmt(n, env, ctx) == Success((s, after)) {
      BlockSound(n, s, env, after, ctx);
    }
  }

  lemma {:induction false} BlockComplete(n: Node, s: Option<Stmt>, env: Env, after: Env, ctx: Context)
    requires n.kind == BLOCK && ForcedTakeTheirKey(ctx.forced) && s.Some? && DenotesBlock(n, s.value, env, after, ctx)
    ensures ElabStmt(n, env, ctx) == Success((s, after))
    decreases n, 3, 0
  {
    var inner :| DenotesAll(n.children, s.value.stmts, Enter(env), inner, ctx);
    AllIff(n.children, s.value.stmts, Enter(env), inner, ctx);
  }

  lemma {:induction false} BlockSound(n: Node, s: Option<Stmt>, env: Env, after: Env, ctx: Context)
    requires n.kind == BLOCK && ForcedTakeTheirKey(ctx.forced) && ElabStmt(n, env, ctx) == Success((s, after))
    ensures s.Some? && DenotesBlock(n, s.value, env, after, ctx)
    decreases n, 3, 0
  {
    AllIff(n.children, s.value.stmts, Enter(env), ElabStmts(n.children, Enter(env), ctx).value.1, ctx);
  }

  lemma {:induction false} WhileIff(n: Node, s: Option<Stmt>, env: Env, after: Env, ctx: Context)
    requires (n.kind == STMTWHILE || n.kind == STMTDOWHILE) && ForcedTakeTheirKey(ctx.forced)
    ensures (s.Some? && DenotesWhile(n, s.value, env, after, ctx)) <==> ElabWhile(n, env, ctx) == Success((s, after))
    decreases n, 3, 0
  {
    if s.Some? && s.value.WhileStmt? && n.children != [] {
      ExprIff(n.children[0], s.value.cond, env, ctx);
      StmtIff(n.children[0], s.value.loop, env, after, ctx);
    }
  }

  lemma {:induction false} ThirdIff(n: Node, s: Option<Stmt>, env: Env, after: Env, ctx: Context)
    requires ForcedTakeTheirKey(ctx.forced)
    ensures DenotesThird(n, s, env, after, ctx) <==> ElabThird(n, env, ctx) == Success((s, after))
    decreases n, 2
  {
    if |n.children| > 2 { StmtIff(n.children[2], s, env, after, ctx); }
  }

  lemma {:induction false} PartsIff(n: Node, at: nat, s: Stmt, env: Env, ctx: Context)
    requires ForcedTakeTheirKey(ctx.forced)
    ensures DenotesParts(n, at, s, env, ctx)
            <==> s.ForStmt? && ElabLoopParts(n, at, env, ctx) == Success((s.cond, s.inc, s.loop))
    decreases n, 2
  {
    if s.ForStmt? && |n.children| > 1 && |n.children[0].children| > at + 1 {
      ExprIff(n.children[0].children[at], s.cond, env, ctx);
      ExprIff(n.children[0].children[at + 1], s.inc, env, ctx);
      var body := n.children[1];
      if last :| DenotesStmt(body, s.loop, env, last, ctx) {
        StmtIff(body, s.loop, env, last, ctx);
      } else if ElabStmt(body, env, ctx).Success? {
        StmtIff(body, s.loop, env, ElabStmt(body, env, ctx).value.1, ctx);
      }
    }
  }

  lemma {:induction false} ForIff(n: Node, s: Option<Stmt>, env: Env, after: Env, ctx: Context)
    requires n.kind == STMTFOR && ForcedTakeTheirKey(ctx.forced)
    ensures s.Some? && DenotesFor(n, s.value, env, after, ctx) <==> ElabFor(n, env, ctx) == Success((s, after))
    decreases n, 3, 0, 1
  {
    if s.Some? && DenotesFor(n, s.value, env, after, ctx) {
      ForComplete(n, s, env, after, ctx);
    } else if ElabFor(n, env, ctx) == Success((s, after)) {
      ForSound(n, s, env, after, ctx);
    }
  }

  lemma {:induction false} ForComplete(n: Node, s: Option<Stmt>, env: Env, after: Env, ctx: Context)
    requires n.kind == STMTFOR && ForcedTakeTheirKey(ctx.forced) && s.Some? && DenotesFor(n, s.value, env, after, ctx)
    ensures ElabFor(n, env, ctx) == Success((s, after))
    decreases n, 3, 0, 0
  {
    var start := n.children[0].children[0];
    var mid :| DenotesStmt(start, s.value.decl, Enter(env), mid, ctx) && DenotesParts(n, 1, s.value, mid, ctx);
    StmtIff(start, s.value.decl, Enter(env), mid, ctx);
    PartsIff(n, 1, s.value, mid, ctx);
  }

  lemma {:induction false} ForSound(n: Node, s: Option<Stmt>, env: Env, after: Env, ctx: Context)
    requires n.kind == STMTFOR && ForcedTakeTheirKey(ctx.forced) && ElabFor(n, env, ctx) == Success((s, after))
    ensures s.Some? && DenotesFor(n, s.value, env, after, ctx)
    decreases n, 3, 0, 0
  {
    var start := n.children[0].children[0];
    var mid := ElabStmt(start, Enter(env), ctx).value.1;
    StmtIff(start, s.value.decl, Enter(env), mid, ctx);
    PartsIff(n, 1, s.value, mid, ctx);
  }

  lemma {:induction false} DoForIff(n: Node, s: Option<Stmt>, env: Env, after: Env, ctx: Context)
    requires n.kind == STMTDOFOR && ForcedTakeTheirKey(ctx.forced)
    ensures s.Some? && DenotesDoFor(n, s.value, env, after, ctx) <==> ElabDoFor(n, env, ctx) == Success((s, after))
    decreases n, 3, 0, 1
  {
    if s.Some? && DenotesDoFor(n, s.value, env, after, ctx) {
      DoForComplete(n, s, env, after, ctx);
    } else if ElabDoFor(n, env, ctx) == Success((s, after)) {
      DoForSound(n, s, env, after, ctx);
    }
  }

  lemma {:induction false} DoForComplete(n: Node, s: Option<Stmt>, env: Env, after: Env, ctx: Context)
    requires n.kind == STMTDOFOR && ForcedTakeTheirKey(ctx.forced) && s.Some?
             && DenotesDoFor(n, s.value, env, after, ctx)
    ensures ElabDoFor(n, env, ctx) == Success((s, after))
    decreases n, 3, 0, 0
  {
    var mid :| DenotesThird(n, s.value.decl, Enter(env), mid, ctx) && DenotesParts(n, 0, s.value, mid, ctx);
    ThirdIff(n, s.value.decl, Enter(env), mid, ctx);
    PartsIff(n, 0, s.value, mid, ctx);
  }

  lemma {:induction false} DoForSound(n: Node, s: Option<Stmt>, env: Env, after: Env, ctx: Context)
    requires n.kind == STMTDOFOR && ForcedTakeTheirKey(ctx.forced) && ElabDoFor(n, env, ctx) == Success((s, after))
    ensures s.Some? && DenotesDoFor(n, s.value, env, after, ctx)
    decreases n, 3, 0, 0
  {
    var mid := ElabThird(n, Enter(env), ctx).value.1;
    ThirdIff(n, s.value.decl, Enter(env), mid, ctx);
    PartsIff(n, 0, s.value, mid, ctx);
  }

  lemma {:induction false} IfIff(n: Node, s: Option<Stmt>, env: Env, after: Env, ctx: Context)
    requires n.kind == STMTIF && ForcedTakeTheirKey(ctx.forced)
    ensures s.Some? && DenotesIf(n, s.value, env, after, ctx) <==> ElabIf(n, env, ctx) == Success((s, after))
    decreases n, 3, 1
  {
    if s.Some? && DenotesIf(n, s.value, env, after, ctx) {
      IfComplete(n, s, env, after, ctx);
    } else if ElabIf(n, env, ctx) == Success((s, after)) {
      IfSound(n, s, env, after, ctx);
    }
  }

  lemma {:induction false} IfComplete(n: Node, s: Option<Stmt>, env: Env, after: Env, ctx: Context)
    requires n.kind == STMTIF && ForcedTakeTheirKey(ctx.forced) && s.Some? && DenotesIf(n, s.value, env, after, ctx)
    ensures ElabIf(n, env, ctx) == Success((s, after))
    decreases n, 3, 0
  {
    var mid :| DenotesStmt(n.children[1], s.value.yes, env, mid, ctx) && DenotesThird(n, s.value.no, mid, after, ctx);
    ExprIff(n.children[0], s.value.test, env, ctx);
    StmtIff(n.children[1], s.value.yes, env, mid, ctx);
    ThirdIff(n, s.value.no, mid, after, ctx);
  }

  lemma {:induction false} IfSound(n: Node, s: Option<Stmt>, env: Env, after: Env, ctx: Context)
    requires n.kind == STMTIF && ForcedTakeTheirKey(ctx.forced) && ElabIf(n, env, ctx) == Success((s, after))
    ensures s.Some? && DenotesIf(n, s.value, env, after, ctx)
    decreases n, 3, 0
  {
    var mid := ElabStmt(n.children[1], env, ctx).value.1;
    ExprIff(n.children[0], s.value.test, env, ctx);
    StmtIff(n.children[1], s.value.yes, env, mid, ctx);
    ThirdIff(n, s.value.no, mid, after, ctx);
  }
}
