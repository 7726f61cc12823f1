/** What the first pass registers for a file, read off its declarations (src/extrapolate.cpp:23-83). */
module Registration {
  import opened Wrappers
  import opened LokTypes
  import opened LokSyntax
  import opened Scoping
  import opened Resolver
  import opened Typing
  import opened Passes
  import opened Rules
  import opened Emission

  /** A declaration and the namespace it stands in. */
  datatype Item = Item(node: Node, ns: Path)

  // ----- The declarations of a file ------------------------------------------------------------

  /** Everything that is declared, in the order in which it is registered: the members of a class before the class. */
  function Items(nodes: seq<Node>, ns: Path): seq<Item>
    decreases nodes, 0
  {
    if nodes == [] then [] else ItemsOf(nodes[0], ns) + Items(nodes[1..], NsBehind(nodes[0], ns))
  }

  function ItemsOf(n: Node, ns: Path): seq<Item>
    decreases n, 1
  {
    if n.kind == NAMESPACE && IsSpace(n) then Items(n.children[1].children, SpaceName(n))
    else if n.kind == TYPEDECL && IsClass(n)
         then Items(n.children[0].children[0].children, ns + [n.text]) + [Item(n, ns)]
    else if n.kind in {DECL, CTORDEF, DTORDEF, OPOVERLOAD} then [Item(n, ns)]
    else []
  }

  /** A namespace statement ends in no namespace. */
  function NsBehind(n: Node, ns: Path): Path {
    if n.kind == NAMESPACE then [] else ns
  }

  function NsBehindAll(nodes: seq<Node>, ns: Path): Path
    decreases nodes
  {
    if nodes == [] then ns else NsBehindAll(nodes[1..], NsBehind(nodes[0], ns))
  }

  // ----- What each one registers ----------------------------------------------------------------

  /** The names in the attribute list at the end of a declaration, if it has one. */
  ghost predicate Attributed(n: Node, attrs: set<string>) {
    n.children != [] &&
    var last := n.children[|n.children| - 1];
    if last.kind == ATTRS then forall a :: a in attrs <==> exists c <- last.children :: c.text == a
    else attrs == {}
  }

  /** The last part of the path of a declared symbol. */
  function OwnName(n: Node): string {
    if n.kind == CTORDEF then "new" else if n.kind == DTORDEF then "del" else n.text
  }

  /** A variable has the type that is written, if one is; a constructor makes an object of its class from its
      parameters;
      a destructor has the type of the class; an operator that of its function. */
  ghost predicate Typed(n: Node, sort: Type, ns: Path) {
    n.children != [] &&
    match n.kind
    case CTORDEF =>
      exists frame :: Parameters(n.children[0].children, frame, ns)
          && sort == Function(SortsOf(frame), Single(ns, None))
    case DTORDEF => sort == Single(ns, None)
    case OPOVERLOAD => exists frame :: FunctionWritten(n.children[0], sort, frame, ns)
    case _ => if IsTypeNode(n.children[0]) then Written(n.children[0], sort, ns) else sort == Unknown
  }

  ghost predicate Declares1(s: Symbol, item: Item) {
    && s.id == item.ns + [OwnName(item.node)]
    && Typed(item.node, s.sort, item.ns) && Attributed(item.node, s.attrs)
  }

  /** The tables with a symbol: a name keeps its first declaration, operators are listed in order, and a forced
      constructor
      is filed under the type of its parameter. */
  function Filed(ctx: Context, n: Node, s: Symbol): Context {
    ctx.(
      symbols := Bind(ctx.symbols, s),
      overloads := if n.kind == OPOVERLOAD then ctx.overloads + [(n.text, s)] else ctx.overloads,
      forced := if IsForced(n, s) && s.sort.Function? && s.sort.input != []
          then FileForced(ctx.forced, (s.sort.input[0], s))
                else ctx.forced)
  }

  predicate IsForced(n: Node, s: Symbol) {
    n.kind == CTORDEF && "forced" in s.attrs
  }

  /** A forced constructor has one parameter. */
  ghost predicate Accepted(s: Symbol, item: Item) {
    Declares1(s, item) && (IsForced(item.node, s) ==> s.sort.Function? && |s.sort.input| == 1)
  }

  /** The symbols of some declarations, filed in their order. */
  ghost predicate Files(items: seq<Item>, symbols: seq<Symbol>, before: Context, after: Context)
    decreases items
  {
    && |items| == |symbols|
    && if items == [] then after == before
       else Accepted(symbols[0], items[0])
            && Files(items[1..], symbols[1..], Filed(before, items[0].node, symbols[0]), after)
  }

  lemma FilesFirst(item: Item, items: seq<Item>, s: Symbol, symbols: seq<Symbol>, before: Context, after: Context)
    ensures Files([item] + items, [s] + symbols, before, after) <==>
              Accepted(s, item) && Files(items, symbols, Filed(before, item.node, s), after)
  {
    assert ([item] + items)[1..] == items && ([s] + symbols)[1..] == symbols;
    assert ([item] + items)[0] == item && ([s] + symbols)[0] == s;
  }

  lemma {:induction false} FilesConcat(
      a: seq<Item>, b: seq<Item>, s: seq<Symbol>, t: seq<Symbol>, before: Context, mid: Context, after: Context)
    requires Files(a, s, before, mid)
    ensures Files(a + b, s + t, before, after) <==> Files(b, t, mid, after)
    decreases a, 0
  {
    if a == [] {
      assert a + b == b && s + t == t;
    } else {
      FilesConcatStep(a[0], a[1..], b, s[0], s[1..], t, before, mid, after);
      Regrouped(a, b);
      Regrouped(s, t);
    }
  }

  lemma Regrouped<T>(a: seq<T>, b: seq<T>)
    requires a != []
    ensures a + b == [a[0]] + (a[1..] + b)
  {
  }

  lemma {:induction false} FilesConcatStep(item: Item, a: seq<Item>, b: seq<Item>, first: Symbol, s: seq<Symbol>,
                                           t: seq<Symbol>,
                                           before: Context, mid: Context, after: Context)
    requires Accepted(first, item) && Files(a, s, Filed(before, item.node, first), mid)
    ensures Files([item] + (a + b), [first] + (s + t), before, after) <==> Files(b, t, mid, after)
    decreases a, 1
  {
    FilesConcat(a, b, s, t, Filed(before, item.node, first), mid, after);
    FilesFirst(item, a + b, first, s + t, before, after);
  }

  /** The namespace plays no part. */
  lemma {:induction false} FilesAnywhere(items: seq<Item>, symbols: seq<Symbol>, before: Context, after: Context,
                                         ns: Path)
    requires Files(items, symbols, before, after)
    ensures Files(items, symbols, before.(ns := ns), after.(ns := ns)) && after.ns == before.ns
    decreases items
  {
    if items != [] {
      assert Filed(before.(ns := ns), items[0].node, symbols[0]) == Filed(before, items[0].node, symbols[0]).(ns := ns);
      FilesAnywhere(items[1..], symbols[1..], Filed(before, items[0].node, symbols[0]), after, ns);
    }
  }

  /** Namespace statements and classes have their parts, and no namespace statement stands in a class. */
  predicate Registrable(nodes: seq<Node>)
    decreases nodes, 0
  {
    forall n <- nodes :: RegistrableOne(n)
  }

  predicate RegistrableOne(n: Node)
    decreases n, 1
  {
    match n.kind
    case NAMESPACE => IsSpace(n) && Registrable(n.children[1].children)
    case TYPEDECL =>
      IsClass(n) && Registrable(n.children[0].children[0].children)
      && forall m <- n.children[0].children[0].children :: m.kind != NAMESPACE
    case _ => true
  }

  // ----- The first pass registers them -------------------------------------------------------------

  lemma AttributedIff(n: Node, attrs: set<string>)
    requires n.children != []
    ensures Attributed(n, attrs) <==> attrs == Attributes(n)
  {
  }

  lemma DeclaredIff(n: Node, s: Symbol, ns: Path)
    requires n.kind == DECL || n.kind == TYPEDECL
    ensures Declares1(s, Item(n, ns)) <==> DeclaredSymbol(n, ns) == Success(s)
  {
    if n.children != [] {
      AttributedIff(n, s.attrs);
      if IsTypeNode(n.children[0]) { WrittenIff(n.children[0], s.sort, ns); }
    }
  }

  lemma ConstructorTyped(n: Node, sort: Type, ns: Path)
    requires n.kind == CTORDEF && n.children != []
    ensures var input := ParamTypes(n.children[0].children, ns);
            Typed(n, sort, ns) <==> input.Success? && sort == Function(input.value, Single(ns, None))
  {
    var params := n.children[0].children;
    ParameterTypes(params, ns);
    if frame :| Parameters(params, frame, ns) && sort == Function(SortsOf(frame), Single(ns, None)) {
      ParametersIff(params, frame, ns);
    } else if ParamSymbols(params, ns).Success? {
      ParametersIff(params, ParamSymbols(params, ns).value, ns);
    }
  }

  /** What the pass does with an accepted symbol. */
  ghost predicate FilesOne(n: Node, ctx: Context, s: Symbol, after: Context) {
    Accepted(s, Item(n, ctx.ns)) && after == Filed(ctx, n, s)
  }

  lemma ConstructorFiles(n: Node, ctx: Context, s: Symbol, after: Context)
    requires n.kind == CTORDEF
    ensures FilesOne(n, ctx, s, after) ==> RegisterConstructor(n, ctx) == Success(after)
  {
    if FilesOne(n, ctx, s, after) {
      ConstructorTyped(n, s.sort, ctx.ns);
      AttributedIff(n, s.attrs);
    }
  }

  lemma ConstructorFiled(n: Node, ctx: Context) returns (s: Symbol)
    requires n.kind == CTORDEF && RegisterConstructor(n, ctx).Success?
    ensures FilesOne(n, ctx, s, RegisterConstructor(n, ctx).value)
  {
    var input := ParamTypes(n.children[0].children, ctx.ns).value;
    s := Symbol(Function(input, Single(ctx.ns, None)), ctx.ns + ["new"], Attributes(n));
    ConstructorTyped(n, s.sort, ctx.ns);
    AttributedIff(n, s.attrs);
  }

  lemma LeafFiles(n: Node, ctx: Context, s: Symbol, after: Context)
    requires n.kind == DECL || n.kind == DTORDEF || n.kind == OPOVERLOAD
    ensures FilesOne(n, ctx, s, after) ==> RegisterLeaf(n, ctx) == Success(after)
  {
    if FilesOne(n, ctx, s, after) {
      AttributedIff(n, s.attrs);
      if n.kind == DECL { DeclaredIff(n, s, ctx.ns); }
      if n.kind == OPOVERLOAD { RunType(n.children[0], s.sort, ctx.ns); }
    }
  }

  lemma LeafFiled(n: Node, ctx: Context) returns (s: Symbol)
    requires n.kind == DECL || n.kind == DTORDEF || n.kind == OPOVERLOAD
    requires RegisterLeaf(n, ctx).Success?
    ensures FilesOne(n, ctx, s, RegisterLeaf(n, ctx).value)
  {
    AttributedIff(n, Attributes(n));
    if n.kind == DECL {
      s := DeclaredSymbol(n, ctx.ns).value;
      DeclaredIff(n, s, ctx.ns);
    } else if n.kind == DTORDEF {
      s := Symbol(Single(ctx.ns, None), ctx.ns + ["del"], Attributes(n));
    } else {
      s := Symbol(FunctionType(n.children[0], ctx.ns).value, ctx.ns + [n.text], Attributes(n));
      RunType(n.children[0], s.sort, ctx.ns);
    }
  }

  lemma {:induction false} NsStays(nodes: seq<Node>, ns: Path)
    ensures NsBehindAll(nodes, ns) == ns || NsBehindAll(nodes, ns) == []
    ensures NsBehindAll(nodes, ns) != [] ==> forall n <- nodes :: n.kind != NAMESPACE
    ensures (forall n <- nodes :: n.kind != NAMESPACE) ==> NsBehindAll(nodes, ns) == ns
    decreases nodes
  {
    if nodes != [] {
      NsStays(nodes[1..], NsBehind(nodes[0], ns));
      assert nodes == [nodes[0]] + nodes[1..];
    }
  }

  /** Some declarations register these symbols. */
  ghost predicate Registers(nodes: seq<Node>, ctx: Context, symbols: seq<Symbol>, after: Context) {
    && Registrable(nodes) && after.ns == NsBehindAll(nodes, ctx.ns)
    && Files(Items(nodes, ctx.ns), symbols, ctx, after.(ns := ctx.ns))
  }

  ghost predicate RegistersOne(n: Node, ctx: Context, symbols: seq<Symbol>, after: Context) {
    && RegistrableOne(n) && after.ns == NsBehind(n, ctx.ns)
    && Files(ItemsOf(n, ctx.ns), symbols, ctx, after.(ns := ctx.ns))
  }

  lemma FilesSingle(item: Item, symbols: seq<Symbol>, before: Context, after: Context)
    ensures Files([item], symbols, before, after) <==>
              |symbols| == 1 && Accepted(symbols[0], item) && after == Filed(before, item.node, symbols[0])
  {
    if |symbols| == 1 {
      FilesFirst(item, [], symbols[0], [], before, after);
      assert [item] + [] == [item] && [symbols[0]] + [] == symbols;
    }
  }

  /** Everything that is not a class or a namespace statement. */
  lemma LeafRegistered(n: Node, ctx: Context) returns (symbols: seq<Symbol>)
    requires !Encloses(n) && RegisterLeaf(n, ctx).Success?
    ensures RegistersOne(n, ctx, symbols, RegisterLeaf(n, ctx).value)
  {
    symbols := [];
    var after := RegisterLeaf(n, ctx).value;
    if n.kind in {DECL, DTORDEF, OPOVERLOAD, CTORDEF} {
      var s;
      if n.kind == CTORDEF { s := ConstructorFiled(n, ctx); } else { s := LeafFiled(n, ctx); }
      symbols := [s];
      FilesSingle(Item(n, ctx.ns), [s], ctx, after);
    }
  }

  lemma LeafRegisters(n: Node, ctx: Context, symbols: seq<Symbol>, after: Context)
    requires !Encloses(n) && RegistersOne(n, ctx, symbols, after)
    ensures RegisterLeaf(n, ctx) == Success(after)
  {
    if n.kind in {DECL, DTORDEF, OPOVERLOAD, CTORDEF} {
      FilesSingle(Item(n, ctx.ns), symbols, ctx, after);
      if n.kind == CTORDEF { ConstructorFiles(n, ctx, symbols[0], after); }
         else { LeafFiles(n, ctx, symbols[0], after); }
    }
  }

  /** What the pass does with a class whose members it has registered. */
  lemma ClassEnclosed(n: Node, ctx: Context)
    requires n.kind == TYPEDECL && IsClass(n)
    ensures var mid := Register(n.children[0].children[0].children, ctx.(ns := ctx.ns + [n.text]));
            var s := DeclaredSymbol(n, ctx.ns);
            RegisterEnclosed(n, ctx) ==
            if mid.Failure? then mid
            else if mid.value.ns == [] then Failure(EmptyNamespace)
            else if s.Failure? then Failure(s.error)
            else Success(AddSymbol(mid.value.(ns := ctx.ns), s.value))
  {
    var mid := Register(n.children[0].children[0].children, ctx.(ns := ctx.ns + [n.text]));
    assert (ctx.ns + [n.text])[..|ctx.ns|] == ctx.ns;
  }

  lemma {:induction false} ClassRegistered(n: Node, ctx: Context) returns (symbols: seq<Symbol>)
    requires n.kind == TYPEDECL && RegisterEnclosed(n, ctx).Success?
    ensures RegistersOne(n, ctx, symbols, RegisterEnclosed(n, ctx).value)
    decreases n, 0
  {
    var members, inner := n.children[0].children[0].children, ctx.(ns := ctx.ns + [n.text]);
    ClassEnclosed(n, ctx);
    var mid := Register(members, inner).value;
    var ms := FileRegistered(members, inner);
    NsStays(members, inner.ns);
    var s := DeclaredSymbol(n, ctx.ns).value;
    symbols := ms + [s];
    assert Files(ItemsOf(n, ctx.ns), symbols, ctx, AddSymbol(mid.(ns := ctx.ns), s)) by {
      ClassFiles(n, ctx, ms, mid, s);
      DeclaredIff(n, s, ctx.ns);
    }
    ClassShape(n, ctx.ns, ms, inner, mid);
  }

  lemma ClassShape(n: Node, ns: Path, ms: seq<Symbol>, inner: Context, mid: Context)
    requires n.kind == TYPEDECL && IsClass(n) && Registers(n.children[0].children[0].children, inner, ms, mid)
             && mid.ns != []
    ensures RegistrableOne(n)
  {
    NsStays(n.children[0].children[0].children, inner.ns);
  }

  /** The members of a class are filed before the class. */
  lemma ClassFiles(n: Node, ctx: Context, ms: seq<Symbol>, mid: Context, s: Symbol)
    requires n.kind == TYPEDECL && IsClass(n)
    requires var inner := ctx.(ns := ctx.ns + [n.text]);
             Registers(n.children[0].children[0].children, inner, ms, mid) && mid.ns == inner.ns
    ensures Files(ItemsOf(n, ctx.ns), ms + [s], ctx, AddSymbol(mid.(ns := ctx.ns), s))
            <==> Declares1(s, Item(n, ctx.ns))
  {
    var members, inner := n.children[0].children[0].children, ctx.(ns := ctx.ns + [n.text]);
    FilesAnywhere(Items(members, inner.ns), ms, inner, mid, ctx.ns);
    assert inner.(ns := ctx.ns) == ctx;
    var after := AddSymbol(mid.(ns := ctx.ns), s);
    FilesConcat(Items(members, inner.ns), [Item(n, ctx.ns)], ms, [s], ctx, mid.(ns := ctx.ns), after);
    FilesSingle(Item(n, ctx.ns), [s], mid.(ns := ctx.ns), after);
  }

  lemma {:induction false} SpaceRegistered(n: Node, ctx: Context) returns (symbols: seq<Symbol>)
    requires n.kind == NAMESPACE && RegisterEnclosed(n, ctx).Success?
    ensures RegistersOne(n, ctx, symbols, RegisterEnclosed(n, ctx).value)
    decreases n, 0
  {
    assert [] + Chain(n.children[0].children[0]) == SpaceName(n);
    var inner := ctx.(ns := SpaceName(n));
    symbols := FileRegistered(n.children[1].children, inner);
    var mid := Register(n.children[1].children, inner).value;
    FilesAnywhere(Items(n.children[1].children, inner.ns), symbols, inner, mid.(ns := inner.ns), ctx.ns);
    assert inner.(ns := ctx.ns) == ctx;
  }

  lemma {:induction false} OneRegistered(n: Node, ctx: Context) returns (symbols: seq<Symbol>)
    requires RegisterOne(n, ctx).Success?
    ensures RegistersOne(n, ctx, symbols, RegisterOne(n, ctx).value)
    decreases n, 1
  {
    if n.kind == TYPEDECL {
      symbols := ClassRegistered(n, ctx);
    } else if n.kind == NAMESPACE {
      symbols := SpaceRegistered(n, ctx);
    } else {
      symbols := LeafRegistered(n, ctx);
    }
  }

  /** The first declaration and the others. */
  lemma RegistersParts(nodes: seq<Node>, ctx: Context, a: seq<Symbol>, mid: Context, b: seq<Symbol>, after: Context)
    requires nodes != [] && RegistersOne(nodes[0], ctx, a, mid)
    ensures Registers(nodes, ctx, a + b, after) <==> Registers(nodes[1..], mid, b, after)
  {
    var items := Items(nodes[1..], mid.ns);
    assert nodes == [nodes[0]] + nodes[1..];
    FilesConcat(ItemsOf(nodes[0], ctx.ns), items, a, b, ctx, mid.(ns := ctx.ns), after.(ns := ctx.ns));
    if Files(items, b, mid.(ns := ctx.ns), after.(ns := ctx.ns)) {
      FilesAnywhere(items, b, mid.(ns := ctx.ns), after.(ns := ctx.ns), mid.ns);
    } else if Files(items, b, mid, after.(ns := mid.ns)) {
      FilesAnywhere(items, b, mid, after.(ns := mid.ns), ctx.ns);
    }
  }

  /** Registering declarations files a symbol for each, with its path, its written type and its attributes. */
  lemma {:induction false} FileRegistered(nodes: seq<Node>, ctx: Context) returns (symbols: seq<Symbol>)
    requires Register(nodes, ctx).Success?
    ensures Registers(nodes, ctx, symbols, Register(nodes, ctx).value)
    decreases nodes, 0
  {
    symbols := [];
    if nodes != [] {
      var mid := RegisterOne(nodes[0], ctx).value;
      var a := OneRegistered(nodes[0], ctx);
      var b := FileRegistered(nodes[1..], mid);
      RegistersParts(nodes, ctx, a, mid, b, Register(nodes, ctx).value);
      symbols := a + b;
    }
  }

  // ----- And registers whatever can be -----------------------------------------------------------

  lemma {:induction false} ClassRegisters(n: Node, ctx: Context, symbols: seq<Symbol>, after: Context)
    requires n.kind == TYPEDECL && RegistersOne(n, ctx, symbols, after)
    ensures RegisterEnclosed(n, ctx) == Success(after)
    decreases n, 0
  {
    var members, inner := n.children[0].children[0].children, ctx.(ns := ctx.ns + [n.text]);
    var ms, s, mid := ClassSplit(n, ctx, symbols, after);
    FileRegisters(members, inner, ms, mid.(ns := inner.ns));
    ClassEnclosed(n, ctx);
  }

  lemma ClassSplit(n: Node, ctx: Context, symbols: seq<Symbol>, after: Context)
    returns (ms: seq<Symbol>, s: Symbol, mid: Context)
    requires n.kind == TYPEDECL && RegistersOne(n, ctx, symbols, after)
    ensures var inner := ctx.(ns := ctx.ns + [n.text]);
            Registers(n.children[0].children[0].children, inner, ms, mid.(ns := inner.ns))
    ensures mid.ns == ctx.ns && DeclaredSymbol(n, ctx.ns) == Success(s) && after == AddSymbol(mid, s)
  {
    var members, inner := n.children[0].children[0].children, ctx.(ns := ctx.ns + [n.text]);
    NsStays(members, inner.ns);
    ms, s, mid := LastFiled(Items(members, inner.ns), Item(n, ctx.ns), symbols, ctx, after.(ns := ctx.ns));
    FilesAnywhere(Items(members, inner.ns), ms, ctx, mid, inner.ns);
    DeclaredIff(n, s, ctx.ns);
  }

  lemma LastFiled(items: seq<Item>, last: Item, symbols: seq<Symbol>, before: Context, after: Context)
    returns (ms: seq<Symbol>, s: Symbol, mid: Context)
    requires Files(items + [last], symbols, before, after)
    ensures Files(items, ms, before, mid) && mid.ns == before.ns
    ensures Accepted(s, last) && after == Filed(mid, last.node, s)
  {
    var k := |symbols| - 1;
    FilesLength(items + [last], symbols, before, after);
    ms, s := symbols[..k], symbols[k];
    assert symbols == ms + [s];
    mid := FilesSplit(items, [last], ms, [s], before, after);
    FilesSingle(last, [s], mid, after);
  }

  lemma FilesLength(items: seq<Item>, symbols: seq<Symbol>, before: Context, after: Context)
    requires Files(items, symbols, before, after)
    ensures |items| == |symbols|
  {
  }

  lemma {:induction false} FilesSplit(a: seq<Item>, b: seq<Item>, s: seq<Symbol>, t: seq<Symbol>, before: Context,
                                      after: Context)
    returns (mid: Context)
    requires |a| == |s| && Files(a + b, s + t, before, after)
    ensures Files(a, s, before, mid) && Files(b, t, mid, after) && mid.ns == before.ns
    decreases a
  {
    mid := before;
    if a == [] {
      assert a + b == b && s + t == t;
    } else {
      Regrouped(a, b);
      Regrouped(s, t);
      FilesFirst(a[0], a[1..] + b, s[0], s[1..] + t, before, after);
      mid := FilesSplit(a[1..], b, s[1..], t, Filed(before, a[0].node, s[0]), after);
    }
  }

  lemma {:induction false} SpaceRegisters(n: Node, ctx: Context, symbols: seq<Symbol>, after: Context)
    requires n.kind == NAMESPACE && RegistersOne(n, ctx, symbols, after)
    ensures RegisterEnclosed(n, ctx) == Success(after)
    decreases n, 0
  {
    assert [] + Chain(n.children[0].children[0]) == SpaceName(n);
    var nodes, inner := n.children[1].children, ctx.(ns := SpaceName(n));
    FilesAnywhere(Items(nodes, inner.ns), symbols, ctx, after.(ns := ctx.ns), inner.ns);
    FileRegisters(nodes, inner, symbols, after.(ns := NsBehindAll(nodes, inner.ns)));
  }

  lemma {:induction false} FileRegisters(nodes: seq<Node>, ctx: Context, symbols: seq<Symbol>, after: Context)
    requires Registers(nodes, ctx, symbols, after)
    ensures Register(nodes, ctx) == Success(after)
    decreases nodes, 0
  {
    if nodes != [] {
      var n, k := nodes[0], |ItemsOf(nodes[0], ctx.ns)|;
      var a, b := symbols[..k], symbols[k..];
      assert symbols == a + b;
      var mid := FilesSplit(ItemsOf(n, ctx.ns), Items(nodes[1..], NsBehind(n, ctx.ns)), a, b, ctx,
                            after.(ns := ctx.ns));
      var next := mid.(ns := NsBehind(n, ctx.ns));
      assert next.(ns := ctx.ns) == mid;
      OneRegisters(n, ctx, a, next);
      RegistersParts(nodes, ctx, a, next, b, after);
      FileRegisters(nodes[1..], next, b, after);
    }
  }

  lemma {:induction false} OneRegisters(n: Node, ctx: Context, symbols: seq<Symbol>, after: Context)
    requires RegistersOne(n, ctx, symbols, after)
    ensures RegisterOne(n, ctx) == Success(after)
    decreases n, 1
  {
    if n.kind == TYPEDECL {
      ClassRegisters(n, ctx, symbols, after);
    } else if n.kind == NAMESPACE {
      SpaceRegisters(n, ctx, symbols, after);
    } else {
      LeafRegisters(n, ctx, symbols, after);
    }
  }

  /** Every symbol is filed under its own path. */
  lemma {:induction false} FilesKeyed(items: seq<Item>, symbols: seq<Symbol>, before: Context, after: Context)
    requires Files(items, symbols, before, after) && Keyed(before.symbols)
    ensures Keyed(after.symbols)
    decreases items
  {
    if items != [] { FilesKeyed(items[1..], symbols[1..], Filed(before, items[0].node, symbols[0]), after); }
  }

  lemma RegisteredKeyed(nodes: seq<Node>, ctx: Context)
    requires Register(nodes, ctx).Success? && Keyed(ctx.symbols)
    ensures Keyed(Register(nodes, ctx).value.symbols)
  {
    var symbols := FileRegistered(nodes, ctx);
    var after := Register(nodes, ctx).value;
    FilesKeyed(Items(nodes, ctx.ns), symbols, ctx, after.(ns := ctx.ns));
  }

  /** The tables of a file are those of its declarations, and there are none exactly if some declaration can not be
      read. */
  lemma RegisterIff(nodes: seq<Node>, ctx: Context, after: Context)
    ensures (exists symbols :: Registers(nodes, ctx, symbols, after)) <==> Register(nodes, ctx) == Success(after)
  {
    if symbols :| Registers(nodes, ctx, symbols, after) { FileRegisters(nodes, ctx, symbols, after); }
    if Register(nodes, ctx) == Success(after) { var symbols := FileRegistered(nodes, ctx); }
  }

  /** The whole compilation of a file: the tables are those of its declarations, and what is emitted are the units of
      the file with those tables. */
  lemma CompileIff(file: seq<Node>, loader: Loader, tables: Context, entries: seq<Extrapolated>, after: Context)
    ensures (exists symbols :: Registers(file, EMPTY, symbols, tables))
            && EmitsAll(file, tables, loader, entries, after)
            <==>
            Register(file, EMPTY) == Success(tables) && Drive(file, tables, loader) == Success((entries, after))
  {
    RegisterIff(file, EMPTY, tables);
    if Register(file, EMPTY) == Success(tables) {
      assert ForcedTakeTheirKey(EMPTY.forced) && Grows(EMPTY, tables);
      DriveEmits(file, tables, loader, entries, after);
    }
  }
}
