/** A fragment's elaboration depends only on the bindings of the names it mentions. */
module Weakening {
  import opened Wrappers
  import opened LokTypes
  import opened LokSyntax
  import opened Scoping
  import opened Resolver

  predicate EqualOn(a: Bindings, b: Bindings, names: set<Path>) {
    forall id <- names :: (id in a <==> id in b) && (id in a ==> a[id] == b[id])
  }

  /** Two environments that give the same meaning to some names. */
  predicate Agree(e: Env, f: Env, names: set<Path>) {
    && e.NoScope? == f.NoScope?
    && (e.Scope? ==> EqualOn(e.outer, f.outer, names) && EqualOn(e.here, f.here, names))
  }

  predicate SameResult<T(==)>(r: Result<(T, Env), Error>, q: Result<(T, Env), Error>, names: set<Path>) {
    if r.Success? && q.Success? then r.value.0 == q.value.0 && Agree(r.value.1, q.value.1, names)
    else r.Failure? && q.Failure? && r.error == q.error
  }

  lemma {:induction false} BindAllAgree(a: Bindings, b: Bindings, frame: Frame, names: set<Path>)
    requires EqualOn(a, b, names)
    ensures EqualOn(BindAll(a, frame), BindAll(b, frame), names)
    decreases frame
  {
    if frame != [] {
      BindAllAgree(Bind(a, frame[0]), Bind(b, frame[0]), frame[1..], names);
    }
  }

  /** Adding bindings of names an expression never mentions does not change its elaboration. */
  lemma {:induction false} WeakenExpr(n: Node, e: Env, f: Env, ctx: Context, names: set<Path>)
    requires Agree(e, f, names) && Mentions(n) <= names
    ensures ElabExpr(n, e, ctx) == ElabExpr(n, f, ctx)
    decreases n, 1
  {
    match n.kind
    case ARGLIST => WeakenExprs(n.children, e, f, ctx, names);
    case FUNCDEF => WeakenFunction(n, e, f, ctx, names);
    case EXPRBASIC => WeakenOperator(n, e, f, ctx, names);
    case FQUALPATH => WeakenReference(n, e, f, ctx, names);
    case _ =>
  }

  lemma WeakenReference(n: Node, e: Env, f: Env, ctx: Context, names: set<Path>)
    requires n.kind == FQUALPATH && Agree(e, f, names) && Mentions(n) <= names
    ensures Reference(n, e, ctx) == Reference(n, f, ctx)
  {
    if n.children != [] {
      var id := Chain(n.children[0]);
      assert [] + id == id && id in names;
    }
  }

  lemma {:induction false} WeakenExprs(nodes: seq<Node>, e: Env, f: Env, ctx: Context, names: set<Path>)
    requires Agree(e, f, names) && MentionsAll(nodes) <= names
    ensures ElabExprs(nodes, e, ctx) == ElabExprs(nodes, f, ctx)
    decreases nodes, 0
  {
    if nodes != [] {
      WeakenExpr(nodes[0], e, f, ctx, names);
      WeakenExprs(nodes[1..], e, f, ctx, names);
    }
  }

  lemma {:induction false} WeakenFunction(n: Node, e: Env, f: Env, ctx: Context, names: set<Path>)
    requires n.kind == FUNCDEF && Agree(e, f, names) && Mentions(n) <= names
    ensures ElabFunction(n, e, ctx) == ElabFunction(n, f, ctx)
    decreases n, 0
  {
    if FunctionType(n, ctx.ns).Success? && ParamSymbols(n.children[1].children, ctx.ns).Success? {
      var here := BindAll(map[], ParamSymbols(n.children[1].children, ctx.ns).value);
      WeakenStmt(n.children[0], Scope(Visible(e), here), Scope(Visible(f), here), ctx, names);
    }
  }

  lemma {:induction false} WeakenOperator(n: Node, e: Env, f: Env, ctx: Context, names: set<Path>)
    requires Agree(e, f, names) && MentionsAll(n.children) <= names
    ensures ElabOperator(n, e, ctx) == ElabOperator(n, f, ctx)
    decreases n, 0
  {
    if n.children != [] {
      WeakenExpr(n.children[0], e, f, ctx, names);
      if |n.children| > 1 {
        WeakenExpr(n.children[1], e, f, ctx, names);
      }
    }
  }

  /** The same for statements; afterwards the two environments still agree on those names. */
  lemma {:induction false} WeakenStmt(n: Node, e: Env, f: Env, ctx: Context, names: set<Path>)
    requires Agree(e, f, names) && Mentions(n) <= names
    ensures SameResult(ElabStmt(n, e, ctx), ElabStmt(n, f, ctx), names)
    decreases n, 2
  {
    if IsExprStmt(n.kind) {
      WeakenExpr(n, e, f, ctx, names);
    } else if IsLoop(n.kind) {
      WeakenLoop(n, e, f, ctx, names);
    } else {
      WeakenPlain(n, e, f, ctx, names);
    }
  }

  lemma {:induction false} WeakenPlain(n: Node, e: Env, f: Env, ctx: Context, names: set<Path>)
    requires !IsExprStmt(n.kind) && !IsLoop(n.kind) && Agree(e, f, names) && Mentions(n) <= names
    ensures SameResult(ElabStmt(n, e, ctx), ElabStmt(n, f, ctx), names)
    decreases n, 1, 1
  {
    if n.kind == DECL {
      WeakenDecl(n, e, f, ctx, names);
    } else if n.kind == BLOCK {
      WeakenStmts(n.children, Enter(e), Enter(f), ctx, names);
    } else if n.kind == STMTRTN {
      if n.children != [] { WeakenExpr(n.children[0], e, f, ctx, names); }
    } else if n.kind == STMTIF {
      WeakenIf(n, e, f, ctx, names);
    }
  }

  lemma {:induction false} WeakenLoop(n: Node, e: Env, f: Env, ctx: Context, names: set<Path>)
    requires IsLoop(n.kind) && Agree(e, f, names) && Mentions(n) <= names
    ensures SameResult(ElabLoop(n, e, ctx), ElabLoop(n, f, ctx), names)
    decreases n, 1, 1
  {
    if n.kind == STMTDOFOR {
      WeakenDoFor(n, e, f, ctx, names);
    } else if n.kind == STMTFOR {
      WeakenFor(n, e, f, ctx, names);
    } else {
      WeakenWhile(n, e, f, ctx, names);
    }
  }

  lemma {:induction false} WeakenStmts(nodes: seq<Node>, e: Env, f: Env, ctx: Context, names: set<Path>)
    requires Agree(e, f, names) && MentionsAll(nodes) <= names
    ensures SameResult(ElabStmts(nodes, e, ctx), ElabStmts(nodes, f, ctx), names)
    decreases nodes, 0
  {
    if nodes != [] {
      WeakenStmt(nodes[0], e, f, ctx, names);
      if ElabStmt(nodes[0], e, ctx).Success? {
        WeakenStmts(nodes[1..], ElabStmt(nodes[0], e, ctx).value.1, ElabStmt(nodes[0], f, ctx).value.1, ctx, names);
      }
    }
  }

  lemma {:induction false} WeakenDecl(n: Node, e: Env, f: Env, ctx: Context, names: set<Path>)
    requires n.kind == DECL && Agree(e, f, names) && Mentions(n) <= names
    ensures SameResult(ElabDecl(n, e, ctx), ElabDecl(n, f, ctx), names)
    decreases n, 1, 0
  {
    if n.children != [] {
      var typed := IsTypeNode(n.children[0]);
      var declared := if typed then MakeType(n.children[0], ctx.ns) else Success(Unknown);
      if declared.Success? {
        WeakenDeclaredSort(n, if typed then 1 else 0, declared.value, e, f, ctx, names);
      }
    }
  }

  lemma {:induction false} WeakenDeclaredSort(n: Node, at: nat, declared: Type, e: Env, f: Env, ctx: Context,
                                              names: set<Path>)
    requires n.kind == DECL && Agree(e, f, names) && Mentions(n) <= names
    requires n.children != [] && at == if IsTypeNode(n.children[0]) then 1 else 0
    ensures DeclaredSort(n, at, declared, e, ctx) == DeclaredSort(n, at, declared, f, ctx)
    decreases n, 0
  {
    if |n.children| > at {
      if at == 1 { assert n.children[1] in n.children[1..]; }
      WeakenExpr(n.children[at], e, f, ctx, names);
    }
  }

  lemma {:induction false} WeakenWhile(n: Node, e: Env, f: Env, ctx: Context, names: set<Path>)
    requires Agree(e, f, names) && MentionsAll(n.children) <= names
    ensures SameResult(ElabWhile(n, e, ctx), ElabWhile(n, f, ctx), names)
    decreases n, 1, 0
  {
    if n.children != [] {
      WeakenExpr(n.children[0], e, f, ctx, names);
      WeakenStmt(n.children[0], e, f, ctx, names);
    }
  }

  lemma {:induction false} WeakenDoFor(n: Node, e: Env, f: Env, ctx: Context, names: set<Path>)
    requires n.kind == STMTDOFOR && Agree(e, f, names) && Mentions(n) <= names
    ensures SameResult(ElabDoFor(n, e, ctx), ElabDoFor(n, f, ctx), names)
    decreases n, 1, 0
  {
    if n.children != [] {
      assert |n.children| > 2 ==> Mentions(n.children[2]) <= names by {
        if |n.children| > 2 { assert n.children[2] in n.children[1..]; }
      }
      WeakenThird(n, Enter(e), Enter(f), ctx, names);
      var start, other := ElabThird(n, Enter(e), ctx), ElabThird(n, Enter(f), ctx);
      if start.Success? {
        WeakenLoopParts(n, 0, start.value.1, other.value.1, ctx, names);
      }
    }
  }

  lemma {:induction false} WeakenThird(n: Node, e: Env, f: Env, ctx: Context, names: set<Path>)
    requires Agree(e, f, names) && (|n.children| > 2 ==> Mentions(n.children[2]) <= names)
    ensures SameResult(ElabThird(n, e, ctx), ElabThird(n, f, ctx), names)
    decreases n, 0
  {
    if |n.children| > 2 { WeakenStmt(n.children[2], e, f, ctx, names); }
  }

  lemma {:induction false} WeakenFor(n: Node, e: Env, f: Env, ctx: Context, names: set<Path>)
    requires n.kind == STMTFOR && Agree(e, f, names) && Mentions(n) <= names
    ensures SameResult(ElabFor(n, e, ctx), ElabFor(n, f, ctx), names)
    decreases n, 1, 0
  {
    if n.children != [] && n.children[0].children != [] {
      var header := n.children[0];
      WeakenStmt(header.children[0], Enter(e), Enter(f), ctx, names);
      if ElabStmt(header.children[0], Enter(e), ctx).Failure? { return; }
      var e1 := ElabStmt(header.children[0], Enter(e), ctx).value.1;
      var f1 := ElabStmt(header.children[0], Enter(f), ctx).value.1;
      WeakenLoopParts(n, 1, e1, f1, ctx, names);
    }
  }

  lemma {:induction false} WeakenLoopParts(n: Node, at: nat, e: Env, f: Env, ctx: Context, names: set<Path>)
    requires Agree(e, f, names) && n.children != []
    requires MentionsAll(n.children[0].children) + MentionsAll(n.children[1..]) <= names
    ensures ElabLoopParts(n, at, e, ctx) == ElabLoopParts(n, at, f, ctx)
    decreases n, 0
  {
    var header := n.children[0];
    if |header.children| > at { WeakenExpr(header.children[at], e, f, ctx, names); }
    if |header.children| > at + 1 { WeakenExpr(header.children[at + 1], e, f, ctx, names); }
    if |n.children| > 1 {
      assert n.children[1] in n.children[1..];
      WeakenStmt(n.children[1], e, f, ctx, names);
    }
  }

  lemma {:induction false} WeakenIf(n: Node, e: Env, f: Env, ctx: Context, names: set<Path>)
    requires Agree(e, f, names) && MentionsAll(n.children) <= names
    ensures SameResult(ElabIf(n, e, ctx), ElabIf(n, f, ctx), names)
    decreases n, 1, 0
  {
    if n.children != [] { WeakenExpr(n.children[0], e, f, ctx, names); }
    if |n.children| > 1 {
      WeakenStmt(n.children[1], e, f, ctx, names);
      if ElabStmt(n.children[1], e, ctx).Success? {
        WeakenThird(n, ElabStmt(n.children[1], e, ctx).value.1, ElabStmt(n.children[1], f, ctx).value.1, ctx, names);
      }
    }
  }

  // ----- On frame stacks --------------------------------------------------------

  /** The symbols of a frame whose names matter. */
  function Relevant(frame: Frame, names: set<Path>): Frame {
    if frame == [] then []
    else (if frame[0].id in names then [frame[0]] else []) + Relevant(frame[1..], names)
  }

  lemma {:induction false} RelevantBinds(a: Bindings, frame: Frame, b: Bindings, names: set<Path>)
    requires EqualOn(a, b, names)
    ensures EqualOn(BindAll(a, frame), BindAll(b, Relevant(frame, names)), names)
    decreases frame
  {
    if frame != [] {
      var rest := Relevant(frame[1..], names);
      if frame[0].id in names {
        assert Relevant(frame, names)[1..] == rest;
        RelevantBinds(Bind(a, frame[0]), frame[1..], Bind(b, frame[0]), names);
      } else {
        assert Relevant(frame, names) == rest;
        RelevantBinds(Bind(a, frame[0]), frame[1..], b, names);
      }
    }
  }

  lemma {:induction false} RelevantFlatten(frames: seq<Frame>, other: seq<Frame>, names: set<Path>)
    requires |frames| == |other|
    requires forall i :: 0 <= i < |frames| ==> Relevant(frames[i], names) == Relevant(other[i], names)
    ensures EqualOn(Flatten(frames), Flatten(other), names)
    ensures Agree(EnvOf(frames), EnvOf(other), names)
    decreases |frames|
  {
    if frames != [] {
      var last := |frames| - 1;
      RelevantFlatten(frames[..last], other[..last], names);
      RelevantBinds(map[], frames[last], map[], names);
      RelevantBinds(map[], other[last], map[], names);
    }
  }

  /** Weakening on the stack: whatever bindings of unmentioned names are put into whichever frames, an
      expression elaborates to the same result and a statement to the same statement or failure. */
  lemma StackWeakening(n: Node, frames: seq<Frame>, other: seq<Frame>, ctx: Context)
    requires |frames| == |other|
    requires forall i :: 0 <= i < |frames| ==> Relevant(frames[i], Mentions(n)) == Relevant(other[i], Mentions(n))
    ensures ElabExpr(n, EnvOf(frames), ctx) == ElabExpr(n, EnvOf(other), ctx)
    ensures SameResult(ElabStmt(n, EnvOf(frames), ctx), ElabStmt(n, EnvOf(other), ctx), Mentions(n))
  {
    RelevantFlatten(frames, other, Mentions(n));
    WeakenExpr(n, EnvOf(frames), EnvOf(other), ctx, Mentions(n));
    WeakenStmt(n, EnvOf(frames), EnvOf(other), ctx, Mentions(n));
  }
}
