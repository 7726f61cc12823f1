/** When what the elaborator returns is well typed. */
module Typing {
  import opened Wrappers
  import opened LokTypes
  import opened LokSyntax
  import opened Scoping
  import opened Resolver

  type Forced = seq<(Type, Symbol)>
  type Overloads = seq<(string, Symbol)>

  /** Each forced constructor takes exactly the type it is filed under, and makes an object of its class. */
  predicate ForcedTakeTheirKey(forced: Forced) {
    forall entry <- forced ::
      entry.1.sort.Function? && entry.1.sort.input == [entry.0] && entry.1.sort.output.Single?
  }

  /** The types that forced constructors take can be told apart. */
  predicate PlainKeys(forced: Forced) {
    forall entry <- forced :: Known(entry.0) && FunctionFree(entry.0)
  }

  /** No overload declares more parameters than a binary operator has operands. */
  predicate AtMostBinary(overloads: Overloads) {
    forall entry <- overloads :: entry.1.sort.Function? ==> |entry.1.sort.input| <= 2
  }

  predicate KnownOverloads(overloads: Overloads) {
    forall entry <- overloads :: Known(entry.1.sort)
  }

  predicate SoundTables(ctx: Context) {
    ForcedTakeTheirKey(ctx.forced) && AtMostBinary(ctx.overloads)
  }

  // ----- Upgrades ---------------------------------------------------------------

  /** A constructor found for a type is filed under a type that the order does not tell apart from it. */
  lemma {:induction false} ForcedForIsEquivalent(forced: Forced, key: Type)
    ensures forall s <- ForcedFor(forced, key) :: exists entry <- forced :: entry.1 == s && Equivalent(entry.0, key)
    decreases forced
  {
    if forced != [] {
      assert forall entry <- forced[1..] :: entry in forced;
      ForcedForIsEquivalent(forced[1..], key);
      assert forced[0] in forced;
    }
  }

  lemma {:induction false} FirstReturningIsCandidate(candidates: seq<Symbol>, target: Type)
    ensures var r := FirstReturning(candidates, target);
            r.Success? && r.value.Some? ==>
              r.value.value in candidates && r.value.value.sort.Function?
              && r.value.value.sort.output == target && Known(target)
    decreases candidates
  {
    if candidates != [] && candidates[0].sort.Function? {
      EqualsMeaning(candidates[0].sort.output, target);
      FirstReturningIsCandidate(candidates[1..], target);
    }
  }

  /** The entry is found for a type and its constructor returns the target. */
  predicate Returns(entry: (Type, Symbol), t: Type, target: Type) {
    Equivalent(entry.0, t) && entry.1.sort.Function? && entry.1.sort.output == target
  }

  predicate FirstReturns(forced: Forced, t: Type, target: Type, i: int) {
    0 <= i < |forced| && Returns(forced[i], t, target) && forall k :: 0 <= k < i ==> !Returns(forced[k], t, target)
  }

  /** The entry of the table that an upgrade of a type to a target uses: the first that is found and returns the
      target, or if there is none, the only one that is found. */
  predicate Chosen(forced: Forced, t: Type, target: Type, i: int) {
    || FirstReturns(forced, t, target, i)
    || ((forall k :: 0 <= k < |forced| ==> !Returns(forced[k], t, target)) && OnlyEntry(forced, t, i))
  }

  predicate OnlyEntry(forced: Forced, t: Type, i: int) {
    && 0 <= i < |forced| && Equivalent(forced[i].0, t)
    && forall k :: 0 <= k < |forced| && k != i ==> !Equivalent(forced[k].0, t)
  }

  /** The constructor of an entry applied to an expression. */
  function UpgradeBy(entry: (Type, Symbol), e: Expr): Expr
    requires entry.1.sort.Function?
  {
    CallExpr(entry.1.sort.output, SymbolExpr(entry.1.sort, entry.1), [e])
  }

  /** An entry that does not return the target is passed over. */
  lemma PassedOver(forced: Forced, t: Type, target: Type)
    requires ForcedTakeTheirKey(forced) && forced != [] && !Returns(forced[0], t, target)
    ensures FirstReturning(ForcedFor(forced, t), target) == FirstReturning(ForcedFor(forced[1..], t), target)
  {
    var entry, rest := forced[0], ForcedFor(forced[1..], t);
    assert entry in forced;
    EqualsMeaning(entry.1.sort.output, target);
    assert [entry.1] + rest == ForcedFor(forced, t) || [] + rest == ForcedFor(forced, t);
    assert ([entry.1] + rest)[1..] == rest && [] + rest == rest;
  }

  lemma {:induction false} FirstReturningIs(forced: Forced, t: Type, target: Type, i: int)
    requires ForcedTakeTheirKey(forced) && FirstReturns(forced, t, target, i)
    ensures FirstReturning(ForcedFor(forced, t), target) == Success(Some(forced[i].1))
    decreases forced
  {
    if i == 0 {
      assert forced[0] in forced;
      EqualsMeaning(forced[0].1.sort.output, target);
    } else {
      PassedOver(forced, t, target);
      assert forall k :: 0 <= k < i - 1 ==> forced[1..][k] == forced[k + 1];
      FirstReturningIs(forced[1..], t, target, i - 1);
    }
  }

  lemma {:induction false} NoneReturns(forced: Forced, t: Type, target: Type)
    requires ForcedTakeTheirKey(forced) && forall k :: 0 <= k < |forced| ==> !Returns(forced[k], t, target)
    ensures FirstReturning(ForcedFor(forced, t), target) == Success(None)
    decreases forced
  {
    if forced != [] {
      PassedOver(forced, t, target);
      assert forall k :: 0 <= k < |forced| - 1 ==> forced[1..][k] == forced[k + 1];
      NoneReturns(forced[1..], t, target);
    }
  }

  /** The table finds no entry for a type, or a single one. */
  lemma {:induction false} NoneFound(forced: Forced, t: Type)
    ensures ForcedFor(forced, t) == [] <==> forall k :: 0 <= k < |forced| ==> !Equivalent(forced[k].0, t)
    decreases forced
  {
    if forced != [] {
      NoneFound(forced[1..], t);
      assert forall k :: 0 < k < |forced| ==> forced[k] == forced[1..][k - 1];
    }
  }

  lemma {:induction false} OneFound(forced: Forced, t: Type)
    ensures (exists i :: OnlyEntry(forced, t, i)) <==> |ForcedFor(forced, t)| == 1
    ensures forall i | OnlyEntry(forced, t, i) :: ForcedFor(forced, t) == [forced[i].1]
    decreases forced
  {
    if forced != [] {
      var rest := forced[1..];
      assert forall k :: 0 < k < |forced| ==> forced[k] == rest[k - 1];
      NoneFound(rest, t);
      OneFound(rest, t);
      if Equivalent(forced[0].0, t) {
        assert |ForcedFor(forced, t)| == 1 ==> OnlyEntry(forced, t, 0);
      } else {
        assert forall i | 0 <= i < |rest| :: OnlyEntry(rest, t, i) <==> OnlyEntry(forced, t, i + 1);
        assert forall i | OnlyEntry(forced, t, i) :: i > 0 && OnlyEntry(rest, t, i - 1);
      }
    }
  }

  /** An upgrade never fails: it is the expression itself if the table has no entry to use, and else a call of the
      entry's constructor, well typed exactly when the entry is filed under the type of the expression. */
  lemma UpgradeWellTypedIff(e: Expr, target: Type, ctx: Context)
    requires WellTyped(e, []) && ForcedTakeTheirKey(ctx.forced)
    ensures var r := ForceUpgrade(e, target, ctx);
            && r.Success?
            && ((forall i :: !Chosen(ctx.forced, e.sort, target, i)) ==> r.value == e)
            && forall i | Chosen(ctx.forced, e.sort, target, i) ::
                 var entry := ctx.forced[i];
                 && entry.1.sort.Function? && r.value == UpgradeBy(entry, e)
                 && (WellTyped(r.value, []) <==> entry.0 == e.sort)
  {
    UpgradeIsChosen(e, target, ctx);
    forall i | Chosen(ctx.forced, e.sort, target, i)
      ensures WellTyped(UpgradeBy(ctx.forced[i], e), []) <==> ctx.forced[i].0 == e.sort
    {
      assert ctx.forced[i] in ctx.forced;
      EntryCall(ctx.forced[i], e, []);
    }
  }

  /** The call of an entry's constructor. */
  lemma EntryCall(entry: (Type, Symbol), e: Expr, slack: Forced)
    requires WellTyped(e, slack) && entry.1.sort.Function? && entry.1.sort.input == [entry.0]
    ensures WellTyped(UpgradeBy(entry, e), []) ==> entry.0 == e.sort
    ensures entry.0 == e.sort || (entry in slack && Equivalent(entry.0, e.sort))
            ==> WellTyped(UpgradeBy(entry, e), slack)
  {
    assert TypesOf([e]) == [e.sort];
  }

  /** What an upgrade makes of any expression. */
  lemma UpgradeIsChosen(e: Expr, target: Type, ctx: Context)
    requires ForcedTakeTheirKey(ctx.forced)
    ensures var r := ForceUpgrade(e, target, ctx);
            && r.Success?
            && ((forall i :: !Chosen(ctx.forced, e.sort, target, i)) ==> r.value == e)
            && forall i | Chosen(ctx.forced, e.sort, target, i) ::
                 ctx.forced[i].1.sort.Function? && r.value == UpgradeBy(ctx.forced[i], e)
  {
    var forced, t := ctx.forced, e.sort;
    forall i | Chosen(forced, t, target, i)
      ensures forced[i].1.sort.Function? && ForceUpgrade(e, target, ctx) == Success(UpgradeBy(forced[i], e))
    {
      ChosenUpgrades(e, target, ctx, i);
    }
    if forall i :: !Chosen(forced, t, target, i) { NothingChosen(e, target, ctx); }
  }

  lemma ChosenUpgrades(e: Expr, target: Type, ctx: Context, i: int)
    requires ForcedTakeTheirKey(ctx.forced) && Chosen(ctx.forced, e.sort, target, i)
    ensures ctx.forced[i].1.sort.Function? && ForceUpgrade(e, target, ctx) == Success(UpgradeBy(ctx.forced[i], e))
  {
    assert ctx.forced[i] in ctx.forced;
    if FirstReturns(ctx.forced, e.sort, target, i) {
      FirstReturningIs(ctx.forced, e.sort, target, i);
    } else {
      NoneReturns(ctx.forced, e.sort, target);
      OneFound(ctx.forced, e.sort);
    }
  }

  lemma NothingChosen(e: Expr, target: Type, ctx: Context)
    requires ForcedTakeTheirKey(ctx.forced) && forall i :: !Chosen(ctx.forced, e.sort, target, i)
    ensures ForceUpgrade(e, target, ctx) == Success(e)
  {
    var forced, t := ctx.forced, e.sort;
    if k :| 0 <= k < |forced| && Returns(forced[k], t, target) {
      SomeReturns(forced, t, target, k);
      assert false;
    }
    forall i ensures !OnlyEntry(forced, t, i) { assert !Chosen(forced, t, target, i); }
    NoneReturns(forced, t, target);
    OneFound(forced, t);
  }

  lemma {:induction false} SomeReturns(forced: Forced, t: Type, target: Type, k: nat)
    requires k < |forced| && Returns(forced[k], t, target)
    ensures exists i :: Chosen(forced, t, target, i)
    decreases k
  {
    if j :| 0 <= j < k && Returns(forced[j], t, target) {
      SomeReturns(forced, t, target, j);
    } else {
      assert FirstReturns(forced, t, target, k) && Chosen(forced, t, target, k);
    }
  }

  /** When the keys can be told apart, an upgrade is well typed exactly when the type of its operand is known. */
  lemma UpgradeWellTypedIffKnown(e: Expr, target: Type, ctx: Context, i: nat)
    requires WellTyped(e, []) && ForcedTakeTheirKey(ctx.forced) && PlainKeys(ctx.forced)
    requires Chosen(ctx.forced, e.sort, target, i)
    ensures ForceUpgrade(e, target, ctx).Success?
    ensures WellTyped(ForceUpgrade(e, target, ctx).value, []) <==> Known(e.sort)
  {
    UpgradeWellTypedIff(e, target, ctx);
    assert ctx.forced[i] in ctx.forced;
    if Known(e.sort) { LessSeparates(ctx.forced[i].0, e.sort); }
  }

  // ----- The table as a multimap ---------------------------------------------------

  function Keys(forced: Forced): set<Type> {
    set entry <- forced :: entry.0
  }

  /** Neither of two entries stands before one that it follows. */
  predicate Sorted(forced: Forced) {
    forall i, j :: 0 <= i < j < |forced| ==> !Less(forced[j].0, forced[i].0)
  }

  /** What stands behind an entry of a sorted table stands no lower with respect to a type. */
  lemma NotLower(types: set<Type>, t: Type, first: Type, later: Type)
    requires Ordered(types) && {t, first, later} <= types && !Less(later, first)
    ensures Less(t, first) ==> Less(t, later) && !Less(later, t)
    ensures Equivalent(first, t) ==> !Less(later, t)
  {
    assert t in types && first in types && later in types;
    if !Less(first, later) {
      assert Equivalent(first, later) && Equivalent(later, first);
      assert Equivalent(t, later) ==> Equivalent(t, first);
    }
  }

  lemma FiledFirst(forced: Forced, entry: (Type, Symbol))
    requires forced != [] && Sorted(forced) && Ordered(Keys(forced) + {entry.0}) && Less(entry.0, forced[0].0)
    ensures Sorted([entry] + forced)
  {
    forall j | 0 <= j < |forced| ensures !Less(forced[j].0, entry.0) {
      assert forced[0] in forced && forced[j] in forced;
      NotLower(Keys(forced) + {entry.0}, entry.0, forced[0].0, forced[j].0);
    }
  }

  lemma FiledLater(first: (Type, Symbol), filed: Forced)
    requires Sorted(filed) && forall e <- filed :: !Less(e.0, first.0)
    ensures Sorted([first] + filed)
  {
  }

  /** On keys in order, a new entry keeps the table sorted. */
  lemma {:induction false} FiledSorted(forced: Forced, entry: (Type, Symbol))
    requires Sorted(forced) && Ordered(Keys(forced) + {entry.0})
    ensures Sorted(FileForced(forced, entry))
    decreases forced
  {
    if forced != [] {
      var first, rest := forced[0], forced[1..];
      assert Keys(rest) <= Keys(forced) by { assert forall e <- rest :: e in forced; }
      if Less(entry.0, first.0) {
        FiledFirst(forced, entry);
      } else {
        FiledSorted(rest, entry);
        forall e <- rest ensures !Less(e.0, first.0) {
          var k :| 0 <= k < |rest| && rest[k] == e;
          assert forced[k + 1] == e;
        }
        FiledLater(first, FileForced(rest, entry));
      }
    } else {
      assert |FileForced(forced, entry)| == 1;
    }
  }

  /** lower_bound and upper_bound of a type: the entries before precede it, those after follow it. */
  predicate Bounds(forced: Forced, t: Type, lo: nat, hi: nat) {
    && lo <= hi <= |forced|
    && (forall k :: 0 <= k < lo ==> Less(forced[k].0, t))
    && (forall k :: lo <= k < hi ==> Equivalent(forced[k].0, t))
    && (forall k :: hi <= k < |forced| ==> Less(t, forced[k].0))
  }

  function Symbols(entries: Forced): seq<Symbol> {
    if entries == [] then [] else [entries[0].1] + Symbols(entries[1..])
  }

  lemma {:induction false} ForcedForAfter(forced: Forced, t: Type)
    requires forall k :: 0 <= k < |forced| ==> !Equivalent(forced[k].0, t)
    ensures ForcedFor(forced, t) == []
    decreases forced
  {
    if forced != [] {
      assert forall k :: 0 <= k < |forced| - 1 ==> forced[1..][k] == forced[k + 1];
      ForcedForAfter(forced[1..], t);
    }
  }

  lemma FoundStep(forced: Forced, t: Type)
    requires forced != []
    ensures var rest := ForcedFor(forced[1..], t);
            ForcedFor(forced, t) == if Equivalent(forced[0].0, t) then [forced[0].1] + rest else rest
  {
    assert [] + ForcedFor(forced[1..], t) == ForcedFor(forced[1..], t);
  }

  lemma FoundCons(first: (Type, Symbol), rest: Forced, t: Type)
    ensures ForcedFor([first] + rest, t) ==
            (if Equivalent(first.0, t) then [first.1] else []) + ForcedFor(rest, t)
  {
    assert ([first] + rest)[1..] == rest;
  }

  lemma FileBehind(first: (Type, Symbol), rest: Forced, entry: (Type, Symbol))
    requires !Less(entry.0, first.0)
    ensures FileForced([first] + rest, entry) == [first] + FileForced(rest, entry)
  {
    assert ([first] + rest)[1..] == rest;
  }

  lemma FoundBehind(first: (Type, Symbol), rest: Forced, filed: Forced, t: Type, found: seq<Symbol>)
    requires ForcedFor(filed, t) == ForcedFor(rest, t) + found
    ensures ForcedFor([first] + filed, t) == ForcedFor([first] + rest, t) + found
  {
    FoundCons(first, rest, t);
    FoundCons(first, filed, t);
  }

  lemma OrderedSome(types: set<Type>, more: set<Type>)
    requires Ordered(more) && types <= more
    ensures Ordered(types)
  {
    forall a, b, c | a in types && b in types && c in types
      ensures a in more && b in more && c in more
    {
    }
  }

  /** What is filed last among the constructors of a type is found last: they stand in the order of registration. */
  lemma {:induction false} FiledLast(forced: Forced, entry: (Type, Symbol), t: Type)
    requires Sorted(forced) && Ordered(Keys(forced) + {entry.0, t})
    ensures ForcedFor(FileForced(forced, entry), t)
            == ForcedFor(forced, t) + (if Equivalent(entry.0, t) then [entry.1] else [])
    decreases forced
  {
    FoundCons(entry, forced, t);
    if forced != [] {
      var rest := forced[1..];
      assert forced == [forced[0]] + rest;
      if !Less(entry.0, forced[0].0) {
        assert Keys(rest) <= Keys(forced) by { assert forall e <- rest :: e in forced; }
        OrderedSome(Keys(rest) + {entry.0, t}, Keys(forced) + {entry.0, t});
        FiledLast(rest, entry, t);
        FileBehind(forced[0], rest, entry);
        FoundBehind(forced[0], rest, FileForced(rest, entry), t, if Equivalent(entry.0, t) then [entry.1] else []);
      } else if Equivalent(entry.0, t) {
        BehindGreater(forced, entry.0, t);
      }
    }
  }

  lemma BehindGreater(forced: Forced, key: Type, t: Type)
    requires forced != [] && Sorted(forced) && Ordered(Keys(forced) + {key, t})
    requires Less(key, forced[0].0) && Equivalent(key, t)
    ensures ForcedFor(forced, t) == []
  {
    forall k | 0 <= k < |forced| ensures !Equivalent(forced[k].0, t) {
      assert forced[0] in forced && forced[k] in forced;
      NotLower(Keys(forced) + {key, t}, key, forced[0].0, forced[k].0);
      assert key in Keys(forced) + {key, t} && t in Keys(forced) + {key, t};
    }
    ForcedForAfter(forced, t);
  }

  /** The bounds in a table, from those in its tail. */
  function BoundsFrom(first: Type, t: Type, rest: (nat, nat)): (nat, nat) {
    if Less(t, first) then (0, 0)
    else if Less(first, t) then (rest.0 + 1, rest.1 + 1)
    else (0, rest.1 + 1)
  }

  lemma BoundsExtend(forced: Forced, t: Type, rest: (nat, nat))
    requires forced != [] && Sorted(forced) && Ordered(Keys(forced) + {t}) && Bounds(forced[1..], t, rest.0, rest.1)
    ensures var b := BoundsFrom(forced[0].0, t, rest);
            Bounds(forced, t, b.0, b.1)
  {
    var first := forced[0].0;
    forall k | 0 <= k < |forced|
      ensures k > 0 ==> forced[k] == forced[1..][k - 1] && (Less(t, first) ==> Less(t, forced[k].0))
                        && (Equivalent(first, t) ==> !Less(forced[k].0, t))
    {
      assert forced[0] in forced && forced[k] in forced;
      if k > 0 { NotLower(Keys(forced) + {t}, t, first, forced[k].0); }
    }
    assert forall k :: 0 <= k < |forced| - 1 ==> forced[1..][k] == forced[k + 1];
  }

  lemma {:induction false} BoundsExist(forced: Forced, t: Type) returns (lo: nat, hi: nat)
    requires Sorted(forced) && Ordered(Keys(forced) + {t})
    ensures Bounds(forced, t, lo, hi)
    decreases forced
  {
    lo, hi := 0, 0;
    if forced != [] {
      var rest := forced[1..];
      assert forall e <- rest :: e in forced;
      assert Keys(rest) <= Keys(forced);
      var l, h := BoundsExist(rest, t);
      BoundsExtend(forced, t, (l, h));
      var b := BoundsFrom(forced[0].0, t, (l, h));
      lo, hi := b.0, b.1;
    }
  }

  lemma SymbolsFirst(forced: Forced, hi: nat)
    requires 0 < hi <= |forced|
    ensures Symbols(forced[0..hi]) == [forced[0].1] + Symbols(forced[1..][0..hi - 1])
  {
    assert forced[0..hi][1..] == forced[1..][0..hi - 1];
  }

  lemma FoundSkip(forced: Forced, t: Type, lo: nat, hi: nat)
    requires 0 < lo <= hi <= |forced| && Less(forced[0].0, t)
    requires ForcedFor(forced[1..], t) == Symbols(forced[1..][lo - 1..hi - 1])
    ensures ForcedFor(forced, t) == Symbols(forced[lo..hi])
  {
    FoundStep(forced, t);
    assert forced[lo..hi] == forced[1..][lo - 1..hi - 1];
  }

  lemma FoundTake(forced: Forced, t: Type, hi: nat)
    requires 0 < hi <= |forced| && Equivalent(forced[0].0, t)
    requires ForcedFor(forced[1..], t) == Symbols(forced[1..][0..hi - 1])
    ensures ForcedFor(forced, t) == Symbols(forced[0..hi])
  {
    FoundStep(forced, t);
    SymbolsFirst(forced, hi);
  }

  lemma BoundsShrink(forced: Forced, t: Type, lo: nat, hi: nat)
    requires Bounds(forced, t, lo, hi) && hi > 0
    ensures Bounds(forced[1..], t, if lo > 0 then lo - 1 else 0, hi - 1)
  {
    assert forall k :: 0 <= k < |forced| - 1 ==> forced[1..][k] == forced[k + 1];
  }

  lemma {:induction false} FoundBetween(forced: Forced, t: Type, lo: nat, hi: nat)
    requires Bounds(forced, t, lo, hi)
    ensures ForcedFor(forced, t) == Symbols(forced[lo..hi])
    decreases forced
  {
    if hi == 0 {
      ForcedForAfter(forced, t);
    } else {
      BoundsShrink(forced, t, lo, hi);
      if lo > 0 {
        FoundBetween(forced[1..], t, lo - 1, hi - 1);
        FoundSkip(forced, t, lo, hi);
      } else {
        FoundBetween(forced[1..], t, 0, hi - 1);
        FoundTake(forced, t, hi);
      }
    }
  }

  /** On keys and a type in order, what is found for the type is the one range between its bounds. */
  lemma EqualRange(forced: Forced, t: Type) returns (lo: nat, hi: nat)
    requires Sorted(forced) && Ordered(Keys(forced) + {t})
    ensures Bounds(forced, t, lo, hi) && ForcedFor(forced, t) == Symbols(forced[lo..hi])
  {
    lo, hi := BoundsExist(forced, t);
    FoundBetween(forced, t, lo, hi);
  }

  // ----- Calls ------------------------------------------------------------------

  lemma {:induction false} CoerceArgsExact(args: seq<Expr>, params: seq<Type>)
    ensures var r := CoerceArgs(args, params);
            r.Success? ==> |params| <= |args| && r.value == args[..|params|] && TypesOf(r.value) == params
    decreases params
  {
    var r := CoerceArgs(args, params);
    if params == [] {
      assert args[..0] == [];
    } else if r.Success? {
      EqualsMeaning(args[0].sort, params[0]);
      CoerceArgsExact(args[1..], params[1..]);
      assert args[..|params|] == [args[0]] + args[1..][..|params| - 1];
      assert TypesOf(r.value) == [params[0]] + params[1..];
    }
  }

  /** The overload compares equal to the operator and the operand types. */
  predicate Exact(entry: (string, Symbol), op: string, l: Type, r: Type) {
    && entry.0 == op
    && var t := entry.1.sort;
       t.Function? && |t.input| >= 2 && t.input[..2] == [l, r]
  }

  /** The entry of the table that an operator resolves to, if it does. */
  predicate FirstExact(overloads: Overloads, op: string, l: Type, r: Type, i: nat) {
    i < |overloads| && Exact(overloads[i], op, l, r) && forall k :: 0 <= k < i ==> !Exact(overloads[k], op, l, r)
  }

  /** Overload resolution returns a call of the first exact match, on the operands as given. */
  lemma {:induction false} GetOverloadExact(l: Expr, r: Expr, op: string, overloads: Overloads) returns (i: nat)
    requires GetOverload(l, r, op, overloads).Success?
    ensures FirstExact(overloads, op, l.sort, r.sort, i)
    ensures var s := overloads[i].1;
            GetOverload(l, r, op, overloads).value == CallExpr(s.sort.output, SymbolExpr(s.sort, s), [l, r])
    decreases overloads
  {
    i := 0;
    var t := overloads[0].1.sort;
    if overloads[0].0 == op {
      EqualsMeaning(t.input[0], l.sort);
      EqualsMeaning(t.input[1], r.sort);
      assert t.input[..2] == [t.input[0], t.input[1]];
    }
    if !Exact(overloads[0], op, l.sort, r.sort) {
      i := GetOverloadExact(l, r, op, overloads[1..]);
      assert overloads[1..][i] == overloads[i + 1];
      i := i + 1;
    }
  }

  /** A resolved operator call is well typed exactly when the first overload that matches has two parameters:
      the compiler compares only the first two. */
  lemma OverloadWellTypedIff(l: Expr, r: Expr, op: string, overloads: Overloads, i: nat)
    requires WellTyped(l, []) && WellTyped(r, []) && GetOverload(l, r, op, overloads).Success?
    requires FirstExact(overloads, op, l.sort, r.sort, i)
    ensures WellTyped(GetOverload(l, r, op, overloads).value, []) <==> |overloads[i].1.sort.input| == 2
  {
    var j := GetOverloadExact(l, r, op, overloads);
    assert i == j by {
      assert !(i < j) && !(j < i);
    }
    assert TypesOf([l, r]) == [l.sort, r.sort];
    var input := overloads[i].1.sort.input;
    assert |input| == 2 ==> input == input[..2];
  }

  // ----- Everything the elaborator returns ------------------------------------------

  /** Every declaration has a type or a value, and every function and function type a result. */
  predicate FullyTyped(n: Node)
    decreases n, 0
  {
    && (n.kind == FUNCDEF ==> |n.children| > 2)
    && (n.kind == TYPEFN ==> |n.children| > 1)
    && (n.kind == DECL && n.children != [] ==> n.children[0].kind != ATTRS)
    && AllFullyTyped(n.children)
  }

  predicate AllFullyTyped(nodes: seq<Node>)
    decreases nodes, 1
  {
    forall n <- nodes :: FullyTyped(n)
  }

  lemma ChildrenTyped(n: Node)
    requires FullyTyped(n)
    ensures forall i :: 0 <= i < |n.children| ==> FullyTyped(n.children[i])
  {
    forall i | 0 <= i < |n.children| ensures FullyTyped(n.children[i]) {
      assert n.children[i] in n.children;
    }
  }

  lemma {:induction false} TypesKnown(n: Node, ns: Path)
    requires FullyTyped(n) && MakeType(n, ns).Success?
    ensures Known(MakeType(n, ns).value)
    decreases n
  {
    match n.kind
    case TYPEMULTI => AllTypesKnown(n.children, ns);
    case TYPEFN =>
      ChildrenTyped(n);
      AllTypesKnown(n.children[0].children, ns);
      TypesKnown(n.children[1], ns);
    case _ =>
  }

  lemma {:induction false} AllTypesKnown(nodes: seq<Node>, ns: Path)
    requires AllFullyTyped(nodes) && MakeTypes(nodes, ns).Success?
    ensures forall t <- MakeTypes(nodes, ns).value :: Known(t)
    decreases nodes
  {
    if nodes != [] {
      TypesKnown(nodes[0], ns);
      AllTypesKnown(nodes[1..], ns);
    }
  }

  predicate KnownNames(b: Bindings, names: set<Path>) {
    forall id <- names :: id in b ==> Known(b[id].sort)
  }

  /** The bindings of some names have known types, wherever a lookup may find them. */
  predicate KnownIn(env: Env, ctx: Context, names: set<Path>) {
    && KnownNames(Visible(env), names) && KnownNames(ctx.symbols, names)
    && forall e <- ctx.external :: KnownNames(e.1, names)
  }

  /** The premise under which no upgrade needs slack: keys that can be told apart, and operands of known type. */
  predicate AllKnown(env: Env, ctx: Context, names: set<Path>) {
    PlainKeys(ctx.forced) && KnownOverloads(ctx.overloads) && KnownIn(env, ctx, names)
  }

  /** Either upgrades are given slack, or everything is known. */
  predicate Fair(slack: Forced, env: Env, ctx: Context, names: set<Path>) {
    SoundTables(ctx) && (slack == ctx.forced || (slack == [] && AllKnown(env, ctx, names)))
  }

  /** A tree that mentions no other names and, without slack, is fully typed. */
  predicate Suits(slack: Forced, ctx: Context, n: Node, names: set<Path>) {
    slack == ctx.forced || (FullyTyped(n) && Mentions(n) <= names)
  }

  predicate AllSuit(slack: Forced, ctx: Context, nodes: seq<Node>, names: set<Path>) {
    forall i :: 0 <= i < |nodes| ==> Suits(slack, ctx, nodes[i], names)
  }

  /** Where elaboration goes on with the children of a node. */
  predicate Descends(k: Kind) {
    k in {ARGLIST, EXPRBASIC, BLOCK, STMTWHILE, STMTDOWHILE, STMTRTN, STMTIF}
  }

  lemma ChildrenSuit(slack: Forced, ctx: Context, n: Node, names: set<Path>)
    requires Descends(n.kind) && Suits(slack, ctx, n, names)
    ensures AllSuit(slack, ctx, n.children, names)
  {
    if slack != ctx.forced {
      ChildrenTyped(n);
      forall i | 0 <= i < |n.children| ensures Mentions(n.children[i]) <= names {
        assert n.children[i] in n.children;
      }
    }
  }

  lemma LoopSuits(slack: Forced, ctx: Context, n: Node, names: set<Path>)
    requires (n.kind == STMTFOR || n.kind == STMTDOFOR) && n.children != [] && Suits(slack, ctx, n, names)
    ensures AllSuit(slack, ctx, n.children[0].children, names) && AllSuit(slack, ctx, n.children[1..], names)
    ensures forall i :: 0 < i < |n.children| ==> Suits(slack, ctx, n.children[i], names)
  {
    if slack != ctx.forced {
      ChildrenTyped(n);
      var header := n.children[0].children;
      ChildrenTyped(n.children[0]);
      forall i | 0 <= i < |header| ensures Mentions(header[i]) <= names { assert header[i] in header; }
      forall i | 0 < i < |n.children| ensures Mentions(n.children[i]) <= names {
        assert n.children[i] in n.children[1..];
      }
    }
  }

  /** What is promised of an expression: it is well typed, and without slack its type is known. */
  predicate Fine(slack: Forced, ctx: Context, e: Expr) {
    WellTyped(e, slack) && (slack == ctx.forced || Known(e.sort))
  }

  predicate FineIfAny(slack: Forced, ctx: Context, e: Option<Expr>) {
    e.Some? ==> Fine(slack, ctx, e.value)
  }

  predicate WellTypedIfAny(s: Option<Stmt>, slack: Forced) {
    s.Some? ==> WellTypedStmt(s.value, slack)
  }

  lemma UpgradeFine(slack: Forced, e: Expr, target: Type, env: Env, ctx: Context, names: set<Path>)
    requires Fair(slack, env, ctx, names) && Fine(slack, ctx, e)
    ensures var r := ForceUpgrade(e, target, ctx); r.Success? ==> Fine(slack, ctx, r.value)
  {
    UpgradeIsChosen(e, target, ctx);
    if i :| Chosen(ctx.forced, e.sort, target, i) {
      var entry := ctx.forced[i];
      assert entry in ctx.forced;
      if slack != ctx.forced { LessSeparates(entry.0, e.sort); }
      EntryCall(entry, e, slack);
    }
  }

  lemma ApplyFine(slack: Forced, l: Expr, r: Expr, op: string, env: Env, ctx: Context, names: set<Path>)
    requires Fair(slack, env, ctx, names) && Fine(slack, ctx, l) && Fine(slack, ctx, r)
    ensures var e := Apply(l, r, op, ctx); e.Success? ==> e.value.Some? && Fine(slack, ctx, e.value.value)
  {
    if Apply(l, r, op, ctx).Success? {
      if l.sort.Function? && op == "()" {
        CoerceArgsExact(r.exprs, l.sort.input);
      } else {
        UpgradeFine(slack, r, Unknown, env, ctx, names);
        OverloadFine(slack, l, ForceUpgrade(r, Unknown, ctx).value, op, env, ctx, names);
      }
    }
  }

  lemma OverloadFine(slack: Forced, l: Expr, r: Expr, op: string, env: Env, ctx: Context, names: set<Path>)
    requires Fair(slack, env, ctx, names) && Fine(slack, ctx, l) && Fine(slack, ctx, r)
    ensures var e := GetOverload(l, r, op, ctx.overloads); e.Success? ==> Fine(slack, ctx, e.value)
  {
    if GetOverload(l, r, op, ctx.overloads).Success? {
      var i := GetOverloadExact(l, r, op, ctx.overloads);
      assert ctx.overloads[i] in ctx.overloads;
      var input := ctx.overloads[i].1.sort.input;
      assert TypesOf([l, r]) == [l.sort, r.sort] && input == input[..2];
    }
  }

  lemma MakeArgsFine(slack: Forced, es: seq<Option<Expr>>, ctx: Context)
    requires forall e <- es :: FineIfAny(slack, ctx, e)
    ensures MakeArgs(es).Success? ==> Fine(slack, ctx, MakeArgs(es).value)
  {
    if MakeArgs(es).Success? {
      var exprs := MakeArgs(es).value.exprs;
      forall i | 0 <= i < |exprs| ensures Fine(slack, ctx, exprs[i]) {
        assert es[i] in es;
      }
    }
  }

  lemma {:induction false} ElabExprFine(slack: Forced, n: Node, env: Env, ctx: Context, names: set<Path>)
    requires Fair(slack, env, ctx, names) && Suits(slack, ctx, n, names)
    ensures var r := ElabExpr(n, env, ctx); r.Success? ==> FineIfAny(slack, ctx, r.value)
    decreases n, 1
  {
    match n.kind
    case ARGLIST => ElabArgsFine(slack, n, env, ctx, names);
    case FUNCDEF => ElabFunctionFine(slack, n, env, ctx, names);
    case EXPRBASIC => ElabOperatorFine(slack, n, env, ctx, names);
    case FQUALPATH => ElabReferenceFine(slack, n, env, ctx, names);
    case _ =>
  }

  lemma {:induction false} ElabArgsFine(slack: Forced, n: Node, env: Env, ctx: Context, names: set<Path>)
    requires n.kind == ARGLIST && Fair(slack, env, ctx, names) && Suits(slack, ctx, n, names)
    ensures var r := ElabExpr(n, env, ctx); r.Success? ==> FineIfAny(slack, ctx, r.value)
    decreases n, 0
  {
    ChildrenSuit(slack, ctx, n, names);
    ElabExprsFine(slack, n.children, env, ctx, names);
    if ElabExprs(n.children, env, ctx).Success? { MakeArgsFine(slack, ElabExprs(n.children, env, ctx).value, ctx); }
  }

  lemma ReferenceLooksUp(n: Node, env: Env, ctx: Context) returns (id: Path, s: Symbol)
    requires Reference(n, env, ctx).Success?
    ensures n.children != [] && id == Chain(n.children[0]) && Lookup(id, env, ctx) == Success(s)
    ensures Reference(n, env, ctx).value == Some(SymbolExpr(s.sort, s))
  {
    id := Chain(n.children[0]);
    assert [] + id == id;
    s := Lookup(id, env, ctx).value;
  }

  lemma ElabReferenceFine(slack: Forced, n: Node, env: Env, ctx: Context, names: set<Path>)
    requires n.kind == FQUALPATH && Fair(slack, env, ctx, names) && Suits(slack, ctx, n, names)
    ensures var r := Reference(n, env, ctx); r.Success? ==> FineIfAny(slack, ctx, r.value)
  {
    if Reference(n, env, ctx).Success? {
      var id, s := ReferenceLooksUp(n, env, ctx);
      PathSuits(slack, ctx, n, names);
      ReferenceFine(slack, id, s, env, ctx, names);
    }
  }

  lemma PathSuits(slack: Forced, ctx: Context, n: Node, names: set<Path>)
    requires n.kind == FQUALPATH && n.children != [] && Suits(slack, ctx, n, names)
    ensures slack == ctx.forced || Chain(n.children[0]) in names
  {
    assert Chain(n.children[0]) in Mentions(n);
  }

  lemma ReferenceFine(slack: Forced, id: Path, s: Symbol, env: Env, ctx: Context, names: set<Path>)
    requires Fair(slack, env, ctx, names) && (slack == ctx.forced || id in names) && Lookup(id, env, ctx) == Success(s)
    ensures Fine(slack, ctx, SymbolExpr(s.sort, s))
  {
    if slack != ctx.forced { LookupKnown(id, env, ctx, names); }
  }

  lemma LookupKnown(id: Path, env: Env, ctx: Context, names: set<Path>)
    requires id in names && KnownIn(env, ctx, names) && Lookup(id, env, ctx).Success?
    ensures Known(Lookup(id, env, ctx).value.sort)
  {
    FoundExternal(ctx.external, id);
  }

  lemma {:induction false} FoundExternal(external: seq<(string, Bindings)>, id: Path)
    ensures FindExternal(external, id).Some?
            ==> exists e <- external :: id in e.1 && FindExternal(external, id).value == e.1[id]
    decreases external
  {
    if external != [] {
      assert external[0] in external && forall e <- external[1..] :: e in external;
      FoundExternal(external[1..], id);
    }
  }

  lemma {:induction false} ElabOperatorFine(slack: Forced, n: Node, env: Env, ctx: Context, names: set<Path>)
    requires n.kind == EXPRBASIC && Fair(slack, env, ctx, names) && Suits(slack, ctx, n, names)
    ensures var r := ElabOperator(n, env, ctx); r.Success? ==> FineIfAny(slack, ctx, r.value)
    decreases n, 0
  {
    ChildrenSuit(slack, ctx, n, names);
    if |n.children| > 1 && ElabOperator(n, env, ctx).Success? {
      ElabExprFine(slack, n.children[0], env, ctx, names);
      ElabExprFine(slack, n.children[1], env, ctx, names);
      var left := ElabExpr(n.children[0], env, ctx).value.value;
      UpgradeFine(slack, left, Unknown, env, ctx, names);
      ApplyFine(slack, ForceUpgrade(left, Unknown, ctx).value, ElabExpr(n.children[1], env, ctx).value.value, n.text,
                env, ctx, names);
    }
  }

  lemma {:induction false} ElabExprsFine(slack: Forced, nodes: seq<Node>, env: Env, ctx: Context, names: set<Path>)
    requires Fair(slack, env, ctx, names) && AllSuit(slack, ctx, nodes, names)
    ensures var r := ElabExprs(nodes, env, ctx); r.Success? ==> forall e <- r.value :: FineIfAny(slack, ctx, e)
    decreases nodes, 0
  {
    if nodes != [] && ElabExprs(nodes, env, ctx).Success? {
      ElabExprFine(slack, nodes[0], env, ctx, names);
      ElabExprsFine(slack, nodes[1..], env, ctx, names);
    }
  }

  // ----- Functions ------------------------------------------------------------------

  lemma {:induction false} ParamsKnown(params: seq<Node>, ns: Path, names: set<Path>)
    requires AllFullyTyped(params) && ParamSymbols(params, ns).Success?
    ensures forall s <- ParamSymbols(params, ns).value :: Known(s.sort)
    ensures ParamTypes(params, ns).Success? && forall t <- ParamTypes(params, ns).value :: Known(t)
    decreases params
  {
    if params != [] {
      assert params[0] in params;
      ChildrenTyped(params[0]);
      TypesKnown(params[0].children[0], ns);
      ParamsKnown(params[1..], ns, names);
    }
  }

  lemma {:induction false} BindAllKnown(here: Bindings, frame: Frame, names: set<Path>)
    requires KnownNames(here, names) && forall s <- frame :: Known(s.sort)
    ensures KnownNames(BindAll(here, frame), names)
    decreases frame
  {
    if frame != [] { BindAllKnown(Bind(here, frame[0]), frame[1..], names); }
  }

  /** The scope of a function's body. */
  lemma ParamsFair(slack: Forced, n: Node, env: Env, ctx: Context, names: set<Path>)
    requires Fair(slack, env, ctx, names) && |n.children| >= 2 && ParamSymbols(n.children[1].children, ctx.ns).Success?
    requires slack == ctx.forced || FullyTyped(n.children[1])
    ensures Fair(slack, Scope(Visible(env), BindAll(map[], ParamSymbols(n.children[1].children, ctx.ns).value)), ctx,
                 names)
  {
    if slack != ctx.forced {
      ParamsKnown(n.children[1].children, ctx.ns, names);
      BindAllKnown(map[], ParamSymbols(n.children[1].children, ctx.ns).value, names);
    }
  }

  /** A function definition whose parameters and body are fully typed is well typed, with or without a result. */
  lemma {:induction false} ElabFunctionWellTyped(slack: Forced, n: Node, env: Env, ctx: Context, names: set<Path>)
    requires n.kind == FUNCDEF && Fair(slack, env, ctx, names)
    requires slack == ctx.forced || (n.children != [] ==> Suits(slack, ctx, n.children[0], names))
    requires slack == ctx.forced || (|n.children| > 1 ==> FullyTyped(n.children[1]))
    ensures var r := ElabFunction(n, env, ctx); r.Success? ==> r.value.Some? && WellTyped(r.value.value, slack)
    decreases n, 0, 0
  {
    if ElabFunction(n, env, ctx).Success? {
      ParamsFair(slack, n, env, ctx, names);
      var params := ParamSymbols(n.children[1].children, ctx.ns).value;
      ElabStmtFine(slack, n.children[0], Scope(Visible(env), BindAll(map[], params)), ctx, names);
    }
  }

  lemma {:induction false} ElabFunctionFine(slack: Forced, n: Node, env: Env, ctx: Context, names: set<Path>)
    requires n.kind == FUNCDEF && Fair(slack, env, ctx, names) && Suits(slack, ctx, n, names)
    ensures var r := ElabFunction(n, env, ctx); r.Success? ==> FineIfAny(slack, ctx, r.value)
    decreases n, 0, 1
  {
    if ElabFunction(n, env, ctx).Success? {
      if slack != ctx.forced {
        ChildrenTyped(n);
        ParamsKnown(n.children[1].children, ctx.ns, names);
        TypesKnown(n.children[2], ctx.ns);
      }
      ElabFunctionWellTyped(slack, n, env, ctx, names);
    }
  }

  // ----- Statements -----------------------------------------------------------------

  /** What is promised of a statement: it is well typed, and the scope it leaves is fair. */
  predicate StmtFine(slack: Forced, ctx: Context, names: set<Path>, r: (Option<Stmt>, Env)) {
    WellTypedIfAny(r.0, slack) && Fair(slack, r.1, ctx, names)
  }

  lemma EnterFair(slack: Forced, env: Env, ctx: Context, names: set<Path>)
    requires Fair(slack, env, ctx, names)
    ensures Fair(slack, Enter(env), ctx, names)
  {
  }

  lemma {:induction false} ElabStmtFine(slack: Forced, n: Node, env: Env, ctx: Context, names: set<Path>)
    requires Fair(slack, env, ctx, names) && Suits(slack, ctx, n, names)
    ensures var r := ElabStmt(n, env, ctx); r.Success? ==> StmtFine(slack, ctx, names, r.value)
    decreases n, 2
  {
    if IsExprStmt(n.kind) {
      ElabExprFine(slack, n, env, ctx, names);
    } else if IsLoop(n.kind) {
      ElabLoopFine(slack, n, env, ctx, names);
    } else {
      ElabPlainFine(slack, n, env, ctx, names);
    }
  }

  lemma {:induction false} ElabPlainFine(slack: Forced, n: Node, env: Env, ctx: Context, names: set<Path>)
    requires !IsExprStmt(n.kind) && !IsLoop(n.kind) && Fair(slack, env, ctx, names) && Suits(slack, ctx, n, names)
    ensures var r := ElabStmt(n, env, ctx); r.Success? ==> StmtFine(slack, ctx, names, r.value)
    decreases n, 1, 1
  {
    if n.kind == DECL {
      ElabDeclFine(slack, n, env, ctx, names);
    } else if n.kind == BLOCK {
      ElabBlockFine(slack, n, env, ctx, names);
    } else if n.kind == STMTRTN {
      ChildrenSuit(slack, ctx, n, names);
      if n.children != [] { ElabExprFine(slack, n.children[0], env, ctx, names); }
    } else if n.kind == STMTIF {
      ElabIfFine(slack, n, env, ctx, names);
    }
  }

  lemma {:induction false} ElabLoopFine(slack: Forced, n: Node, env: Env, ctx: Context, names: set<Path>)
    requires IsLoop(n.kind) && Fair(slack, env, ctx, names) && Suits(slack, ctx, n, names)
    ensures var r := ElabLoop(n, env, ctx); r.Success? ==> StmtFine(slack, ctx, names, r.value)
    decreases n, 1, 1
  {
    if n.kind == STMTDOFOR {
      ElabDoForFine(slack, n, env, ctx, names);
    } else if n.kind == STMTFOR {
      ElabForFine(slack, n, env, ctx, names);
    } else {
      ElabWhileFine(slack, n, env, ctx, names);
    }
  }

  lemma {:induction false} ElabBlockFine(slack: Forced, n: Node, env: Env, ctx: Context, names: set<Path>)
    requires n.kind == BLOCK && Fair(slack, env, ctx, names) && Suits(slack, ctx, n, names)
    ensures var r := ElabStmt(n, env, ctx); r.Success? ==> StmtFine(slack, ctx, names, r.value)
    decreases n, 1, 0
  {
    ChildrenSuit(slack, ctx, n, names);
    EnterFair(slack, env, ctx, names);
    ElabStmtsFine(slack, n.children, Enter(env), ctx, names);
  }

  lemma {:induction false} ElabDeclFine(slack: Forced, n: Node, env: Env, ctx: Context, names: set<Path>)
    requires n.kind == DECL && Fair(slack, env, ctx, names) && Suits(slack, ctx, n, names)
    ensures var r := ElabDecl(n, env, ctx); r.Success? ==> StmtFine(slack, ctx, names, r.value)
    decreases n, 1, 0
  {
    if ElabDecl(n, env, ctx).Success? && slack != ctx.forced {
      var sort := ElabDecl(n, env, ctx).value.0.value.sort;
      DeclaredKnown(slack, n, env, ctx, names);
      BindAllKnown(env.here, [Symbol(sort, [n.text], {})], names);
    }
  }

  lemma InitialisedKnown(slack: Forced, value: Option<Expr>, declared: Type, env: Env, ctx: Context, names: set<Path>)
    requires Fair(slack, env, ctx, names) && slack != ctx.forced && FineIfAny(slack, ctx, value)
    ensures var sort := Initialised(value, declared, ctx); sort.Success? ==> Known(sort.value)
  {
    if value.Some? { UpgradeFine(slack, value.value, declared, env, ctx, names); }
  }

  /** The type a declaration ends up with. */
  lemma {:induction false} DeclaredKnown(slack: Forced, n: Node, env: Env, ctx: Context, names: set<Path>)
    requires n.kind == DECL && Fair(slack, env, ctx, names) && slack != ctx.forced
    requires FullyTyped(n) && Mentions(n) <= names && ElabDecl(n, env, ctx).Success?
    ensures Known(ElabDecl(n, env, ctx).value.0.value.sort)
    decreases n, 0, 1
  {
    ChildrenTyped(n);
    var typed := IsTypeNode(n.children[0]);
    if typed { TypesKnown(n.children[0], ctx.ns); }
    var declared := if typed then MakeType(n.children[0], ctx.ns).value else Unknown;
    DeclaredSortKnown(slack, n, if typed then 1 else 0, declared, env, ctx, names);
  }

  lemma {:induction false} DeclaredSortKnown(
      slack: Forced, n: Node, at: nat, declared: Type, env: Env, ctx: Context, names: set<Path>)
    requires n.kind == DECL && Fair(slack, env, ctx, names) && slack != ctx.forced
    requires n.children != [] && FullyTyped(n) && Mentions(n) <= names
    requires if IsTypeNode(n.children[0]) then at == 1 && Known(declared) else at == 0
    ensures var sort := DeclaredSort(n, at, declared, env, ctx); sort.Success? ==> Known(sort.value)
    decreases n, 0, 0
  {
    if |n.children| > at && n.children[at].kind != ATTRS && ElabExpr(n.children[at], env, ctx).Success? {
      ChildrenTyped(n);
      if at == 1 { assert n.children[1] in n.children[1..]; }
      ElabExprFine(slack, n.children[at], env, ctx, names);
      InitialisedKnown(slack, ElabExpr(n.children[at], env, ctx).value, declared, env, ctx, names);
    }
  }

  lemma {:induction false} ElabWhileFine(slack: Forced, n: Node, env: Env, ctx: Context, names: set<Path>)
    requires n.kind == STMTWHILE || n.kind == STMTDOWHILE
    requires Fair(slack, env, ctx, names) && Suits(slack, ctx, n, names)
    ensures var r := ElabWhile(n, env, ctx); r.Success? ==> StmtFine(slack, ctx, names, r.value)
    decreases n, 0
  {
    ChildrenSuit(slack, ctx, n, names);
    if n.children != [] {
      ElabExprFine(slack, n.children[0], env, ctx, names);
      ElabStmtFine(slack, n.children[0], env, ctx, names);
    }
  }

  lemma LoopHasHeader(n: Node, at: nat, env: Env, ctx: Context)
    requires ElabLoopParts(n, at, env, ctx).Success?
    ensures n.children != []
  {
  }

  lemma {:induction false} ElabDoForFine(slack: Forced, n: Node, env: Env, ctx: Context, names: set<Path>)
    requires n.kind == STMTDOFOR && Fair(slack, env, ctx, names) && Suits(slack, ctx, n, names)
    ensures var r := ElabDoFor(n, env, ctx); r.Success? ==> StmtFine(slack, ctx, names, r.value)
    decreases n, 1, 0
  {
    EnterFair(slack, env, ctx, names);
    if ElabDoFor(n, env, ctx).Success? {
      LoopHasHeader(n, 0, ElabThird(n, Enter(env), ctx).value.1, ctx);
      LoopSuits(slack, ctx, n, names);
      ElabThirdFine(slack, n, Enter(env), ctx, names);
      ElabLoopPartsFine(slack, n, 0, ElabThird(n, Enter(env), ctx).value.1, ctx, names);
    }
  }

  lemma {:induction false} ElabThirdFine(slack: Forced, n: Node, env: Env, ctx: Context, names: set<Path>)
    requires Fair(slack, env, ctx, names) && (|n.children| > 2 ==> Suits(slack, ctx, n.children[2], names))
    ensures var r := ElabThird(n, env, ctx); r.Success? ==> StmtFine(slack, ctx, names, r.value)
    decreases n, 0
  {
    if |n.children| > 2 { ElabStmtFine(slack, n.children[2], env, ctx, names); }
  }

  lemma {:induction false} ElabForFine(slack: Forced, n: Node, env: Env, ctx: Context, names: set<Path>)
    requires n.kind == STMTFOR && Fair(slack, env, ctx, names) && Suits(slack, ctx, n, names)
    ensures var r := ElabFor(n, env, ctx); r.Success? ==> StmtFine(slack, ctx, names, r.value)
    decreases n, 1, 0
  {
    EnterFair(slack, env, ctx, names);
    if ElabFor(n, env, ctx).Success? {
      var start := n.children[0].children[0];
      LoopSuits(slack, ctx, n, names);
      ElabStmtFine(slack, start, Enter(env), ctx, names);
      ElabLoopPartsFine(slack, n, 1, ElabStmt(start, Enter(env), ctx).value.1, ctx, names);
    }
  }

  lemma {:induction false} ElabLoopPartsFine(slack: Forced, n: Node, at: nat, env: Env, ctx: Context, names: set<Path>)
    requires n.kind == STMTFOR || n.kind == STMTDOFOR
    requires Fair(slack, env, ctx, names) && Suits(slack, ctx, n, names)
    ensures var r := ElabLoopParts(n, at, env, ctx);
            r.Success? ==>
              && FineIfAny(slack, ctx, r.value.0) && FineIfAny(slack, ctx, r.value.1)
              && WellTypedIfAny(r.value.2, slack)
    decreases n, 0
  {
    if ElabLoopParts(n, at, env, ctx).Success? {
      var header := n.children[0];
      LoopSuits(slack, ctx, n, names);
      ElabExprFine(slack, header.children[at], env, ctx, names);
      ElabExprFine(slack, header.children[at + 1], env, ctx, names);
      ElabStmtFine(slack, n.children[1], env, ctx, names);
    }
  }

  lemma {:induction false} ElabIfFine(slack: Forced, n: Node, env: Env, ctx: Context, names: set<Path>)
    requires n.kind == STMTIF && Fair(slack, env, ctx, names) && Suits(slack, ctx, n, names)
    ensures var r := ElabIf(n, env, ctx); r.Success? ==> StmtFine(slack, ctx, names, r.value)
    decreases n, 1, 0
  {
    ChildrenSuit(slack, ctx, n, names);
    if ElabIf(n, env, ctx).Success? {
      ElabExprFine(slack, n.children[0], env, ctx, names);
      ElabStmtFine(slack, n.children[1], env, ctx, names);
      ElabThirdFine(slack, n, ElabStmt(n.children[1], env, ctx).value.1, ctx, names);
    }
  }

  lemma {:induction false} ElabStmtsFine(slack: Forced, nodes: seq<Node>, env: Env, ctx: Context, names: set<Path>)
    requires Fair(slack, env, ctx, names) && AllSuit(slack, ctx, nodes, names)
    ensures var r := ElabStmts(nodes, env, ctx);
            r.Success? ==> (forall s <- r.value.0 :: WellTypedIfAny(s, slack)) && Fair(slack, r.value.1, ctx, names)
    decreases nodes, 0
  {
    if nodes != [] && ElabStmts(nodes, env, ctx).Success? {
      ElabStmtFine(slack, nodes[0], env, ctx, names);
      ElabStmtsFine(slack, nodes[1..], ElabStmt(nodes[0], env, ctx).value.1, ctx, names);
    }
  }

  /** Every expression the elaborator returns is well typed throughout, but that an upgrade may take an operand
      whose type the table of constructors does not tell from its key. With no forced constructors, or with keys
      that can be told apart, a fully typed tree and known types for every name it mentions, there is no such
      upgrade. */
  lemma ElabExprWellTyped(n: Node, env: Env, ctx: Context)
    requires SoundTables(ctx) && ElabExpr(n, env, ctx).Success? && ElabExpr(n, env, ctx).value.Some?
    ensures var e := ElabExpr(n, env, ctx).value.value;
            && WellTyped(e, ctx.forced)
            && (ctx.forced == [] || (AllKnown(env, ctx, Mentions(n)) && FullyTyped(n)) ==> WellTyped(e, []))
  {
    ElabExprFine(ctx.forced, n, env, ctx, Mentions(n));
    if AllKnown(env, ctx, Mentions(n)) && FullyTyped(n) { ElabExprFine([], n, env, ctx, Mentions(n)); }
  }

  /** The same for statements. */
  lemma ElabStmtWellTyped(n: Node, env: Env, ctx: Context)
    requires SoundTables(ctx) && ElabStmt(n, env, ctx).Success? && ElabStmt(n, env, ctx).value.0.Some?
    ensures var s := ElabStmt(n, env, ctx).value.0.value;
            && WellTypedStmt(s, ctx.forced)
            && (ctx.forced == [] || (AllKnown(env, ctx, Mentions(n)) && FullyTyped(n)) ==> WellTypedStmt(s, []))
  {
    ElabStmtFine(ctx.forced, n, env, ctx, Mentions(n));
    if AllKnown(env, ctx, Mentions(n)) && FullyTyped(n) { ElabStmtFine([], n, env, ctx, Mentions(n)); }
  }
}
