/** Types of the Lok language and the two comparisons the compiler makes on them
    (src/type.hpp, src/constructs.cpp). */
module LokTypes {
  import opened Wrappers

  /** The parts of an identifier, outermost namespace first. */
  type Path = seq<string>

  datatype Qualifier = Qualifier(isPointer: bool, forceUpgrade: bool, arraySize: int, nested: Option<Qualifier>)

  /** `Unknown` is the default-constructed type, whose typeType is -1. */
  datatype Type =
    | Unknown
    | Single(id: Path, qualifier: Option<Qualifier>)
    | Tuple(types: seq<Type>)
    | Function(input: seq<Type>, output: Type)
  {
    /** The typeType tag. */
    function Tag(): int {
      match this
      case Unknown => -1
      case Single(_, _) => 0
      case Tuple(_) => 1
      case Function(_, _) => 2
    }
  }

  /** No unknown type occurs anywhere inside. */
  predicate Known(t: Type) {
    match t
    case Unknown => false
    case Single(_, _) => true
    case Tuple(ts) => forall u <- ts :: Known(u)
    case Function(ts, o) => (forall u <- ts :: Known(u)) && Known(o)
  }

  predicate FunctionFree(t: Type) {
    match t
    case Unknown => true
    case Single(_, _) => true
    case Tuple(ts) => forall u <- ts :: FunctionFree(u)
    case Function(_, _) => false
  }

  // ----- operator== ---------------------------------------------------------

  /** Comparison of optional qualifiers: when one side is null the pointers are compared, which
      converts both to bool. */
  predicate SameQualifier(p: Option<Qualifier>, q: Option<Qualifier>) {
    if p.Some? && q.Some? then
      && p.value.isPointer == q.value.isPointer
      && p.value.forceUpgrade == q.value.forceUpgrade
      && p.value.arraySize == q.value.arraySize
      && SameQualifier(p.value.nested, q.value.nested)
    else
      p.Some? == q.Some?
  }

  /** `None` is the `throw` that comparing two unknown types reaches. */
  function Equals(a: Type, b: Type): Option<bool>
    decreases a
  {
    match (a, b)
    case (Unknown, Unknown) => None
    case (Single(i, p), Single(j, q)) => Some(i == j && SameQualifier(p, q))
    case (Tuple(ts), Tuple(us)) => if |ts| != |us| then Some(false) else EqualsAll(ts, us)
    case (Function(ts, o), Function(us, r)) =>
      if |ts| != |us| then Some(false) else
      var inputs := EqualsAll(ts, us);
      if inputs == Some(true) then Equals(o, r) else inputs
    case _ => Some(false)
  }

  /** Element by element, stopping at the first difference. */
  function EqualsAll(ts: seq<Type>, us: seq<Type>): Option<bool>
    requires |ts| == |us|
    decreases ts
  {
    if ts == [] then Some(true)
    else
      var head := Equals(ts[0], us[0]);
      if head == Some(true) then EqualsAll(ts[1..], us[1..]) else head
  }

  lemma {:induction false} SameQualifierIsEquality(p: Option<Qualifier>, q: Option<Qualifier>)
    ensures SameQualifier(p, q) <==> p == q
    decreases p
  {
    if p.Some? && q.Some? {
      SameQualifierIsEquality(p.value.nested, q.value.nested);
    }
  }

  /** The comparison answers yes exactly for identical types with no unknown part, answers no only
      for different types, and throws only when both sides have an unknown part. */
  lemma {:induction false} EqualsMeaning(a: Type, b: Type)
    ensures Equals(a, b) == Some(true) <==> a == b && Known(a)
    ensures Equals(a, b) == Some(false) ==> a != b
    ensures Equals(a, b) == None ==> !Known(a) && !Known(b)
    decreases a
  {
    match (a, b)
    case (Single(_, p), Single(_, q)) => SameQualifierIsEquality(p, q);
    case (Tuple(ts), Tuple(us)) =>
      if |ts| == |us| { EqualsAllMeaning(ts, us); }
    case (Function(ts, o), Function(us, r)) =>
      if |ts| == |us| {
        EqualsAllMeaning(ts, us);
        EqualsMeaning(o, r);
      }
    case _ =>
  }

  lemma {:induction false} EqualsAllMeaning(ts: seq<Type>, us: seq<Type>)
    requires |ts| == |us|
    ensures EqualsAll(ts, us) == Some(true) <==> ts == us && forall t <- ts :: Known(t)
    ensures EqualsAll(ts, us) == Some(false) ==> ts != us
    ensures EqualsAll(ts, us) == None ==> (exists t <- ts :: !Known(t)) && (exists u <- us :: !Known(u))
    decreases ts
  {
    if ts != [] {
      EqualsMeaning(ts[0], us[0]);
      EqualsAllMeaning(ts[1..], us[1..]);
      assert ts == [ts[0]] + ts[1..] && us == [us[0]] + us[1..];
    }
  }

  /** The first parts that are not the same known type are two unknown ones. */
  predicate Undecided(a: Type, b: Type)
    decreases a, 0
  {
    match (a, b)
    case (Unknown, Unknown) => true
    case (Tuple(ts), Tuple(us)) => |ts| == |us| && UndecidedAmong(ts, us)
    case (Function(ts, o), Function(us, r)) =>
      |ts| == |us| && (UndecidedAmong(ts, us) || (ts == us && (forall t <- ts :: Known(t)) && Undecided(o, r)))
    case _ => false
  }

  predicate UndecidedAmong(ts: seq<Type>, us: seq<Type>)
    requires |ts| == |us|
    decreases ts, 0
  {
    exists k | 0 <= k < |ts| :: SameBefore(ts, us, k) && Undecided(ts[k], us[k])
  }

  predicate SameBefore(ts: seq<Type>, us: seq<Type>, k: nat)
    requires k <= |ts| == |us|
  {
    forall i :: 0 <= i < k ==> ts[i] == us[i] && Known(ts[i])
  }

  /** Exactly then the comparison throws. */
  lemma {:induction false} EqualsThrows(a: Type, b: Type)
    ensures Equals(a, b) == None <==> Undecided(a, b)
    decreases a, 0
  {
    match (a, b)
    case (Tuple(ts), Tuple(us)) =>
      if |ts| == |us| { EqualsAllThrows(ts, us); }
    case (Function(ts, o), Function(us, r)) =>
      if |ts| == |us| {
        EqualsAllThrows(ts, us);
        EqualsAllMeaning(ts, us);
        EqualsThrows(o, r);
      }
    case _ =>
  }

  lemma {:induction false} EqualsAllThrows(ts: seq<Type>, us: seq<Type>)
    requires |ts| == |us|
    ensures EqualsAll(ts, us) == None <==> UndecidedAmong(ts, us)
    decreases ts, 1
  {
    if ts != [] {
      EqualsThrows(ts[0], us[0]);
      EqualsMeaning(ts[0], us[0]);
      EqualsAllThrows(ts[1..], us[1..]);
      UndecidedParts(ts, us);
    }
  }

  lemma UndecidedParts(ts: seq<Type>, us: seq<Type>)
    requires |ts| == |us| > 0
    ensures UndecidedAmong(ts, us) <==>
              Undecided(ts[0], us[0]) || (ts[0] == us[0] && Known(ts[0]) && UndecidedAmong(ts[1..], us[1..]))
  {
    var rest, more := ts[1..], us[1..];
    assert SameBefore(ts, us, 0);
    if k :| 0 <= k < |ts| && SameBefore(ts, us, k) && Undecided(ts[k], us[k]) {
      if k > 0 { assert SameBefore(rest, more, k - 1) && Undecided(rest[k - 1], more[k - 1]); }
    }
    if UndecidedAmong(rest, more) && ts[0] == us[0] && Known(ts[0]) {
      var k :| 0 <= k < |rest| && SameBefore(rest, more, k) && Undecided(rest[k], more[k]);
      forall i | 0 < i <= k
        ensures ts[i] == us[i] && Known(ts[i]) { assert rest[i - 1] == ts[i] && more[i - 1] == us[i]; }
      assert SameBefore(ts, us, k + 1) && Undecided(ts[k + 1], us[k + 1]);
    }
  }

  /** The order of the operands matters neither for the answer nor for the throw. */
  lemma {:induction false} EqualsSymmetric(a: Type, b: Type)
    ensures Equals(a, b) == Equals(b, a)
    decreases a
  {
    match (a, b)
    case (Single(_, p), Single(_, q)) =>
      SameQualifierIsEquality(p, q);
      SameQualifierIsEquality(q, p);
    case (Tuple(ts), Tuple(us)) =>
      if |ts| == |us| { EqualsAllSymmetric(ts, us); }
    case (Function(ts, o), Function(us, r)) =>
      if |ts| == |us| {
        EqualsAllSymmetric(ts, us);
        EqualsSymmetric(o, r);
      }
    case _ =>
  }

  lemma {:induction false} EqualsAllSymmetric(ts: seq<Type>, us: seq<Type>)
    requires |ts| == |us|
    ensures EqualsAll(ts, us) == EqualsAll(us, ts)
    decreases ts
  {
    if ts != [] {
      EqualsSymmetric(ts[0], us[0]);
      EqualsAllSymmetric(ts[1..], us[1..]);
    }
  }

  // ----- operator< ----------------------------------------------------------

  predicate LessBool(a: bool, b: bool) {
    !a && b
  }

  predicate LessText(s: string, t: string) {
    if s == [] || t == [] then s == [] && t != []
    else s[0] < t[0] || (s[0] == t[0] && LessText(s[1..], t[1..]))
  }

  predicate LessPath(p: Path, q: Path) {
    if p == [] || q == [] then p == [] && q != []
    else if LessText(p[0], q[0]) then true
    else if LessText(q[0], p[0]) then false
    else LessPath(p[1..], q[1..])
  }

  /** Null comes before non-null; otherwise any one smaller component decides. */
  predicate LessQualifier(p: Option<Qualifier>, q: Option<Qualifier>) {
    if p.Some? && q.Some? then
      || LessBool(p.value.isPointer, q.value.isPointer)
      || LessBool(p.value.forceUpgrade, q.value.forceUpgrade)
      || p.value.arraySize < q.value.arraySize
      || LessQualifier(p.value.nested, q.value.nested)
    else
      LessBool(p.Some?, q.Some?)
  }

  ghost function Size(t: Type): (n: nat)
    ensures n > 0
  {
    match t
    case Unknown => 1
    case Single(_, _) => 1
    case Tuple(ts) => 1 + SizeAll(ts)
    case Function(ts, o) => 1 + SizeAll(ts) + Size(o)
  }

  ghost function SizeAll(ts: seq<Type>): nat {
    if ts == [] then 0 else Size(ts[0]) + SizeAll(ts[1..])
  }

  predicate Less(a: Type, b: Type)
    decreases Size(a) + Size(b), 0
  {
    match (a, b)
    case (Unknown, _) => false
    case (Single(i, p), Single(j, q)) => LessPath(i, j) || LessQualifier(p, q)
    case (Tuple(ts), Tuple(us)) => LessAll(ts, us)
    case (Function(ts, o), Function(us, r)) => LessAll(ts, us) && Less(o, r)
    case _ => a.Tag() < b.Tag()
  }

  /** The lexicographic order of std::vector. */
  predicate LessAll(ts: seq<Type>, us: seq<Type>)
    decreases SizeAll(ts) + SizeAll(us), 1
  {
    if ts == [] || us == [] then ts == [] && us != []
    else if Less(ts[0], us[0]) then true
    else if Less(us[0], ts[0]) then false
    else LessAll(ts[1..], us[1..])
  }

  lemma {:induction false} LessTextSeparates(s: string, t: string)
    ensures !LessText(s, t) && !LessText(t, s) <==> s == t
  {
    if s != [] && t != [] {
      LessTextSeparates(s[1..], t[1..]);
      assert s == [s[0]] + s[1..] && t == [t[0]] + t[1..];
    }
  }

  lemma {:induction false} LessPathSeparates(p: Path, q: Path)
    ensures !LessPath(p, q) && !LessPath(q, p) <==> p == q
  {
    if p != [] && q != [] {
      LessTextSeparates(p[0], q[0]);
      LessPathSeparates(p[1..], q[1..]);
      assert p == [p[0]] + p[1..] && q == [q[0]] + q[1..];
    }
  }

  lemma {:induction false} LessQualifierSeparates(p: Option<Qualifier>, q: Option<Qualifier>)
    ensures !LessQualifier(p, q) && !LessQualifier(q, p) <==> p == q
    decreases p
  {
    if p.Some? && q.Some? {
      LessQualifierSeparates(p.value.nested, q.value.nested);
    }
  }

  // ----- What precedes what ---------------------------------------------------

  /** The texts agree in front of k, and there the first ends or has the smaller character. */
  predicate TextBefore(s: string, t: string, k: nat) {
    k <= |s| && k < |t| && (forall i :: 0 <= i < k ==> s[i] == t[i]) && (k == |s| || s[k] < t[k])
  }

  /** The order of the file names, and of the parts of a path, is the lexicographic one. */
  lemma {:induction false} LessTextMeans(s: string, t: string)
    ensures LessText(s, t) <==> exists k: nat :: TextBefore(s, t, k)
    decreases s
  {
    if s != [] && t != [] && s[0] == t[0] {
      LessTextMeans(s[1..], t[1..]);
      if k: nat :| TextBefore(s[1..], t[1..], k) {
        forall i | 0 < i <= k ensures s[i] == t[i] { assert s[1..][i - 1] == t[1..][i - 1]; }
        assert TextBefore(s, t, k + 1);
      }
      if k: nat :| TextBefore(s, t, k) { assert TextBefore(s[1..], t[1..], k - 1); }
    } else {
      assert LessText(s, t) ==> TextBefore(s, t, 0);
    }
  }

  predicate PathBefore(p: Path, q: Path, k: nat) {
    k <= |p| && k < |q| && (forall i :: 0 <= i < k ==> p[i] == q[i]) && (k == |p| || LessText(p[k], q[k]))
  }

  lemma {:induction false} LessPathMeans(p: Path, q: Path)
    ensures LessPath(p, q) <==> exists k: nat :: PathBefore(p, q, k)
    decreases p
  {
    if p != [] && q != [] {
      LessTextSeparates(p[0], q[0]);
      TextAsymmetric(p[0], q[0]);
    }
    if p != [] && q != [] && p[0] == q[0] {
      LessPathMeans(p[1..], q[1..]);
      if k: nat :| PathBefore(p[1..], q[1..], k) {
        forall i | 0 < i <= k ensures p[i] == q[i] { assert p[1..][i - 1] == q[1..][i - 1]; }
        assert PathBefore(p, q, k + 1);
      }
      if k: nat :| PathBefore(p, q, k) { assert PathBefore(p[1..], q[1..], k - 1); }
    } else {
      assert LessPath(p, q) ==> PathBefore(p, q, 0);
    }
  }

  lemma {:induction false} TextAsymmetric(s: string, t: string)
    ensures !(LessText(s, t) && LessText(t, s))
    decreases s
  {
    if s != [] && t != [] && s[0] == t[0] { TextAsymmetric(s[1..], t[1..]); }
  }

  /** The qualifier that is k deep. */
  function Inside(q: Option<Qualifier>, k: nat): Option<Qualifier> {
    if k == 0 || q.None? then q else Inside(q.value.nested, k - 1)
  }

  /** There is none in p, or it is less in one of the three ways. */
  predicate QualifierBefore(p: Option<Qualifier>, q: Option<Qualifier>) {
    && q.Some?
    && (p.None? || (!p.value.isPointer && q.value.isPointer) || (!p.value.forceUpgrade && q.value.forceUpgrade)
        || p.value.arraySize < q.value.arraySize)
  }

  predicate BeforeInside(p: Option<Qualifier>, q: Option<Qualifier>, k: nat) {
    QualifierBefore(Inside(p, k), Inside(q, k))
  }

  lemma {:induction false} LessInside(p: Option<Qualifier>, q: Option<Qualifier>, k: nat)
    requires QualifierBefore(Inside(p, k), Inside(q, k))
    ensures LessQualifier(p, q)
    decreases k
  {
    if k > 0 && p.Some? { LessInside(p.value.nested, q.value.nested, k - 1); }
  }

  lemma {:induction false} LessWhere(p: Option<Qualifier>, q: Option<Qualifier>) returns (k: nat)
    requires LessQualifier(p, q)
    ensures QualifierBefore(Inside(p, k), Inside(q, k))
    decreases p
  {
    k := 0;
    if !QualifierBefore(p, q) {
      k := LessWhere(p.value.nested, q.value.nested);
      k := k + 1;
    }
  }

  lemma LessQualifierMeans(p: Option<Qualifier>, q: Option<Qualifier>)
    ensures LessQualifier(p, q) <==> exists k: nat :: BeforeInside(p, q, k)
  {
    if LessQualifier(p, q) { var k := LessWhere(p, q); assert BeforeInside(p, q, k); }
    if k: nat :| BeforeInside(p, q, k) { LessInside(p, q, k); }
  }

  /** Types at the same places in front of k are not told apart, and there the first list ends or has the smaller one.
      */
  predicate AllBefore(ts: seq<Type>, us: seq<Type>, k: nat) {
    && k <= |ts| && k < |us|
    && (forall i :: 0 <= i < k ==> Equivalent(ts[i], us[i]))
    && (k == |ts| || Less(ts[k], us[k]))
  }

  lemma {:induction false} LessAllMeans(ts: seq<Type>, us: seq<Type>)
    ensures LessAll(ts, us) <==> exists k: nat :: AllBefore(ts, us, k)
    decreases ts
  {
    if ts != [] && us != [] && Equivalent(ts[0], us[0]) {
      LessAllMeans(ts[1..], us[1..]);
      if k: nat :| AllBefore(ts[1..], us[1..], k) {
        forall i | 0 < i <= k ensures Equivalent(ts[i], us[i]) {
          assert ts[1..][i - 1] == ts[i] && us[1..][i - 1] == us[i];
        }
        assert AllBefore(ts, us, k + 1);
      }
      if k: nat :| AllBefore(ts, us, k) { assert AllBefore(ts[1..], us[1..], k - 1); }
    } else {
      assert LessAll(ts, us) ==> AllBefore(ts, us, 0);
    }
  }

  /** Forms come in the order single, tuple, function. */
  lemma FormsInOrder(a: Type, b: Type)
    requires a != Unknown && b != Unknown && a.Tag() != b.Tag()
    ensures Less(a, b) <==> a.Single? || b.Function?
  {
  }

  /** Neither type precedes the other: a table ordered by `<` does not tell them apart. */
  predicate Equivalent(a: Type, b: Type) {
    !Less(a, b) && !Less(b, a)
  }

  /** A known, function-free key is told apart from every other known type. */
  lemma {:induction false} LessSeparates(a: Type, b: Type)
    requires Known(a) && FunctionFree(a) && Known(b)
    ensures Equivalent(a, b) <==> a == b
    decreases a
  {
    match (a, b)
    case (Single(i, p), Single(j, q)) =>
      LessPathSeparates(i, j);
      LessQualifierSeparates(p, q);
    case (Tuple(ts), Tuple(us)) => LessAllSeparates(ts, us);
    case _ =>
  }

  lemma {:induction false} LessAllSeparates(ts: seq<Type>, us: seq<Type>)
    requires (forall t <- ts :: Known(t) && FunctionFree(t)) && forall u <- us :: Known(u)
    ensures !LessAll(ts, us) && !LessAll(us, ts) <==> ts == us
    decreases ts
  {
    if ts != [] && us != [] {
      LessSeparates(ts[0], us[0]);
      LessAllSeparates(ts[1..], us[1..]);
      assert ts == [ts[0]] + ts[1..] && us == [us[0]] + us[1..];
    }
  }

  /** The unknown type is told apart from no type at all. */
  lemma UnknownIsEquivalent(t: Type)
    ensures Equivalent(Unknown, t)
  {
  }

  /** Without those restrictions the order does not identify equal types: two function types that
      differ only in their result are unordered, and so are two that differ only in their parameters. */
  lemma FunctionTypesUnordered(ts: seq<Type>, us: seq<Type>, o: Type, r: Type)
    requires Known(o) && FunctionFree(o) && forall t <- ts :: Known(t) && FunctionFree(t)
    ensures Equivalent(Function(ts, o), Function(ts, r)) && Equivalent(Function(ts, o), Function(us, o))
  {
    LessSeparates(o, o);
    LessAllSeparates(ts, ts);
  }

  /** `<` is a strict weak order on some types, as a std::multimap requires. */
  predicate Ordered(types: set<Type>) {
    && (forall a <- types, b <- types :: Less(a, b) ==> !Less(b, a))
    && (forall a <- types, b <- types, c <- types :: Less(a, b) && Less(b, c) ==> Less(a, c))
    && (forall a <- types, b <- types, c <- types :: Equivalent(a, b) && Equivalent(b, c) ==> Equivalent(a, c))
  }

  /** Known, function-free types need not be in order: `bit*` and `bit[8]` precede each other. */
  lemma QualifiersUnordered()
    ensures var a := Single(["bit"], Some(Qualifier(true, false, 0, None)));
            var b := Single(["bit"], Some(Qualifier(false, false, 8, None)));
            Less(a, b) && Less(b, a)
  {
  }
}
