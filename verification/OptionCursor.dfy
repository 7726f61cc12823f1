/** How positional arguments are shared out: the cursor only moves forward, a scalar takes one argument at
    most, and the first container reached takes all that follow (lib/cxxopts.hpp:1651-1688, 1866-1882). */
module OptionCursor {
  import opened Wrappers
  import opened OptionSpec
  import opened OptionRoles
  import opened OptionReplay

  /** What one more argument may do to an option's store, and what role it may then have. */
  ghost predicate TakesFairly(st: State, after: State, role: Role, o: Detail) {
    && StoreOf(st, o).count <= StoreOf(after, o).count
    && (role == Consumed(o) ==> StoreOf(after, o).count > 0 && (!o.container ==> StoreOf(st, o).count == 0))
  }

  lemma {:induction false} LettersFair(opts: Options, st: State, letters: string, rest: seq<string>, o: Detail)
    requires ParseLetters(opts, st, letters, rest).Success?
    ensures StoreOf(st, o).count <= StoreOf(ParseLetters(opts, st, letters, rest).value.0, o).count
    decreases letters
  {
    if letters != [] {
      if [letters[0]] !in opts.names {
        LettersFair(opts, st, letters[1..], rest, o);
      } else if |letters| > 1 {
        var p := opts.names[[letters[0]]];
        LettersFair(opts, AddTo(opts.read, st, p, p.implicit.value).value, letters[1..], rest, o);
      }
    }
  }

  lemma {:induction false} PositionalFair(opts: Options, st: State, arg: string, o: Detail)
    requires ConsumePositional(opts, st, arg).Success?
    ensures var r := ConsumePositional(opts, st, arg).value; TakesFairly(st, r.0, RoleOf(r.1), o)
    decreases |opts.positional| - st.next
  {
    if st.next < |opts.positional| {
      var p := opts.names[opts.positional[st.next]];
      if !p.container && StoreOf(st, p).count > 0 {
        PositionalFair(opts, st.(next := st.next + 1), arg, o);
      }
    }
  }

  lemma StepFair(opts: Options, st: State, arg: string, rest: seq<string>, o: Detail)
    requires Step(opts, st, arg, rest).Success?
    ensures var s := Step(opts, st, arg, rest).value; TakesFairly(st, s.state, s.role, o)
  {
    match Classify(arg)
    case Plain => PositionalFair(opts, st, arg, o);
    case Short(letters) => LettersFair(opts, st, letters, rest, o);
    case Long(_, _) =>
  }

  /** No two arguments were taken by o. */
  ghost predicate AtMostOnce(roles: seq<Role>, o: Detail) {
    forall i, j :: 0 <= i < j < |roles| && roles[i] == Consumed(o) ==> roles[j] != Consumed(o)
  }

  /** Roles given to a stretch of arguments between two states. */
  ghost predicate ShareFairly(st: State, roles: seq<Role>, after: State, o: Detail) {
    && StoreOf(st, o).count <= StoreOf(after, o).count
    && (Consumed(o) in roles ==> StoreOf(after, o).count > 0 && StoreOf(st, o).count == 0)
    && AtMostOnce(roles, o)
  }

  lemma SharesCompose(a: State, r: seq<Role>, b: State, s: seq<Role>, c: State, o: Detail)
    requires ShareFairly(a, r, b, o) && ShareFairly(b, s, c, o)
    ensures ShareFairly(a, r + s, c, o)
  {
    assert forall i :: 0 <= i < |r| && r[i] == Consumed(o) ==> Consumed(o) in r;
    assert forall i :: 0 <= i < |s| && s[i] == Consumed(o) ==> Consumed(o) in s;
  }

  lemma {:induction false} ScanShares(opts: Options, st: State, args: seq<string>, o: Detail)
    requires !o.container && Scan(StepOf(opts), st, args).Success?
    ensures var r := Scan(StepOf(opts), st, args).value; ShareFairly(st, r.0, r.1, o)
    decreases args
  {
    if args != [] && args[0] != "--" {
      StepFair(opts, st, args[0], args[1..], o);
      var s := Step(opts, st, args[0], args[1..]).value;
      var mine := RolesOf(s, args[1..]);
      ScanShares(opts, s.state, args[|mine|..], o);
      var r := Scan(StepOf(opts), s.state, args[|mine|..]).value;
      SharesCompose(st, mine, s.state, r.0, r.1, o);
    }
  }

  lemma {:induction false} TailShares(opts: Options, st: State, args: seq<string>, o: Detail)
    requires !o.container && Tail(OfferOf(opts), st, args).Success?
    ensures var r := Tail(OfferOf(opts), st, args).value; ShareFairly(st, r.0, r.1, o)
    decreases args
  {
    if args != [] {
      PositionalFair(opts, st, args[0], o);
      var taken := ConsumePositional(opts, st, args[0]).value;
      TailShares(opts, taken.0, args[1..], o);
      var r := Tail(OfferOf(opts), taken.0, args[1..]).value;
      SharesCompose(st, [RoleOf(taken.1)], taken.0, r.0, r.1, o);
    }
  }

  /** The argument, as an option, is given for o. */
  predicate Gives(opts: Options, arg: string, o: Detail) {
    match Classify(arg)
    case Plain => false
    case Short(letters) => exists c <- letters :: [c] in opts.names && opts.names[[c]] == o
    case Long(name, _) => name in opts.names && opts.names[name] == o
  }

  lemma {:induction false} LettersGive(opts: Options, st: State, letters: string, rest: seq<string>, o: Detail, c: char)
    requires ParseLetters(opts, st, letters, rest).Success?
    requires c in letters && [c] in opts.names && opts.names[[c]] == o
    ensures StoreOf(ParseLetters(opts, st, letters, rest).value.0, o).count > 0
    decreases letters
  {
    if letters[0] == c {
      if |letters| > 1 {
        var after := AddTo(opts.read, st, o, o.implicit.value).value;
        assert StoreOf(after, o).count > 0;
        LettersFair(opts, after, letters[1..], rest, o);
      }
    } else {
      var p := [letters[0]];
      var next :=
        if p in opts.names && |letters| > 1 then AddTo(opts.read, st, opts.names[p], opts.names[p].implicit.value).value
        else st;
      LettersGive(opts, next, letters[1..], rest, o, c);
    }
  }

  lemma StepGives(opts: Options, st: State, arg: string, rest: seq<string>, o: Detail)
    requires Step(opts, st, arg, rest).Success? && Gives(opts, arg, o)
    ensures StoreOf(Step(opts, st, arg, rest).value.state, o).count > 0
  {
    if Classify(arg).Short? {
      var c :| c in Classify(arg).letters && [c] in opts.names && opts.names[[c]] == o;
      LettersGive(opts, st, Classify(arg).letters, rest, o, c);
    }
  }

  /** Every option token for o leaves it counted. */
  ghost predicate GivenCounts(opts: Options, args: seq<string>, roles: seq<Role>, after: State, o: Detail)
    requires |roles| <= |args|
  {
    forall i :: 0 <= i < |roles| && roles[i] == OptionToken && Gives(opts, args[i], o) ==> StoreOf(after, o).count > 0
  }

  /** No argument is taken by o behind an option token for it. */
  ghost predicate NotTakenOnceGiven(opts: Options, args: seq<string>, roles: seq<Role>, o: Detail)
    requires |roles| <= |args|
  {
    forall i, j :: 0 <= i < j < |roles| && roles[i] == OptionToken && Gives(opts, args[i], o)
        ==> roles[j] != Consumed(o)
  }

  lemma {:induction false} ScanGiven(opts: Options, st: State, args: seq<string>, o: Detail)
    requires !o.container && Scan(StepOf(opts), st, args).Success?
    ensures var r := Scan(StepOf(opts), st, args).value;
            GivenCounts(opts, args, r.0, r.1, o) && NotTakenOnceGiven(opts, args, r.0, o)
    decreases args
  {
    if args != [] && args[0] != "--" {
      var s := Step(opts, st, args[0], args[1..]).value;
      var mine := RolesOf(s, args[1..]);
      var r := Scan(StepOf(opts), s.state, args[|mine|..]).value;
      ScanGiven(opts, s.state, args[|mine|..], o);
      ScanShares(opts, s.state, args[|mine|..], o);
      if Gives(opts, args[0], o) { StepGives(opts, st, args[0], args[1..], o); }
      GivenTogether(opts, args, mine, r.0, s.state, r.1, o);
    }
  }

  lemma GivenTogether(opts: Options, args: seq<string>, mine: seq<Role>, more: seq<Role>, mid: State, after: State,
                      o: Detail)
    requires 1 <= |mine| <= 2 && |mine| + |more| <= |args| && (|mine| == 2 ==> mine[1] == OptionValue)
    requires mine[0] == OptionToken && Gives(opts, args[0], o) ==> StoreOf(mid, o).count > 0
    requires ShareFairly(mid, more, after, o)
    requires GivenCounts(opts, args[|mine|..], more, after, o) && NotTakenOnceGiven(opts, args[|mine|..], more, o)
    ensures GivenCounts(opts, args, mine + more, after, o) && NotTakenOnceGiven(opts, args, mine + more, o)
  {
    var roles, n := mine + more, |mine|;
    forall i | 0 <= i < |roles| && roles[i] == OptionToken && Gives(opts, args[i], o)
      ensures StoreOf(after, o).count > 0 && forall j :: i < j < |roles| ==> roles[j] != Consumed(o)
    {
      if i >= n { assert roles[i] == more[i - n] && args[i] == args[n..][i - n]; }
      forall j | i < j < |roles| ensures roles[j] != Consumed(o) {
        if j >= n {
          assert roles[j] == more[j - n];
          assert roles[j] == Consumed(o) ==> Consumed(o) in more;
        }
      }
    }
  }

  /** A scalar option takes at most one positional argument in a whole parse, and none behind an option token that
      gives it. */
  lemma ScalarTakesOnce(opts: Options, args: seq<string>, o: Detail)
    requires Wf(opts) && Parse(opts, args).Success? && !o.container
    ensures var roles := Parse(opts, args).value.0; AtMostOnce(roles, o) && NotTakenOnceGiven(opts, args, roles, o)
  {
    ScanShares(opts, START, args, o);
    ScanGiven(opts, START, args, o);
    var scan := Scan(StepOf(opts), START, args).value;
    DefaultsStore(opts, scan.1, opts.order, o);
    var d := ApplyDefaults(opts, scan.1, opts.order).value;
    TailShares(opts, d, args[|scan.0|..], o);
    var tail := Tail(OfferOf(opts), d, args[|scan.0|..]).value;
    assert ShareFairly(START, scan.0, d, o);
    SharesCompose(START, scan.0, d, tail.0, tail.1, o);
    TailRoles(opts, d, args[|scan.0|..]);
    NotTakenBehind(opts, args, scan.0, tail.0, d, tail.1, o);
  }

  lemma NotTakenBehind(opts: Options, args: seq<string>, scanned: seq<Role>, tail: seq<Role>, d: State, after: State,
                       o: Detail)
    requires |scanned| + |tail| == |args| && TakenOrKept(tail) && ShareFairly(d, tail, after, o)
    requires GivenCounts(opts, args, scanned, d, o) && NotTakenOnceGiven(opts, args, scanned, o)
    ensures NotTakenOnceGiven(opts, args, scanned + tail, o)
  {
    var roles, n := scanned + tail, |scanned|;
    forall k | n <= k < |roles| ensures roles[k] != OptionToken {
      assert roles[k] in tail;
    }
    forall i, j | 0 <= i < j < |roles| && roles[i] == OptionToken && Gives(opts, args[i], o)
      ensures roles[j] != Consumed(o)
    {
      if j >= n { assert roles[j] == tail[j - n] && (roles[j] == Consumed(o) ==> Consumed(o) in tail); }
    }
  }

  // ----- Containers ---------------------------------------------------------------------

  /** The cursor stands at a container. */
  ghost predicate AtContainer(opts: Options, st: State, o: Detail) {
    && o.container && st.next < |opts.positional|
    && opts.positional[st.next] in opts.names && opts.names[opts.positional[st.next]] == o
  }

  /** From here on, positional arguments go to o, and only unknown options may be kept: every argument that is not
      an option, a value or the separator is taken by o. */
  ghost predicate OnlyTo(opts: Options, o: Detail, arg: string, role: Role) {
    && (role.Consumed? ==> role == Consumed(o))
    && (role == Kept ==> opts.allowUnrecognised && IsUnknown(opts, arg))
    && (Classify(arg).Plain? ==> role == OptionValue || role == Separator || role == Consumed(o))
  }

  lemma StepAtContainer(opts: Options, st: State, arg: string, rest: seq<string>, o: Detail)
    requires AtContainer(opts, st, o) && Step(opts, st, arg, rest).Success?
    ensures var s := Step(opts, st, arg, rest).value; AtContainer(opts, s.state, o) && OnlyTo(opts, o, arg, s.role)
  {
  }

  /** An argument taken by a container leaves the cursor standing at it. */
  lemma {:induction false} TakenByContainer(opts: Options, st: State, arg: string)
    requires ConsumePositional(opts, st, arg).Success?
    ensures var r := ConsumePositional(opts, st, arg).value;
            r.1.Some? && r.1.value.container ==> AtContainer(opts, r.0, r.1.value)
    decreases |opts.positional| - st.next
  {
    if st.next < |opts.positional| {
      var p := opts.names[opts.positional[st.next]];
      if !p.container && StoreOf(st, p).count > 0 {
        TakenByContainer(opts, st.(next := st.next + 1), arg);
      }
    }
  }

  /** A stretch of arguments that the container o has to itself. */
  ghost predicate AllTo(opts: Options, o: Detail, args: seq<string>, roles: seq<Role>)
    requires |roles| <= |args|
  {
    forall i :: 0 <= i < |roles| ==> OnlyTo(opts, o, args[i], roles[i])
  }

  lemma AllToStep(opts: Options, o: Detail, args: seq<string>, mine: seq<Role>, more: seq<Role>)
    requires 1 <= |mine| <= 2 && |mine| + |more| <= |args| && (|mine| == 2 ==> mine[1] == OptionValue)
    requires OnlyTo(opts, o, args[0], mine[0]) && AllTo(opts, o, args[|mine|..], more)
    ensures AllTo(opts, o, args, mine + more)
  {
    var n := |mine|;
    assert forall i :: n <= i < n + |more| ==> args[i] == args[n..][i - n] && (mine + more)[i] == more[i - n];
  }

  lemma {:induction false} ScanAtContainer(opts: Options, st: State, args: seq<string>, o: Detail)
    requires AtContainer(opts, st, o) && Scan(StepOf(opts), st, args).Success?
    ensures var r := Scan(StepOf(opts), st, args).value; AtContainer(opts, r.1, o) && AllTo(opts, o, args, r.0)
    decreases args
  {
    if args != [] && args[0] != "--" {
      StepAtContainer(opts, st, args[0], args[1..], o);
      var s := Step(opts, st, args[0], args[1..]).value;
      var mine := RolesOf(s, args[1..]);
      ScanAtContainer(opts, s.state, args[|mine|..], o);
      AllToStep(opts, o, args, mine, Scan(StepOf(opts), s.state, args[|mine|..]).value.0);
    }
  }

  lemma {:induction false} TailAtContainer(opts: Options, st: State, args: seq<string>, o: Detail)
    requires AtContainer(opts, st, o) && Tail(OfferOf(opts), st, args).Success?
    ensures AllTo(opts, o, args, Tail(OfferOf(opts), st, args).value.0)
    decreases args
  {
    if args != [] {
      var after := ConsumePositional(opts, st, args[0]).value.0;
      TailAtContainer(opts, after, args[1..], o);
      AllToStep(opts, o, args, [Consumed(o)], Tail(OfferOf(opts), after, args[1..]).value.0);
    }
  }

  /** The container, if it is one that took this argument. */
  predicate TakenByOne(role: Role) {
    role.Consumed? && role.taker.container
  }

  /** After an argument taken by a container, later positional arguments all go to the same container. */
  ghost predicate ContainerTakesRest(opts: Options, args: seq<string>, roles: seq<Role>)
    requires |roles| <= |args|
  {
    forall i :: 0 <= i < |roles| && TakenByOne(roles[i]) ==> AllTo(opts, roles[i].taker, args[i + 1..], roles[i + 1..])
  }

  /** A container that took an argument keeps the cursor to the end of the stretch. */
  ghost predicate HoldsCursor(opts: Options, roles: seq<Role>, after: State) {
    forall role <- roles :: TakenByOne(role) ==> AtContainer(opts, after, role.taker)
  }

  lemma DropTwice<T>(s: seq<T>, n: nat, k: nat)
    requires n + k <= |s|
    ensures s[n..][k..] == s[n + k..]
  {
  }

  lemma DropConcat<T>(a: seq<T>, b: seq<T>, k: nat)
    requires k <= |b|
    ensures (a + b)[|a| + k..] == b[k..]
  {
  }

  lemma RestStep(opts: Options, args: seq<string>, mine: seq<Role>, more: seq<Role>)
    requires 1 <= |mine| <= 2 && |mine| + |more| <= |args|
             && (|mine| == 2 ==> mine[0] == OptionToken && mine[1] == OptionValue)
    requires ContainerTakesRest(opts, args[|mine|..], more)
    requires TakenByOne(mine[0]) ==> AllTo(opts, mine[0].taker, args[1..], more)
    ensures ContainerTakesRest(opts, args, mine + more)
  {
    var roles, n := mine + more, |mine|;
    forall i | 0 <= i < |roles| && TakenByOne(roles[i])
      ensures AllTo(opts, roles[i].taker, args[i + 1..], roles[i + 1..])
    {
      if i >= n {
        RestLater(opts, args, mine, more, i - n);
      } else {
        assert i == 0 && n == 1;
        DropConcat(mine, more, 0);
      }
    }
  }

  lemma RestLater(opts: Options, args: seq<string>, mine: seq<Role>, more: seq<Role>, j: nat)
    requires |mine| + |more| <= |args| && j < |more| && TakenByOne(more[j])
    requires ContainerTakesRest(opts, args[|mine|..], more)
    ensures var i, roles := |mine| + j, mine + more;
            roles[i] == more[j] && AllTo(opts, more[j].taker, args[i + 1..], roles[i + 1..])
  {
    assert AllTo(opts, more[j].taker, args[|mine|..][j + 1..], more[j + 1..]);
    DropConcat(mine, more, j + 1);
    DropTwice(args, |mine|, j + 1);
  }

  lemma {:induction false} ScanHoldsCursor(opts: Options, st: State, args: seq<string>)
    requires Scan(StepOf(opts), st, args).Success?
    ensures var r := Scan(StepOf(opts), st, args).value;
            ContainerTakesRest(opts, args, r.0) && HoldsCursor(opts, r.0, r.1)
    decreases args
  {
    if args != [] && args[0] != "--" {
      var s := Step(opts, st, args[0], args[1..]).value;
      var mine := RolesOf(s, args[1..]);
      var more := Scan(StepOf(opts), s.state, args[|mine|..]).value;
      ScanHoldsCursor(opts, s.state, args[|mine|..]);
      if TakenByOne(s.role) {
        TakenByContainer(opts, st, args[0]);
        ScanAtContainer(opts, s.state, args[|mine|..], s.role.taker);
      }
      RestStep(opts, args, mine, more.0);
    }
  }

  lemma {:induction false} TailTakesRest(opts: Options, st: State, args: seq<string>)
    requires Tail(OfferOf(opts), st, args).Success?
    ensures ContainerTakesRest(opts, args, Tail(OfferOf(opts), st, args).value.0)
    decreases args
  {
    if args != [] {
      var taken := ConsumePositional(opts, st, args[0]).value;
      TailTakesRest(opts, taken.0, args[1..]);
      if taken.1.Some? && taken.1.value.container {
        TakenByContainer(opts, st, args[0]);
        TailAtContainer(opts, taken.0, args[1..], taken.1.value);
      }
      RestStep(opts, args, [RoleOf(taken.1)], Tail(OfferOf(opts), taken.0, args[1..]).value.0);
    }
  }

  lemma RestTogether(opts: Options, args: seq<string>, scanned: seq<Role>, tail: seq<Role>)
    requires |scanned| + |tail| == |args| && ContainerTakesRest(opts, args, scanned)
    requires ContainerTakesRest(opts, args[|scanned|..], tail)
    requires forall role <- scanned :: TakenByOne(role) ==> AllTo(opts, role.taker, args[|scanned|..], tail)
    ensures ContainerTakesRest(opts, args, scanned + tail)
  {
    var roles, n := scanned + tail, |scanned|;
    forall i | 0 <= i < |roles| && TakenByOne(roles[i])
      ensures AllTo(opts, roles[i].taker, args[i + 1..], roles[i + 1..])
    {
      if i >= n {
        assert roles[i] == tail[i - n] && roles[i + 1..] == tail[i + 1 - n..]
               && args[i + 1..] == args[n..][i + 1 - n..];
      } else {
        assert roles[i] in scanned;
        var later, behind := scanned[i + 1..], args[i + 1..];
        assert roles[i + 1..] == later + tail && behind[|later|..] == args[n..];
        AllToBoth(opts, roles[i].taker, behind, later, tail);
      }
    }
  }

  lemma AllToBoth(opts: Options, o: Detail, args: seq<string>, a: seq<Role>, b: seq<Role>)
    requires |a| + |b| <= |args| && AllTo(opts, o, args, a) && AllTo(opts, o, args[|a|..], b)
    ensures AllTo(opts, o, args, a + b)
  {
    assert forall i :: |a| <= i < |a| + |b| ==> args[i] == args[|a|..][i - |a|] && (a + b)[i] == b[i - |a|];
  }

  /** The first container that takes a positional argument takes every later one, before and after the separator:
      whatever comes later is an option, an option's value, the separator or taken too, but for unknown options,
      which are kept in permissive mode. */
  lemma FirstContainerTakesRest(opts: Options, args: seq<string>)
    requires Wf(opts) && Parse(opts, args).Success?
    ensures ContainerTakesRest(opts, args, Parse(opts, args).value.0)
  {
    ScanHoldsCursor(opts, START, args);
    var scan := Scan(StepOf(opts), START, args).value;
    var d, left := ApplyDefaults(opts, scan.1, opts.order).value, args[|scan.0|..];
    TailTakesRest(opts, d, left);
    var tail := Tail(OfferOf(opts), d, left).value;
    forall role <- scan.0 | TakenByOne(role) ensures AllTo(opts, role.taker, left, tail.0) {
      TailAtContainer(opts, d, left, role.taker);
    }
    RestTogether(opts, args, scan.0, tail.0);
  }

  // ----- Retained arguments ---------------------------------------------------------------

  /** An argument that could be an option: it starts with a dash and has more after it. */
  predicate LooksLikeOption(arg: string) {
    |arg| >= 2 && arg[0] == '-'
  }

  predicate PlainIfKept(arg: string, role: Role) {
    role == Kept || role.Consumed? ==> !LooksLikeOption(arg)
  }

  lemma StepKeepsPlain(opts: Options, st: State, arg: string, rest: seq<string>)
    requires !opts.allowUnrecognised && Step(opts, st, arg, rest).Success?
    ensures PlainIfKept(arg, Step(opts, st, arg, rest).value.role)
  {
  }

  lemma {:induction false} ScanKeepsPlain(opts: Options, st: State, args: seq<string>)
    requires !opts.allowUnrecognised && Scan(StepOf(opts), st, args).Success?
    ensures var roles := Scan(StepOf(opts), st, args).value.0;
            forall i :: 0 <= i < |roles| ==> PlainIfKept(args[i], roles[i])
    decreases args
  {
    if args != [] && args[0] != "--" {
      StepKeepsPlain(opts, st, args[0], args[1..]);
      var s := Step(opts, st, args[0], args[1..]).value;
      var mine := RolesOf(s, args[1..]);
      ScanKeepsPlain(opts, s.state, args[|mine|..]);
      var more := Scan(StepOf(opts), s.state, args[|mine|..]).value.0;
      PlainTogether(args, mine, more);
    }
  }

  lemma PlainTogether(args: seq<string>, mine: seq<Role>, more: seq<Role>)
    requires |mine| + |more| <= |args|
    requires forall i :: 0 <= i < |mine| ==> PlainIfKept(args[i], mine[i])
    requires forall i :: 0 <= i < |more| ==> PlainIfKept(args[|mine|..][i], more[i])
    ensures forall i :: 0 <= i < |mine + more| ==> PlainIfKept(args[i], (mine + more)[i])
  {
    assert forall i :: |mine| <= i < |mine + more| ==> args[i] == args[|mine|..][i - |mine|];
  }

  /** In strict mode no argument that looks like an option is retained or taken as positional, except behind
      the separator. */
  lemma StrictKeepsPlain(opts: Options, args: seq<string>, i: nat)
    requires Wf(opts) && Parse(opts, args).Success? && !opts.allowUnrecognised
    requires i < |args| && (Parse(opts, args).value.0[i] == Kept || Parse(opts, args).value.0[i].Consumed?)
    ensures LooksLikeOption(args[i])
            ==> exists k :: 0 <= k < i && Parse(opts, args).value.0[k] == Separator && args[k] == "--"
  {
    ScanKeepsPlain(opts, START, args);
    var scan := Scan(StepOf(opts), START, args).value.0;
    if i >= |scan| {
      ScanSeparates(opts, START, args);
      assert Parse(opts, args).value.0[|scan| - 1] == Separator;
    }
  }

  lemma {:induction false} ScanSeparates(opts: Options, st: State, args: seq<string>)
    requires Scan(StepOf(opts), st, args).Success? && |Scan(StepOf(opts), st, args).value.0| < |args|
    ensures var n := |Scan(StepOf(opts), st, args).value.0|; n > 0 && args[n - 1] == "--"
    decreases args
  {
    if args != [] && args[0] != "--" {
      var s := Step(opts, st, args[0], args[1..]).value;
      ScanSeparates(opts, s.state, args[|RolesOf(s, args[1..])|..]);
    }
  }

  // ----- Taken or kept --------------------------------------------------------------------

  /** The name is that of a scalar which has been given. */
  ghost predicate Spent(opts: Options, st: State, name: string) {
    name in opts.names && !opts.names[name].container && StoreOf(st, opts.names[name]).count > 0
  }

  /** The cursor has only passed scalars that were given. */
  ghost predicate Passed(opts: Options, st: State) {
    forall k :: 0 <= k < st.next && k < |opts.positional| ==> Spent(opts, st, opts.positional[k])
  }

  ghost predicate AllSpent(opts: Options, st: State) {
    forall k :: 0 <= k < |opts.positional| ==> Spent(opts, st, opts.positional[k])
  }

  /** No count gets smaller. */
  ghost predicate Grows(st: State, after: State) {
    forall o :: StoreOf(st, o).count <= StoreOf(after, o).count
  }

  lemma {:induction false} PositionalKept(opts: Options, st: State, arg: string)
    requires Passed(opts, st) && ConsumePositional(opts, st, arg).Success?
    ensures var r := ConsumePositional(opts, st, arg).value;
            (r.1.None? <==> AllSpent(opts, st)) && Passed(opts, r.0)
    decreases |opts.positional| - st.next
  {
    if st.next < |opts.positional| {
      var name := opts.positional[st.next];
      var o := opts.names[name];
      if !o.container && StoreOf(st, o).count > 0 {
        assert Spent(opts, st, name);
        PositionalKept(opts, st.(next := st.next + 1), arg);
      } else {
        assert !Spent(opts, st, name);
        var added := AddTo(opts.read, st, o, arg).value;
        assert Grows(st, added) && StoreOf(added, o).count > 0;
      }
    }
  }

  lemma StepPassed(opts: Options, st: State, arg: string, rest: seq<string>)
    requires Passed(opts, st) && Step(opts, st, arg, rest).Success?
    ensures Passed(opts, Step(opts, st, arg, rest).value.state)
  {
    var s := Step(opts, st, arg, rest).value;
    if Classify(arg).Plain? {
      PositionalKept(opts, st, arg);
    } else {
      forall o ensures StoreOf(st, o).count <= StoreOf(s.state, o).count { StepFair(opts, st, arg, rest, o); }
    }
  }

  /** The counts are those of some additions. */
  ghost predicate Counts(adds: seq<Addition>, st: State) {
    forall o :: StoreOf(st, o).count == |Given(adds, o)|
  }

  lemma MoreCounts(read: Reader, adds: seq<Addition>, st: State, more: seq<Addition>, after: State)
    requires Counts(adds, st) && AddAll(read, st, more) == Success(after.(next := st.next))
    ensures Counts(adds + more, after)
  {
    forall o ensures StoreOf(after, o).count == |Given(adds + more, o)| {
      AddAllStores(read, st, more, o);
      GivenConcat(adds, more, o);
    }
  }

  /** Every positional option is a scalar that has been given. */
  ghost predicate Exhausted(opts: Options, adds: seq<Addition>) {
    forall name <- opts.positional ::
      name in opts.names && !opts.names[name].container && Given(adds, opts.names[name]) != []
  }

  lemma SpentIsExhausted(opts: Options, adds: seq<Addition>, st: State)
    requires Counts(adds, st)
    ensures AllSpent(opts, st) <==> Exhausted(opts, adds)
  {
    if AllSpent(opts, st) {
      forall name <- opts.positional ensures Spent(opts, st, name) {
        var k :| 0 <= k < |opts.positional| && opts.positional[k] == name;
      }
    } else {
      var k :| 0 <= k < |opts.positional| && !Spent(opts, st, opts.positional[k]);
      assert opts.positional[k] in opts.positional;
    }
  }

  /** The argument was offered to the positional options and refused, or taken. */
  predicate Offered(arg: string, role: Role, behind: bool) {
    (role == Kept || role.Consumed?) && (behind || Classify(arg).Plain?)
  }

  /** At each place, an argument that was offered is kept exactly when the arguments before it have exhausted the
      positional options; some additions came before the stretch. */
  ghost predicate KeptWhenExhausted(opts: Options, adds: seq<Addition>, args: seq<string>, roles: seq<Role>,
                                    behind: bool)
    requires |roles| <= |args|
  {
    forall i :: 0 <= i < |roles| ==> KeptAt(opts, adds, args, roles, behind, i)
  }

  ghost predicate KeptAt(opts: Options, adds: seq<Addition>, args: seq<string>, roles: seq<Role>, behind: bool, i: nat)
    requires i < |roles| <= |args|
  {
    Offered(args[i], roles[i], behind) ==>
      (roles[i] == Kept <==> Exhausted(opts, adds + AdditionsOf(AdderOf(opts), args[..i], roles[..i])))
  }

  lemma KeptTogether(opts: Options, adds: seq<Addition>, args: seq<string>, s: Stepped, more: seq<Role>, behind: bool)
    requires args != [] && (s.takesNext ==> |args| > 1) && (more == [] || more[0] != OptionValue)
    requires |RolesOf(s, args[1..])| + |more| <= |args| && s.role != OptionValue
    requires Offered(args[0], s.role, behind) ==> (s.role == Kept <==> Exhausted(opts, adds))
    requires var n := |RolesOf(s, args[1..])|;
             var mine := AdderOf(opts)(args[0], s.role, Next(s.takesNext, args[1..]));
             KeptWhenExhausted(opts, adds + mine, args[n..], more, behind)
    ensures KeptWhenExhausted(opts, adds, args, RolesOf(s, args[1..]) + more, behind)
  {
    var first := RolesOf(s, args[1..]);
    var roles, n := first + more, |first|;
    var mine := AdderOf(opts)(args[0], s.role, Next(s.takesNext, args[1..]));
    forall i | 0 <= i < |roles| ensures KeptAt(opts, adds, args, roles, behind, i) {
      if i == 0 {
        assert adds + [] == adds;
      } else if i >= n {
        assert KeptAt(opts, adds + mine, args[n..], more, behind, i - n);
        KeptLater(opts, args, s, more, i);
        assert adds + (mine + AdditionsOf(AdderOf(opts), args[n..][..i - n], more[..i - n]))
            == adds + mine + AdditionsOf(AdderOf(opts), args[n..][..i - n], more[..i - n]);
      }
    }
  }

  /** What the arguments before a later place add. */
  lemma KeptLater(opts: Options, args: seq<string>, s: Stepped, more: seq<Role>, i: nat)
    requires args != [] && (s.takesNext ==> |args| > 1) && (more == [] || more[0] != OptionValue)
    requires |RolesOf(s, args[1..])| <= i < |RolesOf(s, args[1..])| + |more| <= |args|
    ensures var n := |RolesOf(s, args[1..])|;
            AdditionsOf(AdderOf(opts), args[..i], (RolesOf(s, args[1..]) + more)[..i]) ==
            AdderOf(opts)(args[0], s.role, Next(s.takesNext, args[1..]))
                + AdditionsOf(AdderOf(opts), args[n..][..i - n], more[..i - n])
  {
    var first := RolesOf(s, args[1..]);
    var used, n := args[..i], |first|;
    assert used[1..] == args[1..][..i - 1];
    assert RolesOf(s, used[1..]) == first;
    AdditionsOfStep(AdderOf(opts), used, s, more[..i - n]);
    assert (first + more)[..i] == first + more[..i - n] && used[n..] == args[n..][..i - n];
  }

  lemma {:induction false} ScanKept(opts: Options, st: State, args: seq<string>, adds: seq<Addition>)
    requires Passed(opts, st) && Counts(adds, st) && Scan(StepOf(opts), st, args).Success?
    ensures var r := Scan(StepOf(opts), st, args).value;
            Passed(opts, r.1) && KeptWhenExhausted(opts, adds, args, r.0, false) && (r.0 == [] || r.0[0] != OptionValue)
    decreases args
  {
    if args != [] && args[0] != "--" {
      var s := Step(opts, st, args[0], args[1..]).value;
      var mine := AdderOf(opts)(args[0], s.role, Next(s.takesNext, args[1..]));
      var rest := args[|RolesOf(s, args[1..])|..];
      StepPassed(opts, st, args[0], args[1..]);
      StepAdds(opts, st, args[0], args[1..]);
      MoreCounts(opts.read, adds, st, mine, s.state);
      ScanKept(opts, s.state, rest, adds + mine);
      if Classify(args[0]).Plain? {
        PositionalKept(opts, st, args[0]);
        SpentIsExhausted(opts, adds, st);
      }
      KeptTogether(opts, adds, args, s, Scan(StepOf(opts), s.state, rest).value.0, false);
    }
  }

  lemma {:induction false} TailKept(opts: Options, st: State, args: seq<string>, adds: seq<Addition>)
    requires Passed(opts, st) && Counts(adds, st) && Tail(OfferOf(opts), st, args).Success?
    ensures var roles := Tail(OfferOf(opts), st, args).value.0;
            KeptWhenExhausted(opts, adds, args, roles, true) && (roles == [] || roles[0] != OptionValue)
    decreases args
  {
    if args != [] {
      var taken := ConsumePositional(opts, st, args[0]).value;
      var s := Stepped(taken.0, RoleOf(taken.1), false);
      var mine := AdderOf(opts)(args[0], s.role, Next(false, args[1..]));
      PositionalKept(opts, st, args[0]);
      PositionalAdds(opts, st, args[0]);
      MoreCounts(opts.read, adds, st, mine, taken.0);
      TailKept(opts, taken.0, args[1..], adds + mine);
      SpentIsExhausted(opts, adds, st);
      KeptTogether(opts, adds, args, s, Tail(OfferOf(opts), taken.0, args[1..]).value.0, true);
    }
  }

  lemma DefaultsKeepCounts(opts: Options, st: State, adds: seq<Addition>)
    requires Wf(opts) && ApplyDefaults(opts, st, opts.order).Success? && Counts(adds, st) && Passed(opts, st)
    ensures var d := ApplyDefaults(opts, st, opts.order).value; Counts(adds, d) && Passed(opts, d)
  {
    var d := ApplyDefaults(opts, st, opts.order).value;
    forall o ensures StoreOf(d, o).count == StoreOf(st, o).count { DefaultsStore(opts, st, opts.order, o); }
    forall k | 0 <= k < d.next && k < |opts.positional| ensures Spent(opts, d, opts.positional[k]) {
      assert Spent(opts, st, opts.positional[k]);
    }
  }

  /** There is a separator before a place. */
  predicate Behind(roles: seq<Role>, i: nat)
    requires i <= |roles|
  {
    exists k :: 0 <= k < i && roles[k] == Separator
  }

  lemma ScannedNotBehind(opts: Options, args: seq<string>, roles: seq<Role>, i: nat)
    requires |roles| <= |args| && RolesFit(opts, args, roles) && i < |roles|
    ensures !Behind(roles, i)
  {
    forall k | 0 <= k < i ensures roles[k] != Separator { assert FitsAt(opts, args, roles, k); }
  }

  /** A plain argument, or any argument behind the separator, is kept exactly when the arguments before it have
      exhausted the positional options: each is a scalar and has been given, as an option or by position. */
  lemma KeptIffExhausted(opts: Options, args: seq<string>, i: nat)
    requires Wf(opts) && Parse(opts, args).Success? && i < |args|
    requires var roles := Parse(opts, args).value.0; Offered(args[i], roles[i], Behind(roles, i))
    ensures var roles := Parse(opts, args).value.0;
            roles[i] == Kept <==> Exhausted(opts, AdditionsOf(AdderOf(opts), args[..i], roles[..i]))
  {
    var scan := Scan(StepOf(opts), START, args).value;
    var scanned, n := scan.0, |scan.0|;
    ScanKept(opts, START, args, []);
    if i < n {
      var roles := Parse(opts, args).value.0;
      ScanRoles(opts, START, args);
      ScannedNotBehind(opts, args, scanned, i);
      assert roles[..i] == scanned[..i] && Behind(roles, i) == Behind(scanned, i);
      assert KeptAt(opts, [], args, scanned, false, i);
      assert [] + AdditionsOf(AdderOf(opts), args[..i], scanned[..i])
             == AdditionsOf(AdderOf(opts), args[..i], scanned[..i]);
    } else {
      KeptBehind(opts, args, i);
    }
  }

  lemma AfterScanCounts(opts: Options, args: seq<string>)
    requires Wf(opts) && Parse(opts, args).Success?
    ensures var d := ApplyDefaults(opts, Scan(StepOf(opts), START, args).value.1, opts.order).value;
            Counts(Scanned(opts, args), d) && Passed(opts, d)
  {
    var scan, first := Scan(StepOf(opts), START, args).value, Scanned(opts, args);
    OptionsAdd(opts);
    ScanAdds(opts.read, AdderOf(opts), StepOf(opts), START, args);
    MoreCounts(opts.read, [], START, first, scan.1);
    assert [] + first == first;
    ScanKept(opts, START, args, []);
    DefaultsKeepCounts(opts, scan.1, first);
  }

  lemma KeptBehind(opts: Options, args: seq<string>, i: nat)
    requires Wf(opts) && Parse(opts, args).Success? && |Scan(StepOf(opts), START, args).value.0| <= i < |args|
    ensures var roles := Parse(opts, args).value.0;
            roles[i] == Kept <==> Exhausted(opts, AdditionsOf(AdderOf(opts), args[..i], roles[..i]))
  {
    var scan := Scan(StepOf(opts), START, args).value;
    AfterScanCounts(opts, args);
    KeptInTail(opts, ApplyDefaults(opts, scan.1, opts.order).value, args, scan.0, i);
  }

  lemma TailKeptAt(opts: Options, d: State, left: seq<string>, first: seq<Addition>, j: nat)
    requires j < |left| && Tail(OfferOf(opts), d, left).Success? && Passed(opts, d) && Counts(first, d)
    ensures var tail := Tail(OfferOf(opts), d, left).value.0;
            && tail[0] != OptionValue
            && (tail[j] == Kept <==> Exhausted(opts, first + AdditionsOf(AdderOf(opts), left[..j], tail[..j])))
  {
    var tail := Tail(OfferOf(opts), d, left).value.0;
    TailKept(opts, d, left, first);
    TailRoles(opts, d, left);
    assert tail[j] in tail && KeptAt(opts, first, left, tail, true, j);
  }

  lemma KeptInTail(opts: Options, d: State, args: seq<string>, scanned: seq<Role>, i: nat)
    requires |scanned| <= i < |args| && Tail(OfferOf(opts), d, args[|scanned|..]).Success? && Passed(opts, d)
    requires Counts(AdditionsOf(AdderOf(opts), args[..|scanned|], scanned), d)
    ensures var roles := scanned + Tail(OfferOf(opts), d, args[|scanned|..]).value.0;
            roles[i] == Kept <==> Exhausted(opts, AdditionsOf(AdderOf(opts), args[..i], roles[..i]))
  {
    var left, first := args[|scanned|..], AdditionsOf(AdderOf(opts), args[..|scanned|], scanned);
    TailKeptAt(opts, d, left, first, i - |scanned|);
    BeforePlace(AdderOf(opts), args, scanned, Tail(OfferOf(opts), d, left).value.0, i);
  }

  lemma BeforePlace(adder: Adder, args: seq<string>, scanned: seq<Role>, tail: seq<Role>, i: nat)
    requires |scanned| <= i < |args| == |scanned| + |tail| && tail[0] != OptionValue
    ensures var n := |scanned|;
            AdditionsOf(adder, args[..i], (scanned + tail)[..i]) ==
            AdditionsOf(adder, args[..n], scanned) + AdditionsOf(adder, args[n..][..i - n], tail[..i - n])
  {
    var n := |scanned|;
    var a, b, r := args[..n], args[n..][..i - n], tail[..i - n];
    AdditionsConcat(adder, a, b, scanned, r);
    SplitAt(args, n, i);
    assert scanned + r == (scanned + tail)[..i];
  }

  lemma SplitAt(args: seq<string>, n: nat, i: nat)
    requires n <= i <= |args|
    ensures args[..n] + args[n..][..i - n] == args[..i]
  {
  }
}
