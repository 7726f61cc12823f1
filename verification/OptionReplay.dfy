/** After an accepted parse: the arguments say which texts were added to which options, the event log names them in
    that order, and the stores are a replay of them and of the defaults. */
module OptionReplay {
  import opened Wrappers
  import opened OptionValues
  import opened OptionSpec

  // ----- What the arguments and their roles add -----------------------------------------

  /** A text that is added to an option. */
  type Addition = (Detail, string)

  /** What an option adds that was given a value, or else its implicit value. */
  function AdditionOf(o: Detail, given: Option<string>): Addition {
    (o, if given.Some? then given.value else if o.implicit.Some? then o.implicit.value else "")
  }

  /** What a cluster adds whose last letter may have been given the next argument. */
  function LetterAdditions(opts: Options, letters: string, next: Option<string>): seq<Addition> {
    if letters == [] then []
    else
      (if [letters[0]] !in opts.names then []
       else [AdditionOf(opts.names[[letters[0]]], if |letters| == 1 then next else None)])
      + LetterAdditions(opts, letters[1..], next)
  }

  /** What an option token adds, with the next argument if that became its value. */
  function TokenAdditions(opts: Options, arg: string, next: Option<string>): seq<Addition> {
    match Classify(arg)
    case Plain => []
    case Short(letters) => LetterAdditions(opts, letters, next)
    case Long(name, value) =>
      if name !in opts.names then [] else [AdditionOf(opts.names[name], if value.Some? then value else next)]
  }

  /** What an argument adds by its role, with the next argument if that became its value. */
  function RoleAdditions(opts: Options, arg: string, role: Role, next: Option<string>): seq<Addition> {
    match role
    case Consumed(o) => [(o, arg)]
    case OptionToken => TokenAdditions(opts, arg, next)
    case _ => []
  }

  type Adder = (string, Role, Option<string>) -> seq<Addition>

  function AdderOf(opts: Options): Adder {
    (arg, role, next) => RoleAdditions(opts, arg, role, next)
  }

  function Next(takesNext: bool, rest: seq<string>): Option<string> {
    if takesNext && rest != [] then Some(rest[0]) else None
  }

  /** What arguments with these roles add, without any state. */
  function AdditionsOf(adder: Adder, args: seq<string>, roles: seq<Role>): seq<Addition>
    requires |args| == |roles|
    decreases args
  {
    if args == [] then []
    else if |roles| > 1 && roles[1] == OptionValue then
      adder(args[0], roles[0], Some(args[1])) + AdditionsOf(adder, args[2..], roles[2..])
    else
      adder(args[0], roles[0], None) + AdditionsOf(adder, args[1..], roles[1..])
  }

  /** Runs some additions one after the other. */
  function AddAll(read: Reader, st: State, adds: seq<Addition>): (r: Result<State, ParseError>)
    ensures r.Success? ==> r.value.next == st.next
    decreases adds
  {
    if adds == [] then Success(st)
    else
      var after :- AddTo(read, st, adds[0].0, adds[0].1);
      AddAll(read, after, adds[1..])
  }

  lemma {:induction false} AddAllConcat(read: Reader, st: State, a: seq<Addition>, b: seq<Addition>)
    ensures var first := AddAll(read, st, a);
            AddAll(read, st, a + b) == if first.Failure? then first else AddAll(read, first.value, b)
    decreases a
  {
    if a == [] {
      assert a + b == b;
    } else {
      assert (a + b)[0] == a[0] && (a + b)[1..] == a[1..] + b;
      var after := AddTo(read, st, a[0].0, a[0].1);
      if after.Success? { AddAllConcat(read, after.value, a[1..], b); }
    }
  }

  /** The cursor plays no part. */
  lemma {:induction false} AddAllNext(read: Reader, st: State, n: nat, adds: seq<Addition>)
    ensures var r := AddAll(read, st, adds);
            AddAll(read, st.(next := n), adds) == if r.Failure? then r else Success(r.value.(next := n))
    decreases adds
  {
    if adds != [] {
      var after := AddTo(read, st, adds[0].0, adds[0].1);
      if after.Success? {
        assert AddTo(read, st.(next := n), adds[0].0, adds[0].1) == Success(after.value.(next := n));
        AddAllNext(read, after.value, n, adds[1..]);
      }
    }
  }

  lemma AddOne(read: Reader, st: State, o: Detail, text: string)
    ensures AddAll(read, st, [(o, text)]) == AddTo(read, st, o, text)
  {
    assert [(o, text)][1..] == [];
  }

  // ----- Parsing runs them --------------------------------------------------------------

  lemma {:induction false} LettersAdd(opts: Options, st: State, letters: string, rest: seq<string>)
    requires ParseLetters(opts, st, letters, rest).Success?
    ensures var r := ParseLetters(opts, st, letters, rest).value;
            AddAll(opts.read, st, LetterAdditions(opts, letters, if r.1 then Some(rest[0]) else None)) == Success(r.0)
    decreases letters
  {
    if letters != [] {
      var r := ParseLetters(opts, st, letters, rest).value;
      var next := if r.1 then Some(rest[0]) else None;
      var more := LetterAdditions(opts, letters[1..], next);
      if [letters[0]] !in opts.names {
        LettersAdd(opts, st, letters[1..], rest);
        assert [] + more == more;
      } else {
        var o := opts.names[[letters[0]]];
        var add := AdditionOf(o, if |letters| == 1 then next else None);
        AddOne(opts.read, st, o, add.1);
        AddAllConcat(opts.read, st, [add], more);
        if |letters| > 1 {
          LettersAdd(opts, AddTo(opts.read, st, o, o.implicit.value).value, letters[1..], rest);
        }
      }
    }
  }

  lemma {:induction false} PositionalAdds(opts: Options, st: State, arg: string)
    requires ConsumePositional(opts, st, arg).Success?
    ensures var r := ConsumePositional(opts, st, arg).value;
            AddAll(opts.read, st, if r.1.Some? then [(r.1.value, arg)] else []) == Success(r.0.(next := st.next))
    decreases |opts.positional| - st.next
  {
    if st.next < |opts.positional| {
      var o := opts.names[opts.positional[st.next]];
      if !o.container && StoreOf(st, o).count > 0 {
        var on := st.(next := st.next + 1);
        PositionalAdds(opts, on, arg);
        var taken := ConsumePositional(opts, on, arg).value.1;
        AddAllNext(opts.read, on, st.next, if taken.Some? then [(taken.value, arg)] else []);
      } else {
        AddOne(opts.read, st, o, arg);
      }
    }
  }

  lemma StepAdds(opts: Options, st: State, arg: string, rest: seq<string>)
    requires Step(opts, st, arg, rest).Success?
    ensures var s := Step(opts, st, arg, rest).value;
            && AddAll(opts.read, st, RoleAdditions(opts, arg, s.role, Next(s.takesNext, rest)))
               == Success(s.state.(next := st.next))
            && s.role != OptionValue
  {
    match Classify(arg)
    case Plain => PositionalAdds(opts, st, arg);
    case Short(letters) => LettersAdd(opts, st, letters, rest);
    case Long(name, value) =>
      if name in opts.names {
        var o := opts.names[name];
        var next := Next(Step(opts, st, arg, rest).value.takesNext, rest);
        AddOne(opts.read, st, o, AdditionOf(o, if value.Some? then value else next).1);
      }
  }

  /** Each step runs the additions of its role; a value or separator never stands for itself. */
  ghost predicate StepsAdd(read: Reader, adder: Adder, step: Stepper) {
    && (forall arg :: adder(arg, Separator, None) == [])
    && (forall st, arg, rest :: step(st, arg, rest).Success? ==>
          var s := step(st, arg, rest).value;
          && AddAll(read, st, adder(arg, s.role, Next(s.takesNext, rest))) == Success(s.state.(next := st.next))
          && s.role != OptionValue)
  }

  /** Each offer of a positional argument runs the additions of its role. */
  ghost predicate OffersAdd(read: Reader, adder: Adder, offer: Offer) {
    forall st, arg :: offer(st, arg).Success? ==>
      var r := offer(st, arg).value;
      AddAll(read, st, adder(arg, RoleOf(r.1), None)) == Success(r.0.(next := st.next))
  }

  lemma OptionsAdd(opts: Options)
    ensures StepsAdd(opts.read, AdderOf(opts), StepOf(opts)) && OffersAdd(opts.read, AdderOf(opts), OfferOf(opts))
  {
    var adder, step, offer := AdderOf(opts), StepOf(opts), OfferOf(opts);
    forall st, arg, rest | step(st, arg, rest).Success?
      ensures var s := step(st, arg, rest).value;
              && AddAll(opts.read, st, adder(arg, s.role, Next(s.takesNext, rest)))
                 == Success(s.state.(next := st.next))
              && s.role != OptionValue
    {
      StepAdds(opts, st, arg, rest);
    }
    forall st, arg | offer(st, arg).Success?
      ensures var r := offer(st, arg).value;
              AddAll(opts.read, st, adder(arg, RoleOf(r.1), None)) == Success(r.0.(next := st.next))
    {
      PositionalAdds(opts, st, arg);
    }
  }

  /** The first arguments, used up by one step, contribute that step's additions. */
  lemma AdditionsOfStep(adder: Adder, args: seq<string>, s: Stepped, more: seq<Role>)
    requires args != [] && |RolesOf(s, args[1..])| + |more| == |args| && (more == [] || more[0] != OptionValue)
    ensures var mine := RolesOf(s, args[1..]);
            AdditionsOf(adder, args, mine + more) ==
            adder(args[0], s.role, Next(s.takesNext, args[1..])) + AdditionsOf(adder, args[|mine|..], more)
  {
    var mine := RolesOf(s, args[1..]);
    var roles := mine + more;
    assert roles[|mine|..] == more;
    assert |mine| == 2 ==> roles[1] == OptionValue;
    assert |mine| == 1 && more != [] ==> roles[1] == more[0];
  }

  /** Two runs, the first of which moved the cursor as well. */
  lemma AddBoth(read: Reader, st: State, a: seq<Addition>, mid: State, b: seq<Addition>, after: State)
    requires AddAll(read, st, a) == Success(mid.(next := st.next))
             && AddAll(read, mid, b) == Success(after.(next := mid.next))
    ensures AddAll(read, st, a + b) == Success(after.(next := st.next))
  {
    AddAllConcat(read, st, a, b);
    AddAllNext(read, mid, st.next, b);
  }

  lemma {:induction false} ScanAdds(read: Reader, adder: Adder, step: Stepper, st: State, args: seq<string>)
    requires StepsAdd(read, adder, step) && Scan(step, st, args).Success?
    ensures var r := Scan(step, st, args).value;
            && AddAll(read, st, AdditionsOf(adder, args[..|r.0|], r.0)) == Success(r.1.(next := st.next))
            && (r.0 != [] ==> r.0[0] != OptionValue)
    decreases args
  {
    if args == [] {
    } else if args[0] == "--" {
      assert AdditionsOf(adder, args[..1], [Separator]) == [];
    } else {
      var rest := args[1..];
      var s := step(st, args[0], rest).value;
      var mine := RolesOf(s, rest);
      ScanAdds(read, adder, step, s.state, args[|mine|..]);
      var more := Scan(step, s.state, args[|mine|..]).value;
      var used := args[..|mine| + |more.0|];
      assert used[1..] == rest[..|mine| + |more.0| - 1];
      assert Next(s.takesNext, rest) == Next(s.takesNext, used[1..]);
      AdditionsOfStep(adder, used, s, more.0);
      assert used[|mine|..] == args[|mine|..][..|more.0|];
      AddBoth(read, st, adder(args[0], s.role, Next(s.takesNext, rest)), s.state,
              AdditionsOf(adder, used[|mine|..], more.0), more.1);
    }
  }

  lemma {:induction false} TailAdds(read: Reader, adder: Adder, offer: Offer, st: State, args: seq<string>)
    requires OffersAdd(read, adder, offer) && Tail(offer, st, args).Success?
    ensures var r := Tail(offer, st, args).value;
            AddAll(read, st, AdditionsOf(adder, args, r.0)) == Success(r.1.(next := st.next)) && OptionValue !in r.0
    decreases args
  {
    if args != [] {
      var taken := offer(st, args[0]).value;
      TailAdds(read, adder, offer, taken.0, args[1..]);
      var more := Tail(offer, taken.0, args[1..]).value;
      var roles := [RoleOf(taken.1)] + more.0;
      assert roles[1..] == more.0 && (|roles| > 1 ==> roles[1] in more.0);
      AddBoth(read, st, adder(args[0], RoleOf(taken.1), None), taken.0, AdditionsOf(adder, args[1..], more.0), more.1);
    }
  }

  /** The arguments of the first role, with the next one if that is its value, and the rest. */
  lemma AdditionsFirst(adder: Adder, a: seq<string>, b: seq<string>, r: seq<Role>, s: seq<Role>)
    requires |a| == |r| > 0 && |b| == |s| && (s == [] || s[0] != OptionValue)
    ensures var n := if |r| > 1 && r[1] == OptionValue then 2 else 1;
            AdditionsOf(adder, a + b, r + s) ==
            adder(a[0], r[0], if n == 2 then Some(a[1]) else None) + AdditionsOf(adder, a[n..] + b, r[n..] + s)
  {
    var n := if |r| > 1 && r[1] == OptionValue then 2 else 1;
    assert (a + b)[n..] == a[n..] + b && (r + s)[n..] == r[n..] + s;
    assert |r| == 1 && s != [] ==> (r + s)[1] == s[0];
  }

  lemma {:induction false} AdditionsConcat(adder: Adder, a: seq<string>, b: seq<string>, r: seq<Role>, s: seq<Role>)
    requires |a| == |r| && |b| == |s| && (s == [] || s[0] != OptionValue)
    ensures AdditionsOf(adder, a + b, r + s) == AdditionsOf(adder, a, r) + AdditionsOf(adder, b, s)
    decreases a
  {
    if a == [] {
      assert a + b == b && r + s == s;
    } else {
      var n := if |r| > 1 && r[1] == OptionValue then 2 else 1;
      AdditionsFirst(adder, a, b, r, s);
      AdditionsConcat(adder, a[n..], b, r[n..], s);
    }
  }

  /** What an accepted parse adds, up to the separator and behind it. */
  ghost function Scanned(opts: Options, args: seq<string>): seq<Addition>
    requires Wf(opts) && Parse(opts, args).Success?
  {
    var roles := Scan(StepOf(opts), START, args).value.0;
    AdditionsOf(AdderOf(opts), args[..|roles|], roles)
  }

  ghost function Added(opts: Options, args: seq<string>): seq<Addition>
    requires Wf(opts) && Parse(opts, args).Success?
  {
    AdditionsOf(AdderOf(opts), args, Parse(opts, args).value.0)
  }

  /** An accepted parse runs what its arguments add: up to the separator, then the defaults, then the rest. */
  lemma ParseAdds(opts: Options, args: seq<string>) returns (st: State, d: State, behind: seq<Addition>)
    requires Wf(opts) && Parse(opts, args).Success?
    ensures Added(opts, args) == Scanned(opts, args) + behind
    ensures AddAll(opts.read, START, Scanned(opts, args)) == Success(st.(next := 0))
    ensures ApplyDefaults(opts, st, opts.order) == Success(d)
    ensures AddAll(opts.read, d, behind) == Success(Parse(opts, args).value.1.(next := d.next))
  {
    var adder, scan := AdderOf(opts), Scan(StepOf(opts), START, args).value;
    OptionsAdd(opts);
    ScanAdds(opts.read, adder, StepOf(opts), START, args);
    st := scan.1;
    d := ApplyDefaults(opts, st, opts.order).value;
    behind := AddsBehind(opts.read, adder, OfferOf(opts), d, args, scan.0);
  }

  lemma AddsBehind(read: Reader, adder: Adder, offer: Offer, d: State, args: seq<string>, scanned: seq<Role>)
    returns (behind: seq<Addition>)
    requires OffersAdd(read, adder, offer) && |scanned| <= |args| && Tail(offer, d, args[|scanned|..]).Success?
    ensures var tail := Tail(offer, d, args[|scanned|..]).value;
            && AdditionsOf(adder, args, scanned + tail.0) == AdditionsOf(adder, args[..|scanned|], scanned) + behind
            && AddAll(read, d, behind) == Success(tail.1.(next := d.next))
  {
    var left := args[|scanned|..];
    TailAdds(read, adder, offer, d, left);
    var tail := Tail(offer, d, left).value.0;
    behind := AdditionsOf(adder, left, tail);
    assert tail != [] ==> tail[0] in tail;
    assert args == args[..|scanned|] + left;
    AdditionsConcat(adder, args[..|scanned|], left, scanned, tail);
  }

  // ----- The log ----------------------------------------------------------------------------

  type Event = (string, string)

  /** The event log names an option by its long name. */
  function Logged(adds: seq<Addition>): seq<Event> {
    if adds == [] then [] else [(adds[0].0.long, adds[0].1)] + Logged(adds[1..])
  }

  lemma {:induction false} LoggedConcat(a: seq<Addition>, b: seq<Addition>)
    ensures Logged(a + b) == Logged(a) + Logged(b)
    decreases a
  {
    if a == [] {
      assert a + b == b;
    } else {
      assert (a + b)[0] == a[0] && (a + b)[1..] == a[1..] + b;
      LoggedConcat(a[1..], b);
    }
  }

  lemma Reassociate<T>(a: seq<T>, b: seq<T>, c: seq<T>)
    ensures a + b + c == a + (b + c)
  {
  }

  lemma {:induction false} AddAllLogs(read: Reader, st: State, adds: seq<Addition>)
    requires AddAll(read, st, adds).Success?
    ensures AddAll(read, st, adds).value.log == st.log + Logged(adds)
    decreases adds
  {
    if adds == [] {
      assert st.log + [] == st.log;
    } else {
      AddAllLogs(read, AddTo(read, st, adds[0].0, adds[0].1).value, adds[1..]);
      Reassociate(st.log, [(adds[0].0.long, adds[0].1)], Logged(adds[1..]));
    }
  }

  /** Conservation: the log of an accepted parse names exactly what the arguments add by their roles, in the order of
      the arguments; nothing is lost, doubled or moved. */
  lemma LogIsEvents(opts: Options, args: seq<string>)
    requires Wf(opts) && Parse(opts, args).Success?
    ensures Parse(opts, args).value.1.log == Logged(Added(opts, args))
  {
    var st, d, behind := ParseAdds(opts, args);
    var first := Scanned(opts, args);
    AddAllLogs(opts.read, START, first);
    AddAllLogs(opts.read, d, behind);
    LoggedConcat(first, behind);
    assert [] + Logged(first) == Logged(first);
  }

  // ----- The stores -----------------------------------------------------------------------

  /** The texts added to an option. */
  function Given(adds: seq<Addition>, o: Detail): (texts: seq<string>)
    ensures |texts| <= |adds|
  {
    if adds == [] then [] else (if adds[0].0 == o then [adds[0].1] else []) + Given(adds[1..], o)
  }

  lemma {:induction false} GivenConcat(a: seq<Addition>, b: seq<Addition>, o: Detail)
    ensures Given(a + b, o) == Given(a, o) + Given(b, o)
    decreases a
  {
    if a == [] {
      assert a + b == b;
    } else {
      assert (a + b)[0] == a[0] && (a + b)[1..] == a[1..] + b;
      GivenConcat(a[1..], b, o);
    }
  }

  /** The contents after reading some texts, one after the other, into a store. */
  function Fold(read: Reader, o: Detail, base: Content, texts: seq<string>): Option<Content>
    decreases texts
  {
    if texts == [] then Some(base)
    else
      var next := read(o, base, texts[0]);
      if next.None? then None else Fold(read, o, next.value, texts[1..])
  }

  lemma {:induction false} FoldConcat(read: Reader, o: Detail, base: Content, a: seq<string>, b: seq<string>)
    ensures var first := Fold(read, o, base, a);
            Fold(read, o, base, a + b) == if first.None? then None else Fold(read, o, first.value, b)
    decreases a
  {
    if a == [] {
      assert a + b == b;
    } else {
      assert (a + b)[0] == a[0] && (a + b)[1..] == a[1..] + b;
      var next := read(o, base, a[0]);
      if next.Some? { FoldConcat(read, o, next.value, a[1..], b); }
    }
  }

  /** A store is what some texts make of it: nothing if there are none, and else all of them read in turn. */
  ghost predicate Replays(read: Reader, o: Detail, content: Option<Content>, texts: seq<string>) {
    if texts == [] then content == None else content.Some? && content == Fold(read, o, Fresh(o), texts)
  }

  /** Reading more texts into a store that some texts have made. */
  lemma ReplaysMore(read: Reader, o: Detail, content: Option<Content>, texts: seq<string>, more: seq<string>,
                    after: Option<Content>)
    requires Replays(read, o, content, texts)
    requires if more == [] then after == content
             else after.Some? && after == Fold(read, o, if content.Some? then content.value else Fresh(o), more)
    ensures Replays(read, o, after, texts + more)
  {
    FoldConcat(read, o, Fresh(o), texts, more);
    assert more == [] ==> texts + more == texts;
    assert texts == [] ==> texts + more == more;
  }

  lemma {:induction false} AddAllStores(read: Reader, st: State, adds: seq<Addition>, o: Detail)
    requires AddAll(read, st, adds).Success?
    ensures var before, after, texts := StoreOf(st, o), StoreOf(AddAll(read, st, adds).value, o), Given(adds, o);
            && after.count == before.count + |texts|
            && (o in st.stores || texts != [] ==> o in AddAll(read, st, adds).value.stores)
            && (if texts == [] then after == before
                else after.content.Some? && after.content == Fold(read, o, ContentOf(o, before), texts))
    decreases adds
  {
    if adds != [] {
      var next := AddTo(read, st, adds[0].0, adds[0].1).value;
      AddAllStores(read, next, adds[1..], o);
      var more := Given(adds[1..], o);
      if adds[0].0 == o {
        assert Given(adds, o)[0] == adds[0].1 && Given(adds, o)[1..] == more;
      } else {
        assert Given(adds, o) == more;
      }
    }
  }

  ghost predicate InTable(opts: Options, o: Detail) {
    exists name <- opts.names :: opts.names[name] == o
  }

  // ----- Defaults -------------------------------------------------------------------------

  /** How often a walk over some names comes by an option. */
  function Visits(opts: Options, names: seq<string>, o: Detail): (n: nat)
    requires forall name <- names :: name in opts.names
  {
    if names == [] then 0 else (if opts.names[names[0]] == o then 1 else 0) + Visits(opts, names[1..], o)
  }

  function Copies(text: string, n: nat): (texts: seq<string>)
    ensures |texts| == n
  {
    if n == 0 then [] else [text] + Copies(text, n - 1)
  }

  /** The default texts that are read into an option that was not given: one for each of its names. */
  function DefaultTexts(opts: Options, names: seq<string>, o: Detail): seq<string>
    requires forall name <- names :: name in opts.names
  {
    if o.default.None? then [] else Copies(o.default.value, Visits(opts, names, o))
  }

  /** Filling in defaults gives every visited option a store and changes no count. */
  lemma {:induction false} DefaultsStore(opts: Options, st: State, names: seq<string>, o: Detail)
    requires (forall name <- names :: name in opts.names) && ApplyDefaults(opts, st, names).Success?
    ensures var after := ApplyDefaults(opts, st, names).value;
            && StoreOf(after, o).count == StoreOf(st, o).count
            && (o in st.stores || Visits(opts, names, o) > 0 ==> o in after.stores)
    decreases names
  {
    if names != [] {
      DefaultsStore(opts, ApplyDefault(opts.read, st, opts.names[names[0]]).value, names[1..], o);
    }
  }

  /** An option that was given keeps its contents; into any other its default is read once for each of its names. */
  lemma {:induction false} DefaultsFill(opts: Options, st: State, names: seq<string>, o: Detail)
    requires (forall name <- names :: name in opts.names) && ApplyDefaults(opts, st, names).Success?
    ensures var before, after := StoreOf(st, o), StoreOf(ApplyDefaults(opts, st, names).value, o);
            var texts := if before.count == 0 then DefaultTexts(opts, names, o) else [];
            && after.count == before.count
            && if texts == [] then after.content == before.content
               else after.content.Some? && after.content == Fold(opts.read, o, ContentOf(o, before), texts)
    decreases names
  {
    if names != [] {
      var p := opts.names[names[0]];
      var next := ApplyDefault(opts.read, st, p).value;
      DefaultsFill(opts, next, names[1..], o);
      if p == o && o.default.Some? {
        var texts := Copies(o.default.value, Visits(opts, names, o));
        assert texts[0] == o.default.value && texts[1..] == Copies(o.default.value, Visits(opts, names[1..], o));
      }
    }
  }

  lemma {:induction false} VisitedAt(opts: Options, names: seq<string>, o: Detail, i: nat)
    requires (forall name <- names :: name in opts.names) && i < |names| && opts.names[names[i]] == o
    ensures Visits(opts, names, o) > 0
    decreases names
  {
    if i > 0 { VisitedAt(opts, names[1..], o, i - 1); }
  }

  lemma AllVisited(opts: Options, o: Detail)
    requires Wf(opts) && InTable(opts, o)
    ensures Visits(opts, opts.order, o) > 0
  {
    var name :| name in opts.names && opts.names[name] == o;
    var i :| 0 <= i < |opts.order| && opts.order[i] == name;
    VisitedAt(opts, opts.order, o, i);
  }

  // ----- Every option after a parse ----------------------------------------------------------

  /** All that was read into an option: its default, if it was not given before the separator, once for each of its
      names; and then what was given, before and behind the separator. */
  ghost function Contents(opts: Options, args: seq<string>, o: Detail): seq<string>
    requires Wf(opts) && Parse(opts, args).Success?
  {
    (if Given(Scanned(opts, args), o) == [] then DefaultTexts(opts, opts.order, o) else [])
        + Given(Added(opts, args), o)
  }

  lemma ScannedReplays(read: Reader, adds: seq<Addition>, st: State, o: Detail)
    requires AddAll(read, START, adds) == Success(st.(next := 0))
    ensures StoreOf(st, o).count == |Given(adds, o)| && Replays(read, o, StoreOf(st, o).content, Given(adds, o))
  {
    AddAllStores(read, START, adds, o);
  }

  lemma DefaultsReplay(opts: Options, st: State, d: State, first: seq<string>, o: Detail)
    requires Wf(opts) && InTable(opts, o) && ApplyDefaults(opts, st, opts.order) == Success(d)
    requires StoreOf(st, o).count == |first| && Replays(opts.read, o, StoreOf(st, o).content, first)
    ensures o in d.stores && StoreOf(d, o).count == |first|
    ensures var texts := if first == [] then DefaultTexts(opts, opts.order, o) else first;
            Replays(opts.read, o, StoreOf(d, o).content, texts)
  {
    AllVisited(opts, o);
    DefaultsStore(opts, st, opts.order, o);
    DefaultsFill(opts, st, opts.order, o);
  }

  lemma BehindReplays(read: Reader, d: State, behind: seq<Addition>, after: State, texts: seq<string>, o: Detail)
    requires o in d.stores && Replays(read, o, StoreOf(d, o).content, texts)
    requires AddAll(read, d, behind) == Success(after.(next := d.next))
    ensures o in after.stores && after.stores[o].count == StoreOf(d, o).count + |Given(behind, o)|
    ensures Replays(read, o, after.stores[o].content, texts + Given(behind, o))
  {
    AddAllStores(read, d, behind, o);
    ReplaysMore(read, o, StoreOf(d, o).content, texts, Given(behind, o), after.stores[o].content);
  }

  /** Every declared option has a store after an accepted parse, scalar or container, whatever its names and default: it
      counts the texts given, and holds all that was read in their order. */
  lemma StoresReplay(opts: Options, args: seq<string>, o: Detail)
    requires Wf(opts) && Parse(opts, args).Success? && InTable(opts, o)
    ensures var st := Parse(opts, args).value.1;
            && o in st.stores
            && st.stores[o].count == |Given(Added(opts, args), o)|
            && Replays(opts.read, o, st.stores[o].content, Contents(opts, args, o))
  {
    var st, d, behind := ParseAdds(opts, args);
    var first := Given(Scanned(opts, args), o);
    var texts := if first == [] then DefaultTexts(opts, opts.order, o) else first;
    ScannedReplays(opts.read, Scanned(opts, args), st, o);
    DefaultsReplay(opts, st, d, first, o);
    BehindReplays(opts.read, d, behind, Parse(opts, args).value.1, texts, o);
    GivenConcat(Scanned(opts, args), behind, o);
    ContentsAre(opts, args, behind, o);
  }

  lemma ContentsAre(opts: Options, args: seq<string>, behind: seq<Addition>, o: Detail)
    requires Wf(opts) && Parse(opts, args).Success? && Added(opts, args) == Scanned(opts, args) + behind
    ensures var first := Given(Scanned(opts, args), o);
            Contents(opts, args, o)
                == (if first == [] then DefaultTexts(opts, opts.order, o) else first) + Given(behind, o)
  {
    GivenConcat(Scanned(opts, args), behind, o);
    var first, more := Given(Scanned(opts, args), o), Given(behind, o);
    assert [] + more == more && [] + (first + more) == first + more;
  }

  // ----- In terms of the log ------------------------------------------------------------------

  /** The texts logged under a name. */
  function Texts(log: seq<Event>, long: string): seq<string> {
    if log == [] then [] else (if log[0].0 == long then [log[0].1] else []) + Texts(log[1..], long)
  }

  ghost predicate AllInTable(opts: Options, adds: seq<Addition>) {
    forall add <- adds :: InTable(opts, add.0)
  }

  lemma {:induction false} GivenIsLogged(opts: Options, adds: seq<Addition>, o: Detail)
    requires Wf(opts) && AllInTable(opts, adds) && InTable(opts, o) && o.long != []
    ensures Given(adds, o) == Texts(Logged(adds), o.long)
    decreases adds
  {
    if adds != [] {
      assert adds[0] in adds && (adds[0].0 != o ==> adds[0].0.long != o.long);
      assert Logged(adds)[0] == (adds[0].0.long, adds[0].1) && Logged(adds)[1..] == Logged(adds[1..]);
      GivenIsLogged(opts, adds[1..], o);
    }
  }

  lemma {:induction false} LettersInTable(opts: Options, letters: string, next: Option<string>)
    ensures AllInTable(opts, LetterAdditions(opts, letters, next))
    decreases letters
  {
    if letters != [] { LettersInTable(opts, letters[1..], next); }
  }

  lemma RoleInTable(opts: Options, arg: string, role: Role, next: Option<string>)
    requires role.Consumed? ==> InTable(opts, role.taker)
    ensures AllInTable(opts, RoleAdditions(opts, arg, role, next))
  {
    if role == OptionToken && Classify(arg).Short? { LettersInTable(opts, Classify(arg).letters, next); }
  }

  ghost predicate TakersInTable(opts: Options, roles: seq<Role>) {
    forall role <- roles :: role.Consumed? ==> InTable(opts, role.taker)
  }

  lemma {:induction false} AdditionsInTable(opts: Options, args: seq<string>, roles: seq<Role>)
    requires |args| == |roles| && TakersInTable(opts, roles)
    ensures AllInTable(opts, AdditionsOf(AdderOf(opts), args, roles))
    decreases args
  {
    if args != [] {
      var both := |roles| > 1 && roles[1] == OptionValue;
      var n := if both then 2 else 1;
      RoleInTable(opts, args[0], roles[0], if both then Some(args[1]) else None);
      AdditionsInTable(opts, args[n..], roles[n..]);
    }
  }

  lemma {:induction false} TakerInTable(opts: Options, st: State, arg: string)
    requires ConsumePositional(opts, st, arg).Success?
    ensures var taker := ConsumePositional(opts, st, arg).value.1; taker.Some? ==> InTable(opts, taker.value)
    decreases |opts.positional| - st.next
  {
    if st.next < |opts.positional| {
      var o := opts.names[opts.positional[st.next]];
      if !o.container && StoreOf(st, o).count > 0 { TakerInTable(opts, st.(next := st.next + 1), arg); }
    }
  }

  lemma {:induction false} ScanTakers(opts: Options, st: State, args: seq<string>)
    requires Scan(StepOf(opts), st, args).Success?
    ensures TakersInTable(opts, Scan(StepOf(opts), st, args).value.0)
    decreases args
  {
    if args != [] && args[0] != "--" {
      if Classify(args[0]).Plain? { TakerInTable(opts, st, args[0]); }
      var s := Step(opts, st, args[0], args[1..]).value;
      ScanTakers(opts, s.state, args[|RolesOf(s, args[1..])|..]);
    }
  }

  lemma {:induction false} TailTakers(opts: Options, st: State, args: seq<string>)
    requires Tail(OfferOf(opts), st, args).Success?
    ensures TakersInTable(opts, Tail(OfferOf(opts), st, args).value.0)
    decreases args
  {
    if args != [] {
      TakerInTable(opts, st, args[0]);
      TailTakers(opts, ConsumePositional(opts, st, args[0]).value.0, args[1..]);
    }
  }

  lemma AddedInTable(opts: Options, args: seq<string>)
    requires Wf(opts) && Parse(opts, args).Success?
    ensures AllInTable(opts, Added(opts, args))
  {
    var scan := Scan(StepOf(opts), START, args).value;
    ScanTakers(opts, START, args);
    TailTakers(opts, ApplyDefaults(opts, scan.1, opts.order).value, args[|scan.0|..]);
    AdditionsInTable(opts, args, Parse(opts, args).value.0);
  }

  /** The count of an option with a long name is its number of log entries, scalar or container, with or without a
      default. */
  lemma CountIsLogged(opts: Options, args: seq<string>, o: Detail)
    requires Wf(opts) && Parse(opts, args).Success? && InTable(opts, o) && o.long != []
    ensures var st := Parse(opts, args).value.1; StoreOf(st, o).count == |Texts(st.log, o.long)|
  {
    StoresReplay(opts, args, o);
    LogIsEvents(opts, args);
    AddedInTable(opts, args);
    GivenIsLogged(opts, Added(opts, args), o);
  }

  /** The counts of the options that have only a short name, each under its one name. */
  ghost function ShortCounts(opts: Options, names: seq<string>, st: State): nat
    requires forall name <- names :: name in opts.names
  {
    if names == [] then 0
    else (if opts.names[names[0]].long == [] then StoreOf(st, opts.names[names[0]]).count else 0)
         + ShortCounts(opts, names[1..], st)
  }

  /** The texts added to them. */
  ghost function ShortGiven(opts: Options, names: seq<string>, adds: seq<Addition>): nat
    requires forall name <- names :: name in opts.names
  {
    if names == [] then 0
    else (if opts.names[names[0]].long == [] then |Given(adds, opts.names[names[0]])| else 0)
         + ShortGiven(opts, names[1..], adds)
  }

  ghost predicate Distinct(names: seq<string>) {
    forall i, j :: 0 <= i < j < |names| ==> names[i] != names[j]
  }

  /** One more addition is counted once, if its option has only a short name and that is among the names. */
  lemma {:induction false} ShortGivenStep(opts: Options, names: seq<string>, add: Addition, adds: seq<Addition>)
    requires Wf(opts) && Distinct(names) && (forall name <- names :: name in opts.names) && InTable(opts, add.0)
    ensures ShortGiven(opts, names, [add] + adds) ==
            (if add.0.long == [] && add.0.short in names then 1 else 0) + ShortGiven(opts, names, adds)
    decreases names
  {
    if names != [] {
      var o := opts.names[names[0]];
      assert ([add] + adds)[1..] == adds;
      assert Named(opts, names[0], o);
      assert add.0.long == [] ==> (o == add.0 <==> names[0] == add.0.short);
      assert names == [names[0]] + names[1..];
      assert names[0] !in names[1..];
      ShortGivenStep(opts, names[1..], add, adds);
    }
  }

  lemma {:induction false} ShortGivenNone(opts: Options, names: seq<string>)
    requires forall name <- names :: name in opts.names
    ensures ShortGiven(opts, names, []) == 0
    decreases names
  {
    if names != [] { ShortGivenNone(opts, names[1..]); }
  }

  lemma {:induction false} ShortGivenIsLogged(opts: Options, adds: seq<Addition>)
    requires Wf(opts) && AllInTable(opts, adds)
    ensures ShortGiven(opts, opts.order, adds) == |Texts(Logged(adds), [])|
    decreases adds
  {
    if adds == [] {
      ShortGivenNone(opts, opts.order);
    } else {
      var o := adds[0].0;
      assert adds[0] in adds && adds == [adds[0]] + adds[1..];
      var name :| name in opts.names && opts.names[name] == o;
      assert Named(opts, name, o);
      ShortGivenStep(opts, opts.order, adds[0], adds[1..]);
      ShortGivenIsLogged(opts, adds[1..]);
      assert Logged(adds)[0] == (o.long, adds[0].1) && Logged(adds)[1..] == Logged(adds[1..]);
    }
  }

  lemma {:induction false} ShortCountsGiven(opts: Options, names: seq<string>, st: State, adds: seq<Addition>)
    requires forall name <- names :: name in opts.names
    requires forall name <- names :: StoreOf(st, opts.names[name]).count == |Given(adds, opts.names[name])|
    ensures ShortCounts(opts, names, st) == ShortGiven(opts, names, adds)
    decreases names
  {
    if names != [] { ShortCountsGiven(opts, names[1..], st, adds); }
  }

  /** The counts of the options that have only a short name add up to the log entries under the empty name. */
  lemma ShortCountsAreLogged(opts: Options, args: seq<string>)
    requires Wf(opts) && Parse(opts, args).Success?
    ensures var st := Parse(opts, args).value.1; ShortCounts(opts, opts.order, st) == |Texts(st.log, [])|
  {
    var st := Parse(opts, args).value.1;
    forall name <- opts.order
      ensures StoreOf(st, opts.names[name]).count == |Given(Added(opts, args), opts.names[name])|
    {
      StoresReplay(opts, args, opts.names[name]);
    }
    ShortCountsGiven(opts, opts.order, st, Added(opts, args));
    LogIsEvents(opts, args);
    AddedInTable(opts, args);
    ShortGivenIsLogged(opts, Added(opts, args));
  }

  // ----- Scalars and containers ----------------------------------------------------------------

  /** Reading a scalar does not depend on what it held; reading into a container may. */
  ghost predicate ScalarsOverwrite(read: Reader) {
    forall o: Detail, x, y, text :: !o.container ==> read(o, x, text) == read(o, y, text)
  }

  lemma StandardScalarsOverwrite()
    ensures ScalarsOverwrite(STANDARD)
  {
  }

  lemma {:induction false} LastOverwrites(read: Reader, o: Detail, base: Content, texts: seq<string>)
    requires ScalarsOverwrite(read) && !o.container && texts != [] && Fold(read, o, base, texts).Some?
    ensures Fold(read, o, base, texts) == read(o, Fresh(o), texts[|texts| - 1])
    decreases texts
  {
    assert read(o, base, texts[0]) == read(o, Fresh(o), texts[0]);
    if |texts| > 1 { LastOverwrites(read, o, read(o, base, texts[0]).value, texts[1..]); }
  }

  lemma {:induction false} LastCopy(text: string, n: nat)
    requires n > 0
    ensures Copies(text, n)[n - 1] == text
  {
    if n > 1 { LastCopy(text, n - 1); }
  }

  /** A scalar holds the last value given, else its default, else nothing; if it has a long name, the value is the last
      one logged under it. */
  lemma StoresReplayLog(opts: Options, args: seq<string>, o: Detail)
    requires Wf(opts) && Parse(opts, args).Success? && ScalarsOverwrite(opts.read)
    requires InTable(opts, o) && !o.container
    ensures var st, texts := Parse(opts, args).value.1, Given(Added(opts, args), o);
            && o in st.stores && st.stores[o].count == |texts|
            && (o.long != [] ==> texts == Texts(st.log, o.long))
            && st.stores[o].content ==
                 if texts != [] then opts.read(o, Fresh(o), texts[|texts| - 1])
                 else if o.default.Some? then opts.read(o, Fresh(o), o.default.value) else None
  {
    var all, texts := Contents(opts, args, o), Given(Added(opts, args), o);
    StoresReplay(opts, args, o);
    LogIsEvents(opts, args);
    AddedInTable(opts, args);
    if o.long != [] { GivenIsLogged(opts, Added(opts, args), o); }
    if all != [] { LastOverwrites(opts.read, o, Fresh(o), all); }
    AllVisited(opts, o);
    if texts == [] && o.default.Some? {
      GivenOfScanned(opts, args, o);
      assert all == Copies(o.default.value, Visits(opts, opts.order, o));
      LastCopy(o.default.value, |all|);
    } else {
      assert texts != [] ==> all[|all| - 1] == texts[|texts| - 1];
    }
  }

  lemma GivenOfScanned(opts: Options, args: seq<string>, o: Detail)
    requires Wf(opts) && Parse(opts, args).Success?
    ensures Given(Scanned(opts, args), o) <= Given(Added(opts, args), o)
  {
    var st, d, behind := ParseAdds(opts, args);
    GivenConcat(Scanned(opts, args), behind, o);
  }

  /** A container that was given before the separator, or has no default, holds everything that was given, read in
      order; if it has a long name, that is everything logged under it. */
  lemma ContainersReplayLog(opts: Options, args: seq<string>, o: Detail)
    requires Wf(opts) && Parse(opts, args).Success?
    requires InTable(opts, o) && (o.default.None? || Given(Scanned(opts, args), o) != [])
    ensures var st, texts := Parse(opts, args).value.1, Given(Added(opts, args), o);
            && o in st.stores && Replays(opts.read, o, st.stores[o].content, texts)
            && (o.long != [] ==> texts == Texts(st.log, o.long))
  {
    StoresReplay(opts, args, o);
    LogIsEvents(opts, args);
    AddedInTable(opts, args);
    if o.long != [] { GivenIsLogged(opts, Added(opts, args), o); }
    var texts := Given(Added(opts, args), o);
    assert [] + texts == texts;
  }

  // ----- How often a default is read -------------------------------------------------------------

  /** How many names an option has. */
  function NameCount(o: Detail): nat {
    (if o.short != [] then 1 else 0) + (if o.long != [] && o.long != o.short then 1 else 0)
  }

  lemma {:induction false} VisitsAreNames(opts: Options, names: seq<string>, o: Detail)
    requires Wf(opts) && Distinct(names) && (forall name <- names :: name in opts.names) && InTable(opts, o)
    ensures Visits(opts, names, o) ==
            (if o.short in names && o.short != [] then 1 else 0)
            + (if o.long in names && o.long != [] && o.long != o.short then 1 else 0)
    decreases names
  {
    if names != [] {
      assert names == [names[0]] + names[1..] && names[0] !in names[1..];
      assert Named(opts, names[0], opts.names[names[0]]);
      var name :| name in opts.names && opts.names[name] == o;
      assert Named(opts, name, o);
      VisitsAreNames(opts, names[1..], o);
    }
  }

  /** The default of an option that was not given is read once for each of its names. */
  lemma DefaultPerName(opts: Options, args: seq<string>, o: Detail)
    requires Wf(opts) && Parse(opts, args).Success? && InTable(opts, o) && o.default.Some?
    requires Given(Added(opts, args), o) == []
    ensures Contents(opts, args, o) == Copies(o.default.value, NameCount(o))
    ensures StoreOf(Parse(opts, args).value.1, o).content
            == Fold(opts.read, o, Fresh(o), Copies(o.default.value, NameCount(o)))
  {
    GivenOfScanned(opts, args, o);
    VisitsAreNames(opts, opts.order, o);
    var name :| name in opts.names && opts.names[name] == o;
    assert Named(opts, name, o);
    assert Copies(o.default.value, NameCount(o)) + [] == Copies(o.default.value, NameCount(o));
    StoresReplay(opts, args, o);
  }

  /** A list of texts with two names and the default "a". */
  const VEC := Detail("v", "vec", Text, true, Some("a"), None)

  function VecOptions(): Options {
    Options(map["v" := VEC, "vec" := VEC], ["v", "vec"], [], false, STANDARD)
  }

  /** So a list that has two names and is not given holds its default twice. */
  lemma DefaultTwice()
    ensures Wf(VecOptions()) && Parse(VecOptions(), []).Success?
    ensures StoreOf(Parse(VecOptions(), []).value.1, VEC) == Store(0, Some([Str("a"), Str("a")]))
  {
    var opts := VecOptions();
    assert opts.order[1..] == ["vec"] && opts.order[1..][1..] == [];
    assert Tokens("a") == ["a"] by { TokensOfPart("a", []); }
    assert ReadAll(Text, ["a"]) == Some([Str("a")]) by { assert ["a"][1..] == [] && [Str("a")] + [] == [Str("a")]; }
    assert ReadInto(VEC, [], "a") == Some([Str("a")]) by { assert [] + [Str("a")] == [Str("a")]; }
    assert [Str("a")] + [Str("a")] == [Str("a"), Str("a")];
    assert ReadInto(VEC, [Str("a")], "a") == Some([Str("a"), Str("a")]);
    var once := State(map[VEC := Store(0, Some([Str("a")]))], [], 0);
    var twice := State(map[VEC := Store(0, Some([Str("a"), Str("a")]))], [], 0);
    assert ApplyDefault(STANDARD, START, VEC) == Success(once);
    assert once.stores[VEC := twice.stores[VEC]] == twice.stores;
    assert ApplyDefault(STANDARD, once, VEC) == Success(twice);
    assert ApplyDefaults(opts, once, ["vec"]) == Success(twice);
    assert ApplyDefaults(opts, START, opts.order) == Success(twice);
    assert Scan(StepOf(opts), START, []) == Success(([], START));
  }
}
