/** Which command lines are accepted: the form of the options is right, and every text that they and the positional
    options are given can be read (lib/cxxopts.hpp:1579-1886). */
module OptionForm {
  import opened Wrappers
  import opened OptionValues
  import opened OptionSpec
  import opened OptionRoles
  import opened OptionReplay

  // ----- The form of the arguments ---------------------------------------------------------

  /** In a cluster every letter is declared, unless unknown ones are let through, and each one that is has an implicit
      value, except that the last may take the next argument. */
  predicate LettersFit(opts: Options, letters: string) {
    forall i :: 0 <= i < |letters| ==>
      if [letters[i]] !in opts.names then opts.allowUnrecognised
      else i == |letters| - 1 || opts.names[[letters[i]]].implicit.Some?
  }

  /** An argument where an option may stand: an option of these forms that has a next argument if it needs one, or else
      no option at all, and then nothing that looks like one unless such are let through. */
  predicate FitsForm(opts: Options, arg: string, rest: seq<string>) {
    && (NeedsValue(opts, arg) ==> rest != [])
    && match Classify(arg)
       case Plain => |arg| < 2 || arg[0] != '-' || opts.allowUnrecognised
       case Short(letters) => LettersFit(opts, letters)
       case Long(name, _) => name in opts.names || opts.allowUnrecognised
  }

  /** Up to the separator every argument that is not the value of an option fits. */
  predicate FormFits(opts: Options, args: seq<string>)
    decreases args
  {
    if args == [] || args[0] == "--" then true
    else
      && FitsForm(opts, args[0], args[1..])
      && FormFits(opts, if NeedsValue(opts, args[0]) then args[2..] else args[1..])
  }

  /** Every name in the list of positional options is declared. */
  predicate PositionalsKnown(opts: Options) {
    forall name <- opts.positional :: name in opts.names
  }

  // ----- Reading apart from form ---------------------------------------------------------------

  const EASY: Reader := (o, former, text) => Some([])

  /** The same options, whose values are any texts. */
  function Lenient(opts: Options): (easy: Options)
    ensures Wf(opts) ==> Wf(easy)
  {
    var easy := opts.(read := EASY);
    assert Wf(opts)
           ==> forall name <- opts.names :: Named(opts, name, opts.names[name]) && Named(easy, name, opts.names[name]);
    easy
  }

  /** States that differ in what the stores hold. */
  ghost predicate Alike(s: State, t: State) {
    s.next == t.next && forall o :: StoreOf(s, o).count == StoreOf(t, o).count
  }

  lemma AddAlike(read: Reader, s: State, t: State, o: Detail, text: string)
    requires Alike(s, t)
    ensures AddTo(EASY, t, o, text).Success?
    ensures AddTo(read, s, o, text).Success? ==> Alike(AddTo(read, s, o, text).value, AddTo(EASY, t, o, text).value)
  {
    if AddTo(read, s, o, text).Success? {
      var a, b := AddTo(read, s, o, text).value, AddTo(EASY, t, o, text).value;
      forall p ensures StoreOf(a, p).count == StoreOf(b, p).count {
        assert StoreOf(s, p).count == StoreOf(t, p).count && StoreOf(s, o).count == StoreOf(t, o).count;
      }
    }
  }

  lemma MovedAlike(s: State, t: State, n: nat)
    requires Alike(s, t)
    ensures Alike(s.(next := n), t.(next := n))
  {
    assert forall o :: StoreOf(s.(next := n), o) == StoreOf(s, o) && StoreOf(t.(next := n), o) == StoreOf(t, o);
  }

  // ----- One argument --------------------------------------------------------------------------

  lemma {:induction false} EasyLetters(opts: Options, t: State, letters: string, rest: seq<string>)
    ensures var r := ParseLetters(Lenient(opts), t, letters, rest);
            && (r.Success? <==> LettersFit(opts, letters) && (LetterNeedsValue(opts, letters) ==> rest != []))
            && (r.Success? ==> r.value.0.next == t.next && r.value.1 == LetterNeedsValue(opts, letters))
    decreases letters
  {
    if letters != [] {
      var more := letters[1..];
      assert more != [] ==> more[|more| - 1] == letters[|letters| - 1];
      LettersFitStep(opts, letters);
      if [letters[0]] !in opts.names {
        EasyLetters(opts, t, more, rest);
      } else if |letters| > 1 {
        var o := opts.names[[letters[0]]];
        if o.implicit.Some? { EasyLetters(opts, AddTo(EASY, t, o, o.implicit.value).value, more, rest); }
      }
    }
  }

  lemma LettersFitStep(opts: Options, letters: string)
    requires letters != []
    ensures LettersFit(opts, letters) <==>
              && LettersFit(opts, letters[1..])
              && if [letters[0]] !in opts.names then opts.allowUnrecognised
                 else |letters| == 1 || opts.names[[letters[0]]].implicit.Some?
  {
    var more := letters[1..];
    if LettersFit(opts, letters) {
      forall i | 0 <= i < |more|
        ensures if [more[i]] !in opts.names then opts.allowUnrecognised
                else i == |more| - 1 || opts.names[[more[i]]].implicit.Some?
      {
        assert more[i] == letters[i + 1];
      }
    }
    assert forall i :: 0 < i < |letters| ==> letters[i] == more[i - 1];
  }

  lemma {:induction false} EasyPositional(opts: Options, t: State, arg: string)
    requires PositionalsKnown(opts)
    ensures ConsumePositional(Lenient(opts), t, arg).Success?
    decreases |opts.positional| - t.next
  {
    if t.next < |opts.positional| {
      assert opts.positional[t.next] in opts.positional;
      var o := opts.names[opts.positional[t.next]];
      if !o.container && StoreOf(t, o).count > 0 { EasyPositional(opts, t.(next := t.next + 1), arg); }
    }
  }

  /** With values that are any texts a step succeeds exactly on an argument that fits. */
  lemma EasyStep(opts: Options, t: State, arg: string, rest: seq<string>)
    requires PositionalsKnown(opts)
    ensures var r := Step(Lenient(opts), t, arg, rest);
            && (r.Success? <==> FitsForm(opts, arg, rest))
            && (r.Success? ==> r.value.takesNext == NeedsValue(opts, arg))
  {
    match Classify(arg)
    case Plain => EasyPositional(opts, t, arg);
    case Short(letters) => EasyLetters(opts, t, letters, rest);
    case Long(_, _) =>
  }

  lemma {:induction false} EasyScan(opts: Options, t: State, args: seq<string>)
    requires PositionalsKnown(opts)
    ensures Scan(StepOf(Lenient(opts)), t, args).Success? <==> FormFits(opts, args)
    decreases args
  {
    if args != [] && args[0] != "--" {
      EasyStep(opts, t, args[0], args[1..]);
      var r := Step(Lenient(opts), t, args[0], args[1..]);
      if r.Success? { EasyScan(opts, r.value.state, args[|RolesOf(r.value, args[1..])|..]); }
    }
  }

  lemma {:induction false} EasyTail(opts: Options, t: State, args: seq<string>)
    requires PositionalsKnown(opts)
    ensures Tail(OfferOf(Lenient(opts)), t, args).Success?
    decreases args
  {
    if args != [] {
      EasyPositional(opts, t, args[0]);
      EasyTail(opts, ConsumePositional(Lenient(opts), t, args[0]).value.0, args[1..]);
    }
  }

  lemma {:induction false} EasyDefaults(opts: Options, t: State, names: seq<string>)
    requires forall name <- names :: name in opts.names
    ensures ApplyDefaults(Lenient(opts), t, names).Success?
    decreases names
  {
    if names != [] {
      EasyDefaults(opts, ApplyDefault(EASY, t, opts.names[names[0]]).value, names[1..]);
    }
  }

  /** With values that are any texts, a command line is accepted exactly if its form fits. */
  lemma EasyParse(opts: Options, args: seq<string>)
    requires Wf(opts) && PositionalsKnown(opts)
    ensures Parse(Lenient(opts), args).Success? <==> FormFits(opts, args)
  {
    var easy := Lenient(opts);
    EasyScan(opts, START, args);
    var scan := Scan(StepOf(easy), START, args);
    if scan.Success? {
      EasyDefaults(opts, scan.value.1, opts.order);
      var d := ApplyDefaults(easy, scan.value.1, opts.order).value;
      EasyTail(opts, d, args[|scan.value.0|..]);
    }
  }

  // ----- What a refusal says -----------------------------------------------------------------------

  /** The letter does not fit: it is unknown, or has no implicit value where one is needed. */
  predicate Misfit(opts: Options, letters: string, i: nat)
    requires i < |letters|
  {
    if [letters[i]] !in opts.names then !opts.allowUnrecognised
    else i < |letters| - 1 && opts.names[[letters[i]]].implicit.None?
  }

  predicate FirstMisfit(opts: Options, letters: string, i: nat) {
    i < |letters| && Misfit(opts, letters, i) && forall k :: 0 <= k < i ==> !Misfit(opts, letters, k)
  }

  /** What is wrong with a cluster: its first letter that does not fit, or else that there is no next argument. */
  ghost predicate LettersFault(opts: Options, letters: string, e: ParseError) {
    if LettersFit(opts, letters) then LetterNeedsValue(opts, letters) && e == MissingArgument
    else exists i: nat | FirstMisfit(opts, letters, i) ::
           e == if [letters[i]] !in opts.names then NotExists else RequiresArgument
  }

  ghost predicate FaultIs(opts: Options, arg: string, e: ParseError) {
    match Classify(arg)
    case Plain => e == BadSyntax
    case Short(letters) => LettersFault(opts, letters, e)
    case Long(name, _) => e == if name !in opts.names then NotExists else MissingArgument
  }

  lemma MisfitBehind(opts: Options, letters: string, k: nat)
    requires letters != [] && k < |letters| - 1
    ensures Misfit(opts, letters, k + 1) == Misfit(opts, letters[1..], k)
  {
    assert letters[1..][k] == letters[k + 1];
  }

  lemma LettersFaultStep(opts: Options, letters: string, e: ParseError)
    requires letters != [] && !Misfit(opts, letters, 0) && LettersFault(opts, letters[1..], e)
    requires letters[1..] != []
    ensures LettersFault(opts, letters, e)
  {
    var more := letters[1..];
    LettersFitStep(opts, letters);
    assert more[|more| - 1] == letters[|letters| - 1];
    if !LettersFit(opts, more) {
      var i: nat :| FirstMisfit(opts, more, i) && e == if [more[i]] !in opts.names then NotExists else RequiresArgument;
      forall k | 0 <= k < i + 1 ensures !Misfit(opts, letters, k) {
        if k > 0 { MisfitBehind(opts, letters, k - 1); }
      }
      MisfitBehind(opts, letters, i);
      assert FirstMisfit(opts, letters, i + 1);
    }
  }

  lemma {:induction false} LettersRefused(opts: Options, st: State, letters: string, rest: seq<string>)
    requires ParseLetters(opts, st, letters, rest).Failure?
    requires ParseLetters(opts, st, letters, rest).error != IncorrectType
    ensures LettersFault(opts, letters, ParseLetters(opts, st, letters, rest).error)
    ensures LettersFit(opts, letters) ==> rest == []
    decreases letters
  {
    LettersFitStep(opts, letters);
    if Misfit(opts, letters, 0) {
      assert FirstMisfit(opts, letters, 0);
    } else if |letters| > 1 {
      var o := [letters[0]];
      var next := if o in opts.names then AddTo(opts.read, st, opts.names[o], opts.names[o].implicit.value).value
          else st;
      LettersRefused(opts, next, letters[1..], rest);
      LettersFaultStep(opts, letters, ParseLetters(opts, st, letters, rest).error);
    } else {
      assert ParseLetters(opts, st, letters[1..], rest).Success?;
    }
  }

  lemma {:induction false} PositionalRefused(opts: Options, st: State, arg: string)
    requires PositionalsKnown(opts) && ConsumePositional(opts, st, arg).Failure?
    ensures ConsumePositional(opts, st, arg).error == IncorrectType
    decreases |opts.positional| - st.next
  {
    var o := opts.names[opts.positional[st.next]];
    if !o.container && StoreOf(st, o).count > 0 { PositionalRefused(opts, st.(next := st.next + 1), arg); }
  }

  /** A refusal that is not of a text that can not be read is of an argument that does not fit, and says why not. */
  lemma RefusalMeans(opts: Options, st: State, arg: string, rest: seq<string>)
    requires PositionalsKnown(opts) && Step(opts, st, arg, rest).Failure?
    requires Step(opts, st, arg, rest).error != IncorrectType
    ensures !FitsForm(opts, arg, rest) && FaultIs(opts, arg, Step(opts, st, arg, rest).error)
  {
    match Classify(arg)
    case Plain => if ConsumePositional(opts, st, arg).Failure? { PositionalRefused(opts, st, arg); }
    case Short(letters) => LettersRefused(opts, st, letters, rest);
    case Long(_, _) =>
  }

  // ----- The values that are read ----------------------------------------------------------------

  lemma {:induction false} LettersRead(opts: Options, s: State, t: State, letters: string, rest: seq<string>)
    requires Alike(s, t)
    ensures var r, e := ParseLetters(opts, s, letters, rest), ParseLetters(Lenient(opts), t, letters, rest);
            && (r.Success? <==>
                  && e.Success?
                  && AddAll(opts.read, s,
                            LetterAdditions(opts, letters, if e.value.1 then Some(rest[0]) else None)).Success?)
            && (r.Success? ==> r.value.1 == e.value.1 && Alike(r.value.0, e.value.0))
    decreases letters
  {
    if letters != [] {
      var e := ParseLetters(Lenient(opts), t, letters, rest);
      var next := if e.Success? && e.value.1 then Some(rest[0]) else None;
      var more := LetterAdditions(opts, letters[1..], next);
      if [letters[0]] !in opts.names {
        LettersRead(opts, s, t, letters[1..], rest);
        assert [] + more == more;
      } else {
        var o := opts.names[[letters[0]]];
        var add := AdditionOf(o, if |letters| == 1 then next else None);
        AddOne(opts.read, s, o, add.1);
        AddAllConcat(opts.read, s, [add], more);
        AddAlike(opts.read, s, t, o, add.1);
        if |letters| > 1 && o.implicit.Some? && AddTo(opts.read, s, o, o.implicit.value).Success? {
          LettersRead(opts, AddTo(opts.read, s, o, o.implicit.value).value, AddTo(EASY, t, o, o.implicit.value).value,
                      letters[1..], rest);
        }
      }
    }
  }

  lemma {:induction false} PositionalRead(opts: Options, s: State, t: State, arg: string)
    requires Alike(s, t)
    ensures var r, e := ConsumePositional(opts, s, arg), ConsumePositional(Lenient(opts), t, arg);
            && (r.Success? <==>
                  e.Success? && AddAll(opts.read, s, if e.value.1.Some? then [(e.value.1.value, arg)] else []).Success?)
            && (r.Success? ==> r.value.1 == e.value.1 && Alike(r.value.0, e.value.0))
    decreases |opts.positional| - s.next
  {
    if s.next < |opts.positional| && opts.positional[s.next] in opts.names {
      var o := opts.names[opts.positional[s.next]];
      assert StoreOf(s, o).count == StoreOf(t, o).count;
      if !o.container && StoreOf(s, o).count > 0 {
        var on, other := s.(next := s.next + 1), t.(next := t.next + 1);
        MovedAlike(s, t, s.next + 1);
        PositionalRead(opts, on, other, arg);
        var e := ConsumePositional(Lenient(opts), other, arg);
        if e.Success? {
          AddAllNext(opts.read, on, s.next, if e.value.1.Some? then [(e.value.1.value, arg)] else []);
        }
      } else {
        AddOne(opts.read, s, o, arg);
        AddAlike(opts.read, s, t, o, arg);
        var after := AddTo(opts.read, s, o, arg);
        if after.Success? { MovedAlike(after.value, AddTo(EASY, t, o, arg).value, s.next + 1); }
      }
    }
  }

  /** A step succeeds exactly if it does with values that are any texts and what it adds can be read. */
  ghost predicate ReadsStep(opts: Options, s: State, arg: string, rest: seq<string>, r: Result<Stepped, ParseError>,
                            e: Result<Stepped, ParseError>)
  {
    && (r.Success? <==>
          && e.Success?
          && AddAll(opts.read, s, RoleAdditions(opts, arg, e.value.role, Next(e.value.takesNext, rest))).Success?)
    && (r.Success? ==>
          && r.value.role == e.value.role && r.value.takesNext == e.value.takesNext
          && Alike(r.value.state, e.value.state))
  }

  lemma StepRead(opts: Options, s: State, t: State, arg: string, rest: seq<string>)
    requires Alike(s, t)
    ensures ReadsStep(opts, s, arg, rest, Step(opts, s, arg, rest), Step(Lenient(opts), t, arg, rest))
  {
    match Classify(arg)
    case Plain => PositionalRead(opts, s, t, arg);
    case Short(letters) => LettersRead(opts, s, t, letters, rest);
    case Long(name, value) =>
      if name in opts.names {
        var o := opts.names[name];
        var given := if value.Some? then value else if rest != [] && o.implicit.None? then Some(rest[0]) else None;
        var text := AdditionOf(o, given).1;
        AddOne(opts.read, s, o, text);
        AddAlike(opts.read, s, t, o, text);
      }
  }

  /** The same of some arguments. */
  ghost predicate ReadsAll(read: Reader, adder: Adder, s: State, args: seq<string>, r: Parsed, e: Parsed)
    requires e.Success? ==> |e.value.0| <= |args|
  {
    && (r.Success? <==>
          e.Success? && AddAll(read, s, AdditionsOf(adder, args[..|e.value.0|], e.value.0)).Success?)
    && (r.Success? ==> r.value.0 == e.value.0 && Alike(r.value.1, e.value.1))
  }

  /** What the arguments of a step add. */
  lemma MineAdds(adder: Adder, args: seq<string>, s: Stepped)
    requires args != []
    ensures var mine := RolesOf(s, args[1..]);
            AdditionsOf(adder, args[..|mine|], mine) == adder(args[0], s.role, Next(s.takesNext, args[1..]))
  {
    var used := args[..|RolesOf(s, args[1..])|];
    assert RolesOf(s, args[1..])[|used|..] == [] && used[|used|..] == [];
    assert used[0] == args[0] && (|used| == 2 ==> used[1] == args[1]);
    assert AdditionsOf(adder, [], []) == [];
  }

  /** What a step adds, and what the arguments behind it add. */
  lemma StepParts(adder: Adder, args: seq<string>, n: nat, mine: seq<Role>, more: seq<Role>)
    requires n == |mine| && n + |more| <= |args| && (more == [] || more[0] != OptionValue)
    ensures AdditionsOf(adder, args[..n + |more|], mine + more) ==
            AdditionsOf(adder, args[..n], mine) + AdditionsOf(adder, args[n..][..|more|], more)
  {
    assert args[..n + |more|] == args[..n] + args[n..][..|more|];
    AdditionsConcat(adder, args[..n], args[n..][..|more|], mine, more);
  }

  /** The first step and the rest of a scan that succeeds. */
  lemma ScanParts(read: Reader, adder: Adder, step: Stepper, t: State, args: seq<string>)
    requires StepsAdd(read, adder, step) && args != [] && args[0] != "--" && Scan(step, t, args).Success?
    ensures var e := step(t, args[0], args[1..]).value;
            var n := |RolesOf(e, args[1..])|;
            var more := Scan(step, e.state, args[n..]).value.0;
            var roles := Scan(step, t, args).value.0;
            && |roles| == n + |more|
            && AdditionsOf(adder, args[..|roles|], roles) ==
               adder(args[0], e.role, Next(e.takesNext, args[1..])) + AdditionsOf(adder, args[n..][..|more|], more)
  {
    var e := step(t, args[0], args[1..]).value;
    var n := |RolesOf(e, args[1..])|;
    ScanAdds(read, adder, step, e.state, args[n..]);
    MineAdds(adder, args, e);
    StepParts(adder, args, n, RolesOf(e, args[1..]), Scan(step, e.state, args[n..]).value.0);
  }

  /** Two runs, the first of which moved the cursor as well. */
  lemma RunBoth(read: Reader, s: State, adds: seq<Addition>, others: seq<Addition>)
    ensures AddAll(read, s, adds).Failure? ==> AddAll(read, s, adds + others).Failure?
    ensures forall mid: State | AddAll(read, s, adds) == Success(mid.(next := s.next)) ::
              AddAll(read, s, adds + others).Success? <==> AddAll(read, mid, others).Success?
  {
    AddAllConcat(read, s, adds, others);
    forall mid: State | AddAll(read, s, adds) == Success(mid.(next := s.next))
      ensures AddAll(read, s, adds + others).Success? <==> AddAll(read, mid, others).Success?
    {
      AddAllNext(read, mid, s.next, others);
    }
  }

  /** What is added does not depend on the reader. */
  lemma EasyAdds(opts: Options)
    ensures StepsAdd(EASY, AdderOf(opts), StepOf(Lenient(opts)))
    ensures OffersAdd(EASY, AdderOf(opts), OfferOf(Lenient(opts)))
  {
    OptionsAdd(Lenient(opts));
    forall arg, role, next ensures AdderOf(opts)(arg, role, next) == AdderOf(Lenient(opts))(arg, role, next) {
      SameTokens(opts, arg, next);
    }
  }

  lemma SameTokens(opts: Options, arg: string, next: Option<string>)
    ensures TokenAdditions(opts, arg, next) == TokenAdditions(Lenient(opts), arg, next)
  {
    if Classify(arg).Short? { SameLetters(opts, Classify(arg).letters, next); }
  }

  lemma {:induction false} SameLetters(opts: Options, letters: string, next: Option<string>)
    ensures LetterAdditions(opts, letters, next) == LetterAdditions(Lenient(opts), letters, next)
    decreases letters
  {
    if letters != [] { SameLetters(opts, letters[1..], next); }
  }

  lemma {:induction false} ScanRead(opts: Options, s: State, t: State, args: seq<string>)
    requires Alike(s, t)
    ensures ReadsAll(opts.read, AdderOf(opts), s, args, Scan(StepOf(opts), s, args),
                     Scan(StepOf(Lenient(opts)), t, args))
    decreases args
  {
    if args == [] {
    } else if args[0] == "--" {
      assert AdditionsOf(AdderOf(opts), args[..1], [Separator]) == [];
    } else {
      var rest := args[1..];
      var r, e := Step(opts, s, args[0], rest), Step(Lenient(opts), t, args[0], rest);
      StepRead(opts, s, t, args[0], rest);
      if r.Success? {
        var n := |RolesOf(r.value, rest)|;
        ScanRead(opts, r.value.state, e.value.state, args[n..]);
        StepAdds(opts, s, args[0], rest);
      }
      if e.Success? && Scan(StepOf(Lenient(opts)), t, args).Success? {
        EasyAdds(opts);
        ScanParts(EASY, AdderOf(opts), StepOf(Lenient(opts)), t, args);
        var n := |RolesOf(e.value, rest)|;
        var more := Scan(StepOf(Lenient(opts)), e.value.state, args[n..]).value.0;
        var adds := RoleAdditions(opts, args[0], e.value.role, Next(e.value.takesNext, rest));
        var others := AdditionsOf(AdderOf(opts), args[n..][..|more|], more);
        RunBoth(opts.read, s, adds, others);
      }
    }
  }

  lemma {:induction false} TailRead(opts: Options, s: State, t: State, args: seq<string>)
    requires Alike(s, t)
    ensures ReadsAll(opts.read, AdderOf(opts), s, args, Tail(OfferOf(opts), s, args),
                     Tail(OfferOf(Lenient(opts)), t, args))
    decreases args
  {
    if args != [] {
      var r, e := ConsumePositional(opts, s, args[0]), ConsumePositional(Lenient(opts), t, args[0]);
      PositionalRead(opts, s, t, args[0]);
      if r.Success? {
        TailRead(opts, r.value.0, e.value.0, args[1..]);
        PositionalAdds(opts, s, args[0]);
      }
      if e.Success? && Tail(OfferOf(Lenient(opts)), e.value.0, args[1..]).Success? {
        var more := Tail(OfferOf(Lenient(opts)), e.value.0, args[1..]).value.0;
        TailParts(opts, e.value.0, args, e.value.1);
        var adds := RoleAdditions(opts, args[0], RoleOf(e.value.1), None);
        var others := AdditionsOf(AdderOf(opts), args[1..], more);
        assert args[1..][..|more|] == args[1..] && args[..|more| + 1] == args;
        RunBoth(opts.read, s, adds, others);
      }
    }
  }

  lemma TailParts(opts: Options, t: State, args: seq<string>, taker: Option<Detail>)
    requires args != [] && Tail(OfferOf(Lenient(opts)), t, args[1..]).Success?
    ensures var more := Tail(OfferOf(Lenient(opts)), t, args[1..]).value.0;
            AdditionsOf(AdderOf(opts), args, [RoleOf(taker)] + more) ==
            RoleAdditions(opts, args[0], RoleOf(taker), None) + AdditionsOf(AdderOf(opts), args[1..], more)
  {
    var easy := Lenient(opts);
    var more := Tail(OfferOf(easy), t, args[1..]).value.0;
    OptionsAdd(easy);
    TailAdds(EASY, AdderOf(easy), OfferOf(easy), t, args[1..]);
    var roles := [RoleOf(taker)] + more;
    assert roles[1..] == more && (|roles| > 1 ==> roles[1] in more);
  }

  lemma {:induction false} DefaultsAlike(opts: Options, s: State, t: State, names: seq<string>)
    requires Alike(s, t) && forall name <- names :: name in opts.names
    ensures ApplyDefaults(Lenient(opts), t, names).Success?
    ensures var r := ApplyDefaults(opts, s, names);
            r.Success? ==> Alike(r.value, ApplyDefaults(Lenient(opts), t, names).value)
    decreases names
  {
    EasyDefaults(opts, t, names);
    if names != [] {
      var o := opts.names[names[0]];
      var r, e := ApplyDefault(opts.read, s, o), ApplyDefault(EASY, t, o).value;
      if r.Success? {
        forall p ensures StoreOf(r.value, p).count == StoreOf(e, p).count {
          assert StoreOf(s, p).count == StoreOf(t, p).count && StoreOf(s, o).count == StoreOf(t, o).count;
        }
        DefaultsAlike(opts, r.value, e, names[1..]);
      }
    }
  }

  /** What the arguments of a form add can be read: up to the separator, then the defaults, then the rest. */
  ghost predicate Readable(opts: Options, args: seq<string>, roles: seq<Role>, n: nat)
    requires Wf(opts) && n <= |roles| == |args|
  {
    var first := AddAll(opts.read, START, AdditionsOf(AdderOf(opts), args[..n], roles[..n]));
    first.Success? && ReadableBehind(opts, args, n, first.value, roles)
  }

  lemma {:induction false} DefaultsNext(opts: Options, st: State, n: nat, names: seq<string>)
    requires forall name <- names :: name in opts.names
    ensures var r := ApplyDefaults(opts, st, names);
            ApplyDefaults(opts, st.(next := n), names) == if r.Failure? then r else Success(r.value.(next := n))
    decreases names
  {
    if names != [] {
      var after := ApplyDefault(opts.read, st, opts.names[names[0]]);
      if after.Success? {
        assert ApplyDefault(opts.read, st.(next := n), opts.names[names[0]]) == Success(after.value.(next := n));
        DefaultsNext(opts, after.value, n, names[1..]);
      }
    }
  }

  /** What comes behind the scanned arguments. */
  ghost predicate ReadableBehind(opts: Options, args: seq<string>, scanned: nat, s: State, roles: seq<Role>)
    requires Wf(opts) && scanned <= |args| == |roles|
  {
    var d := ApplyDefaults(opts, s, opts.order);
    d.Success? && AddAll(opts.read, d.value, AdditionsOf(AdderOf(opts), args[scanned..], roles[scanned..])).Success?
  }

  lemma BehindRead(opts: Options, args: seq<string>, scanned: seq<Role>, s: State, t: State)
    requires Wf(opts) && |scanned| <= |args| && Alike(s, t)
    ensures var r, e := AfterScan(opts, args, scanned, s), AfterScan(Lenient(opts), args, scanned, t);
            && (r.Success? <==> e.Success? && ReadableBehind(opts, args, |scanned|, s, e.value.0))
            && (r.Success? ==> r.value.0 == e.value.0)
  {
    DefaultsAlike(opts, s, t, opts.order);
    var d, e := ApplyDefaults(opts, s, opts.order), ApplyDefaults(Lenient(opts), t, opts.order).value;
    var left := args[|scanned|..];
    var tail := Tail(OfferOf(Lenient(opts)), e, left);
    if tail.Success? {
      assert left[..|tail.value.0|] == left && (scanned + tail.value.0)[|scanned|..] == tail.value.0;
    }
    if d.Success? { TailRead(opts, d.value, e, left); }
  }

  /** The cursor plays no part. */
  lemma ReadableAnywhere(opts: Options, args: seq<string>, scanned: nat, s: State, n: nat, roles: seq<Role>)
    requires Wf(opts) && scanned <= |args| == |roles|
    ensures ReadableBehind(opts, args, scanned, s.(next := n), roles) <==> ReadableBehind(opts, args, scanned, s, roles)
  {
    DefaultsNext(opts, s, n, opts.order);
    var d := ApplyDefaults(opts, s, opts.order);
    if d.Success? { AddAllNext(opts.read, d.value, n, AdditionsOf(AdderOf(opts), args[scanned..], roles[scanned..])); }
  }

  /** A command line is accepted exactly if it is with values that are any texts, and what its arguments then add can be
      read; and its arguments have the same roles. */
  lemma ParseRead(opts: Options, args: seq<string>)
    requires Wf(opts)
    ensures var r, e := Parse(opts, args), Parse(Lenient(opts), args);
            && (r.Success? <==>
                  && e.Success?
                  && Readable(opts, args, e.value.0, |Scan(StepOf(Lenient(opts)), START, args).value.0|))
            && (r.Success? ==> r.value.0 == e.value.0)
  {
    var r, e := Scan(StepOf(opts), START, args), Scan(StepOf(Lenient(opts)), START, args);
    var whole := Parse(Lenient(opts), args);
    ScanRead(opts, START, START, args);
    if r.Success? {
      BehindRead(opts, args, r.value.0, r.value.1, e.value.1);
      OptionsAdd(opts);
      ScanAdds(opts.read, AdderOf(opts), StepOf(opts), START, args);
      if whole.Success? { ReadableAnywhere(opts, args, |r.value.0|, r.value.1, 0, whole.value.0); }
    }
    if whole.Success? {
      assert whole.value.0[..|e.value.0|] == e.value.0;
    }
  }

  /** With the positional options declared, a command line is accepted exactly if its form fits and what its arguments
      add can be read. */
  lemma ParseAccepts(opts: Options, args: seq<string>)
    requires Wf(opts) && PositionalsKnown(opts)
    ensures FormFits(opts, args) ==> Parse(Lenient(opts), args).Success?
    ensures Parse(opts, args).Success? <==>
              FormFits(opts, args) && Readable(opts, args, Parse(Lenient(opts), args).value.0,
                                               |Scan(StepOf(Lenient(opts)), START, args).value.0|)
  {
    EasyParse(opts, args);
    ParseRead(opts, args);
  }
}
