/** What the role of an argument says about it (lib/cxxopts.hpp:1732-1882). */
module OptionRoles {
  import opened OptionSpec

  /** The argument is a cluster of letters, or a long option that is declared. */
  predicate IsOption(opts: Options, arg: string) {
    match Classify(arg)
    case Plain => false
    case Short(_) => true
    case Long(name, _) => name in opts.names
  }

  /** A long option that is not declared. */
  predicate IsUnknown(opts: Options, arg: string) {
    Classify(arg).Long? && Classify(arg).name !in opts.names
  }

  /** The argument is an option that takes the next argument as its value: its last letter, or its name, has no
      implicit value, and no value comes with it. */
  predicate NeedsValue(opts: Options, arg: string) {
    match Classify(arg)
    case Plain => false
    case Short(letters) => LetterNeedsValue(opts, letters)
    case Long(name, value) => name in opts.names && value.None? && opts.names[name].implicit.None?
  }

  predicate LetterNeedsValue(opts: Options, letters: string) {
    letters != [] &&
    var last := [letters[|letters| - 1]];
    last in opts.names && opts.names[last].implicit.None?
  }

  /** The argument an argument's role calls for. A value may be any text. */
  predicate RoleFits(opts: Options, arg: string, role: Role) {
    match role
    case OptionToken => IsOption(opts, arg)
    case OptionValue => true
    case Separator => arg == "--"
    case Consumed(_) => Classify(arg).Plain? && arg != "--"
    case Kept => arg != "--" && (Classify(arg).Plain? || (opts.allowUnrecognised && IsUnknown(opts, arg)))
  }

  /** Up to the separator: every role fits its argument, an argument is a value exactly when the one before is an
      option that needs one, and the separator comes last. */
  predicate RolesFit(opts: Options, args: seq<string>, roles: seq<Role>)
    requires |roles| <= |args|
  {
    forall i :: 0 <= i < |roles| ==> FitsAt(opts, args, roles, i)
  }

  predicate FitsAt(opts: Options, args: seq<string>, roles: seq<Role>, i: nat)
    requires i < |roles| <= |args|
  {
    && RoleFits(opts, args[i], roles[i])
    && (roles[i] == OptionValue <==> i > 0 && roles[i - 1] == OptionToken && NeedsValue(opts, args[i - 1]))
    && (roles[i] == Separator ==> i == |roles| - 1)
  }

  lemma {:induction false} LettersNeed(opts: Options, st: State, letters: string, rest: seq<string>)
    requires letters != [] && ParseLetters(opts, st, letters, rest).Success?
    ensures ParseLetters(opts, st, letters, rest).value.1 <==> LetterNeedsValue(opts, letters)
    decreases letters
  {
    if |letters| > 1 {
      if [letters[0]] !in opts.names {
        LettersNeed(opts, st, letters[1..], rest);
      } else {
        var o := opts.names[[letters[0]]];
        LettersNeed(opts, AddTo(opts.read, st, o, o.implicit.value).value, letters[1..], rest);
      }
    } else {
      assert letters[1..] == [];
    }
  }

  lemma StepRole(opts: Options, st: State, arg: string, rest: seq<string>)
    requires arg != "--" && Step(opts, st, arg, rest).Success?
    ensures var s := Step(opts, st, arg, rest).value;
            && RoleFits(opts, arg, s.role) && s.role != OptionValue && s.role != Separator
            && (s.takesNext <==> s.role == OptionToken && NeedsValue(opts, arg))
  {
    if Classify(arg).Short? { LettersNeed(opts, st, Classify(arg).letters, rest); }
  }

  lemma RolesFitStep(opts: Options, args: seq<string>, s: Stepped, more: seq<Role>)
    requires args != [] && (s.takesNext ==> |args| > 1)
    requires var mine := RolesOf(s, args[1..]); |mine| + |more| <= |args| && RolesFit(opts, args[|mine|..], more)
    requires RoleFits(opts, args[0], s.role) && s.role != OptionValue && s.role != Separator
    requires s.takesNext <==> s.role == OptionToken && NeedsValue(opts, args[0])
    requires more == [] ==> |RolesOf(s, args[1..])| == |args|
    ensures RolesFit(opts, args, RolesOf(s, args[1..]) + more)
  {
    var mine := RolesOf(s, args[1..]);
    var roles, n := mine + more, |mine|;
    forall i | 0 <= i < |roles| ensures FitsAt(opts, args, roles, i) {
      if i > n {
        assert FitsAt(opts, args[n..], more, i - n);
        assert roles[i - 1] == more[i - 1 - n] && args[i - 1] == args[n..][i - 1 - n];
      } else if i == n {
        assert FitsAt(opts, args[n..], more, 0);
        assert n == 2 ==> roles[n - 1] == OptionValue;
      }
    }
  }

  lemma {:induction false} ScanRoles(opts: Options, st: State, args: seq<string>)
    requires Scan(StepOf(opts), st, args).Success?
    ensures RolesFit(opts, args, Scan(StepOf(opts), st, args).value.0)
    ensures var n := |Scan(StepOf(opts), st, args).value.0|; n < |args| ==> n > 0
    decreases args
  {
    if args != [] && args[0] != "--" {
      StepRole(opts, st, args[0], args[1..]);
      var s := Step(opts, st, args[0], args[1..]).value;
      var n := |RolesOf(s, args[1..])|;
      ScanRoles(opts, s.state, args[n..]);
      RolesFitStep(opts, args, s, Scan(StepOf(opts), s.state, args[n..]).value.0);
    }
  }

  /** Behind the separator an argument is taken or kept. */
  predicate TakenOrKept(roles: seq<Role>) {
    forall role <- roles :: role.Consumed? || role == Kept
  }

  lemma {:induction false} TailRoles(opts: Options, st: State, args: seq<string>)
    requires Tail(OfferOf(opts), st, args).Success?
    ensures TakenOrKept(Tail(OfferOf(opts), st, args).value.0)
    decreases args
  {
    if args != [] {
      TailRoles(opts, ConsumePositional(opts, st, args[0]).value.0, args[1..]);
    }
  }

  /** The roles of an accepted parse: up to the separator they fit the arguments, behind it every argument is taken
      or kept; without a separator the roles that fit are all there are. */
  lemma RolesMean(opts: Options, args: seq<string>)
    requires Wf(opts) && Parse(opts, args).Success?
    ensures var roles := Parse(opts, args).value.0;
            exists n: nat :: n <= |args| && RolesFit(opts, args, roles[..n]) && TakenOrKept(roles[n..])
              && (n < |args| ==> n > 0 && roles[n - 1] == Separator)
  {
    var scan := Scan(StepOf(opts), START, args).value;
    ScanRoles(opts, START, args);
    var d := ApplyDefaults(opts, scan.1, opts.order).value;
    TailRoles(opts, d, args[|scan.0|..]);
    var roles := Parse(opts, args).value.0;
    assert roles[..|scan.0|] == scan.0 && roles[|scan.0|..] == Tail(OfferOf(opts), d, args[|scan.0|..]).value.0;
  }

  /** Every argument has exactly the role that its form calls for, up to the first separator: a value if the option
      before needs one, else the separator, an option, an unknown option that is kept, or a positional argument. */
  lemma RoleDecided(opts: Options, args: seq<string>, roles: seq<Role>, i: nat)
    requires |roles| <= |args| && RolesFit(opts, args, roles) && i < |roles|
    ensures if i > 0 && roles[i - 1] == OptionToken && NeedsValue(opts, args[i - 1]) then roles[i] == OptionValue
            else if args[i] == "--" then roles[i] == Separator
            else if IsOption(opts, args[i]) then roles[i] == OptionToken
            else if Classify(args[i]).Plain? then roles[i] == Kept || roles[i].Consumed?
            else roles[i] == Kept && opts.allowUnrecognised
  {
    assert FitsAt(opts, args, roles, i);
  }
}
