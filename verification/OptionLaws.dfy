/** Laws of command-line parsing, for every table of options and every list of arguments. */
module OptionLaws {
  import opened Wrappers
  import opened OptionValues
  import opened OptionSpec

  // ----- Rewriting tokens ------------------------------------------------------------

  type Gisted = Result<(seq<string>, State, seq<string>), ParseError>

  /** What matters of a scan: the arguments kept, the state, and what is left after the separator. */
  ghost function Gist(step: Stepper, st: State, args: seq<string>): Gisted {
    var scan :- Scan(step, st, args);
    Success((KeptOf(args, scan.0), scan.1, args[|scan.0|..]))
  }

  ghost function Keeping(kept: seq<string>, r: Gisted): Gisted {
    if r.Failure? then r else Success((kept + r.value.0, r.value.1, r.value.2))
  }

  lemma GistStep(step: Stepper, st: State, arg: string, rest: seq<string>)
    requires arg != "--"
    ensures var s := step(st, arg, rest);
            Gist(step, st, [arg] + rest) ==
            if s.Failure? then Failure(s.error)
            else Keeping(if s.value.role == Kept then [arg] else [],
                         Gist(step, s.value.state, if s.value.takesNext && rest != [] then rest[1..] else rest))
  {
    var args := [arg] + rest;
    assert args[0] == arg && args[1..] == rest;
    var s := step(st, arg, rest);
    if s.Success? {
      var mine := RolesOf(s.value, rest);
      var next := if s.value.takesNext && rest != [] then rest[1..] else rest;
      assert args[|mine|..] == next;
      var scan := Scan(step, s.value.state, next);
      if scan.Success? {
        KeptOfStep(args, mine, scan.value.0);
        assert args[|mine + scan.value.0|..] == next[|scan.value.0|..];
      }
    }
  }

  /** A step that does not take the next argument does not depend on what follows; one that does depends on
      that argument only. */
  lemma StepLocal(opts: Options, st: State, arg: string, rest: seq<string>, other: seq<string>)
    requires Step(opts, st, arg, rest).Success?
    requires Step(opts, st, arg, rest).value.takesNext ==> other != [] && other[0] == rest[0]
    ensures Step(opts, st, arg, other) == Step(opts, st, arg, rest)
  {
    if Classify(arg).Short? {
      LettersLocal(opts, st, Classify(arg).letters, rest, other);
    }
  }

  lemma {:induction false} LettersLocal(opts: Options, st: State, letters: string, rest: seq<string>,
                                        other: seq<string>)
    requires ParseLetters(opts, st, letters, rest).Success?
    requires ParseLetters(opts, st, letters, rest).value.1 ==> other != [] && other[0] == rest[0]
    ensures ParseLetters(opts, st, letters, other) == ParseLetters(opts, st, letters, rest)
    decreases letters
  {
    if letters != [] {
      if [letters[0]] !in opts.names {
        LettersLocal(opts, st, letters[1..], rest, other);
      } else if |letters| > 1 {
        var o := opts.names[[letters[0]]];
        LettersLocal(opts, AddTo(opts.read, st, o, o.implicit.value).value, letters[1..], rest, other);
      }
    }
  }

  /** Scanning `before` uses up exactly `before` when `after` follows: `after` starts at an option position. */
  ghost predicate AtOptionPosition(step: Stepper, st: State, before: seq<string>, after: seq<string>)
    decreases before
  {
    before != [] ==>
      && before[0] != "--"
      && var s := step(st, before[0], before[1..] + after);
         && s.Success?
         && (s.value.takesNext ==> |before| > 1)
         && AtOptionPosition(step, s.value.state, before[if s.value.takesNext then 2 else 1..], after)
  }

  /** A step looks at most at the next argument, and only to take it. */
  ghost predicate LooksOneAhead(step: Stepper) {
    forall st, arg, rest, other :: step(st, arg, rest).Success?
      && (step(st, arg, rest).value.takesNext ==> rest != [] && other != [] && other[0] == rest[0])
      ==> step(st, arg, other) == step(st, arg, rest)
  }

  lemma StepsLookOneAhead(opts: Options)
    ensures LooksOneAhead(StepOf(opts))
  {
    var step := StepOf(opts);
    forall st, arg, rest, other | step(st, arg, rest).Success?
      && (step(st, arg, rest).value.takesNext ==> rest != [] && other != [] && other[0] == rest[0])
      ensures step(st, arg, other) == step(st, arg, rest)
    {
      StepLocal(opts, st, arg, rest, other);
    }
  }

  /** A step inside `before` peels off the same arguments whatever follows. */
  lemma GistPast(step: Stepper, st: State, before: seq<string>, after: seq<string>, s: Stepped)
    requires before != [] && before[0] != "--"
    requires step(st, before[0], before[1..] + after) == Success(s) && (s.takesNext ==> |before| > 1)
    ensures Gist(step, st, before + after) ==
            Keeping(if s.role == Kept then [before[0]] else [],
                    Gist(step, s.state, before[if s.takesNext then 2 else 1..] + after))
  {
    var rest := before[1..] + after;
    var next := if s.takesNext && rest != [] then rest[1..] else rest;
    assert next == before[if s.takesNext then 2 else 1..] + after;
    assert before + after == [before[0]] + rest;
    GistStep(step, st, before[0], rest);
  }

  /** Replacing what follows an option position by something of the same gist in every state changes nothing. */
  lemma {:induction false} GistCongruence(step: Stepper, st: State, before: seq<string>, after: seq<string>,
                                          other: seq<string>)
    requires LooksOneAhead(step) && AtOptionPosition(step, st, before, after)
    requires forall s :: Gist(step, s, after) == Gist(step, s, other)
    ensures Gist(step, st, before + after) == Gist(step, st, before + other)
    decreases before
  {
    if before == [] {
      assert before + after == after && before + other == other;
    } else {
      var rest := before[1..];
      var s := step(st, before[0], rest + after).value;
      assert s.takesNext ==> (rest + after)[0] == (rest + other)[0];
      assert step(st, before[0], rest + other) == step(st, before[0], rest + after);
      GistPast(step, st, before, after, s);
      GistPast(step, st, before, other, s);
      GistCongruence(step, s.state, before[if s.takesNext then 2 else 1..], after, other);
    }
  }

  lemma {:induction false} FailureSpreads(step: Stepper, st: State, before: seq<string>, after: seq<string>)
    requires AtOptionPosition(step, st, before, after)
    requires forall s :: Gist(step, s, after).Failure?
    ensures Gist(step, st, before + after).Failure?
    decreases before
  {
    if before == [] {
      assert before + after == after;
    } else {
      var s := step(st, before[0], before[1..] + after).value;
      GistPast(step, st, before, after, s);
      FailureSpreads(step, s.state, before[if s.takesNext then 2 else 1..], after);
    }
  }

  /** Some argument of `before` is refused whatever follows. */
  ghost predicate RefusedIn(step: Stepper, st: State, before: seq<string>)
    decreases before
  {
    && before != [] && before[0] != "--"
    && ((forall after :: RefusedFirst(step, st, before, after))
        || (var s := step(st, before[0], before[1..]);
            s.Success? && RefusedIn(step, s.value.state, before[if s.value.takesNext && |before| > 1 then 2 else 1..])))
  }

  ghost predicate RefusedFirst(step: Stepper, st: State, before: seq<string>, after: seq<string>)
    requires before != []
  {
    step(st, before[0], before[1..] + after).Failure?
  }

  /** An argument that is refused whatever follows is refused with anything behind. */
  lemma {:induction false} RefusalSpreads(step: Stepper, st: State, before: seq<string>, after: seq<string>)
    requires LooksOneAhead(step) && TakesWhatIsThere(step) && RefusedIn(step, st, before)
    ensures Gist(step, st, before + after).Failure?
    decreases before
  {
    var rest := before[1..];
    assert before + after == [before[0]] + (rest + after);
    if forall other :: RefusedFirst(step, st, before, other) {
      assert RefusedFirst(step, st, before, after);
      GistStep(step, st, before[0], rest + after);
    } else {
      var s := step(st, before[0], rest).value;
      assert step(st, before[0], rest + after) == step(st, before[0], rest);
      GistPast(step, st, before, after, s);
      RefusalSpreads(step, s.state, before[if s.takesNext && |before| > 1 then 2 else 1..], after);
    }
  }

  /** A step takes the next argument only if there is one. */
  ghost predicate TakesWhatIsThere(step: Stepper) {
    forall st, arg, rest :: step(st, arg, rest).Success? && step(st, arg, rest).value.takesNext ==> rest != []
  }

  /** An option may stand behind `before`, or `before` is refused. */
  ghost predicate ReachedOrRefused(step: Stepper, st: State, before: seq<string>, after: seq<string>) {
    AtOptionPosition(step, st, before, after) || RefusedIn(step, st, before)
  }

  lemma BothRefused(opts: Options, before: seq<string>, after: seq<string>, other: seq<string>)
    requires Wf(opts) && RefusedIn(StepOf(opts), START, before)
    ensures Parse(opts, before + after).Failure? && ParseAlike(opts, before + after, before + other)
  {
    StepsLookOneAhead(opts);
    RefusalSpreads(StepOf(opts), START, before, after);
    RefusalSpreads(StepOf(opts), START, before, other);
  }

  /** Two argument lists parse alike: both are refused, or both leave the same stores, log and cursor and
      retain the same arguments. */
  ghost predicate ParseAlike(opts: Options, args: seq<string>, other: seq<string>)
    requires Wf(opts)
  {
    var r, q := Parse(opts, args), Parse(opts, other);
    if r.Success? && q.Success? then r.value.1 == q.value.1 && Retained(args, r.value.0) == Retained(other, q.value.0)
    else r.Failure? && q.Failure?
  }

  lemma GistDecides(opts: Options, args: seq<string>, other: seq<string>)
    requires Wf(opts) && Gist(StepOf(opts), START, args) == Gist(StepOf(opts), START, other)
    ensures ParseAlike(opts, args, other)
  {
    var r, q := Scan(StepOf(opts), START, args), Scan(StepOf(opts), START, other);
    if r.Success? && q.Success? {
      RetainedAfter(opts, args, r.value.0, r.value.1);
      RetainedAfter(opts, other, q.value.0, q.value.1);
    }
  }

  lemma RetainedAfter(opts: Options, args: seq<string>, scanned: seq<Role>, st: State)
    requires Wf(opts) && |scanned| <= |args|
    ensures var r := AfterScan(opts, args, scanned, st);
            var d := ApplyDefaults(opts, st, opts.order);
            if d.Failure? then r == Failure(d.error)
            else
              var tail := Tail(OfferOf(opts), d.value, args[|scanned|..]);
              if tail.Failure? then r == Failure(tail.error)
              else
                && r == Success((scanned + tail.value.0, tail.value.1))
                && Retained(args, r.value.0) == KeptOf(args, scanned) + Retained(args[|scanned|..], tail.value.0)
  {
    var d := ApplyDefaults(opts, st, opts.order);
    if d.Success? {
      var tail := Tail(OfferOf(opts), d.value, args[|scanned|..]);
      if tail.Success? {
        assert args == args[..|scanned|] + args[|scanned|..];
        RetainedConcat(args[..|scanned|], args[|scanned|..], scanned, tail.value.0);
      }
    }
  }

  /** -abc written as -a -b -c. */
  function Spread(letters: string): seq<string> {
    if letters == [] then [] else [['-'] + [letters[0]]] + Spread(letters[1..])
  }

  /** Every declared letter but the last can do without an argument. */
  predicate OnlyLastNeedsArgument(opts: Options, letters: string) {
    forall i :: 0 <= i < |letters| - 1 && [letters[i]] in opts.names ==> opts.names[[letters[i]]].implicit.Some?
  }

  predicate AllAlnum(s: string) {
    forall i :: 0 <= i < |s| ==> IsAlnum(s[i])
  }

  lemma ClassifyCluster(letters: string)
    requires letters != [] && AllAlnum(letters)
    ensures Classify(['-'] + letters) == Short(letters) && ['-'] + letters != "--"
  {
    var arg := ['-'] + letters;
    assert arg[1..] == letters;
    assert arg[1] == letters[0] && IsAlnum(arg[1]);
    assert arg[..2][1] == arg[1];
  }

  /** The gist of what a cluster of letters does in front of other arguments. */
  ghost function ClusterGist(opts: Options, st: State, letters: string, rest: seq<string>): Gisted {
    var parsed :- ParseLetters(opts, st, letters, rest);
    Gist(StepOf(opts), parsed.0, if parsed.1 then rest[1..] else rest)
  }

  lemma ClusterIsGist(opts: Options, st: State, letters: string, rest: seq<string>)
    requires letters != [] && AllAlnum(letters)
    ensures Gist(StepOf(opts), st, [['-'] + letters] + rest) == ClusterGist(opts, st, letters, rest)
  {
    ClassifyCluster(letters);
    GistStep(StepOf(opts), st, ['-'] + letters, rest);
    var parsed := ParseLetters(opts, st, letters, rest);
    if parsed.Success? {
      KeepingNothing(Gist(StepOf(opts), parsed.value.0, if parsed.value.1 then rest[1..] else rest));
    }
  }

  lemma KeepingNothing(r: Gisted)
    ensures Keeping([], r) == r
  {
    assert r.Success? ==> [] + r.value.0 == r.value.0;
  }

  lemma {:induction false} SpreadIsCluster(opts: Options, st: State, letters: string, rest: seq<string>)
    requires letters != [] && AllAlnum(letters) && OnlyLastNeedsArgument(opts, letters)
    ensures Gist(StepOf(opts), st, Spread(letters) + rest) == ClusterGist(opts, st, letters, rest)
    decreases letters
  {
    var first, more := [letters[0]], letters[1..];
    assert first[1..] == [] && Spread(letters) == [['-'] + first] + Spread(more);
    if more == [] {
      assert letters == first && Spread(letters) == [['-'] + first];
      ClusterIsGist(opts, st, first, rest);
    } else {
      var next := Spread(more) + rest;
      assert Spread(letters) + rest == [['-'] + first] + next;
      ClusterIsGist(opts, st, first, next);
      LettersOneByOne(opts, st, letters, next, rest);
      var after := ParseLetters(opts, st, first, next);
      if after.Success? {
        SpreadIsCluster(opts, after.value.0, more, rest);
      }
    }
  }

  lemma LettersOneByOne(opts: Options, st: State, letters: string, next: seq<string>, rest: seq<string>)
    requires |letters| > 1 && OnlyLastNeedsArgument(opts, letters)
    ensures var after := ParseLetters(opts, st, [letters[0]], next);
            ParseLetters(opts, st, letters, rest) ==
            if after.Failure? then after else ParseLetters(opts, after.value.0, letters[1..], rest)
    ensures var after := ParseLetters(opts, st, [letters[0]], next); after.Success? ==> !after.value.1
  {
    var first := [letters[0]];
    assert first[1..] == [];
    if first in opts.names {
      var o := opts.names[first];
      assert opts.names[[letters[0]]].implicit.Some?;
      assert ParseLetters(opts, st, first, next) == CheckedParseArg(opts.read, st, o, next);
    } else if opts.allowUnrecognised {
      assert ParseLetters(opts, st, first, next) == ParseLetters(opts, st, [], next);
    }
  }

  /** A cluster whose earlier letters need arguments is refused. */
  lemma {:induction false} ClusterRefused(opts: Options, st: State, letters: string, rest: seq<string>)
    requires !OnlyLastNeedsArgument(opts, letters)
    ensures ParseLetters(opts, st, letters, rest).Failure?
    decreases letters
  {
    if [letters[0]] !in opts.names {
      if !OnlyLastNeedsArgument(opts, letters[1..]) { ClusterRefused(opts, st, letters[1..], rest); }
    } else {
      var o := opts.names[[letters[0]]];
      if o.implicit.Some? && !OnlyLastNeedsArgument(opts, letters[1..]) {
        var after := AddTo(opts.read, st, o, o.implicit.value);
        if after.Success? { ClusterRefused(opts, after.value, letters[1..], rest); }
      }
    }
  }

  /** Writing a cluster out letter by letter, anywhere an option may stand or is not reached because of a refusal,
      leaves the parse unchanged when only its last letter can need an argument; otherwise the cluster is refused. */
  lemma ClusterRewrite(opts: Options, before: seq<string>, letters: string, rest: seq<string>)
    requires Wf(opts) && letters != [] && AllAlnum(letters)
    requires ReachedOrRefused(StepOf(opts), START, before, [['-'] + letters] + rest)
    ensures if OnlyLastNeedsArgument(opts, letters)
            then ParseAlike(opts, before + ([['-'] + letters] + rest), before + (Spread(letters) + rest))
            else Parse(opts, before + ([['-'] + letters] + rest)).Failure?
  {
    var after, other := [['-'] + letters] + rest, Spread(letters) + rest;
    if RefusedIn(StepOf(opts), START, before) {
      BothRefused(opts, before, after, other);
    } else if OnlyLastNeedsArgument(opts, letters) {
      forall s ensures Gist(StepOf(opts), s, after) == Gist(StepOf(opts), s, other) {
        ClusterIsGist(opts, s, letters, rest);
        SpreadIsCluster(opts, s, letters, rest);
      }
      StepsLookOneAhead(opts);
      GistCongruence(StepOf(opts), START, before, after, other);
      GistDecides(opts, before + after, before + other);
    } else {
      forall s ensures Gist(StepOf(opts), s, after).Failure? {
        ClusterIsGist(opts, s, letters, rest);
        ClusterRefused(opts, s, letters, rest);
      }
      FailureSpreads(StepOf(opts), START, before, after);
    }
  }

  predicate ValidLong(name: string) {
    |name| >= 2 && IsAlnum(name[0]) && forall i :: 0 <= i < |name| ==> IsNameChar(name[i])
  }

  lemma {:induction false} NameEndAt(name: string, rest: string)
    requires forall i :: 0 <= i < |name| ==> IsNameChar(name[i])
    requires rest == [] || !IsNameChar(rest[0])
    ensures NameEnd(name + rest) == |name|
    decreases name
  {
    if name == [] {
      assert name + rest == rest;
    } else {
      assert (name + rest)[1..] == name[1..] + rest;
      NameEndAt(name[1..], rest);
    }
  }

  lemma ClassifyLong(name: string, value: string)
    requires ValidLong(name) && OneLine(value)
    ensures Classify("--" + name) == Long(name, None) && "--" + name != "--"
    ensures Classify("--" + name + "=" + value) == Long(name, Some(value)) && "--" + name + "=" + value != "--"
  {
    var plain, full := "--" + name, "--" + name + "=" + value;
    NameEndAt(name, []);
    assert name + [] == name;
    assert plain[..2] == "--" && plain[2..] == name;
    var body := name + (['='] + value);
    NameEndAt(name, ['='] + value);
    assert full == "--" + body;
    assert full[..2] == "--" && full[2..] == body;
    assert body[|name| + 1..] == value && body[..|name|] == name;
  }

  /** The forms of an option: --name, --name=value on one line, and a dash with letters and digits. */
  predicate IsLongOption(arg: string, name: string) {
    ValidLong(name) && arg == "--" + name
  }

  predicate IsLongValue(arg: string, name: string, value: string) {
    ValidLong(name) && OneLine(value) && arg == "--" + name + "=" + value
  }

  predicate IsCluster(arg: string, letters: string) {
    letters != [] && AllAlnum(letters) && arg == ['-'] + letters
  }

  const DIGITS := "0123456789"
  const SMALL := "abcdefghijklmnopqrstuvwxyz"
  const CAPITAL := "ABCDEFGHIJKLMNOPQRSTUVWXYZ"

  lemma DigitIs(c: char)
    ensures '0' <= c <= '9' <==> c in DIGITS
  {
    if '0' <= c <= '9' { assert DIGITS[c as int - '0' as int] == c; }
  }

  lemma SmallIs(c: char)
    ensures 'a' <= c <= 'z' <==> c in SMALL
  {
    if 'a' <= c <= 'z' { assert SMALL[c as int - 'a' as int] == c; }
  }

  lemma CapitalIs(c: char)
    ensures 'A' <= c <= 'Z' <==> c in CAPITAL
  {
    if 'A' <= c <= 'Z' { assert CAPITAL[c as int - 'A' as int] == c; }
  }

  /** The characters of a cluster and of the start of a name; the rest of a name may hold dashes and underscores. */
  lemma AlnumIs(c: char)
    ensures IsAlnum(c) <==> c in DIGITS || c in SMALL || c in CAPITAL
    ensures IsNameChar(c) <==> c in DIGITS || c in SMALL || c in CAPITAL || c == '-' || c == '_'
  {
    DigitIs(c);
    SmallIs(c);
    CapitalIs(c);
  }

  /** Exactly these forms are options. */
  lemma ClassifyLongIff(arg: string, name: string)
    ensures Classify(arg) == Long(name, None) <==> IsLongOption(arg, name)
  {
    if IsLongOption(arg, name) {
      ClassifyLong(name, "");
    }
    if Classify(arg) == Long(name, None) {
      assert arg == "--" + arg[2..];
    }
  }

  lemma ClassifyValueIff(arg: string, name: string, value: string)
    ensures Classify(arg) == Long(name, Some(value)) <==> IsLongValue(arg, name, value)
  {
    if IsLongValue(arg, name, value) {
      ClassifyLong(name, value);
    }
    if Classify(arg) == Long(name, Some(value)) {
      var body := arg[2..];
      var n := NameEnd(body);
      assert arg == "--" + body && body == body[..n] + "=" + body[n + 1..];
    }
  }

  lemma ClassifyShortIff(arg: string, letters: string)
    ensures Classify(arg) == Short(letters) <==> IsCluster(arg, letters)
  {
    if IsCluster(arg, letters) {
      ClassifyCluster(letters);
    }
    if Classify(arg) == Short(letters) {
      assert arg == ['-'] + arg[1..];
      forall i | 0 <= i < |letters| ensures IsAlnum(letters[i]) { assert letters[i] in arg[1..]; }
    }
  }

  /** It has none of the forms. */
  ghost predicate NoOption(arg: string) {
    && (forall name :: !IsLongOption(arg, name))
    && (forall name, value :: !IsLongValue(arg, name, value))
    && (forall letters :: !IsCluster(arg, letters))
  }

  lemma PlainIff(arg: string)
    ensures Classify(arg) == Plain <==> NoOption(arg)
  {
    match Classify(arg)
    case Plain =>
      forall name ensures !IsLongOption(arg, name) { ClassifyLongIff(arg, name); }
      forall name, value ensures !IsLongValue(arg, name, value) { ClassifyValueIff(arg, name, value); }
      forall letters ensures !IsCluster(arg, letters) { ClassifyShortIff(arg, letters); }
    case Short(letters) => ClassifyShortIff(arg, letters);
    case Long(name, value) =>
      ClassifyLongIff(arg, name);
      if value.Some? { ClassifyValueIff(arg, name, value.value); }
  }

  /** A strict parse refuses an argument where an option may stand that begins with a dash, has more behind it and is
      neither an option nor the separator. */
  lemma StrictRefuses(opts: Options, before: seq<string>, arg: string, rest: seq<string>)
    requires Wf(opts) && !opts.allowUnrecognised && |arg| > 1 && arg[0] == '-' && arg != "--" && NoOption(arg)
    requires ReachedOrRefused(StepOf(opts), START, before, [arg] + rest)
    ensures Parse(opts, before + ([arg] + rest)).Failure?
  {
    if RefusedIn(StepOf(opts), START, before) {
      BothRefused(opts, before, [arg] + rest, []);
    } else {
      PlainIff(arg);
      forall s ensures Gist(StepOf(opts), s, [arg] + rest).Failure? { GistStep(StepOf(opts), s, arg, rest); }
      FailureSpreads(StepOf(opts), START, before, [arg] + rest);
    }
  }

  /** A long option takes a name of two characters or more: --h is none, whatever is declared. */
  lemma OneLetterRefused(opts: Options, rest: seq<string>)
    requires Wf(opts) && !opts.allowUnrecognised
    ensures Parse(opts, ["--h"] + rest).Failure?
  {
    forall name ensures !IsLongOption("--h", name) { assert |"--" + name| == 2 + |name|; }
    forall name, value ensures !IsLongValue("--h", name, value) { assert |"--" + name + "=" + value| > 2 + |name|; }
    forall letters ensures !IsCluster("--h", letters) {
      assert letters != [] ==> (['-'] + letters)[1] == letters[0];
    }
    assert [] + (["--h"] + rest) == ["--h"] + rest;
    StrictRefuses(opts, [], "--h", rest);
  }

  /** --name=value and --name value parse alike, anywhere an option may stand or is not reached because of a refusal,
      for a declared option that has no implicit value. */
  lemma LongRewrite(opts: Options, before: seq<string>, name: string, value: string, rest: seq<string>)
    requires Wf(opts) && ValidLong(name) && OneLine(value)
    requires name in opts.names && opts.names[name].implicit.None?
    requires ReachedOrRefused(StepOf(opts), START, before, ["--" + name + "=" + value] + rest)
    ensures ParseAlike(opts, before + (["--" + name + "=" + value] + rest), before + (["--" + name, value] + rest))
  {
    var full, plain := "--" + name + "=" + value, "--" + name;
    var after, other := [full] + rest, [plain, value] + rest;
    if RefusedIn(StepOf(opts), START, before) {
      BothRefused(opts, before, after, other);
    } else {
      forall s ensures Gist(StepOf(opts), s, after) == Gist(StepOf(opts), s, other) {
        LongIsLong(opts, s, name, value, rest);
      }
      StepsLookOneAhead(opts);
      GistCongruence(StepOf(opts), START, before, after, other);
      GistDecides(opts, before + after, before + other);
    }
  }

  lemma LongIsLong(opts: Options, s: State, name: string, value: string, rest: seq<string>)
    requires ValidLong(name) && OneLine(value) && name in opts.names && opts.names[name].implicit.None?
    ensures Gist(StepOf(opts), s, ["--" + name + "=" + value] + rest)
            == Gist(StepOf(opts), s, ["--" + name, value] + rest)
  {
    var full, plain := "--" + name + "=" + value, "--" + name;
    ClassifyLong(name, value);
    GistStep(StepOf(opts), s, full, rest);
    GistStep(StepOf(opts), s, plain, [value] + rest);
    assert [plain, value] + rest == [plain] + ([value] + rest);
    assert ([value] + rest)[1..] == rest;
  }
}
