/** The option parser as it runs: one loop that compacts argv in place while it fills the stores, the log
    and the positional cursor (lib/cxxopts.hpp:1579-1886). */
module OptionParser {
  import opened Wrappers
  import Spec = OptionSpec
  import opened OptionSpec

  class ParseResult {
    const opts: Options
    var results: map<Detail, Store>
    var sequential: seq<(string, string)>
    var nextPositional: nat

    ghost function St(): State
      reads this
    {
      State(results, sequential, nextPositional)
    }

    constructor (opts: Options)
      ensures this.opts == opts && St() == START
    {
      this.opts := opts;
      results, sequential, nextPositional := map[], [], 0;
    }

    /** count(o): how often the option of this name was given. After an accepted parse its entry is there. */
    method Count(name: string) returns (n: nat)
      ensures n == if name in opts.names then StoreOf(St(), opts.names[name]).count else 0
    {
      if name !in opts.names { return 0; }
      var o := opts.names[name];
      return if o in results then results[o].count else 0;
    }

    method ParseOption(o: Detail, text: string) returns (r: Result<(), ParseError>)
      modifies this`results, this`sequential
      ensures match AddTo(opts.read, old(St()), o, text)
              case Failure(e) => r == Failure(e)
              case Success(after) => r == Success(()) && St() == after
    {
      var store := if o in results then results[o] else Store(0, None);
      var content := opts.read(o, ContentOf(o, store), text);
      if content.None? { return Failure(IncorrectType); }
      results := results[o := Store(store.count + 1, content)];
      sequential := sequential + [(o.long, text)];
      return Success(());
    }

    /** checked_parse_arg: answers the position of the last argument used. */
    method CheckedParseArg(argc: nat, argv: array<string>, current: nat, o: Detail) returns (r: Result<nat, ParseError>)
      requires current < argc <= argv.Length
      modifies this`results, this`sequential
      ensures match Spec.CheckedParseArg(opts.read, old(St()), o, argv[current + 1..argc])
              case Failure(e) => r == Failure(e)
              case Success(v) => r == Success(if v.1 then current + 1 else current) && St() == v.0
    {
      var implicit := o.implicit;
      if current + 1 >= argc {
        if implicit.None? { return Failure(MissingArgument); }
        var _ :- ParseOption(o, implicit.value);
        return Success(current);
      } else if implicit.Some? {
        var _ :- ParseOption(o, implicit.value);
        return Success(current);
      } else {
        var _ :- ParseOption(o, argv[current + 1]);
        return Success(current + 1);
      }
    }

    method ConsumePositional(a: string) returns (r: Result<bool, ParseError>)
      modifies this
      ensures match Spec.ConsumePositional(opts, old(St()), a)
              case Failure(e) => r == Failure(e)
              case Success(v) => r == Success(v.1.Some?) && St() == v.0
    {
      while nextPositional < |opts.positional|
        invariant Spec.ConsumePositional(opts, St(), a) == Spec.ConsumePositional(opts, old(St()), a)
        invariant results == old(results) && sequential == old(sequential)
      {
        var name := opts.positional[nextPositional];
        if name !in opts.names { return Failure(NotExists); }
        var o := opts.names[name];
        if !o.container {
          if (if o in results then results[o].count else 0) == 0 {
            var _ :- ParseOption(o, a);
            nextPositional := nextPositional + 1;
            return Success(true);
          }
          nextPositional := nextPositional + 1;
        } else {
          var _ :- ParseOption(o, a);
          return Success(true);
        }
      }
      return Success(false);
    }

    /** The loop over the letters of a short cluster. */
    method ParseLetters(argc: nat, argv: array<string>, current: nat, letters: string)
      returns (r: Result<nat, ParseError>)
      requires current < argc <= argv.Length
      modifies this`results, this`sequential
      ensures match Spec.ParseLetters(opts, old(St()), letters, argv[current + 1..argc])
              case Failure(e) => r == Failure(e)
              case Success(v) => r == Success(if v.1 then current + 1 else current) && St() == v.0
    {
      ghost var rest := argv[current + 1..argc];
      for i := 0 to |letters|
        invariant Spec.ParseLetters(opts, St(), letters[i..], rest) == Spec.ParseLetters(opts, old(St()), letters, rest)
        invariant argv[current + 1..argc] == rest
      {
        assert letters[i..][1..] == letters[i + 1..];
        var name := [letters[i]];
        if name !in opts.names {
          if opts.allowUnrecognised { continue; }
          return Failure(NotExists);
        }
        var o := opts.names[name];
        if i + 1 == |letters| {
          r := CheckedParseArg(argc, argv, current, o);
          return r;
        } else if o.implicit.Some? {
          var _ :- ParseOption(o, o.implicit.value);
        } else {
          return Failure(RequiresArgument);
        }
      }
      return Success(current);
    }

    /** The body of the main loop: answers the last position used, and whether the argument stays. */
    method ParseArgument(argc: nat, argv: array<string>, current: nat) returns (r: Result<(nat, bool), ParseError>)
      requires current < argc <= argv.Length
      modifies this
      ensures match Step(opts, old(St()), argv[current], argv[current + 1..argc])
              case Failure(e) => r == Failure(e)
              case Success(s) =>
                && r == Success((if s.takesNext then current + 1 else current, s.role == Kept))
                && St() == s.state
    {
      var arg := argv[current];
      match Classify(arg)
      case Plain =>
        if |arg| >= 2 && arg[0] == '-' {
          if !opts.allowUnrecognised { return Failure(BadSyntax); }
        }
        var consumed :- ConsumePositional(arg);
        return Success((current, !consumed));
      case Short(letters) =>
        var last :- ParseLetters(argc, argv, current, letters);
        return Success((last, false));
      case Long(name, value) =>
        if name !in opts.names {
          if opts.allowUnrecognised { return Success((current, true)); }
          return Failure(NotExists);
        }
        var o := opts.names[name];
        if value.Some? {
          var _ :- ParseOption(o, value.value);
          return Success((current, false));
        } else {
          var last :- CheckedParseArg(argc, argv, current, o);
          return Success((last, false));
        }
    }

    /** The loop that fills in defaults. */
    method FillDefaults() returns (r: Result<(), ParseError>)
      requires Wf(opts)
      modifies this`results
      ensures match ApplyDefaults(opts, old(St()), opts.order)
              case Failure(e) => r == Failure(e)
              case Success(after) => r == Success(()) && St() == after
    {
      for i := 0 to |opts.order|
        invariant ApplyDefaults(opts, St(), opts.order[i..]) == ApplyDefaults(opts, old(St()), opts.order)
      {
        DefaultsOn(opts, St(), i);
        var o := opts.names[opts.order[i]];
        var store := if o in results then results[o] else Store(0, None);
        if store.count == 0 && o.default.Some? {
          var content := opts.read(o, ContentOf(o, store), o.default.value);
          if content.None? { return Failure(IncorrectType); }
          store := Store(0, content);
        }
        results := results[o := store];
      }
      return Success(());
    }

    /** One iteration: reads an argument and, if it stays, moves it down to the write position. */
    method ScanOne(argc: nat, argv: array<string>, current: nat, nextKeep: nat, ghost whole: Compacted)
      returns (r: Result<(nat, nat), ParseError>)
      requires current < argc <= argv.Length && argv[current] != "--"
      requires Compacting(StepOf(opts), argv[..], St(), argc, current, nextKeep, whole)
      modifies this, argv
      ensures match r
              case Failure(e) => whole == Failure(e)
              case Success(next) =>
                next.0 > current && Compacting(StepOf(opts), argv[..], St(), argc, next.0, next.1, whole)
    {
      ghost var was, st, stepped := argv[..], St(), Step(opts, St(), argv[current], argv[current + 1..argc]);
      CompactingFails(StepOf(opts), was, st, argc, current, nextKeep, whole);
      var used :- ParseArgument(argc, argv, current);
      var keep := nextKeep;
      if used.1 {
        argv[nextKeep] := argv[current];
        keep := nextKeep + 1;
      }
      var next: nat := used.0 + 1;
      CompactingOn(StepOf(opts), was, st, argc, current, nextKeep, whole, stepped.value, argv[..], next, keep);
      return Success((next, keep));
    }

    /** The main loop, up to the separator or the end. */
    method ScanArguments(argc: nat, argv: array<string>) returns (r: Result<(nat, nat, bool), ParseError>)
      requires 1 <= argc <= argv.Length
      modifies this, argv
      ensures match Compact(StepOf(opts), old(argv[..]), old(St()), argc, 1, 1)
              case Failure(e) => r == Failure(e)
              case Success(c) =>
                && r == Success((c.current, c.nextKeep, c.separated))
                && argv[..] == c.argv && St() == c.state
    {
      var current, nextKeep := 1, 1;
      ghost var whole := Compact(StepOf(opts), argv[..], St(), argc, 1, 1);
      while current != argc
        invariant current <= argc && Compacting(StepOf(opts), argv[..], St(), argc, current, nextKeep, whole)
        decreases argc - current
      {
        if argv[current] == "--" {
          CompactingEnds(StepOf(opts), argv[..], St(), argc, current, nextKeep, whole);
          return Success((current + 1, nextKeep, true));
        }
        var next :- ScanOne(argc, argv, current, nextKeep, whole);
        current, nextKeep := next.0, next.1;
      }
      CompactingEnds(StepOf(opts), argv[..], St(), argc, current, nextKeep, whole);
      return Success((current, nextKeep, false));
    }

    /** The first loop after the separator: positional options swallow while they can. */
    method Swallow(argv: seq<string>, argc: nat, from: nat) returns (r: Result<nat, ParseError>)
      requires from <= argc <= |argv|
      modifies this
      ensures match SwallowFrom(OfferOf(opts), old(St()), argv, argc, from)
              case Failure(e) => r == Failure(e)
              case Success(v) => r == Success(v.0) && St() == v.1
    {
      var current := from;
      while current < argc
        invariant from <= current <= argc
        invariant SwallowFrom(OfferOf(opts), St(), argv, argc, current)
                  == SwallowFrom(OfferOf(opts), old(St()), argv, argc, from)
      {
        var consumed :- ConsumePositional(argv[current]);
        if !consumed { return Success(current); }
        current := current + 1;
      }
      return Success(current);
    }

    /** parse: what is left of argv is the program name and the retained arguments in their order; stores,
        log and cursor are those of the specification. */
    method Parse(argc: nat, argv: array<string>) returns (r: Result<nat, ParseError>)
      requires Wf(opts) && St() == START
      requires 1 <= argc <= argv.Length
      modifies this, argv
      ensures match Spec.Parse(opts, old(argv[1..argc]))
              case Failure(e) => r == Failure(e)
              case Success(v) =>
                var kept := Retained(old(argv[1..argc]), v.0);
                && r == Success(1 + |kept|)
                && argv[..1 + |kept|] == [old(argv[0])] + kept
                && St() == v.1
    {
      InPlaceIsParse(opts, argv[..], argc);
      assert argv[..][1..argc] == argv[1..argc];
      r := ParseInto(argc, argv);
      assert r.Success? ==> argv[..r.value] == argv[..][..r.value];
    }

    method ParseInto(argc: nat, argv: array<string>) returns (r: Result<nat, ParseError>)
      requires Wf(opts) && 1 <= argc <= argv.Length
      modifies this, argv
      ensures match InPlace(opts, old(argv[..]), old(St()), argc)
              case Failure(e) => r == Failure(e)
              case Success(v) => r == Success(v.1) && argv[..] == v.0 && St() == v.2
    {
      var scan :- ScanArguments(argc, argv);
      var (current, nextKeep, consumeRemaining) := scan;
      var _ :- FillDefaults();
      if consumeRemaining {
        current :- Swallow(argv[..], argc, current);
        nextKeep := KeepRest(argc, argv, current, nextKeep);
      }
      return Success(nextKeep);
    }
  }

  /** The second loop after the separator: whatever could not be swallowed is kept. */
  method KeepRest(argc: nat, argv: array<string>, from: nat, keepFrom: nat) returns (nextKeep: nat)
    requires keepFrom <= from <= argc <= argv.Length
    modifies argv
    ensures (argv[..], nextKeep) == MovedRest(old(argv[..]), argc, from, keepFrom)
  {
    var current := from;
    nextKeep := keepFrom;
    while current != argc
      invariant nextKeep <= current <= argc
      invariant MovedRest(argv[..], argc, current, nextKeep) == MovedRest(old(argv[..]), argc, from, keepFrom)
    {
      argv[nextKeep] := argv[current];
      nextKeep := nextKeep + 1;
      current := current + 1;
    }
  }

  /** One option more has been given its default. */
  lemma DefaultsOn(opts: Options, st: State, i: nat)
    requires Wf(opts) && i < |opts.order|
    ensures opts.order[i] in opts.names
    ensures ApplyDefaults(opts, st, opts.order[i..]) ==
            match ApplyDefault(opts.read, st, opts.names[opts.order[i]])
            case Failure(e) => Failure(e)
            case Success(after) => ApplyDefaults(opts, after, opts.order[i + 1..])
  {
    assert opts.order[i..][1..] == opts.order[i + 1..];
    assert opts.order[i] in opts.order;
  }

  // ----- The loops as functions on the contents of argv -----------------------------

  datatype Compaction = Compaction(argv: seq<string>, state: State, current: nat, nextKeep: nat, separated: bool)

  type Compacted = Result<Compaction, ParseError>

  /** What parsing leaves: argv, argc and the state. */
  type Left = Result<(seq<string>, nat, State), ParseError>

  ghost function Moved(argv: seq<string>, kept: bool, current: nat, nextKeep: nat): seq<string>
    requires nextKeep <= current < |argv|
  {
    if kept then argv[nextKeep := argv[current]] else argv
  }

  /** The keeping loop from a position on: the new contents and the new argc. */
  ghost function MovedRest(argv: seq<string>, argc: nat, from: nat, keepFrom: nat): (seq<string>, nat)
    requires keepFrom <= from <= argc <= |argv|
    decreases argc - from
  {
    if from == argc then (argv, keepFrom)
    else MovedRest(argv[keepFrom := argv[from]], argc, from + 1, keepFrom + 1)
  }

  lemma {:induction false} MovedRestKeeps(argv: seq<string>, argc: nat, from: nat, keepFrom: nat)
    requires keepFrom <= from <= argc <= |argv|
    ensures var (after, n) := MovedRest(argv, argc, from, keepFrom);
            n == keepFrom + (argc - from) <= |after| && after[..n] == argv[..keepFrom] + argv[from..argc]
    decreases argc - from
  {
    if from == argc {
      assert argv[..keepFrom] + argv[argc..argc] == argv[..keepFrom];
    } else {
      var next := argv[keepFrom := argv[from]];
      MovedRestKeeps(next, argc, from + 1, keepFrom + 1);
      assert next[..keepFrom + 1] == argv[..keepFrom] + [argv[from]];
      assert argv[from..argc] == [argv[from]] + argv[from + 1..argc];
      assert next[from + 1..argc] == argv[from + 1..argc];
    }
  }

  /** The main loop from a position on. */
  ghost function Compact(step: Stepper, argv: seq<string>, st: State, argc: nat, current: nat, nextKeep: nat)
    : (r: Compacted)
    requires 1 <= nextKeep <= current <= argc <= |argv|
    ensures r.Success? ==> 1 <= r.value.nextKeep <= r.value.current <= argc <= |r.value.argv|
    decreases argc - current
  {
    if current == argc then Success(Compaction(argv, st, current, nextKeep, false))
    else if argv[current] == "--" then Success(Compaction(argv, st, current + 1, nextKeep, true))
    else
      var rest := argv[current + 1..argc];
      var stepped :- step(st, argv[current], rest);
      var kept := stepped.role == Kept;
      Compact(step, Moved(argv, kept, current, nextKeep), stepped.state, argc, current + |RolesOf(stepped, rest)|,
              if kept then nextKeep + 1 else nextKeep)
  }

  /** The main loop has yet to do this much of the whole. */
  ghost predicate Compacting(step: Stepper, argv: seq<string>, st: State, argc: nat, current: nat, nextKeep: nat,
                             whole: Compacted) {
    1 <= nextKeep <= current <= argc <= |argv| && Compact(step, argv, st, argc, current, nextKeep) == whole
  }

  lemma CompactingFails(step: Stepper, argv: seq<string>, st: State, argc: nat, current: nat, nextKeep: nat,
                        whole: Compacted)
    requires Compacting(step, argv, st, argc, current, nextKeep, whole) && current < argc && argv[current] != "--"
    ensures var s := step(st, argv[current], argv[current + 1..argc]); s.Failure? ==> whole == Failure(s.error)
  {
  }

  lemma CompactingOn(step: Stepper, argv: seq<string>, st: State, argc: nat, current: nat, nextKeep: nat,
                     whole: Compacted, s: Stepped, moved: seq<string>, next: nat, keep: nat)
    requires Compacting(step, argv, st, argc, current, nextKeep, whole) && current < argc && argv[current] != "--"
    requires step(st, argv[current], argv[current + 1..argc]) == Success(s)
    requires moved == Moved(argv, s.role == Kept, current, nextKeep)
    requires keep == if s.role == Kept then nextKeep + 1 else nextKeep
    requires next == current + |RolesOf(s, argv[current + 1..argc])|
    ensures Compacting(step, moved, s.state, argc, next, keep, whole)
  {
    CompactMoves(step, argv, st, argc, current, nextKeep, s, RolesOf(s, argv[current + 1..argc]), moved, keep);
  }

  lemma CompactingEnds(step: Stepper, argv: seq<string>, st: State, argc: nat, current: nat, nextKeep: nat,
                       whole: Compacted)
    requires Compacting(step, argv, st, argc, current, nextKeep, whole) && (current == argc || argv[current] == "--")
    ensures var end := if current == argc then current else current + 1;
            whole == Success(Compaction(argv, st, end, nextKeep, current != argc))
  {
  }

  /** The swallowing loop from a position on. */
  ghost function SwallowFrom(offer: Offer, st: State, argv: seq<string>, argc: nat,
                             current: nat): (r: Result<(nat, State), ParseError>)
    requires current <= argc <= |argv|
    ensures r.Success? ==> current <= r.value.0 <= argc
    decreases argc - current
  {
    if current == argc then Success((current, st))
    else
      var taken :- offer(st, argv[current]);
      if taken.1.None? then Success((current, taken.0)) else SwallowFrom(offer, taken.0, argv, argc, current + 1)
  }

  /** The whole of parse on the contents of argv: the new contents, the new argc and the new state. */
  ghost function InPlace(opts: Options, argv: seq<string>, st: State, argc: nat): Left
    requires Wf(opts) && 1 <= argc <= |argv|
  {
    var c :- Compact(StepOf(opts), argv, st, argc, 1, 1);
    AfterCompact(opts, c, argc)
  }

  ghost function AfterCompact(opts: Options, c: Compaction, argc: nat): Left
    requires Wf(opts) && c.nextKeep <= c.current <= argc <= |c.argv|
  {
    var defaulted :- ApplyDefaults(opts, c.state, opts.order);
    if c.separated then
      var swallowed :- SwallowFrom(OfferOf(opts), defaulted, c.argv, argc, c.current);
      var (rest, nextKeep) := MovedRest(c.argv, argc, swallowed.0, c.nextKeep);
      Success((rest, nextKeep, swallowed.1))
    else
      Success((c.argv, c.nextKeep, defaulted))
  }

  // ----- They refine the specification ------------------------------------------------

  /** What the main loop does from a position on: it uses up some arguments, writes the kept ones behind those
      kept before, and leaves the unread ones untouched. */
  ghost predicate Compacts(argv: seq<string>, argc: nat, current: nat, nextKeep: nat, used: nat, kept: seq<string>,
                           c: Compaction) {
    && |c.argv| == |argv|
    && c.current == current + used <= argc <= |argv|
    && c.nextKeep == nextKeep + |kept| <= c.current
    && c.argv[..c.nextKeep] == argv[..nextKeep] + kept
    && c.argv[c.current..argc] == argv[c.current..argc]
  }

  lemma CompactsKeeping(argv: seq<string>, argc: nat, current: nat, nextKeep: nat, mine: nat, used: nat,
                        kept: seq<string>, c: Compaction)
    requires nextKeep <= current < current + mine <= argc <= |argv|
    requires Compacts(argv[nextKeep := argv[current]], argc, current + mine, nextKeep + 1, used, kept, c)
    ensures Compacts(argv, argc, current, nextKeep, mine + used, [argv[current]] + kept, c)
  {
    var after := argv[nextKeep := argv[current]];
    assert after[..nextKeep + 1] == argv[..nextKeep] + [argv[current]];
    assert after[c.current..argc] == argv[c.current..argc];
  }

  /** What the main loop makes of a scan from the same position. */
  ghost predicate Computes(argv: seq<string>, argc: nat, current: nat, nextKeep: nat,
                           c: Compacted, scan: Parsed)
    requires current <= argc <= |argv|
  {
    if scan.Failure? then c == Failure(scan.error)
    else
      && |scan.value.0| <= argc - current
      && c.Success? && c.value.state == scan.value.1
      && Compacts(argv, argc, current, nextKeep, |scan.value.0|, KeptOf(argv[current..argc], scan.value.0), c.value)
      && (c.value.separated || c.value.current == argc)
  }

  ghost function Before(mine: seq<Role>, scan: Parsed): Parsed {
    if scan.Failure? then scan else Success((mine + scan.value.0, scan.value.1))
  }

  /** The main loop computes the scan, and compacts the array accordingly: the write position never passes the
      read position, so the arguments still to be read are never overwritten. */
  lemma {:induction false} CompactIsScan(step: Stepper, argv: seq<string>, st: State, argc: nat, current: nat,
                                         nextKeep: nat,
                                         c: Compacted, scan: Parsed)
    requires 1 <= nextKeep <= current <= argc <= |argv|
    requires c == Compact(step, argv, st, argc, current, nextKeep) && scan == Scan(step, st, argv[current..argc])
    ensures Computes(argv, argc, current, nextKeep, c, scan)
    decreases argc - current
  {
    if current == argc || argv[current] == "--" {
      CompactStops(step, argv, st, argc, current, nextKeep, c, scan);
    } else {
      var stepped := step(st, argv[current], argv[current + 1..argc]);
      if stepped.Failure? {
        CompactFails(step, argv, st, argc, current, nextKeep, c, scan);
      } else {
        CompactGoesOn(step, argv, st, argc, current, nextKeep, stepped.value, c, scan);
      }
    }
  }

  lemma CompactStops(step: Stepper, argv: seq<string>, st: State, argc: nat, current: nat, nextKeep: nat,
                     c: Compacted, scan: Parsed)
    requires 1 <= nextKeep <= current <= argc <= |argv| && (current == argc || argv[current] == "--")
    requires c == Compact(step, argv, st, argc, current, nextKeep) && scan == Scan(step, st, argv[current..argc])
    ensures Computes(argv, argc, current, nextKeep, c, scan)
  {
    var rest := argv[current..argc];
    assert rest != [] ==> rest[0] == argv[current] && KeptOf(rest, [Separator]) == [];
    assert argv[..nextKeep] + [] == argv[..nextKeep];
  }

  lemma CompactFails(step: Stepper, argv: seq<string>, st: State, argc: nat, current: nat, nextKeep: nat,
                     c: Compacted, scan: Parsed)
    requires 1 <= nextKeep <= current < argc <= |argv| && argv[current] != "--"
    requires step(st, argv[current], argv[current + 1..argc]).Failure?
    requires c == Compact(step, argv, st, argc, current, nextKeep) && scan == Scan(step, st, argv[current..argc])
    ensures Computes(argv, argc, current, nextKeep, c, scan)
  {
    var rest := argv[current..argc];
    assert rest[0] == argv[current] && rest[1..] == argv[current + 1..argc];
  }

  lemma {:induction false} CompactGoesOn(
      step: Stepper, argv: seq<string>, st: State, argc: nat, current: nat, nextKeep: nat, s: Stepped,
      c: Compacted, scan: Parsed)
    requires 1 <= nextKeep <= current < argc <= |argv| && argv[current] != "--"
    requires step(st, argv[current], argv[current + 1..argc]) == Success(s)
    requires c == Compact(step, argv, st, argc, current, nextKeep) && scan == Scan(step, st, argv[current..argc])
    ensures Computes(argv, argc, current, nextKeep, c, scan)
    decreases argc - current, 1
  {
    var mine, moved, keep := CompactTakes(step, argv, st, argc, current, nextKeep, s, c, scan);
    CompactNext(step, argv, s.state, argc, current, nextKeep, mine, moved, keep, c, scan);
  }

  lemma CompactTakes(step: Stepper, argv: seq<string>, st: State, argc: nat, current: nat, nextKeep: nat, s: Stepped,
                     c: Compacted, scan: Parsed)
    returns (mine: seq<Role>, moved: seq<string>, keep: nat)
    requires 1 <= nextKeep <= current < argc <= |argv| && argv[current] != "--"
    requires step(st, argv[current], argv[current + 1..argc]) == Success(s)
    requires c == Compact(step, argv, st, argc, current, nextKeep) && scan == Scan(step, st, argv[current..argc])
    ensures 1 <= |mine| <= argc - current && Kept !in mine[1..]
    ensures moved == Moved(argv, mine[0] == Kept, current, nextKeep) && |moved| == |argv|
    ensures keep == if mine[0] == Kept then nextKeep + 1 else nextKeep
    ensures c == Compact(step, moved, s.state, argc, current + |mine|, keep)
    ensures scan == Before(mine, Scan(step, s.state, moved[current + |mine|..argc]))
  {
    mine := RolesOf(s, argv[current + 1..argc]);
    moved, keep := Moved(argv, s.role == Kept, current, nextKeep), if s.role == Kept then nextKeep + 1 else nextKeep;
    assert mine[0] == s.role && Kept !in mine[1..];
    CompactMoves(step, argv, st, argc, current, nextKeep, s, mine, moved, keep);
    ScanMoves(step, argv, st, argc, current, nextKeep, s, mine, moved);
  }

  lemma {:induction false} CompactNext(
      step: Stepper, argv: seq<string>, after: State, argc: nat, current: nat, nextKeep: nat, mine: seq<Role>,
          moved: seq<string>,
      keep: nat, c: Compacted, scan: Parsed)
    requires nextKeep <= current < argc <= |argv| && 1 <= |mine| <= argc - current && Kept !in mine[1..]
    requires moved == Moved(argv, mine[0] == Kept, current, nextKeep)
    requires keep == if mine[0] == Kept then nextKeep + 1 else nextKeep
    requires |moved| == |argv| && 1 <= keep && c == Compact(step, moved, after, argc, current + |mine|, keep)
    requires scan == Before(mine, Scan(step, after, moved[current + |mine|..argc]))
    ensures Computes(argv, argc, current, nextKeep, c, scan)
    decreases argc - current, 0
  {
    var next := Scan(step, after, moved[current + |mine|..argc]);
    CompactIsScan(step, moved, after, argc, current + |mine|, keep, c, next);
    ComputesBefore(argv, argc, current, nextKeep, mine, moved, keep, c, next, scan);
  }

  lemma CompactMoves(step: Stepper, argv: seq<string>, st: State, argc: nat, current: nat, nextKeep: nat, s: Stepped,
                     mine: seq<Role>, moved: seq<string>, keep: nat)
    requires 1 <= nextKeep <= current < argc <= |argv| && argv[current] != "--"
    requires step(st, argv[current], argv[current + 1..argc]) == Success(s)
             && mine == RolesOf(s, argv[current + 1..argc])
    requires moved == Moved(argv, s.role == Kept, current, nextKeep)
    requires keep == if s.role == Kept then nextKeep + 1 else nextKeep
    ensures Compact(step, argv, st, argc, current, nextKeep)
            == Compact(step, moved, s.state, argc, current + |mine|, keep)
  {
  }

  /** What is still to be read has not moved. */
  lemma ScanMoves(step: Stepper, argv: seq<string>, st: State, argc: nat, current: nat, nextKeep: nat, s: Stepped,
                  mine: seq<Role>, moved: seq<string>)
    requires nextKeep <= current < argc <= |argv| && argv[current] != "--"
    requires step(st, argv[current], argv[current + 1..argc]) == Success(s)
             && mine == RolesOf(s, argv[current + 1..argc])
    requires moved == Moved(argv, s.role == Kept, current, nextKeep)
    ensures Scan(step, st, argv[current..argc]) == Before(mine, Scan(step, s.state, moved[current + |mine|..argc]))
  {
    assert moved[current + |mine|..argc] == argv[current..argc][|mine|..];
    ScanGoesOn(step, st, argv[current..argc], argv[current + 1..argc], s);
  }

  lemma ScanGoesOn(step: Stepper, st: State, args: seq<string>, rest: seq<string>, s: Stepped)
    requires args != [] && args[0] != "--" && args[1..] == rest && step(st, args[0], rest) == Success(s)
    ensures var mine := RolesOf(s, rest); Scan(step, st, args) == Before(mine, Scan(step, s.state, args[|mine|..]))
  {
  }

  lemma ComputesBefore(argv: seq<string>, argc: nat, current: nat, nextKeep: nat, mine: seq<Role>, moved: seq<string>,
                       keep: nat,
                       c: Compacted, next: Parsed,
                       scan: Parsed)
    requires nextKeep <= current < argc <= |argv| && 1 <= |mine| <= argc - current && Kept !in mine[1..]
    requires moved == Moved(argv, mine[0] == Kept, current, nextKeep)
    requires keep == if mine[0] == Kept then nextKeep + 1 else nextKeep
    requires |moved| == |argv| && Computes(moved, argc, current + |mine|, keep, c, next) && scan == Before(mine, next)
    ensures Computes(argv, argc, current, nextKeep, c, scan)
  {
    if next.Success? {
      var rest := argv[current..argc];
      KeptOfStep(rest, mine, next.value.0);
      assert moved[current + |mine|..argc] == rest[|mine|..];
      if mine[0] == Kept {
        CompactsKeeping(argv, argc, current, nextKeep, |mine|, |next.value.0|, KeptOf(rest[|mine|..], next.value.0),
                        c.value);
      }
    }
  }

  ghost function Refused(args: seq<string>): (roles: seq<Role>)
    ensures |roles| == |args|
  {
    seq(|args|, _ => Kept)
  }

  /** Once an argument is refused nothing changes any more and every later one is refused. */
  ghost predicate RefusesForGood(offer: Offer) {
    forall st, a, b :: offer(st, a).Success? && offer(st, a).value.1.None? ==>
      var after := offer(st, a).value.0; offer(after, b) == Success((after, None))
  }

  /** A refused positional stays refused: the cursor is past the last positional option. */
  lemma PositionalsRefuseForGood(opts: Options)
    ensures RefusesForGood(OfferOf(opts))
  {
  }

  lemma {:induction false} RefusedStays(offer: Offer, st: State, args: seq<string>)
    requires forall b :: offer(st, b) == Success((st, None))
    ensures Tail(offer, st, args) == Success((Refused(args), st))
    decreases args
  {
    if args != [] {
      RefusedStays(offer, st, args[1..]);
      assert [Kept] + Refused(args[1..]) == Refused(args);
    }
  }

  /** The swallowing loop followed by keeping the rest is the one-at-a-time rule. */
  lemma {:induction false} SwallowIsTail(offer: Offer, st: State, argv: seq<string>, argc: nat, current: nat)
    returns (consumed: seq<Role>)
    requires current <= argc <= |argv| && RefusesForGood(offer)
    ensures var s := SwallowFrom(offer, st, argv, argc, current);
            if s.Failure? then Tail(offer, st, argv[current..argc]) == Failure(s.error)
            else
              && |consumed| == s.value.0 - current && Kept !in consumed
              && Tail(offer, st, argv[current..argc]) == Success((consumed + Refused(argv[s.value.0..argc]), s.value.1))
    decreases argc - current
  {
    var rest := argv[current..argc];
    consumed := [];
    if rest != [] {
      assert rest[1..] == argv[current + 1..argc];
      var taken := offer(st, rest[0]);
      if taken.Success? && taken.value.1.Some? {
        var more := SwallowIsTail(offer, taken.value.0, argv, argc, current + 1);
        consumed := [RoleOf(taken.value.1)] + more;
        var s := SwallowFrom(offer, taken.value.0, argv, argc, current + 1);
        if s.Success? {
          assert [RoleOf(taken.value.1)] + (more + Refused(argv[s.value.0..argc]))
                 == consumed + Refused(argv[s.value.0..argc]);
        }
      } else if taken.Success? {
        RefusedStays(offer, taken.value.0, rest[1..]);
        assert [Kept] + Refused(rest[1..]) == [] + Refused(rest);
      }
    } else {
      assert [] + Refused([]) == [];
    }
  }

  /** In-place parsing is the specification: same outcome, same state, and the new argv is the program name
      followed by the old arguments filtered by their roles. */
  lemma InPlaceIsParse(opts: Options, argv: seq<string>, argc: nat)
    requires Wf(opts) && 1 <= argc <= |argv|
    ensures Leaves(argv[0], argv[1..argc], Parse(opts, argv[1..argc]), InPlace(opts, argv, START, argc))
  {
    var compacted, scan := Compact(StepOf(opts), argv, START, argc, 1, 1), Scan(StepOf(opts), START, argv[1..argc]);
    CompactIsScan(StepOf(opts), argv, START, argc, 1, 1, compacted, scan);
    FinishCompacted(opts, argv, argc, compacted, scan, Parse(opts, argv[1..argc]), InPlace(opts, argv, START, argc));
  }

  lemma FinishCompacted(opts: Options, argv: seq<string>, argc: nat,
                        compacted: Compacted, scan: Parsed,
                        spec: Parsed, r: Left)
    requires Wf(opts) && 1 <= argc <= |argv| && Computes(argv, argc, 1, 1, compacted, scan)
    requires spec == if scan.Failure? then scan else AfterScan(opts, argv[1..argc], scan.value.0, scan.value.1)
    requires compacted.Success?
             ==> compacted.value.nextKeep <= compacted.value.current <= argc <= |compacted.value.argv|
    requires r == if compacted.Failure? then Failure(compacted.error) else AfterCompact(opts, compacted.value, argc)
    ensures Leaves(argv[0], argv[1..argc], spec, r)
  {
    if scan.Success? {
      var args, c := argv[1..argc], compacted.value;
      assert argv[..1] == [argv[0]];
      assert c.argv[c.current..argc] == args[|scan.value.0|..];
      FinishParse(opts, argv[0], args, scan.value.0, c, spec, r);
    }
  }

  /** The outcome of parsing in place is that of the specification, with argv holding the program name and the
      retained arguments. */
  ghost predicate Leaves(program: string, args: seq<string>, spec: Parsed,
                         r: Left)
  {
    match spec
    case Failure(e) => r == Failure(e)
    case Success(v) =>
      && |v.0| == |args|
      && var kept := Retained(args, v.0);
         r.Success? && r.value.1 == 1 + |kept| <= |r.value.0| && r.value.0[..1 + |kept|] == [program] + kept
             && r.value.2 == v.1
  }

  lemma FinishParse(opts: Options, program: string, args: seq<string>, scanned: seq<Role>, c: Compaction,
                    spec: Parsed, r: Left)
    requires Wf(opts) && |scanned| <= |args| && 1 <= c.nextKeep <= c.current <= |args| + 1 <= |c.argv|
    requires c.argv[..c.nextKeep] == [program] + KeptOf(args, scanned)
    requires c.argv[c.current..|args| + 1] == args[|scanned|..]
    requires c.separated || c.current == |args| + 1
    requires spec == AfterScan(opts, args, scanned, c.state) && r == AfterCompact(opts, c, |args| + 1)
    ensures Leaves(program, args, spec, r)
  {
    var defaulted := ApplyDefaults(opts, c.state, opts.order);
    if defaulted.Success? {
      if c.separated {
        PositionalsRefuseForGood(opts);
        FinishSwallow(OfferOf(opts), defaulted.value, program, args, scanned, c);
      } else {
        assert args[..|scanned|] == args && scanned + [] == scanned;
      }
    }
  }

  lemma FinishSwallow(offer: Offer, st: State, program: string, args: seq<string>, scanned: seq<Role>, c: Compaction)
    requires |scanned| <= |args| && 1 <= c.nextKeep <= c.current <= |args| + 1 <= |c.argv|
    requires c.argv[..c.nextKeep] == [program] + KeptOf(args, scanned)
    requires c.argv[c.current..|args| + 1] == args[|scanned|..] && RefusesForGood(offer)
    ensures var s := SwallowFrom(offer, st, c.argv, |args| + 1, c.current);
            var tail := Tail(offer, st, args[|scanned|..]);
            if s.Failure? then tail == Failure(s.error)
            else
              && tail.Success? && tail.value.1 == s.value.1
              && var (after, n) := MovedRest(c.argv, |args| + 1, s.value.0, c.nextKeep);
                 n <= |after| && after[..n] == [program] + Retained(args, scanned + tail.value.0)
  {
    var consumed := SwallowIsTail(offer, st, c.argv, |args| + 1, c.current);
    var s := SwallowFrom(offer, st, c.argv, |args| + 1, c.current);
    if s.Success? {
      FinishKeeps(args, scanned, consumed);
      assert c.argv[s.value.0..|args| + 1] == args[|scanned|..][|consumed|..] == args[|scanned| + |consumed|..];
      MovedRestKeeps(c.argv, |args| + 1, s.value.0, c.nextKeep);
    }
  }

  lemma FinishKeeps(args: seq<string>, scanned: seq<Role>, consumed: seq<Role>)
    requires |scanned| + |consumed| <= |args| && Kept !in consumed
    ensures var rest := args[|scanned| + |consumed|..];
            Retained(args, scanned + (consumed + Refused(rest))) == KeptOf(args, scanned) + rest
  {
    var n := |scanned|;
    RetainedRest(args[n..], |consumed|, consumed);
    assert args[n..][|consumed|..] == args[n + |consumed|..];
    assert args == args[..n] + args[n..];
    RetainedConcat(args[..n], args[n..], scanned, consumed + Refused(args[n + |consumed|..]));
  }

  lemma {:induction false} AllRetained(args: seq<string>)
    ensures Retained(args, Refused(args)) == args
    decreases args
  {
    if args != [] {
      assert Refused(args)[1..] == Refused(args[1..]);
      AllRetained(args[1..]);
      assert args == [args[0]] + args[1..];
    }
  }

  lemma RetainedRest(args: seq<string>, stop: nat, consumed: seq<Role>)
    requires stop == |consumed| <= |args| && Kept !in consumed
    ensures Retained(args, consumed + Refused(args[stop..])) == args[stop..]
  {
    assert args == args[..stop] + args[stop..];
    RetainedConcat(args[..stop], args[stop..], consumed, Refused(args[stop..]));
    NoneRetained(args[..stop], consumed);
    AllRetained(args[stop..]);
    assert [] + args[stop..] == args[stop..];
  }
}
