/** What parsing a command line means: a pure recursion over the arguments that gives every argument
    one role (lib/cxxopts.hpp:954-1130, 1379-1380, 1579-1886). */
module OptionSpec {
  import opened Wrappers
  import opened OptionValues

  /** A declared option; `long` or `short` may be empty, but not both. */
  datatype Detail = Detail(
    short: string, long: string, kind: Kind, container: bool,
    default: Option<string>, implicit: Option<string>)

  /** What a store holds: one value for a scalar, all of them for a container. */
  type Content = seq<Value>

  /** Value::parse, which every value type overrides: the new contents of a store, or a refused text. */
  type Reader = (Detail, Content, string) -> Option<Content>

  /** The declared options by name. `order` is the order in which the name table is iterated. */
  datatype Options = Options(
    names: map<string, Detail>, order: seq<string>, positional: seq<string>, allowUnrecognised: bool, read: Reader)

  datatype ParseError = OptionExists | BadSyntax | NotExists | MissingArgument | RequiresArgument | IncorrectType

  /** Every name leads to an option that has it, both non-empty names of an option lead to it, and the
      iteration order lists each name once. */
  predicate Wf(opts: Options) {
    && (forall name <- opts.names :: Named(opts, name, opts.names[name]))
    && (forall name <- opts.order :: name in opts.names)
    && (forall name <- opts.names :: name in opts.order)
    && (forall i, j :: 0 <= i < j < |opts.order| ==> opts.order[i] != opts.order[j])
  }

  predicate Named(opts: Options, name: string, o: Detail) {
    && name != [] && (name == o.short || name == o.long)
    && (o.short != [] ==> o.short in opts.names && opts.names[o.short] == o)
    && (o.long != [] ==> o.long in opts.names && opts.names[o.long] == o)
  }

  /** Options::add_one_option. */
  function AddName(opts: Options, name: string, o: Detail): Result<Options, ParseError> {
    if name in opts.names then Failure(OptionExists)
    else Success(opts.(names := opts.names[name := o], order := opts.order + [name]))
  }

  /** Options::add_option: each non-empty name enters the table, unless it is taken. */
  function AddOption(opts: Options, o: Detail): Result<Options, ParseError> {
    var first :- if o.short == [] then Success(opts) else AddName(opts, o.short, o);
    if o.long == [] then Success(first) else AddName(first, o.long, o)
  }

  /** Declaring an option keeps the table in order, and fails exactly when a name is taken or used twice. */
  lemma AddOptionKeepsWf(opts: Options, o: Detail)
    requires Wf(opts)
    ensures AddOption(opts, o).Success? ==> Wf(AddOption(opts, o).value)
    ensures AddOption(opts, o).Failure? <==>
              (o.short != [] && o.short in opts.names) || (o.long != [] && o.long in opts.names)
              || (o.short == o.long && o.long != [])
  {
    if AddOption(opts, o).Success? {
      var r := AddOption(opts, o).value;
      var added := (if o.short == [] then [] else [o.short]) + (if o.long == [] then [] else [o.long]);
      assert r.order == opts.order + added;
      forall name <- r.names ensures name in r.order && Named(r, name, r.names[name]) {
        assert name in opts.names ==> Named(opts, name, opts.names[name]);
        assert name in opts.names || name in added;
      }
    }
  }

  // ----- Stores -------------------------------------------------------------------

  datatype Store = Store(count: nat, content: Option<Content>)

  /** The stores by option, the event log m_sequential, and the positional cursor. */
  datatype State = State(stores: map<Detail, Store>, log: seq<(string, string)>, next: nat)

  const START := State(map[], [], 0)

  function StoreOf(st: State, o: Detail): Store {
    if o in st.stores then st.stores[o] else Store(0, None)
  }

  /** What a fresh store starts from. */
  function Fresh(o: Detail): Content {
    if o.container then []
    else match o.kind
      case Flag => [Bool(false)]
      case Text => [Str("")]
      case Integer(_, _) => [Int(0)]
  }

  /** The readers of the built-in types: a scalar is overwritten, a container grows. */
  function ReadInto(o: Detail, former: Content, text: string): Option<Content> {
    if o.container then Appended(former, ReadAll(o.kind, Tokens(text)))
    else
      var v := ReadValue(o.kind, text);
      if v.Some? then Some([v.value]) else None
  }

  /** A fresh scalar holds what the text 0 reads as, or an empty text reads as for texts. */
  lemma FreshIsZero(o: Detail, former: Content)
    requires !o.container
    ensures ReadInto(o, former, if o.kind.Text? then "" else "0") == Some(Fresh(o))
  {
    match o.kind
    case Integer(signed, width) => ZeroReads(signed, width);
    case _ =>
  }

  const STANDARD: Reader := (o, former, text) => ReadInto(o, former, text)

  function ContentOf(o: Detail, s: Store): Content {
    if s.content.Some? then s.content.value else Fresh(o)
  }

  /** parse_option: counts, reads and logs under the long name. */
  function AddTo(read: Reader, st: State, o: Detail, text: string): (r: Result<State, ParseError>)
    ensures r.Success? ==> r.value.next == st.next
  {
    var s := StoreOf(st, o);
    var content := read(o, ContentOf(o, s), text);
    if content.None? then Failure(IncorrectType)
    else Success(st.(stores := st.stores[o := Store(s.count + 1, content)], log := st.log + [(o.long, text)]))
  }

  /** consume_positional: offers an argument to the option at the cursor; answers who took it. */
  function ConsumePositional(opts: Options, st: State, arg: string): (r: Result<(State, Option<Detail>), ParseError>)
    ensures r.Success? ==> st.next <= r.value.0.next
    ensures r.Success? && r.value.1.None?
            ==> r.value.0 == st.(next := r.value.0.next) && r.value.0.next >= |opts.positional|
    decreases |opts.positional| - st.next
  {
    if st.next >= |opts.positional| then Success((st, None))
    else if opts.positional[st.next] !in opts.names then Failure(NotExists)
    else
      var o := opts.names[opts.positional[st.next]];
      if o.container then
        var after :- AddTo(opts.read, st, o, arg);
        Success((after, Some(o)))
      else if StoreOf(st, o).count == 0 then
        var after :- AddTo(opts.read, st, o, arg);
        Success((after.(next := st.next + 1), Some(o)))
      else
        ConsumePositional(opts, st.(next := st.next + 1), arg)
  }

  // ----- Tokens -------------------------------------------------------------------

  datatype Token = Plain | Short(letters: string) | Long(name: string, value: Option<string>)

  predicate IsNameChar(c: char) {
    IsAlnum(c) || c == '-' || c == '_'
  }

  function NameEnd(s: string): (n: nat)
    ensures n <= |s|
    ensures forall i :: 0 <= i < n ==> IsNameChar(s[i])
    ensures n < |s| ==> !IsNameChar(s[n])
  {
    if s == [] || !IsNameChar(s[0]) then 0 else 1 + NameEnd(s[1..])
  }

  predicate OneLine(s: string) {
    '\n' !in s && '\r' !in s
  }

  /** The option pattern: --name with a name of at least two characters and perhaps =value on one line,
      or - followed by letters and digits only. */
  function Classify(arg: string): Token {
    if |arg| >= 2 && arg[..2] == "--" then
      var body := arg[2..];
      var n := NameEnd(body);
      if n < 2 || !IsAlnum(body[0]) then Plain
      else if n == |body| then Long(body, None)
      else if body[n] == '=' && OneLine(body[n + 1..]) then Long(body[..n], Some(body[n + 1..]))
      else Plain
    else if |arg| >= 2 && arg[0] == '-' && forall c <- arg[1..] :: IsAlnum(c) then Short(arg[1..])
    else Plain
  }

  // ----- One step -----------------------------------------------------------------

  /** What became of an argument. */
  datatype Role = OptionToken | OptionValue | Consumed(taker: Detail) | Separator | Kept

  /** checked_parse_arg: the implicit value if there is one, else the next argument, which is then used up. */
  function CheckedParseArg(read: Reader, st: State, o: Detail,
                           rest: seq<string>): (r: Result<(State, bool), ParseError>)
    ensures r.Success? ==> r.value.0.next == st.next && (r.value.1 ==> rest != [])
  {
    if o.implicit.Some? then
      var after :- AddTo(read, st, o, o.implicit.value);
      Success((after, false))
    else if rest == [] then Failure(MissingArgument)
    else
      var after :- AddTo(read, st, o, rest[0]);
      Success((after, true))
  }

  /** The letters of a short cluster; only the last may take the next argument. */
  function ParseLetters(opts: Options, st: State, letters: string,
                        rest: seq<string>): (r: Result<(State, bool), ParseError>)
    ensures r.Success? ==> r.value.0.next == st.next && (r.value.1 ==> rest != [])
    decreases letters
  {
    if letters == [] then Success((st, false))
    else if [letters[0]] !in opts.names then
      if opts.allowUnrecognised then ParseLetters(opts, st, letters[1..], rest) else Failure(NotExists)
    else
      var o := opts.names[[letters[0]]];
      if |letters| == 1 then CheckedParseArg(opts.read, st, o, rest)
      else if o.implicit.Some? then
        var after :- AddTo(opts.read, st, o, o.implicit.value);
        ParseLetters(opts, after, letters[1..], rest)
      else Failure(RequiresArgument)
  }

  /** The outcome of one argument at an option position: its role, and whether the next argument was used
      up as its value. */
  datatype Stepped = Stepped(state: State, role: Role, takesNext: bool)

  type Stepper = (State, string, seq<string>) -> Result<Stepped, ParseError>

  function Step(opts: Options, st: State, arg: string, rest: seq<string>): (r: Result<Stepped, ParseError>)
    ensures r.Success? ==> st.next <= r.value.state.next && !r.value.role.Separator?
    ensures r.Success? && r.value.takesNext ==> rest != [] && r.value.role == OptionToken
  {
    match Classify(arg)
    case Plain =>
      if |arg| >= 2 && arg[0] == '-' && !opts.allowUnrecognised then Failure(BadSyntax)
      else
        var taken :- ConsumePositional(opts, st, arg);
        Success(Stepped(taken.0, RoleOf(taken.1), false))
    case Short(letters) =>
      var parsed :- ParseLetters(opts, st, letters, rest);
      Success(Stepped(parsed.0, OptionToken, parsed.1))
    case Long(name, value) =>
      if name !in opts.names then
        if opts.allowUnrecognised then Success(Stepped(st, Kept, false)) else Failure(NotExists)
      else if value.Some? then
        var after :- AddTo(opts.read, st, opts.names[name], value.value);
        Success(Stepped(after, OptionToken, false))
      else
        var parsed :- CheckedParseArg(opts.read, st, opts.names[name], rest);
        Success(Stepped(parsed.0, OptionToken, parsed.1))
  }

  function StepOf(opts: Options): Stepper {
    (st, arg, rest) => Step(opts, st, arg, rest)
  }

  // ----- The whole parse ------------------------------------------------------------

  /** The roles of the arguments one step uses up. */
  function RolesOf(s: Stepped, rest: seq<string>): (roles: seq<Role>)
    ensures 1 <= |roles| <= 1 + |rest|
  {
    if s.takesNext && rest != [] then [s.role, OptionValue] else [s.role]
  }

  /** A role for each argument and the state after them, or a refusal. */
  type Parsed = Result<(seq<Role>, State), ParseError>

  /** The arguments up to and including the separator, if there is one. */
  function Scan(step: Stepper, st: State, args: seq<string>): (r: Parsed)
    ensures r.Success? ==> |r.value.0| <= |args|
    ensures r.Success? && |r.value.0| < |args| ==> r.value.0 != [] && r.value.0[|r.value.0| - 1] == Separator
    decreases args
  {
    if args == [] then Success(([], st))
    else if args[0] == "--" then Success(([Separator], st))
    else
      var stepped :- step(st, args[0], args[1..]);
      var roles := RolesOf(stepped, args[1..]);
      var rest :- Scan(step, stepped.state, args[|roles|..]);
      Success((roles + rest.0, rest.1))
  }

  /** Defaults, for every name in turn whose option has not been counted. */
  function ApplyDefaults(opts: Options, st: State, names: seq<string>): (r: Result<State, ParseError>)
    requires forall name <- names :: name in opts.names
    ensures r.Success? ==> r.value.log == st.log && r.value.next == st.next
    decreases names
  {
    if names == [] then Success(st)
    else
      var after :- ApplyDefault(opts.read, st, opts.names[names[0]]);
      ApplyDefaults(opts, after, names[1..])
  }

  /** One visit of an option; it gets a store even when it has no default. */
  function ApplyDefault(read: Reader, st: State, o: Detail): (r: Result<State, ParseError>)
    ensures r.Success? ==> r.value.log == st.log && r.value.next == st.next
  {
    var s := StoreOf(st, o);
    if s.count == 0 && o.default.Some? then
      var content := read(o, ContentOf(o, s), o.default.value);
      if content.None? then Failure(IncorrectType)
      else Success(st.(stores := st.stores[o := Store(0, content)]))
    else Success(st.(stores := st.stores[o := s]))
  }

  type Offer = (State, string) -> Result<(State, Option<Detail>), ParseError>

  function OfferOf(opts: Options): Offer {
    (st, arg) => ConsumePositional(opts, st, arg)
  }

  function RoleOf(taker: Option<Detail>): Role {
    if taker.Some? then Consumed(taker.value) else Kept
  }

  /** After the separator every argument is offered to the positional options, one at a time. */
  function Tail(offer: Offer, st: State, args: seq<string>): (r: Parsed)
    ensures r.Success? ==> |r.value.0| == |args|
    decreases args
  {
    if args == [] then Success(([], st))
    else
      var taken :- offer(st, args[0]);
      var rest :- Tail(offer, taken.0, args[1..]);
      Success(([RoleOf(taken.1)] + rest.0, rest.1))
  }

  /** A whole parse of the arguments after the program name: each gets exactly one role. */
  function Parse(opts: Options, args: seq<string>): (r: Parsed)
    requires Wf(opts)
    ensures r.Success? ==> |r.value.0| == |args|
  {
    var scanned :- Scan(StepOf(opts), START, args);
    AfterScan(opts, args, scanned.0, scanned.1)
  }

  /** The defaults come between the scan and the arguments after the separator. */
  function AfterScan(opts: Options, args: seq<string>, scanned: seq<Role>, st: State): (r: Parsed)
    requires Wf(opts) && |scanned| <= |args|
    ensures r.Success? ==> |r.value.0| == |args|
  {
    var defaulted :- ApplyDefaults(opts, st, opts.order);
    var tail :- Tail(OfferOf(opts), defaulted, args[|scanned|..]);
    Success((scanned + tail.0, tail.1))
  }

  /** The arguments that stay in argv, in their order. */
  function Retained(args: seq<string>, roles: seq<Role>): (kept: seq<string>)
    requires |args| == |roles|
    ensures |kept| <= |args|
  {
    if args == [] then []
    else (if roles[0] == Kept then [args[0]] else []) + Retained(args[1..], roles[1..])
  }

  lemma {:induction false} RetainedConcat(a: seq<string>, b: seq<string>, r: seq<Role>, s: seq<Role>)
    requires |a| == |r| && |b| == |s|
    ensures Retained(a + b, r + s) == Retained(a, r) + Retained(b, s)
    decreases a
  {
    if a == [] {
      assert a + b == b && r + s == s;
    } else {
      assert (a + b)[1..] == a[1..] + b && (r + s)[1..] == r[1..] + s;
      RetainedConcat(a[1..], b, r[1..], s);
    }
  }

  /** The kept arguments of a scan. */
  ghost function KeptOf(args: seq<string>, roles: seq<Role>): seq<string>
    requires |roles| <= |args|
  {
    Retained(args[..|roles|], roles)
  }

  lemma KeptOfStep(args: seq<string>, mine: seq<Role>, more: seq<Role>)
    requires 1 <= |mine| && |mine| + |more| <= |args| && Kept !in mine[1..]
    ensures KeptOf(args, mine + more) == (if mine[0] == Kept then [args[0]] else []) + KeptOf(args[|mine|..], more)
  {
    var n := |mine|;
    assert args[..n + |more|] == args[..n] + args[n..][..|more|];
    RetainedConcat(args[..n], args[n..][..|more|], mine, more);
    NoneRetained(args[..n][1..], mine[1..]);
  }

  lemma {:induction false} NoneRetained(args: seq<string>, roles: seq<Role>)
    requires |args| == |roles| && Kept !in roles
    ensures Retained(args, roles) == []
    decreases args
  {
    if args != [] {
      assert roles[0] in roles;
      NoneRetained(args[1..], roles[1..]);
    }
  }
}
