# Verified model of the Lok compiler's front end and its support libraries

This project models, in Dafny, the parts of the Lok compiler (`clok`) whose behaviour is hardest to see from the
code, and proves what they promise. `dafny verify dfyconfig.toml` checks all of it.

Four parts stand side by side.

* **The elaborator** (`src/extrapolate.cpp`, `src/util.cpp`, `src/constructs.cpp`). `Elaborator.Program` is an object
  with the fields of the source: a stack of scope frames, the current namespace, the symbol table, the symbols of
  loaded files, the forced constructors and the operator overloads. Its methods push, pop and append as the source
  does. Each is proved equal to a pure resolver (`Resolver`) that hands an environment down the tree. What the
  resolver builds is exactly what rules read off the tree (`Rules`), what a file registers and emits are lists read
  off its declarations (`Registration`, `Emission`). About it the project proves lexical scoping, when what is built
  is well typed, weakening, and that registration and elaboration agree. A `throw`, a null expression and an access
  outside a vector are failures of a `Result`.
* **The option parser** (`lib/cxxopts.hpp`). `OptionParser.ParseResult` walks and compacts `argv` in place while it
  fills stores, an event log and a positional cursor. It is proved to leave exactly what a pure recursion
  (`OptionSpec.Parse`) says, where every argument gets one role. The laws are about that recursion: what each role
  says of its argument, which command lines are accepted (`OptionForm`), the log is what the roles call for, the
  stores replay the log, tokens can be rewritten, positional arguments are shared out in one direction. The integer
  reader is modelled with its wrap-around, the word wrapper with its stale last space.
* **The rolling log** (`RollingFileAppender.h`). An appender over a disk of named files, with the rename cascade as
  a loop. It is proved to do what a list of lists of records does, and what the files hold is proved to be the
  history but for the files that were discarded.
* **The load worklist, the tree dump and the CSV field** (`src/main.cpp`, `src/bridge.cpp`, `CsvFormatter.h`). The
  worklist ends exactly on acyclic load graphs, or at a bad file, and parses once for every load path. The dump and
  the field are proved to be undone by readers written down independently of them.

Where the code does not keep a promise in general, the condition under which it does is proved, with an input that
shows the failure:

* the table of forced constructors is searched by an order that does not tell the unknown type from any other, so an
  operand of unknown type is passed to whatever constructor there is, as a file shows
  (`IllTyped.UnknownOperandIllTyped`); which entry of the table an upgrade uses is settled before it, and the upgrade is
  well typed exactly when that entry is filed under the operand's type (`Typing.UpgradeWellTypedIff`), which for known,
  function-free keys means that the operand's type is known (`Typing.UpgradeWellTypedIffKnown`). This reads the
  multimap as a list; it is one where the keys are in a strict weak order (`Passes.RegisteredRange`), which keys such
  as `bit*` and `bit[8]` are not (`LokTypes.QualifiersUnordered`);
* an overload with three parameters makes an ill-typed call (`IllTyped.TernaryOverloadIllTyped`); a call is well
  typed exactly when the first overload that matches has two (`Typing.OverloadWellTypedIff`);
* the operators of a class never take the objects of the class, because a type written in it gets the class's path in
  front (`Passes.OwnOperatorsRefuse`, `IllTyped.OwnOperatorUnused`), unless that path begins with `bit` and is spelled
  in full (`Passes.WrittenInClass`);
* an overflow can pass the integer reader, `300` as an 8-bit value reads as 44 (`OptionValues.WrapUnnoticed`); a
  numeral passes exactly when the residues of its prefixes never become smaller and the last is in range
  (`OptionValues.AcceptedIffRises`), and reads as its own value exactly when the type can hold it
  (`OptionValues.ReadsExactlyWhenRepresentable`);
* a list with two names that is not given holds its default twice (`OptionReplay.DefaultTwice`): a default is read once
  for each name (`OptionReplay.DefaultPerName`);
* the wrapper refuses a description, through a range that ends before it begins, exactly when a stretch without
  spaces and newlines follows one that was broken at a space (`WordWrap.AcceptedIffFits`), which a long second word is
  at every width (`WordWrap.LongWordRefused`); each newline throws away the line that is pending
  (`WordWrap.WrapConserves`), and nothing but blanks is lost exactly when what stands before the last newline of each
  stretch, back to the line pending there, is blank (`WordWrap.ConservedIffBlank`);
* a log whose name ends with a dot is written to a file without it (`RollingLog.NameKept`);
* a worklist over two files that load each other never ends (`LoadQueue.MutualNeverStops`); it ends exactly when the
  load graph has no cycle or a reachable file is bad (`LoadGraph.StopsIff`).

## Model

| member | source | states |
|---|---|---|
| LokTypes.EqualsMeaning | src/constructs.cpp:68-80 | type comparison says yes exactly for identical types without an unknown part, says no only for different types, and throws only when both sides have an unknown part |
| LokTypes.EqualsThrows | src/constructs.cpp:68-80 | it throws exactly when the first parts that are not the same known type are two unknown ones |
| LokTypes.EqualsSymmetric | src/constructs.cpp:68-80 | the order of the operands matters neither for the answer nor for the throw |
| LokTypes.SameQualifierIsEquality | src/constructs.cpp:121-129 | chains of qualifiers compare equal exactly when they are the same chain |
| LokTypes.LessSeparates | src/constructs.cpp:82-95 | a known, function-free type of any nesting is not ordered before or after a known type exactly when the two are equal |
| LokTypes.LessAllSeparates | src/constructs.cpp:109-111 | the same for lists of types in lexicographic order |
| LokTypes.LessQualifierSeparates | src/constructs.cpp:131-139 | the same for chains of qualifiers, although their order is no total order |
| LokTypes.LessPathSeparates | src/constructs.cpp:156-158 | the same for identifiers |
| LokTypes.LessTextMeans | src/program.hpp:211-211 | texts, among them the names of loaded files, are ordered by the first character that differs, a beginning before what it begins |
| LokTypes.LessPathMeans | src/constructs.cpp:156-158 | identifiers are ordered by the first part that differs |
| LokTypes.LessQualifierMeans | src/constructs.cpp:131-139 | a chain of qualifiers precedes another exactly when at some depth it has ended or is less in one of the three fields |
| LokTypes.LessAllMeans | src/constructs.cpp:109-111 | a list of types precedes another exactly when at some place it has ended or has the smaller type, and those before are not told apart |
| LokTypes.FormsInOrder | src/constructs.cpp:82-95 | known types of different forms come in the order single, tuple, function |
| LokTypes.FunctionTypesUnordered | src/constructs.cpp:117-119 | two function types with the same parameters, or with the same result, are unordered, whatever the other part is |
| LokTypes.UnknownIsEquivalent | src/constructs.cpp:82-95 | the unknown type is ordered neither before nor after any type |
| LokTypes.QualifiersUnordered | src/constructs.cpp:131-139 | a pointer and an array of bits precede each other |
| Scoping.InnermostFirst | src/util.cpp:17-35 | a name means its first declaration in the innermost frame that declares it |
| Scoping.VisibleIffDeclared | src/util.cpp:17-35 | a name is visible exactly when some frame declares it |
| Scoping.AggregateFinds | src/util.cpp:17-35 | searching the concatenated frames from the front is looking the name up in the flattened bindings |
| Scoping.BindAllFirst | src/util.cpp:31-35 | within one frame the first declaration of a name wins |
| Scoping.PushIsEnter | src/extrapolate.cpp:284-290 | pushing a frame is entering a scope that inherits everything visible |
| Scoping.DeclareIsAppend | src/extrapolate.cpp:222-222 | appending to the innermost frame is declaring in the innermost scope, where a redeclaration changes nothing |
| Scoping.FindExternalLeast | src/util.cpp:41-45 | the loaded file that answers is the least in name of those that have the symbol; none answers exactly when none has it |
| Scoping.ResolvesTo | src/util.cpp:17-47 | on any stack of frames a name means the first declaration in the innermost frame that declares it, else the program's symbol, else that of the least file, and is a bad symbol exactly when there is none of these |
| Scoping.FoundByItsPath | src/util.cpp:29-47 | the symbol that is found for a path has that path, over tables that registration keeps in this way (`Registration.RegisteredKeyed`) |
| Scoping.SetExternalAscends | src/extrapolate.cpp:402-402 | storing a loaded file's symbols keeps the files in order, one entry each |
| Scoping.SetExternalContents | src/extrapolate.cpp:402-402 | storing a file's symbols puts in that entry and changes no other |
| Scoping.Lookup | src/util.cpp:29-47 | a lookup finds the stack empty only outside every scope |
| Resolver.ElabExpr | src/extrapolate.cpp:278-362 | elaborating an expression finds the frame stack empty only when it began so; which expression it is is `Rules.ExprIff` |
| Resolver.ElabStmt | src/extrapolate.cpp:200-276 | a statement leaves every enclosing scope as it was and replaces no binding of its own; which statement it is and which scope follows is `Rules.StmtIff` |
| Resolver.ElabDecl | src/extrapolate.cpp:203-224 | a declaration only adds to the scope it stands in |
| Resolver.ElabFunction | src/extrapolate.cpp:280-293 | a function never finds the stack empty: its parameters are a scope |
| Typing.FirstReturningIsCandidate | src/extrapolate.cpp:127-134 | the forced constructor chosen for a target is one of those found, and returns the target, which is known |
| Typing.ForcedForIsEquivalent | src/extrapolate.cpp:121-126 | the constructors found for a type are filed under types that the order does not tell apart from it |
| Typing.UpgradeWellTypedIff | src/extrapolate.cpp:120-138 | an upgrade always succeeds; the table alone settles which entry it uses, the first equivalent one that returns the target or else the only equivalent one; it is the expression itself if there is none, and else the call of that entry, well typed exactly when the entry's key is the type of the operand |
| Typing.UpgradeWellTypedIffKnown | src/extrapolate.cpp:120-138 | if all keys are known and free of functions, an upgrade by an entry is well typed exactly when the type of its operand is known |
| Typing.FiledSorted | src/extrapolate.cpp:54-54 | filing an entry keeps the table sorted, where the keys are in a strict weak order |
| Typing.FiledLast | src/extrapolate.cpp:54-54 | a new entry is found behind all others of its type, so constructors of a type stand in the order in which they are registered |
| Typing.EqualRange | src/extrapolate.cpp:122-126 | in such a table the entries found for a type are the one range that those preceding it end and those following it begin |
| Typing.CoerceArgsExact | src/extrapolate.cpp:308-317 | a call keeps as many arguments as there are parameters, unchanged, with exactly the parameter types |
| Typing.GetOverloadExact | src/extrapolate.cpp:156-182 | a resolved operator is a call of the first overload whose name and first two parameter types match, on the operands as given |
| Typing.OverloadWellTypedIff | src/extrapolate.cpp:163-167 | a resolved operator call is well typed exactly when the first entry of the table that matches has two parameters |
| Typing.ElabExprWellTyped | src/extrapolate.cpp:278-362 | every expression the elaborator returns is well typed throughout, but that an upgrade may pass an operand to a constructor whose key is not told apart from its type; not even that without forced constructors, or in a fully typed tree, with known names and overloads and known, function-free keys |
| Typing.ElabStmtWellTyped | src/extrapolate.cpp:200-276 | so is every statement |
| Weakening.WeakenExpr | src/extrapolate.cpp:278-362 | two scopes that agree on the names an expression mentions elaborate it alike |
| Weakening.WeakenStmt | src/extrapolate.cpp:200-276 | the same for statements, and the scopes agree on those names afterwards |
| Weakening.StackWeakening | src/extrapolate.cpp:200-362 | putting bindings of unmentioned names anywhere into any frame changes nothing |
| Passes.Register | src/extrapolate.cpp:23-83 | registration only adds to the tables, ends in the namespace it began in or in none, and files each forced constructor under the one type it takes |
| Passes.RegisterConstructor | src/extrapolate.cpp:36-56 | a constructor's path is registered, in the same namespace |
| Passes.Drive | src/extrapolate.cpp:364-424 | elaborating declarations changes no table, and finds the stack empty only in a file that is not of the grammar's shape; what it emits is `Emission.DriveEmits` |
| Passes.PassesAgree | src/extrapolate.cpp:364-424 | once declarations are registered, elaborating them from the same namespace looks up no unregistered path and ends in the namespace registration ended in |
| Passes.PassesAgreeOne | src/extrapolate.cpp:364-424 | the same for a single declaration |
| Passes.DriveWellTyped | src/extrapolate.cpp:364-424 | everything elaborated for a list of declarations is well typed, with the same two cases as for an expression |
| Passes.DriveKeepsFiles | src/extrapolate.cpp:396-403 | elaboration keeps the loaded files in the order of their names |
| Passes.WrittenInClass | src/constructs.cpp:142-148 | a type written in a class is that of the class's objects exactly if the class's path begins with `bit` and the type spells it in full |
| Passes.RegisterTidy | src/extrapolate.cpp:23-83 | registration keeps it that no operator takes an object of its own class, that forced constructors return one, and that keys in a strict weak order are sorted |
| Passes.OwnOperatorsRefuse | src/extrapolate.cpp:44-77 | in the tables of any file, an operator on an object of a class resolves to an overload of another class, unless the class's path begins with `bit` |
| Passes.RegisteredRange | src/extrapolate.cpp:120-126 | in the tables of any file whose keys are in a strict weak order, the entries found for a type are the range between its bounds |
| Passes.FileTheorem | src/main.cpp:167-174 | both passes over a whole file, from empty tables: no unregistered path, no empty stack in a file of the grammar's shape, loaded files in order, and, unless an overload takes three or more parameters, a well-typed result with the same two cases |
| Rules.NamedIff | src/constructs.cpp:142-148 | a type's identifier is its path as it is spelled if that begins with `bit`, and else the current namespace and then the path |
| Rules.QualifiedIff | src/constructs.cpp:160-165 | a chain of qualifiers is read exactly when each node tells, in its place, a pointer, an upgrade or an array of the node's number |
| Rules.WrittenIff | src/constructs.cpp:12-30 | the type made of a node is exactly the one written there: parts in order, parameters before the result, and no result if there is none |
| Rules.TypesAreWritten | src/extrapolate.cpp:208-208 | the kinds of nodes taken for a type are exactly those that some type is written with |
| Rules.LiteralsWritten | src/constructs.cpp:229-232 | the types of literals are those written as `bit`, `bit` of a size, and for a text of that length an array of upgrades to arrays of eight |
| Rules.FunctionWrittenIff | src/util.cpp:8-15 | a function has the types of its parameters, in order, and its result if one is written; its frame has a symbol for each |
| Rules.UpgradedIff | src/extrapolate.cpp:120-138 | an upgrade is the call of the entry that the table settles, or the expression itself if it settles none |
| Rules.KeptIff | src/extrapolate.cpp:306-316 | the arguments of a call are accepted exactly if there are enough, of exactly the known types of the parameters, and the first ones are kept |
| Rules.OverloadedIff | src/extrapolate.cpp:156-182 | an operator resolves to an overload exactly if that is the first that takes the known types of the operands and those before it can be compared with them |
| Rules.ExprIff | src/extrapolate.cpp:278-362 | an expression is built exactly when the tree denotes it: literals hold the node's number, flag and text, names the symbol of their path, arguments and operands stand in the order of the children, each under the upgrade the table settles, and a function has the written type and the body of child 0 |
| Rules.StmtIff | src/extrapolate.cpp:200-276 | a statement is built exactly when the tree denotes it, and the scope behind it is the one denoted: blocks hold their children in order, conditionals, loops, returns and declarations the parts of their children, each in the scope that the parts before it leave |
| Rules.IfIff | src/extrapolate.cpp:257-261 | a conditional has the test of child 0, the branch of child 1 if that holds and the one of child 2, or none, if not |
| Registration.RegisterIff | src/extrapolate.cpp:23-83 | registering a file ends with some tables exactly when they hold, in order, a symbol for each declaration, of its path, its written type and its attributes, operators listed and forced constructors filed under the type they take |
| Registration.RegisteredKeyed | src/constructs.cpp:193-200 | every symbol is filed under its own path |
| Emission.DriveEmits | src/extrapolate.cpp:364-424 | elaborating a file succeeds exactly when each run, operator and destructor, and each constructor with a block, emits one entry, in order, with its registered symbol, or for a run the symbol `run::0`, and the value that its code denotes there, and every other declaration can be read |
| Emission.EmitsCode | src/extrapolate.cpp:388-422 | an entry whose code is a function or a block has a value |
| Emission.FileNameIs | src/main.cpp:177-179 | the name in a load statement is the parts of its path run together |
| Registration.CompileIff | src/main.cpp:159-174 | a whole file, from empty tables, ends with some tables and entries exactly when they are those of its declarations and units |
| IllTyped.OperandIllTyped | src/extrapolate.cpp:120-138 | a file: a declaration `f`, an operator on `N::C` and `bit[64]`, `f + 1`, and a forced constructor of `N::C` whose key is not told apart from the type of `f` but differs; it registers sound tables and elaborates into an ill-typed call |
| IllTyped.UnknownOperandIllTyped | src/extrapolate.cpp:120-138 | such a file with `f : = 0b` and a constructor that takes a bit; all keys are known and free of functions |
| IllTyped.FunctionOperandIllTyped | src/extrapolate.cpp:120-138 | such a file with a function and a constructor that takes a function of another result |
| IllTyped.TernaryOverloadIllTyped | src/extrapolate.cpp:163-167 | a file whose class has an operator of three parameters, and a sum of two bits that it is resolved to |
| IllTyped.OwnOperatorUnused | src/extrapolate.cpp:156-182 | a file whose class `i8` has an operator on two `i8`, where the sum of two `i8` finds no overload |
| Elaborator.AggregateStack | src/util.cpp:17-27 | frames are concatenated innermost first; an empty stack is refused |
| Elaborator.Program.GetSymbol | src/util.cpp:29-47 | the lookup on the frames is the resolver's on their bindings |
| Elaborator.Program.PossibleConstructors | src/extrapolate.cpp:121-126 | the constructors found are those whose keys the order does not tell apart from the type, in the order of the table |
| Elaborator.Program.ForceUpgrade | src/extrapolate.cpp:120-138 | the same result and failures as the resolver's |
| Elaborator.Program.CoerceType | src/extrapolate.cpp:140-146 | the expression itself when the types compare equal, else nothing |
| Elaborator.Program.GetOverload | src/extrapolate.cpp:156-182 | the same as the resolver's; the list of convertible overloads always stays empty |
| Elaborator.Program.CoerceArgs | src/extrapolate.cpp:308-316 | the same as the resolver's |
| Elaborator.Program.ExtrapolateExpr | src/extrapolate.cpp:278-362 | the resolver's expression, with the frame stack exactly as it was |
| Elaborator.Program.ExtrapolateFunction | src/extrapolate.cpp:280-293 | the resolver's function, with the parameter frame pushed and popped |
| Elaborator.Program.ExtrapolateOperator | src/extrapolate.cpp:294-331 | the resolver's operator or call, with the stack as it was |
| Elaborator.Program.ExtrapStmt | src/extrapolate.cpp:200-276 | the resolver's statement and scope, which `Rules.StmtIff` reads off the tree; the depth and every outer frame stay, the innermost only grows |
| Elaborator.Program.ExtrapDecl | src/extrapolate.cpp:203-224 | the resolver's declaration and scope |
| Elaborator.Program.ExtrapBlock | src/extrapolate.cpp:225-233 | the resolver's block; its frame is gone afterwards |
| Elaborator.Program.ExtrapWhile | src/extrapolate.cpp:234-239 | the resolver's loop, which elaborates its first child twice |
| Elaborator.Program.ExtrapDoFor | src/extrapolate.cpp:240-246 | the resolver's loop; its frame is gone afterwards |
| Elaborator.Program.ExtrapFor | src/extrapolate.cpp:247-253 | the resolver's loop; its frame is gone afterwards |
| Elaborator.Program.ExtrapIf | src/extrapolate.cpp:257-261 | the resolver's conditional: by `Rules.IfIff` its test, yes branch and no branch are what children 0, 1 and 2 denote, one after the other |
| Elaborator.Program.FindSymbols | src/extrapolate.cpp:23-83 | the tables and namespace after registration are those of the pure pass |
| Elaborator.Program.Extrapolate | src/extrapolate.cpp:364-424 | the elaborated symbols, tables and namespace are those of the pure pass, which by `Emission.DriveEmits` are the units of the file; the stack ends empty |
| Numerals.NumeralOfDigits | lib/cxxopts.hpp:572-600 | the digits of a number, in either base, denote it |
| Numerals.DigitsInjective | lib/plog/Appenders/RollingFileAppender.h:97-100 | different numbers have different digits |
| Numerals.DigitsThenDelimiter | src/bridge.cpp:51-51 | a decimal number can be told apart from what follows if that is no digit |
| OptionValues.IntegerParser | lib/cxxopts.hpp:544-614 | the digit loop over an accumulator that wraps is the recursive reading of the text |
| OptionValues.Widths | lib/cxxopts.hpp:544-552 | the moduli of the unsigned types the digits are read in |
| OptionValues.AccumulateCongruent | lib/cxxopts.hpp:570-600 | every accepted accumulator is the numeral modulo the width, whatever wraps went unnoticed |
| OptionValues.AccumulateExact | lib/cxxopts.hpp:570-600 | a numeral that fits accumulates to itself |
| OptionValues.ReadsExactlyWhenRepresentable | lib/cxxopts.hpp:544-614 | a signed numeral, in either base and with leading zeros, is read as its own value exactly when the type can hold it |
| OptionValues.AccumulateIffRises | lib/cxxopts.hpp:570-600 | the digit loop accepts a numeral exactly when the residues of its prefixes never become smaller |
| OptionValues.AcceptedIffRises | lib/cxxopts.hpp:544-614 | a numeral of any size and sign is accepted exactly when, besides, the last residue is in the type's range, and is read as that residue with its sign |
| OptionValues.ReadCongruent | lib/cxxopts.hpp:544-614 | every accepted text is a numeral, read modulo the width |
| OptionValues.NegateIsMinus | lib/cxxopts.hpp:527-535 | negation gives the negative value, that of the most negative one included |
| OptionValues.WrapUnnoticed | lib/cxxopts.hpp:593-597 | an overflow that passes the test for wrapping |
| OptionValues.PrintReadsBack | lib/cxxopts.hpp:544-614 | every representable value, in decimal or hexadecimal, reads back as itself |
| OptionValues.SplitIff | lib/cxxopts.hpp:474-475 | a text is taken apart into sign, prefix and digits exactly when it is spelled so, and plain digits do not begin with a prefix of their own |
| OptionValues.DigitValueIs | lib/cxxopts.hpp:574-592 | the value of a digit is its place among the digits of the base, small or capital |
| OptionValues.FlagWords | lib/cxxopts.hpp:476-479 | the words that are true and those that are false |
| OptionValues.ParseList | lib/cxxopts.hpp:721-732 | the loop over a stream and its end-of-file flag appends the value of each token |
| OptionValues.TokensOfJoin | lib/cxxopts.hpp:725-727 | parts without commas, the last not empty, are what their joined text splits into |
| OptionValues.JoinOfTokens | lib/cxxopts.hpp:725-727 | any text is its tokens joined by commas, but for a comma at its end, and no token has a comma |
| OptionValues.ListReadsBack | lib/cxxopts.hpp:721-732 | a list of representable values joined by commas reads back as that list |
| OptionSpec.AddOptionKeepsWf | lib/cxxopts.hpp:1888-1938 | declaring an option keeps both of its names on one option, and fails exactly when a name is taken or used twice |
| OptionSpec.FreshIsZero | lib/cxxopts.hpp:763-765 | a scalar that was never given holds what the text 0 reads as, or an empty text |
| OptionSpec.ConsumePositional | lib/cxxopts.hpp:1651-1688 | the cursor only moves forward, and a refusal moves it to the end and changes nothing else |
| OptionSpec.Step | lib/cxxopts.hpp:1732-1852 | one argument never moves the cursor back, and takes the next argument only as an option's value; which arguments are accepted is `OptionForm.ParseAccepts`, and which are options `OptionLaws.PlainIff` |
| OptionRoles.ScanRoles | lib/cxxopts.hpp:1732-1852 | up to the separator every role fits its argument: an option token is a cluster or a declared long option, a value stands directly behind an option that needs one, the separator is `--`, only plain arguments are taken, and unknown long options are kept |
| OptionRoles.RolesMean | lib/cxxopts.hpp:1722-1886 | the roles of an accepted parse fit up to the one separator, and behind it every argument is taken or kept |
| OptionRoles.RoleDecided | lib/cxxopts.hpp:1732-1852 | where roles fit, the form of an argument and of the one before decides its role, up to taken or kept for a plain one |
| OptionCursor.KeptIffExhausted | lib/cxxopts.hpp:1651-1688 | a plain argument, or any behind the separator, is kept exactly when the arguments before it have exhausted the positional options: each is a scalar that was given, as an option or by position |
| OptionSpec.RetainedConcat | lib/cxxopts.hpp:1876-1881 | what is retained of two stretches is retained of each, in order |
| OptionParser.ParseResult.Count | lib/cxxopts.hpp:1144-1156 | the count of the option of a name, 0 if there is none; the entry it looks up is there after an accepted parse, by `OptionReplay.StoresReplay` |
| OptionParser.ParseResult.ParseOption | lib/cxxopts.hpp:1586-1599 | the store counts and reads the text, the log grows by it; the state is that of the specification |
| OptionParser.ParseResult.CheckedParseArg | lib/cxxopts.hpp:1601-1635 | the implicit value or the next argument, which is then used up |
| OptionParser.ParseResult.ConsumePositional | lib/cxxopts.hpp:1651-1688 | the loop over the cursor is the recursive rule |
| OptionParser.ParseResult.ParseLetters | lib/cxxopts.hpp:1774-1808 | the loop over the letters of a cluster is the recursive rule |
| OptionParser.ParseResult.ParseArgument | lib/cxxopts.hpp:1741-1851 | the body of the main loop is one step of the specification, over the forms of `OptionLaws.ClassifyLongIff`, `ClassifyValueIff`, `ClassifyShortIff` and `PlainIff` |
| OptionParser.ParseResult.FillDefaults | lib/cxxopts.hpp:1854-1864 | the loop over the name table fills in defaults as specified |
| OptionParser.ParseResult.ScanArguments | lib/cxxopts.hpp:1732-1852 | the main loop with its write index is the recursion that compacts the array |
| OptionParser.ParseResult.Swallow | lib/cxxopts.hpp:1868-1874 | the first loop after the separator is the recursion that offers arguments until one is refused |
| OptionParser.KeepRest | lib/cxxopts.hpp:1877-1881 | the second loop after the separator keeps what is left |
| OptionParser.ParseResult.Parse | lib/cxxopts.hpp:1722-1886 | argv ends as the program name and the retained arguments in order; state and failures are those of the specification |
| OptionParser.CompactIsScan | lib/cxxopts.hpp:1732-1852 | compaction in place is a filter by roles: the write index never passes the read index and unread arguments are never overwritten |
| OptionParser.MovedRestKeeps | lib/cxxopts.hpp:1877-1881 | the keeping loop puts the rest behind what was kept before |
| OptionParser.PositionalsRefuseForGood | lib/cxxopts.hpp:1651-1688 | once a positional argument is refused, every later one is |
| OptionParser.SwallowIsTail | lib/cxxopts.hpp:1866-1882 | so the two loops after the separator equal offering the arguments one at a time |
| OptionParser.InPlaceIsParse | lib/cxxopts.hpp:1722-1886 | parsing in place equals the specification on every argument list |
| OptionReplay.ScanAdds | lib/cxxopts.hpp:1732-1852 | the state after a scan is what running the additions of its roles one by one makes |
| OptionReplay.ParseAdds | lib/cxxopts.hpp:1722-1886 | an accepted parse runs the additions its arguments call for up to the separator, then the defaults, then the rest |
| OptionReplay.LogIsEvents | lib/cxxopts.hpp:1594-1599 | the log of an accepted parse names exactly the additions that the arguments call for by their roles, in order |
| OptionReplay.StandardScalarsOverwrite | lib/cxxopts.hpp:682-710 | the built-in readers of scalars do not depend on what was stored |
| OptionReplay.DefaultsStore | lib/cxxopts.hpp:1854-1864 | filling in defaults gives every visited option a store and changes no count, for containers too |
| OptionReplay.DefaultsFill | lib/cxxopts.hpp:1854-1864 | an option that was given keeps its contents; into any other, container or scalar, its default is read once for each of its names |
| OptionReplay.StoresReplay | lib/cxxopts.hpp:1722-1886 | after an accepted parse every declared option, whatever its names, kind and default, has a store; it counts the texts given, and holds the defaults that were read and then all the texts, read in their order |
| OptionReplay.CountIsLogged | lib/cxxopts.hpp:1586-1599 | the count of every option with a long name, containers with a default included, is its number of log entries |
| OptionReplay.ShortCountsAreLogged | lib/cxxopts.hpp:1594-1599 | the counts of the options that have only a short name add up to the log entries under the empty name |
| OptionReplay.StoresReplayLog | lib/cxxopts.hpp:1038-1093 | after an accepted parse a scalar holds the last text given, which for a long name is the last one logged, or else its default |
| OptionReplay.ContainersReplayLog | lib/cxxopts.hpp:1038-1093 | an option without a default, or given before the separator, holds every text given, in order; for a long name these are the logged ones |
| OptionReplay.DefaultPerName | lib/cxxopts.hpp:1854-1864 | an option that is not given holds its default read once for each of its names |
| OptionReplay.DefaultTwice | lib/cxxopts.hpp:721-732 | a list with a short and a long name holds its default twice |
| OptionLaws.StepsLookOneAhead | lib/cxxopts.hpp:1601-1635 | an argument's effect depends on the next argument at most, and only when it takes it |
| OptionLaws.GistCongruence | lib/cxxopts.hpp:1732-1852 | tokens at an option position can be replaced by any that act alike in every state |
| OptionLaws.ClusterRewrite | lib/cxxopts.hpp:1770-1809 | -abc and -a -b -c parse alike anywhere an option may stand, or behind arguments that are refused, unless an earlier letter needs an argument, and then the cluster is refused |
| OptionLaws.RefusalSpreads | lib/cxxopts.hpp:1732-1852 | an argument that is refused whatever follows refuses every list that goes on behind it |
| OptionLaws.ClusterRefused | lib/cxxopts.hpp:1794-1807 | a cluster whose earlier letter needs an argument is refused |
| OptionLaws.SpreadIsCluster | lib/cxxopts.hpp:1770-1809 | letters written one by one act as the cluster, in any state and before any arguments |
| OptionLaws.LongRewrite | lib/cxxopts.hpp:1810-1847 | --name=value and --name value parse alike in the same places, for an option without an implicit value |
| OptionLaws.ClassifyLong | lib/cxxopts.hpp:1741-1742 | such tokens are recognised as the option with and without its value |
| OptionLaws.ClassifyCluster | lib/cxxopts.hpp:1741-1742 | a dash and letters are recognised as that cluster |
| OptionLaws.AlnumIs | lib/cxxopts.hpp:1379-1380 | the characters of a cluster and those of a name |
| OptionLaws.ClassifyLongIff | lib/cxxopts.hpp:1379-1380 | a token is a long option without a value exactly if it is two dashes and a name of two characters or more |
| OptionLaws.ClassifyValueIff | lib/cxxopts.hpp:1379-1380 | and one with a value exactly if an equals sign and a text on one line follow |
| OptionLaws.ClassifyShortIff | lib/cxxopts.hpp:1379-1380 | a token is a cluster exactly if it is a dash and letters and digits |
| OptionLaws.PlainIff | lib/cxxopts.hpp:1741-1744 | any other token is no option, and no other |
| OptionLaws.StrictRefuses | lib/cxxopts.hpp:1744-1752 | a strict parse refuses a token at an option position that begins with a dash, is longer than one character, is not the separator and has none of these forms |
| OptionLaws.OneLetterRefused | lib/cxxopts.hpp:1379-1380 | `--h` is such a token, whatever is declared |
| OptionForm.EasyParse | lib/cxxopts.hpp:1722-1852 | with values that are any texts, and positional names that are declared, a command line is accepted exactly if every option up to the separator is declared or let through, has a value if it needs one, and all but the last letter of a cluster need none |
| OptionForm.ParseRead | lib/cxxopts.hpp:1722-1886 | with any reader it is accepted exactly if it is with that one and what its arguments then add can be read, the defaults after the scan; and the roles are the same |
| OptionForm.ParseAccepts | lib/cxxopts.hpp:1722-1886 | so a command line is accepted exactly if its form fits and its texts can be read |
| OptionForm.RefusalMeans | lib/cxxopts.hpp:1741-1847 | a refusal that is not of a text is of an argument whose form does not fit, and names what is wrong with it: the first letter of a cluster that does not fit decides |
| OptionCursor.ScalarTakesOnce | lib/cxxopts.hpp:1651-1688 | a scalar takes at most one positional argument in a whole parse, and none behind an option that gives it |
| OptionCursor.FirstContainerTakesRest | lib/cxxopts.hpp:1675-1679 | once a container takes an argument, every later one that is not an option, a value or the separator is taken by it, before and after the separator; only unknown long options are kept, in permissive mode |
| OptionCursor.ScanShares | lib/cxxopts.hpp:1661-1674 | up to the separator, a scalar that takes an argument was not given before and has been given after |
| OptionCursor.StrictKeepsPlain | lib/cxxopts.hpp:1744-1766 | in strict mode no argument that looks like an option is retained or taken as positional, except behind the separator |
| WordWrap.FormatDescription | lib/cxxopts.hpp:1427-1493 | the loop over indices, a stale last space among them, makes the lines of the recursion and fails where a range ends before it begins |
| WordWrap.DescribedIff | lib/cxxopts.hpp:1435-1440 | the default is not shown exactly if there is none or it is the false of a boolean |
| WordWrap.ShowsLines | lib/cxxopts.hpp:1464-1492 | the help text read line by line, without the indentation, is exactly the lines that are kept |
| WordWrap.NoLongLines | lib/cxxopts.hpp:1456-1479 | no line of an accepted description is longer than twice the width and two, newlines or not |
| WordWrap.WrapConserves | lib/cxxopts.hpp:1449-1490 | an accepted description, with any newlines, is its lines with at most a space dropped between two, and for each newline the line then pending, which is thrown away; without newlines none is, and words stay whole when none exceeds width + 1 |
| WordWrap.ConservedIffBlank | lib/cxxopts.hpp:1449-1490 | its non-blank characters stay, in order, exactly when in every stretch with newlines everything from the line pending before it to its last newline is blank, read off the text |
| WordWrap.ShortConservedIffBlank | lib/cxxopts.hpp:1449-1490 | a description too short to be broken keeps them exactly when everything before its last newline is blank |
| WordWrap.AcceptedIffFits | lib/cxxopts.hpp:1449-1479 | with any newlines, every slice is well ordered exactly when no stretch without spaces and newlines follows one broken at a space, where a stretch has width + 2 characters that are no newlines |
| WordWrap.ShortWordsFit | lib/cxxopts.hpp:1456-1479 | descriptions whose words do not exceed width + 1 meet that condition |
| WordWrap.LongWordRefused | lib/cxxopts.hpp:1468-1473 | at every width a short word followed by one of at least twice the width and two is refused |
| WordWrap.FirstLineLost | lib/cxxopts.hpp:1451-1455 | a first line short enough to stand alone is dropped if it ends with a newline; the non-blank characters survive exactly when it has none |
| RollingLog.RollingFileAppender.constructor | lib/plog/Appenders/RollingFileAppender.h:16-23 | a new appender finds the files an earlier one left |
| RollingLog.RollingFileAppender.Write | lib/plog/Appenders/RollingFileAppender.h:34-54 | a write appends to the newest file, after a roll when that is over the limit; no other file of the disk changes; in bytes and the configured size this is `RollingLog.SmallFileGrows` and `RollingLog.LargeFileRolls` |
| RollingLog.RollingFileAppender.RollLogFiles | lib/plog/Appenders/RollingFileAppender.h:56-73 | the descending rename loop moves every file up by one, loses only the last of a full set and starts an empty file |
| RollingLog.RollingFileAppender.OpenLogFile | lib/plog/Appenders/RollingFileAppender.h:76-90 | the newest file is there afterwards with its header, and its size is known |
| RollingLog.NamesDiffer | lib/plog/Appenders/RollingFileAppender.h:92-108 | files with different numbers have different names |
| RollingLog.NameKept | lib/plog/Util.h:271-294 | the newest file has the name the appender was given exactly if that does not end with a dot |
| RollingLog.NumberStands | lib/plog/Appenders/RollingFileAppender.h:92-108 | the number of an older file stands, behind a dot, in front of the last dot of that name |
| RollingLog.LimitIsThreshold | lib/plog/Appenders/RollingFileAppender.h:18-18 | the limit is the configured size, but at least 1000, and 1000 for sizes from 2^63 on |
| RollingLog.SmallFileGrows | lib/plog/Appenders/RollingFileAppender.h:43-53 | as long as the newest file of an open log has at most that many bytes, or no rolling is configured, a write adds to it and leaves the others alone |
| RollingLog.LargeFileRolls | lib/plog/Appenders/RollingFileAppender.h:43-46 | else the record starts a new file, and as many of the others stay as are allowed |
| RollingLog.OlderFilesExceed | lib/plog/Appenders/RollingFileAppender.h:43-46 | without explicit rolls every older file has more bytes than the configured size |
| RollingLog.BytesOnDisk | lib/plog/Appenders/RollingFileAppender.h:76-90 | these are the sizes of the files on disk |
| RollingLog.RenameMovesGap | lib/plog/Appenders/RollingFileAppender.h:63-69 | one rename moves the gap in the numbers down and keeps every file's contents |
| RollingLog.UnlinkMakesGap | lib/plog/Appenders/RollingFileAppender.h:60-61 | unlinking leaves the gap at the last number |
| RollingLog.HistoryKept | lib/plog/Appenders/RollingFileAppender.h:34-73 | over any run of writes, rolls and restarts, the discarded records and the records in the files, oldest file first, are the history |
| RollingLog.DiskHoldsHistory | lib/plog/Appenders/RollingFileAppender.h:34-73 | so the files on disk, read from the oldest to the newest without headers, are a suffix of what was written, cut where the discarded records end |
| RollingLog.Follow | lib/plog/Appenders/RollingFileAppender.h:16-73 | appenders driven through any list of writes, rolls and restarts, from a disk without their files, end with such files and touch no others |
| RollingLog.NothingLostBefore | lib/plog/Appenders/RollingFileAppender.h:56-61 | nothing is lost until a roll discards a file |
| RollingLog.FilesInRange | lib/plog/Appenders/RollingFileAppender.h:60-69 | there are never more files than allowed |
| RollingLog.OlderFilesFull | lib/plog/Appenders/RollingFileAppender.h:43-46 | without explicit rolls every file but the newest is over the limit |
| RollingLog.LossLeavesFullSet | lib/plog/Appenders/RollingFileAppender.h:43-69 | once something is lost the set of files is full, and without explicit rolls all but the newest are over the limit |
| LoadGraph.MeasureDrops | src/main.cpp:124-151 | taking a file off the queue and adding its loads uses up exactly one load path |
| LoadGraph.TotalUnique | src/main.cpp:124-151 | the measure does not depend on how the files are ranked |
| LoadGraph.PathCountIsRoutes | src/main.cpp:142-149 | the measure counts the load paths that leave a file, defined apart from it |
| LoadGraph.RoutesAreRoutes | src/main.cpp:142-149 | the counted paths are exactly the sequences of load statements that can be followed |
| LoadGraph.Finished | src/main.cpp:124-151 | when the queue is empty, exactly the reachable files have been parsed |
| LoadGraph.RankOrTrap | src/main.cpp:124-151 | any finite set of files is free of cycles or holds files that keep loading each other |
| LoadGraph.EmptyAfterTotal | src/main.cpp:124-151 | on an acyclic graph the queue is empty after as many steps as there are load paths |
| LoadGraph.NeverEmpty | src/main.cpp:124-151 | a queued file that leads into a cycle keeps the queue from ever becoming empty |
| LoadGraph.TerminatesIffAcyclic | src/main.cpp:124-151 | the queue becomes empty exactly when the load graph of the reachable files has no cycle |
| LoadGraph.ReachedInTurn | src/main.cpp:124-151 | the queue is fair: a bad file that can be reached from a queued one gets to the front, unless another does before |
| LoadGraph.StopsIff | src/main.cpp:124-151 | the worklist stops exactly when the load graph of the reachable files has no cycle or one of them is bad |
| LoadQueue.PushLoads | src/main.cpp:142-149 | the loads of a file are queued in order; libraries are skipped and a missing file stops the program |
| LoadQueue.RequestsIff | src/main.cpp:142-149 | what a parsed file asks for is exactly the files that its load statements name, but for those of a library, in their order |
| LoadQueue.ParseAll | src/main.cpp:124-151 | unless the graph has a cycle and no reachable file is bad, the loop ends; it fails exactly when a reachable file is bad, and otherwise has parsed once for every load path and holds exactly the reachable files; with the dump option only the named files |
| LoadQueue.LoadsFindParsed | src/extrapolate.cpp:400-404 | after the worklist, the second pass finds the file of every load statement that is not of a library among the parsed ones; a library, which the worklist skipped, it looks up as a file of that name, and goes on exactly if there is one |
| LoadQueue.MutualNeverStops | src/main.cpp:124-151 | on two files that load each other the worklist never stops |
| NodeKinds.KindNumber | src/nodetypenames.txt:1-41 | a kind's number is its position in the list of kinds, so it determines the kind |
| TreeDump.RecursivePrint | src/bridge.cpp:42-80 | the recursion with its loop over children appends one line for every node, indented by depth, in preorder; what a line holds is `TreeDump.LineEnds` and `TreeDump.LineFormat` |
| TreeDump.DumpAST | src/bridge.cpp:82-86 | the file holds the dump of the root, which decides the fields of the tree by `TreeDump.DumpDecidesFields` |
| TreeDump.OutlineReadsBack | src/bridge.cpp:42-80 | reading lines back by their indentation rebuilds any tree of titles |
| TreeDump.DumpReadsBack | src/bridge.cpp:42-80 | the dump of any tree with one-line values reads back as its tree of titles |
| TreeDump.LabelDecides | src/bridge.cpp:51-73 | a line determines the kind, the place and the value of its node |
| TreeDump.LineFormat | src/bridge.cpp:51-51 | a line begins with number and name of the kind and with both ends of the place |
| TreeDump.LineEnds | src/bridge.cpp:52-73 | behind that it shows the text of the eight kinds that have one, the decimal number of three and the value of one, and for all others nothing |
| TreeDump.LineDecides | src/bridge.cpp:51-73 | so a line determines these fields of its node |
| TreeDump.IntTextDecides | src/bridge.cpp:66-66 | a printed number determines the number |
| TreeDump.DumpDecides | src/bridge.cpp:42-80 | a dump determines the kind, place and printed value of every node; in the tree's own fields this is `TreeDump.DumpDecidesFields` |
| TreeDump.DumpDecidesFields | src/bridge.cpp:42-80 | equal dumps of trees with one-line values have, at every node, the same kind, place and children, and the same text, number or value where the kind shows one |
| TreeDump.NewlineConfuses | src/bridge.cpp:61-61 | one-line values, the only ones the scanner makes (src/lexer.lpp:67), have to be required: with a newline in a value, a leaf and a node with a child would dump alike |
| CsvField.Truncated | lib/plog/Formatters/CsvFormatter.h:30-36 | a message of up to 32000 characters is kept; of a longer one the first 32000 stay, followed by three dots |
| CsvField.StringStream.GetLine | lib/plog/Formatters/CsvFormatter.h:43-43 | std::getline: up to the delimiter, or to the end, which sets the flag |
| CsvField.FormatMessage | lib/plog/Formatters/CsvFormatter.h:30-48 | the loop over quote-separated tokens writes the truncated message as one quoted field, empty messages and final quotes included |
| CsvField.FieldReadsBack | lib/plog/Formatters/CsvFormatter.h:38-45 | a reader by rule 7 of section 2 of RFC 4180 gives the message back and leaves the rest of the text |
| CsvField.MessageReadsBack | lib/plog/Formatters/CsvFormatter.h:30-48 | a message of up to 32000 characters is read back whole, and of a longer one the first 32000 and three dots |
| CsvField.OnlyQuotedReads | lib/plog/Formatters/CsvFormatter.h:38-45 | that reader accepts exactly the quoted forms |

## Left out

The elaborator:

- The bison grammar and the flex scanner: only the tree shapes they produce are used (`Passes.Shaped`).
- Ownership, destructors and `value_ptr` copies: types, expressions and statements are immutable values.
- Functions that nothing calls: `checkTuple`, `checkForOverload`, `functionReturns`, `functionMatches`.
- `locateTypes`: it runs on a program that is then replaced, so it has no effect.
- Rules.ExprIff: assumes forced constructors that take the type they are filed under, as registration files them; for a whole file `Registration.CompileIff` assumes nothing.
- Rules.StmtIff: makes the same assumption.
- Emission.DriveEmits: makes the same assumption.
- Scoping.Lookup: does not model that `SymbolExpr` looks a name up twice, because both lookups agree.
- LokTypes.EqualsMeaning: models types of different kinds as unequal, where the source reads a null pointer if neither is unknown.
- LokTypes.LessSeparates: does not claim a strict weak order, because mixed qualifiers, function types and the unknown type break one.
- Elaborator.Program.PossibleConstructors: models the table as a list in which a new entry goes in front of the first that it precedes, which `Passes.RegisteredRange` justifies for keys and types in a strict weak order. For others the standard leaves open where a multimap puts an entry and which ones it finds.
- Elaborator.Program.ExtrapWhile: does not elaborate the body of a loop, because the source elaborates the condition in its place.
- Typing.CoerceArgsExact: does not refuse surplus arguments, because the source drops them.
- Typing.ElabExprWellTyped: assumes that no overload takes three or more parameters, because otherwise it is false; `Typing.OverloadWellTypedIff` has the exact condition. Upgrades are treated in the same way by `Typing.UpgradeWellTypedIff`.
- Passes.Drive: elaborates no initialiser of a top-level declaration, because the test at line 373 of src/extrapolate.cpp never lets one through.
- The array size of pointer and upgrade qualifiers, which the source leaves unset, is 0.
- Constructor arguments are evaluated left to right. The values of attributes are not kept, only their names.
- A loaded file without a program has no symbols, as `operator[]` on the table of programs makes it; the entry it inserts is not modelled.

The option parser:

- Regular expressions: the option, integer and boolean patterns are character predicates. The string that declares an option is taken apart already.
- The order of an `unordered_map` is arbitrary: `Options.order` lists the name table in any order.
- Value types are a reader function of the table of options; the built-in readers are `OptionSpec.STANDARD`. Storage given by the user, floating point, `char` and `optional` values are not modelled.
- OptionSpec.AddOptionKeepsWf: does not say what a refused declaration leaves behind; the source may have entered its first name.
- OptionLaws.ClusterRewrite: does not speak of tokens behind the separator or taken as the value of an option, because there they are plain texts.
- OptionForm.ParseAccepts: speaks of positional options that are declared; for others `OptionForm.ParseRead` holds as well, and a name that is not declared is refused when the cursor reaches it.
- OptionLaws.LongRewrite: speaks of the same places, and of values on one line, because the option pattern takes no others.
- The layout of the help text around one description.

The logs and files:

- Errors of open, write, rename and unlink, other than renaming or unlinking a missing file; clocks, mutexes, converters and Windows branches.
- RollingLog.RollingFileAppender.Write: takes a record as the bytes that formatter and converter make of it.
- How canonical paths are found: the file a load statement's name leads to is a table indexed by the file it stands in.
- TreeDump.LabelDecides: compares the text a stream makes of a floating point value, because printing one rounds it.
- The other fields of a CSV record. Code generation, console colours and build files.
