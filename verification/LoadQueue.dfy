/** The worklist that parses the files named on the command line and every file they load
    (src/main.cpp:124-151). No file is remembered as seen: a file is parsed once for every path of load
    statements that leads to it. */
module LoadQueue {
  import opened Wrappers
  import opened LokSyntax
  import Passes
  import opened Scoping
  import opened LoadGraph
  import opened Emission

  /** The files that parse, and what file a load statement's name leads to, by the file it stands in. */
  datatype World = World(parsed: map<string, Node>, resolved: map<(string, string), string>)

  datatype LoadError = ParseFailed | NoSuchFile | Malformed

  /** The file a top-level node loads; libraries are skipped. */
  function LoadOf(w: World, file: string, n: Node): Result<Option<string>, LoadError> {
    if n.kind != LOAD then Success(None)
    else if n.children == [] || n.children[0].children == [] then Failure(Malformed)
    else
      var path := n.children[0].children[0];
      if path.kind == LIBNAME then Success(None)
      else
        var name := Passes.FileName(path) + ".lok";
        if (file, name) in w.resolved then Success(Some(w.resolved[(file, name)])) else Failure(NoSuchFile)
  }

  function LoadsIn(w: World, file: string, nodes: seq<Node>): Result<seq<string>, LoadError> {
    if nodes == [] then Success([])
    else
      var first :- LoadOf(w, file, nodes[0]);
      var rest :- LoadsIn(w, file, nodes[1..]);
      Success((if first.Some? then [first.value] else []) + rest)
  }

  /** What parsing a file asks for next. */
  function Requests(w: World, file: string): Result<seq<string>, LoadError> {
    if file !in w.parsed then Failure(ParseFailed) else LoadsIn(w, file, w.parsed[file].children)
  }

  predicate Good(w: World, file: string) {
    Requests(w, file).Success?
  }

  function Loads(w: World, file: string): seq<string> {
    if Good(w, file) then Requests(w, file).value else []
  }

  /** The load graph. */
  ghost function GraphOf(w: World): Graph {
    file => Loads(w, file)
  }

  /** The library a load statement names, if it names one. */
  predicate OfLibrary(n: Node) {
    n.children != [] && n.children[0].children != [] && n.children[0].children[0].kind == LIBNAME
  }

  /** The load statements that are not of a library, in their order. */
  function FileLoads(nodes: seq<Node>): seq<Node> {
    if nodes == [] then []
    else (if nodes[0].kind == LOAD && !OfLibrary(nodes[0]) then [nodes[0]] else []) + FileLoads(nodes[1..])
  }

  /** The path of a load statement, run together, names a file where the statement stands. */
  predicate Names(w: World, file: string, n: Node, target: string) {
    && n.children != [] && n.children[0].children != []
    && var key := (file, RunTogether(Chain(n.children[0].children[0])) + ".lok");
       key in w.resolved && w.resolved[key] == target
  }

  predicate NamesAll(w: World, file: string, loads: seq<Node>, files: seq<string>) {
    |loads| == |files| && forall i :: 0 <= i < |loads| ==> Names(w, file, loads[i], files[i])
  }

  lemma NamesFirst(w: World, file: string, n: Node, loads: seq<Node>, files: seq<string>)
    ensures NamesAll(w, file, [n] + loads, files) <==>
              files != [] && Names(w, file, n, files[0]) && NamesAll(w, file, loads, files[1..])
  {
    if files != [] && Names(w, file, n, files[0]) && NamesAll(w, file, loads, files[1..]) {
      forall i | 0 <= i < |files| ensures Names(w, file, ([n] + loads)[i], files[i]) {
        if i > 0 { assert Names(w, file, loads[i - 1], files[1..][i - 1]); }
      }
    }
    if NamesAll(w, file, [n] + loads, files) {
      assert Names(w, file, ([n] + loads)[0], files[0]);
      forall i | 0 <= i < |loads| ensures Names(w, file, loads[i], files[1..][i]) {
        assert Names(w, file, ([n] + loads)[i + 1], files[i + 1]);
      }
    }
  }

  lemma {:induction false} LoadsInIff(w: World, file: string, nodes: seq<Node>, files: seq<string>)
    ensures LoadsIn(w, file, nodes) == Success(files) <==> NamesAll(w, file, FileLoads(nodes), files)
    decreases nodes
  {
    if nodes != [] {
      var n, more := nodes[0], FileLoads(nodes[1..]);
      if n.kind == LOAD && !OfLibrary(n) {
        if n.children != [] && n.children[0].children != [] { FileNameIs(n.children[0].children[0]); }
        NamesFirst(w, file, n, more, files);
        if files != [] {
          LoadsInIff(w, file, nodes[1..], files[1..]);
          assert files == [files[0]] + files[1..];
        }
      } else {
        var rest := LoadsIn(w, file, nodes[1..]);
        assert [] + more == more && (rest.Success? ==> [] + rest.value == rest.value);
        LoadsInIff(w, file, nodes[1..], files);
      }
    }
  }

  /** What parsing a file asks for is the files of its load statements that are not of a library, in their order. */
  lemma RequestsIff(w: World, file: string, files: seq<string>)
    ensures Requests(w, file) == Success(files) <==>
              file in w.parsed && NamesAll(w, file, FileLoads(w.parsed[file].children), files)
  {
    if file in w.parsed { LoadsInIff(w, file, w.parsed[file].children, files); }
  }

  // ----- The loop -------------------------------------------------------------------------------

  /** With astDump: the files before the i-th are parsed. */
  ghost predicate Dumping(w: World, roots: seq<string>, queue: seq<string>, parsed: set<string>, i: nat) {
    && i <= |roots| && queue == roots[i..] && (forall f <- roots[..i] :: f in w.parsed)
    && forall f :: f in parsed <==> f in roots[..i]
  }

  lemma DumpingOn(w: World, roots: seq<string>, queue: seq<string>, parsed: set<string>, i: nat)
    requires Dumping(w, roots, queue, parsed, i) && queue != [] && queue[0] in w.parsed
    ensures Dumping(w, roots, queue[1..], parsed + {queue[0]}, i + 1)
  {
    assert roots[..i + 1] == roots[..i] + [roots[i]];
  }

  lemma DumpingEnds(w: World, roots: seq<string>, parsed: set<string>, i: nat)
    requires Dumping(w, roots, [], parsed, i)
    ensures i == |roots| && (forall f <- roots :: f in w.parsed) && forall f :: f in parsed <==> f in roots
  {
    assert roots[..i] == roots;
  }

  ghost function GoodIn(w: World): string -> bool {
    file => Good(w, file)
  }

  /** Without: the files parsed so far were all good, and the worklist stops after n of them. */
  ghost predicate Loading(w: World, g: Graph, roots: seq<string>, queue: seq<string>, parsed: set<string>, i: nat,
                          n: nat) {
    && i <= n && Stops(g, GoodIn(w), roots, n)
    && queue == QueueAfter(g, roots, i) && (forall k: nat :: k < i ==> QueueAfter(g, roots, k) != [])
    && Underway(g, roots, queue, parsed) && forall f <- parsed :: Good(w, f)
  }

  lemma LoadingOn(w: World, g: Graph, roots: seq<string>, queue: seq<string>, parsed: set<string>, i: nat, n: nat)
    requires Loading(w, g, roots, queue, parsed, i, n) && queue != [] && Good(w, queue[0])
    ensures Loading(w, g, roots, queue[1..] + g(queue[0]), parsed + {queue[0]}, i + 1, n)
  {
    FileDone(g, roots, queue, parsed);
    OneMore(g, roots, i);
  }

  lemma LoadingEnds(w: World, g: Graph, roots: seq<string>, parsed: set<string>, i: nat, n: nat)
    requires Loading(w, g, roots, [], parsed, i, n)
    ensures forall rank :: RanksFrom(g, rank, roots) ==> i == Total(g, rank, roots)
    ensures forall f :: f in parsed <==> Reachable(g, roots, f)
    ensures forall f :: Reachable(g, roots, f) ==> Good(w, f)
  {
    Finished(g, roots, parsed);
    forall rank | RanksFrom(g, rank, roots) ensures i == Total(g, rank, roots) { TotalAfter(g, rank, roots, i); }
  }

  /** The loads found so far, followed by those still to be found. */
  ghost function Onward(asked: seq<string>, rest: Result<seq<string>, LoadError>): Result<seq<string>, LoadError> {
    if rest.Failure? then rest else Success(asked + rest.value)
  }

  lemma OnwardBy(asked: seq<string>, first: Option<string>, rest: Result<seq<string>, LoadError>)
    requires rest.Success?
    ensures var found := if first.Some? then [first.value] else [];
            && Onward(asked, Success(found + rest.value)) == Onward(asked + found, rest)
            && (first.None? ==> asked + found == asked)
  {
    var found := if first.Some? then [first.value] else [];
    assert asked + (found + rest.value) == (asked + found) + rest.value;
  }

  lemma OnwardFromNothing(rest: Result<seq<string>, LoadError>)
    ensures Onward([], rest) == rest
  {
    assert rest.Success? ==> [] + rest.value == rest.value;
  }

  /** Puts the files that a parsed file loads at the end of the queue. */
  method PushLoads(w: World, file: string, queue: seq<string>) returns (r: Result<seq<string>, LoadError>)
    requires file in w.parsed
    ensures r.Success? <==> Good(w, file)
    ensures r.Success? ==> r.value == queue + Loads(w, file)
  {
    var children, pushed := w.parsed[file].children, [];
    assert children[0..] == children;
    OnwardFromNothing(LoadsIn(w, file, children));
    for i := 0 to |children|
      invariant Requests(w, file) == Onward(pushed, LoadsIn(w, file, children[i..]))
    {
      var load := LoadOf(w, file, children[i]);
      if load.Failure? {
        return Failure(load.error);
      }
      assert children[i..][1..] == children[i + 1..];
      if LoadsIn(w, file, children[i + 1..]).Success? {
        OnwardBy(pushed, load.value, LoadsIn(w, file, children[i + 1..]));
      }
      if load.value.Some? {
        pushed := pushed + [load.value.value];
      }
    }
    r := Success(queue + pushed);
  }

  /** The number of load paths that leave some files. */
  ghost predicate PathsCounted(w: World, files: seq<string>, n: nat) {
    forall rank :: RanksFrom(GraphOf(w), rank, files) ==> n == Total(GraphOf(w), rank, files)
  }

  /** Parses the files in the queue and what they load. Unless the load graph has a cycle and no
      reachable file is bad it ends: it fails exactly when a reachable file is bad, and otherwise has exactly the
      reachable files, parsed once for every load path. With astDump, only the files of the command line are parsed. */
  method ParseAll(w: World, lokFiles: seq<string>, astDump: bool)
    returns (r: Result<map<string, Node>, LoadError>, parses: nat)
    requires !astDump ==> Stopping(GraphOf(w), GoodIn(w), lokFiles)
    ensures r.Success? ==> forall f <- r.value :: f in w.parsed && r.value[f] == w.parsed[f]
    ensures astDump ==>
              && (r.Success? <==> forall f <- lokFiles :: f in w.parsed)
              && (r.Success? ==> parses == |lokFiles| && forall f :: f in r.value <==> f in lokFiles)
    ensures !astDump ==>
              && (r.Success? <==> forall f :: Reachable(GraphOf(w), lokFiles, f) ==> Good(w, f))
              && (r.Success? ==>
                    && PathsCounted(w, lokFiles, parses)
                    && forall f :: f in r.value <==> Reachable(GraphOf(w), lokFiles, f))
  {
    var queue := lokFiles;
    var syntaxes: map<string, Node> := map[];
    parses := 0;
    ghost var g := GraphOf(w);
    ghost var n: nat := 0;
    if !astDump { n := StopsWhen(g, GoodIn(w), lokFiles); }
    Started(g, lokFiles);
    while queue != []
      invariant forall f <- syntaxes :: f in w.parsed && syntaxes[f] == w.parsed[f]
      invariant if astDump then Dumping(w, lokFiles, queue, syntaxes.Keys, parses)
                else Loading(w, g, lokFiles, queue, syntaxes.Keys, parses, n)
      decreases if astDump then |queue| else n - parses
    {
      ghost var before, parsed := queue, syntaxes.Keys;
      var filename := queue[0];
      queue := queue[1..];
      if filename !in w.parsed {
        assert filename in before;
        return Failure(ParseFailed), parses + 1;
      }
      parses := parses + 1;
      syntaxes := syntaxes[filename := w.parsed[filename]];
      assert syntaxes.Keys == parsed + {filename};
      if astDump {
        DumpingOn(w, lokFiles, before, parsed, parses - 1);
        continue;
      }
      queue :- PushLoads(w, filename, queue);
      LoadingOn(w, g, lokFiles, before, parsed, parses - 1, n);
    }
    if astDump {
      DumpingEnds(w, lokFiles, syntaxes.Keys, parses);
    } else {
      LoadingEnds(w, g, lokFiles, syntaxes.Keys, parses, n);
    }
    r := Success(syntaxes);
  }

  // ----- What the second pass finds --------------------------------------------------------------

  /** What the second pass over a file is told: where its load names lead, and the symbols of the parsed files. */
  function LoaderFor(w: World, file: string, programs: map<string, Bindings>): Passes.Loader {
    Passes.Loader(map key | key in w.resolved && key.0 == file :: key.1 := w.resolved[key], programs)
  }

  lemma {:induction false} LoadIn(w: World, file: string, nodes: seq<Node>, n: Node)
    requires n in nodes && LoadsIn(w, file, nodes).Success?
    ensures var load := LoadOf(w, file, n);
            load.Success? && (load.value.Some? ==> load.value.value in LoadsIn(w, file, nodes).value)
    decreases nodes
  {
    if n != nodes[0] { LoadIn(w, file, nodes[1..], n); }
  }

  /** When the worklist has ended without failure, the second pass finds the file of every load statement that is not of
      a library among the parsed ones, and stores its symbols. A library is looked up by its name like a file, although
      the worklist skipped it: the pass goes on exactly if there is a file of that name. */
  lemma LoadsFindParsed(w: World, roots: seq<string>, programs: map<string, Bindings>, file: string, n: Node,
                        ctx: Context)
    requires forall f :: f in programs <==> Reachable(GraphOf(w), roots, f)
    requires (forall f <- programs :: f in w.parsed && Good(w, f)) && file in programs
    requires n in w.parsed[file].children && n.kind == LOAD
    ensures var r := Passes.DriveLoad(n, ctx, LoaderFor(w, file, programs));
            if OfLibrary(n) then
              r.Success? <==> (file, Passes.FileName(n.children[0].children[0]) + ".lok") in w.resolved
            else
              exists target <- programs ::
                r == Success(([], ctx.(external := SetExternal(ctx.external, target, programs[target]))))
  {
    LoadIn(w, file, w.parsed[file].children, n);
    if !OfLibrary(n) {
      var target := LoadOf(w, file, n).value.value;
      LoadReachable(GraphOf(w), roots, file, target);
      assert target in programs;
    }
  }

  // ----- Files that load each other ----------------------------------------------------------------

  function Inner(kind: Kind, children: seq<Node>): Node {
    Node(kind, "", 0, 0.0, false, children)
  }

  /** A file that has one statement, which loads a file by its name. */
  function FileLoading(name: string): Node {
    Inner(NONE, [Inner(LOAD, [Inner(NONE, [Node(FILEPATH, name, 0, 0.0, false, [])])])])
  }

  /** Two files, each of which loads the other. */
  function Mutual(a: string, b: string): World {
    World(map["/" + a + ".lok" := FileLoading(b), "/" + b + ".lok" := FileLoading(a)],
          map[("/" + a + ".lok", b + ".lok") := "/" + b + ".lok", ("/" + b + ".lok", a + ".lok") := "/" + a + ".lok"])
  }

  lemma MutualLoads(a: string, b: string)
    requires a != b
    ensures var w := Mutual(a, b);
            && Good(w, "/" + a + ".lok") && Loads(w, "/" + a + ".lok") == ["/" + b + ".lok"]
            && Good(w, "/" + b + ".lok") && Loads(w, "/" + b + ".lok") == ["/" + a + ".lok"]
  {
    var w, fileA, fileB := Mutual(a, b), "/" + a + ".lok", "/" + b + ".lok";
    assert fileA[1..|fileA| - 4] == a && fileB[1..|fileB| - 4] == b;
    OneLoad(w, fileA, b, fileB);
    OneLoad(w, fileB, a, fileA);
  }

  lemma OneLoad(w: World, file: string, name: string, target: string)
    requires file in w.parsed && w.parsed[file] == FileLoading(name)
    requires (file, name + ".lok") in w.resolved && w.resolved[(file, name + ".lok")] == target
    ensures Requests(w, file) == Success([target])
  {
    var children := FileLoading(name).children;
    assert Passes.FileName(children[0].children[0].children[0]) == name;
    assert LoadOf(w, file, children[0]) == Success(Some(target));
    assert children[1..] == [] && LoadsIn(w, file, []) == Success([]) && [target] + [] == [target];
  }

  /** Two files that load each other keep the worklist going for ever. */
  lemma MutualNeverStops(a: string, b: string, n: nat)
    requires a != b
    ensures var w := Mutual(a, b); !Stops(GraphOf(w), GoodIn(w), ["/" + a + ".lok"], n)
  {
    var w, fileA, fileB := Mutual(a, b), "/" + a + ".lok", "/" + b + ".lok";
    MutualLoads(a, b);
    var g := GraphOf(w);
    assert g(fileA) == [fileB] && g(fileB) == [fileA];
    Alternates(g, fileA, fileB, n);
  }

  lemma {:induction false} Alternates(g: Graph, a: string, b: string, n: nat)
    requires g(a) == [b] && g(b) == [a]
    ensures QueueAfter(g, [a], n) in {[a], [b]}
    decreases n
  {
    if n > 0 {
      assert [a][1..] + g(a) == [b];
      Alternates(g, b, a, n - 1);
    }
  }
}
