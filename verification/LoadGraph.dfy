/** Load graphs: what one file loads, what can be reached, and how many paths of loads there are. */
module LoadGraph {
  /** The files a file loads, in order; a file may be loaded more than once. */
  type Graph = string -> seq<string>

  // ----- Load paths ---------------------------------------------------------------------------

  ghost predicate IsPath(g: Graph, path: seq<string>) {
    path != [] && forall i :: 0 < i < |path| ==> path[i] in g(path[i - 1])
  }

  ghost predicate PathTo(g: Graph, path: seq<string>, roots: seq<string>, file: string) {
    IsPath(g, path) && path[0] in roots && path[|path| - 1] == file
  }

  ghost predicate Reachable(g: Graph, roots: seq<string>, file: string) {
    exists path :: PathTo(g, path, roots, file)
  }

  lemma RootReachable(g: Graph, roots: seq<string>, file: string)
    requires file in roots
    ensures Reachable(g, roots, file)
  {
    assert PathTo(g, [file], roots, file);
  }

  lemma LoadReachable(g: Graph, roots: seq<string>, file: string, next: string)
    requires Reachable(g, roots, file) && next in g(file)
    ensures Reachable(g, roots, next)
  {
    var path :| PathTo(g, path, roots, file);
    var longer := path + [next];
    forall i | 0 < i < |longer| ensures longer[i] in g(longer[i - 1]) {
      if i < |path| { assert path[i] in g(path[i - 1]); }
    }
    assert PathTo(g, longer, roots, next);
  }

  /** A set that has the roots and everything its members load has everything reachable. */
  lemma {:induction false} ReachableStaysIn(g: Graph, roots: seq<string>, closed: set<string>, path: seq<string>,
                                            file: string)
    requires PathTo(g, path, roots, file)
    requires (forall f <- roots :: f in closed) && forall f <- closed, h <- g(f) :: h in closed
    ensures file in closed
    decreases |path|
  {
    var n := |path| - 1;
    if n > 0 {
      assert path[n] in g(path[n - 1]);
      ReachableStaysIn(g, roots, closed, path[..n], path[n - 1]);
    }
  }

  // ----- The measure ----------------------------------------------------------------------------

  /** Every ranked file loads only files of a lower rank: the load graph has no cycle. */
  ghost predicate Ranks(g: Graph, rank: map<string, nat>) {
    forall f <- rank, h <- g(f) :: h in rank && rank[h] < rank[f]
  }

  /** The number of load paths that leave a file. */
  ghost function PathCount(g: Graph, rank: map<string, nat>, file: string): (n: nat)
    requires Ranks(g, rank) && file in rank
    ensures n >= 1
    decreases rank[file], |g(file)| + 1
  {
    1 + PathsVia(g, rank, file, |g(file)|)
  }

  /** Those that begin with one of the first n loads. */
  ghost function PathsVia(g: Graph, rank: map<string, nat>, file: string, n: nat): nat
    requires Ranks(g, rank) && file in rank && n <= |g(file)|
    decreases rank[file], n
  {
    if n == 0 then 0 else PathsVia(g, rank, file, n - 1) + PathCount(g, rank, g(file)[n - 1])
  }

  /** Those that leave the files of a queue. */
  ghost function Total(g: Graph, rank: map<string, nat>, files: seq<string>): nat
    requires Ranks(g, rank) && forall f <- files :: f in rank
  {
    if files == [] then 0 else PathCount(g, rank, files[0]) + Total(g, rank, files[1..])
  }

  lemma {:induction false} TotalConcat(g: Graph, rank: map<string, nat>, a: seq<string>, b: seq<string>)
    requires Ranks(g, rank) && (forall f <- a :: f in rank) && forall f <- b :: f in rank
    ensures Total(g, rank, a + b) == Total(g, rank, a) + Total(g, rank, b)
    decreases a
  {
    if a == [] {
      assert a + b == b;
    } else {
      assert (a + b)[1..] == a[1..] + b;
      TotalConcat(g, rank, a[1..], b);
    }
  }

  lemma {:induction false} TotalOfLoads(g: Graph, rank: map<string, nat>, file: string, n: nat)
    requires Ranks(g, rank) && file in rank && n <= |g(file)|
    ensures Total(g, rank, g(file)[..n]) == PathsVia(g, rank, file, n)
    decreases n
  {
    if n > 0 {
      TotalOfLoads(g, rank, file, n - 1);
      var loads := g(file);
      assert loads[..n] == loads[..n - 1] + [loads[n - 1]];
      TotalConcat(g, rank, loads[..n - 1], [loads[n - 1]]);
    }
  }

  /** Taking a file off the front and putting its loads at the back uses up one path. */
  lemma MeasureDrops(g: Graph, rank: map<string, nat>, queue: seq<string>)
    requires Ranks(g, rank) && queue != [] && forall f <- queue :: f in rank
    ensures var next := queue[1..] + g(queue[0]);
            (forall f <- next :: f in rank) && Total(g, rank, next) + 1 == Total(g, rank, queue)
  {
    var loads := g(queue[0]);
    TotalConcat(g, rank, queue[1..], loads);
    TotalOfLoads(g, rank, queue[0], |loads|);
    assert loads[..|loads|] == loads;
  }

  /** The number of paths does not depend on how the files are ranked. */
  lemma {:induction false} PathCountUnique(g: Graph, rank: map<string, nat>, other: map<string, nat>, file: string)
    requires Ranks(g, rank) && Ranks(g, other) && file in rank && file in other
    ensures PathCount(g, rank, file) == PathCount(g, other, file)
    decreases rank[file], |g(file)| + 1
  {
    PathsViaUnique(g, rank, other, file, |g(file)|);
  }

  lemma {:induction false} PathsViaUnique(g: Graph, rank: map<string, nat>, other: map<string, nat>, file: string,
                                          n: nat)
    requires Ranks(g, rank) && Ranks(g, other) && file in rank && file in other && n <= |g(file)|
    ensures PathsVia(g, rank, file, n) == PathsVia(g, other, file, n)
    decreases rank[file], n
  {
    if n > 0 {
      PathsViaUnique(g, rank, other, file, n - 1);
      PathCountUnique(g, rank, other, g(file)[n - 1]);
    }
  }

  /** A rank of everything that can be reached from some files. */
  ghost predicate RanksFrom(g: Graph, rank: map<string, nat>, files: seq<string>) {
    Ranks(g, rank) && forall f <- files :: f in rank
  }

  lemma {:induction false} TotalUnique(g: Graph, rank: map<string, nat>, other: map<string, nat>, files: seq<string>)
    requires RanksFrom(g, rank, files) && RanksFrom(g, other, files)
    ensures Total(g, rank, files) == Total(g, other, files)
    decreases files
  {
    if files != [] {
      PathCountUnique(g, rank, other, files[0]);
      TotalUnique(g, rank, other, files[1..]);
    }
  }

  /** A load path from a file, told by which load statement it follows each time. */
  predicate IsRoute(g: Graph, file: string, route: seq<nat>)
    decreases |route|
  {
    route != [] ==> route[0] < |g(file)| && IsRoute(g, g(file)[route[0]], route[1..])
  }

  ghost function Routes(g: Graph, rank: map<string, nat>, file: string): set<seq<nat>>
    requires Ranks(g, rank) && file in rank
    decreases rank[file], |g(file)| + 1
  {
    {[]} + RoutesVia(g, rank, file, |g(file)|)
  }

  /** The routes that begin with one of the first n loads. */
  ghost function RoutesVia(g: Graph, rank: map<string, nat>, file: string, n: nat): set<seq<nat>>
    requires Ranks(g, rank) && file in rank && n <= |g(file)|
    decreases rank[file], n
  {
    if n == 0 then {}
    else RoutesVia(g, rank, file, n - 1) + Prefixed(n - 1, Routes(g, rank, g(file)[n - 1]))
  }

  ghost function Prefixed(i: nat, routes: set<seq<nat>>): set<seq<nat>> {
    set r | r in routes :: [i] + r
  }

  lemma {:induction false} PrefixedSize(i: nat, routes: set<seq<nat>>)
    ensures |Prefixed(i, routes)| == |routes|
    decreases routes
  {
    if routes != {} {
      var r :| r in routes;
      PrefixedSize(i, routes - {r});
      assert Prefixed(i, routes) == Prefixed(i, routes - {r}) + {[i] + r};
      assert [i] + r !in Prefixed(i, routes - {r}) by {
        forall q | q in routes - {r} ensures [i] + q != [i] + r {
          assert ([i] + q)[1..] == q && ([i] + r)[1..] == r;
        }
      }
    }
  }

  lemma {:induction false} RoutesAreRoutes(g: Graph, rank: map<string, nat>, file: string, route: seq<nat>)
    requires Ranks(g, rank) && file in rank
    ensures route in Routes(g, rank, file) <==> IsRoute(g, file, route)
    decreases route
  {
    if route != [] {
      RoutesViaFirst(g, rank, file, |g(file)|, route);
      if route[0] < |g(file)| {
        RoutesAreRoutes(g, rank, g(file)[route[0]], route[1..]);
      }
    }
  }

  lemma {:induction false} RoutesViaFirst(g: Graph, rank: map<string, nat>, file: string, n: nat, route: seq<nat>)
    requires Ranks(g, rank) && file in rank && n <= |g(file)|
    ensures route in RoutesVia(g, rank, file, n) <==>
              route != [] && route[0] < n && route[1..] in Routes(g, rank, g(file)[route[0]])
    decreases n
  {
    if n > 0 {
      RoutesViaFirst(g, rank, file, n - 1, route);
      var last := Routes(g, rank, g(file)[n - 1]);
      assert forall r <- last :: ([n - 1] + r)[1..] == r;
      assert route != [] && route[0] == n - 1 ==> route == [n - 1] + route[1..];
    }
  }

  /** PathCount is the number of load paths. */
  lemma {:induction false} PathCountIsRoutes(g: Graph, rank: map<string, nat>, file: string)
    requires Ranks(g, rank) && file in rank
    ensures |Routes(g, rank, file)| == PathCount(g, rank, file)
    decreases rank[file], |g(file)| + 1
  {
    RoutesViaCount(g, rank, file, |g(file)|);
    RoutesViaFirst(g, rank, file, |g(file)|, []);
  }

  lemma ViaDisjoint(g: Graph, rank: map<string, nat>, file: string, n: nat)
    requires Ranks(g, rank) && file in rank && 0 < n <= |g(file)|
    ensures RoutesVia(g, rank, file, n - 1) !! Prefixed(n - 1, Routes(g, rank, g(file)[n - 1]))
  {
    var earlier, last := RoutesVia(g, rank, file, n - 1), Prefixed(n - 1, Routes(g, rank, g(file)[n - 1]));
    forall r ensures r in earlier ==> r !in last {
      RoutesViaFirst(g, rank, file, n - 1, r);
    }
  }

  lemma {:induction false} RoutesViaCount(g: Graph, rank: map<string, nat>, file: string, n: nat)
    requires Ranks(g, rank) && file in rank && n <= |g(file)|
    ensures |RoutesVia(g, rank, file, n)| == PathsVia(g, rank, file, n)
    decreases rank[file], n
  {
    if n > 0 {
      RoutesViaCount(g, rank, file, n - 1);
      var last := Routes(g, rank, g(file)[n - 1]);
      PathCountIsRoutes(g, rank, g(file)[n - 1]);
      PrefixedSize(n - 1, last);
      ViaDisjoint(g, rank, file, n);
    }
  }

  // ----- What a worklist has done so far ----------------------------------------------------------

  /** The files done or queued are reachable; the roots, and what a file that is done loads, are done or
      queued. */
  ghost predicate Underway(g: Graph, roots: seq<string>, queue: seq<string>, done: set<string>) {
    && (forall f <- queue :: Reachable(g, roots, f))
    && (forall f <- done :: Reachable(g, roots, f))
    && (forall f <- roots :: f in done || f in queue)
    && forall f <- done, h <- g(f) :: h in done || h in queue
  }

  lemma Started(g: Graph, roots: seq<string>)
    ensures Underway(g, roots, roots, {})
  {
    forall f <- roots ensures Reachable(g, roots, f) { RootReachable(g, roots, f); }
  }

  lemma FileDone(g: Graph, roots: seq<string>, queue: seq<string>, done: set<string>)
    requires queue != [] && Underway(g, roots, queue, done)
    ensures Underway(g, roots, queue[1..] + g(queue[0]), done + {queue[0]})
  {
    var file := queue[0];
    forall h <- g(file) ensures Reachable(g, roots, h) { LoadReachable(g, roots, file, h); }
    assert forall f <- queue :: f == file || f in queue[1..];
  }

  lemma Finished(g: Graph, roots: seq<string>, done: set<string>)
    requires Underway(g, roots, [], done)
    ensures forall f :: f in done <==> Reachable(g, roots, f)
  {
    forall f | Reachable(g, roots, f) ensures f in done {
      var path :| PathTo(g, path, roots, f);
      ReachableStaysIn(g, roots, done, path, f);
    }
  }

  // ----- Termination -------------------------------------------------------------------------------

  /** The queue after n files have been taken off it. */
  function QueueAfter(g: Graph, queue: seq<string>, n: nat): seq<string>
    decreases n
  {
    if n == 0 || queue == [] then queue else QueueAfter(g, queue[1..] + g(queue[0]), n - 1)
  }

  lemma {:induction false} EmptyAfterTotal(g: Graph, rank: map<string, nat>, queue: seq<string>)
    requires Ranks(g, rank) && forall f <- queue :: f in rank
    ensures QueueAfter(g, queue, Total(g, rank, queue)) == []
    decreases Total(g, rank, queue)
  {
    if queue != [] {
      MeasureDrops(g, rank, queue);
      EmptyAfterTotal(g, rank, queue[1..] + g(queue[0]));
    }
  }

  /** Every file of a trap loads a file of the trap. */
  ghost predicate Trap(g: Graph, trap: set<string>) {
    trap != {} && forall f {:trigger LoadsOneOf(g, f, trap)} :: f in trap ==> LoadsOneOf(g, f, trap)
  }

  predicate LoadsOneOf(g: Graph, file: string, files: set<string>) {
    exists h <- g(file) :: h in files
  }

  ghost predicate LeadsInto(g: Graph, file: string, trap: set<string>) {
    exists path, last :: PathTo(g, path, [file], last) && last in trap
  }

  /** A file that leads into a trap loads one that does. */
  lemma LeadsOn(g: Graph, file: string, trap: set<string>)
    requires Trap(g, trap) && LeadsInto(g, file, trap)
    ensures exists h <- g(file) :: LeadsInto(g, h, trap)
  {
    var path, last :| PathTo(g, path, [file], last) && last in trap;
    if |path| == 1 {
      assert LoadsOneOf(g, file, trap);
      var h :| h in g(file) && h in trap;
      assert PathTo(g, [h], [h], h);
    } else {
      var rest := path[1..];
      assert rest[0] in g(path[0]);
      forall i | 0 < i < |rest| ensures rest[i] in g(rest[i - 1]) { assert path[i + 1] in g(path[i]); }
      assert PathTo(g, rest, [rest[0]], last);
    }
  }

  lemma {:induction false} NeverEmpty(g: Graph, queue: seq<string>, trap: set<string>, file: string, n: nat)
    requires Trap(g, trap) && file in queue && LeadsInto(g, file, trap)
    ensures QueueAfter(g, queue, n) != []
    decreases n
  {
    if n > 0 {
      var next := queue[1..] + g(queue[0]);
      if file in queue[1..] {
        NeverEmpty(g, next, trap, file, n - 1);
      } else {
        LeadsOn(g, file, trap);
        var h :| h in g(file) && LeadsInto(g, h, trap);
        NeverEmpty(g, next, trap, h, n - 1);
      }
    }
  }

  /** A rank for the loads within a set. */
  ghost predicate RanksWithin(g: Graph, rank: map<string, nat>, files: set<string>) {
    rank.Keys == files && forall f <- files, h <- g(f) :: h in files ==> rank[h] < rank[f]
  }

  lemma RankSink(g: Graph, rank: map<string, nat>, files: set<string>, sink: string)
    requires sink in files && !LoadsOneOf(g, sink, files) && RanksWithin(g, rank, files - {sink})
    ensures exists more :: RanksWithin(g, more, files)
  {
    var more := map f | f in files :: if f == sink then 0 else rank[f] + 1;
    forall f <- files, h <- g(f) ensures h in files ==> more[h] < more[f] {
      if f == sink { assert h !in files; }
    }
    assert RanksWithin(g, more, files);
  }

  /** Any finite set of files is free of cycles or holds a trap. */
  lemma {:induction false} RankOrTrap(g: Graph, files: set<string>)
    ensures (exists rank :: RanksWithin(g, rank, files)) || exists trap :: trap <= files && Trap(g, trap)
    decreases files
  {
    if files == {} {
      assert RanksWithin(g, map[], {});
    } else if sink :| sink in files && !LoadsOneOf(g, sink, files) {
      RankOrTrap(g, files - {sink});
      if rank :| RanksWithin(g, rank, files - {sink}) {
        RankSink(g, rank, files, sink);
      } else {
        var trap :| trap <= files - {sink} && Trap(g, trap);
        assert trap <= files;
      }
    } else {
      assert Trap(g, files);
    }
  }

  /** The worklist empties its queue if and only if the load graph of the files reachable from it has no
      cycle. */
  lemma TerminatesIffAcyclic(g: Graph, queue: seq<string>, files: set<string>)
    requires forall f :: f in files <==> Reachable(g, queue, f)
    ensures (exists n :: QueueAfter(g, queue, n) == []) <==> exists rank :: Ranks(g, rank) && rank.Keys == files
  {
    forall f <- queue ensures f in files { RootReachable(g, queue, f); }
    if rank :| Ranks(g, rank) && rank.Keys == files {
      EmptyAfterTotal(g, rank, queue);
    } else {
      RankOrTrap(g, files);
      if rank :| RanksWithin(g, rank, files) {
        RankIsGlobal(g, queue, files, rank);
        assert false;
      }
      var trap :| trap <= files && Trap(g, trap);
      TrapReached(g, queue, trap);
    }
  }

  lemma RankIsGlobal(g: Graph, queue: seq<string>, files: set<string>, rank: map<string, nat>)
    requires (forall f :: f in files <==> Reachable(g, queue, f)) && RanksWithin(g, rank, files)
    ensures Ranks(g, rank)
  {
    forall f <- files, h <- g(f) ensures h in files { LoadReachable(g, queue, f, h); }
  }

  lemma TrapReached(g: Graph, queue: seq<string>, trap: set<string>)
    requires Trap(g, trap) && forall f <- trap :: Reachable(g, queue, f)
    ensures forall n :: QueueAfter(g, queue, n) != []
  {
    var last :| last in trap;
    var path :| PathTo(g, path, queue, last);
    assert PathTo(g, path, [path[0]], last);
    forall n ensures QueueAfter(g, queue, n) != [] { NeverEmpty(g, queue, trap, path[0], n); }
  }

  // ----- Stopping early --------------------------------------------------------------------------

  /** After n files the queue is empty or has a file at its front that is not good. */
  ghost predicate Stops(g: Graph, good: string -> bool, queue: seq<string>, n: nat) {
    var after := QueueAfter(g, queue, n);
    after == [] || !good(after[0])
  }

  lemma {:induction false} OneMore(g: Graph, queue: seq<string>, n: nat)
    ensures var after := QueueAfter(g, queue, n);
            after != [] ==> QueueAfter(g, queue, n + 1) == after[1..] + g(after[0])
    decreases n
  {
    if n > 0 && queue != [] { OneMore(g, queue[1..] + g(queue[0]), n - 1); }
  }

  lemma {:induction false} QueueReachable(g: Graph, roots: seq<string>, queue: seq<string>, n: nat)
    requires forall f <- queue :: Reachable(g, roots, f)
    ensures forall f <- QueueAfter(g, queue, n) :: Reachable(g, roots, f)
    decreases n
  {
    if n > 0 && queue != [] {
      forall h <- g(queue[0]) ensures Reachable(g, roots, h) { LoadReachable(g, roots, queue[0], h); }
      QueueReachable(g, roots, queue[1..] + g(queue[0]), n - 1);
    }
  }

  /** While the queue is not empty every file taken off it uses up one path. */
  lemma {:induction false} TotalAfter(g: Graph, rank: map<string, nat>, queue: seq<string>, n: nat)
    requires RanksFrom(g, rank, queue) && forall i: nat :: i < n ==> QueueAfter(g, queue, i) != []
    ensures var after := QueueAfter(g, queue, n);
            RanksFrom(g, rank, after) && n + Total(g, rank, after) == Total(g, rank, queue)
    decreases n
  {
    if n > 0 {
      assert QueueAfter(g, queue, 0) != [];
      var next := queue[1..] + g(queue[0]);
      MeasureDrops(g, rank, queue);
      forall i: nat | i < n - 1 ensures QueueAfter(g, next, i) != [] {
        assert QueueAfter(g, queue, i + 1) != [];
      }
      TotalAfter(g, rank, next, n - 1);
    }
  }

  /** The queue is fair: what a path leads to from a place in the queue gets to its front, unless the worklist
      stops before. */
  lemma {:induction false} ReachedInTurn(g: Graph, good: string -> bool, queue: seq<string>, at: nat, path: seq<string>)
    requires at < |queue| && IsPath(g, path) && path[0] == queue[at] && !good(path[|path| - 1])
    ensures exists n :: Stops(g, good, queue, n)
    decreases |path|, at
  {
    if !good(queue[0]) {
      assert Stops(g, good, queue, 0);
    } else {
      var loads := g(queue[0]);
      var next := queue[1..] + loads;
      if at > 0 {
        ReachedInTurn(g, good, next, at - 1, path);
      } else {
        assert path[1] in loads;
        var i :| 0 <= i < |loads| && loads[i] == path[1];
        assert next[|queue| - 1 + i] == path[1];
        forall k | 0 < k < |path| - 1 ensures path[1..][k] in g(path[1..][k - 1]) { assert path[k + 1] in g(path[k]); }
        ReachedInTurn(g, good, next, |queue| - 1 + i, path[1..]);
      }
      var n: nat :| Stops(g, good, next, n);
      assert Stops(g, good, queue, n + 1);
    }
  }

  ghost predicate Stopping(g: Graph, good: string -> bool, roots: seq<string>) {
    (exists rank :: RanksFrom(g, rank, roots)) || exists f :: Reachable(g, roots, f) && !good(f)
  }

  lemma StopsWhen(g: Graph, good: string -> bool, roots: seq<string>) returns (n: nat)
    requires Stopping(g, good, roots)
    ensures Stops(g, good, roots, n)
  {
    if rank :| RanksFrom(g, rank, roots) {
      EmptyAfterTotal(g, rank, roots);
      n := Total(g, rank, roots);
    } else {
      var f :| Reachable(g, roots, f) && !good(f);
      var path :| PathTo(g, path, roots, f);
      var at :| 0 <= at < |roots| && roots[at] == path[0];
      ReachedInTurn(g, good, roots, at, path);
      n :| Stops(g, good, roots, n);
    }
  }

  /** The worklist stops if and only if the load graph has no cycle or a file is reachable that is not good. */
  lemma StopsIff(g: Graph, good: string -> bool, roots: seq<string>, files: set<string>)
    requires forall f :: f in files <==> Reachable(g, roots, f)
    ensures (exists n :: Stops(g, good, roots, n)) <==>
              (exists rank :: Ranks(g, rank) && rank.Keys == files) || exists f <- files :: !good(f)
  {
    forall f <- roots ensures f in files { RootReachable(g, roots, f); }
    if n: nat :| Stops(g, good, roots, n) {
      QueueReachable(g, roots, roots, n);
      var after := QueueAfter(g, roots, n);
      if after == [] {
        TerminatesIffAcyclic(g, roots, files);
        assert exists k :: QueueAfter(g, roots, k) == [];
      } else {
        assert after[0] in after && after[0] in files;
      }
    } else {
      if rank :| Ranks(g, rank) && rank.Keys == files { assert RanksFrom(g, rank, roots); }
      if Stopping(g, good, roots) { var _ := StopsWhen(g, good, roots); }
    }
  }
}
