/** Lexical environments, and how a stack of frames represents one
    (src/util.cpp, and the stackFrames member of src/program.hpp). */
module Scoping {
  import opened Wrappers
  import opened LokTypes
  import opened LokSyntax

  type Bindings = map<Path, Symbol>
  type Frame = seq<Symbol>

  /** What a point of the program can see: the bindings of its innermost scope, and those it inherits. */
  datatype Env = NoScope | Scope(outer: Bindings, here: Bindings)

  /** Tables that are fixed while one declaration is elaborated. `external` holds the symbols of the
      loaded files in the order of their names. */
  datatype Context = Context(
    ns: Path,
    symbols: Bindings,
    external: seq<(string, Bindings)>,
    forced: seq<(Type, Symbol)>,
    overloads: seq<(string, Symbol)>)

  function Visible(env: Env): Bindings {
    if env.NoScope? then map[] else env.outer + env.here
  }

  function Enter(env: Env): Env {
    Scope(Visible(env), map[])
  }

  /** The first declaration of a name in a scope stays the one that is found. */
  function Bind(here: Bindings, s: Symbol): Bindings {
    if s.id in here then here else here[s.id := s]
  }

  function BindAll(here: Bindings, frame: Frame): Bindings
    decreases frame
  {
    if frame == [] then here else BindAll(Bind(here, frame[0]), frame[1..])
  }

  /** Scopes change only by growing: enclosing scopes stay, and no binding of this one is replaced. */
  predicate Continues(env: Env, after: Env) {
    && env.NoScope? == after.NoScope?
    && (env.Scope? ==>
      && after.outer == env.outer
      && forall id :: id in env.here ==> id in after.here && after.here[id] == env.here[id])
  }

  /** The stack is found empty only when there is no scope to begin with. */
  predicate FailsInScope(env: Env, e: Error) {
    !e.Unregistered? && (e.EmptyStack? ==> env.NoScope?)
  }

  function Declare(env: Env, s: Symbol): (r: Result<Env, Error>)
    ensures r.Success? ==> Continues(env, r.value)
    ensures r.Failure? ==> FailsInScope(env, r.error)
  {
    if env.NoScope? then Failure(EmptyStack) else Success(Scope(env.outer, Bind(env.here, s)))
  }

  function FindExternal(external: seq<(string, Bindings)>, id: Path): Option<Symbol> {
    if external == [] then None
    else if id in external[0].1 then Some(external[0].1[id])
    else FindExternal(external[1..], id)
  }

  /** The innermost visible declaration, else the program's own symbol, else the first loaded file's. */
  function Lookup(id: Path, env: Env, ctx: Context): (r: Result<Symbol, Error>)
    ensures r.Failure? ==> FailsInScope(env, r.error)
  {
    if env.NoScope? then Failure(EmptyStack)
    else if id in Visible(env) then Success(Visible(env)[id])
    else if id in ctx.symbols then Success(ctx.symbols[id])
    else
      var found := FindExternal(ctx.external, id);
      if found.Some? then Success(found.value) else Failure(BadSymbol(id))
  }

  // ----- Frames -------------------------------------------------------------

  /** The bindings of a whole stack: inner frames override outer ones. */
  function Flatten(frames: seq<Frame>): Bindings {
    if frames == [] then map[]
    else Flatten(frames[..|frames| - 1]) + BindAll(map[], frames[|frames| - 1])
  }

  function EnvOf(frames: seq<Frame>): Env {
    if frames == [] then NoScope
    else Scope(Flatten(frames[..|frames| - 1]), BindAll(map[], frames[|frames| - 1]))
  }

  lemma VisibleIsFlatten(frames: seq<Frame>)
    ensures Visible(EnvOf(frames)) == Flatten(frames)
  {
  }

  lemma PushIsEnter(frames: seq<Frame>, frame: Frame)
    ensures EnvOf(frames + [frame]) == Scope(Visible(EnvOf(frames)), BindAll(map[], frame))
    ensures EnvOf(frames + [[]]) == Enter(EnvOf(frames))
  {
    assert (frames + [frame])[..|frames|] == frames && (frames + [[]])[..|frames|] == frames;
  }

  lemma {:induction false} BindAllAppend(here: Bindings, frame: Frame, s: Symbol)
    ensures BindAll(here, frame + [s]) == Bind(BindAll(here, frame), s)
    decreases frame
  {
    if frame == [] {
      assert frame + [s] == [s];
      assert BindAll(Bind(here, s), [s][1..]) == Bind(here, s);
    } else {
      assert (frame + [s])[1..] == frame[1..] + [s];
      BindAllAppend(Bind(here, frame[0]), frame[1..], s);
    }
  }

  lemma DeclareIsAppend(frames: seq<Frame>, s: Symbol)
    requires frames != []
    ensures Declare(EnvOf(frames), s) == Success(EnvOf(frames[|frames| - 1 := frames[|frames| - 1] + [s]]))
  {
    var last := |frames| - 1;
    BindAllAppend(map[], frames[last], s);
    assert frames[last := frames[last] + [s]][..last] == frames[..last];
  }

  predicate Declares(frame: Frame, id: Path) {
    exists s <- frame :: s.id == id
  }

  lemma {:induction false} BindAllFirst(here: Bindings, frame: Frame, id: Path)
    ensures id in BindAll(here, frame) <==> id in here || Declares(frame, id)
    ensures id in here ==> BindAll(here, frame)[id] == here[id]
    ensures forall j | id !in here && 0 <= j < |frame| && frame[j].id == id
              && (forall k :: 0 <= k < j ==> frame[k].id != id) :: BindAll(here, frame)[id] == frame[j]
    decreases frame
  {
    if frame != [] {
      BindAllFirst(Bind(here, frame[0]), frame[1..], id);
      assert frame == [frame[0]] + frame[1..];
      forall j | id !in here && 0 <= j < |frame| && frame[j].id == id
        && (forall k :: 0 <= k < j ==> frame[k].id != id)
        ensures BindAll(here, frame)[id] == frame[j]
      {
        if j > 0 {
          assert frame[0].id != id;
          assert frame[1..][j - 1] == frame[j];
        }
      }
    }
  }

  /** Lexical scoping on the frames themselves: a name resolves to the first declaration in the
      innermost frame that declares it. */
  lemma {:induction false} InnermostFirst(frames: seq<Frame>, id: Path, i: nat, j: nat)
    requires i < |frames| && j < |frames[i]| && frames[i][j].id == id
    requires forall k :: 0 <= k < j ==> frames[i][k].id != id
    requires forall k :: i < k < |frames| ==> !Declares(frames[k], id)
    ensures id in Flatten(frames) && Flatten(frames)[id] == frames[i][j]
    decreases |frames|
  {
    var last := |frames| - 1;
    BindAllFirst(map[], frames[last], id);
    if i < last {
      InnermostFirst(frames[..last], id, i, j);
    }
  }

  /** A name is visible exactly when some frame declares it. */
  lemma {:induction false} VisibleIffDeclared(frames: seq<Frame>, id: Path)
    ensures id in Flatten(frames) <==> exists frame <- frames :: Declares(frame, id)
    decreases |frames|
  {
    if frames != [] {
      var last := |frames| - 1;
      VisibleIffDeclared(frames[..last], id);
      BindAllFirst(map[], frames[last], id);
      assert frames == frames[..last] + [frames[last]];
    }
  }

  /** Tables keep a symbol under its own path. */
  predicate Keyed(here: Bindings) {
    forall id <- here :: here[id].id == id
  }

  lemma {:induction false} FrameKeyed(here: Bindings, frame: Frame)
    requires Keyed(here)
    ensures Keyed(BindAll(here, frame))
    decreases frame
  {
    if frame != [] { FrameKeyed(Bind(here, frame[0]), frame[1..]); }
  }

  lemma {:induction false} FramesKeyed(frames: seq<Frame>)
    ensures Keyed(Flatten(frames))
    decreases |frames|
  {
    if frames != [] {
      FramesKeyed(frames[..|frames| - 1]);
      FrameKeyed(map[], frames[|frames| - 1]);
    }
  }

  lemma {:induction false} ExternalKeyed(external: seq<(string, Bindings)>, id: Path)
    requires forall e <- external :: Keyed(e.1)
    ensures FindExternal(external, id).Some? ==> FindExternal(external, id).value.id == id
    decreases external
  {
    if external != [] { ExternalKeyed(external[1..], id); }
  }

  /** What is found for a path is a symbol of that path. */
  lemma FoundByItsPath(frames: seq<Frame>, id: Path, ctx: Context)
    requires Keyed(ctx.symbols) && forall e <- ctx.external :: Keyed(e.1)
    ensures var r := Lookup(id, EnvOf(frames), ctx);
            r.Success? ==> r.value.id == id
  {
    FramesKeyed(frames);
    ExternalKeyed(ctx.external, id);
    VisibleIsFlatten(frames);
  }

  /** aggregateStack: innermost frame first, each frame in its own order. */
  function Aggregate(frames: seq<Frame>): seq<Symbol> {
    if frames == [] then []
    else frames[|frames| - 1] + Aggregate(frames[..|frames| - 1])
  }

  /** std::find_if on a vector of symbols. */
  function FindSymbol(symbols: seq<Symbol>, id: Path): Option<Symbol> {
    if symbols == [] then None
    else if symbols[0].id == id then Some(symbols[0])
    else FindSymbol(symbols[1..], id)
  }

  lemma {:induction false} FindInConcat(xs: seq<Symbol>, ys: seq<Symbol>, id: Path)
    ensures FindSymbol(xs + ys, id) == (if FindSymbol(xs, id).Some? then FindSymbol(xs, id) else FindSymbol(ys, id))
    decreases xs
  {
    if xs == [] {
      assert xs + ys == ys;
    } else {
      assert (xs + ys)[1..] == xs[1..] + ys;
      FindInConcat(xs[1..], ys, id);
    }
  }

  lemma {:induction false} FindInFrame(here: Bindings, frame: Frame, id: Path)
    requires id !in here
    ensures FindSymbol(frame, id).Some? <==> id in BindAll(here, frame)
    ensures FindSymbol(frame, id).Some? ==> FindSymbol(frame, id).value == BindAll(here, frame)[id]
    decreases frame
  {
    if frame != [] {
      if frame[0].id == id {
        BindAllFirst(Bind(here, frame[0]), frame[1..], id);
      } else {
        FindInFrame(Bind(here, frame[0]), frame[1..], id);
      }
    }
  }

  /** Searching the aggregated stack front to back is the lookup in the flattened bindings. */
  lemma {:induction false} AggregateFinds(frames: seq<Frame>, id: Path)
    ensures FindSymbol(Aggregate(frames), id) ==
            if id in Flatten(frames) then Some(Flatten(frames)[id]) else None
    decreases |frames|
  {
    if frames != [] {
      var last := |frames| - 1;
      FindInConcat(frames[last], Aggregate(frames[..last]), id);
      FindInFrame(map[], frames[last], id);
      AggregateFinds(frames[..last], id);
    }
  }

  // ----- Loaded files -------------------------------------------------------

  /** `externalSymbols[file] = symbols` on a std::map: replaces, or inserts at its place in the order. */
  function SetExternal(external: seq<(string, Bindings)>, file: string, symbols: Bindings): seq<(string, Bindings)> {
    if external == [] then [(file, symbols)]
    else if external[0].0 == file then [(file, symbols)] + external[1..]
    else if LessText(file, external[0].0) then [(file, symbols)] + external
    else [external[0]] + SetExternal(external[1..], file, symbols)
  }

  predicate FilesAscend(external: seq<(string, Bindings)>) {
    forall i, j :: 0 <= i < j < |external| ==> LessText(external[i].0, external[j].0)
  }

  lemma {:induction false} LessTextTransitive(a: string, b: string, c: string)
    requires LessText(a, b) && LessText(b, c)
    ensures LessText(a, c)
  {
    if a != [] && b != [] && c != [] && a[0] == b[0] == c[0] {
      LessTextTransitive(a[1..], b[1..], c[1..]);
    }
  }

  lemma {:induction false} SetExternalContents(external: seq<(string, Bindings)>, file: string, symbols: Bindings)
    ensures forall e :: e in SetExternal(external, file, symbols) ==> e == (file, symbols) || e in external
    ensures (file, symbols) in SetExternal(external, file, symbols)
    ensures forall e <- external :: e.0 != file ==> e in SetExternal(external, file, symbols)
    decreases external
  {
    if external != [] {
      assert external == [external[0]] + external[1..];
      if external[0].0 != file && !LessText(file, external[0].0) {
        SetExternalContents(external[1..], file, symbols);
      }
    }
  }

  /** Storing a file's symbols keeps the files in ascending order, one entry a file. */
  lemma {:induction false} SetExternalAscends(external: seq<(string, Bindings)>, file: string, symbols: Bindings)
    requires FilesAscend(external)
    ensures FilesAscend(SetExternal(external, file, symbols))
    decreases external
  {
    if external != [] {
      var rest := external[1..];
      if external[0].0 == file {
      } else if LessText(file, external[0].0) {
        forall i | 0 < i < |external| ensures LessText(file, external[i].0) {
          LessTextTransitive(file, external[0].0, external[i].0);
        }
      } else {
        LessTextSeparates(file, external[0].0);
        SetExternalAscends(rest, file, symbols);
        SetExternalContents(rest, file, symbols);
        var more := SetExternal(rest, file, symbols);
        forall i | 0 <= i < |more| ensures LessText(external[0].0, more[i].0) {
          assert more[i] in more;
          if more[i] != (file, symbols) {
            var j :| 0 <= j < |rest| && rest[j] == more[i];
            assert external[j + 1] == more[i];
          }
        }
      }
    }
  }

  /** The file that answers is the one with the least name among those that have the symbol, and a
      lookup fails exactly when none has it. */
  lemma {:induction false} FindExternalLeast(external: seq<(string, Bindings)>, id: Path)
    requires FilesAscend(external)
    ensures FindExternal(external, id).None? <==> forall e <- external :: id !in e.1
    ensures FindExternal(external, id).Some? ==>
              exists e <- external :: LeastFile(external, id, e) && FindExternal(external, id).value == e.1[id]
    decreases external
  {
    if external != [] {
      assert external == [external[0]] + external[1..];
      if id in external[0].1 {
        var e := external[0];
        forall d <- external | d != e ensures LessText(e.0, d.0) {
          var j :| 0 <= j < |external| && external[j] == d;
        }
      } else {
        FindExternalLeast(external[1..], id);
      }
    }
  }

  // ----- What a name resolves to ---------------------------------------------------

  /** frames[i][j] is the first declaration of a name in the innermost frame that declares it. */
  predicate Innermost(frames: seq<Frame>, id: Path, i: int, j: int) {
    && 0 <= i < |frames| && 0 <= j < |frames[i]| && frames[i][j].id == id
    && (forall k :: 0 <= k < j ==> frames[i][k].id != id)
    && forall k :: i < k < |frames| ==> !Declares(frames[k], id)
  }

  /** e is the entry of least file name among those that have a symbol. */
  predicate LeastFile(external: seq<(string, Bindings)>, id: Path, e: (string, Bindings)) {
    e in external && id in e.1 && forall d <- external :: id in d.1 && d != e ==> LessText(e.0, d.0)
  }

  lemma {:induction false} FirstInFrame(frame: Frame, id: Path) returns (j: nat)
    requires Declares(frame, id)
    ensures j < |frame| && frame[j].id == id && forall k :: 0 <= k < j ==> frame[k].id != id
    decreases frame
  {
    j := 0;
    if frame[0].id != id {
      j := FirstInFrame(frame[1..], id);
      assert forall k :: 0 < k < j + 1 ==> frame[k] == frame[1..][k - 1];
      j := j + 1;
    }
  }

  lemma {:induction false} InnermostExists(frames: seq<Frame>, id: Path) returns (i: nat, j: nat)
    requires exists frame <- frames :: Declares(frame, id)
    ensures Innermost(frames, id, i, j)
    decreases |frames|
  {
    var last := |frames| - 1;
    if Declares(frames[last], id) {
      i := last;
      j := FirstInFrame(frames[last], id);
    } else {
      assert frames == frames[..last] + [frames[last]];
      i, j := InnermostExists(frames[..last], id);
    }
  }

  /** The resolution of names on a stack of frames, over files in order: the first declaration in the innermost
      frame that declares the name; if there is none, the program's own symbol; if there is none, that of the
      least file; and a failure exactly if there is none of these. */
  lemma ResolvesTo(frames: seq<Frame>, id: Path, ctx: Context)
    requires frames != [] && FilesAscend(ctx.external)
    ensures var r := Lookup(id, EnvOf(frames), ctx);
            if exists frame <- frames :: Declares(frame, id) then
              exists i, j :: Innermost(frames, id, i, j) && r == Success(frames[i][j])
            else if id in ctx.symbols then r == Success(ctx.symbols[id])
            else if exists e <- ctx.external :: id in e.1 then
              exists e <- ctx.external :: LeastFile(ctx.external, id, e) && r == Success(e.1[id])
            else r == Failure(BadSymbol(id))
  {
    VisibleIffDeclared(frames, id);
    if exists frame <- frames :: Declares(frame, id) {
      var i, j := InnermostExists(frames, id);
      InnermostFirst(frames, id, i, j);
      assert Innermost(frames, id, i, j) && Lookup(id, EnvOf(frames), ctx) == Success(frames[i][j]);
    } else if id !in ctx.symbols {
      FindExternalLeast(ctx.external, id);
    }
  }
}
