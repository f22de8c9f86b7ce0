/** What the recursive search has established when it ends, and what its failures mean. */
module Closure {
  import opened Bytes
  import opened Graph
  import opened Packages
  import opened DepthFirst
  import V = Version
  import T = Traversal

  /** The whole dependency graph is walked: no option and no depth limit cuts it short. */
  predicate Full(c: Config) {
    c.recursive && c.maxdepth > STACK_SLOTS
  }

  /** The package was loaded for this spec: it is what the world holds under the spec's name, and its version is what the
      spec asks for, unless versions are ignored. */
  ghost predicate LoadedFor(c: Config, specs: seq<Spec>, t: Table, n: Bytes, spec: Spec)
    requires n in t
  {
    && Requested(c.world, specs, spec) && spec.name in c.world && PathToRealname(spec.name) == n
    && t[n].data == c.world[spec.name]
    && (c.ignoreVersions || V.Satisfies(spec.op, c.world[spec.name].version, spec.version))
  }

  ghost predicate Checked(c: Config, specs: seq<Spec>, t: Table) {
    forall n :: n in t ==> exists spec :: LoadedFor(c, specs, t, n, spec)
  }

  lemma CheckedSourced(c: Config, specs: seq<Spec>, t: Table)
    requires Checked(c, specs, t)
    ensures Sourced(c.world, t)
  {
    hide Requested, PathToRealname, V.Satisfies;
    forall n | n in t ensures exists s :: s in c.world && PathToRealname(s) == n && t[n].data == c.world[s] {
      var spec :| LoadedFor(c, specs, t, n, spec);
      assert spec.name in c.world && PathToRealname(spec.name) == n && t[n].data == c.world[spec.name];
    }
  }

  /** Flags may grow, and a package may enter that was loaded for some spec. */
  lemma CheckedUpdate(c: Config, specs: seq<Spec>, t: Table, n: Bytes, p: Pkg, spec: Spec)
    requires Checked(c, specs, t)
    requires if n in t then p.data == t[n].data else LoadedFor(c, specs, t[n := p], n, spec)
    ensures Checked(c, specs, t[n := p])
  {
    hide Requested, PathToRealname, V.Satisfies;
    var u := t[n := p];
    forall m | m in u ensures exists s :: LoadedFor(c, specs, u, m, s) {
      if m in t {
        var s :| LoadedFor(c, specs, t, m, s);
        assert LoadedFor(c, specs, u, m, s);
      } else {
        assert LoadedFor(c, specs, u, m, spec);
      }
    }
  }

  /** What a finished traversal has established about its packages. */
  ghost predicate Finished(c: Config, specs: seq<Spec>, r: Pkgs) {
    var t := TableOf(r.table);
    && Checked(c, specs, r.table)
    && T.Distinct(r.list)
    && (forall n :: n in r.list <==> n in r.table)
    && r.count == |r.table| == |r.list|
    && T.Reached(Realnames(specs), t)
    && (forall n :: n in Realnames(specs) ==> n in t && t[n].direct && t[n].isPublic)
    && (Full(c) ==> T.Complete(Realnames(specs), t) && T.Ordered(t, r.list))
  }

  /** A failure has a cause: a requested name the world lacks, a requested version it does
      not offer, or so many packages that the stack may not hold them. */
  ghost predicate Caused(c: Config, specs: seq<Spec>, e: ProcessError) {
    match e
    case NotFound(n) => n !in c.world && exists spec: Spec :: spec.name == n && Requested(c.world, specs, spec)
    case VersionMismatch(spec) =>
      && Requested(c.world, specs, spec) && !c.ignoreVersions
      && spec.name in c.world && !V.Satisfies(spec.op, c.world[spec.name].version, spec.version)
    case TooDeep(_) => c.recursive && |RealnamesOf(c.world)| >= STACK_SLOTS / 2
  }

  // ---------- the invariant on values ----------

  /** A point of the run: `st` is what the traversal's proof sees of the frames and the table. */
  datatype Moment = Moment(c: Config, specs: seq<Spec>, st: T.Snapshot, frames: seq<Frame>, s: State)

  ghost predicate Mirrors(st: T.Snapshot, frames: seq<Frame>, s: State) {
    && |st.frames| == |st.own| == |frames|
    && (forall i :: 0 <= i < |frames| ==> st.frames[i] == FrameOf(frames[i]))
    && st.table == TableOf(s.table) && st.list == s.list
  }

  ghost predicate Asked(m: Moment) {
    && Checked(m.c, m.specs, m.s.table)
    && forall i :: 0 <= i < |m.frames| ==>
         m.frames[i].depth <= i && AllRequested(m.c.world, m.specs, m.frames[i].specs)
  }

  ghost predicate Sound(m: Moment) {
    Mirrors(m.st, m.frames, m.s) && T.Inv(Realnames(m.specs), Full(m.c), m.st) && Asked(m)
  }

  ghost predicate Going(m: Moment, whole: Result<State, ProcessError>) {
    Sound(m) && Rest(m.c, m.s, m.frames) == whole
  }

  // ---------- prepend and pop ----------

  function Prepended(m: Moment): Moment
    requires m.frames != [] && m.frames[|m.frames| - 1].newpkg.Some?
  {
    var k := |m.frames| - 1;
    var f := m.frames[k];
    m.(frames := m.frames[k := f.(newpkg := None)], s := m.s.Listed(f.newpkg.value))
  }

  lemma PrependGoes(m: Moment, whole: Result<State, ProcessError>) returns (st: T.Snapshot)
    requires Going(m, whole) && m.frames != [] && m.frames[|m.frames| - 1].newpkg.Some?
    ensures Going(Prepended(m).(st := st), whole)
  {
    hide T.Inv, AllRequested, Checked, PathToRealname, Rest;
    RestPrepend(m.c, m.s, m.frames);
    T.PrependKeeps(Realnames(m.specs), Full(m.c), m.st);
    st := T.AfterPrepend(m.st);
  }

  lemma PopGoes(m: Moment, whole: Result<State, ProcessError>) returns (st: T.Snapshot)
    requires Going(m, whole) && m.frames != []
    requires m.frames[|m.frames| - 1].newpkg == None && m.frames[|m.frames| - 1].specs == []
    ensures Going(m.(st := st, frames := m.frames[..|m.frames| - 1]), whole)
  {
    hide T.Inv, AllRequested, Checked, PathToRealname, Rest;
    RestPop(m.c, m.s, m.frames);
    T.PopKeeps(Realnames(m.specs), Full(m.c), m.st);
    st := T.AfterPop(m.st);
  }

  // ---------- a visit ----------

  lemma TopRequested(m: Moment)
    requires Asked(m) && AtSpec(m.frames)
    ensures var f := m.frames[|m.frames| - 1]; f.depth < |m.frames| && Requested(m.c.world, m.specs, f.specs[0])
  {
    hide Checked, Requested, PathToRealname;
    assert AllRequested(m.c.world, m.specs, m.frames[|m.frames| - 1].specs);
  }

  /** The mirror image of a step that changes one package of the table, and not its data. */
  lemma VisitMirrors(m: Moment)
    requires Mirrors(m.st, m.frames, m.s) && AtSpec(m.frames) && NextName(m.frames) in m.s.table
    ensures T.AtSpec(m.st) && T.NextName(m.st) == NextName(m.frames) && T.NextName(m.st) in m.st.table
    ensures PromotesNext(m.c, m.s, m.frames) ==> T.Promotes(m.st)
    ensures T.Promotes(m.st) && Walks(m.c, m.frames[|m.frames| - 1].depth) ==> PromotesNext(m.c, m.s, m.frames)
    ensures Mirrors(T.AfterVisit(m.st, PromotesNext(m.c, m.s, m.frames)), VisitedFrames(m.c, m.s, m.frames), VisitedState(m.s, m.frames))
  {
    hide PathToRealname, Realnames;
    var f, n := m.frames[|m.frames| - 1], NextName(m.frames);
    RealnamesTail(f.specs);
    TableOfUpdate(m.s.table, n, Marked(m.s.table[n], f.direct, f.isPublic));
  }

  lemma VisitAsked(m: Moment, st: T.Snapshot)
    requires Asked(m) && AtSpec(m.frames) && NextName(m.frames) in m.s.table
    ensures Asked(m.(st := st, frames := VisitedFrames(m.c, m.s, m.frames), s := VisitedState(m.s, m.frames)))
  {
    hide AllRequested, Checked, Sourced, PathToRealname;
    var f, n := m.frames[|m.frames| - 1], NextName(m.frames);
    RequestedTail(m.c.world, m.specs, f.specs);
    CheckedSourced(m.c, m.specs, m.s.table);
    CheckedUpdate(m.c, m.specs, m.s.table, n, Marked(m.s.table[n], f.direct, f.isPublic), f.specs[0]);
    RequestedByPackage(m.c.world, m.specs, m.s.table, n);
  }

  lemma VisitSound(m: Moment) returns (st: T.Snapshot)
    requires Sound(m) && AtSpec(m.frames) && NextName(m.frames) in m.s.table && |m.frames| <= STACK_SLOTS
    ensures Sound(m.(st := st, frames := VisitedFrames(m.c, m.s, m.frames), s := VisitedState(m.s, m.frames)))
  {
    hide T.Inv, Mirrors, Asked, PathToRealname, Realnames, VisitedFrames, VisitedState;
    TopRequested(m);
    VisitMirrors(m);
    VisitAsked(m, T.AfterVisit(m.st, PromotesNext(m.c, m.s, m.frames)));
    T.VisitKeeps(Realnames(m.specs), Full(m.c), m.st, PromotesNext(m.c, m.s, m.frames));
    st := T.AfterVisit(m.st, PromotesNext(m.c, m.s, m.frames));
  }

  /** What a visit leads to: a failure if the stack is full, or the rest of the same search. */
  ghost predicate VisitOn(m: Moment, st: T.Snapshot, whole: Result<State, ProcessError>) {
    && AtSpec(m.frames) && NextName(m.frames) in m.s.table
    && var e := TooDeep(NextName(m.frames));
      if PromotesNext(m.c, m.s, m.frames) && |m.frames| >= STACK_SLOTS then whole == Err(e) && Caused(m.c, m.specs, e)
      else
        Going(m.(st := st, frames := VisitedFrames(m.c, m.s, m.frames), s := VisitedState(m.s, m.frames)), whole)
  }

  lemma VisitGoes(m: Moment, whole: Result<State, ProcessError>) returns (st: T.Snapshot)
    requires Going(m, whole) && AtSpec(m.frames) && NextName(m.frames) in m.s.table && |m.frames| <= STACK_SLOTS
    ensures VisitOn(m, st, whole)
  {
    hide Sound, Caused, PathToRealname, Rest, VisitedFrames, Marked;
    RestVisit(m.c, m.s, m.frames);
    if PromotesNext(m.c, m.s, m.frames) && |m.frames| >= STACK_SLOTS {
      DeepCaused(m);
      st := m.st;
    } else {
      st := VisitSound(m);
    }
  }

  // ---------- a load ----------

  lemma LoadMirrors(m: Moment, data: Loaded)
    requires Mirrors(m.st, m.frames, m.s) && AtSpec(m.frames) && NextName(m.frames) !in m.s.table
    ensures T.AtSpec(m.st) && T.NextName(m.st) !in m.st.table
    ensures var push := Walks(m.c, m.frames[|m.frames| - 1].depth);
      Mirrors(T.AfterLoad(m.st, NodeOf(Entered(m.frames, data)), push), EnteredFrames(m.c, m.frames, data), EnteredState(m.s, m.frames, data))
  {
    hide PathToRealname, Realnames;
    RealnamesTail(m.frames[|m.frames| - 1].specs);
    TableOfUpdate(m.s.table, NextName(m.frames), Entered(m.frames, data));
  }

  lemma LoadAsked(m: Moment, st: T.Snapshot, data: Loaded)
    requires Asked(m) && AtSpec(m.frames) && NextName(m.frames) !in m.s.table
    requires Found(m.c, m.frames[|m.frames| - 1].specs[0]) == Ok(data)
    ensures Asked(m.(st := st, frames := EnteredFrames(m.c, m.frames, data), s := EnteredState(m.s, m.frames, data)))
  {
    hide AllRequested, Checked, Sourced, PathToRealname, Found, V.Satisfies;
    var f, n := m.frames[|m.frames| - 1], NextName(m.frames);
    TopRequested(m);
    FoundIff(m.c, f.specs[0]);
    RequestedTail(m.c.world, m.specs, f.specs);
    CheckedUpdate(m.c, m.specs, m.s.table, n, Entered(m.frames, data), f.specs[0]);
    CheckedSourced(m.c, m.specs, EnteredState(m.s, m.frames, data).table);
    RequestedByPackage(m.c.world, m.specs, EnteredState(m.s, m.frames, data).table, n);
  }

  lemma FindCaused(m: Moment)
    requires Asked(m) && AtSpec(m.frames) && Found(m.c, m.frames[|m.frames| - 1].specs[0]).Err?
    ensures Caused(m.c, m.specs, Found(m.c, m.frames[|m.frames| - 1].specs[0]).error)
  {
    hide Asked, Requested, RealnamesOf, V.Satisfies, Found;
    TopRequested(m);
    FoundIff(m.c, m.frames[|m.frames| - 1].specs[0]);
  }

  lemma LoadSound(m: Moment, data: Loaded) returns (st: T.Snapshot)
    requires Sound(m) && AtSpec(m.frames) && NextName(m.frames) !in m.s.table && |m.frames| <= STACK_SLOTS
    requires Found(m.c, m.frames[|m.frames| - 1].specs[0]) == Ok(data)
    ensures Sound(m.(st := st, frames := EnteredFrames(m.c, m.frames, data), s := EnteredState(m.s, m.frames, data)))
  {
    hide T.Inv, Mirrors, Asked, PathToRealname, Realnames, Found, EnteredFrames, EnteredState, NodeOf;
    TopRequested(m);
    LoadMirrors(m, data);
    var push := Walks(m.c, m.frames[|m.frames| - 1].depth);
    var node := NodeOf(Entered(m.frames, data));
    LoadAsked(m, T.AfterLoad(m.st, node, push), data);
    T.LoadKeeps(Realnames(m.specs), Full(m.c), m.st, node, push);
    st := T.AfterLoad(m.st, node, push);
  }

  /** What a load leads to: a failure if nothing suits or the stack is full, or the rest of the same search. */
  ghost predicate LoadOn(m: Moment, st: T.Snapshot, whole: Result<State, ProcessError>) {
    && AtSpec(m.frames)
    && var f := m.frames[|m.frames| - 1]; var found := Found(m.c, f.specs[0]); var e := TooDeep(NextName(m.frames));
      if found.Err? then whole == Err(found.error) && Caused(m.c, m.specs, found.error)
      else if Walks(m.c, f.depth) && |m.frames| >= STACK_SLOTS - 1 then whole == Err(e) && Caused(m.c, m.specs, e)
      else
        Going(m.(st := st, frames := EnteredFrames(m.c, m.frames, found.value), s := EnteredState(m.s, m.frames, found.value)), whole)
  }

  lemma LoadGoes(m: Moment, whole: Result<State, ProcessError>) returns (st: T.Snapshot)
    requires Going(m, whole) && AtSpec(m.frames) && NextName(m.frames) !in m.s.table && |m.frames| <= STACK_SLOTS
    ensures LoadOn(m, st, whole)
  {
    hide T.Inv, Mirrors, Asked, PathToRealname, Rest, EnteredFrames, Found, Unloaded, Caused;
    RestLoad(m.c, m.s, m.frames);
    var f := m.frames[|m.frames| - 1];
    var found := Found(m.c, f.specs[0]);
    st := m.st;
    if found.Err? {
      FindCaused(m);
    } else if Walks(m.c, f.depth) && |m.frames| >= STACK_SLOTS - 1 {
      DeepCaused(m);
    } else {
      st := LoadSound(m, found.value);
    }
  }

  /** The stack runs out only when there are many packages. */
  lemma DeepCaused(m: Moment)
    requires Sound(m) && AtSpec(m.frames) && m.c.recursive
    requires || |m.frames| == STACK_SLOTS
      || (&& |m.frames| == STACK_SLOTS - 1 && NextName(m.frames) !in m.s.table
          && m.frames[|m.frames| - 1].specs[0].name in m.c.world)
    ensures forall name :: Caused(m.c, m.specs, TooDeep(name))
  {
    hide T.Inv, AllRequested, PathToRealname, Realnames;
    T.StackBounded(Realnames(m.specs), Full(m.c), m.st);
    var table := m.s.table;
    assert m.st.table.Keys == table.Keys;
    assert |m.st.table| == |m.st.table.Keys| == |table.Keys|;
    var names := if |m.frames| == STACK_SLOTS then table.Keys else table.Keys + {NextName(m.frames)};
    assert names <= RealnamesOf(m.c.world);
    T.SubsetSize(names, RealnamesOf(m.c.world));
  }

  // ---------- start and end ----------

  lemma StartGoes(c: Config, specs: seq<Spec>) returns (st: T.Snapshot)
    ensures Going(Moment(c, specs, st, [Frame(specs, None, 0, true, true)], State(map[], [])),
      Walk(c, State(map[], []), specs, Level(0, 0, true, true)))
  {
    hide PathToRealname, Rest, Walk;
    var f := Frame(specs, None, 0, true, true);
    RestStart(c, specs);
    st := T.Snapshot(map[], [], [FrameOf(f)], [T.Root]);
    T.StartKeeps(Realnames(specs), Full(c), FrameOf(f));
  }

  lemma EndGoes(m: Moment, whole: Result<State, ProcessError>)
    requires Going(m, whole) && m.frames == []
    ensures whole == Ok(m.s)
    ensures Finished(m.c, m.specs, Pkgs(m.s.table, m.s.list, |m.s.table|))
  {
    hide AllRequested, Checked, PathToRealname, Realnames;
    RestNothing(m.c, m.s);
    T.EndComplete(Realnames(m.specs), Full(m.c), m.st);
    assert m.s.table.Keys == m.st.table.Keys;
  }

  // ---------- the whole search ----------

  /** What a result of the search means. */
  ghost predicate Explained(c: Config, specs: seq<Spec>, r: Result<State, ProcessError>) {
    match r
    case Ok(s) => Finished(c, specs, Pkgs(s.table, s.list, |s.table|))
    case Err(e) => Caused(c, specs, e)
  }

  /** From any point of a run on, the search ends as it should. */
  lemma {:induction false} GoingEnds(m: Moment, whole: Result<State, ProcessError>)
    requires Going(m, whole) && |m.frames| <= STACK_SLOTS
    ensures Explained(m.c, m.specs, whole)
    decreases Unloaded(m.c.world, m.s.table), NotPublic(m.s.table), Work(m.frames), if Holding(m.frames) then 1 else 0
  {
    hide Going, PathToRealname, Unloaded, NotPublic, Work, VisitedFrames, EnteredFrames, VisitedState, EnteredState,
      Caused, Found, Finished, NextName;
    if m.frames == [] {
      EndGoes(m, whole);
    } else if Holding(m.frames) {
      var st := PrependGoes(m, whole);
      WorkTop(m.frames, Prepended(m).frames[|m.frames| - 1]);
      GoingEnds(Prepended(m).(st := st), whole);
    } else if m.frames[|m.frames| - 1].specs == [] {
      var st := PopGoes(m, whole);
      WorkTop(m.frames, m.frames[|m.frames| - 1]);
      GoingEnds(m.(st := st, frames := m.frames[..|m.frames| - 1]), whole);
    } else if NextName(m.frames) in m.s.table {
      var st := VisitGoes(m, whole);
      if !(PromotesNext(m.c, m.s, m.frames) && |m.frames| >= STACK_SLOTS) {
        VisitCloser(m.c, m.s, m.frames);
        VisitHeight(m.c, m.s, m.frames);
        GoingEnds(m.(st := st, frames := VisitedFrames(m.c, m.s, m.frames), s := VisitedState(m.s, m.frames)), whole);
      }
    } else {
      var st := LoadGoes(m, whole);
      var f := m.frames[|m.frames| - 1];
      var found := Found(m.c, f.specs[0]);
      if found.Ok? && !(Walks(m.c, f.depth) && |m.frames| >= STACK_SLOTS - 1) {
        LoadCloser(m.c, m.s, m.frames, found.value);
        LoadHeight(m.c, m.frames, found.value);
        GoingEnds(m.(st := st, frames := EnteredFrames(m.c, m.frames, found.value),
          s := EnteredState(m.s, m.frames, found.value)), whole);
      }
    }
  }

  /**
   * The search loads exactly what is reachable, marks exactly what is public and direct, and lists packages before what
   * they depend on unless that leads back to them; or it fails for a cause.
   */
  lemma SearchExplained(c: Config, specs: seq<Spec>)
    ensures match Walked(c, specs)
      case Ok(pkgs) => Finished(c, specs, pkgs)
      case Err(e) => Caused(c, specs, e)
  {
    hide Going, Finished, Caused, Walk;
    var whole := Walk(c, State(map[], []), specs, Level(0, 0, true, true));
    var st := StartGoes(c, specs);
    GoingEnds(Moment(c, specs, st, [Frame(specs, None, 0, true, true)], State(map[], [])), whole);
  }

  // ---------- version constraints ----------

  /** Wherever the search meets a package that is not loaded yet: one that is missing stops it, and so does one whose
      version is not what the spec asks for. */
  lemma ConstraintStops(c: Config, s: State, specs: seq<Spec>, l: Level)
    requires specs != [] && PathToRealname(specs[0].name) !in s.table
    ensures specs[0].name !in c.world ==> Walk(c, s, specs, l) == Err(NotFound(specs[0].name))
    ensures specs[0].name in c.world && !c.ignoreVersions
      && !V.Satisfies(specs[0].op, c.world[specs[0].name].version, specs[0].version)
      ==> Walk(c, s, specs, l) == Err(VersionMismatch(specs[0]))
  {
    hide PathToRealname, V.Satisfies, Found, Walk;
    FoundIff(c, specs[0]);
    WalkLoads(c, s, specs, l);
  }

  /** The first package of the command line is loaded only if it exists and has the version asked for. */
  lemma FirstChecked(c: Config, specs: seq<Spec>)
    requires specs != []
    ensures specs[0].name !in c.world ==> Walked(c, specs) == Err(NotFound(specs[0].name))
    ensures specs[0].name in c.world && !c.ignoreVersions
      && !V.Satisfies(specs[0].op, c.world[specs[0].name].version, specs[0].version)
      ==> Walked(c, specs) == Err(VersionMismatch(specs[0]))
  {
    hide PathToRealname, V.Satisfies, Walk;
    ConstraintStops(c, State(map[], []), specs, Level(0, 0, true, true));
  }

  // ---------- acyclic dependencies ----------

  lemma BeforeTransitive(list: seq<Bytes>, p: Bytes, n: Bytes, d: Bytes)
    requires T.Distinct(list) && T.Before(list, p, n) && T.Before(list, n, d)
    ensures T.Before(list, p, d)
  {
    var i, j :| 0 <= i < j < |list| && list[i] == p && list[j] == n;
    var k, l :| 0 <= k < l < |list| && list[k] == n && list[l] == d;
    assert j == k;
    assert list[i] == p && list[l] == d;
  }

  lemma TopologicalReach(g: Graph, list: seq<Bytes>, p: Bytes, q: Bytes)
    requires T.Distinct(list) && p in list && Reaches(g, p, q) && p != q
    requires forall n, d :: n in list && n in g && d in g[n] ==> T.Before(list, n, d)
    ensures T.Before(list, p, q)
  {
    hide T.Before;
    var behind := set n | n in list && (n == p || T.Before(list, p, n));
    forall n, d | n in behind && n in g && d in g[n] ensures d in behind {
      assert T.Before(list, n, d);
      BeforeListed(list, n, d);
      if n != p {
        BeforeTransitive(list, p, n, d);
      }
    }
    var path :| IsPath(g, path) && path[0] == p && path[|path| - 1] == q;
    ClosedHoldsPath(g, behind, path);
  }

  lemma BeforeListed(list: seq<Bytes>, n: Bytes, d: Bytes)
    requires T.Before(list, n, d)
    ensures d in list
  {
  }

  /** Without cycles, a package is listed before everything it depends on, directly or not. */
  lemma AcyclicLoadOrder(c: Config, specs: seq<Spec>, pkgs: Pkgs, p: Bytes, q: Bytes)
    requires Full(c) && Walked(c, specs) == Ok(pkgs) && p in pkgs.table && p != q
    requires var g := T.Edges(TableOf(pkgs.table)); Acyclic(g) && Reaches(g, p, q)
    ensures T.Before(pkgs.list, p, q)
  {
    hide Walked, T.Before, T.Complete, T.Reached, Checked, Acyclic, Reaches, T.Edges, TableOf, T.Ordered;
    SearchExplained(c, specs);
    var t := TableOf(pkgs.table);
    T.AcyclicTopological(t, pkgs.list);
    TopologicalEdges(t, pkgs.list);
    assert p in pkgs.list;
    TopologicalReach(T.Edges(t), pkgs.list, p, q);
  }

  lemma TopologicalEdges(t: T.Table, list: seq<Bytes>)
    ensures forall n :: n in T.Edges(t) ==> n in t
  {
  }

  // ---------- how many packages a stack is sure to hold ----------

  /** Packages with one-byte names, each requiring the next privately. */
  function ChainPackage(n: nat, k: u8): Loaded {
    Loaded([], [], if k as int + 1 < n && k < 255 then [Spec([k + 1], V.NoOp, [])] else [], [], [])
  }

  function ChainWorld(n: nat): map<Bytes, Loaded> {
    map k: u8 | k as int < n :: [k] := ChainPackage(n, k)
  }

  function ChainConfig(n: nat, maxdepth: nat): Config {
    Config(ChainWorld(n), true, false, maxdepth)
  }

  function ChainSpecs(k: u8): seq<Spec> { [Spec([k], V.NoOp, [])] }

  lemma ChainFound(n: nat, maxdepth: nat, k: u8)
    requires k as int < n
    ensures Found(ChainConfig(n, maxdepth), Spec([k], V.NoOp, [])) == Ok(ChainPackage(n, k))
    ensures PathToRealname([k]) == [k]
  {
  }

  lemma ChainPackageIs(n: nat, k: u8)
    requires k as int < n <= STACK_SLOTS && k as int < STACK_SLOTS / 2
    ensures ChainPackage(n, k).requires_ == []
    ensures ChainPackage(n, k).requiresPrivate == if k as int + 1 < n then ChainSpecs(k + 1) else []
  {
  }

  function ChainNames(n: nat): (names: set<Bytes>)
    requires n <= 256
    ensures |names| == n
    ensures forall k: u8 :: [k] in names <==> k as int < n
    ensures forall name :: name in names ==> |name| == 1
  {
    if n == 0 then {} else ChainNames(n - 1) + {[(n - 1) as u8]}
  }

  /** How many packages of the chain are to be loaded: all, or as many as the depth limit says, but at least one. */
  function ChainCount(n: nat, maxdepth: nat): nat {
    if maxdepth == 0 then 1 else if maxdepth < n then maxdepth else n
  }

  /** The stack does not hold a hundred and twenty-eight of them if the last may require more. */
  predicate ChainTooDeep(n: nat, maxdepth: nat) {
    n >= STACK_SLOTS / 2 && maxdepth > STACK_SLOTS / 2
  }

  /** From the `k`-th package on, each walked two frames higher than the one that requires it. */
  lemma {:induction false} ChainWalks(n: nat, maxdepth: nat, k: u8, s: State, direct: bool, isPublic: bool)
    requires k as int < n <= STACK_SLOTS && k as int < STACK_SLOTS / 2 && (k == 0 || k as int < maxdepth)
    requires s.table.Keys == ChainNames(k as int)
    ensures var r := Walk(ChainConfig(n, maxdepth), s, ChainSpecs(k), Level(2 * k as int, k as int, direct, isPublic));
      if ChainTooDeep(n, maxdepth) then r == Err(TooDeep([127]))
      else r.Ok? && r.value.table.Keys == ChainNames(ChainCount(n, maxdepth))
    decreases n - k as int
  {
    hide Walk, Found, PathToRealname, ChainConfig, ChainPackage, ChainNames, Walks;
    var c := ChainConfig(n, maxdepth);
    var l := Level(2 * k as int, k as int, direct, isPublic);
    ChainLimit(n, maxdepth, k);
    ChainStep(n, maxdepth, k, s, l);
    var s1 := s.(table := s.table[[k] := Pkg(ChainPackage(n, k), direct, isPublic)]);
    if Walks(c, l.depth) && l.height < STACK_SLOTS - 2 {
      ChainPackageIs(n, k);
      if k as int + 1 < n {
        ChainWalks(n, maxdepth, k + 1, s1, false, false);
      } else {
        WalkNothing(c, s1, Level(l.height + 2, l.depth + 1, false, false));
      }
    }
  }

  lemma ChainEnters(k: u8, t: Table, p: Pkg)
    requires t.Keys == ChainNames(k as int)
    ensures t[[k] := p].Keys == ChainNames(k as int + 1) && [k] !in t
  {
    assert t[[k] := p].Keys == t.Keys + {[k]};
    assert [k] !in ChainNames(k as int);
  }

  /** One package of the chain: it enters, and then the rest of the chain is walked, if there is room. */
  lemma ChainStep(n: nat, maxdepth: nat, k: u8, s: State, l: Level)
    requires k as int < n <= STACK_SLOTS && k as int < STACK_SLOTS / 2
    requires s.table.Keys == ChainNames(k as int)
    ensures var c, data := ChainConfig(n, maxdepth), ChainPackage(n, k);
      var s1 := s.(table := s.table[[k] := Pkg(data, l.direct, l.isPublic)]);
      && s1.table.Keys == ChainNames(k as int + 1)
      && Walk(c, s, ChainSpecs(k), l)
         == if !Walks(c, l.depth) then Ok(s1.Listed([k]))
            else if l.height >= STACK_SLOTS - 2 then Err(TooDeep([k]))
            else
              match Walk(c, s1, data.requiresPrivate, Level(l.height + 2, l.depth + 1, false, false))
              case Err(e) => Err(e)
              case Ok(s2) => Ok(s2.Listed([k]))
  {
    hide Walk, Found, PathToRealname, ChainConfig, ChainPackage, Walks, ChainNames;
    var c, data := ChainConfig(n, maxdepth), ChainPackage(n, k);
    ChainFound(n, maxdepth, k);
    ChainPackageIs(n, k);
    WalkLoads(c, s, ChainSpecs(k), l);
    assert ChainSpecs(k)[1..] == [];
    var s1 := s.(table := s.table[[k] := Pkg(data, l.direct, l.isPublic)]);
    ChainEnters(k, s.table, s1.table[[k]]);
    WalkNothing(c, s1.Listed([k]), l);
    var r := Walk(c, s1, data.requiresPrivate, Level(l.height + 2, l.depth + 1, false, false));
    if r.Ok? {
      WalkNothing(c, r.value, Level(l.height + 1, l.depth + 1, false, l.isPublic));
      WalkNothing(c, r.value.Listed([k]), l);
    }
  }

  lemma ChainLimit(n: nat, maxdepth: nat, k: u8)
    ensures Walks(ChainConfig(n, maxdepth), k as int) <==> k as int + 1 < maxdepth
  {
  }

  lemma ChainSize(n: nat)
    requires n <= STACK_SLOTS
    ensures RealnamesOf(ChainWorld(n)) == ChainNames(n)
  {
    hide PathToRealname, ChainPackage, RealnamesOf, ChainNames, ChainWorld;
    var names := RealnamesOf(ChainWorld(n));
    forall name ensures name in names <==> name in ChainNames(n) {
      ChainNamed(n, name);
    }
  }

  /** The bound is tight: without a depth limit a chain of 127 packages is walked and one of 128 is too deep. With one,
      exactly as many packages as it says are loaded, or all, and always the first. */
  lemma ChainDepth(n: nat, maxdepth: nat)
    requires 0 < n <= STACK_SLOTS
    ensures |RealnamesOf(ChainWorld(n))| == n
    ensures var r := Walked(ChainConfig(n, maxdepth), ChainSpecs(0));
      if ChainTooDeep(n, maxdepth) then r == Err(TooDeep([127]))
      else r.Ok? && r.value.table.Keys == ChainNames(ChainCount(n, maxdepth))
  {
    hide Walk, RealnamesOf, ChainConfig, ChainSpecs, ChainWorld;
    ChainSize(n);
    ChainWalks(n, maxdepth, 0, State(map[], []), true, true);
  }

  lemma ChainNamed(n: nat, name: Bytes)
    requires n <= STACK_SLOTS
    ensures name in RealnamesOf(ChainWorld(n)) <==> name in ChainNames(n)
  {
    hide PathToRealname, ChainPackage;
    if name in ChainNames(n) {
      assert name == [name[0]];
      ChainFound(n, 0, name[0]);
      assert [name[0]] in ChainWorld(n);
    }
    if name in RealnamesOf(ChainWorld(n)) {
      var s :| s in ChainWorld(n) && PathToRealname(s) == name;
      ChainFound(n, 0, s[0]);
    }
  }

  // ---------- no dependencies ----------

  /** Where no requires are walked, exactly the packages of the list are added. */
  lemma {:induction false} WalkFlat(c: Config, s: State, specs: seq<Spec>, l: Level)
    requires !Walks(c, l.depth) && Walk(c, s, specs, l).Ok?
    ensures Walk(c, s, specs, l).value.table.Keys == s.table.Keys + T.Names(Realnames(specs))
    decreases |specs|
  {
    if specs == [] {
      WalkNothing(c, s, l);
      assert T.Names(Realnames([])) == {};
    } else {
      hide Walk, Found, PathToRealname, Walks;
      var name := PathToRealname(specs[0].name);
      RealnamesTail(specs);
      if name in s.table {
        var t := s.(table := s.table[name := Marked(s.table[name], l.direct, l.isPublic)]);
        WalkVisits(c, s, specs, l);
        WalkFlat(c, t, specs[1..], l);
      } else {
        WalkLoads(c, s, specs, l);
        var t := s.(table := s.table[name := Pkg(Found(c, specs[0]).value, l.direct, l.isPublic)]);
        WalkFlat(c, t.Listed(name), specs[1..], l);
      }
      NamesFirst(Realnames(specs));
    }
  }

  lemma NamesFirst(names: seq<Bytes>)
    requires names != []
    ensures T.Names(names) == {names[0]} + T.Names(names[1..])
  {
    assert names == [names[0]] + names[1..];
  }

  lemma WalkVisits(c: Config, s: State, specs: seq<Spec>, l: Level)
    requires specs != [] && PathToRealname(specs[0].name) in s.table && !Walks(c, l.depth)
    ensures var name := PathToRealname(specs[0].name);
      var t := s.(table := s.table[name := Marked(s.table[name], l.direct, l.isPublic)]);
      Walk(c, s, specs, l) == Walk(c, t, specs[1..], l)
  {
    hide PathToRealname, Found, Marked, Progress, Unloaded, NotPublic;
  }

  /** Without recursion, or with a depth limit of one or none, exactly the command line's packages are loaded. */
  lemma RootsOnly(c: Config, specs: seq<Spec>, pkgs: Pkgs)
    requires (!c.recursive || c.maxdepth <= 1) && Walked(c, specs) == Ok(pkgs)
    ensures pkgs.table.Keys == T.Names(Realnames(specs))
  {
    hide Walk, PathToRealname;
    WalkFlat(c, State(map[], []), specs, Level(0, 0, true, true));
  }
}
