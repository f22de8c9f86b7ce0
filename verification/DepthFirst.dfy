/** The dependency traversal as a recursive depth-first search, which the explicit stack carries out. */
module DepthFirst {
  import opened Bytes
  import opened Packages
  import V = Version

  const STACK_SLOTS := 256

  datatype Config = Config(world: map<Bytes, Loaded>, recursive: bool, ignoreVersions: bool, maxdepth: nat)

  datatype State = State(table: Table, list: seq<Bytes>) {
    function Listed(name: Bytes): State { this.(list := [name] + list) }
  }

  function RealnamesOf(world: map<Bytes, Loaded>): set<Bytes> {
    set s | s in world :: PathToRealname(s)
  }

  function Unloaded(world: map<Bytes, Loaded>, t: Table): set<Bytes> {
    RealnamesOf(world) - t.Keys
  }

  function NotPublic(t: Table): set<Bytes> {
    set n | n in t && !t[n].isPublic
  }

  lemma UnloadedSame(world: map<Bytes, Loaded>, t: Table, u: Table)
    requires t.Keys == u.Keys
    ensures Unloaded(world, t) == Unloaded(world, u)
  {
    hide PathToRealname;
  }

  lemma NotPublicUpdate(t: Table, n: Bytes, p: Pkg)
    requires n in t && (t[n].isPublic ==> p.isPublic)
    ensures NotPublic(t[n := p]) <= NotPublic(t)
    ensures NotPublic(t[n := p]) == NotPublic(t) <==> p.isPublic == t[n].isPublic
  {
    assert n in NotPublic(t) <==> !t[n].isPublic;
    assert n in NotPublic(t[n := p]) <==> !p.isPublic;
  }

  lemma UnloadedUpdate(world: map<Bytes, Loaded>, t: Table, s: Bytes, p: Pkg)
    requires s in world && PathToRealname(s) !in t
    ensures Unloaded(world, t[PathToRealname(s) := p]) < Unloaded(world, t)
  {
    hide PathToRealname;
    assert PathToRealname(s) in Unloaded(world, t);
  }

  // ---------- one spec ----------

  /** The package for a spec, if there is one and its version is the one asked for. */
  function Found(c: Config, spec: Spec): (r: Result<Loaded, ProcessError>)
    ensures r.Ok? ==> spec.name in c.world && r.value == c.world[spec.name]
  {
    if spec.name !in c.world then Err(NotFound(spec.name))
    else
      var data := c.world[spec.name];
      if spec.op != V.NoOp && !c.ignoreVersions && !V.ValidCompare(spec.op, V.Compare(data.version, spec.version))
      then Err(VersionMismatch(spec))
      else Ok(data)
  }

  /** A package in the world is found exactly if its version is what the spec asks for, or versions are ignored. */
  lemma FoundIff(c: Config, spec: Spec)
    ensures Found(c, spec)
      == if spec.name !in c.world then Err(NotFound(spec.name))
         else if c.ignoreVersions || V.Satisfies(spec.op, c.world[spec.name].version, spec.version)
         then Ok(c.world[spec.name])
         else Err(VersionMismatch(spec))
  {
    hide V.Compare, V.ValidCompare;
    if spec.name in c.world && spec.op != V.NoOp {
      V.ValidIsSatisfied(spec.op, c.world[spec.name].version, spec.version);
    }
  }

  function Marked(p: Pkg, direct: bool, isPublic: bool): Pkg {
    p.(direct := p.direct || direct, isPublic := p.isPublic || isPublic)
  }

  /** Packages are only ever loaded and promoted. */
  ghost predicate Progress(world: map<Bytes, Loaded>, s: State, t: State) {
    || Unloaded(world, t.table) < Unloaded(world, s.table)
    || (Unloaded(world, t.table) == Unloaded(world, s.table) && NotPublic(t.table) <= NotPublic(s.table))
  }

  lemma MarkedProgress(world: map<Bytes, Loaded>, s: State, name: Bytes, p: Pkg)
    requires name in s.table && (s.table[name].isPublic ==> p.isPublic)
    ensures var t := s.(table := s.table[name := p]);
      && Unloaded(world, t.table) == Unloaded(world, s.table)
      && NotPublic(t.table) <= NotPublic(s.table)
      && (p.isPublic && !s.table[name].isPublic ==> NotPublic(t.table) < NotPublic(s.table))
  {
    hide Unloaded, NotPublic;
    UnloadedSame(world, s.table, s.table[name := p]);
    NotPublicUpdate(s.table, name, p);
  }

  // ---------- the search ----------

  /** How a list of specs is walked: the frame's height in the stack, its depth, and the flags it hands on. */
  datatype Level = Level(height: nat, depth: nat, direct: bool, isPublic: bool)

  /**
   * Walks specs in order. A new package is loaded, then its private requires are walked, then its public ones, and then
   * it goes to the head of the list. A package that turns out public has its public requires walked again.
   */
  function Walk(c: Config, s: State, specs: seq<Spec>, l: Level): (r: Result<State, ProcessError>)
    ensures r.Ok? ==> Progress(c.world, s, r.value)
    decreases Unloaded(c.world, s.table), NotPublic(s.table), |specs|
  {
    hide Unloaded, NotPublic, Found, PathToRealname;
    if specs == [] then Ok(s)
    else
      var name := PathToRealname(specs[0].name);
      var walks := c.recursive && l.depth + 1 < c.maxdepth;
      if name in s.table then
        var p := s.table[name];
        MarkedProgress(c.world, s, name, Marked(p, l.direct, l.isPublic));
        var s1 := s.(table := s.table[name := Marked(p, l.direct, l.isPublic)]);
        if !(l.isPublic && !p.isPublic && walks) then Walk(c, s1, specs[1..], l)
        else if l.height >= STACK_SLOTS - 1 then Err(TooDeep(name))
        else
          match Walk(c, s1, p.data.requires_, Level(l.height + 1, l.depth + 1, false, l.isPublic))
          case Err(e) => Err(e)
          case Ok(s2) => Walk(c, s2, specs[1..], l)
      else
        match Found(c, specs[0])
        case Err(e) => Err(e)
        case Ok(data) =>
          var s1 := s.(table := s.table[name := Pkg(data, l.direct, l.isPublic)]);
          UnloadedUpdate(c.world, s.table, specs[0].name, s1.table[name]);
          if !walks then Walk(c, s1.Listed(name), specs[1..], l)
          else if l.height >= STACK_SLOTS - 2 then Err(TooDeep(name))
          else
            match Walk(c, s1, data.requiresPrivate, Level(l.height + 2, l.depth + 1, false, false))
            case Err(e) => Err(e)
            case Ok(s2) =>
              match Walk(c, s2, data.requires_, Level(l.height + 1, l.depth + 1, false, l.isPublic))
              case Err(e) => Err(e)
              case Ok(s3) => Walk(c, s3.Listed(name), specs[1..], l)
  }

  /** The traversal of the command line's packages. */
  function Walked(c: Config, specs: seq<Spec>): Result<Pkgs, ProcessError> {
    match Walk(c, State(map[], []), specs, Level(0, 0, true, true))
    case Err(e) => Err(e)
    case Ok(s) => Ok(Pkgs(s.table, s.list, |s.table|))
  }

  // ---------- what a stack of frames has left to do ----------

  function LevelOf(f: Frame, height: nat): Level {
    Level(height, f.depth, f.direct, f.isPublic)
  }

  function Settled(s: State, f: Frame): State {
    if f.newpkg.Some? then s.Listed(f.newpkg.value) else s
  }

  /** Each frame lists the package it holds, walks its specs, and leaves the rest to the frame below. */
  ghost function Rest(c: Config, s: State, frames: seq<Frame>): Result<State, ProcessError>
    decreases |frames|, 0
  {
    if frames == [] then Ok(s)
    else
      var k := |frames| - 1;
      RestOn(c, Walk(c, Settled(s, frames[k]), frames[k].specs, LevelOf(frames[k], k)), frames[..k])
  }

  ghost function RestOn(c: Config, r: Result<State, ProcessError>, frames: seq<Frame>): Result<State, ProcessError>
    decreases |frames|, 1
  {
    match r
    case Err(e) => Err(e)
    case Ok(s) => Rest(c, s, frames)
  }

  lemma RestPush(c: Config, s: State, below: seq<Frame>, f: Frame)
    ensures Rest(c, s, below + [f]) == RestOn(c, Walk(c, Settled(s, f), f.specs, LevelOf(f, |below|)), below)
  {
    hide Walk;
    assert (below + [f])[..|below|] == below;
  }

  lemma RestPrepend(c: Config, s: State, frames: seq<Frame>)
    requires frames != [] && frames[|frames| - 1].newpkg.Some?
    ensures var k := |frames| - 1;
      Rest(c, s, frames) == Rest(c, s.Listed(frames[k].newpkg.value), frames[k := frames[k].(newpkg := None)])
  {
    hide Walk;
    var k := |frames| - 1;
    assert frames[k := frames[k].(newpkg := None)][..k] == frames[..k];
  }

  lemma RestPop(c: Config, s: State, frames: seq<Frame>)
    requires frames != [] && frames[|frames| - 1].newpkg == None && frames[|frames| - 1].specs == []
    ensures Rest(c, s, frames) == Rest(c, s, frames[..|frames| - 1])
  {
    WalkNothing(c, s, LevelOf(frames[|frames| - 1], |frames| - 1));
    hide Walk;
  }

  lemma RestNothing(c: Config, s: State)
    ensures Rest(c, s, []) == Ok(s)
  {
  }

  lemma WalkNothing(c: Config, s: State, l: Level)
    ensures Walk(c, s, [], l) == Ok(s)
  {
  }

  // ---------- the top frame's next spec ----------

  predicate AtSpec(frames: seq<Frame>) {
    && frames != []
    && var f := frames[|frames| - 1]; f.newpkg == None && f.specs != []
  }

  function NextName(frames: seq<Frame>): Bytes
    requires AtSpec(frames)
  {
    PathToRealname(frames[|frames| - 1].specs[0].name)
  }

  /** The top frame has moved on to its next spec, maybe holding a package. */
  function Advanced(frames: seq<Frame>, newpkg: Option<Bytes>): seq<Frame>
    requires AtSpec(frames)
  {
    var k := |frames| - 1;
    frames[k := frames[k].(specs := frames[k].specs[1..], newpkg := newpkg)]
  }

  predicate Walks(c: Config, depth: nat) { c.recursive && depth + 1 < c.maxdepth }

  /** The next package is promoted, and its requires must be walked again. */
  predicate PromotesNext(c: Config, s: State, frames: seq<Frame>)
    requires AtSpec(frames) && NextName(frames) in s.table
  {
    var f := frames[|frames| - 1];
    f.isPublic && !s.table[NextName(frames)].isPublic && Walks(c, f.depth)
  }

  function VisitedFrames(c: Config, s: State, frames: seq<Frame>): seq<Frame>
    requires AtSpec(frames) && NextName(frames) in s.table
  {
    var f := frames[|frames| - 1];
    Advanced(frames, None)
    + if PromotesNext(c, s, frames)
      then [Frame(s.table[NextName(frames)].data.requires_, None, f.depth + 1, false, f.isPublic)]
      else []
  }

  /** The state with the next package's flags grown. */
  function VisitedState(s: State, frames: seq<Frame>): State
    requires AtSpec(frames) && NextName(frames) in s.table
  {
    var f, name := frames[|frames| - 1], NextName(frames);
    s.(table := s.table[name := Marked(s.table[name], f.direct, f.isPublic)])
  }

  function Entered(frames: seq<Frame>, data: Loaded): Pkg
    requires AtSpec(frames)
  {
    Pkg(data, frames[|frames| - 1].direct, frames[|frames| - 1].isPublic)
  }

  function EnteredFrames(c: Config, frames: seq<Frame>, data: Loaded): seq<Frame>
    requires AtSpec(frames)
  {
    var f := frames[|frames| - 1];
    Advanced(frames, Some(NextName(frames)))
    + if Walks(c, f.depth)
      then [Frame(data.requires_, None, f.depth + 1, false, f.isPublic),
            Frame(data.requiresPrivate, None, f.depth + 1, false, false)]
      else []
  }

  function EnteredState(s: State, frames: seq<Frame>, data: Loaded): State
    requires AtSpec(frames)
  {
    s.(table := s.table[NextName(frames) := Entered(frames, data)])
  }

  /** The rest of the top frame, after a package it may hold. */
  lemma RestAdvanced(c: Config, s: State, frames: seq<Frame>, newpkg: Option<Bytes>)
    requires AtSpec(frames)
    ensures var k := |frames| - 1; var f := frames[k];
      var t := if newpkg.Some? then s.Listed(newpkg.value) else s;
      Rest(c, s, Advanced(frames, newpkg)) == RestOn(c, Walk(c, t, f.specs[1..], LevelOf(f, k)), frames[..k])
  {
    hide Walk;
    var k := |frames| - 1;
    var g := frames[k].(specs := frames[k].specs[1..], newpkg := newpkg);
    assert Advanced(frames, newpkg) == frames[..k] + [g];
    RestPush(c, s, frames[..k], g);
  }

  lemma RestTop(c: Config, s: State, frames: seq<Frame>)
    requires AtSpec(frames)
    ensures var k := |frames| - 1; var f := frames[k];
      Rest(c, s, frames) == RestOn(c, Walk(c, s, f.specs, LevelOf(f, k)), frames[..k])
  {
    hide Walk;
  }

  /** Visiting a loaded package, and pushing its requires if it is promoted, leaves the same to do. */
  lemma RestVisit(c: Config, s: State, frames: seq<Frame>)
    requires AtSpec(frames) && NextName(frames) in s.table
    ensures Rest(c, s, frames)
      == if PromotesNext(c, s, frames) && |frames| >= STACK_SLOTS then Err(TooDeep(NextName(frames)))
         else Rest(c, VisitedState(s, frames), VisitedFrames(c, s, frames))
  {
    hide PathToRealname, Marked, Rest;
    var k := |frames| - 1;
    var t := VisitedState(s, frames);
    RestTop(c, s, frames);
    if !PromotesNext(c, s, frames) {
      assert VisitedFrames(c, s, frames) == Advanced(frames, None);
      RestAdvanced(c, t, frames, None);
    } else if |frames| < STACK_SLOTS {
      RestVisitPushed(c, s, t, frames);
    }
  }

  lemma RestVisitPushed(c: Config, s: State, t: State, frames: seq<Frame>)
    requires AtSpec(frames) && NextName(frames) in s.table && PromotesNext(c, s, frames)
    ensures var k := |frames| - 1; var f := frames[k];
      Rest(c, t, VisitedFrames(c, s, frames))
      == match Walk(c, t, s.table[NextName(frames)].data.requires_, Level(k + 1, f.depth + 1, false, f.isPublic))
         case Err(e) => Err(e)
         case Ok(s2) => RestOn(c, Walk(c, s2, f.specs[1..], LevelOf(f, k)), frames[..k])
  {
    hide PathToRealname, Rest, Walk;
    var k := |frames| - 1;
    var f := frames[k];
    var g := Frame(s.table[NextName(frames)].data.requires_, None, f.depth + 1, false, f.isPublic);
    RestPush(c, t, Advanced(frames, None), g);
    var r := Walk(c, t, g.specs, LevelOf(g, k + 1));
    if r.Ok? {
      RestAdvanced(c, r.value, frames, None);
    }
  }

  /** A package that was entered: its private requires, two frames higher, its requires, one higher, and the rest. */
  ghost function WalkEntered(c: Config, s: State, name: Bytes, data: Loaded, rest: seq<Spec>, l: Level)
    : Result<State, ProcessError>
  {
    match Walk(c, s, data.requiresPrivate, Level(l.height + 2, l.depth + 1, false, false))
    case Err(e) => Err(e)
    case Ok(s2) =>
      match Walk(c, s2, data.requires_, Level(l.height + 1, l.depth + 1, false, l.isPublic))
      case Err(e) => Err(e)
      case Ok(s3) => Walk(c, s3.Listed(name), rest, l)
  }

  /** The search at a package that is not loaded. */
  lemma WalkLoads(c: Config, s: State, specs: seq<Spec>, l: Level)
    requires specs != [] && PathToRealname(specs[0].name) !in s.table
    ensures var name := PathToRealname(specs[0].name); var found := Found(c, specs[0]);
      && (found.Err? ==> Walk(c, s, specs, l) == Err(found.error))
      && (found.Ok? ==>
            var t := s.(table := s.table[name := Pkg(found.value, l.direct, l.isPublic)]);
            Walk(c, s, specs, l)
            == if !Walks(c, l.depth) then Walk(c, t.Listed(name), specs[1..], l)
               else if l.height >= STACK_SLOTS - 2 then Err(TooDeep(name))
               else WalkEntered(c, t, name, found.value, specs[1..], l))
  {
    hide PathToRealname, Found, Progress, Unloaded, NotPublic;
  }

  /** Loading a package, and pushing both its lists, leaves the same to do. */
  lemma RestLoad(c: Config, s: State, frames: seq<Frame>)
    requires AtSpec(frames) && NextName(frames) !in s.table
    ensures var f := frames[|frames| - 1]; var found := Found(c, f.specs[0]);
      && (found.Err? ==> Rest(c, s, frames) == Err(found.error))
      && (found.Ok? ==>
            Rest(c, s, frames)
            == if Walks(c, f.depth) && |frames| >= STACK_SLOTS - 1 then Err(TooDeep(NextName(frames)))
               else Rest(c, EnteredState(s, frames, found.value), EnteredFrames(c, frames, found.value)))
  {
    hide PathToRealname, Found, Rest, Walk, WalkEntered, Walks;
    var k := |frames| - 1;
    var f, name := frames[k], NextName(frames);
    RestTop(c, s, frames);
    WalkLoads(c, s, f.specs, LevelOf(f, k));
    var found := Found(c, f.specs[0]);
    if found.Ok? {
      var t := EnteredState(s, frames, found.value);
      if !Walks(c, f.depth) {
        assert EnteredFrames(c, frames, found.value) == Advanced(frames, Some(name));
        RestAdvanced(c, t, frames, Some(name));
      } else if |frames| < STACK_SLOTS - 1 {
        RestLoadPushed(c, t, frames, found.value);
      }
    }
  }

  lemma RestLoadPushed(c: Config, t: State, frames: seq<Frame>, data: Loaded)
    requires AtSpec(frames) && Walks(c, frames[|frames| - 1].depth)
    ensures var k := |frames| - 1; var f := frames[k];
      Rest(c, t, EnteredFrames(c, frames, data))
      == RestOn(c, WalkEntered(c, t, NextName(frames), data, f.specs[1..], LevelOf(f, k)), frames[..k])
  {
    hide PathToRealname, Rest, Walk;
    var k := |frames| - 1;
    var f, name := frames[k], NextName(frames);
    var below := Advanced(frames, Some(name));
    var g := Frame(data.requires_, None, f.depth + 1, false, f.isPublic);
    var h := Frame(data.requiresPrivate, None, f.depth + 1, false, false);
    assert EnteredFrames(c, frames, data) == below + [g] + [h];
    RestPush(c, t, below + [g], h);
    var r := Walk(c, t, h.specs, LevelOf(h, k + 2));
    if r.Ok? {
      RestPush(c, r.value, below, g);
      var r2 := Walk(c, r.value, g.specs, LevelOf(g, k + 1));
      if r2.Ok? {
        RestAdvanced(c, r2.value, frames, Some(name));
      }
    }
  }

  lemma RestStart(c: Config, specs: seq<Spec>)
    ensures var f := Frame(specs, None, 0, true, true);
      Rest(c, State(map[], []), [f]) == Walk(c, State(map[], []), specs, Level(0, 0, true, true))
  {
    hide Walk;
    var s, f := State(map[], []), Frame(specs, None, 0, true, true);
    RestPush(c, s, [], f);
    assert [] + [f] == [f];
  }

  // ---------- every round comes closer to the end ----------

  /** Fewer packages to load, or fewer to promote, or less work in the frames. */
  ghost predicate Closer(world: map<Bytes, Loaded>, t: Table, frames: seq<Frame>, u: Table, next: seq<Frame>) {
    || Unloaded(world, u) < Unloaded(world, t)
    || (&& Unloaded(world, u) == Unloaded(world, t)
        && (NotPublic(u) < NotPublic(t) || (NotPublic(u) == NotPublic(t) && Work(next) < Work(frames))))
  }

  function Work(frames: seq<Frame>): nat {
    if frames == [] then 0 else Work(frames[..|frames| - 1]) + |frames[|frames| - 1].specs| + 1
  }

  lemma WorkTop(frames: seq<Frame>, f: Frame)
    requires frames != []
    ensures Work(frames[|frames| - 1 := f])
         == Work(frames) - |frames[|frames| - 1].specs| + |f.specs|
    ensures Work(frames[..|frames| - 1]) < Work(frames)
  {
    assert frames[|frames| - 1 := f][..|frames| - 1] == frames[..|frames| - 1];
  }

  lemma WorkAdvanced(frames: seq<Frame>)
    requires AtSpec(frames)
    ensures Work(Advanced(frames, None)) < Work(frames)
  {
    WorkTop(frames, Advanced(frames, None)[|frames| - 1]);
  }

  predicate Holding(frames: seq<Frame>) {
    frames != [] && frames[|frames| - 1].newpkg.Some?
  }

  lemma VisitCloser(c: Config, s: State, frames: seq<Frame>)
    requires AtSpec(frames) && NextName(frames) in s.table
    ensures Closer(c.world, s.table, frames, VisitedState(s, frames).table, VisitedFrames(c, s, frames))
  {
    hide PathToRealname, Unloaded, NotPublic, Work;
    var n := NextName(frames);
    NotPublicUpdate(s.table, n, VisitedState(s, frames).table[n]);
    UnloadedSame(c.world, s.table, VisitedState(s, frames).table);
    WorkAdvanced(frames);
    assert Advanced(frames, None) + [] == Advanced(frames, None);
  }

  lemma LoadCloser(c: Config, s: State, frames: seq<Frame>, data: Loaded)
    requires AtSpec(frames) && NextName(frames) !in s.table && Found(c, frames[|frames| - 1].specs[0]) == Ok(data)
    ensures Closer(c.world, s.table, frames, EnteredState(s, frames, data).table, EnteredFrames(c, frames, data))
  {
    hide PathToRealname, Unloaded, NotPublic, Work, Found;
    UnloadedUpdate(c.world, s.table, frames[|frames| - 1].specs[0].name, Entered(frames, data));
  }

  lemma VisitHeight(c: Config, s: State, frames: seq<Frame>)
    requires AtSpec(frames) && NextName(frames) in s.table
    ensures |VisitedFrames(c, s, frames)| == |frames| + if PromotesNext(c, s, frames) then 1 else 0
  {
  }

  lemma LoadHeight(c: Config, frames: seq<Frame>, data: Loaded)
    requires AtSpec(frames)
    ensures |EnteredFrames(c, frames, data)| == |frames| + if Walks(c, frames[|frames| - 1].depth) then 2 else 0
  {
  }
}
