/** Dependency traversal on an explicit stack of 256 frames. */
module Process {
  import opened Bytes
  import opened Packages
  import opened DepthFirst
  import opened Closure
  import V = Version

  class Processor {
    const conf: Config

    var table: Table
    var list: seq<Bytes>
    var count: nat

    const stack: array<Frame>
    var top: int

    constructor (conf: Config)
      ensures Valid() && fresh(stack) && this.conf == conf
    {
      this.conf := conf;
      stack := new Frame[STACK_SLOTS](_ => Frame([], None, 0, false, false));
    }

    /** No slot holds a package: pushes rely on this, since they leave `newpkg` alone. */
    ghost predicate Valid()
      reads stack
    {
      && stack.Length == STACK_SLOTS
      && forall i :: 0 <= i < stack.Length ==> stack[i].newpkg == None
    }

    ghost predicate ClearAbove()
      reads this, stack
    {
      && stack.Length == STACK_SLOTS && -1 <= top < STACK_SLOTS
      && forall i :: top < i < stack.Length ==> stack[i].newpkg == None
    }

    /** The loop invariant: slots above the live frames hold no package, and what the live frames have left to do
        yields the result of the whole search. */
    ghost predicate Running(whole: Result<State, ProcessError>)
      reads this, stack
    {
      ClearAbove() && Rest(conf, State(table, list), stack[..top + 1]) == whole && count == |table|
    }

    /** The top frame's package has had its dependencies walked, and goes to the head of the list. */
    method Prepend(ghost whole: Result<State, ProcessError>)
      requires Running(whole) && top >= 0 && stack[top].newpkg.Some?
      modifies this`list, stack
      ensures Running(whole)
      ensures list == [old(stack[top].newpkg.value)] + old(list)
      ensures stack[..top + 1] == old(stack[..top + 1])[top := old(stack[top]).(newpkg := None)]
    {
      hide Rest;
      RestPrepend(conf, State(table, list), stack[..top + 1]);
      list := [stack[top].newpkg.value] + list;
      stack[top] := stack[top].(newpkg := None);
      assert stack[..top + 1] == old(stack[..top + 1])[top := stack[top]];
    }

    method Pop(ghost whole: Result<State, ProcessError>)
      requires Running(whole) && top >= 0 && stack[top].newpkg == None && stack[top].specs == []
      modifies this`top
      ensures Running(whole) && top == old(top) - 1
    {
      hide Rest;
      RestPop(conf, State(table, list), stack[..top + 1]);
      top := top - 1;
      assert stack[..top + 1] == old(stack[..top + 1])[..top + 1];
    }

    /** Takes the next spec off the top frame's list. */
    method Advance(newpkg: Option<Bytes>)
      requires ClearAbove() && top >= 0 && AtSpec(stack[..top + 1])
      modifies stack
      ensures ClearAbove() && stack[..top + 1] == Advanced(old(stack[..top + 1]), newpkg)
    {
      stack[top] := stack[top].(specs := stack[top].specs[1..], newpkg := newpkg);
    }

    /** A push sets all of the slot but `newpkg`, which is clear already. */
    method Push(specs: seq<Spec>, depth: nat, isPublic: bool)
      requires ClearAbove() && top < STACK_SLOTS - 1
      modifies this`top, stack
      ensures ClearAbove() && top == old(top) + 1
      ensures stack[..top + 1] == old(stack[..top + 1]) + [Frame(specs, None, depth, false, isPublic)]
    {
      top := top + 1;
      stack[top] := stack[top].(specs := specs, depth := depth, direct := false, isPublic := isPublic);
      assert stack[..top + 1] == old(stack[..top + 1]) + [stack[top]];
    }

    /** Private requires go above the public ones, so they are walked first. */
    method PushBoth(data: Loaded, depth: nat, isPublic: bool)
      requires ClearAbove() && top < STACK_SLOTS - 2
      modifies this`top, stack
      ensures ClearAbove() && top == old(top) + 2
      ensures stack[..top + 1] == old(stack[..top + 1])
        + [Frame(data.requires_, None, depth, false, isPublic), Frame(data.requiresPrivate, None, depth, false, false)]
    {
      Push(data.requires_, depth, isPublic);
      Push(data.requiresPrivate, depth, false);
    }

    ghost function Here(): State
      reads this
    {
      State(table, list)
    }

    ghost function Live(): seq<Frame>
      requires ClearAbove()
      reads this, stack
    {
      stack[..top + 1]
    }

    /** The next package is loaded already; if it turns out public, its requires are walked again. */
    method Visit(ghost whole: Result<State, ProcessError>) returns (e: Option<ProcessError>)
      requires Running(whole) && top >= 0 && AtSpec(Live()) && NextName(Live()) in table
      modifies this`table, this`top, stack
      ensures e.None? ==> Running(whole)
      ensures e.None? ==> Here() == VisitedState(old(Here()), old(Live()))
      ensures e.None? ==> Live() == VisitedFrames(conf, old(Here()), old(Live()))
      ensures e.Some? ==> whole == Err(e.value)
    {
      hide PathToRealname, Marked, Advanced, Rest;
      ghost var s, frames := Here(), Live();
      RestVisit(conf, s, frames);
      var f := stack[top];
      var name := Realname(f.specs[0].name);
      var p := table[name];
      Advance(None);
      table := table[name := Marked(p, f.direct, f.isPublic)];
      if f.isPublic && !p.isPublic && conf.recursive && f.depth + 1 < conf.maxdepth {
        if top >= STACK_SLOTS - 1 {
          return Some(TooDeep(name));
        }
        Push(p.data.requires_, f.depth + 1, f.isPublic);
      }
      assert Live() == VisitedFrames(conf, s, frames);
      e := None;
    }

    /** Finds the package for a spec and checks the version it asks for. */
    method Find(spec: Spec) returns (r: Result<Loaded, ProcessError>)
      ensures r == Found(conf, spec)
    {
      if spec.name !in conf.world {
        return Err(NotFound(spec.name));
      }
      var data := conf.world[spec.name];
      if spec.op != V.NoOp && !conf.ignoreVersions {
        var cmp := V.CompareVersions(data.version, spec.version);
        if !V.ValidCompare(spec.op, cmp) {
          return Err(VersionMismatch(spec));
        }
      }
      r := Ok(data);
    }

    /** The next package is found, checked and entered; it waits here while its requires are walked. */
    method Load(ghost whole: Result<State, ProcessError>) returns (e: Option<ProcessError>)
      requires Running(whole) && top >= 0 && AtSpec(Live()) && NextName(Live()) !in table
      modifies this`table, this`count, this`top, stack
      ensures e.None? ==> Running(whole) && count == old(count) + 1
      ensures e.None? ==> var found := Found(conf, old(stack[top].specs[0]));
        && found.Ok?
        && Here() == EnteredState(old(Here()), old(Live()), found.value)
        && Live() == EnteredFrames(conf, old(Live()), found.value)
      ensures e.Some? ==> whole == Err(e.value)
    {
      hide PathToRealname, Advanced, Rest, Found;
      ghost var s, frames := Here(), Live();
      RestLoad(conf, s, frames);
      var f := stack[top];
      var name := Realname(f.specs[0].name);
      var found := Find(f.specs[0]);
      if found.Err? {
        return Some(found.error);
      }
      var data := found.value;
      Enter(f, name, data);
      if conf.recursive && f.depth + 1 < conf.maxdepth {
        if top >= STACK_SLOTS - 2 {
          return Some(TooDeep(name));
        }
        PushBoth(data, f.depth + 1, f.isPublic);
      }
      assert Live() == EnteredFrames(conf, frames, data);
      e := None;
    }

    /** The package enters the table with the top frame's flags, and that frame holds it. */
    method Enter(f: Frame, name: Bytes, data: Loaded)
      requires ClearAbove() && top >= 0 && AtSpec(Live()) && f == stack[top] && name == NextName(Live())
      modifies this`table, this`count, stack
      ensures ClearAbove() && count == old(count) + 1
      ensures Live() == Advanced(old(Live()), Some(name))
      ensures Here() == EnteredState(old(Here()), old(Live()), data)
    {
      hide PathToRealname, Advanced;
      Advance(Some(name));
      table := table[name := Pkg(data, f.direct, f.isPublic)];
      count := count + 1;
    }

    /** The top frame's next spec is visited or loaded. */
    method Follow(ghost whole: Result<State, ProcessError>) returns (e: Option<ProcessError>)
      requires Running(whole) && top >= 0 && AtSpec(Live())
      modifies this`table, this`count, this`top, stack
      ensures e.None? ==> Running(whole)
      ensures e.None? ==> Closer(conf.world, old(table), old(Live()), table, Live())
      ensures e.Some? ==> whole == Err(e.value)
    {
      hide NextName, Rest, Found, VisitedFrames, VisitedState, EnteredFrames, EnteredState, Closer;
      ghost var s, frames := Here(), Live();
      if NextName(stack[..top + 1]) in table {
        VisitCloser(conf, s, frames);
        e := Visit(whole);
      } else {
        if Found(conf, stack[top].specs[0]).Ok? {
          LoadCloser(conf, s, frames, Found(conf, stack[top].specs[0]).value);
        }
        e := Load(whole);
      }
    }

    /** One round: the top frame lists its package, and is popped, or its next spec is visited or loaded. */
    method Step(ghost whole: Result<State, ProcessError>) returns (e: Option<ProcessError>)
      requires Running(whole) && top >= 0
      modifies this`table, this`list, this`count, this`top, stack
      ensures e.None? ==> Running(whole)
      ensures e.None? ==> Closer(conf.world, old(table), old(Live()), table, Live())
      ensures e.Some? ==> whole == Err(e.value)
    {
      hide Unloaded, NotPublic, Work, Rest;
      ghost var before := Live();
      if stack[top].newpkg.Some? {
        Prepend(whole);
      }
      ghost var frames := Live();
      assert frames == before[top := stack[top]];
      WorkTop(before, stack[top]);
      WorkTop(frames, stack[top]);
      if stack[top].specs == [] {
        Pop(whole);
        assert Live() == frames[..top + 1];
        e := None;
      } else {
        e := Follow(whole);
      }
    }

    /** Walks the dependency graph from the command line's packages, as the recursive search does. */
    method Run(specs: seq<Spec>) returns (r: Result<Pkgs, ProcessError>)
      requires Valid()
      modifies this, stack
      ensures r == Walked(conf, specs)
      ensures r.Ok? ==> Valid() && Finished(conf, specs, r.value)
      ensures r.Err? ==> Caused(conf, specs, r.error)
    {
      hide Unloaded, NotPublic, Finished, Caused, Work, Walk, Rest;
      table, list, count, top := map[], [], 0, 0;
      stack[0] := Frame(specs, None, 0, true, true);
      assert stack[..top + 1] == [stack[0]];
      RestStart(conf, specs);
      SearchExplained(conf, specs);
      ghost var whole := Walk(conf, State(map[], []), specs, Level(0, 0, true, true));

      while top >= 0
        invariant Running(whole)
        decreases Unloaded(conf.world, table), NotPublic(table), Work(stack[..top + 1])
      {
        var e := Step(whole);
        if e.Some? {
          return Err(e.value);
        }
      }
      RestNothing(conf, State(table, list));
      r := Ok(Pkgs(table, list, count));
    }
  }
}
