/** The invariant of the dependency traversal, and the steps that keep it. */
module Traversal {
  import opened Bytes
  import opened Graph

  /** A loaded package: the names its two lists ask for, and its flags. */
  datatype Node = Node(requires_: seq<Bytes>, requiresPrivate: seq<Bytes>, direct: bool, isPublic: bool)

  type Table = map<Bytes, Node>

  /** A stack frame: the names still to visit, and the package waiting for its dependencies. */
  datatype Frame = Frame(names: seq<Bytes>, newpkg: Option<Bytes>, direct: bool, isPublic: bool)

  /** Which list a frame walks: the command line's, or one of a package's. */
  datatype Owner = Root | Requires(n: Bytes, again: bool) | Private(n: Bytes)

  datatype Snapshot = Snapshot(table: Table, list: seq<Bytes>, frames: seq<Frame>, own: seq<Owner>)

  predicate Depends(p: Node, d: Bytes) {
    d in p.requires_ || d in p.requiresPrivate
  }

  function Deps(p: Node): set<Bytes> {
    set d | d in p.requires_ + p.requiresPrivate
  }

  /** Every Requires and Requires.private edge. */
  function Edges(t: Table): Graph {
    map n | n in t :: Deps(t[n])
  }

  /** Requires edges only. */
  function PublicEdges(t: Table): Graph {
    map n | n in t :: set d | d in t[n].requires_
  }

  function Names(names: seq<Bytes>): set<Bytes> {
    set d | d in names
  }

  // ---------- the steps, on snapshots ----------

  /** The top frame's package has had its dependencies walked: it goes to the head of the list. */
  function AfterPrepend(st: Snapshot): Snapshot
    requires st.frames != [] && st.frames[|st.frames| - 1].newpkg.Some?
  {
    var k := |st.frames| - 1;
    st.(list := [st.frames[k].newpkg.value] + st.list, frames := st.frames[k := st.frames[k].(newpkg := None)])
  }

  function AfterPop(st: Snapshot): Snapshot
    requires st.frames != [] && |st.own| == |st.frames|
  {
    st.(frames := st.frames[..|st.frames| - 1], own := st.own[..|st.own| - 1])
  }

  predicate AtSpec(st: Snapshot) {
    && st.frames != [] && |st.own| == |st.frames|
    && var f := st.frames[|st.frames| - 1];
    && f.names != [] && f.newpkg == None
  }

  function NextName(st: Snapshot): Bytes
    requires AtSpec(st)
  {
    st.frames[|st.frames| - 1].names[0]
  }

  /** The top frame is public and the next package was so far only loaded privately. */
  predicate Promotes(st: Snapshot)
    requires AtSpec(st) && NextName(st) in st.table
  {
    st.frames[|st.frames| - 1].isPublic && !st.table[NextName(st)].isPublic
  }

  /** The next package is loaded already: its flags grow, and a promotion re-walks its requires. */
  function AfterVisit(st: Snapshot, push: bool): Snapshot
    requires AtSpec(st) && NextName(st) in st.table
    requires push ==> Promotes(st)
  {
    var k := |st.frames| - 1;
    var f := st.frames[k];
    var n := NextName(st);
    var p := st.table[n];
    var below := st.frames[k := f.(names := f.names[1..])];
    Snapshot(
      st.table[n := p.(direct := p.direct || f.direct, isPublic := p.isPublic || f.isPublic)],
      st.list,
      if push then below + [Frame(p.requires_, None, false, f.isPublic)] else below,
      if push then st.own + [Requires(n, true)] else st.own)
  }

  /** The next package is loaded: it waits in the frame while its requires are walked, private ones first. */
  function AfterLoad(st: Snapshot, data: Node, push: bool): Snapshot
    requires AtSpec(st)
  {
    var k := |st.frames| - 1;
    var f := st.frames[k];
    var n := NextName(st);
    var below := st.frames[k := f.(names := f.names[1..], newpkg := Some(n))];
    Snapshot(
      st.table[n := data.(direct := f.direct, isPublic := f.isPublic)],
      st.list,
      if push
      then below + [Frame(data.requires_, None, false, f.isPublic),
                    Frame(data.requiresPrivate, None, false, false)]
      else below,
      if push then st.own + [Requires(n, false), Private(n)] else st.own)
  }

  // ---------- the invariant ----------

  predicate Owns(roots: seq<Bytes>, t: Table, o: Owner, d: Bytes) {
    match o
    case Root => d in roots
    case Requires(n, _) => n in t && d in t[n].requires_
    case Private(n) => n in t && d in t[n].requiresPrivate
  }

  /** Frames walk their owner's list; public frames are at the bottom and belong to public packages. */
  ghost predicate Shaped(roots: seq<Bytes>, st: Snapshot) {
    && |st.frames| == |st.own|
    && (forall i :: 0 <= i < |st.own| ==> (st.own[i].Root? <==> i == 0) && (st.frames[i].direct <==> i == 0))
    && (forall i :: 0 <= i < |st.own| ==> st.own[i].Root? || st.own[i].n in st.table)
    && (forall i, d :: 0 <= i < |st.own| && d in st.frames[i].names ==> Owns(roots, st.table, st.own[i], d))
    && (forall i :: 0 <= i < |st.own| && st.frames[i].isPublic && i > 0 ==>
          st.own[i].Requires? && st.table[st.own[i].n].isPublic)
    && (forall i, j :: 0 <= i < j < |st.own| && st.frames[j].isPublic ==> st.frames[i].isPublic)
    && (st.frames != [] ==> st.frames[0].isPublic)
  }

  ghost predicate Distinct(s: seq<Bytes>) {
    forall i, j :: 0 <= i < j < |s| ==> s[i] != s[j]
  }

  ghost predicate Holds(frames: seq<Frame>, i: int, n: Bytes) {
    0 <= i < |frames| && frames[i].newpkg == Some(n)
  }

  /** The packages held by some frame. */
  function Waiting(frames: seq<Frame>): set<Bytes> {
    if frames == [] then {}
    else
      var f := frames[|frames| - 1];
      Waiting(frames[..|frames| - 1]) + if f.newpkg.Some? then {f.newpkg.value} else {}
  }

  function Held(frames: seq<Frame>): nat {
    if frames == [] then 0
    else Held(frames[..|frames| - 1]) + if frames[|frames| - 1].newpkg.Some? then 1 else 0
  }

  /** Every package is in the list or waits in exactly one frame. */
  ghost predicate Conserved(st: Snapshot) {
    && Distinct(st.list)
    && (forall n :: n in st.list ==> n in st.table)
    && (forall i, n :: Holds(st.frames, i, n) ==> n in st.table && n !in st.list)
    && (forall i, j, n :: Holds(st.frames, i, n) && Holds(st.frames, j, n) ==> i == j)
    && (forall n :: n in st.table ==> n in st.list || n in Waiting(st.frames))
    && |st.table| == |st.list| + Held(st.frames)
  }

  /** A waiting package reaches the owner of every frame above it, and is what its own frame asked for. */
  ghost predicate Linked(roots: seq<Bytes>, st: Snapshot)
    requires Shaped(roots, st)
  {
    && (forall j, k, n :: Holds(st.frames, j, n) && j < k < |st.frames| ==> Reaches(Edges(st.table), n, st.own[k].n))
    && (forall k, n :: Holds(st.frames, k, n) ==> Owns(roots, st.table, st.own[k], n))
    && (forall k, n :: Holds(st.frames, k, n) && n in st.table && st.frames[k].isPublic ==> st.table[n].isPublic)
  }

  /** The package is reachable from the command line, and its flags are justified. */
  ghost predicate Justified(roots: seq<Bytes>, t: Table, n: Bytes)
    requires n in t
  {
    && ReachedFrom(Edges(t), Names(roots), n)
    && (t[n].isPublic ==> ReachedFrom(PublicEdges(t), Names(roots), n))
    && (t[n].direct ==> n in roots)
  }

  ghost predicate Reached(roots: seq<Bytes>, t: Table) {
    forall n {:trigger Justified(roots, t, n)} :: n in t ==> Justified(roots, t, n)
  }

  ghost predicate PublicPending(st: Snapshot, i: int, n: Bytes, d: Bytes) {
    && 0 <= i < |st.frames| && |st.own| == |st.frames|
    && st.own[i].Requires? && st.own[i].n == n && st.frames[i].isPublic && d in st.frames[i].names
  }

  ghost predicate DepPending(st: Snapshot, i: int, n: Bytes, d: Bytes) {
    && 0 <= i < |st.frames| && |st.own| == |st.frames|
    && !st.own[i].Root? && st.own[i].n == n && d in st.frames[i].names
  }

  predicate PublicIn(t: Table, d: Bytes) {
    d in t && t[d].isPublic
  }

  /** The command line's names are marked, or still to come in the bottom frame. */
  ghost predicate RootsPending(roots: seq<Bytes>, st: Snapshot) {
    forall d :: d in roots ==>
      (PublicIn(st.table, d) && st.table[d].direct) || (st.frames != [] && d in st.frames[0].names)
  }

  /** What a public package requires is public, or still to come in a public frame. */
  ghost predicate PublicsPending(st: Snapshot) {
    forall n, d :: PublicIn(st.table, n) && d in st.table[n].requires_ ==>
      PublicIn(st.table, d) || exists i :: PublicPending(st, i, n, d)
  }

  /** What a waiting package depends on is loaded, or still to come in a frame above it. */
  ghost predicate DepsPending(st: Snapshot) {
    forall j, n, d :: Holds(st.frames, j, n) && n in st.table && Depends(st.table[n], d) ==>
      d in st.table || exists i :: i > j && DepPending(st, i, n, d)
  }

  ghost predicate Before(list: seq<Bytes>, p: Bytes, q: Bytes) {
    exists i, j :: 0 <= i < j < |list| && list[i] == p && list[j] == q
  }

  /** A listed package has its dependencies loaded, and behind it unless they lead back to it. */
  ghost predicate Ordered(t: Table, list: seq<Bytes>) {
    forall p, d :: p in list && p in t && Depends(t[p], d) ==>
      d in t && (Before(list, p, d) || Reaches(Edges(t), d, p))
  }

  /** Frames that re-walk a package only ever meet loaded packages. */
  ghost predicate AgainLoaded(t: Table, own: seq<Owner>) {
    forall o, d :: o in own && o.Requires? && o.again && o.n in t && Depends(t[o.n], d) ==> d in t
  }

  function AgainCount(own: seq<Owner>): nat {
    if own == [] then 0
    else
      var o := own[|own| - 1];
      AgainCount(own[..|own| - 1]) + if o.Requires? && o.again then 1 else 0
  }

  function PublicListed(t: Table, list: seq<Bytes>): set<Bytes> {
    set n | n in list && PublicIn(t, n)
  }

  /** A frame's height is paid for: two frames for each package waiting below, one for each promotion. */
  ghost predicate Paid(frames: seq<Frame>, own: seq<Owner>)
    requires |own| == |frames|
  {
    forall i :: 0 <= i < |frames| ==> i <= 2 * Held(frames[..i]) + AgainCount(own[..i + 1])
  }

  ghost predicate Bounded(st: Snapshot)
    requires |st.own| == |st.frames|
  {
    Paid(st.frames, st.own) && AgainCount(st.own) <= |PublicListed(st.table, st.list)|
  }

  /** `full`: the traversal is recursive and no depth limit cuts it short. */
  ghost predicate Inv(roots: seq<Bytes>, full: bool, st: Snapshot) {
    && Shaped(roots, st)
    && Conserved(st)
    && Bounded(st)
    && Linked(roots, st)
    && Reached(roots, st.table)
    && RootsPending(roots, st)
    && (full ==> PublicsPending(st) && DepsPending(st) && Ordered(st.table, st.list) && AgainLoaded(st.table, st.own))
  }

  // ---------- packages held by frames ----------

  lemma HeldUpdate(frames: seq<Frame>, f: Frame)
    requires frames != []
    ensures var k := |frames| - 1;
      Held(frames[k := f])
      == Held(frames) - (if frames[k].newpkg.Some? then 1 else 0) + (if f.newpkg.Some? then 1 else 0)
  {
    var k := |frames| - 1;
    assert frames[k := f][..k] == frames[..k];
  }

  lemma {:induction false} WaitingHolds(frames: seq<Frame>, n: Bytes)
    ensures n in Waiting(frames) <==> exists i :: Holds(frames, i, n)
  {
    if frames != [] {
      var k := |frames| - 1;
      WaitingHolds(frames[..k], n);
      forall i ensures Holds(frames, i, n) <==> Holds(frames[..k], i, n) || (i == k && frames[k].newpkg == Some(n)) {}
      if frames[k].newpkg == Some(n) {
        assert Holds(frames, k, n);
      }
    }
  }

  lemma HeldPush(frames: seq<Frame>, f: Frame)
    requires f.newpkg == None
    ensures Held(frames + [f]) == Held(frames)
  {
    assert (frames + [f])[..|frames|] == frames;
  }

  // ---------- prepend ----------

  lemma PrependShaped(roots: seq<Bytes>, st: Snapshot)
    requires Shaped(roots, st) && st.frames != [] && st.frames[|st.frames| - 1].newpkg.Some?
    ensures Shaped(roots, AfterPrepend(st))
  {
  }

  lemma PrependHolds(st: Snapshot, i: int, n: Bytes)
    requires st.frames != [] && st.frames[|st.frames| - 1].newpkg.Some?
    ensures Holds(AfterPrepend(st).frames, i, n) <==> Holds(st.frames, i, n) && i != |st.frames| - 1
  {
  }

  lemma PrependConserved(st: Snapshot)
    requires Conserved(st) && st.frames != [] && st.frames[|st.frames| - 1].newpkg.Some?
    ensures Conserved(AfterPrepend(st))
  {
    var k := |st.frames| - 1;
    var p := st.frames[k].newpkg.value;
    var after := AfterPrepend(st);
    assert Holds(st.frames, k, p);
    forall i, n ensures Holds(after.frames, i, n) <==> Holds(st.frames, i, n) && i != k {
      PrependHolds(st, i, n);
    }
    HeldUpdate(st.frames, after.frames[k]);
    forall n | n in st.table && n !in after.list ensures n in Waiting(after.frames) {
      WaitingHolds(st.frames, n);
      WaitingHolds(after.frames, n);
      var i :| Holds(st.frames, i, n);
      assert Holds(after.frames, i, n);
    }
  }

  /** A package waiting in a lower frame reaches one waiting in a higher frame. */
  lemma WaitingReaches(roots: seq<Bytes>, st: Snapshot, j: int, d: Bytes, k: int, p: Bytes)
    requires Shaped(roots, st) && Conserved(st) && Linked(roots, st)
    requires Holds(st.frames, j, d) && Holds(st.frames, k, p) && j <= k
    ensures Reaches(Edges(st.table), d, p)
  {
    if j == k {
      ReachesSelf(Edges(st.table), d);
    } else {
      ReachesStep(Edges(st.table), d, st.own[k].n, p);
    }
  }

  lemma BeforePrepended(list: seq<Bytes>, n: Bytes, p: Bytes, d: Bytes)
    requires Before(list, p, d)
    ensures Before([n] + list, p, d)
  {
    var i, j :| 0 <= i < j < |list| && list[i] == p && list[j] == d;
    assert ([n] + list)[i + 1] == p && ([n] + list)[j + 1] == d;
  }

  /** Nothing the top frame's package depends on is still to come. */
  lemma TopLoaded(st: Snapshot, n: Bytes, d: Bytes)
    requires st.frames != [] && Holds(st.frames, |st.frames| - 1, n)
    requires DepsPending(st) && n in st.table && Depends(st.table[n], d)
    ensures d in st.table
  {
  }

  lemma BeforeAll(list: seq<Bytes>, n: Bytes, d: Bytes)
    requires d in list
    ensures Before([n] + list, n, d)
  {
    var j :| 0 <= j < |list| && list[j] == d;
    assert ([n] + list)[0] == n && ([n] + list)[j + 1] == d;
  }

  /** All that the top frame's package depends on is behind it in the list, or leads back to it. */
  lemma TopOrdered(roots: seq<Bytes>, st: Snapshot, n: Bytes, d: Bytes)
    requires st.frames != [] && Holds(st.frames, |st.frames| - 1, n)
    requires Shaped(roots, st) && Conserved(st) && Linked(roots, st) && d in st.table
    ensures Before([n] + st.list, n, d) || Reaches(Edges(st.table), d, n)
  {
    if d in st.list {
      BeforeAll(st.list, n, d);
    } else {
      WaitingHolds(st.frames, d);
      var j :| Holds(st.frames, j, d);
      WaitingReaches(roots, st, j, d, |st.frames| - 1, n);
    }
  }

  lemma PrependOrdered(roots: seq<Bytes>, st: Snapshot)
    requires st.frames != [] && st.frames[|st.frames| - 1].newpkg.Some?
    requires Shaped(roots, st) && Conserved(st) && Linked(roots, st) && DepsPending(st) && Ordered(st.table, st.list)
    ensures Ordered(st.table, AfterPrepend(st).list)
  {
    hide Shaped, Conserved, Linked, DepsPending, Reaches, Before;
    var n := st.frames[|st.frames| - 1].newpkg.value;
    var list := [n] + st.list;
    assert Holds(st.frames, |st.frames| - 1, n);
    forall p, d | p in list && p in st.table && Depends(st.table[p], d)
      ensures d in st.table && (Before(list, p, d) || Reaches(Edges(st.table), d, p))
    {
      if p == n {
        TopLoaded(st, n, d);
        TopOrdered(roots, st, n, d);
      } else {
        assert p in st.list;
        if Before(st.list, p, d) {
          BeforePrepended(st.list, n, p, d);
        }
      }
    }
  }

  lemma PrependLinked(roots: seq<Bytes>, st: Snapshot)
    requires st.frames != [] && st.frames[|st.frames| - 1].newpkg.Some?
    requires Shaped(roots, st) && Shaped(roots, AfterPrepend(st)) && Linked(roots, st)
    ensures Linked(roots, AfterPrepend(st))
  {
    forall i, n ensures Holds(AfterPrepend(st).frames, i, n) ==> Holds(st.frames, i, n) {
      PrependHolds(st, i, n);
    }
  }

  lemma {:induction false} SubsetSize(a: set<Bytes>, b: set<Bytes>)
    requires a <= b
    ensures |a| <= |b|
  {
    if a != {} {
      var x :| x in a;
      SubsetSize(a - {x}, b - {x});
    }
  }

  lemma PrependBounded(st: Snapshot)
    requires |st.own| == |st.frames| && st.frames != [] && st.frames[|st.frames| - 1].newpkg.Some?
    requires Bounded(st)
    ensures Bounded(AfterPrepend(st))
  {
    var after := AfterPrepend(st);
    forall i | 0 <= i < |st.frames| ensures after.frames[..i] == st.frames[..i] {}
    SubsetSize(PublicListed(st.table, st.list), PublicListed(st.table, after.list));
  }

  lemma PrependPublicsPending(st: Snapshot)
    requires st.frames != [] && st.frames[|st.frames| - 1].newpkg.Some?
    requires PublicsPending(st)
    ensures PublicsPending(AfterPrepend(st))
  {
    forall i, n, d ensures PublicPending(st, i, n, d) ==> PublicPending(AfterPrepend(st), i, n, d) {}
  }

  lemma PrependDepsPending(st: Snapshot)
    requires st.frames != [] && st.frames[|st.frames| - 1].newpkg.Some?
    requires DepsPending(st)
    ensures DepsPending(AfterPrepend(st))
  {
    forall i, n ensures Holds(AfterPrepend(st).frames, i, n) ==> Holds(st.frames, i, n) {
      PrependHolds(st, i, n);
    }
    forall i, n, d ensures DepPending(st, i, n, d) ==> DepPending(AfterPrepend(st), i, n, d) {}
  }

  lemma PrependKeeps(roots: seq<Bytes>, full: bool, st: Snapshot)
    requires Inv(roots, full, st) && st.frames != [] && st.frames[|st.frames| - 1].newpkg.Some?
    ensures Inv(roots, full, AfterPrepend(st))
  {
    PrependShaped(roots, st);
    PrependConserved(st);
    PrependBounded(st);
    PrependLinked(roots, st);
    if full {
      PrependOrdered(roots, st);
      PrependPublicsPending(st);
      PrependDepsPending(st);
    }
  }

  // ---------- pop ----------

  predicate Exhausted(st: Snapshot) {
    && st.frames != [] && |st.own| == |st.frames|
    && st.frames[|st.frames| - 1].names == [] && st.frames[|st.frames| - 1].newpkg == None
  }

  lemma PopConserved(st: Snapshot)
    requires Conserved(st) && Exhausted(st)
    ensures Conserved(AfterPop(st))
  {
    forall i, n ensures Holds(AfterPop(st).frames, i, n) <==> Holds(st.frames, i, n) {}
  }

  lemma PopBounded(st: Snapshot)
    requires Exhausted(st) && Bounded(st)
    ensures Bounded(AfterPop(st))
  {
    var after := AfterPop(st);
    forall i | 0 <= i < |after.frames| ensures after.frames[..i] == st.frames[..i] && after.own[..i + 1] == st.own[..i + 1] {}
  }

  lemma PopShaped(roots: seq<Bytes>, st: Snapshot)
    requires Exhausted(st) && Shaped(roots, st)
    ensures Shaped(roots, AfterPop(st))
  {
  }

  lemma PopLinked(roots: seq<Bytes>, st: Snapshot)
    requires Exhausted(st) && Shaped(roots, st) && Shaped(roots, AfterPop(st)) && Linked(roots, st)
    ensures Linked(roots, AfterPop(st))
  {
    forall i, n ensures Holds(AfterPop(st).frames, i, n) <==> Holds(st.frames, i, n) {}
  }

  lemma PopPending(roots: seq<Bytes>, full: bool, st: Snapshot)
    requires Exhausted(st) && RootsPending(roots, st) && (full ==> PublicsPending(st) && DepsPending(st))
    ensures RootsPending(roots, AfterPop(st)) && (full ==> PublicsPending(AfterPop(st)) && DepsPending(AfterPop(st)))
  {
    forall i, n ensures Holds(AfterPop(st).frames, i, n) <==> Holds(st.frames, i, n) {}
    forall i, n, d ensures PublicPending(st, i, n, d) ==> PublicPending(AfterPop(st), i, n, d) {}
    forall i, n, d ensures DepPending(st, i, n, d) ==> DepPending(AfterPop(st), i, n, d) {}
  }

  lemma PopKeeps(roots: seq<Bytes>, full: bool, st: Snapshot)
    requires Inv(roots, full, st) && Exhausted(st)
    ensures Inv(roots, full, AfterPop(st))
  {
    PopConserved(st);
    PopBounded(st);
    PopShaped(roots, st);
    PopLinked(roots, st);
    PopPending(roots, full, st);
  }

  // ---------- visit ----------

  /** What a frame asks for is reached by whatever reaches the frame's owner. */
  lemma NextReached(roots: seq<Bytes>, st: Snapshot, j: int, m: Bytes)
    requires AtSpec(st) && Shaped(roots, st) && Linked(roots, st)
    requires Holds(st.frames, j, m)
    ensures j < |st.frames| - 1 && Reaches(Edges(st.table), m, NextName(st))
  {
    var k := |st.frames| - 1;
    assert NextName(st) in st.frames[k].names;
    assert Owns(roots, st.table, st.own[k], NextName(st));
    ReachesStep(Edges(st.table), m, st.own[k].n, NextName(st));
  }

  lemma VisitEdges(st: Snapshot, push: bool)
    requires AtSpec(st) && NextName(st) in st.table && (push ==> Promotes(st))
    ensures Edges(AfterVisit(st, push).table) == Edges(st.table)
    ensures PublicEdges(AfterVisit(st, push).table) == PublicEdges(st.table)
  {
  }

  lemma VisitShaped(roots: seq<Bytes>, st: Snapshot, push: bool)
    requires AtSpec(st) && NextName(st) in st.table && (push ==> Promotes(st))
    requires Shaped(roots, st)
    ensures Shaped(roots, AfterVisit(st, push))
  {
    ghost var after := AfterVisit(st, push);
    forall i, d | 0 <= i < |after.own| && d in after.frames[i].names
      ensures Owns(roots, after.table, after.own[i], d)
    {
      if i < |st.own| {
        assert d in st.frames[i].names;
      }
    }
  }

  lemma VisitHolds(st: Snapshot, push: bool, i: int, m: Bytes)
    requires AtSpec(st) && NextName(st) in st.table && (push ==> Promotes(st))
    ensures Holds(AfterVisit(st, push).frames, i, m) <==> Holds(st.frames, i, m)
  {
  }

  lemma VisitHeld(st: Snapshot, push: bool)
    requires AtSpec(st) && NextName(st) in st.table && (push ==> Promotes(st))
    ensures Held(AfterVisit(st, push).frames) == Held(st.frames)
  {
    var k := |st.frames| - 1;
    var f := st.frames[k];
    HeldUpdate(st.frames, f.(names := f.names[1..]));
    if push {
      HeldPush(st.frames[k := f.(names := f.names[1..])], AfterVisit(st, push).frames[k + 1]);
    }
  }

  lemma VisitConserved(st: Snapshot, push: bool)
    requires AtSpec(st) && NextName(st) in st.table && (push ==> Promotes(st))
    requires Conserved(st)
    ensures Conserved(AfterVisit(st, push))
  {
    var after := AfterVisit(st, push);
    VisitHeld(st, push);
    assert after.table.Keys == st.table.Keys;
    forall i, m ensures Holds(after.frames, i, m) <==> Holds(st.frames, i, m) {
      VisitHolds(st, push, i, m);
    }
    forall m | m in st.table && m !in st.list ensures m in Waiting(after.frames) {
      WaitingHolds(st.frames, m);
      WaitingHolds(after.frames, m);
    }
  }

  /** Changing the top frame changes no height. */
  lemma PaidTop(frames: seq<Frame>, own: seq<Owner>, f: Frame)
    requires |own| == |frames| > 0 && Paid(frames, own)
    ensures var k := |frames| - 1;
      && Paid(frames[k := f], own)
      && k <= 2 * Held(frames[k := f][..k]) + AgainCount(own)
      && Held(frames[k := f]) == Held(frames[k := f][..k]) + if f.newpkg.Some? then 1 else 0
  {
    hide Held, AgainCount;
    var k := |frames| - 1;
    forall i | 0 <= i <= k ensures frames[k := f][..i] == frames[..i] {}
    assert own[..k + 1] == own;
    HeldTop(frames[k := f]);
  }

  lemma HeldTop(frames: seq<Frame>)
    requires frames != []
    ensures var k := |frames| - 1; Held(frames) == Held(frames[..k]) + if frames[k].newpkg.Some? then 1 else 0
  {
  }

  lemma PaidPush(frames: seq<Frame>, own: seq<Owner>, f: Frame, o: Owner)
    requires |own| == |frames| && Paid(frames, own)
    requires |frames| <= 2 * Held(frames) + AgainCount(own + [o])
    ensures Paid(frames + [f], own + [o])
  {
    hide Held, AgainCount;
    var n := |frames|;
    forall i | 0 <= i < n ensures (frames + [f])[..i] == frames[..i] && (own + [o])[..i + 1] == own[..i + 1] {}
    assert (frames + [f])[..n] == frames && (own + [o])[..n + 1] == own + [o];
  }

  lemma AgainPush(own: seq<Owner>, o: Owner)
    ensures AgainCount(own + [o]) == AgainCount(own) + if o.Requires? && o.again then 1 else 0
  {
    assert (own + [o])[..|own|] == own;
  }

  lemma VisitPublics(st: Snapshot, push: bool)
    requires AtSpec(st) && NextName(st) in st.table && (push ==> Promotes(st) && NextName(st) in st.list)
    ensures |PublicListed(AfterVisit(st, push).table, st.list)|
      >= |PublicListed(st.table, st.list)| + if push then 1 else 0
  {
    var old_, new_ := PublicListed(st.table, st.list), PublicListed(AfterVisit(st, push).table, st.list);
    if push {
      assert new_ == old_ + {NextName(st)};
    } else {
      SubsetSize(old_, new_);
    }
  }

  lemma VisitBounded(st: Snapshot, push: bool)
    requires AtSpec(st) && NextName(st) in st.table && (push ==> Promotes(st) && NextName(st) in st.list)
    requires Bounded(st)
    ensures Bounded(AfterVisit(st, push))
  {
    hide Held, AgainCount, Paid, PublicListed;
    var k := |st.frames| - 1;
    var after := AfterVisit(st, push);
    var f := st.frames[k].(names := st.frames[k].names[1..]);
    PaidTop(st.frames, st.own, f);
    VisitPublics(st, push);
    if push {
      AgainPush(st.own, after.own[k + 1]);
      PaidPush(st.frames[k := f], st.own, after.frames[k + 1], after.own[k + 1]);
    }
  }

  lemma VisitLinked(roots: seq<Bytes>, st: Snapshot, push: bool)
    requires AtSpec(st) && NextName(st) in st.table && (push ==> Promotes(st))
    requires Shaped(roots, st) && Shaped(roots, AfterVisit(st, push)) && Linked(roots, st)
    ensures Linked(roots, AfterVisit(st, push))
  {
    hide Edges, PublicEdges, Reaches;
    var after := AfterVisit(st, push);
    VisitEdges(st, push);
    forall j, k, m | Holds(after.frames, j, m) && j < k < |after.frames|
      ensures Reaches(Edges(after.table), m, after.own[k].n)
    {
      VisitHolds(st, push, j, m);
      if k == |st.frames| {
        NextReached(roots, st, j, m);
      }
    }
    forall i, m ensures Holds(after.frames, i, m) ==> Holds(st.frames, i, m) {
      VisitHolds(st, push, i, m);
    }
  }

  /** What the top frame asks for is reachable, and so are the flags it hands on justified. */
  ghost predicate NextJustified(roots: seq<Bytes>, st: Snapshot)
    requires AtSpec(st)
  {
    && ReachedFrom(Edges(st.table), Names(roots), NextName(st))
    && (st.frames[|st.frames| - 1].isPublic ==> ReachedFrom(PublicEdges(st.table), Names(roots), NextName(st)))
    && (st.frames[|st.frames| - 1].direct ==> NextName(st) in roots)
  }

  lemma NextIsJustified(roots: seq<Bytes>, st: Snapshot)
    requires AtSpec(st) && Shaped(roots, st) && Reached(roots, st.table)
    ensures NextJustified(roots, st)
  {
    var k := |st.frames| - 1;
    var n := NextName(st);
    assert n in st.frames[k].names;
    assert Owns(roots, st.table, st.own[k], n);
    if k == 0 {
      ReachesSelf(Edges(st.table), n);
      ReachesSelf(PublicEdges(st.table), n);
      assert n in Names(roots);
    } else {
      var m := st.own[k].n;
      assert Justified(roots, st.table, m);
      var a :| a in Names(roots) && Reaches(Edges(st.table), a, m);
      ReachesStep(Edges(st.table), a, m, n);
      if st.frames[k].isPublic {
        var b :| b in Names(roots) && Reaches(PublicEdges(st.table), b, m);
        ReachesStep(PublicEdges(st.table), b, m, n);
      }
    }
  }

  lemma VisitReached(roots: seq<Bytes>, st: Snapshot, push: bool)
    requires AtSpec(st) && NextName(st) in st.table && (push ==> Promotes(st))
    requires NextJustified(roots, st) && Reached(roots, st.table)
    ensures Reached(roots, AfterVisit(st, push).table)
  {
    VisitEdges(st, push);
    forall m | m in st.table ensures Justified(roots, AfterVisit(st, push).table, m) {
      hide Edges, PublicEdges, Names, ReachedFrom;
      assert Justified(roots, st.table, m);
    }
  }

  lemma VisitRootsPending(roots: seq<Bytes>, st: Snapshot, push: bool)
    requires AtSpec(st) && NextName(st) in st.table && (push ==> Promotes(st))
    requires Shaped(roots, st) && RootsPending(roots, st)
    ensures RootsPending(roots, AfterVisit(st, push))
  {
    var after := AfterVisit(st, push);
    var k, n := |st.frames| - 1, NextName(st);
    assert st.frames[0].isPublic && (k == 0 ==> st.frames[k].direct);
    hide Shaped;
    forall d | d in roots
      ensures (PublicIn(after.table, d) && after.table[d].direct) || d in after.frames[0].names
    {
      if k == 0 && d in st.frames[0].names && d != n {
        assert d in st.frames[0].names[1..];
      }
    }
  }

  lemma VisitPublicsPending(roots: seq<Bytes>, st: Snapshot)
    requires AtSpec(st) && NextName(st) in st.table
    requires PublicsPending(st)
    ensures PublicsPending(AfterVisit(st, Promotes(st)))
  {
    var k := |st.frames| - 1;
    var push := Promotes(st);
    var after := AfterVisit(st, push);
    forall m, d | PublicIn(after.table, m) && d in after.table[m].requires_
      ensures PublicIn(after.table, d) || exists i :: PublicPending(after, i, m, d)
    {
      if PublicIn(st.table, m) {
        if !PublicIn(after.table, d) {
          assert d in st.table[m].requires_ && !PublicIn(st.table, d);
          var i :| PublicPending(st, i, m, d);
          assert PublicPending(after, i, m, d);
        }
      } else {
        assert PublicPending(after, k + 1, m, d);
      }
    }
  }

  lemma VisitDepsPending(st: Snapshot, push: bool)
    requires AtSpec(st) && NextName(st) in st.table && (push ==> Promotes(st))
    requires DepsPending(st)
    ensures DepsPending(AfterVisit(st, push))
  {
    var after := AfterVisit(st, push);
    forall j, m, d | Holds(after.frames, j, m) && m in after.table && Depends(after.table[m], d)
      ensures d in after.table || exists i :: i > j && DepPending(after, i, m, d)
    {
      VisitHolds(st, push, j, m);
      if d !in after.table {
        var i :| i > j && DepPending(st, i, m, d);
        assert DepPending(after, i, m, d);
      }
    }
  }

  /** A private package seen from a public frame is finished, so everything it depends on is loaded. */
  lemma PromotedFinished(roots: seq<Bytes>, st: Snapshot)
    requires AtSpec(st) && NextName(st) in st.table && Promotes(st)
    requires Shaped(roots, st) && Conserved(st) && Linked(roots, st)
    ensures NextName(st) in st.list
  {
    var n := NextName(st);
    if n !in st.list {
      WaitingHolds(st.frames, n);
      var i :| Holds(st.frames, i, n);
      assert false;
    }
  }

  lemma VisitOrdered(st: Snapshot, push: bool)
    requires AtSpec(st) && NextName(st) in st.table && (push ==> Promotes(st))
    requires Ordered(st.table, st.list)
    ensures Ordered(AfterVisit(st, push).table, st.list)
  {
    VisitEdges(st, push);
  }

  lemma VisitAgain(st: Snapshot, push: bool)
    requires AtSpec(st) && NextName(st) in st.table && (push ==> Promotes(st))
    requires push ==> NextName(st) in st.list
    requires Ordered(st.table, st.list) && AgainLoaded(st.table, st.own)
    ensures AgainLoaded(AfterVisit(st, push).table, AfterVisit(st, push).own)
  {
    var t, own := AfterVisit(st, push).table, AfterVisit(st, push).own;
    forall o, d | o in own && o.Requires? && o.again && o.n in t && Depends(t[o.n], d) ensures d in t {
      assert Depends(st.table[o.n], d);
    }
  }

  lemma VisitKeeps(roots: seq<Bytes>, full: bool, st: Snapshot, push: bool)
    requires Inv(roots, full, st) && AtSpec(st) && NextName(st) in st.table
    requires (push ==> Promotes(st)) && (full && Promotes(st) ==> push)
    ensures Inv(roots, full, AfterVisit(st, push))
  {
    VisitShaped(roots, st, push);
    VisitConserved(st, push);
    if push {
      PromotedFinished(roots, st);
    }
    VisitBounded(st, push);
    VisitLinked(roots, st, push);
    NextIsJustified(roots, st);
    VisitReached(roots, st, push);
    VisitRootsPending(roots, st, push);
    if full {
      VisitPublicsPending(roots, st);
      VisitDepsPending(st, push);
      VisitOrdered(st, push);
      VisitAgain(st, push);
    }
  }

  // ---------- load ----------

  lemma LoadEdges(st: Snapshot, data: Node, push: bool)
    requires AtSpec(st) && NextName(st) !in st.table
    ensures var u := AfterLoad(st, data, push).table;
      Extends(Edges(st.table), Edges(u)) && Extends(PublicEdges(st.table), PublicEdges(u))
  {
  }

  lemma LoadNames(roots: seq<Bytes>, st: Snapshot, data: Node, push: bool, i: nat, d: Bytes)
    requires AtSpec(st) && NextName(st) !in st.table && Shaped(roots, st)
    requires var after := AfterLoad(st, data, push); i < |after.own| && d in after.frames[i].names
    ensures var after := AfterLoad(st, data, push); Owns(roots, after.table, after.own[i], d)
  {
    if i < |st.own| {
      assert d in st.frames[i].names;
      assert Owns(roots, st.table, st.own[i], d);
    }
  }

  lemma LoadShaped(roots: seq<Bytes>, st: Snapshot, data: Node, push: bool)
    requires AtSpec(st) && NextName(st) !in st.table && Shaped(roots, st)
    ensures Shaped(roots, AfterLoad(st, data, push))
  {
    hide Owns;
    var after := AfterLoad(st, data, push);
    forall i, d | 0 <= i < |after.own| && d in after.frames[i].names
      ensures Owns(roots, after.table, after.own[i], d)
    {
      LoadNames(roots, st, data, push, i, d);
    }
  }

  lemma LoadHolds(st: Snapshot, data: Node, push: bool, i: int, m: Bytes)
    requires AtSpec(st)
    ensures Holds(AfterLoad(st, data, push).frames, i, m)
      <==> Holds(st.frames, i, m) || (i == |st.frames| - 1 && m == NextName(st))
  {
  }

  lemma LoadHeld(st: Snapshot, data: Node, push: bool)
    requires AtSpec(st)
    ensures Held(AfterLoad(st, data, push).frames) == Held(st.frames) + 1
  {
    var k := |st.frames| - 1;
    var f := st.frames[k];
    var g := f.(names := f.names[1..], newpkg := Some(NextName(st)));
    HeldUpdate(st.frames, g);
    if push {
      var after := AfterLoad(st, data, push).frames;
      HeldPush(st.frames[k := g], after[k + 1]);
      HeldPush(st.frames[k := g] + [after[k + 1]], after[k + 2]);
      assert after == st.frames[k := g] + [after[k + 1]] + [after[k + 2]];
    }
  }

  lemma LoadConserved(st: Snapshot, data: Node, push: bool)
    requires AtSpec(st) && NextName(st) !in st.table && Conserved(st)
    ensures Conserved(AfterLoad(st, data, push))
  {
    var after := AfterLoad(st, data, push);
    LoadHeld(st, data, push);
    assert after.table.Keys == st.table.Keys + {NextName(st)};
    forall i, m ensures Holds(after.frames, i, m)
      <==> Holds(st.frames, i, m) || (i == |st.frames| - 1 && m == NextName(st))
    {
      LoadHolds(st, data, push, i, m);
    }
    forall m | m in after.table && m !in st.list ensures m in Waiting(after.frames) {
      WaitingHolds(st.frames, m);
      WaitingHolds(after.frames, m);
      assert m == NextName(st) ==> Holds(after.frames, |st.frames| - 1, m);
    }
  }

  lemma LoadPublics(st: Snapshot, data: Node, push: bool)
    requires AtSpec(st) && NextName(st) !in st.table
    ensures |PublicListed(AfterLoad(st, data, push).table, st.list)| >= |PublicListed(st.table, st.list)|
  {
    SubsetSize(PublicListed(st.table, st.list), PublicListed(AfterLoad(st, data, push).table, st.list));
  }

  lemma LoadBounded(st: Snapshot, data: Node, push: bool)
    requires AtSpec(st) && NextName(st) !in st.table && Bounded(st)
    ensures Bounded(AfterLoad(st, data, push))
  {
    hide Held, AgainCount, Paid, PublicListed;
    var k := |st.frames| - 1;
    var after := AfterLoad(st, data, push);
    var f := st.frames[k].(names := st.frames[k].names[1..], newpkg := Some(NextName(st)));
    var below := st.frames[k := f];
    PaidTop(st.frames, st.own, f);
    LoadPublics(st, data, push);
    if push {
      var f1, f2, o1, o2 := after.frames[k + 1], after.frames[k + 2], after.own[k + 1], after.own[k + 2];
      AgainPush(st.own, o1);
      PaidPush(below, st.own, f1, o1);
      HeldPush(below, f1);
      AgainPush(st.own + [o1], o2);
      PaidPush(below + [f1], st.own + [o1], f2, o2);
      assert after.frames == below + [f1] + [f2] && after.own == st.own + [o1] + [o2];
    }
  }

  lemma LoadReaches(roots: seq<Bytes>, st: Snapshot, data: Node, push: bool, j: int, m: Bytes, k: int)
    requires AtSpec(st) && NextName(st) !in st.table && Shaped(roots, st) && Linked(roots, st)
    requires var after := AfterLoad(st, data, push); Holds(after.frames, j, m) && j < k < |after.frames|
    ensures Reaches(Edges(AfterLoad(st, data, push).table), m, AfterLoad(st, data, push).own[k].n)
  {
    hide Edges, PublicEdges, Reaches;
    var after := AfterLoad(st, data, push);
    LoadEdges(st, data, push);
    LoadHolds(st, data, push, j, m);
    if !Holds(st.frames, j, m) {
      ReachesSelf(Edges(after.table), m);
    } else if k < |st.frames| {
      ReachesExtended(Edges(st.table), Edges(after.table), m, st.own[k].n);
    } else {
      NextReached(roots, st, j, m);
      ReachesExtended(Edges(st.table), Edges(after.table), m, NextName(st));
    }
  }

  lemma LoadOwns(roots: seq<Bytes>, st: Snapshot, data: Node, push: bool, k: int, m: Bytes)
    requires AtSpec(st) && NextName(st) !in st.table && Shaped(roots, st) && Linked(roots, st)
    requires Holds(st.frames, k, m) ==> m in st.table
    requires Holds(AfterLoad(st, data, push).frames, k, m)
    ensures var after := AfterLoad(st, data, push);
      && Owns(roots, after.table, after.own[k], m)
      && (after.frames[k].isPublic && m in after.table ==> after.table[m].isPublic)
  {
    LoadHolds(st, data, push, k, m);
    assert NextName(st) in st.frames[|st.frames| - 1].names;
    if Holds(st.frames, k, m) {
      assert Owns(roots, st.table, st.own[k], m);
    }
  }

  lemma LoadLinked(roots: seq<Bytes>, st: Snapshot, data: Node, push: bool)
    requires AtSpec(st) && NextName(st) !in st.table && Shaped(roots, st) && Linked(roots, st)
    requires forall i, m :: Holds(st.frames, i, m) ==> m in st.table
    requires Shaped(roots, AfterLoad(st, data, push))
    ensures Linked(roots, AfterLoad(st, data, push))
  {
    var after := AfterLoad(st, data, push);
    forall j, k, m | Holds(after.frames, j, m) && j < k < |after.frames|
      ensures Reaches(Edges(after.table), m, after.own[k].n)
    {
      LoadReaches(roots, st, data, push, j, m, k);
    }
    forall k, m | Holds(after.frames, k, m)
      ensures Owns(roots, after.table, after.own[k], m)
      ensures after.frames[k].isPublic && m in after.table ==> after.table[m].isPublic
    {
      LoadOwns(roots, st, data, push, k, m);
    }
  }

  lemma ReachedExtended(g: Graph, h: Graph, roots: set<Bytes>, n: Bytes)
    requires Extends(g, h) && ReachedFrom(g, roots, n)
    ensures ReachedFrom(h, roots, n)
  {
    var a :| a in roots && Reaches(g, a, n);
    ReachesExtended(g, h, a, n);
  }

  lemma LoadReached(roots: seq<Bytes>, st: Snapshot, data: Node, push: bool)
    requires AtSpec(st) && NextName(st) !in st.table && NextJustified(roots, st) && Reached(roots, st.table)
    ensures Reached(roots, AfterLoad(st, data, push).table)
  {
    var t, u := st.table, AfterLoad(st, data, push).table;
    LoadEdges(st, data, push);
    forall m | m in u ensures Justified(roots, u, m) {
      if m in t {
        assert Justified(roots, t, m);
      }
      ReachedExtended(Edges(t), Edges(u), Names(roots), m);
      if u[m].isPublic {
        ReachedExtended(PublicEdges(t), PublicEdges(u), Names(roots), m);
      }
    }
  }

  lemma LoadRootsPending(roots: seq<Bytes>, st: Snapshot, data: Node, push: bool)
    requires AtSpec(st) && NextName(st) !in st.table && Shaped(roots, st) && RootsPending(roots, st)
    ensures RootsPending(roots, AfterLoad(st, data, push))
  {
  }

  lemma LoadPublicsPending(st: Snapshot, data: Node)
    requires AtSpec(st) && NextName(st) !in st.table && PublicsPending(st)
    ensures PublicsPending(AfterLoad(st, data, true))
  {
    var k := |st.frames| - 1;
    var after := AfterLoad(st, data, true);
    forall m, d | PublicIn(after.table, m) && d in after.table[m].requires_
      ensures PublicIn(after.table, d) || exists i :: PublicPending(after, i, m, d)
    {
      if m == NextName(st) {
        assert PublicPending(after, k + 1, m, d);
      } else if !PublicIn(after.table, d) {
        assert d in st.table[m].requires_ && !PublicIn(st.table, d);
        var i :| PublicPending(st, i, m, d);
        assert PublicPending(after, i, m, d);
      }
    }
  }

  lemma LoadDepsPending(st: Snapshot, data: Node)
    requires AtSpec(st) && NextName(st) !in st.table && DepsPending(st)
    requires forall i, m :: Holds(st.frames, i, m) ==> m in st.table
    ensures DepsPending(AfterLoad(st, data, true))
  {
    var k := |st.frames| - 1;
    var after := AfterLoad(st, data, true);
    forall j, m, d | Holds(after.frames, j, m) && m in after.table && Depends(after.table[m], d)
      ensures d in after.table || exists i :: i > j && DepPending(after, i, m, d)
    {
      LoadHolds(st, data, true, j, m);
      if !Holds(st.frames, j, m) {
        assert DepPending(after, k + 1, m, d) || DepPending(after, k + 2, m, d);
      } else if d !in after.table {
        var i :| i > j && DepPending(st, i, m, d);
        assert DepPending(after, i, m, d);
      }
    }
  }

  lemma LoadOrdered(st: Snapshot, data: Node, push: bool)
    requires AtSpec(st) && NextName(st) !in st.table
    requires forall p :: p in st.list ==> p in st.table
    requires forall o :: o in st.own ==> o.Root? || o.n in st.table
    requires Ordered(st.table, st.list) && AgainLoaded(st.table, st.own)
    ensures Ordered(AfterLoad(st, data, push).table, st.list)
    ensures AgainLoaded(AfterLoad(st, data, push).table, AfterLoad(st, data, push).own)
  {
    var t, u := st.table, AfterLoad(st, data, push).table;
    LoadEdges(st, data, push);
    forall p, d | p in st.list && p in u && Depends(u[p], d)
      ensures d in u && (Before(st.list, p, d) || Reaches(Edges(u), d, p))
    {
      if !Before(st.list, p, d) {
        ReachesExtended(Edges(t), Edges(u), d, p);
      }
    }
  }

  lemma LoadKeeps(roots: seq<Bytes>, full: bool, st: Snapshot, data: Node, push: bool)
    requires Inv(roots, full, st) && AtSpec(st) && NextName(st) !in st.table && (full ==> push)
    ensures Inv(roots, full, AfterLoad(st, data, push))
  {
    LoadShaped(roots, st, data, push);
    LoadConserved(st, data, push);
    LoadBounded(st, data, push);
    LoadLinked(roots, st, data, push);
    NextIsJustified(roots, st);
    LoadReached(roots, st, data, push);
    LoadRootsPending(roots, st, data, push);
    if full {
      LoadPublicsPending(st, data);
      LoadDepsPending(st, data);
      LoadOrdered(st, data, push);
    }
  }

  /** Twice the number of packages bounds the height of the stack. */
  lemma StackBounded(roots: seq<Bytes>, full: bool, st: Snapshot)
    requires Inv(roots, full, st) && st.frames != []
    ensures |st.frames| - 1 <= 2 * |st.table|
  {
    hide Linked, Reached, RootsPending, PublicsPending, DepsPending, Ordered, AgainLoaded;
    var k := |st.frames| - 1;
    assert st.own[..k + 1] == st.own;
    HeldBelow(st.frames, k);
    ListedSize(st.list, PublicListed(st.table, st.list));
  }

  lemma HeldBelow(frames: seq<Frame>, k: nat)
    requires k == |frames| - 1
    ensures Held(frames[..k]) <= Held(frames)
  {
  }

  lemma {:induction false} ListedSize(list: seq<Bytes>, s: set<Bytes>)
    requires forall n :: n in s ==> n in list
    ensures |s| <= |list|
  {
    if list != [] {
      ListedSize(list[1..], s - {list[0]});
      SubsetSize(s, s - {list[0]} + {list[0]});
    } else {
      assert s == {};
    }
  }

  /** A frame that re-walks a promoted package never loads anything. */
  lemma AgainNeverLoads(roots: seq<Bytes>, st: Snapshot)
    requires Inv(roots, true, st) && AtSpec(st)
    requires var o := st.own[|st.own| - 1]; o.Requires? && o.again
    ensures NextName(st) in st.table
  {
    hide Conserved, Bounded, Linked, Reached, RootsPending, PublicsPending, DepsPending, Ordered;
    var k := |st.frames| - 1;
    assert NextName(st) in st.frames[k].names;
    assert Owns(roots, st.table, st.own[k], NextName(st));
    assert st.own[k] in st.own;
  }

  lemma StartKeeps(roots: seq<Bytes>, full: bool, f: Frame)
    requires f == Frame(roots, None, true, true)
    ensures Inv(roots, full, Snapshot(map[], [], [f], [Root]))
  {
    assert [f][..0] == [] && [Root][..1] == [Root] && [Root][..0] == [];
  }

  // ---------- the finished traversal ----------

  /** Loaded is exactly reachable; public and direct are exactly what they should be. */
  ghost predicate Complete(roots: seq<Bytes>, t: Table) {
    && (forall n :: n in t <==> ReachedFrom(Edges(t), Names(roots), n))
    && (forall n :: PublicIn(t, n) <==> ReachedFrom(PublicEdges(t), Names(roots), n))
    && (forall n :: n in t && t[n].direct <==> n in roots)
  }

  lemma NothingPending(st: Snapshot)
    requires st.frames == [] && PublicsPending(st) && Ordered(st.table, st.list)
    requires forall n :: n in st.table ==> n in st.list
    ensures forall n, d :: n in st.table && d in Edges(st.table)[n] ==> d in st.table
    ensures forall n, d :: PublicIn(st.table, n) && d in PublicEdges(st.table)[n] ==> PublicIn(st.table, d)
  {
    forall n, d | n in st.table && d in Edges(st.table)[n] ensures d in st.table {
      assert Depends(st.table[n], d);
    }
    forall n, d | PublicIn(st.table, n) && d in PublicEdges(st.table)[n] ensures PublicIn(st.table, d) {
      assert d in st.table[n].requires_;
    }
  }

  lemma FinishedLoaded(roots: seq<Bytes>, t: Table, n: Bytes)
    requires Reached(roots, t)
    requires forall m, d :: m in t && d in Edges(t)[m] ==> d in t
    requires forall d :: d in roots ==> d in t
    ensures n in t <==> ReachedFrom(Edges(t), Names(roots), n)
  {
    if n in t {
      assert Justified(roots, t, n);
    } else if ReachedFrom(Edges(t), Names(roots), n) {
      ClosedHoldsReached(Edges(t), t.Keys, Names(roots), n);
    }
  }

  lemma FinishedPublic(roots: seq<Bytes>, t: Table, n: Bytes)
    requires Reached(roots, t)
    requires forall m, d :: PublicIn(t, m) && d in PublicEdges(t)[m] ==> PublicIn(t, d)
    requires forall d :: d in roots ==> PublicIn(t, d)
    ensures PublicIn(t, n) <==> ReachedFrom(PublicEdges(t), Names(roots), n)
  {
    if PublicIn(t, n) {
      assert Justified(roots, t, n);
    } else if ReachedFrom(PublicEdges(t), Names(roots), n) {
      var marked := set m | m in t && t[m].isPublic;
      assert forall m :: m in marked <==> PublicIn(t, m);
      ClosedHoldsReached(PublicEdges(t), marked, Names(roots), n);
    }
  }

  lemma FinishedDirect(roots: seq<Bytes>, t: Table, n: Bytes)
    requires n in t && Reached(roots, t)
    requires forall d :: d in roots ==> d in t && t[d].direct
    ensures t[n].direct <==> n in roots
  {
    assert Justified(roots, t, n);
  }

  lemma FinishedComplete(roots: seq<Bytes>, st: Snapshot)
    requires st.frames == [] && Reached(roots, st.table) && RootsPending(roots, st)
    requires PublicsPending(st) && Ordered(st.table, st.list)
    requires forall n :: n in st.table ==> n in st.list
    ensures Complete(roots, st.table)
  {
    hide Reached, PublicsPending, Ordered, ReachedFrom;
    var t := st.table;
    NothingPending(st);
    forall n ensures n in t <==> ReachedFrom(Edges(t), Names(roots), n) {
      FinishedLoaded(roots, t, n);
    }
    forall n ensures PublicIn(t, n) <==> ReachedFrom(PublicEdges(t), Names(roots), n) {
      FinishedPublic(roots, t, n);
    }
    forall n | n in t ensures t[n].direct <==> n in roots {
      FinishedDirect(roots, t, n);
    }
  }

  lemma EndComplete(roots: seq<Bytes>, full: bool, st: Snapshot)
    requires Inv(roots, full, st) && st.frames == []
    ensures Distinct(st.list) && |st.table| == |st.list|
    ensures forall n :: n in st.list <==> n in st.table
    ensures Reached(roots, st.table)
    ensures forall d :: d in roots ==> d in st.table && st.table[d].direct && st.table[d].isPublic
    ensures full ==> Complete(roots, st.table) && Ordered(st.table, st.list)
  {
    assert forall d :: d in roots ==> PublicIn(st.table, d) && st.table[d].direct;
    hide Reached, RootsPending, PublicsPending, DepsPending, Ordered, AgainLoaded, Linked, Shaped, Complete;
    assert forall n :: n in st.table ==> n in st.list;
    if full {
      FinishedComplete(roots, st);
    }
  }

  /** In an acyclic table every dependency comes later in the list than what depends on it. */
  lemma AcyclicTopological(t: Table, list: seq<Bytes>)
    requires Ordered(t, list) && Acyclic(Edges(t))
    ensures forall p, d :: p in list && p in t && d in Edges(t)[p] ==> Before(list, p, d)
  {
    forall p, d | p in list && p in t && d in Edges(t)[p] ensures Before(list, p, d) {
      assert Depends(t[p], d);
    }
  }
}
