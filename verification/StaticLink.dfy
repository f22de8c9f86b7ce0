/** What `--static --libs` prints: the packages' library arguments in load order, each kept once. */
module StaticLink {
  import opened Bytes
  import opened Graph
  import opened Packages
  import opened Arguments
  import Q = Dequote
  import T = Traversal
  import D = DepthFirst
  import P = Closure

  datatype Filter = Any | OnlyI | OnlyCapitalL | OnlyLibrary | OtherCflags | OtherLibs

  predicate FilterOk(f: Filter, arg: Bytes) {
    match f
    case Any => true
    case OnlyI => DASH_I <= arg
    case OnlyCapitalL => DASH_CAPITAL_L <= arg
    case OnlyLibrary => IsLibrary(arg)
    case OtherCflags => !(DASH_I <= arg)
    case OtherLibs => !(DASH_CAPITAL_L <= arg) && !IsLibrary(arg)
  }

  function Filtered(f: Filter, args: seq<Bytes>): seq<Bytes> {
    if args == [] then []
    else (if FilterOk(f, args[0]) then [args[0]] else []) + Filtered(f, args[1..])
  }

  /** The arguments of a field that pass the filter, unless a quote is left open. */
  function FieldArgs(f: Filter, field: Bytes): Option<seq<Bytes>> {
    match Q.Fields(field)
    case None => None
    case Some(args) => Some(Filtered(f, args))
  }

  function Joined(a: Option<seq<Bytes>>, b: Option<seq<Bytes>>): Option<seq<Bytes>> {
    if a == None || b == None then None else Some(a.value + b.value)
  }

  /** Which arguments are asked for, and whether for static linking. */
  datatype Choice = Choice(filter: Filter, isStatic: bool)

  /** A package's own arguments: for static linking public ones, then private ones; else those of public packages. */
  function PackageArgs(f: Choice, p: Pkg): Option<seq<Bytes>> {
    if f.isStatic then Joined(FieldArgs(f.filter, p.data.libs), FieldArgs(f.filter, p.data.libsPrivate))
    else if p.isPublic then FieldArgs(f.filter, p.data.libs)
    else Some([])
  }

  function LinkArgs(f: Choice, t: Table, names: seq<Bytes>): Option<seq<Bytes>>
    requires forall n :: n in names ==> n in t
  {
    if names == [] then Some([])
    else Joined(PackageArgs(f, t[names[0]]), LinkArgs(f, t, names[1..]))
  }

  // ---------- collecting the arguments ----------

  method AppendField(args: Args, f: Filter, text: Bytes) returns (ok: bool)
    requires args.Valid()
    modifies args`list, args`count, args.positions, args.positions.repr
    ensures args.Valid() && fresh(args.positions.repr - old(args.positions.repr))
    ensures ok <==> FieldArgs(f, text).Some?
    ensures ok ==> args.list == old(args.list) + FieldArgs(f, text).value
  {
    hide Args.Valid, FilterOk, FieldArgs, Q.NextToken;
    var field := text;
    while field != []
      invariant args.Valid() && fresh(args.positions.repr - old(args.positions.repr))
      invariant Behind(old(args.list), args.list, FieldArgs(f, field), FieldArgs(f, text))
      decreases |field|
    {
      FieldArgsFirst(f, field);
      var r := Q.Dequote(field);
      if !r.ok {
        return false;
      }
      ghost var before := args.list;
      if FilterOk(f, r.arg) {
        args.Append(r.arg);
      }
      assert before + [] == before;
      ghost var first := if FilterOk(f, r.arg) then [r.arg] else [];
      JoinedMore(before, first, FieldArgs(f, r.tail));
      field := r.tail;
    }
    FieldArgsNone(f);
    assert args.list + [] == args.list;
    ok := true;
  }

  /** The arguments so far and those to come are those before the field and all of the field's. */
  ghost predicate Behind(start: seq<Bytes>, sofar: seq<Bytes>, left: Option<seq<Bytes>>, all: Option<seq<Bytes>>) {
    (left.Some? <==> all.Some?) && (all.Some? ==> sofar + left.value == start + all.value)
  }

  lemma JoinedMore(sofar: seq<Bytes>, first: seq<Bytes>, more: Option<seq<Bytes>>)
    ensures more.Some? ==> sofar + Joined(Some(first), more).value == sofar + first + more.value
  {
  }

  lemma FieldArgsNone(f: Filter)
    ensures FieldArgs(f, []) == Some([])
  {
  }

  lemma FieldArgsFirst(f: Filter, field: Bytes)
    requires field != []
    ensures var t := Q.NextToken(field);
      && |t.tail| < |field|
      && (!t.ok ==> FieldArgs(f, field) == None)
      && var first := if FilterOk(f, t.arg) then [t.arg] else [];
      (t.ok ==> FieldArgs(f, field) == Joined(Some(first), FieldArgs(f, t.tail)))
  {
    hide FilterOk, Q.Take;
    Q.FieldsFirst(field);
    var t := Q.NextToken(field);
    if t.ok && Q.Fields(t.tail).Some? {
      var more := Q.Fields(t.tail).value;
      assert [] + t.arg == t.arg;
      assert ([t.arg] + more)[1..] == more;
    }
  }

  method AppendPackage(args: Args, f: Choice, p: Pkg) returns (ok: bool)
    requires args.Valid()
    modifies args`list, args`count, args.positions, args.positions.repr
    ensures args.Valid() && fresh(args.positions.repr - old(args.positions.repr))
    ensures ok <==> PackageArgs(f, p).Some?
    ensures ok ==> args.list == old(args.list) + PackageArgs(f, p).value
  {
    hide Args.Valid, FieldArgs;
    ok := true;
    if f.isStatic {
      ok := AppendField(args, f.filter, p.data.libs);
      if ok {
        ok := AppendField(args, f.filter, p.data.libsPrivate);
      }
    } else if p.isPublic {
      ok := AppendField(args, f.filter, p.data.libs);
    } else {
      assert args.list + [] == args.list;
    }
  }

  /** Prints the link line of the loaded packages, after `argcount` other arguments. */
  method PrintLibs(pkgs: Pkgs, exclude: seq<Bytes>, f: Choice, delim: u8, argcount: nat)
    returns (line: Option<Bytes>, total: nat)
    requires forall n :: n in pkgs.list ==> n in pkgs.table
    ensures line.Some? <==> LinkArgs(f, pkgs.table, pkgs.list).Some?
    ensures line.Some? ==>
      var out := Output((set e | e in exclude), LinkArgs(f, pkgs.table, pkgs.list).value);
      line.value == Printed(delim, argcount, out) && total == argcount + |out|
  {
    hide Args.Valid, PackageArgs, Printed, Output;
    var args := new Args();
    for i := 0 to |exclude|
      invariant args.Valid() && args.list == []
      invariant fresh(args) && fresh(args.positions) && fresh(args.positions.repr)
      invariant args.excluded == set e | e in exclude[..i]
    {
      args.Exclude(exclude[i]);
      assert exclude[..i + 1] == exclude[..i] + [exclude[i]];
    }
    assert exclude[..|exclude|] == exclude;
    ghost var all := LinkArgs(f, pkgs.table, pkgs.list);
    assert pkgs.list[0..] == pkgs.list;
    if all.Some? {
      assert args.list + all.value == all.value;
    }
    for i := 0 to |pkgs.list|
      invariant args.Valid() && fresh(args) && fresh(args.positions) && fresh(args.positions.repr)
      invariant args.excluded == set e | e in exclude
      invariant Joined(Some(args.list), LinkArgs(f, pkgs.table, pkgs.list[i..])) == all
    {
      var n := pkgs.list[i];
      assert pkgs.list[i..][1..] == pkgs.list[i + 1..];
      ghost var before := args.list;
      var ok := AppendPackage(args, f, pkgs.table[n]);
      if !ok {
        return None, argcount;
      }
      JoinedAssociates(Some(before), PackageArgs(f, pkgs.table[n]), LinkArgs(f, pkgs.table, pkgs.list[i + 1..]));
    }
    assert args.list + [] == args.list;
    var r;
    r, total := args.Write([], argcount, delim);
    assert [] + Printed(delim, argcount, Output(args.excluded, args.list)) == r;
    line := Some(r);
  }

  lemma JoinedAssociates(a: Option<seq<Bytes>>, b: Option<seq<Bytes>>, c: Option<seq<Bytes>>)
    ensures Joined(a, Joined(b, c)) == Joined(Joined(a, b), c)
  {
    if a.Some? && b.Some? && c.Some? {
      assert a.value + (b.value + c.value) == a.value + b.value + c.value;
    }
  }

  // ---------- link order ----------

  predicate Mentions(f: Choice, p: Pkg, arg: Bytes) {
    PackageArgs(f, p).Some? && arg in PackageArgs(f, p).value
  }

  lemma {:induction false} LinkArgsSplit(f: Choice, t: Table, a: seq<Bytes>, b: seq<Bytes>)
    requires forall n :: n in a + b ==> n in t
    ensures (forall n :: n in a ==> n in t) && (forall n :: n in b ==> n in t)
    ensures LinkArgs(f, t, a + b) == Joined(LinkArgs(f, t, a), LinkArgs(f, t, b))
    decreases |a|
  {
    hide PackageArgs;
    forall n | n in a ensures n in t { assert n in a + b; }
    forall n | n in b ensures n in t { assert n in a + b; }
    if a == [] {
      assert a + b == b;
      if LinkArgs(f, t, b).Some? { assert [] + LinkArgs(f, t, b).value == LinkArgs(f, t, b).value; }
    } else {
      assert (a + b)[1..] == a[1..] + b;
      LinkArgsSplit(f, t, a[1..], b);
      JoinedAssociates(PackageArgs(f, t[a[0]]), LinkArgs(f, t, a[1..]), LinkArgs(f, t, b));
    }
  }

  lemma {:induction false} NotMentioned(f: Choice, t: Table, names: seq<Bytes>, arg: Bytes)
    requires forall n :: n in names ==> n in t && !Mentions(f, t[n], arg)
    requires LinkArgs(f, t, names).Some?
    ensures arg !in LinkArgs(f, t, names).value
    decreases |names|
  {
    hide PackageArgs;
    if names != [] {
      NotMentioned(f, t, names[1..], arg);
      assert !Mentions(f, t[names[0]], arg);
    }
  }

  /** Where a package's arguments lie among all of them. */
  lemma LinkArgsAt(f: Choice, t: Table, names: seq<Bytes>, x: nat)
    requires x < |names| && (forall n :: n in names ==> n in t) && LinkArgs(f, t, names).Some?
    ensures (forall n :: n in names[..x] ==> n in t) && (forall n :: n in names[x + 1..] ==> n in t)
    ensures LinkArgs(f, t, names[..x]).Some? && PackageArgs(f, t[names[x]]).Some?
    ensures LinkArgs(f, t, names[x + 1..]).Some?
    ensures LinkArgs(f, t, names).value == LinkArgs(f, t, names[..x]).value
      + PackageArgs(f, t[names[x]]).value + LinkArgs(f, t, names[x + 1..]).value
  {
    hide PackageArgs, LinkArgs;
    assert names == names[..x] + names[x..];
    LinkArgsSplit(f, t, names[..x], names[x..]);
    assert names[x..][1..] == names[x + 1..] && names[x..][0] == names[x];
    LinkArgsStep(f, t, names[x..]);
    var a, b, c := LinkArgs(f, t, names[..x]).value, PackageArgs(f, t[names[x]]).value, LinkArgs(f, t, names[x + 1..]).value;
    assert a + (b + c) == a + b + c;
  }

  lemma LinkArgsStep(f: Choice, t: Table, names: seq<Bytes>)
    requires names != [] && forall n :: n in names ==> n in t
    ensures LinkArgs(f, t, names) == Joined(PackageArgs(f, t[names[0]]), LinkArgs(f, t, names[1..]))
  {
    hide PackageArgs;
  }

  lemma InFront(front: seq<Bytes>, tail: seq<Bytes>, i: nat, a: Bytes)
    requires i < |front + tail| && (front + tail)[i] == a && a !in tail
    ensures i < |front|
  {
    assert forall k :: 0 <= k < |tail| ==> tail[k] == (front + tail)[|front| + k];
  }

  lemma InBack(front: seq<Bytes>, tail: seq<Bytes>, j: nat, b: Bytes)
    requires j < |front + tail| && (front + tail)[j] == b && b !in front
    ensures j >= |front|
  {
    assert forall k :: 0 <= k < |front| ==> front[k] == (front + tail)[k];
  }

  /** What only the package at `x` mentions is all found before what a later package mentions is last found. */
  lemma MentionedBefore(f: Choice, t: Table, names: seq<Bytes>, x: nat, y: nat, a: Bytes, b: Bytes, i: nat, j: nat)
    requires x < y < |names| && T.Distinct(names)
    requires (forall n :: n in names ==> n in t) && LinkArgs(f, t, names).Some?
    requires forall n :: n in names && n != names[x] ==> !Mentions(f, t[n], a)
    requires Mentions(f, t[names[y]], b)
    requires var all := LinkArgs(f, t, names).value;
      && i < |all| && all[i] == a
      && j < |all| && all[j] == b && forall k :: j < k < |all| ==> all[k] != b
    ensures i < j
  {
    hide PackageArgs, LinkArgs;
    LinkArgsAt(f, t, names, x);
    LinkArgsAt(f, t, names, y);
    var all := LinkArgs(f, t, names).value;
    var own := PackageArgs(f, t[names[x]]).value;
    var head, tail := LinkArgs(f, t, names[..x]).value, LinkArgs(f, t, names[x + 1..]).value;
    NotMentioned(f, t, names[x + 1..], a);
    InFront(head + own, tail, i, a);
    var other := PackageArgs(f, t[names[y]]).value;
    var front := LinkArgs(f, t, names[..y]).value;
    var m :| 0 <= m < |other| && other[m] == b;
    assert all[|front| + m] == b;
    FrontCovers(f, t, names, x, y);
  }

  /** The arguments before package `y` include those up to and including package `x`. */
  lemma FrontCovers(f: Choice, t: Table, names: seq<Bytes>, x: nat, y: nat)
    requires x < y < |names| && (forall n :: n in names ==> n in t) && LinkArgs(f, t, names).Some?
    ensures (forall n :: n in names[..x] ==> n in t) && (forall n :: n in names[..y] ==> n in t)
    ensures LinkArgs(f, t, names[..x]).Some? && LinkArgs(f, t, names[..y]).Some? && PackageArgs(f, t[names[x]]).Some?
    ensures |LinkArgs(f, t, names[..y]).value|
      >= |LinkArgs(f, t, names[..x]).value| + |PackageArgs(f, t[names[x]]).value|
  {
    hide PackageArgs, LinkArgs;
    LinkArgsAt(f, t, names, y);
    LinkArgsAt(f, t, names[..y], x);
    assert names[..y][..x] == names[..x];
  }

  // ---------- which arguments are printed ----------

  /** Which arguments a filter passes, by their first bytes. */
  lemma FiltersByText(arg: Bytes)
    ensures FilterOk(Any, arg)
    ensures FilterOk(OnlyI, arg) <==> Flag(arg, 'I')
    ensures FilterOk(OnlyCapitalL, arg) <==> Flag(arg, 'L')
    ensures FilterOk(OnlyLibrary, arg) <==> Flag(arg, 'l')
    ensures FilterOk(OtherCflags, arg) <==> !Flag(arg, 'I')
    ensures FilterOk(OtherLibs, arg) <==> !Flag(arg, 'L') && !Flag(arg, 'l')
  {
    RepeatableFlags(arg);
    if |arg| >= 2 {
      assert DASH_I <= arg <==> DASH_I == arg[..2];
      assert DASH_CAPITAL_L <= arg <==> DASH_CAPITAL_L == arg[..2];
      assert arg[..2] == [arg[0], arg[1]];
    }
  }

  /** The field splits, and this is one of its arguments. */
  predicate Holds(field: Bytes, arg: Bytes) {
    Q.Fields(field).Some? && arg in Q.Fields(field).value
  }

  lemma {:induction false} FilteredIn(f: Filter, args: seq<Bytes>, arg: Bytes)
    ensures arg in Filtered(f, args) <==> arg in args && FilterOk(f, arg)
  {
    hide FilterOk;
    if args != [] {
      FilteredIn(f, args[1..], arg);
    }
  }

  /** The package contributes the argument: from `Libs` if it is public or linking is static, and from
      `Libs.private` only if linking is static. */
  predicate Gives(f: Choice, p: Pkg, arg: Bytes) {
    && FilterOk(f.filter, arg)
    && ((Holds(p.data.libs, arg) && (f.isStatic || p.isPublic)) || (Holds(p.data.libsPrivate, arg) && f.isStatic))
  }

  lemma MentionsGives(f: Choice, p: Pkg, arg: Bytes)
    requires PackageArgs(f, p).Some?
    ensures Mentions(f, p, arg) <==> Gives(f, p, arg)
  {
    hide FilterOk;
    if Q.Fields(p.data.libs).Some? {
      FilteredIn(f.filter, Q.Fields(p.data.libs).value, arg);
    }
    if Q.Fields(p.data.libsPrivate).Some? {
      FilteredIn(f.filter, Q.Fields(p.data.libsPrivate).value, arg);
    }
  }

  lemma {:induction false} LinkArgsSome(f: Choice, t: Table, names: seq<Bytes>)
    requires forall n :: n in names ==> n in t
    ensures LinkArgs(f, t, names).Some? <==> forall n :: n in names ==> PackageArgs(f, t[n]).Some?
    decreases |names|
  {
    hide PackageArgs;
    if names != [] {
      LinkArgsSome(f, t, names[1..]);
    }
  }

  /** Printed are the arguments that some loaded package gives, but for the excluded. */
  lemma PrintedExactly(f: Choice, t: Table, names: seq<Bytes>, excluded: set<Bytes>, arg: Bytes)
    requires (forall n :: n in names ==> n in t) && LinkArgs(f, t, names).Some?
    ensures arg in LinkArgs(f, t, names).value <==> exists n :: n in names && Gives(f, t[n], arg)
    ensures arg in Output(excluded, LinkArgs(f, t, names).value)
      <==> !Excluded(excluded, arg) && exists n :: n in names && Gives(f, t[n], arg)
  {
    hide PackageArgs, LinkArgs, Gives, Excluded, Output, Mentions;
    var all := LinkArgs(f, t, names).value;
    LinkArgsSome(f, t, names);
    forall n | n in names ensures Mentions(f, t[n], arg) <==> Gives(f, t[n], arg) {
      MentionsGives(f, t[n], arg);
    }
    if n :| n in names && Gives(f, t[n], arg) {
      MentionedIn(f, t, names, n, arg);
    } else {
      NotMentioned(f, t, names, arg);
    }
    if arg in all && !Excluded(excluded, arg) {
      ArgumentPrinted(excluded, all, arg);
    }
    if arg in Output(excluded, all) {
      var out := Output(excluded, all);
      var k :| 0 <= k < |out| && out[k] == arg;
      var i, _ := OutputFrom(excluded, all, k, k);
      KeptNotExcluded(excluded, all, i);
    }
  }

  /** For static linking, what only one package's `Libs` hold precedes what its `Libs.private` hold alone. */
  lemma PublicFirst(f: Choice, t: Table, names: seq<Bytes>, excluded: set<Bytes>, x: nat, a: Bytes, b: Bytes)
    requires (forall n :: n in names ==> n in t) && LinkArgs(f, t, names).Some? && f.isStatic
    requires x < |names| && T.Distinct(names)
    requires !Holds(t[names[x]].data.libsPrivate, a) && !Holds(t[names[x]].data.libs, b)
    requires forall n :: n in names && n != names[x] ==> !Gives(f, t[n], a) && !Gives(f, t[n], b)
    ensures var out := Output(excluded, LinkArgs(f, t, names).value);
      forall i, j :: 0 <= i < |out| && 0 <= j < |out| && out[i] == a && out[j] == b ==> i < j
  {
    hide PackageArgs, LinkArgs, Output, Gives, Keeps, Mentions, Holds, FieldArgs;
    var all := LinkArgs(f, t, names).value;
    var out := Output(excluded, all);
    forall i, j | 0 <= i < |out| && 0 <= j < |out| && out[i] == a && out[j] == b ensures i < j {
      if j <= i {
        var v, u := OutputFrom(excluded, all, j, i);
        OwnPublicFirst(f, t, names, x, a, b, u, v);
        assert false;
      }
    }
  }

  lemma OwnPublicFirst(f: Choice, t: Table, names: seq<Bytes>, x: nat, a: Bytes, b: Bytes, i: nat, j: nat)
    requires (forall n :: n in names ==> n in t) && LinkArgs(f, t, names).Some? && f.isStatic
    requires x < |names| && T.Distinct(names)
    requires !Holds(t[names[x]].data.libsPrivate, a) && !Holds(t[names[x]].data.libs, b)
    requires forall n :: n in names && n != names[x] ==> !Gives(f, t[n], a) && !Gives(f, t[n], b)
    requires var all := LinkArgs(f, t, names).value; i < |all| && j < |all| && all[i] == a && all[j] == b
    ensures i < j
  {
    hide PackageArgs, LinkArgs, Gives, Mentions, Holds, FieldArgs;
    LinkArgsSome(f, t, names);
    LinkArgsAt(f, t, names, x);
    var p := t[names[x]];
    var head, tail := LinkArgs(f, t, names[..x]).value, LinkArgs(f, t, names[x + 1..]).value;
    forall n | n in names && n != names[x] ensures !Mentions(f, t[n], a) && !Mentions(f, t[n], b) {
      MentionsGives(f, t[n], a);
      MentionsGives(f, t[n], b);
    }
    NotMentioned(f, t, names[..x], b);
    NotMentioned(f, t, names[x + 1..], a);
    OwnParts(f, p, a, b);
    var first, second := FieldArgs(f.filter, p.data.libs).value, FieldArgs(f.filter, p.data.libsPrivate).value;
    Between(head, first, second, tail, a, b, i, j);
  }

  lemma OwnParts(f: Choice, p: Pkg, a: Bytes, b: Bytes)
    requires PackageArgs(f, p).Some? && f.isStatic && !Holds(p.data.libsPrivate, a) && !Holds(p.data.libs, b)
    ensures FieldArgs(f.filter, p.data.libs).Some? && FieldArgs(f.filter, p.data.libsPrivate).Some?
    ensures PackageArgs(f, p).value
      == FieldArgs(f.filter, p.data.libs).value + FieldArgs(f.filter, p.data.libsPrivate).value
    ensures b !in FieldArgs(f.filter, p.data.libs).value && a !in FieldArgs(f.filter, p.data.libsPrivate).value
  {
    hide FilterOk;
    FilteredIn(f.filter, Q.Fields(p.data.libs).value, b);
    FilteredIn(f.filter, Q.Fields(p.data.libsPrivate).value, a);
  }

  lemma Between(w: seq<Bytes>, x: seq<Bytes>, y: seq<Bytes>, z: seq<Bytes>, a: Bytes, b: Bytes, i: nat, j: nat)
    requires b !in w && b !in x && a !in y && a !in z
    requires var all := w + (x + y) + z; i < |all| && j < |all| && all[i] == a && all[j] == b
    ensures i < j
  {
    var all := w + (x + y) + z;
    assert all == (w + x) + (y + z);
    InFront(w + x, y + z, i, a);
    InBack(w + x, y + z, j, b);
  }

  // ---------- the printed line ----------

  ghost predicate AllEscaped(args: seq<Bytes>) {
    forall i :: 0 <= i < |args| ==> Q.Escaped(args[i])
  }

  lemma {:induction false} FilteredEscaped(f: Filter, args: seq<Bytes>)
    requires AllEscaped(args)
    ensures AllEscaped(Filtered(f, args))
  {
    hide FilterOk, Q.Escaped;
    if args != [] {
      FilteredEscaped(f, args[1..]);
    }
  }

  lemma FieldArgsEscaped(f: Filter, field: Bytes)
    ensures FieldArgs(f, field).Some? ==> AllEscaped(FieldArgs(f, field).value)
  {
    hide Q.Escaped, Filtered;
    Q.FieldsEscaped(field);
    if FieldArgs(f, field).Some? {
      FilteredEscaped(f, Q.Fields(field).value);
    }
  }

  lemma {:induction false} LinkArgsEscaped(f: Choice, t: Table, names: seq<Bytes>)
    requires (forall n :: n in names ==> n in t) && LinkArgs(f, t, names).Some?
    ensures AllEscaped(LinkArgs(f, t, names).value)
    decreases |names|
  {
    hide Q.Escaped, FieldArgs;
    if names != [] {
      var p := t[names[0]];
      FieldArgsEscaped(f.filter, p.data.libs);
      FieldArgsEscaped(f.filter, p.data.libsPrivate);
      LinkArgsEscaped(f, t, names[1..]);
    }
  }

  /** The line splits into exactly the kept arguments. */
  lemma LinkLineSplits(f: Choice, t: Table, names: seq<Bytes>, excluded: set<Bytes>, delim: u8)
    requires (forall n :: n in names ==> n in t) && LinkArgs(f, t, names).Some? && Delimits(delim)
    requires Output(excluded, LinkArgs(f, t, names).value) != []
    ensures var out := Output(excluded, LinkArgs(f, t, names).value);
      SplitLine(delim, Printed(delim, 0, out), []) == out
  {
    hide Q.Escaped, LinkArgs, SplitLine, Printed, Output;
    var all := LinkArgs(f, t, names).value;
    var out := Output(excluded, all);
    LinkArgsEscaped(f, t, names);
    forall i | 0 <= i < |out| ensures Q.Escaped(out[i]) {
      var a, b := OutputFrom(excluded, all, i, i);
    }
    LineSplits(delim, out);
  }

  lemma {:induction false} MentionedIn(f: Choice, t: Table, names: seq<Bytes>, n: Bytes, arg: Bytes)
    requires (forall n :: n in names ==> n in t) && LinkArgs(f, t, names).Some?
    requires n in names && Mentions(f, t[n], arg)
    ensures arg in LinkArgs(f, t, names).value
    decreases |names|
  {
    hide PackageArgs;
    if n != names[0] {
      MentionedIn(f, t, names[1..], n, arg);
    }
  }

  /** In the output, what only an earlier package mentions is before what a later one mentions. */
  lemma OutputOrder(f: Choice, t: Table, names: seq<Bytes>, excluded: set<Bytes>,
    x: nat, y: nat, a: Bytes, b: Bytes, i: nat, j: nat)
    requires x < y < |names| && T.Distinct(names)
    requires (forall n :: n in names ==> n in t) && LinkArgs(f, t, names).Some?
    requires forall n :: n in names && n != names[x] ==> !Mentions(f, t[n], a)
    requires Mentions(f, t[names[y]], b) && IsLibrary(b) && Dedupable(b)
    requires var out := Output(excluded, LinkArgs(f, t, names).value);
      i < |out| && j < |out| && out[i] == a && out[j] == b
    ensures i < j
  {
    hide PackageArgs, LinkArgs, Mentions, Output, Dedupable;
    var all := LinkArgs(f, t, names).value;
    if j <= i {
      var v, u := OutputFrom(excluded, all, j, i);
      MentionedBefore(f, t, names, x, y, a, b, u, v);
      assert false;
    }
  }

  /** End to end: the libraries that only `p` mentions are printed before those that its direct
      dependency `q` mentions, unless `q` leads back to `p`. */
  lemma LinkOrder(c: D.Config, specs: seq<Spec>, pkgs: Pkgs,
    f: Choice, excluded: set<Bytes>, delim: u8, p: Bytes, q: Bytes, a: Bytes, b: Bytes)
    requires P.Full(c) && D.Walked(c, specs) == Ok(pkgs) && Delimits(delim)
    requires forall n :: n in pkgs.list ==> n in pkgs.table
    requires LinkArgs(f, pkgs.table, pkgs.list).Some?
    requires p in pkgs.table && q in T.Edges(TableOf(pkgs.table))[p] && !Reaches(T.Edges(TableOf(pkgs.table)), q, p)
    requires Mentions(f, pkgs.table[p], a) && IsLibrary(a) && Dedupable(a)
    requires forall n :: n in pkgs.table && n != p ==> !Mentions(f, pkgs.table[n], a)
    requires q in pkgs.table && Mentions(f, pkgs.table[q], b) && IsLibrary(b) && Dedupable(b)
    ensures var out := SplitLine(delim, Printed(delim, 0, Output(excluded, LinkArgs(f, pkgs.table, pkgs.list).value)), []);
      && a in out && b in out
      && forall i, j :: 0 <= i < |out| && 0 <= j < |out| && out[i] == a && out[j] == b ==> i < j
  {
    hide PackageArgs, LinkArgs, Mentions, Output, Dedupable, Printed, SplitLine, TableOf, PathToRealname, D.Walked;
    P.SearchExplained(c, specs);
    LoadedBefore(c, specs, pkgs, p, q);
    var t, names := pkgs.table, pkgs.list;
    var all := LinkArgs(f, t, names).value;
    MentionedIn(f, t, names, p, a);
    MentionedIn(f, t, names, q, b);
    ArgumentPrinted(excluded, all, a);
    ArgumentPrinted(excluded, all, b);
    LinkLineSplits(f, t, names, excluded, delim);
    var out := Output(excluded, all);
    var x, y :| 0 <= x < y < |names| && names[x] == p && names[y] == q;
    forall i, j | 0 <= i < |out| && 0 <= j < |out| && out[i] == a && out[j] == b ensures i < j {
      OutputOrder(f, t, names, excluded, x, y, a, b, i, j);
    }
  }

  lemma LoadedBefore(c: D.Config, specs: seq<Spec>, pkgs: Pkgs, p: Bytes, q: Bytes)
    requires P.Full(c) && P.Finished(c, specs, pkgs)
    requires p in pkgs.table && q in T.Edges(TableOf(pkgs.table))[p] && !Reaches(T.Edges(TableOf(pkgs.table)), q, p)
    ensures p in pkgs.list && q in pkgs.table && q in pkgs.list && T.Before(pkgs.list, p, q) && T.Distinct(pkgs.list)
  {
    hide T.Complete, T.Reached, P.Checked, PathToRealname, Reaches;
    var t := TableOf(pkgs.table);
    assert T.Depends(t[p], q);
    assert T.Ordered(t, pkgs.list);
  }
}
