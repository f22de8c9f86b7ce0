/** Packages, the table they are loaded into, and the frames of the traversal stack. */
module Packages {
  import opened Bytes
  import T = Traversal
  import V = Version

  datatype Spec = Spec(name: Bytes, op: V.VersOp, version: Bytes)

  /** What loading a package file yields, with every field expanded. */
  datatype Loaded = Loaded(
    version: Bytes,
    requires_: seq<Spec>,
    requiresPrivate: seq<Spec>,
    libs: Bytes,
    libsPrivate: Bytes)

  datatype Pkg = Pkg(data: Loaded, direct: bool, isPublic: bool)

  type Table = map<Bytes, Pkg>

  datatype Pkgs = Pkgs(table: Table, list: seq<Bytes>, count: nat)

  datatype ProcessError =
    | NotFound(name: Bytes)
    | VersionMismatch(spec: Spec)
    | TooDeep(name: Bytes)

  // ---------- real names ----------

  const DOT_PC: Bytes := ['.' as u8, 'p' as u8, 'c' as u8]

  predicate RealnameIsPath(realname: Bytes) {
    |realname| > 3 && realname[|realname| - 3..] == DOT_PC
  }

  /** Where the last path component starts. */
  function BaseStart(path: Bytes): (n: nat)
    ensures n <= |path|
    ensures n > 0 ==> PathSep(path[n - 1])
    ensures forall i :: n <= i < |path| ==> !PathSep(path[i])
  {
    if path == [] then 0
    else if PathSep(path[|path| - 1]) then |path|
    else BaseStart(path[..|path| - 1])
  }

  function PathToRealname(path: Bytes): Bytes {
    if !RealnameIsPath(path) then path
    else
      assert !PathSep(path[|path| - 3..][0]) && !PathSep(path[|path| - 3..][1]) && !PathSep(path[|path| - 3..][2]);
      var name := path[BaseStart(path)..];
      name[..|name| - 3]
  }

  /** The real name of a spec: of a path to a package file the last component without its suffix, else the spec. */
  method Realname(path: Bytes) returns (r: Bytes)
    ensures r == PathToRealname(path)
  {
    if !RealnameIsPath(path) {
      return path;
    }
    var baselen := 0;
    for i := 0 to |path|
      invariant baselen <= i && baselen == BaseStart(path[..i])
    {
      assert path[..i + 1][..i] == path[..i];
      if PathSep(path[i]) {
        baselen := i + 1;
      }
    }
    assert path[..|path|] == path;
    var name := path[baselen..];
    assert !PathSep(path[|path| - 3..][0]) && !PathSep(path[|path| - 3..][1]) && !PathSep(path[|path| - 3..][2]);
    r := name[..|name| - 3];
  }

  lemma BaseStartIs(path: Bytes, n: nat)
    requires n <= |path| && (n > 0 ==> PathSep(path[n - 1]))
    requires forall i :: n <= i < |path| ==> !PathSep(path[i])
    ensures BaseStart(path) == n
  {
  }

  predicate NoSeparator(s: Bytes) { '/' as u8 !in s && '\\' as u8 !in s }

  /** A package file's path names what stands between its last separator and its suffix. */
  lemma PathNames(dir: Bytes, sep: u8, base: Bytes)
    requires (sep == '/' as u8 || sep == '\\' as u8) && NoSeparator(base)
    ensures PathToRealname(dir + [sep] + base + ['.' as u8, 'p' as u8, 'c' as u8]) == base
    ensures base != [] ==> PathToRealname(base + ['.' as u8, 'p' as u8, 'c' as u8]) == base
  {
    var path, name := dir + [sep] + base + DOT_PC, base + DOT_PC;
    assert name[|name| - 3..] == DOT_PC && path[|path| - 3..] == DOT_PC;
    forall i | 0 <= i < |name| ensures !PathSep(name[i]) && path[|dir| + 1 + i] == name[i] {
      if i < |base| {
        assert name[i] in base;
      } else {
        assert name[i] == DOT_PC[i - |base|];
      }
    }
    assert path[|dir| + 1..] == name && name[..|name| - 3] == base;
    BaseStartIs(path, |dir| + 1);
    BaseStartIs(name, 0);
  }

  /** Any other spec is its own real name. */
  lemma NameIsItself(name: Bytes)
    requires |name| <= 3 || name[|name| - 3] != '.' as u8 || name[|name| - 2] != 'p' as u8 || name[|name| - 1] != 'c' as u8
    ensures PathToRealname(name) == name
  {
    if |name| > 3 {
      assert name[|name| - 3..] == [name[|name| - 3], name[|name| - 2], name[|name| - 1]];
    }
  }

  // ---------- what the traversal sees of packages and frames ----------

  datatype Frame = Frame(specs: seq<Spec>, newpkg: Option<Bytes>, depth: nat, direct: bool, isPublic: bool)

  function Realnames(specs: seq<Spec>): (names: seq<Bytes>)
    ensures |names| == |specs|
  {
    seq(|specs|, i requires 0 <= i < |specs| => PathToRealname(specs[i].name))
  }

  function NodeOf(p: Pkg): T.Node {
    T.Node(Realnames(p.data.requires_), Realnames(p.data.requiresPrivate), p.direct, p.isPublic)
  }

  function TableOf(t: Table): T.Table {
    map n | n in t :: NodeOf(t[n])
  }

  function FrameOf(f: Frame): T.Frame {
    T.Frame(Realnames(f.specs), f.newpkg, f.direct, f.isPublic)
  }

  /** Every package in the table is what the world holds under some spelling of its name. */
  ghost predicate Sourced(world: map<Bytes, Loaded>, t: Table) {
    forall n :: n in t ==> exists s :: s in world && PathToRealname(s) == n && t[n].data == world[s]
  }

  /** The command line or some package file asks for this. */
  ghost predicate Requested(world: map<Bytes, Loaded>, specs: seq<Spec>, spec: Spec) {
    || spec in specs
    || exists s :: s in world && (spec in world[s].requires_ || spec in world[s].requiresPrivate)
  }

  ghost predicate AllRequested(world: map<Bytes, Loaded>, specs: seq<Spec>, ss: seq<Spec>) {
    forall spec :: spec in ss ==> Requested(world, specs, spec)
  }

  // ---------- how these change ----------

  lemma RealnamesTail(specs: seq<Spec>)
    requires specs != []
    ensures Realnames(specs)[0] == PathToRealname(specs[0].name)
    ensures Realnames(specs[1..]) == Realnames(specs)[1..]
  {
    hide PathToRealname;
  }

  lemma TableOfUpdate(t: Table, n: Bytes, p: Pkg)
    ensures TableOf(t[n := p]) == TableOf(t)[n := NodeOf(p)]
  {
    hide NodeOf;
  }

  lemma RequestedTail(world: map<Bytes, Loaded>, specs: seq<Spec>, ss: seq<Spec>)
    requires ss != [] && AllRequested(world, specs, ss)
    ensures Requested(world, specs, ss[0]) && AllRequested(world, specs, ss[1..])
  {
  }

  lemma RequestedByPackage(world: map<Bytes, Loaded>, specs: seq<Spec>, t: Table, n: Bytes)
    requires Sourced(world, t) && n in t
    ensures AllRequested(world, specs, t[n].data.requires_)
    ensures AllRequested(world, specs, t[n].data.requiresPrivate)
  {
    hide PathToRealname;
    var s :| s in world && PathToRealname(s) == n && t[n].data == world[s];
  }
}
