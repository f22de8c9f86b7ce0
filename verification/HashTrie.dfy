/** A 4-ary trie keyed by the two-bit digits of a consumed 32-bit hash. */
module HashTrie {
  import opened Bytes

  // ---------- the hash and its digits ----------

  function Mixed(h: bv32, b: u8): bv32 { (h ^ (b as bv32)) * 0x01000193 }

  function HashFrom(h: bv32, s: Bytes): bv32
    decreases |s|
  {
    if s == [] then h else HashFrom(Mixed(h, s[0]), s[1..])
  }

  newtype u32 = x: int | 0 <= x < 0x1_0000_0000

  function Hash(s: Bytes): u32 { HashFrom(0x811c9dc5, s) as u32 }

  method ComputeHash(s: Bytes) returns (r: u32)
    ensures r == Hash(s)
  {
    var h: bv32 := 0x811c9dc5;
    var i := 0;
    while i < |s|
      invariant i <= |s| && HashFrom(h, s[i..]) == HashFrom(0x811c9dc5, s)
    {
      assert s[i..][1..] == s[i + 1..];
      h := Mixed(h, s[i]);
      i := i + 1;
    }
    r := h as u32;
  }

  lemma HashNext(h: bv32, c: u8, s: Bytes)
    ensures HashFrom(h, [c] + s) == HashFrom(Mixed(h, c), s) && HashFrom(h, []) == h
  {
    hide Mixed;
    assert ([c] + s)[1..] == s;
  }

  /** Published values of the 32-bit FNV-1a hash: of nothing, of "a" and of "foo". */
  lemma KnownHashes()
    ensures Hash([]) == 0x811c9dc5
    ensures Hash(['a' as u8]) == 0xe40c292c
    ensures Hash(['f' as u8, 'o' as u8, 'o' as u8]) == 0xa9f37ed7
  {
    hide HashFrom;
    var f, o := 'f' as u8, 'o' as u8;
    assert Mixed(0x811c9dc5, 'a' as u8) == 0xe40c292c;
    HashNext(0x811c9dc5, 'a' as u8, []);
    HashNext(0xe40c292c, 0, []);
    assert Mixed(0x811c9dc5, f) == 0xe30c2799;
    assert Mixed(0xe30c2799, o) == 0x6222e842;
    assert Mixed(0x6222e842, o) == 0xa9f37ed7;
    HashNext(0x811c9dc5, f, [o, o]);
    HashNext(0xe30c2799, o, [o]);
    HashNext(0x6222e842, o, []);
    HashNext(0xa9f37ed7, 0, []);
    assert [f] + [o, o] == [f, o, o] && [o] + [o] == [o, o] && [o] + [] == [o];
    assert ['a' as u8] + [] == ['a' as u8];
  }

  type Path = seq<nat>

  /** The two bits a level uses up are shifted out. */
  function Shift(h: u32): u32 { (h as int * 4 % 0x1_0000_0000) as u32 }

  /** The hash after `k` levels have been walked. */
  function Shifted(h: u32, k: nat): u32 {
    if k == 0 then h else Shift(Shifted(h, k - 1))
  }

  function TopDigit(h: u32): (d: nat)
    ensures d < 4
  {
    h as int / 0x4000_0000
  }

  /** Where a name with hash `h` may live at depth `k`. */
  function HashPath(h: u32, k: nat): (p: Path)
    ensures |p| == k
  {
    if k == 0 then [] else HashPath(h, k - 1) + [TopDigit(Shifted(h, k - 1))]
  }

  function Pow4(k: nat): nat { if k == 0 then 1 else 4 * Pow4(k - 1) }

  lemma MultipleOf(m: int, a: int, t: int, r: int)
    ensures m * a - (m * t) * r == m * (a - t * r)
  {
  }

  lemma Regroup(a: int, b: int)
    ensures 4 * (a * b) == 4 * a * b
  {
  }

  lemma {:induction false} PowSum(j: nat, k: nat)
    ensures Pow4(j + k) == Pow4(j) * Pow4(k)
    decreases j
  {
    if j > 0 {
      PowSum(j - 1, k);
      Regroup(Pow4(j - 1), Pow4(k));
      PowStep(j);
      PowStep(j + k);
      hide Pow4;
    }
  }

  lemma PowStep(j: nat)
    requires j > 0
    ensures Pow4(j) == 4 * Pow4(j - 1)
  {
  }

  lemma PowSixteen()
    ensures Pow4(16) == 0x1_0000_0000
  {
    PowSum(4, 4);
    PowSum(8, 8);
    assert Pow4(4) == 256;
  }

  lemma ShiftMultiple(h: u32, m: int, b: int, t: int) returns (a: int)
    requires h as int * 4 == m * b && m * t == 0x1_0000_0000
    ensures Shift(h) as int == m * a
  {
    var r := h as int * 4 / 0x1_0000_0000;
    MultipleOf(m, b, t, r);
    a := b - t * r;
  }

  /** After `k` levels the hash is a multiple of 4 to the power `k`. */
  lemma {:induction false} ShiftedMultiple(h: u32, k: nat) returns (a: int)
    requires k <= 16
    ensures Shifted(h, k) as int == Pow4(k) * a
    decreases k
  {
    if k == 0 {
      a := h as int;
    } else {
      hide Pow4, Shift;
      var b := ShiftedMultiple(h, k - 1);
      PowSum(k, 16 - k);
      PowSixteen();
      PowStep(k);
      Regroup(Pow4(k - 1), b);
      a := ShiftMultiple(Shifted(h, k - 1), Pow4(k), b, Pow4(16 - k));
    }
  }

  /** Once the hash is used up every further digit is zero. */
  lemma {:induction false} DigitsRunOut(h: u32, k: nat)
    requires k >= 16
    ensures Shifted(h, k) == 0 && TopDigit(Shifted(h, k)) == 0
  {
    if k == 16 {
      var a := ShiftedMultiple(h, 16);
      PowSixteen();
    } else {
      DigitsRunOut(h, k - 1);
    }
  }

  lemma {:induction false} PathPrefix(h: u32, j: nat, k: nat)
    requires j <= k
    ensures HashPath(h, k)[..j] == HashPath(h, j)
  {
    if j < k {
      PathPrefix(h, j, k - 1);
      assert HashPath(h, k)[..j] == HashPath(h, k - 1)[..j];
    }
  }

  /** Two names share a path as long as their hashes share digits; past sixteen levels for ever. */
  lemma {:induction false} CollisionShares(g: u32, h: u32, k: nat)
    requires k >= 16 && HashPath(g, 16) == HashPath(h, 16)
    ensures HashPath(g, k) == HashPath(h, k)
  {
    if k > 16 {
      CollisionShares(g, h, k - 1);
      DigitsRunOut(g, k - 1);
      DigitsRunOut(h, k - 1);
    }
  }

  // ---------- the trie ----------

  class Node<V> {
    const name: Bytes
    var value: V
    var child: seq<Node?<V>>

    constructor (name: Bytes, value: V)
      ensures this.name == name && this.value == value && child == [null, null, null, null]
    {
      this.name := name;
      this.value := value;
      child := [null, null, null, null];
    }
  }

  ghost predicate HasParent<V>(at: map<Path, Node<V>>, p: Path) {
    p != [] ==> p[..|p| - 1] in at
  }

  /** The nodes form a tree: slot `d` of the node at `p` leads to the node at `p + [d]`. */
  ghost predicate Tree<V>(at: map<Path, Node<V>>, kids: map<Path, seq<Node?<V>>>, root: Node?<V>) {
    && at.Keys == kids.Keys
    && root == (if [] in at then at[[]] else null)
    && (forall p :: p in kids ==> |kids[p]| == 4)
    && (forall p, d :: p in kids && 0 <= d < 4 ==> kids[p][d] == if p + [d] in at then at[p + [d]] else null)
    && (forall p {:trigger HasParent(at, p)} :: p in at ==> HasParent(at, p))
    && (forall p, q :: p in at && q in at && at[p] == at[q] ==> p == q)
  }

  lemma NoChildren<V>(at: map<Path, Node<V>>, kids: map<Path, seq<Node?<V>>>, root: Node?<V>, p: Path, d: nat)
    requires Tree(at, kids, root) && p !in at
    ensures p + [d] !in at
  {
    assert (p + [d])[..|p|] == p;
    assert p + [d] in at ==> HasParent(at, p + [d]);
  }

  lemma LastStep(p: Path, d: nat, q: Path, e: nat)
    requires p + [d] == q + [e]
    ensures p == q && d == e
  {
    assert (p + [d])[..|p|] == p && (q + [e])[..|q|] == q;
    assert (p + [d])[|p|] == d;
  }

  /** Filling the empty slot `d` below `q` with a node that has no children gives a tree again. */
  lemma TreeAttached<V>(at: map<Path, Node<V>>, kids: map<Path, seq<Node?<V>>>, root: Node?<V>,
    q: Path, d: nat, r: Node<V>)
    requires Tree(at, kids, root) && q in at && d < 4 && q + [d] !in at
    requires forall p :: p in at ==> at[p] != r
    ensures Tree(at[q + [d] := r], kids[q := kids[q][d := r]][q + [d] := [null, null, null, null]], root)
  {
    var path := q + [d];
    var at', kids' := at[path := r], kids[q := kids[q][d := r]][path := [null, null, null, null]];
    forall p, e: nat | p in kids' && e < 4
      ensures kids'[p][e] == if p + [e] in at' then at'[p + [e]] else null
    {
      NoChildren(at, kids, root, path, e);
      if p + [e] == path {
        LastStep(p, e, q, d);
      }
    }
    forall p | p in at' ensures HasParent(at', p) {
      assert p in at ==> HasParent(at, p);
    }
  }

  lemma TreePlanted<V>(at: map<Path, Node<V>>, kids: map<Path, seq<Node?<V>>>, root: Node?<V>, r: Node<V>)
    requires Tree(at, kids, root) && [] !in at
    ensures at == map[] && kids == map[]
    ensures Tree(map[[] := r], map[[] := [null, null, null, null]], r)
  {
    forall p | p in at ensures false {
      NoPath(at, kids, root, p);
    }
  }

  lemma {:induction false} NoPath<V>(at: map<Path, Node<V>>, kids: map<Path, seq<Node?<V>>>, root: Node?<V>, p: Path)
    requires Tree(at, kids, root) && [] !in at
    ensures p !in at
    decreases |p|
  {
    if p != [] {
      assert p in at ==> HasParent(at, p);
      NoPath(at, kids, root, p[..|p| - 1]);
    }
  }

  /** Each node is on its name's path, and no name is there twice. */
  ghost predicate Named<V>(at: map<Path, Node<V>>, places: map<Bytes, Path>) {
    && (forall n :: n in places ==> places[n] in at && at[places[n]].name == n)
    && (forall p :: p in at ==> at[p].name in places && places[at[p].name] == p)
    && (forall p :: p in at ==> p == HashPath(Hash(at[p].name), |p|))
  }

  lemma NamedAttached<V>(at: map<Path, Node<V>>, places: map<Bytes, Path>, k: nat, r: Node<V>)
    requires Named(at, places) && r.name !in places && HashPath(Hash(r.name), k) !in at
    ensures var path := HashPath(Hash(r.name), k); Named(at[path := r], places[r.name := path])
  {
    hide Hash, HashPath;
  }

  class Trie<V> {
    var root: Node?<V>
    /** The node at each occupied path, and the path of each name. */
    ghost var at: map<Path, Node<V>>
    ghost var places: map<Bytes, Path>
    ghost var repr: set<Node<V>>

    /** The child slots of the node at each path. */
    ghost function Kids(): map<Path, seq<Node?<V>>>
      reads this`at, this`repr, repr
      requires forall p :: p in at ==> at[p] in repr
    {
      map p | p in at :: at[p].child
    }

    ghost predicate Linked()
      reads this`root, this`at, this`repr, repr
    {
      && (forall p :: p in at ==> at[p] in repr)
      && Tree(at, Kids(), root)
    }

    ghost predicate Valid()
      reads this, repr
    {
      Linked() && Named(at, places)
    }

    /** The finite map that the trie stands for. */
    ghost function Contents(): map<Bytes, V>
      reads this, repr
      requires Valid()
    {
      map n | n in places :: at[places[n]].value
    }

    constructor ()
      ensures Valid() && Contents() == map[] && fresh(repr)
    {
      root := null;
      at, places, repr := map[], map[], {};
    }

    /** A name that is in the trie is met on its path. */
    lemma {:induction false} OnPath(h: u32, j: nat, k: nat)
      requires Linked() && HashPath(h, k) in at && j <= k
      ensures HashPath(h, j) in at
      decreases k
    {
      if j < k {
        assert HasParent(at, HashPath(h, k));
        PathPrefix(h, k - 1, k);
        OnPath(h, j, k - 1);
      }
    }

    /** Nothing at depth `k` of its path and another name above: the name is not in the trie. */
    lemma NotHere(name: Bytes, k: nat)
      requires Valid() && HashPath(Hash(name), k) !in at
      requires forall j :: 0 <= j < k ==> HashPath(Hash(name), j) in at && at[HashPath(Hash(name), j)].name != name
      ensures name !in places
    {
      if name in places {
        var p := places[name];
        assert p == HashPath(Hash(name), |p|);
        if |p| >= k {
          OnPath(Hash(name), k, |p|);
        }
      }
    }

    /** The node at a path, or null. */
    ghost function Slot(p: Path): Node?<V>
      reads this
    {
      if p in at then at[p] else null
    }

    lemma SlotBelow(h: u32, k: nat)
      requires Linked() && HashPath(h, k) in at
      ensures |at[HashPath(h, k)].child| == 4
      ensures at[HashPath(h, k)].child[TopDigit(Shifted(h, k))] == Slot(HashPath(h, k + 1))
    {
    }

    lemma Found(p: Path)
      requires Valid() && p in at
      ensures at[p].name in places && at[places[at[p].name]] == at[p]
    {
    }

    lemma RootSlot(h: u32)
      requires Valid()
      ensures root == Slot(HashPath(h, 0))
    {
    }

    /** The nodes above depth `k` on a name's path are there, and hold other names. */
    ghost predicate Passed(name: Bytes, k: nat)
      reads this, repr
    {
      forall j :: 0 <= j < k ==> HashPath(Hash(name), j) in at && at[HashPath(Hash(name), j)].name != name
    }

    /** Walks down the name's path: to its node, or to the empty slot where it belongs. */
    method Walk(name: Bytes) returns (cur: Node?<V>, prev: Node?<V>, d: nat, ghost k: nat)
      requires Valid()
      ensures cur != null <==> name in places
      ensures cur != null ==> cur == at[places[name]]
      ensures cur == null ==> HashPath(Hash(name), k) !in at
      ensures cur == null && k == 0 ==> prev == null
      ensures cur == null && k > 0 ==>
        && HashPath(Hash(name), k - 1) in at && prev == at[HashPath(Hash(name), k - 1)]
        && d == TopDigit(Shifted(Hash(name), k - 1))
    {
      hide Hash, HashPath, Linked, Named, TopDigit;
      var h := ComputeHash(name);
      k := 0;
      cur, prev, d := root, null, 0;
      RootSlot(Hash(name));
      ghost var unseen := at.Keys;
      while cur != null
        invariant h == Shifted(Hash(name), k)
        invariant cur == Slot(HashPath(Hash(name), k))
        invariant Passed(name, k)
        invariant forall p :: p in at && |p| >= k ==> p in unseen
        invariant k == 0 ==> prev == null
        invariant k > 0 ==> prev == Slot(HashPath(Hash(name), k - 1)) && d == TopDigit(Shifted(Hash(name), k - 1))
        decreases unseen
      {
        ghost var path := HashPath(Hash(name), k);
        if cur.name == name {
          Found(path);
          return;
        }
        SlotBelow(Hash(name), k);
        unseen := unseen - {path};
        d := TopDigit(h);
        prev := cur;
        cur := cur.child[d];
        h := Shift(h);
        k := k + 1;
      }
      NotHere(name, k);
    }

    /** Puts a new node into the empty slot `d` below `prev`, or at the root. */
    method Attach(name: Bytes, prev: Node?<V>, d: nat, ghost k: nat, empty: V) returns (r: Node<V>)
      requires Linked() && HashPath(Hash(name), k) !in at
      requires k == 0 ==> prev == null
      requires k > 0 ==>
        && HashPath(Hash(name), k - 1) in at && prev == at[HashPath(Hash(name), k - 1)]
        && d == TopDigit(Shifted(Hash(name), k - 1))
      modifies this`root, this`at, this`repr, repr`child
      ensures Linked() && fresh(r) && repr == old(repr) + {r}
      ensures r.name == name && r.value == empty
      ensures at == old(at)[HashPath(Hash(name), k) := r]
    {
      hide Hash, Tree;
      ghost var path := HashPath(Hash(name), k);
      ghost var kids := Kids();
      r := new Node(name, empty);
      if prev == null {
        TreePlanted(at, kids, root, r);
        root := r;
        at := at[path := r];
      } else {
        ghost var q := HashPath(Hash(name), k - 1);
        TreeAttached(at, kids, root, q, d, r);
        DistinctNodes(q);
        prev.child := prev.child[d := r];
        at := at[path := r];
        kids := kids[q := kids[q][d := r]];
      }
      repr := repr + {r};
      assert Kids() == kids[path := r.child];
    }

    lemma DistinctNodes(q: Path)
      requires Linked() && q in at
      ensures forall p :: p in at && at[p] == at[q] ==> p == q
      ensures |at[q].child| == 4
    {
      assert at[q].child == Kids()[q];
    }

    lemma Places()
      requires Valid()
      ensures forall n :: n in places ==> places[n] in at && at[places[n]] in repr
    {
      hide Hash, HashPath;
    }

    /** Writing through the node that an insertion returned binds its name. */
    method StoreValue(name: Bytes, r: Node<V>, value: V)
      requires Valid() && name in places && r == at[places[name]]
      modifies r`value
      ensures Valid() && Contents() == old(Contents())[name := value]
    {
      hide Hash, HashPath, Tree;
      r.value := value;
      assert Kids() == old(Kids());
      assert forall n :: n in places && n != name ==> at[places[n]] != r;
    }

    /** The node of a name; if it is missing and may be made, it is, at the next free slot of its path. */
    method Insert(name: Bytes, create: bool, empty: V) returns (r: Node?<V>)
      requires Valid()
      modifies this`root, this`at, this`places, this`repr, repr`child
      ensures Valid() && fresh(repr - old(repr))
      ensures name in old(places) ==> r == old(at[places[name]]) && at == old(at) && places == old(places)
      ensures name !in old(places) && !create ==> r == null && at == old(at) && places == old(places)
      ensures name !in old(places) && create ==>
        && r != null && r.value == empty && name in places
        && places == old(places)[name := places[name]]
        && places[name] !in old(at) && at == old(at)[places[name] := r]
      ensures r != null ==> name in places && r == at[places[name]]
      ensures Contents() == if name in old(places) || !create then old(Contents()) else old(Contents())[name := empty]
    {
      hide Hash, HashPath, Linked, Named;
      ghost var k: nat;
      Places();
      var prev: Node?<V>, d: nat;
      r, prev, d, k := Walk(name);
      if r == null && create {
        r := Attach(name, prev, d, k, empty);
        NamedAttached(old(at), places, k, r);
        places := places[name := HashPath(Hash(name), k)];
      }
    }

    /** Binds a name, whether it was bound before or not. */
    method Bind(name: Bytes, value: V)
      requires Valid()
      modifies this`root, this`at, this`places, this`repr, repr
      ensures Valid() && fresh(repr - old(repr))
      ensures Contents() == old(Contents())[name := value]
      ensures forall n :: n in old(places) ==> n in places && places[n] == old(places)[n] && at[places[n]] == old(at[places[n]])
    {
      hide Hash, HashPath, Linked, Named;
      Places();
      var r := Insert(name, true, value);
      Places();
      StoreValue(name, r, value);
    }

    method Lookup(name: Bytes) returns (value: Option<V>)
      requires Valid()
      ensures value == if name in Contents() then Some(Contents()[name]) else None
    {
      hide Hash, HashPath, Linked;
      var r, _, _, _ := Walk(name);
      value := if r == null then None else Some(r.value);
    }
  }

  // ---------- any sequence of operations agrees with a finite map ----------

  datatype Op<V> = Find(name: Bytes) | Set(name: Bytes, value: V)

  function MapAfter<V>(m: map<Bytes, V>, ops: seq<Op<V>>): map<Bytes, V> {
    if ops == [] then m
    else
      var before := MapAfter(m, ops[..|ops| - 1]);
      match ops[|ops| - 1]
      case Find(_) => before
      case Set(n, v) => before[n := v]
  }

  function Answers<V>(m: map<Bytes, V>, ops: seq<Op<V>>): seq<Option<V>> {
    if ops == [] then []
    else
      var before := MapAfter(m, ops[..|ops| - 1]);
      Answers(m, ops[..|ops| - 1])
      + match ops[|ops| - 1]
        case Find(n) => [if n in before then Some(before[n]) else None]
        case Set(_, _) => []
  }

  method Perform<V>(t: Trie<V>, op: Op<V>) returns (answers: seq<Option<V>>)
    requires t.Valid()
    modifies t, t.repr
    ensures t.Valid() && fresh(t.repr - old(t.repr))
    ensures op.Set? ==> answers == [] && t.Contents() == old(t.Contents())[op.name := op.value]
    ensures op.Find? ==>
      && t.Contents() == old(t.Contents())
      && answers == [if op.name in t.Contents() then Some(t.Contents()[op.name]) else None]
    ensures forall n :: n in old(t.places) ==> n in t.places && t.places[n] == old(t.places)[n]
  {
    hide Trie.Linked, Named;
    match op
    case Find(name) =>
      var value := t.Lookup(name);
      answers := [value];
    case Set(name, value) =>
      t.Bind(name, value);
      answers := [];
  }

  /** Runs any sequence of operations; what they find is what a finite map would answer. */
  method Replay<V>(t: Trie<V>, ops: seq<Op<V>>) returns (answers: seq<Option<V>>)
    requires t.Valid()
    modifies t, t.repr
    ensures t.Valid() && fresh(t.repr - old(t.repr))
    ensures t.Contents() == MapAfter(old(t.Contents()), ops)
    ensures answers == Answers(old(t.Contents()), ops)
    ensures forall n :: n in old(t.places) ==> n in t.places && t.places[n] == old(t.places)[n]
  {
    hide Trie.Valid, Trie.Contents, MapAfter, Answers;
    answers := [];
    AnswersStart(t.Contents(), ops);
    for i := 0 to |ops|
      invariant t.Valid() && fresh(t.repr - old(t.repr))
      invariant t.Contents() == MapAfter(old(t.Contents()), ops[..i])
      invariant answers == Answers(old(t.Contents()), ops[..i])
      invariant forall n :: n in old(t.places) ==> n in t.places && t.places[n] == old(t.places)[n]
    {
      AnswersNext(old(t.Contents()), ops, i);
      var more := Perform(t, ops[i]);
      answers := answers + more;
      assert ops[i].Set? ==> answers == answers + [];
    }
    assert ops[..|ops|] == ops;
  }

  lemma AnswersStart<V>(m: map<Bytes, V>, ops: seq<Op<V>>)
    ensures MapAfter(m, ops[..0]) == m && Answers(m, ops[..0]) == []
  {
  }

  lemma AnswersNext<V>(m: map<Bytes, V>, ops: seq<Op<V>>, i: nat)
    requires i < |ops|
    ensures var before := MapAfter(m, ops[..i]);
      match ops[i]
      case Find(n) =>
        && MapAfter(m, ops[..i + 1]) == before
        && Answers(m, ops[..i + 1]) == Answers(m, ops[..i]) + [if n in before then Some(before[n]) else None]
      case Set(n, v) =>
        && MapAfter(m, ops[..i + 1]) == before[n := v]
        && Answers(m, ops[..i + 1]) == Answers(m, ops[..i])
  {
    assert ops[..i + 1][..i] == ops[..i];
  }
}
