/** Directed graphs as finite successor maps, and what can be reached in them. */
module Graph {
  import opened Bytes

  type Graph = map<Bytes, set<Bytes>>

  ghost predicate IsPath(g: Graph, p: seq<Bytes>) {
    && |p| > 0
    && (|p| > 1 ==>
          var k := |p| - 1;
          p[k - 1] in g && p[k] in g[p[k - 1]] && IsPath(g, p[..k]))
  }

  /** Some path, possibly of length zero, leads from `a` to `b`. */
  ghost predicate Reaches(g: Graph, a: Bytes, b: Bytes) {
    exists p :: IsPath(g, p) && p[0] == a && p[|p| - 1] == b
  }

  ghost predicate ReachedFrom(g: Graph, roots: set<Bytes>, b: Bytes) {
    exists a :: a in roots && Reaches(g, a, b)
  }

  /** `h` has every vertex of `g`, with the same successors. */
  ghost predicate Extends(g: Graph, h: Graph) {
    forall n :: n in g ==> n in h && h[n] == g[n]
  }

  ghost predicate Acyclic(g: Graph) {
    forall a, b :: a in g && b in g[a] ==> !Reaches(g, b, a)
  }

  lemma ReachesSelf(g: Graph, a: Bytes)
    ensures Reaches(g, a, a)
  {
    var p := [a];
    assert IsPath(g, p) && p[0] == a && p[|p| - 1] == a;
  }

  lemma ReachesStep(g: Graph, a: Bytes, b: Bytes, c: Bytes)
    requires Reaches(g, a, b) && b in g && c in g[b]
    ensures Reaches(g, a, c)
  {
    var p :| IsPath(g, p) && p[0] == a && p[|p| - 1] == b;
    var q := p + [c];
    assert q[..|p|] == p;
    assert IsPath(g, q) && q[0] == a && q[|q| - 1] == c;
  }

  lemma {:induction false} PathExtended(g: Graph, h: Graph, p: seq<Bytes>)
    requires Extends(g, h) && IsPath(g, p)
    ensures IsPath(h, p)
  {
    if |p| > 1 {
      PathExtended(g, h, p[..|p| - 1]);
    }
  }

  lemma ReachesExtended(g: Graph, h: Graph, a: Bytes, b: Bytes)
    requires Extends(g, h) && Reaches(g, a, b)
    ensures Reaches(h, a, b)
  {
    var p :| IsPath(g, p) && p[0] == a && p[|p| - 1] == b;
    PathExtended(g, h, p);
  }

  /** A set that holds the start of a path and is closed under successors holds the end. */
  lemma {:induction false} ClosedHoldsPath(g: Graph, s: set<Bytes>, p: seq<Bytes>)
    requires IsPath(g, p) && p[0] in s
    requires forall n, d :: n in s && n in g && d in g[n] ==> d in s
    ensures p[|p| - 1] in s
  {
    if |p| > 1 {
      ClosedHoldsPath(g, s, p[..|p| - 1]);
    }
  }

  lemma ClosedHoldsReached(g: Graph, s: set<Bytes>, roots: set<Bytes>, b: Bytes)
    requires roots <= s && ReachedFrom(g, roots, b)
    requires forall n, d :: n in s && n in g && d in g[n] ==> d in s
    ensures b in s
  {
    var a :| a in roots && Reaches(g, a, b);
    var p :| IsPath(g, p) && p[0] == a && p[|p| - 1] == b;
    ClosedHoldsPath(g, s, p);
  }
}
