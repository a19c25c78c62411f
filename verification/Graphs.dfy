// Membership graphs: every group maps to the members it names. What reaches a
// node decides its memberOf, so the write path is about how reachability changes
// when some groups change.
module Graphs {

  type Graph<N> = map<N, set<N>>

  /** A sequence of nodes in which each but the last is a group naming the next. */
  ghost predicate IsChain<N>(g: Graph<N>, p: seq<N>) {
    |p| >= 1 && forall i :: 0 <= i < |p| - 1 ==> p[i] in g && p[i + 1] in g[p[i]]
  }

  ghost predicate IsWalk<N>(g: Graph<N>, p: seq<N>, a: N, b: N) {
    |p| >= 2 && IsChain(g, p) && p[0] == a && p[|p| - 1] == b
  }

  /** a reaches b over one or more membership edges. */
  ghost predicate Reaches<N(!new)>(g: Graph<N>, a: N, b: N) {
    exists p: seq<N> :: IsWalk(g, p, a, b)
  }

  /** The groups y belongs to: through any number of edges when nested, else through one. */
  ghost function Reaching<N(!new)>(g: Graph<N>, nested: bool, y: N): set<N> {
    set a | a in g.Keys && (if nested then Reaches(g, a, y) else y in g[a])
  }

  lemma EdgeReaches<N(!new)>(g: Graph<N>, a: N, b: N)
    requires a in g && b in g[a]
    ensures Reaches(g, a, b)
  {
    assert IsWalk(g, [a, b], a, b);
  }

  lemma PrependReaches<N(!new)>(g: Graph<N>, a: N, b: N, c: N)
    requires a in g && b in g[a] && Reaches(g, b, c)
    ensures Reaches(g, a, c)
  {
    var p :| IsWalk(g, p, b, c);
    var q := [a] + p;
    forall i | 0 <= i < |q| - 1 ensures q[i] in g && q[i + 1] in g[q[i]] {
      if i > 0 { assert q[i] == p[i - 1] && q[i + 1] == p[i]; }
    }
    assert IsWalk(g, q, a, c);
  }

  lemma AppendReaches<N(!new)>(g: Graph<N>, a: N, b: N, c: N)
    requires Reaches(g, a, b) && b in g && c in g[b]
    ensures Reaches(g, a, c)
  {
    var p :| IsWalk(g, p, a, b);
    var q := p + [c];
    forall i | 0 <= i < |q| - 1 ensures q[i] in g && q[i + 1] in g[q[i]] {
      if i < |p| - 1 { assert q[i] == p[i] && q[i + 1] == p[i + 1]; }
    }
    assert IsWalk(g, q, a, c);
  }

  lemma ReachesKey<N(!new)>(g: Graph<N>, a: N, b: N)
    requires Reaches(g, a, b)
    ensures a in g
    ensures exists m :: m in g[a] && (m == b || Reaches(g, m, b))
  {
    var p :| IsWalk(g, p, a, b);
    assert p[1] in g[a];
    if |p| > 2 {
      assert IsWalk(g, p[1..], p[1], b);
    }
  }

  /** A set of groups that is closed upwards from y and holds only groups reaching y is all of them. */
  lemma UpwardClosureIsReaching<N(!new)>(g: Graph<N>, y: N, found: set<N>)
    requires forall a :: a in found ==> Reaches(g, a, y)
    requires forall a :: a in g && y in g[a] ==> a in found
    requires forall a, b :: b in found && a in g && b in g[a] ==> a in found
    ensures found == Reaching(g, true, y)
  {
    forall a | a in found ensures a in g {
      ReachesKey(g, a, y);
    }
    forall a | Reaches(g, a, y) ensures a in found {
      var p :| IsWalk(g, p, a, y);
      WalkInClosure(g, p, a, y, found);
    }
  }

  lemma {:induction false} WalkInClosure<N(!new)>(g: Graph<N>, p: seq<N>, a: N, y: N, found: set<N>)
    requires IsWalk(g, p, a, y)
    requires forall a :: a in g && y in g[a] ==> a in found
    requires forall a, b :: b in found && a in g && b in g[a] ==> a in found
    ensures a in found
    decreases |p|
  {
    if |p| > 2 {
      assert IsWalk(g, p[1..], p[1], y);
      WalkInClosure(g, p[1..], p[1], y, found);
    }
  }

  /** A set closed downwards holds whatever one of its nodes reaches. */
  lemma {:induction false} ClosedHolds<N(!new)>(g: Graph<N>, seeds: set<N>, s: N, y: N)
    requires s in seeds && Reaches(g, s, y) && forall c, n :: c in seeds && c in g && n in g[c] ==> n in seeds
    ensures y in seeds
  {
    var p :| IsWalk(g, p, s, y);
    var i := 0;
    while i < |p| - 1
      invariant 0 <= i <= |p| - 1 && p[i] in seeds
    {
      i := i + 1;
    }
  }

  // ---------------------------------------------------------------------------
  // Two graphs
  // ---------------------------------------------------------------------------

  /** On the kept groups g and h name the same kept groups, and agree about y. */
  ghost predicate Agree<N>(g: Graph<N>, h: Graph<N>, kept: set<N>, y: N)
    requires kept <= g.Keys && kept <= h.Keys
  {
    forall k :: k in kept ==> (y in g[k] <==> y in h[k]) && forall n :: n in kept ==> (n in g[k] <==> n in h[k])
  }

  /** c names n, in g or in h. */
  predicate EitherNames<N>(g: Graph<N>, h: Graph<N>, c: N, n: N) { (c in g && n in g[c]) || (c in h && n in h[c]) }

  /**
   * n is not among the seeds, although a group that may have changed names it or, when
   * nested, a group among the seeds does.
   */
  ghost predicate Leaks<N(!new)>(g: Graph<N>, h: Graph<N>, kept: set<N>, seeds: set<N>, nested: bool, n: N) {
    n !in seeds && exists c :: EitherNames(g, h, c, n) && (c !in kept || (nested && c in seeds))
  }

  /**
   * Recomputing only a seeded set is enough, as far as nothing leaks. Groups outside kept
   * may have changed in any way from g to h. If what reaches the leaks is the same in both
   * graphs, it is the same for every other node outside the seeds.
   */
  lemma UnseededUnaffected<N(!new)>(g: Graph<N>, h: Graph<N>, kept: set<N>, seeds: set<N>, nested: bool, y: N)
    requires kept <= g.Keys && kept <= h.Keys && y !in seeds && Agree(g, h, kept, y)
    requires forall n :: Leaks(g, h, kept, seeds, nested, n) && (n == y || n in kept) ==>
               Reaching(g, nested, n) == Reaching(h, nested, n)
    ensures Reaching(g, nested, y) == Reaching(h, nested, y)
  {
    if nested {
      hide Leaks, Agree;
      forall a | Reaches(g, a, y) ensures Reaches(h, a, y) {
        WalkAcross(g, h, kept, seeds, a, y);
      }
      forall a | Reaches(h, a, y) ensures Reaches(g, a, y) {
        AgreeBack(g, h, kept, y);
        forall n | Leaks(h, g, kept, seeds, true, n) ensures Leaks(g, h, kept, seeds, true, n) {
          LeaksBack(g, h, kept, seeds, n);
        }
        WalkAcross(h, g, kept, seeds, a, y);
      }
      forall a ensures a in Reaching(g, nested, y) <==> a in Reaching(h, nested, y) {
        if Reaches(g, a, y) { ReachesKey(g, a, y); ReachesKey(h, a, y); }
      }
    } else {
      forall a ensures a in Reaching(g, nested, y) <==> a in Reaching(h, nested, y) {
        assert EitherNames(g, h, a, y) && a !in kept ==> Leaks(g, h, kept, seeds, nested, y);
      }
    }
  }

  lemma AgreeBack<N>(g: Graph<N>, h: Graph<N>, kept: set<N>, y: N)
    requires kept <= g.Keys && kept <= h.Keys && Agree(g, h, kept, y)
    ensures Agree(h, g, kept, y)
  {
  }

  lemma LeaksBack<N(!new)>(g: Graph<N>, h: Graph<N>, kept: set<N>, seeds: set<N>, n: N)
    requires Leaks(h, g, kept, seeds, true, n)
    ensures Leaks(g, h, kept, seeds, true, n)
  {
    var c :| EitherNames(h, g, c, n) && (c !in kept || c in seeds);
    assert EitherNames(g, h, c, n);
  }

  /** A walk in g has its counterpart in h: behind the last leak it survives, and up to there the leak's groups do. */
  lemma WalkAcross<N(!new)>(g: Graph<N>, h: Graph<N>, kept: set<N>, seeds: set<N>, a: N, y: N)
    requires kept <= g.Keys && kept <= h.Keys && y !in seeds && Agree(g, h, kept, y) && Reaches(g, a, y)
    requires forall n :: Leaks(g, h, kept, seeds, true, n) && (n == y || n in kept) ==>
               Reaching(g, true, n) == Reaching(h, true, n)
    ensures Reaches(h, a, y)
  {
    hide Leaks, Reaching;
    var p :| IsWalk(g, p, a, y);
    var j := |p| - 1;
    while j > 0 && p[j - 1] in kept && p[j - 1] !in seeds
      invariant 0 <= j <= |p| - 1
      invariant forall i :: j <= i < |p| - 1 ==> p[i] in kept && p[i] !in seeds
    {
      j := j - 1;
    }
    var q := p[j..];
    SameBehind(g, h, kept, seeds, p, j, y);
    if j == 0 {
      assert q == p;
      assert IsWalk(h, p, a, y);
    } else {
      LeakAt(g, h, kept, seeds, p, j, y);
      assert IsWalk(g, p[..j + 1], a, p[j]);
      SameReaches(g, h, a, p[j]);
      if j < |p| - 1 {
        assert IsWalk(h, q, p[j], y);
        ReachesOn(h, a, p[j], y);
      }
    }
  }

  lemma SameBehind<N(!new)>(g: Graph<N>, h: Graph<N>, kept: set<N>, seeds: set<N>, p: seq<N>, j: nat, y: N)
    requires kept <= g.Keys && kept <= h.Keys && Agree(g, h, kept, y) && IsChain(g, p) && p[|p| - 1] == y && j < |p|
    requires forall i :: j <= i < |p| - 1 ==> p[i] in kept && p[i] !in seeds
    ensures IsChain(h, p[j..]) && p[j..][|p| - 1 - j] == y
  {
    var q := p[j..];
    forall i | 0 <= i < |q| - 1 ensures q[i] in h && q[i + 1] in h[q[i]] {
      assert q[i] == p[j + i] && q[i + 1] == p[j + i + 1];
      assert p[j + i + 1] in g[p[j + i]];
    }
  }

  lemma LeakAt<N(!new)>(g: Graph<N>, h: Graph<N>, kept: set<N>, seeds: set<N>, p: seq<N>, j: nat, y: N)
    requires IsChain(g, p) && p[|p| - 1] == y && 0 < j < |p| && y !in seeds
    requires !(p[j - 1] in kept && p[j - 1] !in seeds)
    requires forall i :: j <= i < |p| - 1 ==> p[i] in kept && p[i] !in seeds
    ensures Leaks(g, h, kept, seeds, true, p[j]) && (p[j] == y || p[j] in kept)
  {
    assert EitherNames(g, h, p[j - 1], p[j]);
  }

  lemma SameReaches<N(!new)>(g: Graph<N>, h: Graph<N>, a: N, n: N)
    requires Reaches(g, a, n) && Reaching(g, true, n) == Reaching(h, true, n)
    ensures Reaches(h, a, n)
  {
    ReachesKey(g, a, n);
    assert a in Reaching(g, true, n);
  }

  lemma ReachesOn<N(!new)>(g: Graph<N>, a: N, b: N, c: N)
    requires Reaches(g, a, b) && Reaches(g, b, c)
    ensures Reaches(g, a, c)
  {
    var p :| IsWalk(g, p, a, b);
    var q :| IsWalk(g, q, b, c);
    var r := p + q[1..];
    forall i | 0 <= i < |r| - 1 ensures r[i] in g && r[i + 1] in g[r[i]] {
      if i < |p| - 1 {
        assert r[i] == p[i] && r[i + 1] == p[i + 1];
      } else {
        assert r[i] == q[i - |p| + 1] && r[i + 1] == q[i - |p| + 2];
      }
    }
    assert IsWalk(g, r, a, c);
  }

  /** A walk is also one in any graph that has its edges. */
  lemma ReachesWithin<N(!new)>(f: Graph<N>, g: Graph<N>, a: N, b: N)
    requires Reaches(f, a, b)
    requires forall c, n :: c in f && n in f[c] && (n in f || n == b) ==> c in g && n in g[c]
    ensures Reaches(g, a, b)
  {
    var p :| IsWalk(f, p, a, b);
    forall i | 0 <= i < |p| - 1 ensures p[i] in g && p[i + 1] in g[p[i]] {
      var c, n := p[i], p[i + 1];
      assert c in f && n in f[c];
      assert n in f || n == b by {
        if i + 1 < |p| - 1 { assert p[i + 1] in f; }
      }
    }
    assert IsWalk(g, p, a, b);
  }

  /** Two graphs agree on what reaches the nodes that matter exactly when the edges of each are paths of the other. */
  lemma SameReachByEdges<N(!new)>(g: Graph<N>, h: Graph<N>, nodes: set<N>)
    requires g.Keys <= nodes && h.Keys <= nodes
    ensures (forall n :: n in nodes ==> Reaching(g, true, n) == Reaching(h, true, n)) <==>
              && (forall c, n :: c in g && n in nodes && n in g[c] ==> Reaches(h, c, n))
              && forall c, n :: c in h && n in nodes && n in h[c] ==> Reaches(g, c, n)
  {
    if forall n :: n in nodes ==> Reaching(g, true, n) == Reaching(h, true, n) {
      forall c, n | c in g && n in nodes && n in g[c] ensures Reaches(h, c, n) {
        EdgeReaches(g, c, n);
        SameReaches(g, h, c, n);
      }
      forall c, n | c in h && n in nodes && n in h[c] ensures Reaches(g, c, n) {
        EdgeReaches(h, c, n);
        SameReaches(h, g, c, n);
      }
    }
    if (forall c, n :: c in g && n in nodes && n in g[c] ==> Reaches(h, c, n))
        && forall c, n :: c in h && n in nodes && n in h[c] ==> Reaches(g, c, n) {
      forall n | n in nodes ensures Reaching(g, true, n) == Reaching(h, true, n) {
        forall a ensures a in Reaching(g, true, n) <==> a in Reaching(h, true, n) {
          if Reaches(g, a, n) { EdgesReach(g, h, nodes, a, n); ReachesKey(h, a, n); }
          if Reaches(h, a, n) { EdgesReach(h, g, nodes, a, n); ReachesKey(g, a, n); }
        }
      }
    }
  }

  lemma EdgesReach<N(!new)>(g: Graph<N>, h: Graph<N>, nodes: set<N>, a: N, b: N)
    requires g.Keys <= nodes && b in nodes && Reaches(g, a, b)
    requires forall c, n :: c in g && n in nodes && n in g[c] ==> Reaches(h, c, n)
    ensures Reaches(h, a, b)
  {
    hide Reaches;
    var p := WalkOf(g, a, b);
    var i := |p| - 2;
    assert p[i] in g && p[i + 1] in g[p[i]];
    while i > 0
      invariant 0 <= i <= |p| - 2 && Reaches(h, p[i], b)
    {
      assert p[i - 1] in g && p[i] in g[p[i - 1]] && p[i] in g;
      ReachesOn(h, p[i - 1], p[i], b);
      i := i - 1;
    }
  }

  lemma WalkOf<N(!new)>(g: Graph<N>, a: N, b: N) returns (p: seq<N>)
    requires Reaches(g, a, b)
    ensures IsWalk(g, p, a, b)
  {
    p :| IsWalk(g, p, a, b);
  }
}
