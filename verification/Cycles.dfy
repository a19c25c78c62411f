// Group cycles: the three-colour search over a scenario's groups, and the check that guards
// every later change of members.
module Cycles {
  import opened Text
  import opened Graphs

  type Id = string

  // ---------------------------------------------------------------------------
  // The membership graph
  // ---------------------------------------------------------------------------

  /** Group-kind members by group, in the order they are listed. */
  type Adjacency = map<Id, seq<Id>>

  function Succ(adj: Adjacency, n: Id): seq<Id> { if n in adj then adj[n] else [] }

  ghost function GraphOf(adj: Adjacency): Graph<Id> { map n | n in adj :: set m | m in adj[n] }

  ghost predicate HasCycle(g: Graph<Id>) { exists n :: Reaches(g, n, n) }

  lemma EdgeIn(adj: Adjacency, n: Id, m: Id)
    ensures n in GraphOf(adj) && m in GraphOf(adj)[n] <==> m in Succ(adj, n)
  {
  }

  /** A finishing order: whatever a node names comes before it. */
  ghost predicate Finished(adj: Adjacency, order: seq<Id>) {
    forall i :: 0 <= i < |order| ==> forall m :: m in Succ(adj, order[i]) ==> m in order[..i]
  }

  /** Below a finished node lie only earlier nodes, so no finished node is on a cycle. */
  lemma {:induction false} BelowFinished(adj: Adjacency, order: seq<Id>, i: nat, p: seq<Id>)
    requires Finished(adj, order) && i < |order| && |p| >= 2 && IsChain(GraphOf(adj), p) && p[0] == order[i]
    ensures p[|p| - 1] in order[..i]
    decreases |p|
  {
    assert p[1] in Succ(adj, p[0]);
    var j :| 0 <= j < i && order[j] == p[1];
    if |p| > 2 {
      BelowFinished(adj, order, j, p[1..]);
      assert order[..j] <= order[..i];
    }
  }

  lemma {:induction false} FirstIndex(order: seq<Id>, n: Id) returns (i: nat)
    requires n in order
    ensures i < |order| && order[i] == n && n !in order[..i]
  {
    if order[0] == n {
      i := 0;
    } else {
      var k := FirstIndex(order[1..], n);
      i := k + 1;
      assert order[..i] == [order[0]] + order[1..][..k];
    }
  }

  lemma FinishedIsAcyclic(adj: Adjacency, order: seq<Id>)
    requires Finished(adj, order) && forall n :: n in adj ==> n in order
    ensures !HasCycle(GraphOf(adj))
  {
    if n :| Reaches(GraphOf(adj), n, n) {
      ReachesKey(GraphOf(adj), n, n);
      var p :| IsWalk(GraphOf(adj), p, n, n);
      var i := FirstIndex(order, n);
      BelowFinished(adj, order, i, p);
    }
  }

  // ---------------------------------------------------------------------------
  // The three-colour search
  // ---------------------------------------------------------------------------

  datatype Color = Gray | Black

  /** Every node a search can come to. */
  ghost function Universe(adj: Adjacency): set<Id> { adj.Keys + set n, m | n in adj && m in adj[n] :: m }

  lemma SuccInUniverse(adj: Adjacency, n: Id, m: Id)
    requires m in Succ(adj, n)
    ensures m in Universe(adj)
  {
  }

  /** A path of nodes, each naming the next. */
  ghost predicate OnPath(adj: Adjacency, path: seq<Id>) {
    forall i :: 0 <= i < |path| - 1 ==> path[i + 1] in Succ(adj, path[i])
  }

  /** Naming a node that is still on the path closes a cycle. */
  lemma BackEdge(adj: Adjacency, path: seq<Id>, m: Id)
    requires OnPath(adj, path) && path != [] && m in path && m in Succ(adj, path[|path| - 1])
    ensures HasCycle(GraphOf(adj))
  {
    var i :| 0 <= i < |path| && path[i] == m;
    var p := path[i..] + [m];
    var g := GraphOf(adj);
    forall k | 0 <= k < |p| - 1 ensures p[k] in g && p[k + 1] in g[p[k]] {
      assert p[k] == path[i + k];
      if i + k + 1 < |path| { assert p[k + 1] == path[i + k + 1]; }
      EdgeIn(adj, p[k], p[k + 1]);
    }
    assert IsWalk(g, p, m, m);
    assert Reaches(g, m, m);
  }

  /** Colours as the search leaves them: black nodes in finishing order, gray nodes on the path, the others white. */
  ghost predicate Colored(adj: Adjacency, color: map<Id, Color>, order: seq<Id>, path: seq<Id>) {
    && (forall n :: n in color && color[n] == Black <==> n in order)
    && (forall n :: n in color && color[n] == Gray <==> n in path)
    && Finished(adj, order) && OnPath(adj, path)
    && color.Keys <= Universe(adj)
  }

  lemma FinishedSnoc(adj: Adjacency, order: seq<Id>, n: Id)
    requires Finished(adj, order) && forall m :: m in Succ(adj, n) ==> m in order
    ensures Finished(adj, order + [n])
  {
    var r := order + [n];
    forall i | 0 <= i < |r| ensures forall m :: m in Succ(adj, r[i]) ==> m in r[..i] {
      assert r[..i] == order[..i];
      if i == |order| { assert order[..i] == order; }
    }
  }

  lemma PathSnoc(adj: Adjacency, path: seq<Id>, n: Id)
    requires OnPath(adj, path) && (path != [] ==> n in Succ(adj, path[|path| - 1]))
    ensures OnPath(adj, path + [n])
  {
    var p := path + [n];
    forall i | 0 <= i < |p| - 1 ensures p[i + 1] in Succ(adj, p[i]) {
      assert p[i] == path[i];
      if i + 1 < |path| { assert p[i + 1] == path[i + 1]; }
    }
  }

  /** The node on top of the path turns from white to gray. */
  lemma TurnsGray(adj: Adjacency, color: map<Id, Color>, order: seq<Id>, path: seq<Id>, n: Id)
    requires Colored(adj, color, order, path) && n !in color && n in Universe(adj)
    requires path != [] ==> n in Succ(adj, path[|path| - 1])
    ensures Colored(adj, color[n := Gray], order, path + [n])
  {
    hide Finished, OnPath, Universe;
    PathSnoc(adj, path, n);
    assert n !in order && n !in path;
  }

  /** And from gray to black, once all it names is black. */
  lemma TurnsBlack(adj: Adjacency, color: map<Id, Color>, order: seq<Id>, path: seq<Id>, n: Id)
    requires Colored(adj, color, order, path + [n]) && OnPath(adj, path) && n !in path
    requires forall m :: m in Succ(adj, n) ==> m in order
    ensures Colored(adj, color[n := Black], order + [n], path)
  {
    hide Finished, OnPath, Universe;
    FinishedSnoc(adj, order, n);
    assert n in path + [n];
  }

  lemma FewerWhite(u: set<Id>, a: set<Id>, b: set<Id>, n: Id)
    requires a <= b && n in u && n !in a && n in b
    ensures |u - b| < |u - a|
  {
    assert n in u - a && n !in u - b;
    SmallerSet(u - b, u - a);
  }

  class Search {
    const adj: Adjacency
    var color: map<Id, Color>
    ghost var order: seq<Id>

    constructor (adj: Adjacency)
      ensures this.adj == adj && color == map[] && order == []
    {
      this.adj, color, order := adj, map[], [];
    }

    /** Walks from a white node: true when it meets a node that is still gray. */
    method Walk(n: Id, ghost path: seq<Id>) returns (hit: bool)
      requires Colored(adj, color, order, path) && n !in color && n in Universe(adj)
      requires path != [] ==> n in Succ(adj, path[|path| - 1])
      modifies this
      ensures hit ==> HasCycle(GraphOf(adj))
      ensures !hit ==>
                Colored(adj, color, order, path) && old(order) <= order && n in order && old(color.Keys) <= color.Keys
      decreases |Universe(adj) - color.Keys|
    {
      hide Colored, Universe, HasCycle, GraphOf;
      ghost var color0 := color;
      TurnsGray(adj, color, order, path, n);
      ColoredFacts(adj, color0, order, path);
      color := color[n := Gray];
      ghost var here := path + [n];
      var ms := Succ(adj, n);
      for j := 0 to |ms|
        invariant Colored(adj, color, order, here)
        invariant old(order) <= order && color0.Keys + {n} <= color.Keys
        invariant forall k :: 0 <= k < j ==> ms[k] in order
      {
        ColoredFacts(adj, color, order, here);
        var m := ms[j];
        SuccInUniverse(adj, n, m);
        if m in color && color[m] == Gray {
          BackEdge(adj, here, m);
          return true;
        }
        if m !in color {
          FewerWhite(Universe(adj), color0.Keys, color.Keys, n);
          var deeper := Walk(m, here);
          if deeper {
            return true;
          }
        }
      }
      TurnsBlack(adj, color, order, path, n);
      color := color[n := Black];
      order := order + [n];
      hit := false;
    }

    /** Reports a cycle exactly when there is one. */
    method DetectCycles() returns (hit: bool)
      requires color == map[] && order == []
      modifies this
      ensures hit <==> HasCycle(GraphOf(adj))
    {
      hide Colored, HasCycle, GraphOf, Universe;
      var rest := adj.Keys;
      NothingColored(adj);
      while rest != {}
        invariant rest <= adj.Keys && Colored(adj, color, order, [])
        invariant forall n :: n in adj.Keys - rest ==> n in order
        decreases |rest|
      {
        var n :| n in rest;
        rest := rest - {n};
        ColoredFacts(adj, color, order, []);
        KeyInUniverse(adj, n);
        if n !in color {
          ghost var before := order;
          hit := Walk(n, []);
          if hit {
            return;
          }
          PrefixKeeps(before, order);
        }
      }
      ColoredFacts(adj, color, order, []);
      FinishedIsAcyclic(adj, order);
      hit := false;
    }
  }

  lemma PrefixKeeps(a: seq<Id>, b: seq<Id>)
    requires a <= b
    ensures forall n :: n in a ==> n in b
  {
    forall n | n in a ensures n in b {
      var i :| 0 <= i < |a| && a[i] == n;
      assert b[i] == n;
    }
  }

  lemma KeyInUniverse(adj: Adjacency, n: Id)
    requires n in adj
    ensures n in Universe(adj)
  {
  }

  lemma NothingColored(adj: Adjacency)
    ensures Colored(adj, map[], [], [])
  {
  }

  lemma ColoredFacts(adj: Adjacency, color: map<Id, Color>, order: seq<Id>, path: seq<Id>)
    requires Colored(adj, color, order, path)
    ensures Finished(adj, order) && OnPath(adj, path)
    ensures forall n :: n in color && color[n] == Black ==> n in order
    ensures forall n :: n in color && color[n] == Gray <==> n in path
    ensures forall n :: n in color ==> color[n] == Gray || color[n] == Black
  {
  }

  // ---------------------------------------------------------------------------
  // Changing members
  // ---------------------------------------------------------------------------

  datatype Member = User(id: Id) | Group(id: Id)

  /** The repository: members of every group, ids folded. */
  type Repo = map<Id, seq<Member>>

  /** Group-kind members with an id. */
  function GroupIds(ms: seq<Member>): seq<Id> {
    if ms == [] then []
    else OneId(ms[0]) + GroupIds(ms[1..])
  }

  ghost function RepoGraph(repo: Repo): Graph<Id> { map n | n in repo :: set m | m in GroupIds(repo[n]) }

  lemma {:induction false} GroupIdsMembers(ms: seq<Member>, x: Id)
    ensures x in GroupIds(ms) <==> exists i :: 0 <= i < |ms| && ms[i] == Group(x) && x != ""
  {
    if ms != [] {
      GroupIdsMembers(ms[1..], x);
      if i :| 0 <= i < |ms| && ms[i] == Group(x) && x != "" {
        if i > 0 { assert ms[1..][i - 1] == Group(x); }
      }
      if j :| 0 <= j < |ms[1..]| && ms[1..][j] == Group(x) && x != "" {
        assert ms[j + 1] == Group(x);
      }
    }
  }

  lemma {:induction false} GroupIdsAppend(a: seq<Member>, b: seq<Member>)
    ensures GroupIds(a + b) == GroupIds(a) + GroupIds(b)
  {
    if a == [] {
      assert a + b == b && [] + GroupIds(b) == GroupIds(b);
    } else {
      GroupIdsAppend(a[1..], b);
      assert (a + b)[1..] == a[1..] + b && (a + b)[0] == a[0];
      GroupIdsCons(a[0], a[1..]);
      GroupIdsCons(a[0], a[1..] + b);
      assert a == [a[0]] + a[1..] && a + b == [a[0]] + (a[1..] + b);
      hide GroupIds;
      ConcatAssoc(OneId(a[0]), GroupIds(a[1..]), GroupIds(b));
    }
  }

  function OneId(m: Member): seq<Id> { if m.Group? && m.id != "" then [m.id] else [] }

  lemma GroupIdsCons(m: Member, ms: seq<Member>)
    ensures GroupIds([m] + ms) == OneId(m) + GroupIds(ms)
  {
    assert ([m] + ms)[1..] == ms;
  }

  /** a is b, or reaches it. */
  ghost predicate LeadsTo(g: Graph<Id>, a: Id, b: Id) { a == b || Reaches(g, a, b) }

  /** What has been seen without coming to origin; inner nodes are still being expanded. */
  ghost predicate Explored(g: Graph<Id>, origin: Id, seen: set<Id>, inner: set<Id>) {
    origin !in seen && inner <= seen && forall s, m :: s in seen - inner && s in g && m in g[s] ==> m in seen
  }

  lemma {:induction false} ExploredMisses(g: Graph<Id>, origin: Id, seen: set<Id>, p: seq<Id>)
    requires Explored(g, origin, seen, {}) && IsChain(g, p) && p[0] in seen
    ensures p[|p| - 1] in seen
    decreases |p|
  {
    if |p| > 1 {
      ExploredMisses(g, origin, seen, p[1..]);
    }
  }

  ghost function Nodes(g: Graph<Id>): set<Id> { g.Keys + set n, m | n in g && m in g[n] :: m }

  class Groups {
    var repo: Repo

    constructor ()
      ensures repo == map[]
    {
      repo := map[];
    }

    /** Whether cur leads to origin, not looking again at what was seen before. */
    method CycleFrom(origin: Id, cur: Id, seen0: set<Id>, ghost inner: set<Id>, ghost u: set<Id>)
        returns (hit: bool, seen: set<Id>)
      requires Explored(RepoGraph(repo), origin, seen0, inner) && seen0 <= u && cur in u && Nodes(RepoGraph(repo)) <= u
      ensures hit ==> LeadsTo(RepoGraph(repo), cur, origin)
      ensures !hit ==> seen0 <= seen <= u && cur in seen && Explored(RepoGraph(repo), origin, seen, inner)
      decreases |u - seen0|
    {
      hide Reaches, RepoGraph, Nodes;
      ghost var g := RepoGraph(repo);
      seen := seen0;
      if cur == origin {
        return true, seen;
      }
      if cur in seen {
        return false, seen;
      }
      seen := seen + {cur};
      if cur !in repo {
        AbsentNode(repo, cur);
        return false, seen;
      }
      FewerWhite(u, seen0, seen, cur);
      var next := GroupIds(repo[cur]);
      for i := 0 to |next|
        invariant seen0 + {cur} <= seen <= u && |u - seen| < |u - seen0|
        invariant Explored(g, origin, seen, inner + {cur})
        invariant forall k :: 0 <= k < i ==> next[k] in seen
      {
        NextNode(repo, cur, next[i]);
        ghost var before := seen;
        hit, seen := CycleFrom(origin, next[i], seen, inner + {cur}, u);
        if hit {
          StepLeadsTo(g, cur, next[i], origin);
          return true, seen;
        }
        SubsetSize(u - seen, u - before);
      }
      NodeDone(repo, origin, seen, inner, cur, next);
      hit := false;
    }

    /** Whether a group-kind member leads back to the group. */
    method DetectCycle(id: Id, incoming: seq<Member>) returns (hit: bool)
      ensures hit <==> exists x :: x in GroupIds(incoming) && LeadsTo(RepoGraph(repo), x, id)
    {
      hide Reaches, RepoGraph, Nodes, LeadsTo, Explored;
      ghost var g := RepoGraph(repo);
      var ids := GroupIds(incoming);
      for i := 0 to |ids|
        invariant forall k :: 0 <= k < i ==> !LeadsTo(g, ids[k], id)
      {
        ghost var u := Nodes(g) + {ids[i]};
        NothingExplored(g, id);
        var found, seen := CycleFrom(id, ids[i], {}, {}, u);
        if found {
          return true;
        }
        ExploredLeadsNowhere(g, id, seen, ids[i]);
      }
      hit := false;
    }

    ghost predicate Acyclic()
      reads this
    {
      !HasCycle(RepoGraph(repo))
    }

    /** Adding members is accepted exactly when the group exists and the graph stays acyclic. */
    method AddMembers(id: Id, ms: seq<Member>) returns (ok: bool)
      requires Acyclic()
      modifies this
      ensures Acyclic()
      ensures ok <==> id in old(repo) && !HasCycle(RepoGraph(old(repo)[id := old(repo)[id] + ms]))
      ensures repo == if ok then old(repo)[id := old(repo)[id] + ms] else old(repo)
    {
      hide HasCycle, RepoGraph, LeadsTo;
      var hit := DetectCycle(id, ms);
      if id !in repo {
        return false;
      }
      AddedGraph(repo, id, ms);
      if hit {
        return false;
      }
      repo := repo[id := repo[id] + ms];
      ok := true;
    }

    /** Replacing members too, although the check looks at the old members' graph. */
    method ReplaceMembers(id: Id, ms: seq<Member>) returns (ok: bool)
      requires Acyclic()
      modifies this
      ensures Acyclic()
      ensures ok <==> id in old(repo) && !HasCycle(RepoGraph(old(repo)[id := ms]))
      ensures repo == if ok then old(repo)[id := ms] else old(repo)
    {
      hide HasCycle, RepoGraph, LeadsTo;
      var hit := DetectCycle(id, ms);
      ReplacedGraph(repo, id, ms);
      if hit || id !in repo {
        return false;
      }
      repo := repo[id := ms];
      ok := true;
    }

    /** Removing members needs no check. */
    method RemoveMembers(id: Id, ms: seq<Member>) returns (ok: bool)
      requires Acyclic()
      modifies this
      ensures Acyclic() && (ok <==> id in old(repo))
      ensures repo == if ok then old(repo)[id := Others(old(repo)[id], ms)] else old(repo)
    {
      hide HasCycle, RepoGraph;
      if id !in repo {
        return false;
      }
      RemovedGraph(repo, id, ms);
      repo := repo[id := Others(repo[id], ms)];
      ok := true;
    }

    /**
     * Creating a group only refuses the group itself as a member; the graph stays acyclic
     * unless a member leads back to the new id.
     */
    method Create(id: Id, ms: seq<Member>) returns (ok: bool)
      requires Acyclic()
      modifies this
      ensures ok <==> id != "" && ms != [] && id !in GroupIds(ms) && id !in old(repo)
      ensures repo == if ok then old(repo)[id := ms] else old(repo)
      ensures ok ==> (Acyclic() <==> forall x :: x in GroupIds(ms) ==> !LeadsTo(RepoGraph(old(repo)), x, id))
      ensures !ok ==> Acyclic()
    {
      hide HasCycle, RepoGraph, LeadsTo;
      if id == "" || |ms| == 0 || id in GroupIds(ms) || id in repo {
        return false;
      }
      ReplacedGraph(repo, id, ms);
      repo := repo[id := ms];
      ok := true;
    }
  }

  /** The members not among ms. */
  function Others(all: seq<Member>, ms: seq<Member>): seq<Member> {
    if all == [] then [] else (if all[0] in ms then [] else [all[0]]) + Others(all[1..], ms)
  }

  lemma {:induction false} OthersGroups(all: seq<Member>, ms: seq<Member>)
    ensures forall x :: x in GroupIds(Others(all, ms)) ==> x in GroupIds(all)
  {
    if all != [] {
      OthersGroups(all[1..], ms);
      GroupIdsCons(all[0], all[1..]);
      GroupIdsCons(all[0], Others(all[1..], ms));
      assert all == [all[0]] + all[1..];
      assert [] + Others(all[1..], ms) == Others(all[1..], ms);
    }
  }

  lemma RemovedGraph(repo: Repo, id: Id, ms: seq<Member>)
    requires id in repo && !HasCycle(RepoGraph(repo))
    ensures !HasCycle(RepoGraph(repo[id := Others(repo[id], ms)]))
  {
    hide GroupIds, HasCycle;
    OthersGroups(repo[id], ms);
    FewerEdges(RepoGraph(repo), RepoGraph(repo[id := Others(repo[id], ms)]));
  }

  lemma ReplacedGraph(repo: Repo, id: Id, ms: seq<Member>)
    requires !HasCycle(RepoGraph(repo))
    ensures HasCycle(RepoGraph(repo[id := ms])) <==> exists x :: x in GroupIds(ms) && LeadsTo(RepoGraph(repo), x, id)
  {
    hide GroupIds, HasCycle, LeadsTo;
    var xs := set x | x in GroupIds(ms);
    assert RepoGraph(repo[id := ms]) == WithMembers(RepoGraph(repo), id, xs);
    NewCycleExactly(RepoGraph(repo), id, xs);
  }

  lemma AddedGraph(repo: Repo, id: Id, ms: seq<Member>)
    requires id in repo && !HasCycle(RepoGraph(repo))
    ensures HasCycle(RepoGraph(repo[id := repo[id] + ms])) <==>
              exists x :: x in GroupIds(ms) && LeadsTo(RepoGraph(repo), x, id)
  {
    hide GroupIds, HasCycle, LeadsTo;
    ReplacedGraph(repo, id, repo[id] + ms);
    GroupIdsAppend(repo[id], ms);
    if x :| x in GroupIds(repo[id] + ms) && LeadsTo(RepoGraph(repo), x, id) && x !in GroupIds(ms) {
      OldMemberLeads(repo, id, x);
    }
    if x :| x in GroupIds(ms) && LeadsTo(RepoGraph(repo), x, id) {
      assert x in GroupIds(repo[id] + ms);
    }
  }

  /** A member a group already has cannot lead back to it. */
  lemma OldMemberLeads(repo: Repo, id: Id, x: Id)
    requires id in repo && x in GroupIds(repo[id]) && LeadsTo(RepoGraph(repo), x, id)
    ensures HasCycle(RepoGraph(repo))
  {
    var g := RepoGraph(repo);
    StepLeadsTo(g, id, x, id);
    if x == id { EdgeReaches(g, id, id); } else { PrependReaches(g, id, x, id); }
    assert Reaches(g, id, id);
  }

  /** The check and the change must not interleave: two changes, each fine on its own, close a cycle together. */
  lemma ChecksDoNotCompose() returns (repo: Repo, a: Id, b: Id)
    ensures a in repo && b in repo && a != b
    ensures !HasCycle(RepoGraph(repo[a := repo[a] + [Group(b)]]))
    ensures !HasCycle(RepoGraph(repo[b := repo[b] + [Group(a)]]))
    ensures HasCycle(RepoGraph(repo[a := repo[a] + [Group(b)]][b := repo[b] + [Group(a)]]))
  {
    a, b := "a", "b";
    repo := map[a := [], b := []];
    NoEdges(RepoGraph(repo));
    SingleMember(a);
    SingleMember(b);
    ReplacedGraph(repo, a, [Group(b)]);
    ReplacedGraph(repo, b, [Group(a)]);
    NoEdgesLead(RepoGraph(repo), b, a);
    NoEdgesLead(RepoGraph(repo), a, b);
    assert repo[a] + [Group(b)] == [Group(b)] && repo[b] + [Group(a)] == [Group(a)];
    var r := repo[a := [Group(b)]];
    EdgeReaches(RepoGraph(r), a, b);
    ReplacedGraph(r, b, [Group(a)]);
    assert a in GroupIds([Group(a)]) && LeadsTo(RepoGraph(r), a, b);
  }

  lemma SingleMember(x: Id)
    requires x != ""
    ensures GroupIds([Group(x)]) == [x]
  {
    assert [Group(x)][1..] == [] && GroupIds([]) == [];
    assert [x] + [] == [x];
  }

  lemma NoEdges(g: Graph<Id>)
    requires forall n :: n in g ==> g[n] == {}
    ensures !HasCycle(g)
  {
    if n :| Reaches(g, n, n) { ReachesKey(g, n, n); }
  }

  lemma NoEdgesLead(g: Graph<Id>, a: Id, b: Id)
    requires a != b && forall n :: n in g ==> g[n] == {}
    ensures !LeadsTo(g, a, b)
  {
    if Reaches(g, a, b) { ReachesKey(g, a, b); }
  }

  lemma NothingExplored(g: Graph<Id>, origin: Id)
    ensures Explored(g, origin, {}, {})
  {
  }

  lemma AbsentNode(repo: Repo, cur: Id)
    requires cur !in repo
    ensures cur !in RepoGraph(repo)
  {
  }

  lemma NextNode(repo: Repo, cur: Id, m: Id)
    requires cur in repo && m in GroupIds(repo[cur])
    ensures cur in RepoGraph(repo) && m in RepoGraph(repo)[cur] && m in Nodes(RepoGraph(repo))
  {
    var g := RepoGraph(repo);
    assert cur in g && m in g[cur];
  }

  lemma StepLeadsTo(g: Graph<Id>, a: Id, b: Id, c: Id)
    requires a in g && b in g[a] && LeadsTo(g, b, c)
    ensures LeadsTo(g, a, c)
  {
    if b == c {
      EdgeReaches(g, a, b);
    } else {
      PrependReaches(g, a, b, c);
    }
  }

  lemma NodeDone(repo: Repo, origin: Id, seen: set<Id>, inner: set<Id>, cur: Id, next: seq<Id>)
    requires cur in repo && next == GroupIds(repo[cur]) && cur in seen && inner <= seen
    requires Explored(RepoGraph(repo), origin, seen, inner + {cur}) && forall k :: 0 <= k < |next| ==> next[k] in seen
    ensures Explored(RepoGraph(repo), origin, seen, inner)
  {
    assert forall m :: m in RepoGraph(repo)[cur] ==> m in next;
  }

  lemma ExploredLeadsNowhere(g: Graph<Id>, origin: Id, seen: set<Id>, x: Id)
    requires Explored(g, origin, seen, {}) && x in seen
    ensures !LeadsTo(g, x, origin)
  {
    if Reaches(g, x, origin) {
      var p :| IsWalk(g, p, x, origin);
      ExploredMisses(g, origin, seen, p);
    }
  }

  // ---------------------------------------------------------------------------
  // Acyclic stays acyclic
  // ---------------------------------------------------------------------------

  /** The graph in which the group id names exactly ms. */
  ghost function WithMembers(g: Graph<Id>, id: Id, ms: set<Id>): Graph<Id> { g[id := ms] }

  /** A walk that leaves id last at position i continues in the old graph. */
  lemma {:induction false} TailAvoids(g: Graph<Id>, h: Graph<Id>, id: Id, p: seq<Id>)
    requires |p| >= 1 && IsChain(h, p) && forall i :: 0 <= i < |p| - 1 ==> p[i] != id
    requires forall n :: n != id && n in h ==> n in g && h[n] == g[n]
    ensures IsChain(g, p)
  {
  }

  /** Where a closed walk through id comes back to id for the first time. */
  lemma FirstReturn(p: seq<Id>, id: Id) returns (k: nat)
    requires |p| >= 2 && p[|p| - 1] == id
    ensures 1 <= k < |p| && p[k] == id && forall i :: 1 <= i < k ==> p[i] != id
  {
    k := 1;
    while p[k] != id
      invariant 1 <= k < |p| && forall i :: 1 <= i < k ==> p[i] != id
      decreases |p| - k
    {
      k := k + 1;
    }
  }

  /** With new members for one group, a cycle is there exactly when a new member leads back to the group. */
  lemma NewCycleExactly(g: Graph<Id>, id: Id, ms: set<Id>)
    requires !HasCycle(g)
    ensures HasCycle(WithMembers(g, id, ms)) <==> exists x :: x in ms && LeadsTo(g, x, id)
  {
    var h := WithMembers(g, id, ms);
    if n :| Reaches(h, n, n) {
      var p :| IsWalk(h, p, n, n);
      CycleThrough(g, h, id, p);
    }
    if x :| x in ms && LeadsTo(g, x, id) {
      LeadsInNew(g, h, id, x);
      if x == id {
        EdgeReaches(h, id, id);
      } else {
        PrependReaches(h, id, x, id);
      }
      assert Reaches(h, id, id);
    }
  }

  lemma CycleThrough(g: Graph<Id>, h: Graph<Id>, id: Id, p: seq<Id>)
    requires !HasCycle(g) && id in h && h == WithMembers(g, id, h[id]) && |p| >= 2 && IsChain(h, p)
    requires p[0] == p[|p| - 1]
    ensures exists x :: x in h[id] && LeadsTo(g, x, id)
  {
    if forall i :: 0 <= i < |p| - 1 ==> p[i] != id {
      TailAvoids(g, h, id, p);
      assert IsWalk(g, p, p[0], p[0]);
      assert Reaches(g, p[0], p[0]);
    } else {
      var i :| 0 <= i < |p| - 1 && p[i] == id;
      var q := p[i..] + p[1..i + 1];
      Rotated(h, p, i);
      LoopAt(g, h, id, q);
    }
  }

  lemma SubChain(g: Graph<Id>, p: seq<Id>, i: nat, j: nat)
    requires IsChain(g, p) && i < j <= |p|
    ensures IsChain(g, p[i..j])
  {
    var q := p[i..j];
    forall k | 0 <= k < |q| - 1 ensures q[k] in g && q[k + 1] in g[q[k]] {
      assert q[k] == p[i + k] && q[k + 1] == p[i + k + 1];
    }
  }

  lemma LoopAt(g: Graph<Id>, h: Graph<Id>, id: Id, q: seq<Id>)
    requires id in h && h == WithMembers(g, id, h[id]) && |q| >= 2 && IsChain(h, q) && q[0] == id && q[|q| - 1] == id
    ensures exists x :: x in h[id] && LeadsTo(g, x, id)
  {
    var k := FirstReturn(q, id);
    SubChain(h, q, 1, k + 1);
    var r := q[1..k + 1];
    assert q[1] in h[id] && r[0] == q[1] && r[|r| - 1] == q[k];
    forall j | 0 <= j < |r| - 1 ensures r[j] != id { assert r[j] == q[j + 1]; }
    TailAvoids(g, h, id, r);
    if |r| >= 2 { assert IsWalk(g, r, r[0], id); }
    assert LeadsTo(g, q[1], id);
  }

  /** A closed walk may start anywhere on it. */
  lemma Rotated(h: Graph<Id>, p: seq<Id>, i: nat)
    requires |p| >= 2 && IsChain(h, p) && p[0] == p[|p| - 1] && i < |p| - 1
    ensures var q := p[i..] + p[1..i + 1]; |q| >= 2 && IsChain(h, q) && q[0] == p[i] && q[|q| - 1] == p[i]
  {
    var q := p[i..] + p[1..i + 1];
    var n := |p| - i;
    forall k | 0 <= k < |q| - 1 ensures q[k] in h && q[k + 1] in h[q[k]] {
      if k < n - 1 {
        assert q[k] == p[i + k] && q[k + 1] == p[i + k + 1];
      } else if k == n - 1 {
        assert q[k] == p[|p| - 1] == p[0] && q[k + 1] == p[1];
      } else {
        assert q[k] == p[1 + (k - n)] && q[k + 1] == p[2 + (k - n)];
      }
    }
  }

  lemma LeadsInNew(g: Graph<Id>, h: Graph<Id>, id: Id, x: Id)
    requires id in h && h == WithMembers(g, id, h[id]) && LeadsTo(g, x, id)
    ensures LeadsTo(h, x, id)
  {
    if x != id {
      var p :| IsWalk(g, p, x, id);
      var k := FirstReturn(p, id);
      var q := p[..k + 1];
      forall i | 0 <= i < |q| - 1 ensures q[i] in h && q[i + 1] in h[q[i]] {
        assert q[i] == p[i] && q[i + 1] == p[i + 1];
      }
      assert IsWalk(h, q, x, id);
    }
  }

  lemma FewerEdges(g: Graph<Id>, h: Graph<Id>)
    requires !HasCycle(g) && forall n :: n in h ==> n in g && h[n] <= g[n]
    ensures !HasCycle(h)
  {
    if n :| Reaches(h, n, n) {
      var p :| IsWalk(h, p, n, n);
      assert IsWalk(g, p, n, n);
      assert Reaches(g, n, n);
    }
  }

  /** Create accepts members that name the new id already, and so closes a cycle. */
  lemma CreateClosesCycle() returns (repo: Repo, id: Id, ms: seq<Member>)
    ensures !HasCycle(RepoGraph(repo)) && id != "" && ms != [] && id !in GroupIds(ms) && id !in repo
    ensures HasCycle(RepoGraph(repo[id := ms]))
  {
    var a: Id := "a";
    id, ms := "b", [Group("a")];
    repo := map[a := [Group(id)]];
    var empty: Repo := map[a := []];
    NoEdges(RepoGraph(empty));
    SingleMember(a);
    SingleMember(id);
    ReplacedGraph(empty, a, [Group(id)]);
    NoEdgesLead(RepoGraph(empty), id, a);
    assert repo == empty[a := [Group(id)]];
    ReplacedGraph(repo, id, ms);
    EdgeReaches(RepoGraph(repo), a, id);
    assert a in GroupIds(ms) && LeadsTo(RepoGraph(repo), a, id);
  }
}
