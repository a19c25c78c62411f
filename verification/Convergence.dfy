// What one write, followed by the plugins, does to the memberOf sets of the whole tree.
module Convergence {
  import opened Text
  import opened Names
  import opened Entries
  import opened Stores
  import opened Graphs
  import opened MemberOf
  import opened RefInt

  // ---------------------------------------------------------------------------
  // The shape of the tree
  // ---------------------------------------------------------------------------

  /** Every entry is managed and hangs below a suffix through entries that exist. */
  ghost predicate WellShaped(t: Tree, scopes: seq<Name>) {
    && Tidy(t)
    && forall d :: d in t ==> UnderAny(d, scopes) && (d in scopes || (|d| >= 2 && d[1..] in t))
  }

  lemma {:induction false} HangsBelow(t: Tree, scopes: seq<Name>, d: Name)
    requires WellShaped(t, scopes) && Siblings(scopes) && d in t
    ensures exists i :: 0 <= i < |scopes| && scopes[i] in t && AtOrUnder(d, scopes[i])
    decreases |d|
  {
    if d in scopes {
      var i :| 0 <= i < |scopes| && scopes[i] == d;
    } else {
      HangsBelow(t, scopes, d[1..]);
      var i :| 0 <= i < |scopes| && scopes[i] in t && AtOrUnder(d[1..], scopes[i]);
      ParentAtOrUnder(d, scopes[i]);
    }
  }

  lemma ShapeCovers(t: Tree, scopes: seq<Name>)
    requires WellShaped(t, scopes) && Siblings(scopes)
    ensures Covered(t, scopes)
  {
    forall d | d in t ensures exists i :: 0 <= i < |scopes| && scopes[i] in t && AtOrUnder(d, scopes[i]) {
      HangsBelow(t, scopes, d);
    }
  }

  /** Whatever lies at or below a name that is absent, and is not itself suffix-like, is absent too. */
  lemma {:induction false} NothingBelowFreeName(t: Tree, scopes: seq<Name>, d: Name, to: Name)
    requires WellShaped(t, scopes) && Siblings(scopes) && to != [] && to !in t && UnderAny(to, scopes)
    requires AtOrUnder(d, to)
    ensures d !in t
    decreases |d|
  {
    if d in t {
      if d in scopes {
        NoSuffixBelow(scopes, d, to);
      } else {
        ParentAtOrUnder(d, to);
        NothingBelowFreeName(t, scopes, d[1..], to);
      }
    }
  }

  lemma NoSuffixBelow(scopes: seq<Name>, d: Name, to: Name)
    requires Siblings(scopes) && d in scopes && UnderAny(to, scopes) && to != [] && AtOrUnder(d, to)
    ensures d == to
  {
    var i :| 0 <= i < |scopes| && scopes[i] == d;
    var j :| 0 <= j < |scopes| && AtOrUnder(to, scopes[j]);
    AtOrUnderTransitive(d, to, scopes[j]);
    if i == j {
      AtOrUnderSplit(d, to);
      AtOrUnderSplit(to, d);
    }
  }

  // ---------------------------------------------------------------------------
  // From seeds to reachability
  // ---------------------------------------------------------------------------

  /** The entry a write is about, under its names and, for a move, with all that moves along. */
  predicate Written(ev: WriteEvent, c: Name) {
    match MappingOf(ev)
    case Relocation(from, to) => AtOrUnder(c, from) || AtOrUnder(c, to)
    case Identity => (ev.before.Some? && c == ev.before.value.dn) || (ev.after.Some? && c == ev.after.value.dn)
  }

  /**
   * A managed entry that the write's recomputation passes over, although a written group, or
   * when nested a recomputed one, names it before or after the write.
   */
  ghost predicate Overlooked(t: Tree, u: Tree, scopes: seq<Name>, ev: WriteEvent, nested: bool, n: Name) {
    && n in u && UnderAny(n, scopes) && !Pulled(u, scopes, ev, nested, n)
    && exists c ::
        && EitherNames(GroupGraph(t, scopes, Identity), GroupGraph(u, scopes, MappingOf(ev)), c, n)
        && (Written(ev, c) || (nested && Pulled(u, scopes, ev, nested, c)))
  }

  ghost predicate SameReach(t: Tree, u: Tree, scopes: seq<Name>, ev: WriteEvent, nested: bool, n: Name) {
    Reaching(GroupGraph(t, scopes, Identity), nested, n) == Reaching(GroupGraph(u, scopes, MappingOf(ev)), nested, n)
  }

  /** What the recomputation passes over belongs to the same groups as before. */
  ghost predicate OverlookedKeep(t: Tree, u: Tree, scopes: seq<Name>, ev: WriteEvent, nested: bool) {
    forall n :: Overlooked(t, u, scopes, ev, nested, n) ==> SameReach(t, u, scopes, ev, nested, n)
  }

  /** If the overlooked entries belong to the same groups as before, so does everything that is not recomputed. */
  lemma NotPulledUnaffected(t: Tree, u: Tree, scopes: seq<Name>, ev: WriteEvent, nested: bool, kept: set<Name>,
      seeds: set<Name>, y: Name)
    requires Touches(u, scopes, ev, nested, seeds) && OverlookedKeep(t, u, scopes, ev, nested)
    requires var g, h := GroupGraph(t, scopes, Identity), GroupGraph(u, scopes, MappingOf(ev));
      && kept <= g.Keys && kept <= h.Keys && Agree(g, h, kept, y)
      && forall c :: (c in g || c in h) && c !in kept ==> Written(ev, c)
    requires y in u && UnderAny(y, scopes) && y !in seeds
    ensures SameReach(t, u, scopes, ev, nested, y)
  {
    hide UnderAny, GroupGraph, Reaching, Agree, Canonical, Written, Pulled, MappingOf;
    var g, h := GroupGraph(t, scopes, Identity), GroupGraph(u, scopes, MappingOf(ev));
    forall n | Leaks(g, h, kept, seeds, nested, n) && (n == y || n in kept)
      ensures Reaching(g, nested, n) == Reaching(h, nested, n)
    {
      GroupIsManaged(u, scopes, MappingOf(ev), n);
      assert Overlooked(t, u, scopes, ev, nested, n);
    }
    hide Leaks;
    UnseededUnaffected(g, h, kept, seeds, nested, y);
  }

  lemma GroupIsManaged(t: Tree, scopes: seq<Name>, mv: Mapping, c: Name)
    ensures c in GroupGraph(t, scopes, mv) ==> c in t && UnderAny(c, scopes) && IsGroup(t[c])
    ensures c in FollowedGraph(t, scopes, mv) <==> c in GroupGraph(t, scopes, mv)
  {
    hide UnderAny, IsGroup, Image, MemberNames, ScopedMembers;
  }

  /** The memberships that are followed are memberships. */
  lemma FollowedIsNamed(t: Tree, scopes: seq<Name>, mv: Mapping, c: Name, n: Name)
    requires c in FollowedGraph(t, scopes, mv) && n in FollowedGraph(t, scopes, mv)[c]
    ensures c in GroupGraph(t, scopes, mv) && n in GroupGraph(t, scopes, mv)[c] && UnderAny(n, scopes)
  {
    ScopedFacts(t[c], scopes, mv, n);
    hide UnderAny, IsGroup, Image, MemberNames, ScopedMembers;
  }

  /** Below what is pulled in, everything that is followed is pulled in too. */
  lemma PulledBelow(t: Tree, scopes: seq<Name>, ev: WriteEvent, c: Name, n: Name)
    requires Pulled(t, scopes, ev, true, c)
    requires var f := FollowedGraph(t, scopes, MappingOf(ev)); c in f && n in f[c]
    ensures Pulled(t, scopes, ev, true, n)
  {
    hide FollowedGraph, Seeded, MappingOf, Reaches, Canonical;
    var f := FollowedGraph(t, scopes, MappingOf(ev));
    if Seeded(t, scopes, ev, c) {
      EdgeReaches(f, c, n);
    } else {
      var s :| Seeded(t, scopes, ev, s) && Reaches(f, s, c);
      AppendReaches(f, s, c, n);
    }
  }

  /** Whatever is pulled in lies under a managed suffix. */
  lemma PulledIsManaged(t: Tree, scopes: seq<Name>, ev: WriteEvent, nested: bool, m: Name)
    requires Pulled(t, scopes, ev, nested, m)
    ensures UnderAny(m, scopes)
  {
    hide FollowedGraph, MappingOf, UnderAny, Canonical, AtOrUnder, GroupGraph;
    if Seeded(t, scopes, ev, m) {
      SeededIsManaged(t, scopes, ev, m);
    } else {
      var f := FollowedGraph(t, scopes, MappingOf(ev));
      var s :| Seeded(t, scopes, ev, s) && Reaches(f, s, m);
      ReachesTarget(f, s, m);
      var d :| d in f && m in f[d];
      FollowedIsNamed(t, scopes, MappingOf(ev), d, m);
    }
  }

  lemma SeededIsManaged(t: Tree, scopes: seq<Name>, ev: WriteEvent, m: Name)
    requires Seeded(t, scopes, ev, m)
    ensures UnderAny(m, scopes)
  {
    hide UnderAny, Canonical, AtOrUnder, MappingOf, ScopedMembers;
    forall e: Entry, mv | m in ScopedMembers(e, scopes, mv) ensures UnderAny(m, scopes) {
      ScopedFacts(e, scopes, mv, m);
    }
  }

  lemma ImageIdentity(ns: set<Name>)
    ensures Image(ns, Identity) == ns
  {
    forall n ensures n in Image(ns, Identity) <==> n in ns {
      if n in ns { assert Apply(Identity, n) == n; }
    }
  }

  lemma GraphAt(t: Tree, scopes: seq<Name>, d: Name)
    ensures d in GroupGraph(t, scopes, Identity) <==> d in t && UnderAny(d, scopes) && IsGroup(t[d])
    ensures d in GroupGraph(t, scopes, Identity) ==> GroupGraph(t, scopes, Identity)[d] == MemberNames(t[d])
  {
    if d in t { ImageIdentity(MemberNames(t[d])); }
    hide UnderAny, IsGroup, Image, MemberNames;
  }

  // ---------------------------------------------------------------------------
  // Add and Modify
  // ---------------------------------------------------------------------------

  /** u is t with the entry x put in place (or replaced); other entries are as they were. */
  ghost predicate PutAt(t: Tree, u: Tree, x: Name) {
    x in u && u.Keys == t.Keys + {x} && forall d :: d in t && d != x ==> u[d] == t[d]
  }

  /** Before and after the entry x is written, the other groups are the same. */
  lemma PutGraphs(t: Tree, u: Tree, x: Name, scopes: seq<Name>, c: Name)
    requires PutAt(t, u, x) && c != x
    ensures var g, h := GroupGraph(t, scopes, Identity), GroupGraph(u, scopes, Identity);
      (c in g <==> c in h) && (c in g ==> g[c] == h[c])
  {
    hide GroupGraph, UnderAny, IsGroup, MemberNames, Canonical;
    GraphAt(t, scopes, c);
    GraphAt(u, scopes, c);
  }

  /** Unless something is overlooked, writing one entry changes nothing for an entry that is not recomputed. */
  lemma PutUnaffected(t: Tree, u: Tree, x: Name, ev: WriteEvent, seeds: set<Name>, nested: bool, scopes: seq<Name>,
      y: Name)
    requires PutAt(t, u, x) && MappingOf(ev) == Identity && Written(ev, x)
    requires Touches(u, scopes, ev, nested, seeds) && OverlookedKeep(t, u, scopes, ev, nested)
    requires y in u && y !in seeds && UnderAny(y, scopes)
    ensures SameReach(t, u, scopes, ev, nested, y)
  {
    hide GroupGraph, UnderAny, IsGroup, MemberNames, SameReach, Canonical, OverlookedKeep, Written, Touches;
    var g, h := GroupGraph(t, scopes, Identity), GroupGraph(u, scopes, Identity);
    forall c | c != x ensures (c in g <==> c in h) && (c in g ==> g[c] == h[c]) {
      PutGraphs(t, u, x, scopes, c);
    }
    NotPulledUnaffected(t, u, scopes, ev, nested, g.Keys * h.Keys - {x}, seeds, y);
  }

  /**
   * Modify, exactly: after the plugins ran, every memberOf set is exact if and only if every
   * entry that the recomputation passes over belongs to the same groups as before.
   */
  lemma ModifyConvergesExactly(t: Tree, u: Tree, v: Tree, x: Name, ev: WriteEvent, seeds: set<Name>,
      scopes: seq<Name>, nested: bool)
    requires Converged(t, scopes, nested) && x in t && PutAt(t, u, x)
    requires MemberOfNames(u[x]) == MemberOfNames(t[x])
    requires ev.op == WriteModify || ev.op == WriteRename
    requires ev.before == Some(t[x]) && ev.after == Some(u[x]) && t[x].dn == u[x].dn == x
    requires Recomputed(u, v, GroupGraph(u, scopes, Identity), nested, seeds) && Touches(u, scopes, ev, nested, seeds)
    ensures Converged(v, scopes, nested) <==> OverlookedKeep(t, u, scopes, ev, nested)
  {
    hide GroupGraph, UnderAny, IsGroup, MemberNames, Reaching, Canonical, MemberOfNames, Distinct, HasClass, SameBut,
        Pulled;
    var g, h := GroupGraph(t, scopes, Identity), GroupGraph(u, scopes, Identity);
    assert MappingOf(ev) == Identity && Written(ev, x);
    RecomputedKeepsGraph(u, v, h, nested, seeds, scopes, Identity);
    forall d | d in v && UnderAny(d, scopes)
      ensures MemberOfNames(v[d]) == Reaching(if d in seeds then h else g, nested, d)
    {
    }
    if OverlookedKeep(t, u, scopes, ev, nested) {
      forall d | d in v && UnderAny(d, scopes) && d !in seeds ensures MemberOfNames(v[d]) == Reaching(h, nested, d) {
        PutUnaffected(t, u, x, ev, seeds, nested, scopes, d);
      }
    }
  }

  /** Some managed group of t names x. */
  ghost predicate NamedInTree(t: Tree, scopes: seq<Name>, x: Name) {
    exists c :: c in t && UnderAny(c, scopes) && IsGroup(t[c]) && x in MemberNames(t[c])
  }

  lemma NamedIsReached(t: Tree, scopes: seq<Name>, nested: bool, x: Name)
    ensures NamedInTree(t, scopes, x) <==> Reaching(GroupGraph(t, scopes, Identity), nested, x) != {}
  {
    hide GroupGraph, UnderAny, IsGroup, MemberNames, Canonical;
    var g := GroupGraph(t, scopes, Identity);
    if NamedInTree(t, scopes, x) {
      var c :| c in t && UnderAny(c, scopes) && IsGroup(t[c]) && x in MemberNames(t[c]);
      GraphAt(t, scopes, c);
      EdgeReaches(g, c, x);
      assert c in Reaching(g, nested, x);
    }
    if Reaching(g, nested, x) != {} {
      var a :| a in Reaching(g, nested, x);
      if nested { ReachesTarget(g, a, x); }
      var c :| c in g && x in g[c];
      GraphAt(t, scopes, c);
    }
  }

  /**
   * Add, exactly: after the plugins ran, every memberOf set is exact if and only if the new
   * entry is recomputed when some managed group names it, and no entry is overlooked.
   */
  lemma AddConvergesExactly(t: Tree, u: Tree, v: Tree, x: Name, ev: WriteEvent, seeds: set<Name>, scopes: seq<Name>,
      nested: bool)
    requires Converged(t, scopes, nested) && x !in t && UnderAny(x, scopes) && PutAt(t, u, x) && u[x].dn == x
    requires MemberOfNames(u[x]) == {} && ev == WriteEvent(WriteAdd, None, Some(u[x]))
    requires Recomputed(u, v, GroupGraph(u, scopes, Identity), nested, seeds)
    requires Touches(u, scopes, ev, nested, seeds)
    ensures Converged(v, scopes, nested) <==>
              && (NamedInTree(u, scopes, x) ==> Pulled(u, scopes, ev, nested, x))
              && forall n :: !Overlooked(t, u, scopes, ev, nested, n)
  {
    hide GroupGraph, UnderAny, IsGroup, MemberNames, Reaching, Canonical, MemberOfNames, Distinct, HasClass,
        NamedInTree, Reaches, Pulled, Overlooked, SameBut, SameReach;
    var g, h := GroupGraph(t, scopes, Identity), GroupGraph(u, scopes, Identity);
    assert MappingOf(ev) == Identity && Written(ev, x);
    RecomputedKeepsGraph(u, v, h, nested, seeds, scopes, Identity);
    NamedIsReached(u, scopes, nested, x);
    forall d | d in v && UnderAny(d, scopes) && d != x
      ensures MemberOfNames(v[d]) == Reaching(if d in seeds then h else g, nested, d)
    {
    }
    if forall n :: !Overlooked(t, u, scopes, ev, nested, n) {
      forall d | d in v && UnderAny(d, scopes) && d != x && d !in seeds
        ensures MemberOfNames(v[d]) == Reaching(h, nested, d)
      {
        PutUnaffected(t, u, x, ev, seeds, nested, scopes, d);
        SameReachIs(t, u, scopes, ev, nested, d);
      }
    }
    forall n | Overlooked(t, u, scopes, ev, nested, n) ensures !Converged(v, scopes, nested) {
      AddedReaches(t, u, x, ev, scopes, nested, n);
      OverlookedFacts(t, u, scopes, ev, nested, n);
      NotAGroupThere(t, scopes, nested, x, n);
    }
  }

  lemma SameReachIs(t: Tree, u: Tree, scopes: seq<Name>, ev: WriteEvent, nested: bool, n: Name)
    requires SameReach(t, u, scopes, ev, nested, n) && MappingOf(ev) == Identity
    ensures Reaching(GroupGraph(t, scopes, Identity), nested, n) == Reaching(GroupGraph(u, scopes, Identity), nested, n)
  {
  }

  lemma OverlookedFacts(t: Tree, u: Tree, scopes: seq<Name>, ev: WriteEvent, nested: bool, n: Name)
    requires Overlooked(t, u, scopes, ev, nested, n)
    ensures n in u && UnderAny(n, scopes) && !Pulled(u, scopes, ev, nested, n)
  {
  }

  lemma NotAGroupThere(t: Tree, scopes: seq<Name>, nested: bool, x: Name, n: Name)
    requires x !in t
    ensures x !in Reaching(GroupGraph(t, scopes, Identity), nested, n)
  {
    hide UnderAny, IsGroup, MemberNames, Image;
  }

  /** The new entry is a group that an overlooked entry belongs to. */
  lemma AddedReaches(t: Tree, u: Tree, x: Name, ev: WriteEvent, scopes: seq<Name>, nested: bool, n: Name)
    requires x !in t && PutAt(t, u, x) && UnderAny(x, scopes) && u[x].dn == x
    requires ev == WriteEvent(WriteAdd, None, Some(u[x])) && Overlooked(t, u, scopes, ev, nested, n)
    ensures x in Reaching(GroupGraph(u, scopes, Identity), nested, n)
  {
    hide GroupGraph, FollowedGraph, UnderAny, IsGroup, MemberNames, Canonical, Reaches, SeedsOf;
    var g, h, f := GroupGraph(t, scopes, Identity), GroupGraph(u, scopes, Identity), FollowedGraph(u, scopes, Identity);
    var c :| EitherNames(g, h, c, n) && (Written(ev, c) || (nested && Pulled(u, scopes, ev, nested, c)));
    assert c in h && n in h[c] by {
      if c != x { PutGraphs(t, u, x, scopes, c); } else { GroupIsManaged(t, scopes, Identity, x); }
    }
    if c == x {
      EdgeReaches(h, x, n);
    } else {
      var s :| Seeded(u, scopes, ev, s) && (s == c || Reaches(f, s, c));
      SeedIsNamed(u, x, scopes, s);
      if s != c {
        forall b, m | b in f && m in f[b] ensures b in h && m in h[b] {
          FollowedIsNamed(u, scopes, Identity, b, m);
        }
        ReachesWithin(f, h, s, c);
        PrependReaches(h, x, s, c);
      } else {
        EdgeReaches(h, x, s);
      }
      AppendReaches(h, x, c, n);
    }
  }

  lemma SeedIsNamed(t: Tree, x: Name, scopes: seq<Name>, s: Name)
    requires x in t && UnderAny(x, scopes) && s in SeedsOf(Some(t[x]), scopes, Identity)
    ensures x in GroupGraph(t, scopes, Identity) && s in GroupGraph(t, scopes, Identity)[x]
  {
    ScopedFacts(t[x], scopes, Identity, s);
    hide UnderAny, IsGroup, MemberNames, Image, ScopedMembers;
  }

  // ---------------------------------------------------------------------------
  // Delete
  // ---------------------------------------------------------------------------

  /** u is t without x; what is left names the same members, x aside, and stores the same memberOf sets. */
  ghost predicate WithoutEntry(t: Tree, u: Tree, x: Name) {
    u.Keys == t.Keys - {x} &&
    forall d :: d in u ==>
      && MemberOfNames(u[d]) == MemberOfNames(t[d])
      && (IsGroup(u[d]) <==> IsGroup(t[d]))
      && MemberNames(u[d]) - {x} == MemberNames(t[d]) - {x}
  }

  lemma WithoutUnaffected(t: Tree, u: Tree, x: Name, ev: WriteEvent, seeds: set<Name>, nested: bool,
      scopes: seq<Name>, y: Name)
    requires WithoutEntry(t, u, x) && MappingOf(ev) == Identity && (x in t ==> Written(ev, x))
    requires Touches(u, scopes, ev, nested, seeds) && OverlookedKeep(t, u, scopes, ev, nested)
    requires y in u && y !in seeds && UnderAny(y, scopes)
    ensures SameReach(t, u, scopes, ev, nested, y)
  {
    hide GroupGraph, UnderAny, IsGroup, MemberNames, SameReach, Canonical, MemberOfNames, OverlookedKeep, Written,
        Touches;
    var g, h := GroupGraph(t, scopes, Identity), GroupGraph(u, scopes, Identity);
    forall d ensures
      && (d in g <==> d in t && UnderAny(d, scopes) && IsGroup(t[d])) && (d in g ==> g[d] == MemberNames(t[d]))
      && (d in h <==> d in u && UnderAny(d, scopes) && IsGroup(u[d])) && (d in h ==> h[d] == MemberNames(u[d]))
    {
      GraphAt(t, scopes, d);
      GraphAt(u, scopes, d);
    }
    WithoutAgree(t, u, g, h, x, y);
    NotPulledUnaffected(t, u, scopes, ev, nested, h.Keys, seeds, y);
  }

  lemma WithoutAgree(t: Tree, u: Tree, g: Graph<Name>, h: Graph<Name>, x: Name, y: Name)
    requires WithoutEntry(t, u, x) && y != x && h.Keys <= g.Keys && h.Keys <= u.Keys
    requires forall d :: d in h ==> g[d] == MemberNames(t[d]) && h[d] == MemberNames(u[d])
    ensures Agree(g, h, h.Keys, y)
  {
    hide IsGroup, MemberNames, Canonical, MemberOfNames;
    forall k, n | k in h && n != x ensures n in g[k] <==> n in h[k] {
      assert n in g[k] - {x} <==> n in h[k] - {x};
    }
  }

  /** Delete, exactly: every remaining memberOf set is exact if and only if no entry is overlooked. */
  lemma DeleteConvergesExactly(t: Tree, u: Tree, v: Tree, x: Name, ev: WriteEvent, seeds: set<Name>,
      scopes: seq<Name>, nested: bool)
    requires Converged(t, scopes, nested) && x in t && t[x].dn == x && UnderAny(x, scopes) && WithoutEntry(t, u, x)
    requires ev == WriteEvent(WriteDelete, Some(t[x]), None)
    requires Recomputed(u, v, GroupGraph(u, scopes, Identity), nested, seeds) && Touches(u, scopes, ev, nested, seeds)
    ensures Converged(v, scopes, nested) <==> forall n :: !Overlooked(t, u, scopes, ev, nested, n)
  {
    hide GroupGraph, UnderAny, IsGroup, MemberNames, Reaching, Canonical, MemberOfNames, Distinct, HasClass, SameBut,
        Pulled, Overlooked, SameReach;
    var g, h := GroupGraph(t, scopes, Identity), GroupGraph(u, scopes, Identity);
    assert MappingOf(ev) == Identity && Written(ev, x);
    RecomputedKeepsGraph(u, v, h, nested, seeds, scopes, Identity);
    forall d | d in v && UnderAny(d, scopes)
      ensures MemberOfNames(v[d]) == Reaching(if d in seeds then h else g, nested, d)
    {
    }
    if forall n :: !Overlooked(t, u, scopes, ev, nested, n) {
      forall d | d in v && UnderAny(d, scopes) && d !in seeds ensures MemberOfNames(v[d]) == Reaching(h, nested, d) {
        WithoutUnaffected(t, u, x, ev, seeds, nested, scopes, d);
        SameReachIs(t, u, scopes, ev, nested, d);
      }
    }
    forall n | Overlooked(t, u, scopes, ev, nested, n) ensures !Converged(v, scopes, nested) {
      DeletedReached(t, u, x, ev, scopes, nested, n);
      OverlookedFacts(t, u, scopes, ev, nested, n);
      NotAGroupThere(u, scopes, nested, x, n);
    }
  }

  /** The deleted entry was a group that an overlooked entry belonged to. */
  lemma DeletedReached(t: Tree, u: Tree, x: Name, ev: WriteEvent, scopes: seq<Name>, nested: bool, n: Name)
    requires x in t && t[x].dn == x && UnderAny(x, scopes) && WithoutEntry(t, u, x)
    requires ev == WriteEvent(WriteDelete, Some(t[x]), None) && Overlooked(t, u, scopes, ev, nested, n)
    ensures x in Reaching(GroupGraph(t, scopes, Identity), nested, n)
  {
    hide GroupGraph, FollowedGraph, UnderAny, IsGroup, MemberNames, Canonical, Reaches, SeedsOf, WithoutEntry;
    var g, h, f := GroupGraph(t, scopes, Identity), GroupGraph(u, scopes, Identity), FollowedGraph(u, scopes, Identity);
    var c :| EitherNames(g, h, c, n) && (Written(ev, c) || (nested && Pulled(u, scopes, ev, nested, c)));
    assert n != x by { WithoutKeys(t, u, x); }
    assert c in g && n in g[c] by {
      if c in h && n in h[c] { WithoutNames(t, u, x, scopes, c, n); }
    }
    if c == x {
      EdgeReaches(g, x, n);
    } else {
      var s :| Seeded(u, scopes, ev, s) && (s == c || Reaches(f, s, c));
      SeedIsNamed(t, x, scopes, s);
      if s != c {
        forall b, m | b in f && m in f[b] && (m in f || m == c) ensures b in g && m in g[b] {
          FollowedIsNamed(u, scopes, Identity, b, m);
          GroupIsManaged(u, scopes, Identity, m);
          WithoutKeys(t, u, x);
          WithoutNames(t, u, x, scopes, b, m);
        }
        ReachesWithin(f, g, s, c);
        PrependReaches(g, x, s, c);
      } else {
        EdgeReaches(g, x, s);
      }
      AppendReaches(g, x, c, n);
    }
  }

  lemma WithoutKeys(t: Tree, u: Tree, x: Name)
    requires WithoutEntry(t, u, x)
    ensures x !in u && u.Keys == t.Keys - {x}
  {
    hide IsGroup, MemberNames, MemberOfNames;
  }

  lemma WithoutNames(t: Tree, u: Tree, x: Name, scopes: seq<Name>, c: Name, n: Name)
    requires WithoutEntry(t, u, x) && n != x
    requires c in GroupGraph(u, scopes, Identity) && n in GroupGraph(u, scopes, Identity)[c]
    ensures c in GroupGraph(t, scopes, Identity) && n in GroupGraph(t, scopes, Identity)[c]
  {
    hide GroupGraph, UnderAny, IsGroup, MemberNames, Canonical, MemberOfNames;
    GraphAt(t, scopes, c);
    GraphAt(u, scopes, c);
    assert n in MemberNames(u[c]) - {x};
  }

  /** Dropping references to an entry that is gone changes no reachability, and so keeps what is exact or not. */
  lemma ForgettingConverges(t: Tree, u: Tree, x: Name, scopes: seq<Name>, nested: bool)
    requires x !in t && WithoutEntry(t, u, x)
    ensures Converged(t, scopes, nested) <==> Converged(u, scopes, nested)
  {
    hide GroupGraph, UnderAny, IsGroup, MemberNames, Reaching, Canonical, MemberOfNames;
    var g, h := GroupGraph(t, scopes, Identity), GroupGraph(u, scopes, Identity);
    forall d | d in u && UnderAny(d, scopes) ensures Reaching(g, nested, d) == Reaching(h, nested, d) {
      ForgottenUnaffected(t, u, x, scopes, nested, d);
    }
  }

  lemma ForgottenUnaffected(t: Tree, u: Tree, x: Name, scopes: seq<Name>, nested: bool, y: Name)
    requires x !in t && WithoutEntry(t, u, x) && y in u
    ensures Reaching(GroupGraph(t, scopes, Identity), nested, y) == Reaching(GroupGraph(u, scopes, Identity), nested, y)
  {
    hide GroupGraph, UnderAny, IsGroup, MemberNames, Canonical, MemberOfNames, Reaching;
    var g, h := GroupGraph(t, scopes, Identity), GroupGraph(u, scopes, Identity);
    forall d ensures
      && (d in g <==> d in t && UnderAny(d, scopes) && IsGroup(t[d])) && (d in g ==> g[d] == MemberNames(t[d]))
      && (d in h <==> d in u && UnderAny(d, scopes) && IsGroup(u[d])) && (d in h ==> h[d] == MemberNames(u[d]))
    {
      GraphAt(t, scopes, d);
      GraphAt(u, scopes, d);
    }
    WithoutAgree(t, u, g, h, x, y);
    UnseededUnaffected(g, h, h.Keys, {}, nested, y);
  }

  // ---------------------------------------------------------------------------
  // Rename
  // ---------------------------------------------------------------------------

  /**
   * u is t with the subtree at from moved to to. The moved root may have been edited
   * (its RDN attributes follow the rename); every other entry keeps its content.
   */
  ghost predicate MovedTree(t: Tree, u: Tree, from: Name, to: Name) {
    && from in t && to in u
    && (forall d :: d in t ==> Moved(d, from, to) in u)
    && (forall d :: d in t && d != from ==> u[Moved(d, from, to)] == t[d].(dn := Moved(d, from, to)))
    && (forall y :: y in u ==> exists d :: d in t && Moved(d, from, to) == y)
  }

  /** w names the same members as u once both are read through the move, and stores the same memberOf sets. */
  ghost predicate SameThroughMove(u: Tree, w: Tree, mv: Mapping) {
    w.Keys == u.Keys &&
    forall d :: d in u ==>
      && MemberOfNames(w[d]) == MemberOfNames(u[d])
      && (IsGroup(w[d]) <==> IsGroup(u[d]))
      && Image(MemberNames(w[d]), mv) == Image(MemberNames(u[d]), mv)
  }

  lemma SameGraphThroughMove(u: Tree, w: Tree, scopes: seq<Name>, mv: Mapping)
    requires SameThroughMove(u, w, mv)
    ensures GroupGraph(w, scopes, mv) == GroupGraph(u, scopes, mv)
  {
    hide UnderAny, IsGroup, MemberNames, Image, MemberOfNames;
  }

  /** A name of the old tree that did not move is outside both subtrees. */
  lemma UnmovedOutside(t: Tree, scopes: seq<Name>, from: Name, to: Name, d: Name)
    requires WellShaped(t, scopes) && Siblings(scopes) && to != [] && to !in t && UnderAny(to, scopes)
    requires d in t && !AtOrUnder(d, from)
    ensures Moved(d, from, to) == d && !AtOrUnder(d, to)
  {
    if AtOrUnder(d, to) {
      NothingBelowFreeName(t, scopes, d, to);
    }
  }

  /** What the graph before the move and the graph after it, read through the move, have to do with each other. */
  lemma MovedGraphs(t: Tree, u: Tree, scopes: seq<Name>, from: Name, to: Name, c: Name)
    requires WellShaped(t, scopes) && Siblings(scopes) && MovedTree(t, u, from, to)
    requires from != [] && to != [] && to !in t && UnderAny(to, scopes)
    ensures var g, h := GroupGraph(t, scopes, Identity), GroupGraph(u, scopes, Relocation(from, to));
      && (c in g && !AtOrUnder(c, from) ==> c in h && h[c] == Image(g[c], Relocation(from, to)))
      && (c in h && !AtOrUnder(c, to) ==> c in g && !AtOrUnder(c, from))
  {
    hide UnderAny, IsGroup, MemberNames, Image, AtOrUnder, WellShaped, Siblings, Moved, Canonical, GroupGraph;
    GraphAt(t, scopes, c);
    GraphMapped(u, scopes, Relocation(from, to), c);
    if c in t && !AtOrUnder(c, from) {
      UnmovedOutside(t, scopes, from, to, c);
      DifferentFromRoot(c, from);
      SameContent(t[c], u[c], c);
    }
    if c in u && !AtOrUnder(c, to) {
      var d :| d in t && Moved(d, from, to) == c;
      if AtOrUnder(d, from) {
        RebaseUnder(d, from, to);
      } else {
        UnmovedOutside(t, scopes, from, to, d);
        DifferentFromRoot(d, from);
        SameContent(t[d], u[d], d);
      }
    }
  }

  lemma DifferentFromRoot(d: Name, from: Name)
    requires !AtOrUnder(d, from)
    ensures d != from
  {
  }

  lemma SameContent(e: Entry, e': Entry, d: Name)
    requires e' == e.(dn := d)
    ensures IsGroup(e') == IsGroup(e) && MemberNames(e') == MemberNames(e) && MemberOfNames(e') == MemberOfNames(e)
  {
    hide NamesIn, ValuesOf, EqualFold;
    assert Values(e', "objectClass") == Values(e, "objectClass");
    assert HasClass(e', "groupOfNames") <==> HasClass(e, "groupOfNames");
    assert HasClass(e', "groupOfUniqueNames") <==> HasClass(e, "groupOfUniqueNames");
  }

  lemma GraphMapped(t: Tree, scopes: seq<Name>, mv: Mapping, d: Name)
    ensures d in GroupGraph(t, scopes, mv) <==> d in t && UnderAny(d, scopes) && IsGroup(t[d])
    ensures d in GroupGraph(t, scopes, mv) ==> GroupGraph(t, scopes, mv)[d] == Image(MemberNames(t[d]), mv)
  {
    hide UnderAny, IsGroup, Image, MemberNames;
  }

  /** Reading through the move changes nothing about names outside both subtrees. */
  lemma ImageOutside(ns: set<Name>, from: Name, to: Name, n: Name)
    requires from != [] && to != [] && !AtOrUnder(n, from) && !AtOrUnder(n, to)
    ensures n in Image(ns, Relocation(from, to)) <==> n in ns
  {
    if n in ns {
      assert Apply(Relocation(from, to), n) == n;
    }
    if n in Image(ns, Relocation(from, to)) {
      var m :| m in ns && Apply(Relocation(from, to), m) == n;
      if AtOrUnder(m, from) {
        RebaseUnder(m, from, to);
      }
    }
  }

  /** Unless something is overlooked, the same groups reach an entry the move does not recompute, before and after. */
  lemma MoveUnaffected(t: Tree, u: Tree, scopes: seq<Name>, from: Name, to: Name, ev: WriteEvent, seeds: set<Name>,
      nested: bool, y: Name)
    requires WellShaped(t, scopes) && Siblings(scopes) && MovedTree(t, u, from, to)
    requires from != [] && to != [] && from != to && to !in t && UnderAny(to, scopes)
    requires MappingOf(ev) == Relocation(from, to) && Touches(u, scopes, ev, nested, seeds)
    requires OverlookedKeep(t, u, scopes, ev, nested)
    requires y in u && y !in seeds && UnderAny(y, scopes) && !AtOrUnder(y, from) && !AtOrUnder(y, to)
    ensures SameReach(t, u, scopes, ev, nested, y)
  {
    hide UnderAny, IsGroup, MemberNames, Image, AtOrUnder, WellShaped, Siblings, Moved, Canonical, GroupGraph,
        MovedTree, SameReach, Agree, OverlookedKeep, Touches, MappingOf;
    var g, h := GroupGraph(t, scopes, Identity), GroupGraph(u, scopes, Relocation(from, to));
    var kept := set k | k in g && !AtOrUnder(k, from);
    forall k | k in kept ensures k in h {
      MovedGraphs(t, u, scopes, from, to, k);
    }
    forall c | (c in g || c in h) && c !in kept ensures Written(ev, c) {
      MovedGraphs(t, u, scopes, from, to, c);
    }
    MoveAgrees(t, u, scopes, from, to, kept, y);
    NotPulledUnaffected(t, u, scopes, ev, nested, kept, seeds, y);
  }

  lemma MoveAgrees(t: Tree, u: Tree, scopes: seq<Name>, from: Name, to: Name, kept: set<Name>, y: Name)
    requires WellShaped(t, scopes) && Siblings(scopes) && MovedTree(t, u, from, to)
    requires from != [] && to != [] && to !in t && UnderAny(to, scopes)
    requires !AtOrUnder(y, from) && !AtOrUnder(y, to)
    requires kept == set k | k in GroupGraph(t, scopes, Identity) && !AtOrUnder(k, from)
    requires kept <= GroupGraph(u, scopes, Relocation(from, to)).Keys
    ensures Agree(GroupGraph(t, scopes, Identity), GroupGraph(u, scopes, Relocation(from, to)), kept, y)
  {
    hide UnderAny, IsGroup, MemberNames, Image, AtOrUnder, WellShaped, Siblings, Moved, Canonical, GroupGraph,
        MovedTree;
    var g, h := GroupGraph(t, scopes, Identity), GroupGraph(u, scopes, Relocation(from, to));
    forall k | k in kept
      ensures (y in g[k] <==> y in h[k]) && forall n :: n in kept ==> (n in g[k] <==> n in h[k])
    {
      MovedGraphs(t, u, scopes, from, to, k);
      ImageOutside(g[k], from, to, y);
      forall n | n in kept ensures n in g[k] <==> n in h[k] {
        GraphAt(t, scopes, n);
        UnmovedOutside(t, scopes, from, to, n);
        ImageOutside(g[k], from, to, n);
      }
    }
  }

  /** seeds holds, of the managed entries, those that the move of u pulls in. */
  ghost predicate PullsIn(u: Tree, scopes: seq<Name>, ev: WriteEvent, nested: bool, seeds: set<Name>) {
    forall d :: d in u && UnderAny(d, scopes) ==> (d in seeds <==> Pulled(u, scopes, ev, nested, d))
  }

  /**
   * A committed rename or subtree move, after memberof ran over w (u itself, or u with its
   * member values already redirected): what is recomputed carries what the moved graph says,
   * and everything else what it carried before.
   */
  lemma MoveRecomputed(t: Tree, u: Tree, w: Tree, v: Tree, from: Name, to: Name, ev: WriteEvent, seeds: set<Name>,
      scopes: seq<Name>, nested: bool, d: Name)
    requires Converged(t, scopes, nested) && WellShaped(t, scopes) && Siblings(scopes) && MovedTree(t, u, from, to)
    requires from != [] && to != [] && from != to && to !in t && UnderAny(to, scopes)
    requires ev == WriteEvent(WriteRename, Some(t[from]), Some(u[to])) && t[from].dn == from && u[to].dn == to
    requires SameThroughMove(u, w, Relocation(from, to)) && PullsIn(u, scopes, ev, nested, seeds)
    requires Recomputed(w, v, GroupGraph(w, scopes, Relocation(from, to)), nested, seeds)
    requires d in u && UnderAny(d, scopes)
    ensures d in v && MemberOfNames(v[d]) ==
              if Pulled(u, scopes, ev, nested, d)
              then Reaching(GroupGraph(u, scopes, Relocation(from, to)), nested, d)
              else Reaching(GroupGraph(t, scopes, Identity), nested, d)
    ensures !Pulled(u, scopes, ev, nested, d) ==> d in t && !AtOrUnder(d, from) && !AtOrUnder(d, to)
  {
    hide UnderAny, IsGroup, MemberNames, Image, AtOrUnder, Siblings, Moved, Canonical, GroupGraph, Pulled, Reaching,
        MemberOfNames, Distinct, HasClass, WellShaped, MovedTree, SameBut;
    SameGraphThroughMove(u, w, scopes, Relocation(from, to));
    if !Pulled(u, scopes, ev, nested, d) {
      UnpulledIsUnmoved(t, u, scopes, from, to, ev, nested, d);
      SameContent(t[d], u[d], d);
    }
  }

  /**
   * After the recomputation of a move every entry carries what the moved graph says, exactly when what is overlooked
   * keeps its groups.
   */
  lemma MoveConvergesExactly(t: Tree, u: Tree, w: Tree, v: Tree, from: Name, to: Name, ev: WriteEvent,
      seeds: set<Name>, scopes: seq<Name>, nested: bool)
    requires Converged(t, scopes, nested) && WellShaped(t, scopes) && Siblings(scopes) && MovedTree(t, u, from, to)
    requires from != [] && to != [] && from != to && to !in t && UnderAny(to, scopes)
    requires ev == WriteEvent(WriteRename, Some(t[from]), Some(u[to])) && t[from].dn == from && u[to].dn == to
    requires SameThroughMove(u, w, Relocation(from, to)) && PullsIn(u, scopes, ev, nested, seeds)
    requires Recomputed(w, v, GroupGraph(w, scopes, Relocation(from, to)), nested, seeds)
    ensures v.Keys == u.Keys
    ensures (forall d :: d in v && UnderAny(d, scopes) ==>
                MemberOfNames(v[d]) == Reaching(GroupGraph(u, scopes, Relocation(from, to)), nested, d)) <==>
              OverlookedKeep(t, u, scopes, ev, nested)
  {
    hide UnderAny, IsGroup, MemberNames, Image, AtOrUnder, Siblings, Moved, Canonical, GroupGraph, Pulled, Reaching,
        MemberOfNames, Distinct, HasClass, WellShaped, MovedTree, SameBut, Overlooked, PullsIn;
    assert MappingOf(ev) == Relocation(from, to);
    forall d | d in u && UnderAny(d, scopes)
      ensures MemberOfNames(v[d]) ==
                if Pulled(u, scopes, ev, nested, d)
                then Reaching(GroupGraph(u, scopes, Relocation(from, to)), nested, d)
                else Reaching(GroupGraph(t, scopes, Identity), nested, d)
      ensures !Pulled(u, scopes, ev, nested, d) ==> d in t && !AtOrUnder(d, from) && !AtOrUnder(d, to)
    {
      MoveRecomputed(t, u, w, v, from, to, ev, seeds, scopes, nested, d);
    }
    if OverlookedKeep(t, u, scopes, ev, nested) {
      forall d | d in u && UnderAny(d, scopes) && !Pulled(u, scopes, ev, nested, d)
        ensures MemberOfNames(v[d]) == Reaching(GroupGraph(u, scopes, Relocation(from, to)), nested, d)
      {
        UnpulledSame(t, u, from, to, ev, scopes, nested, d);
      }
    }
    forall n | Overlooked(t, u, scopes, ev, nested, n)
      ensures n in u && UnderAny(n, scopes) && !Pulled(u, scopes, ev, nested, n)
    {
      OverlookedFacts(t, u, scopes, ev, nested, n);
    }
  }

  lemma UnpulledSame(t: Tree, u: Tree, from: Name, to: Name, ev: WriteEvent, scopes: seq<Name>, nested: bool, d: Name)
    requires WellShaped(t, scopes) && Siblings(scopes) && MovedTree(t, u, from, to)
    requires from != [] && to != [] && from != to && to !in t && UnderAny(to, scopes)
    requires MappingOf(ev) == Relocation(from, to) && OverlookedKeep(t, u, scopes, ev, nested)
    requires d in u && UnderAny(d, scopes) && !AtOrUnder(d, from) && !AtOrUnder(d, to)
    requires !Pulled(u, scopes, ev, nested, d)
    ensures SameReach(t, u, scopes, ev, nested, d)
  {
    hide UnderAny, AtOrUnder, Siblings, Canonical, GroupGraph, Pulled, WellShaped, MovedTree, SameReach, MappingOf,
        OverlookedKeep;
    var seeds := PulledSet(u, scopes, ev, nested);
    MoveUnaffected(t, u, scopes, from, to, ev, seeds, nested, d);
  }

  /** What a write pulls in is a finite set. */
  lemma PulledSet(u: Tree, scopes: seq<Name>, ev: WriteEvent, nested: bool) returns (seeds: set<Name>)
    ensures Touches(u, scopes, ev, nested, seeds)
  {
    var f := FollowedGraph(u, scopes, MappingOf(ev));
    var all := (set m | m in SeedsOf(ev.before, scopes, MappingOf(ev)))
        + (set m | m in SeedsOf(ev.after, scopes, MappingOf(ev))) + u.Keys
        + (set d, m | d in u.Keys && m in SeedsOf(Some(u[d]), scopes, MappingOf(ev)) :: m)
        + set d, m | d in f.Keys && m in f[d] :: m;
    hide UnderAny, AtOrUnder, Canonical, MappingOf, SeedsOf, FollowedGraph;
    forall m | Pulled(u, scopes, ev, nested, m) ensures m in all {
      if !Seeded(u, scopes, ev, m) {
        var s :| Seeded(u, scopes, ev, s) && Reaches(f, s, m);
        ReachesTarget(f, s, m);
      } else if m !in u && m !in SeedsOf(ev.before, scopes, MappingOf(ev))
            && m !in SeedsOf(ev.after, scopes, MappingOf(ev)) {
        SeededElsewhere(u, scopes, ev, m);
      }
    }
    seeds := set m | m in all && Pulled(u, scopes, ev, nested, m);
  }

  lemma SeededElsewhere(u: Tree, scopes: seq<Name>, ev: WriteEvent, m: Name)
    requires Seeded(u, scopes, ev, m) && m !in u && m !in SeedsOf(ev.before, scopes, MappingOf(ev))
    requires m !in SeedsOf(ev.after, scopes, MappingOf(ev))
    ensures exists d :: d in u && m in SeedsOf(Some(u[d]), scopes, MappingOf(ev))
  {
    hide UnderAny, AtOrUnder, Canonical, SeedsOf;
  }

  lemma MovedIsPulled(u: Tree, scopes: seq<Name>, ev: WriteEvent, nested: bool, d: Name)
    requires ev.op == WriteRename && MappingOf(ev).Relocation? && MappingOf(ev).to in u
    requires d in u && UnderAny(d, scopes) && AtOrUnder(d, MappingOf(ev).to)
    ensures Seeded(u, scopes, ev, d) && Pulled(u, scopes, ev, nested, d)
  {
    hide UnderAny, AtOrUnder, MappingOf, SeedsOf, FollowedGraph;
    assert FromMoved(u, scopes, MappingOf(ev), d);
  }

  /** What a move does not recompute did not move. */
  lemma UnpulledIsUnmoved(t: Tree, u: Tree, scopes: seq<Name>, from: Name, to: Name, ev: WriteEvent, nested: bool,
      d: Name)
    requires WellShaped(t, scopes) && Siblings(scopes) && MovedTree(t, u, from, to)
    requires from != [] && to != [] && from != to && to !in t && UnderAny(to, scopes)
    requires ev == WriteEvent(WriteRename, Some(t[from]), Some(u[to])) && t[from].dn == from && u[to].dn == to
    requires d in u && UnderAny(d, scopes) && !Pulled(u, scopes, ev, nested, d)
    ensures !AtOrUnder(d, from) && !AtOrUnder(d, to) && d in t && d != from && u[d] == t[d].(dn := d)
  {
    hide UnderAny, IsGroup, MemberNames, Image, AtOrUnder, WellShaped, Siblings, Moved, Canonical, SeedsOf, Pulled;
    assert MappingOf(ev) == Relocation(from, to);
    if AtOrUnder(d, to) {
      MovedIsPulled(u, scopes, ev, nested, d);
    }
    var d0 :| d0 in t && Moved(d0, from, to) == d;
    if AtOrUnder(d0, from) {
      RebaseUnder(d0, from, to);
    } else {
      UnmovedOutside(t, scopes, from, to, d0);
      DifferentFromRoot(d0, from);
    }
  }

  // ---------------------------------------------------------------------------
  // The repaired tree
  // ---------------------------------------------------------------------------

  lemma RepairedFacts(t: Tree, scopes: seq<Name>, r: Repair, d: Name)
    requires Tidy(t) && d in t
    ensures d in RepairedTree(t, scopes, r)
    ensures OnlyMembersDiffer(t[d], RepairedTree(t, scopes, r)[d])
    ensures UnderAny(d, scopes) && IsGroup(t[d]) ==> RepairedTree(t, scopes, r)[d] == Fixed(t[d], r)
    ensures !(UnderAny(d, scopes) && IsGroup(t[d])) ==> RepairedTree(t, scopes, r)[d] == t[d]
  {
    hide Distinct, IsGroup, UnderAny, Canonical, ValuesOf, Fixed;
    FixedDiffers(t[d], r);
  }

  lemma FixedDiffers(e: Entry, r: Repair)
    requires Distinct(e.attrs)
    ensures OnlyMembersDiffer(e, Fixed(e, r))
  {
    match r
    case NoRepair =>
    case Drop(gone) => DropFacts(e, gone);
    case Redirect(from, to) => RedirectKeepsRest(e, from, to);
  }

  lemma OnlyMembersFacts(e: Entry, e': Entry)
    requires OnlyMembersDiffer(e, e')
    ensures MemberOfNames(e') == MemberOfNames(e) && (IsGroup(e') <==> IsGroup(e))
  {
    NamesDiffer();
    hide NamesIn, ValuesOf, EqualFold;
    assert Values(e', "memberOf") == Values(e, "memberOf") && Values(e', "objectClass") == Values(e, "objectClass");
    assert HasClass(e', "groupOfNames") <==> HasClass(e, "groupOfNames");
    assert HasClass(e', "groupOfUniqueNames") <==> HasClass(e, "groupOfUniqueNames");
  }

  lemma RepairKeepsTidy(t: Tree, scopes: seq<Name>, r: Repair)
    requires Tidy(t)
    ensures Tidy(RepairedTree(t, scopes, r)) && RepairedTree(t, scopes, r).Keys == t.Keys
  {
    hide Distinct, IsGroup, UnderAny, Canonical, ValuesOf, Fixed;
    forall d | d in t ensures RepairedTree(t, scopes, r)[d].dn == d && Distinct(RepairedTree(t, scopes, r)[d].attrs) {
      RepairedFacts(t, scopes, r, d);
    }
  }

  /** Dropping the references to x amounts to forgetting x. */
  lemma DropIsWithout(t: Tree, scopes: seq<Name>, x: Name)
    requires Tidy(t)
    ensures x !in t ==> WithoutEntry(t, RepairedTree(t, scopes, Drop(x)), x)
    ensures forall d :: d in t ==> MemberNames(RepairedTree(t, scopes, Drop(x))[d]) - {x} == MemberNames(t[d]) - {x}
  {
    hide Distinct, IsGroup, UnderAny, Canonical, ValuesOf, MemberNames, MemberOfNames, Fixed, OnlyMembersDiffer,
        RepairedTree;
    var z := RepairedTree(t, scopes, Drop(x));
    RepairKeepsTidy(t, scopes, Drop(x));
    forall d | d in t
      ensures MemberOfNames(z[d]) == MemberOfNames(t[d]) && (IsGroup(z[d]) <==> IsGroup(t[d]))
      ensures MemberNames(z[d]) - {x} == MemberNames(t[d]) - {x}
    {
      RepairedFacts(t, scopes, Drop(x), d);
      OnlyMembersFacts(t[d], z[d]);
      DropFacts(t[d], x);
    }
  }

  /** Every managed group can be redirected without losing a name. */
  ghost predicate SafeTree(t: Tree, scopes: seq<Name>, from: Name, to: Name) {
    forall d :: d in t && UnderAny(d, scopes) && IsGroup(t[d]) ==> SafeToRedirect(t[d], from, to)
  }

  /** Redirecting the member values turns the mapped graph into the plain one. */
  lemma RedirectedGraph(t: Tree, scopes: seq<Name>, from: Name, to: Name)
    requires Tidy(t) && SafeTree(t, scopes, from, to) && from != [] && to != []
    ensures GroupGraph(RepairedTree(t, scopes, Redirect(from, to)), scopes, Identity)
              == GroupGraph(t, scopes, Relocation(from, to))
    ensures forall d :: d in t ==> MemberOfNames(RepairedTree(t, scopes, Redirect(from, to))[d]) == MemberOfNames(t[d])
  {
    hide Distinct, IsGroup, UnderAny, Canonical, ValuesOf, MemberNames, MemberOfNames, Fixed, OnlyMembersDiffer, Image,
        SafeToRedirect, RepairedTree, GroupGraph;
    var z := RepairedTree(t, scopes, Redirect(from, to));
    RepairKeepsTidy(t, scopes, Redirect(from, to));
    forall d | d in t
      ensures MemberOfNames(z[d]) == MemberOfNames(t[d]) && (IsGroup(z[d]) <==> IsGroup(t[d]))
      ensures UnderAny(d, scopes) && IsGroup(t[d]) ==>
                MemberNames(z[d]) == Image(MemberNames(t[d]), Relocation(from, to))
    {
      RepairedFacts(t, scopes, Redirect(from, to), d);
      OnlyMembersFacts(t[d], z[d]);
      if UnderAny(d, scopes) && IsGroup(t[d]) {
        RedirectFacts(t[d], from, to);
      }
    }
    forall d ensures d in GroupGraph(z, scopes, Identity) <==> d in GroupGraph(t, scopes, Relocation(from, to)) {
      GraphAt(z, scopes, d);
      GraphMapped(t, scopes, Relocation(from, to), d);
    }
    forall d | d in GroupGraph(z, scopes, Identity)
      ensures GroupGraph(z, scopes, Identity)[d] == GroupGraph(t, scopes, Relocation(from, to))[d]
    {
      GraphAt(z, scopes, d);
      GraphMapped(t, scopes, Relocation(from, to), d);
    }
  }

  /** Reading already redirected values through the move changes nothing, because the names are apart. */
  lemma RedirectedIsSameThroughMove(t: Tree, scopes: seq<Name>, from: Name, to: Name)
    requires Tidy(t) && SafeTree(t, scopes, from, to) && from != [] && to != [] && Apart(from, to)
    ensures SameThroughMove(t, RepairedTree(t, scopes, Redirect(from, to)), Relocation(from, to))
  {
    hide Distinct, IsGroup, UnderAny, Canonical, ValuesOf, MemberNames, MemberOfNames, Fixed, OnlyMembersDiffer, Image,
        SafeToRedirect, RepairedTree, Apart;
    var z := RepairedTree(t, scopes, Redirect(from, to));
    RepairKeepsTidy(t, scopes, Redirect(from, to));
    forall d | d in t
      ensures MemberOfNames(z[d]) == MemberOfNames(t[d]) && (IsGroup(z[d]) <==> IsGroup(t[d]))
      ensures Image(MemberNames(z[d]), Relocation(from, to)) == Image(MemberNames(t[d]), Relocation(from, to))
    {
      RepairedFacts(t, scopes, Redirect(from, to), d);
      OnlyMembersFacts(t[d], z[d]);
      if UnderAny(d, scopes) && IsGroup(t[d]) {
        RedirectFacts(t[d], from, to);
        ImageTwice(MemberNames(t[d]), from, to);
      }
    }
  }

  lemma ImageTwice(ns: set<Name>, from: Name, to: Name)
    requires from != [] && to != [] && Apart(from, to)
    ensures Image(Image(ns, Relocation(from, to)), Relocation(from, to)) == Image(ns, Relocation(from, to))
  {
    hide Moved, Apart, Canonical;
    var mv := Relocation(from, to);
    forall n | n in ns ensures Apply(mv, Apply(mv, n)) == Apply(mv, n) {
      MovedIdempotent(n, from, to);
    }
    forall n ensures n in Image(Image(ns, mv), mv) <==> n in Image(ns, mv) {
      if n in Image(Image(ns, mv), mv) {
        var k :| k in Image(ns, mv) && Apply(mv, k) == n;
        var i :| i in ns && Apply(mv, i) == k;
        assert n == k;
      }
      if n in Image(ns, mv) {
        var i :| i in ns && Apply(mv, i) == n;
        assert Apply(mv, n) == n;
      }
    }
  }

  // ---------------------------------------------------------------------------
  // Both plugins, in either order
  // ---------------------------------------------------------------------------

  /** The plugins took the tree u of a write to z, with mid in between. */
  ghost predicate Ran(u: Tree, mid: Tree, z: Tree, seeds: set<Name>, scopes: seq<Name>, nested: bool,
      memberOfFirst: bool, ev: WriteEvent) {
    var mv, r := MappingOf(ev), RepairFor(ev, scopes);
    if memberOfFirst then
      Recomputed(u, mid, GroupGraph(u, scopes, mv), nested, seeds) && Touches(u, scopes, ev, nested, seeds)
      && Tidy(mid) && z == RepairedTree(mid, scopes, r)
    else
      mid == RepairedTree(u, scopes, r)
      && Recomputed(mid, z, GroupGraph(mid, scopes, mv), nested, seeds) && Touches(mid, scopes, ev, nested, seeds)
  }

  /** Without a repair to do, the order does not matter. */
  lemma RanWithoutRepair(u: Tree, mid: Tree, z: Tree, seeds: set<Name>, scopes: seq<Name>, nested: bool,
      memberOfFirst: bool, ev: WriteEvent)
    requires Ran(u, mid, z, seeds, scopes, nested, memberOfFirst, ev) && RepairFor(ev, scopes) == NoRepair
    ensures Recomputed(u, z, GroupGraph(u, scopes, MappingOf(ev)), nested, seeds)
    ensures Touches(u, scopes, ev, nested, seeds)
  {
    hide UnderAny, GroupGraph, Touches, Reaching, Canonical, MappingOf, RepairFor, Distinct, Recomputed, RepairedTree;
    NothingRepaired(u, scopes);
    NothingRepaired(mid, scopes);
  }

  lemma DeleteRan(t: Tree, u: Tree, mid: Tree, z: Tree, x: Name, ev: WriteEvent, seeds: set<Name>, scopes: seq<Name>,
      nested: bool, memberOfFirst: bool)
    requires Converged(t, scopes, nested) && Tidy(t) && x in t && UnderAny(x, scopes) && u == t - {x}
    requires ev == WriteEvent(WriteDelete, Some(t[x]), None)
    requires Ran(u, mid, z, seeds, scopes, nested, memberOfFirst, ev)
    ensures Converged(z, scopes, nested) <==> forall n :: !Overlooked(t, u, scopes, ev, nested, n)
  {
    hide UnderAny, GroupGraph, Touches, Reaching, Canonical, Distinct, Recomputed, RepairedTree, MemberNames,
        MemberOfNames, IsGroup, WithoutEntry, Converged, Overlooked;
    assert t[x].dn == x && RepairFor(ev, scopes) == Drop(x) && MappingOf(ev) == Identity;
    TidyWithout(t, x);
    if memberOfFirst {
      WithoutItself(t, u, x);
      DeleteConvergesExactly(t, u, mid, x, ev, seeds, scopes, nested);
      RecomputedKeys(u, mid, GroupGraph(u, scopes, Identity), nested, seeds);
      DropIsWithout(mid, scopes, x);
      ForgettingConverges(mid, z, x, scopes, nested);
    } else {
      DropIsWithout(u, scopes, x);
      WithoutThrough(t, u, mid, x);
      DeleteConvergesExactly(t, mid, z, x, ev, seeds, scopes, nested);
      forall n ensures Overlooked(t, mid, scopes, ev, nested, n) <==> Overlooked(t, u, scopes, ev, nested, n) {
        OverlookedThroughDrop(t, u, x, ev, scopes, nested, n);
      }
    }
  }

  /** Whether references to the deleted entry are dropped already makes no difference to what is overlooked. */
  lemma OverlookedThroughDrop(t: Tree, u: Tree, x: Name, ev: WriteEvent, scopes: seq<Name>, nested: bool, n: Name)
    requires Tidy(t) && x in t && u == t - {x} && ev == WriteEvent(WriteDelete, Some(t[x]), None)
    ensures Overlooked(t, RepairedTree(u, scopes, Drop(x)), scopes, ev, nested, n) <==>
              Overlooked(t, u, scopes, ev, nested, n)
  {
    hide UnderAny, GroupGraph, Canonical, Distinct, RepairedTree, Pulled, Seeded, Reaches, FollowedGraph;
    var w := RepairedTree(u, scopes, Drop(x));
    var g, h, h' := GroupGraph(t, scopes, Identity), GroupGraph(u, scopes, Identity), GroupGraph(w, scopes, Identity);
    TidyWithout(t, x);
    RepairKeepsTidy(u, scopes, Drop(x));
    assert MappingOf(ev) == Identity;
    forall d | d in u ensures Pulled(w, scopes, ev, nested, d) <==> Pulled(u, scopes, ev, nested, d) {
      PulledThroughDrop(t, u, x, ev, scopes, nested, d);
    }
    forall c | n != x ensures EitherNames(g, h', c, n) <==> EitherNames(g, h, c, n) {
      DroppedGraph(u, x, scopes, c, n);
    }
    forall c | EitherNames(g, h, c, n) && c != x ensures c in u {
      GroupIsManaged(t, scopes, Identity, c);
      GroupIsManaged(u, scopes, Identity, c);
    }
    assert Written(ev, x);
    forall c | n != x && n in u && EitherNames(g, h, c, n)
      ensures Written(ev, c) || (nested && Pulled(u, scopes, ev, nested, c)) <==>
                Written(ev, c) || (nested && Pulled(w, scopes, ev, nested, c))
    {
    }
  }

  lemma DroppedGraph(u: Tree, x: Name, scopes: seq<Name>, c: Name, n: Name)
    requires Tidy(u) && n != x
    ensures var h := GroupGraph(u, scopes, Identity);
            var h' := GroupGraph(RepairedTree(u, scopes, Drop(x)), scopes, Identity);
            (c in h <==> c in h') && (c in h ==> (n in h[c] <==> n in h'[c]))
  {
    hide UnderAny, GroupGraph, Canonical, Distinct, RepairedTree, IsGroup, MemberNames, OnlyMembersDiffer,
        MemberOfNames;
    var w := RepairedTree(u, scopes, Drop(x));
    GraphAt(u, scopes, c);
    GraphAt(w, scopes, c);
    RepairKeepsTidy(u, scopes, Drop(x));
    if c in u {
      RepairedFacts(u, scopes, Drop(x), c);
      OnlyMembersFacts(u[c], w[c]);
      DropIsWithout(u, scopes, x);
      assert n in MemberNames(w[c]) - {x} <==> n in MemberNames(u[c]) - {x};
    }
  }

  lemma PulledThroughDrop(t: Tree, u: Tree, x: Name, ev: WriteEvent, scopes: seq<Name>, nested: bool, d: Name)
    requires Tidy(t) && x in t && u == t - {x} && ev == WriteEvent(WriteDelete, Some(t[x]), None) && d in u
    ensures Pulled(RepairedTree(u, scopes, Drop(x)), scopes, ev, nested, d) <==> Pulled(u, scopes, ev, nested, d)
  {
    hide UnderAny, Canonical, Distinct, RepairedTree, Pulled, Reaches, FollowedGraph, SeedsOf;
    var w := RepairedTree(u, scopes, Drop(x));
    TidyWithout(t, x);
    RepairKeepsTidy(u, scopes, Drop(x));
    var f, f' := FollowedGraph(u, scopes, Identity), FollowedGraph(w, scopes, Identity);
    assert MappingOf(ev) == Identity;
    forall m ensures Seeded(u, scopes, ev, m) <==> Seeded(w, scopes, ev, m) {
    }
    forall c ensures c in f <==> c in f' {
      DroppedFollows(u, x, scopes, c, x);
    }
    forall c, m | c in f && m != x ensures m in f[c] <==> m in f'[c] {
      DroppedFollows(u, x, scopes, c, m);
    }
    forall c | c in f ensures c in u { GroupIsManaged(u, scopes, Identity, c); }
    assert f.Keys == f'.Keys;
    if Pulled(u, scopes, ev, nested, d) { PulledAcross(u, w, scopes, ev, nested, d); }
    if Pulled(w, scopes, ev, nested, d) { PulledAcross(w, u, scopes, ev, nested, d); }
  }

  lemma DroppedFollows(u: Tree, x: Name, scopes: seq<Name>, c: Name, m: Name)
    requires Tidy(u)
    ensures var f, f' := FollowedGraph(u, scopes, Identity),
        FollowedGraph(RepairedTree(u, scopes, Drop(x)), scopes, Identity);
      (c in f <==> c in f') && (c in f && m != x ==> (m in f[c] <==> m in f'[c]))
  {
    hide UnderAny, GroupGraph, Canonical, Distinct, RepairedTree, IsGroup, MemberNames, OnlyMembersDiffer,
        MemberOfNames, RefTo, InScope;
    RepairKeepsTidy(u, scopes, Drop(x));
    if c in u {
      var w := RepairedTree(u, scopes, Drop(x));
      RepairedFacts(u, scopes, Drop(x), c);
      OnlyMembersFacts(u[c], w[c]);
      if m != x && UnderAny(c, scopes) && IsGroup(u[c]) {
        RefToKept(u[c], x, m);
        SameScoped(u[c], w[c], scopes, Identity, m);
      }
    }
  }

  /** Entries that refer to m alike have it in scope alike. */
  lemma SameScoped(e: Entry, e': Entry, scopes: seq<Name>, mv: Mapping, m: Name)
    requires RefTo(e', m) == RefTo(e, m) && forall n :: Apply(mv, n) == m ==> n == m
    ensures m in ScopedMembers(e', scopes, mv) <==> m in ScopedMembers(e, scopes, mv)
  {
    hide RefTo, MemberNames, InScope, Canonical, Apply, Respelled, Spells;
    RefToFacts(e, m);
    RefToFacts(e', m);
  }

  /**
   * Two trees in which the seeds agree on the entries, and so do the followed memberships of
   * entries that are not seeds anyway, pull in the same entries.
   */
  lemma PulledAcross(u: Tree, w: Tree, scopes: seq<Name>, ev: WriteEvent, nested: bool, m: Name)
    requires u.Keys == w.Keys && m in u && Pulled(u, scopes, ev, nested, m)
    requires forall d :: d in u ==> (Seeded(u, scopes, ev, d) <==> Seeded(w, scopes, ev, d))
    requires var f, f' := FollowedGraph(u, scopes, MappingOf(ev)), FollowedGraph(w, scopes, MappingOf(ev));
      && f.Keys == f'.Keys && f.Keys <= u.Keys
      && forall c, d :: c in f && d in u && d in f[c] && !Seeded(u, scopes, ev, d) ==> d in f'[c]
    ensures Pulled(w, scopes, ev, nested, m)
  {
    hide FollowedGraph, Seeded, MappingOf, Canonical;
    var f, f' := FollowedGraph(u, scopes, MappingOf(ev)), FollowedGraph(w, scopes, MappingOf(ev));
    if !Seeded(u, scopes, ev, m) {
      var s :| Seeded(u, scopes, ev, s) && Reaches(f, s, m);
      var p :| IsWalk(f, p, s, m);
      forall i | 0 <= i < |p| ensures p[i] in u {
        if i < |p| - 1 { assert p[i] in f; }
      }
      var j := |p| - 1;
      while !Seeded(u, scopes, ev, p[j])
        invariant 0 <= j <= |p| - 1
        invariant forall i :: j < i < |p| ==> !Seeded(u, scopes, ev, p[i])
        decreases j
      {
        j := j - 1;
      }
      var q := p[j..];
      forall i | 0 <= i < |q| - 1 ensures q[i] in f' && q[i + 1] in f'[q[i]] {
        assert q[i] == p[j + i] && q[i + 1] == p[j + i + 1] && p[j + i + 1] in f[p[j + i]];
      }
      assert IsWalk(f', q, p[j], m);
      assert Seeded(w, scopes, ev, p[j]) && Reaches(f', p[j], m);
    }
  }

  lemma TidyWithout(t: Tree, x: Name)
    requires Tidy(t)
    ensures Tidy(t - {x}) && x !in t - {x}
  {
    hide Distinct;
  }

  lemma WithoutItself(t: Tree, u: Tree, x: Name)
    requires u == t - {x}
    ensures WithoutEntry(t, u, x)
  {
    hide IsGroup, MemberNames, MemberOfNames;
  }

  lemma WithoutThrough(t: Tree, u: Tree, w: Tree, x: Name)
    requires u == t - {x} && WithoutEntry(u, w, x)
    ensures WithoutEntry(t, w, x)
  {
    hide IsGroup, MemberNames, MemberOfNames;
  }

  /** Neither name of a legal move lies at or below the other. */
  lemma MoveIsApart(t: Tree, scopes: seq<Name>, from: Name, to: Name)
    requires WellShaped(t, scopes) && Siblings(scopes) && from in t && to !in t
    requires to != [] && UnderAny(to, scopes) && !Under(to, from)
    ensures Apart(from, to)
  {
    if AtOrUnder(from, to) {
      NothingBelowFreeName(t, scopes, from, to);
    }
  }

  /** A move whose redirected values survive: exact if and only if what is overlooked keeps its groups. */
  lemma MoveRan(t: Tree, u: Tree, mid: Tree, z: Tree, from: Name, to: Name, ev: WriteEvent, seeds: set<Name>,
      scopes: seq<Name>, nested: bool, memberOfFirst: bool)
    requires Converged(t, scopes, nested) && WellShaped(t, scopes) && Siblings(scopes) && MovedTree(t, u, from, to)
    requires Tidy(u)
    requires from != [] && to != [] && from in t && to !in t && UnderAny(to, scopes) && UnderAny(from, scopes)
    requires !Under(to, from)
    requires ev == WriteEvent(WriteRename, Some(t[from]), Some(u[to])) && t[from].dn == from && u[to].dn == to
    requires SafeTree(u, scopes, from, to)
    requires Ran(u, mid, z, seeds, scopes, nested, memberOfFirst, ev)
    ensures Converged(z, scopes, nested) <==> OverlookedKeep(t, u, scopes, ev, nested)
  {
    hide UnderAny, GroupGraph, Reaching, Canonical, Distinct, Recomputed, RepairedTree, MemberNames, Touches,
        MemberOfNames, IsGroup, WellShaped, Siblings, MovedTree, Under, Tidy, SafeTree, Apart, SameThroughMove,
        OverlookedKeep, PullsIn;
    var mv := Relocation(from, to);
    assert from != to && RepairFor(ev, scopes) == Redirect(from, to) && MappingOf(ev) == mv;
    MoveIsApart(t, scopes, from, to);
    MovedRoot(t, u, from, to);
    RedirectedGraph(u, scopes, from, to);
    if memberOfFirst {
      SameAsItself(u, mv);
      TouchedPullsIn(u, scopes, ev, nested, seeds);
      MoveConvergesExactly(t, u, u, mid, from, to, ev, seeds, scopes, nested);
      RecomputedSafe(u, mid, GroupGraph(u, scopes, mv), nested, seeds, scopes, from, to);
      RecomputedKeepsGraph(u, mid, GroupGraph(u, scopes, mv), nested, seeds, scopes, mv);
      RedirectedGraph(mid, scopes, from, to);
      RepairKeepsTidy(mid, scopes, Redirect(from, to));
    } else {
      RedirectedIsSameThroughMove(u, scopes, from, to);
      RedirectedPullsIn(u, scopes, from, to, ev, nested, seeds);
      MoveConvergesExactly(t, u, mid, z, from, to, ev, seeds, scopes, nested);
      RecomputedKeepsGraph(mid, z, GroupGraph(mid, scopes, mv), nested, seeds, scopes, Identity);
    }
  }

  lemma MovedRoot(t: Tree, u: Tree, from: Name, to: Name)
    requires MovedTree(t, u, from, to)
    ensures from in t && to in u
  {
  }

  lemma TouchedPullsIn(u: Tree, scopes: seq<Name>, ev: WriteEvent, nested: bool, seeds: set<Name>)
    requires Touches(u, scopes, ev, nested, seeds)
    ensures PullsIn(u, scopes, ev, nested, seeds)
  {
    hide UnderAny, Pulled;
  }

  /** Whether the values are redirected already makes no difference to which entries a safe move pulls in. */
  lemma RedirectedPullsIn(u: Tree, scopes: seq<Name>, from: Name, to: Name, ev: WriteEvent, nested: bool,
      seeds: set<Name>)
    requires Tidy(u) && SafeTree(u, scopes, from, to) && from != [] && to in u && to != [] && Apart(from, to)
    requires ev.op == WriteRename && MappingOf(ev) == Relocation(from, to)
    requires Touches(RepairedTree(u, scopes, Redirect(from, to)), scopes, ev, nested, seeds)
    ensures PullsIn(u, scopes, ev, nested, seeds)
  {
    hide UnderAny, Pulled, RepairedTree, Tidy, SafeTree, MappingOf;
    forall d | d in u && UnderAny(d, scopes) ensures d in seeds <==> Pulled(u, scopes, ev, nested, d) {
      PulledThroughRedirect(u, scopes, from, to, ev, nested, d);
    }
  }

  lemma PulledThroughRedirect(u: Tree, scopes: seq<Name>, from: Name, to: Name, ev: WriteEvent, nested: bool, d: Name)
    requires Tidy(u) && SafeTree(u, scopes, from, to) && from != [] && to in u && to != [] && Apart(from, to)
    requires ev.op == WriteRename && MappingOf(ev) == Relocation(from, to) && d in u && UnderAny(d, scopes)
    ensures Pulled(RepairedTree(u, scopes, Redirect(from, to)), scopes, ev, nested, d) <==>
              Pulled(u, scopes, ev, nested, d)
  {
    hide UnderAny, Canonical, Distinct, RepairedTree, Pulled, Reaches, FollowedGraph, Seeded, SafeTree, MappingOf,
        AtOrUnder, Apart;
    var w := RepairedTree(u, scopes, Redirect(from, to));
    RepairKeepsTidy(u, scopes, Redirect(from, to));
    var mv := Relocation(from, to);
    var f, f' := FollowedGraph(u, scopes, mv), FollowedGraph(w, scopes, mv);
    forall m | m in u ensures Seeded(u, scopes, ev, m) <==> Seeded(w, scopes, ev, m) {
      SeededThroughRedirect(u, scopes, from, to, ev, m);
    }
    forall c ensures c in f <==> c in f' {
      RedirectedGroup(u, scopes, from, to, c);
    }
    forall c, m | c in f && m in u && (m in f[c] || m in f'[c]) && !Seeded(u, scopes, ev, m)
      ensures m in f[c] && m in f'[c]
    {
      MemberIsManaged(u, w, scopes, mv, c, m);
      if AtOrUnder(m, to) { MovedIsPulled(u, scopes, ev, nested, m); }
      RedirectedFollows(u, scopes, from, to, c, m);
    }
    forall c | c in f ensures c in u { GroupIsManaged(u, scopes, mv, c); }
    if Pulled(u, scopes, ev, nested, d) { PulledAcross(u, w, scopes, ev, nested, d); }
    if Pulled(w, scopes, ev, nested, d) { PulledAcross(w, u, scopes, ev, nested, d); }
  }

  lemma MemberIsManaged(u: Tree, w: Tree, scopes: seq<Name>, mv: Mapping, c: Name, m: Name)
    requires var f, f' := FollowedGraph(u, scopes, mv), FollowedGraph(w, scopes, mv);
      c in f && c in f' && (m in f[c] || m in f'[c])
    ensures UnderAny(m, scopes)
  {
    hide UnderAny, Canonical, FollowedGraph, GroupGraph;
    if m in FollowedGraph(u, scopes, mv)[c] {
      FollowedIsNamed(u, scopes, mv, c, m);
    } else {
      FollowedIsNamed(w, scopes, mv, c, m);
    }
  }

  lemma RedirectedGroup(u: Tree, scopes: seq<Name>, from: Name, to: Name, c: Name)
    requires Tidy(u)
    ensures var w := RepairedTree(u, scopes, Redirect(from, to)); var mv := Relocation(from, to);
      c in FollowedGraph(u, scopes, mv) <==> c in FollowedGraph(w, scopes, mv)
  {
    hide UnderAny, Canonical, Distinct, RepairedTree, IsGroup, OnlyMembersDiffer, MemberOfNames, SeedsOf;
    var w := RepairedTree(u, scopes, Redirect(from, to));
    RepairKeepsTidy(u, scopes, Redirect(from, to));
    if c in u {
      RepairedFacts(u, scopes, Redirect(from, to), c);
      OnlyMembersFacts(u[c], w[c]);
    }
  }

  /** Names that are not at the new place are seeded by a group before and after its values are redirected. */
  lemma RedirectedSeeds(u: Tree, scopes: seq<Name>, from: Name, to: Name, c: Name, m: Name)
    requires Tidy(u) && SafeTree(u, scopes, from, to) && from != [] && to != [] && Apart(from, to) && c in u
    requires !AtOrUnder(m, to) && UnderAny(c, scopes)
    ensures var w := RepairedTree(u, scopes, Redirect(from, to)); var mv := Relocation(from, to);
      c in w && (m in SeedsOf(Some(u[c]), scopes, mv) <==> m in SeedsOf(Some(w[c]), scopes, mv))
  {
    hide UnderAny, Canonical, Distinct, RepairedTree, IsGroup, OnlyMembersDiffer, MemberOfNames, AtOrUnder, Moved,
        SafeToRedirect, ScopedMembers, Fixed;
    var w := RepairedTree(u, scopes, Redirect(from, to));
    RepairedFacts(u, scopes, Redirect(from, to), c);
    OnlyMembersFacts(u[c], w[c]);
    if IsGroup(u[c]) {
      if AtOrUnder(m, from) {
        NotScopedThere(u[c], scopes, from, to, m);
        NotScopedThere(w[c], scopes, from, to, m);
      } else {
        RefToStays(u[c], from, to, m);
        OnlyItself(from, to, m);
        SameScoped(u[c], w[c], scopes, Relocation(from, to), m);
      }
    }
  }

  /** Read through the move, nothing is at the old place. */
  lemma NotScopedThere(e: Entry, scopes: seq<Name>, from: Name, to: Name, m: Name)
    requires from != [] && to != [] && Apart(from, to) && AtOrUnder(m, from)
    ensures m !in ScopedMembers(e, scopes, Relocation(from, to))
  {
    hide AtOrUnder, Canonical, Apart, InScope, RefTo, MemberNames, Moved;
    forall n ensures Apply(Relocation(from, to), n) != m {
      if AtOrUnder(n, from) {
        RebaseUnder(n, from, to);
        ApartDescendants(Moved(n, from, to), from, to);
      } else {
        StaysPut(n, from, to);
      }
    }
  }

  lemma StaysPut(n: Name, from: Name, to: Name)
    requires !AtOrUnder(n, from)
    ensures Moved(n, from, to) == n
  {
  }

  lemma OnlyItself(from: Name, to: Name, m: Name)
    requires from != [] && to != [] && !AtOrUnder(m, to)
    ensures forall n :: Apply(Relocation(from, to), n) == m ==> n == m
  {
    hide AtOrUnder, Canonical, Moved;
    forall n | Apply(Relocation(from, to), n) == m ensures n == m {
      if AtOrUnder(n, from) {
        RebaseUnder(n, from, to);
      } else {
        StaysPut(n, from, to);
      }
    }
  }

  lemma RedirectedFollows(u: Tree, scopes: seq<Name>, from: Name, to: Name, c: Name, m: Name)
    requires Tidy(u) && SafeTree(u, scopes, from, to) && from != [] && to != [] && Apart(from, to)
    requires c in FollowedGraph(u, scopes, Relocation(from, to)) && !AtOrUnder(m, to)
    ensures var w := RepairedTree(u, scopes, Redirect(from, to)); var mv := Relocation(from, to);
      && c in FollowedGraph(w, scopes, mv)
      && (m in FollowedGraph(u, scopes, mv)[c] <==> m in FollowedGraph(w, scopes, mv)[c])
  {
    hide UnderAny, Canonical, Distinct, RepairedTree, IsGroup, SeedsOf, AtOrUnder, SafeTree, Apart, Tidy;
    RedirectedGroup(u, scopes, from, to, c);
    RedirectedSeeds(u, scopes, from, to, c, m);
  }

  lemma SeededThroughRedirect(u: Tree, scopes: seq<Name>, from: Name, to: Name, ev: WriteEvent, m: Name)
    requires Tidy(u) && SafeTree(u, scopes, from, to) && from != [] && to in u && to != [] && Apart(from, to)
    requires ev.op == WriteRename && MappingOf(ev) == Relocation(from, to) && m in u
    ensures Seeded(RepairedTree(u, scopes, Redirect(from, to)), scopes, ev, m) <==> Seeded(u, scopes, ev, m)
  {
    hide UnderAny, Canonical, Distinct, RepairedTree, SeedsOf, AtOrUnder, SafeTree, Apart, Tidy, MappingOf;
    var w := RepairedTree(u, scopes, Redirect(from, to));
    var mv := Relocation(from, to);
    RepairKeepsTidy(u, scopes, Redirect(from, to));
    if AtOrUnder(m, to) && UnderAny(m, scopes) {
      MovedIsPulled(u, scopes, ev, false, m);
      MovedIsPulled(w, scopes, ev, false, m);
    } else if AtOrUnder(m, to) {
      if Seeded(u, scopes, ev, m) { SeededIsManaged(u, scopes, ev, m); }
      if Seeded(w, scopes, ev, m) { SeededIsManaged(w, scopes, ev, m); }
    } else {
      forall d | d in u && AtOrUnder(d, to)
        ensures m in SeedsOf(Some(w[d]), scopes, mv) <==> m in SeedsOf(Some(u[d]), scopes, mv)
      {
        RedirectedSeedsAnywhere(u, scopes, from, to, d, m);
      }
    }
  }

  lemma RedirectedSeedsAnywhere(u: Tree, scopes: seq<Name>, from: Name, to: Name, c: Name, m: Name)
    requires Tidy(u) && SafeTree(u, scopes, from, to) && from != [] && to != [] && Apart(from, to) && c in u
    requires !AtOrUnder(m, to)
    ensures var w := RepairedTree(u, scopes, Redirect(from, to)); var mv := Relocation(from, to);
      c in w && (m in SeedsOf(Some(u[c]), scopes, mv) <==> m in SeedsOf(Some(w[c]), scopes, mv))
  {
    hide UnderAny, Canonical, Distinct, IsGroup, SeedsOf, AtOrUnder, SafeTree, Apart, Tidy, Fixed;
    if UnderAny(c, scopes) {
      RedirectedSeeds(u, scopes, from, to, c, m);
    }
  }

  lemma SameAsItself(u: Tree, mv: Mapping)
    ensures SameThroughMove(u, u, mv)
  {
    hide IsGroup, MemberNames, MemberOfNames, Image;
  }

  lemma RecomputedSafe(t: Tree, t': Tree, g: Graph<Name>, nested: bool, touched: set<Name>, scopes: seq<Name>,
      from: Name, to: Name)
    requires Recomputed(t, t', g, nested, touched) && SafeTree(t, scopes, from, to)
    ensures SafeTree(t', scopes, from, to)
  {
    hide UnderAny, Reaching, Canonical, IsGroup, HasClass, MemberOfNames, MemberNames, HashSafe, NameOf, SameBut,
        Values;
    forall d | d in t' && UnderAny(d, scopes) && IsGroup(t'[d]) ensures SafeToRedirect(t'[d], from, to) {
      SameMembers(t[d], t'[d]);
      assert SafeToRedirect(t[d], from, to);
    }
  }

  // ---------------------------------------------------------------------------
  // The order of the plugins
  // ---------------------------------------------------------------------------

  /** The member values of an entry after redirecting it when it is a managed group. */
  lemma RedirectedValues(t: Tree, scopes: seq<Name>, from: Name, to: Name, d: Name)
    requires Tidy(t) && d in t
    ensures var e := RepairedTree(t, scopes, Redirect(from, to))[d];
      var f := Follow(from, to);
      var redirected := UnderAny(d, scopes) && IsGroup(t[d]);
      && Values(e, "member")
          == (if redirected then MapValues(Values(t[d], "member"), f, false) else Values(t[d], "member"))
      && Values(e, "uniqueMember") ==
           (if redirected then MapValues(Values(t[d], "uniqueMember"), f, true) else Values(t[d], "uniqueMember"))
      && IsGroup(e) == IsGroup(t[d]) && MemberOfNames(e) == MemberOfNames(t[d])
  {
    hide Distinct, IsGroup, UnderAny, Canonical, ValuesOf, OnlyMembersDiffer, RepairedTree, Follow, MapMembers,
        MapValues, MemberOfNames;
    RepairedFacts(t, scopes, Redirect(from, to), d);
    OnlyMembersFacts(t[d], RepairedTree(t, scopes, Redirect(from, to))[d]);
    MapMembersValues(t[d].attrs, Follow(from, to), "member");
    MapMembersValues(t[d].attrs, Follow(from, to), "uniqueMember");
  }

  /** Either order leaves an entry with the same member values. */
  lemma SameMemberValues(u: Tree, mid1: Tree, z1: Tree, seeds1: set<Name>, mid2: Tree, z2: Tree, seeds2: set<Name>,
                         from: Name, to: Name, ev: WriteEvent, scopes: seq<Name>, nested: bool, d: Name)
    requires Tidy(u) && MappingOf(ev) == Relocation(from, to) && RepairFor(ev, scopes) == Redirect(from, to) && d in u
    requires Ran(u, mid1, z1, seeds1, scopes, nested, true, ev) && Ran(u, mid2, z2, seeds2, scopes, nested, false, ev)
    ensures d in z1 && d in z2 && IsGroup(z1[d]) == IsGroup(z2[d]) == IsGroup(u[d])
    ensures Values(z1[d], "member") == Values(z2[d], "member")
    ensures Values(z1[d], "uniqueMember") == Values(z2[d], "uniqueMember")
    ensures MemberOfNames(z1[d]) == MemberOfNames(mid1[d])
  {
    hide UnderAny, GroupGraph, Touches, Reaching, Canonical, RepairedTree, IsGroup, SameBut, HasClass, Tidy, Values,
        MapValues, Follow, MemberOfNames;
    RepairKeepsTidy(u, scopes, Redirect(from, to));
    RepairKeepsTidy(mid1, scopes, Redirect(from, to));
    SameMembers(u[d], mid1[d]);
    SameMembers(mid2[d], z2[d]);
    RedirectedValues(u, scopes, from, to, d);
    RedirectedValues(mid1, scopes, from, to, d);
  }

  /**
   * On any rename or subtree move, converged or not, memberof before referint and
   * referint before memberof end with the same member values. They also end with the
   * same memberOf sets when the redirected uniqueMember values survive.
   */
  lemma MoveOrderIndependent(u: Tree, mid1: Tree, z1: Tree, seeds1: set<Name>, mid2: Tree, z2: Tree, seeds2: set<Name>,
                             from: Name, to: Name, ev: WriteEvent, scopes: seq<Name>, nested: bool)
    requires Tidy(u) && from != [] && to in u && to != [] && Apart(from, to) && UnderAny(from, scopes)
    requires UnderAny(to, scopes)
    requires ev.op == WriteRename && ev.before.Some? && ev.before.value.dn == from && ev.after == Some(u[to])
    requires Ran(u, mid1, z1, seeds1, scopes, nested, true, ev) && Ran(u, mid2, z2, seeds2, scopes, nested, false, ev)
    ensures z1.Keys == u.Keys && z2.Keys == u.Keys
    ensures forall d :: d in u ==>
              && Values(z1[d], "member") == Values(z2[d], "member")
                  && Values(z1[d], "uniqueMember") == Values(z2[d], "uniqueMember")
              && MemberNames(z1[d]) == MemberNames(z2[d]) && IsGroup(z1[d]) == IsGroup(z2[d])
    ensures SafeTree(u, scopes, from, to) ==> forall d :: d in u ==>
              && MemberOfNames(z1[d]) == MemberOfNames(z2[d])
              && (UnderAny(d, scopes) && IsGroup(u[d]) ==>
                  MemberNames(z1[d]) == Image(MemberNames(u[d]), Relocation(from, to)))
  {
    hide UnderAny, GroupGraph, Touches, Reaching, Canonical, RepairedTree, MemberNames, MemberOfNames, IsGroup, Apart,
        Image, SafeTree, MappingOf, RepairFor, HasClass, SameBut, Tidy, ValuesOf;
    MoveEvent(u, from, to, ev, scopes);
    RepairKeepsTidy(u, scopes, Redirect(from, to));
    RepairKeepsTidy(mid1, scopes, Redirect(from, to));
    forall d | d in u
      ensures Values(z1[d], "member") == Values(z2[d], "member")
      ensures Values(z1[d], "uniqueMember") == Values(z2[d], "uniqueMember")
      ensures MemberNames(z1[d]) == MemberNames(z2[d]) && IsGroup(z1[d]) == IsGroup(z2[d])
    {
      SameMemberValues(u, mid1, z1, seeds1, mid2, z2, seeds2, from, to, ev, scopes, nested, d);
      SameValuesSameNames(z1[d], z2[d]);
    }
    if SafeTree(u, scopes, from, to) {
      SafeOrderIndependent(u, mid1, z1, seeds1, mid2, z2, seeds2, from, to, ev, scopes, nested);
    }
  }

  lemma SameValuesSameNames(e: Entry, e': Entry)
    requires Values(e, "member") == Values(e', "member") && Values(e, "uniqueMember") == Values(e', "uniqueMember")
    ensures MemberNames(e) == MemberNames(e')
  {
  }

  lemma SafeOrderIndependent(u: Tree, mid1: Tree, z1: Tree, seeds1: set<Name>, mid2: Tree, z2: Tree, seeds2: set<Name>,
                             from: Name, to: Name, ev: WriteEvent, scopes: seq<Name>, nested: bool)
    requires Tidy(u) && from != [] && to in u && to != [] && Apart(from, to) && ev.op == WriteRename
    requires MappingOf(ev) == Relocation(from, to) && RepairFor(ev, scopes) == Redirect(from, to)
    requires SafeTree(u, scopes, from, to)
    requires Ran(u, mid1, z1, seeds1, scopes, nested, true, ev) && Ran(u, mid2, z2, seeds2, scopes, nested, false, ev)
    ensures forall d :: d in u ==>
              && d in z1 && d in z2 && MemberOfNames(z1[d]) == MemberOfNames(z2[d])
              && (UnderAny(d, scopes) && IsGroup(u[d]) ==>
                  MemberNames(z1[d]) == Image(MemberNames(u[d]), Relocation(from, to)))
  {
    hide UnderAny, GroupGraph, Touches, Reaching, Canonical, RepairedTree, MemberNames, MemberOfNames, IsGroup, Apart,
        SameThroughMove, Image, SafeTree, MappingOf, RepairFor, HasClass, SameBut, Tidy, PullsIn;
    var mv := Relocation(from, to);
    RedirectedIsSameThroughMove(u, scopes, from, to);
    SameGraphThroughMove(u, mid2, scopes, mv);
    RedirectedPullsIn(u, scopes, from, to, ev, nested, seeds2);
    RecomputedSafe(u, mid1, GroupGraph(u, scopes, mv), nested, seeds1, scopes, from, to);
    RepairKeepsTidy(u, scopes, Redirect(from, to));
    RepairKeepsTidy(mid1, scopes, Redirect(from, to));
    forall d | d in u
      ensures UnderAny(d, scopes) && IsGroup(u[d]) ==> MemberNames(z1[d]) == Image(MemberNames(u[d]), mv)
      ensures MemberOfNames(z1[d]) == MemberOfNames(z2[d])
    {
      EndOfMemberOfFirst(u, mid1, z1, scopes, from, to, d);
      RedirectedValues(u, scopes, from, to, d);
      SamePulled(u, mid2, scopes, ev, nested, seeds1, seeds2, d);
    }
  }

  lemma SamePulled(u: Tree, w: Tree, scopes: seq<Name>, ev: WriteEvent, nested: bool, a: set<Name>, b: set<Name>,
      d: Name)
    requires Touches(u, scopes, ev, nested, a) && Touches(w, scopes, ev, nested, b) && PullsIn(u, scopes, ev, nested, b)
    requires d in u
    ensures d in a <==> d in b
  {
    hide Pulled, UnderAny;
    if d in a { PulledIsManaged(u, scopes, ev, nested, d); }
    if d in b { PulledIsManaged(w, scopes, ev, nested, d); }
  }

  lemma MoveEvent(u: Tree, from: Name, to: Name, ev: WriteEvent, scopes: seq<Name>)
    requires Tidy(u) && to in u && Apart(from, to)
    requires ev.op == WriteRename && ev.before.Some? && ev.before.value.dn == from && ev.after == Some(u[to])
    requires UnderAny(from, scopes) && UnderAny(to, scopes)
    ensures MappingOf(ev) == Relocation(from, to) && RepairFor(ev, scopes) == Redirect(from, to)
  {
    hide Distinct, UnderAny;
  }

  lemma EndOfMemberOfFirst(u: Tree, mid: Tree, z: Tree, scopes: seq<Name>, from: Name, to: Name, d: Name)
    requires d in u && Tidy(mid) && mid.Keys == u.Keys && SameBut(u[d], mid[d])
    requires z == RepairedTree(mid, scopes, Redirect(from, to))
    requires SafeTree(mid, scopes, from, to) && from != [] && to != []
    ensures d in z && MemberOfNames(z[d]) == MemberOfNames(mid[d]) && IsGroup(z[d]) == IsGroup(u[d])
    ensures UnderAny(d, scopes) && IsGroup(u[d]) ==> MemberNames(z[d]) == Image(MemberNames(u[d]), Relocation(from, to))
  {
    hide UnderAny, Image, Canonical, Distinct, RepairedTree, IsGroup, SafeToRedirect, Fixed, MemberOfNames,
        OnlyMembersDiffer, NamesIn, ValuesOf;
    RepairedFacts(mid, scopes, Redirect(from, to), d);
    OnlyMembersFacts(mid[d], z[d]);
    assert MemberNames(mid[d]) == MemberNames(u[d]);
    if UnderAny(d, scopes) && IsGroup(u[d]) {
      RedirectFacts(mid[d], from, to);
    }
  }

  /** On an exact tree a fixup changes no memberOf set. */
  lemma FixupChangesNothing(t: Tree, t': Tree, scopes: seq<Name>, nested: bool)
    requires Converged(t, scopes, nested)
    requires Recomputed(t, t', GroupGraph(t, scopes, Identity), nested, set d | d in t && UnderAny(d, scopes))
    ensures t'.Keys == t.Keys && forall d :: d in t ==> MemberOfNames(t'[d]) == MemberOfNames(t[d])
  {
    hide UnderAny, GroupGraph, Reaching, Canonical, MemberOfNames, SameBut, HasClass;
  }

  /** On any tree a fixup makes the memberOf sets exact. */
  lemma FixupConverges(t: Tree, t': Tree, scopes: seq<Name>, nested: bool)
    requires Recomputed(t, t', GroupGraph(t, scopes, Identity), nested, set d | d in t && UnderAny(d, scopes))
    ensures Converged(t', scopes, nested)
  {
    hide UnderAny, GroupGraph, Reaching, Canonical, MemberOfNames, SameBut, HasClass;
    RecomputedKeepsGraph(t, t', GroupGraph(t, scopes, Identity), nested, (set d | d in t && UnderAny(d, scopes)),
        scopes, Identity);
  }
}
