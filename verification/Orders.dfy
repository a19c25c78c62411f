// Moves whose redirected values do not survive: what either plugin order ends with, and
// exactly when the order the server installs keeps the memberOf sets exact.
module Orders {
  import opened Text
  import opened Names
  import opened Entries
  import opened Stores
  import opened Graphs
  import opened MemberOf
  import opened RefInt
  import opened HashValues
  import opened Convergence

  /** A move is safe for a tree exactly when every member value of a managed group keeps naming what it names. */
  lemma SafeTreeExactly(t: Tree, scopes: seq<Name>, from: Name, to: Name)
    requires from != [] && to != []
    ensures SafeTree(t, scopes, from, to) <==>
              forall d :: d in t && UnderAny(d, scopes) && IsGroup(t[d]) ==>
                && (forall v :: v in Values(t[d], "member") ==> NamesNewPlace(v, false, from, to))
                && forall v :: v in Values(t[d], "uniqueMember") ==> NamesNewPlace(v, true, from, to)
  {
    hide UnderAny, IsGroup, Values, NamesNewPlace, SafeToRedirect, Canonical;
    forall d | d in t
      ensures SafeToRedirect(t[d], from, to) <==>
                && (forall v :: v in Values(t[d], "member") ==> NamesNewPlace(v, false, from, to))
                && forall v :: v in Values(t[d], "uniqueMember") ==> NamesNewPlace(v, true, from, to)
    {
      RedirectExactly(t[d], from, to);
    }
  }

  // ---------------------------------------------------------------------------
  // Entries that moved
  // ---------------------------------------------------------------------------

  /** A moved entry is recomputed in either order: from the mapped graph, and from the redirected one. */
  lemma MovedEntryMemberOf(u: Tree, mid1: Tree, z1: Tree, seeds1: set<Name>, mid2: Tree, z2: Tree, seeds2: set<Name>,
                           from: Name, to: Name, ev: WriteEvent, scopes: seq<Name>, nested: bool, x: Name)
    requires Tidy(u) && from != [] && to in u && to != [] && Apart(from, to) && UnderAny(from, scopes)
    requires UnderAny(to, scopes)
    requires ev.op == WriteRename && ev.before.Some? && ev.before.value.dn == from && ev.after == Some(u[to])
    requires Ran(u, mid1, z1, seeds1, scopes, nested, true, ev) && Ran(u, mid2, z2, seeds2, scopes, nested, false, ev)
    requires x in u && UnderAny(x, scopes) && AtOrUnder(x, to)
    ensures x in z1 && MemberOfNames(z1[x]) == Reaching(GroupGraph(u, scopes, Relocation(from, to)), nested, x)
    ensures x in z2 && MemberOfNames(z2[x]) ==
              Reaching(GroupGraph(RepairedTree(u, scopes, Redirect(from, to)), scopes, Relocation(from, to)), nested, x)
  {
    hide UnderAny, GroupGraph, Reaching, Canonical, RepairedTree, MemberOfNames, IsGroup, Apart, AtOrUnder, MappingOf,
        RepairFor, HasClass, SameBut, Tidy, Pulled;
    MoveEvent(u, from, to, ev, scopes);
    RepairKeepsTidy(u, scopes, Redirect(from, to));
    RepairKeepsTidy(mid1, scopes, Redirect(from, to));
    MovedIsPulled(u, scopes, ev, nested, x);
    MovedIsPulled(mid2, scopes, ev, nested, x);
    RedirectedValues(mid1, scopes, from, to, x);
    assert x in mid1 && MemberOfNames(mid1[x]) == Reaching(GroupGraph(u, scopes, Relocation(from, to)), nested, x);
    assert x in mid2 && MemberOfNames(z2[x]) == Reaching(GroupGraph(mid2, scopes, Relocation(from, to)), nested, x);
  }

  /**
   * For direct membership: the two orders agree on a moved entry exactly when redirecting
   * the values makes no managed group name it that did not, or no longer name it.
   */
  lemma MovedEntryAgrees(u: Tree, mid1: Tree, z1: Tree, seeds1: set<Name>, mid2: Tree, z2: Tree, seeds2: set<Name>,
                         from: Name, to: Name, ev: WriteEvent, scopes: seq<Name>, x: Name)
    requires Tidy(u) && from != [] && to in u && to != [] && Apart(from, to) && UnderAny(from, scopes)
    requires UnderAny(to, scopes)
    requires ev.op == WriteRename && ev.before.Some? && ev.before.value.dn == from && ev.after == Some(u[to])
    requires Ran(u, mid1, z1, seeds1, scopes, false, true, ev) && Ran(u, mid2, z2, seeds2, scopes, false, false, ev)
    requires x in u && UnderAny(x, scopes) && AtOrUnder(x, to)
    ensures x in z1 && x in z2
    ensures MemberOfNames(z1[x]) == MemberOfNames(z2[x]) <==>
              forall g :: g in u && UnderAny(g, scopes) && IsGroup(u[g]) ==>
                (x in Image(MemberNames(u[g]), Relocation(from, to)) <==>
                 x in Image(MemberNames(Fixed(u[g], Redirect(from, to))), Relocation(from, to)))
  {
    hide UnderAny, GroupGraph, Canonical, RepairedTree, MemberOfNames, MemberNames, Image, IsGroup, Apart, AtOrUnder,
        Tidy, Ran, Fixed;
    var mv := Relocation(from, to);
    MovedEntryMemberOf(u, mid1, z1, seeds1, mid2, z2, seeds2, from, to, ev, scopes, false, x);
    var w := RepairedTree(u, scopes, Redirect(from, to));
    RepairKeepsTidy(u, scopes, Redirect(from, to));
    forall g
      ensures g in Reaching(GroupGraph(u, scopes, mv), false, x) <==>
                g in u && UnderAny(g, scopes) && IsGroup(u[g]) && x in Image(MemberNames(u[g]), mv)
      ensures g in Reaching(GroupGraph(w, scopes, mv), false, x) <==>
                g in u && UnderAny(g, scopes) && IsGroup(u[g])
                    && x in Image(MemberNames(Fixed(u[g], Redirect(from, to))), mv)
    {
      GraphMapped(u, scopes, mv, g);
      GraphMapped(w, scopes, mv, g);
      if g in u {
        RedirectedValues(u, scopes, from, to, g);
        RepairedFacts(u, scopes, Redirect(from, to), g);
      }
    }
  }

  // ---------------------------------------------------------------------------
  // Memberof first, as the server has it
  // ---------------------------------------------------------------------------

  /** Redirecting the values does not change which groups reach which managed entry. */
  ghost predicate RedirectKeepsReach(u: Tree, scopes: seq<Name>, nested: bool, from: Name, to: Name) {
    forall d :: d in u && UnderAny(d, scopes) ==>
      Reaching(GroupGraph(RepairedTree(u, scopes, Redirect(from, to)), scopes, Identity), nested, d)
      == Reaching(GroupGraph(u, scopes, Relocation(from, to)), nested, d)
  }

  /**
   * Every managed entry carries, once the values are redirected, the groups that the move
   * recomputed for it or, where it did not, those it had before.
   */
  ghost predicate MoveKeeps(t: Tree, u: Tree, scopes: seq<Name>, nested: bool, from: Name, to: Name, ev: WriteEvent) {
    forall d :: d in u && UnderAny(d, scopes) ==>
      Reaching(GroupGraph(RepairedTree(u, scopes, Redirect(from, to)), scopes, Identity), nested, d)
      == if Pulled(u, scopes, ev, nested, d) then Reaching(GroupGraph(u, scopes, Relocation(from, to)), nested, d)
         else Reaching(GroupGraph(t, scopes, Identity), nested, d)
  }

  /** A committed move leaves the memberOf sets exact precisely when they are what the redirected values say. */
  lemma MoveRanExactly(t: Tree, u: Tree, mid: Tree, z: Tree, from: Name, to: Name, ev: WriteEvent, seeds: set<Name>,
      scopes: seq<Name>, nested: bool)
    requires Converged(t, scopes, nested) && WellShaped(t, scopes) && Siblings(scopes) && MovedTree(t, u, from, to)
    requires Tidy(u)
    requires from != [] && to != [] && from in t && to !in t && UnderAny(to, scopes) && UnderAny(from, scopes)
    requires !Under(to, from)
    requires ev == WriteEvent(WriteRename, Some(t[from]), Some(u[to])) && t[from].dn == from && u[to].dn == to
    requires Ran(u, mid, z, seeds, scopes, nested, true, ev)
    ensures Converged(z, scopes, nested) <==> MoveKeeps(t, u, scopes, nested, from, to, ev)
  {
    hide UnderAny, GroupGraph, Touches, Reaching, Canonical, Recomputed, RepairedTree, MemberOfNames, IsGroup,
        WellShaped, Siblings, MovedTree, Under, Tidy, SameThroughMove, Pulled, PullsIn;
    var mv := Relocation(from, to);
    assert from != to && RepairFor(ev, scopes) == Redirect(from, to) && MappingOf(ev) == mv;
    SameAsItself(u, mv);
    TouchedPullsIn(u, scopes, ev, nested, seeds);
    RecomputedKeys(u, mid, GroupGraph(u, scopes, mv), nested, seeds);
    RepairKeepsTidy(mid, scopes, Redirect(from, to));
    SameRedirectedGraph(u, mid, GroupGraph(u, scopes, mv), nested, seeds, scopes, from, to);
    forall d | d in u && UnderAny(d, scopes)
      ensures MemberOfNames(z[d]) ==
                if Pulled(u, scopes, ev, nested, d) then Reaching(GroupGraph(u, scopes, mv), nested, d)
                else Reaching(GroupGraph(t, scopes, Identity), nested, d)
    {
      MoveRecomputed(t, u, u, mid, from, to, ev, seeds, scopes, nested, d);
      RedirectedValues(mid, scopes, from, to, d);
    }
  }

  /** When what is overlooked keeps its groups, what is left to ask is that the redirection keeps every entry's. */
  lemma MoveKeepsReach(t: Tree, u: Tree, scopes: seq<Name>, nested: bool, from: Name, to: Name, ev: WriteEvent)
    requires WellShaped(t, scopes) && Siblings(scopes) && MovedTree(t, u, from, to)
    requires from != [] && to != [] && from != to && to !in t && UnderAny(to, scopes)
    requires ev == WriteEvent(WriteRename, Some(t[from]), Some(u[to])) && t[from].dn == from && u[to].dn == to
    requires OverlookedKeep(t, u, scopes, ev, nested)
    ensures MoveKeeps(t, u, scopes, nested, from, to, ev) <==> RedirectKeepsReach(u, scopes, nested, from, to)
  {
    hide UnderAny, GroupGraph, Reaching, Canonical, RepairedTree, WellShaped, Siblings, MovedTree, Pulled, AtOrUnder,
        OverlookedKeep;
    assert MappingOf(ev) == Relocation(from, to);
    forall d | d in u && UnderAny(d, scopes) && !Pulled(u, scopes, ev, nested, d)
      ensures Reaching(GroupGraph(t, scopes, Identity), nested, d)
              == Reaching(GroupGraph(u, scopes, Relocation(from, to)), nested, d)
    {
      UnpulledIsUnmoved(t, u, scopes, from, to, ev, nested, d);
      UnpulledSame(t, u, from, to, ev, scopes, nested, d);
    }
  }

  /** Redirecting before or after a recomputation gives the same group graph. */
  lemma SameRedirectedGraph(u: Tree, mid: Tree, g: Graph<Name>, nested: bool, seeds: set<Name>, scopes: seq<Name>,
      from: Name, to: Name)
    requires Tidy(u) && Tidy(mid) && Recomputed(u, mid, g, nested, seeds)
    ensures GroupGraph(RepairedTree(mid, scopes, Redirect(from, to)), scopes, Identity)
            == GroupGraph(RepairedTree(u, scopes, Redirect(from, to)), scopes, Identity)
  {
    hide UnderAny, Reaching, Canonical, RepairedTree, MemberOfNames, MemberNames, IsGroup, Tidy, SameBut, HasClass,
        Values, MapValues, Image, GroupGraph;
    var r := Redirect(from, to);
    var w, w' := RepairedTree(u, scopes, r), RepairedTree(mid, scopes, r);
    RepairKeepsTidy(u, scopes, r);
    RepairKeepsTidy(mid, scopes, r);
    forall d | d in u ensures MemberNames(w'[d]) == MemberNames(w[d]) && IsGroup(w'[d]) == IsGroup(w[d]) {
      SameMembers(u[d], mid[d]);
      RedirectedValues(u, scopes, from, to, d);
      RedirectedValues(mid, scopes, from, to, d);
      SameValuesSameNames(w'[d], w[d]);
    }
    SameGraphs(w, w', scopes, Identity);
  }

  lemma SameGraphs(t: Tree, t': Tree, scopes: seq<Name>, mv: Mapping)
    requires t'.Keys == t.Keys
    requires forall d :: d in t ==> MemberNames(t'[d]) == MemberNames(t[d]) && (IsGroup(t'[d]) <==> IsGroup(t[d]))
    ensures GroupGraph(t', scopes, mv) == GroupGraph(t, scopes, mv)
  {
    hide UnderAny, Canonical, MemberNames, IsGroup, Image;
  }

  /** What a safe tree gives, and what direct membership needs. */
  lemma SafeKeepsReach(u: Tree, scopes: seq<Name>, nested: bool, from: Name, to: Name)
    requires Tidy(u) && SafeTree(u, scopes, from, to) && from != [] && to != []
    ensures RedirectKeepsReach(u, scopes, nested, from, to)
  {
    hide UnderAny, Canonical, GroupGraph, RepairedTree, Reaching, Tidy, SafeTree;
    RedirectedGraph(u, scopes, from, to);
  }

  /** The group still names the entry after the redirection exactly when it named it before, at its new place. */
  predicate StillNames(e: Entry, from: Name, to: Name, d: Name) {
    d in MemberNames(Fixed(e, Redirect(from, to))) <==> d in Image(MemberNames(e), Relocation(from, to))
  }

  /**
   * For direct membership: exactly when every managed group still names the managed entries
   * it named, and no others.
   */
  lemma DirectKeepsReach(u: Tree, scopes: seq<Name>, from: Name, to: Name)
    requires Tidy(u)
    ensures RedirectKeepsReach(u, scopes, false, from, to) <==>
              forall g, d :: g in u && UnderAny(g, scopes) && IsGroup(u[g]) && d in u && UnderAny(d, scopes) ==>
                  StillNames(u[g], from, to, d)
  {
    hide UnderAny, Canonical, GroupGraph, RepairedTree, Tidy, Reaching, IsGroup, StillNames;
    forall d | d in u && UnderAny(d, scopes)
      ensures Reaching(GroupGraph(RepairedTree(u, scopes, Redirect(from, to)), scopes, Identity), false, d)
              == Reaching(GroupGraph(u, scopes, Relocation(from, to)), false, d)
              <==> forall g :: g in u && UnderAny(g, scopes) && IsGroup(u[g]) ==> StillNames(u[g], from, to, d)
    {
      DirectKeepsReachOf(u, scopes, from, to, d);
    }
  }

  lemma DirectKeepsReachOf(u: Tree, scopes: seq<Name>, from: Name, to: Name, d: Name)
    requires Tidy(u)
    ensures Reaching(GroupGraph(RepairedTree(u, scopes, Redirect(from, to)), scopes, Identity), false, d)
            == Reaching(GroupGraph(u, scopes, Relocation(from, to)), false, d)
            <==> forall g :: g in u && UnderAny(g, scopes) && IsGroup(u[g]) ==> StillNames(u[g], from, to, d)
  {
    hide UnderAny, Canonical, GroupGraph, RepairedTree, Tidy, MemberNames, Image, IsGroup, Fixed;
    var mv := Relocation(from, to);
    var w := RepairedTree(u, scopes, Redirect(from, to));
    RepairKeepsTidy(u, scopes, Redirect(from, to));
    var before, after := Reaching(GroupGraph(u, scopes, mv), false, d),
        Reaching(GroupGraph(w, scopes, Identity), false, d);
    forall g
      ensures g in before <==> g in u && UnderAny(g, scopes) && IsGroup(u[g]) && d in Image(MemberNames(u[g]), mv)
      ensures g in after <==>
                g in u && UnderAny(g, scopes) && IsGroup(u[g]) && d in MemberNames(Fixed(u[g], Redirect(from, to)))
    {
      GraphMapped(u, scopes, mv, g);
      GraphAt(w, scopes, g);
      if g in u {
        RedirectedValues(u, scopes, from, to, g);
        RepairedFacts(u, scopes, Redirect(from, to), g);
      }
    }
    assert (forall g :: g in u && UnderAny(g, scopes) && IsGroup(u[g]) ==> StillNames(u[g], from, to, d)) <==>
             forall g :: g in after <==> g in before;
    assert after == before <==> forall g :: g in after <==> g in before;
  }

  /** c and d are managed entries, c is a group, and in one of its spellings it names d. */
  ghost predicate NamesEntry(t: Tree, scopes: seq<Name>, mv: Mapping, c: Name, d: Name) {
    c in t && UnderAny(c, scopes) && IsGroup(t[c]) && d in t && UnderAny(d, scopes)
    && d in Image(MemberNames(t[c]), mv)
  }

  /**
   * For nested membership: exactly when every membership that the redirection takes away is
   * still there through other groups, and every one that it adds was.
   */
  lemma NestedKeepsReach(u: Tree, scopes: seq<Name>, from: Name, to: Name)
    requires Tidy(u)
    ensures var w := RepairedTree(u, scopes, Redirect(from, to));
      var h, r := GroupGraph(u, scopes, Relocation(from, to)), GroupGraph(w, scopes, Identity);
      RedirectKeepsReach(u, scopes, true, from, to) <==>
        && (forall c, d :: NamesEntry(u, scopes, Relocation(from, to), c, d) ==> Reaches(r, c, d))
        && forall c, d :: NamesEntry(w, scopes, Identity, c, d) ==> Reaches(h, c, d)
  {
    hide UnderAny, Canonical, GroupGraph, RepairedTree, Tidy, Reaching, Reaches, NamesEntry;
    var w := RepairedTree(u, scopes, Redirect(from, to));
    var h, r := GroupGraph(u, scopes, Relocation(from, to)), GroupGraph(w, scopes, Identity);
    RepairKeepsTidy(u, scopes, Redirect(from, to));
    var nodes := set d | d in u && UnderAny(d, scopes);
    forall c, d ensures NamesEntry(u, scopes, Relocation(from, to), c, d) <==> c in h && d in nodes && d in h[c] {
      EntryNamed(u, scopes, Relocation(from, to), c, d);
    }
    forall c, d ensures NamesEntry(w, scopes, Identity, c, d) <==> c in r && d in nodes && d in r[c] {
      EntryNamed(w, scopes, Identity, c, d);
    }
    forall c ensures (c in h ==> c in nodes) && (c in r ==> c in nodes) {
      GroupIsManaged(u, scopes, Relocation(from, to), c);
      GroupIsManaged(w, scopes, Identity, c);
    }
    SameReachByEdges(r, h, nodes);
  }

  lemma EntryNamed(t: Tree, scopes: seq<Name>, mv: Mapping, c: Name, d: Name)
    ensures NamesEntry(t, scopes, mv, c, d) <==>
              c in GroupGraph(t, scopes, mv) && d in t && UnderAny(d, scopes) && d in GroupGraph(t, scopes, mv)[c]
  {
    hide UnderAny, IsGroup, Image, MemberNames;
  }
}
