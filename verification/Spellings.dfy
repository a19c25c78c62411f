// Which member values the memberof plugin follows: those that spell a managed suffix as it is
// configured. When all do, a write's recomputation overlooks nothing.
module Spellings {
  import opened Text
  import opened Names
  import opened Entries
  import opened Stores
  import opened Graphs
  import opened MemberOf
  import opened RefInt
  import opened Convergence

  /** The first value that names a managed entry spells its suffix as configured. */
  ghost predicate SpelledEntry(e: Entry, scopes: seq<Name>) {
    forall n :: n in MemberNames(e) && UnderAny(n, scopes) ==> ScopedRef(e, n, scopes, Identity)
  }

  ghost predicate SpelledTree(t: Tree, scopes: seq<Name>) {
    forall d :: d in t && UnderAny(d, scopes) && IsGroup(t[d]) ==> SpelledEntry(t[d], scopes)
  }

  /** A DN that follows a move into a managed suffix is in scope in its new place. */
  lemma FollowsInScope(r: Ref, from: Name, to: Name, scopes: seq<Name>)
    requires Spells(r) && from != [] && to != [] && AtOrUnder(r.name, from) && UnderAny(to, scopes)
    ensures InScope(Respelled(Relocation(from, to), r.dn), scopes)
  {
    RebaseSpelling(r.dn, from, to);
    hide Canonical;
    var nd := RebaseDN(r.dn, from, to).value;
    var i :| 0 <= i < |scopes| && AtOrUnder(to, scopes[i]);
    var s := scopes[i];
    assert nd[|nd| - |to|..] == to;
    if nd != s {
      assert s != [] && |nd| > |s| && nd[|nd| - |s|..] == s by {
        if to == s {
        } else {
          assert to[|to| - |s|..] == s && nd[|nd| - |s|..] == nd[|nd| - |to|..][|to| - |s|..];
        }
      }
    }
  }

  /** Members of a well-spelled entry are in scope, also when read through a move into scope. */
  lemma SpelledIsScoped(e: Entry, scopes: seq<Name>, mv: Mapping, n: Name)
    requires SpelledEntry(e, scopes) && n in Image(MemberNames(e), mv) && UnderAny(n, scopes)
    requires mv.Relocation? ==> mv.from != [] && mv.to != [] && UnderAny(mv.to, scopes)
    ensures n in ScopedMembers(e, scopes, mv)
  {
    hide RefTo, MemberNames, Canonical, UnderAny, InScope, AtOrUnder, Spells, Respelled, Moved;
    var m :| m in MemberNames(e) && Apply(mv, m) == n;
    RefToFacts(e, m);
    var r := RefTo(e, m).value;
    UnmovedSpelling(Identity, r);
    match mv {
      case Identity => assert m == n;
      case Relocation(from, to) =>
        if AtOrUnder(m, from) {
          FollowsInScope(r, from, to, scopes);
        } else {
          StaysPut(m, from, to);
          UnmovedSpelling(mv, r);
        }
    }
    assert ScopedRef(e, m, scopes, mv);
  }

  lemma UnmovedSpelling(mv: Mapping, r: Ref)
    requires Spells(r) && (mv.Relocation? ==> !AtOrUnder(r.name, mv.from))
    ensures Respelled(mv, r.dn) == r.dn
  {
    match mv
    case Identity =>
    case Relocation(from, to) =>
      RebaseSpelling(r.dn, from, to);
      hide Canonical, RebaseDN, AtOrUnder;
  }

  /** In a well-spelled tree the expansion follows every membership of a managed name. */
  lemma SpelledFollows(u: Tree, scopes: seq<Name>, mv: Mapping, c: Name, n: Name)
    requires SpelledTree(u, scopes) && UnderAny(n, scopes)
    requires mv.Relocation? ==> mv.from != [] && mv.to != [] && UnderAny(mv.to, scopes)
    requires var h := GroupGraph(u, scopes, mv); c in h && n in h[c]
    ensures var f := FollowedGraph(u, scopes, mv); c in f && n in f[c] && f[c] == SeedsOf(Some(u[c]), scopes, mv)
  {
    hide UnderAny, IsGroup, MemberNames, Image, ScopedMembers, SpelledEntry, Canonical;
    SpelledIsScoped(u[c], scopes, mv, n);
  }

  // ---------------------------------------------------------------------------
  // One write
  // ---------------------------------------------------------------------------

  /** An add or a modification (or a rename that leaves the DN alone) of well-spelled groups overlooks nothing. */
  lemma PutOverlooksNothing(t: Tree, u: Tree, x: Name, ev: WriteEvent, scopes: seq<Name>, nested: bool, n: Name)
    requires SpelledTree(t, scopes) && SpelledTree(u, scopes) && PutAt(t, u, x) && u[x].dn == x
    requires ev.after == Some(u[x]) && ev.op != WriteDelete && MappingOf(ev) == Identity
    requires if x in t then ev.op != WriteAdd && ev.before == Some(t[x]) && t[x].dn == x else ev.before == None
    ensures !Overlooked(t, u, scopes, ev, nested, n)
  {
    hide UnderAny, GroupGraph, FollowedGraph, Canonical, SpelledTree, PutAt, SeedsOf, Pulled;
    var g, h := GroupGraph(t, scopes, Identity), GroupGraph(u, scopes, Identity);
    if Overlooked(t, u, scopes, ev, nested, n) {
      var c :| EitherNames(g, h, c, n) && (Written(ev, c) || (nested && Pulled(u, scopes, ev, nested, c)));
      if c != x { PutGraphs(t, u, x, scopes, c); }
      if c in h && n in h[c] {
        SpelledFollows(u, scopes, Identity, c, n);
        if c == x { SeededIsPulled(u, scopes, ev, nested, n); } else { PulledBelow(u, scopes, ev, c, n); }
      } else {
        GroupIsManaged(t, scopes, Identity, c);
        SpelledFollows(t, scopes, Identity, c, n);
        SeededIsPulled(u, scopes, ev, nested, n);
      }
    }
  }

  lemma SeededIsPulled(u: Tree, scopes: seq<Name>, ev: WriteEvent, nested: bool, n: Name)
    requires Seeded(u, scopes, ev, n)
    ensures Pulled(u, scopes, ev, nested, n)
  {
  }

  /** Neither does the delete of a well-spelled group. */
  lemma DeleteOverlooksNothing(t: Tree, u: Tree, x: Name, ev: WriteEvent, scopes: seq<Name>, nested: bool, n: Name)
    requires SpelledTree(t, scopes) && SpelledTree(u, scopes) && x in t && u == t - {x} && t[x].dn == x
    requires ev == WriteEvent(WriteDelete, Some(t[x]), None)
    ensures !Overlooked(t, u, scopes, ev, nested, n)
  {
    hide UnderAny, GroupGraph, FollowedGraph, Canonical, SpelledTree, SeedsOf, Pulled;
    var g, h := GroupGraph(t, scopes, Identity), GroupGraph(u, scopes, Identity);
    assert MappingOf(ev) == Identity;
    if Overlooked(t, u, scopes, ev, nested, n) {
      var c :| EitherNames(g, h, c, n) && (Written(ev, c) || (nested && Pulled(u, scopes, ev, nested, c)));
      GroupIsManaged(u, scopes, Identity, c);
      if c == x {
        SpelledFollows(t, scopes, Identity, x, n);
        SeededIsPulled(u, scopes, ev, nested, n);
      } else {
        WithoutSame(t, x, scopes, c);
        SpelledFollows(u, scopes, Identity, c, n);
        PulledBelow(u, scopes, ev, c, n);
      }
    }
  }

  lemma WithoutSame(t: Tree, x: Name, scopes: seq<Name>, c: Name)
    requires c != x
    ensures var g, h := GroupGraph(t, scopes, Identity), GroupGraph(t - {x}, scopes, Identity);
      (c in g <==> c in h) && (c in g ==> g[c] == h[c])
  {
    hide UnderAny, GroupGraph, IsGroup, MemberNames, Canonical;
    GraphAt(t, scopes, c);
    GraphAt(t - {x}, scopes, c);
  }

  /** Nor does a rename or subtree move of well-spelled groups. */
  lemma MoveOverlooksNothing(t: Tree, u: Tree, from: Name, to: Name, ev: WriteEvent, scopes: seq<Name>, nested: bool,
      n: Name)
    requires SpelledTree(t, scopes) && SpelledTree(u, scopes) && UnderAny(from, scopes)
    requires WellShaped(t, scopes) && Siblings(scopes) && MovedTree(t, u, from, to)
    requires from != [] && to != [] && from != to && to !in t && UnderAny(to, scopes) && Apart(from, to)
    requires ev == WriteEvent(WriteRename, Some(t[from]), Some(u[to])) && t[from].dn == from && u[to].dn == to
    ensures !Overlooked(t, u, scopes, ev, nested, n)
  {
    hide UnderAny, GroupGraph, FollowedGraph, Canonical, SpelledTree, SeedsOf, Pulled, Seeded, AtOrUnder, WellShaped,
        Siblings, MovedTree, Apart;
    var mv := Relocation(from, to);
    var g, h := GroupGraph(t, scopes, Identity), GroupGraph(u, scopes, mv);
    assert MappingOf(ev) == mv;
    if Overlooked(t, u, scopes, ev, nested, n) {
      var c :| EitherNames(g, h, c, n) && (Written(ev, c) || (nested && Pulled(u, scopes, ev, nested, c)));
      if c in h && n in h[c] {
        SpelledFollows(u, scopes, mv, c, n);
        NewGroupSeeds(t, u, from, to, ev, scopes, nested, c, n);
      } else if AtOrUnder(c, from) {
        MovedGroupSeeds(t, u, from, to, ev, scopes, nested, c, n);
      } else {
        MovedGraphs(t, u, scopes, from, to, c);
        NothingLeftThere(t, u, from, to, scopes, n);
        StaysNamed(t, u, scopes, from, to, c, n);
      }
    }
  }

  /** A written or recomputed group of the new tree pulls in whom it names. */
  lemma NewGroupSeeds(t: Tree, u: Tree, from: Name, to: Name, ev: WriteEvent, scopes: seq<Name>, nested: bool, c: Name,
      n: Name)
    requires MovedTree(t, u, from, to) && WellShaped(t, scopes) && Siblings(scopes) && Apart(from, to)
    requires from != [] && to != [] && to !in t && UnderAny(to, scopes)
    requires ev.op == WriteRename && MappingOf(ev) == Relocation(from, to)
    requires var f := FollowedGraph(u, scopes, Relocation(from, to));
      c in f && n in f[c] && f[c] == SeedsOf(Some(u[c]), scopes, Relocation(from, to))
    requires Written(ev, c) || (nested && Pulled(u, scopes, ev, nested, c))
    ensures Pulled(u, scopes, ev, nested, n)
  {
    hide UnderAny, FollowedGraph, Canonical, SeedsOf, Pulled, AtOrUnder, WellShaped, Siblings, MovedTree, Apart,
        MappingOf;
    GroupIsManaged(u, scopes, Relocation(from, to), c);
    MovedRoot(t, u, from, to);
    if Written(ev, c) {
      if AtOrUnder(c, from) { NothingLeftThere(t, u, from, to, scopes, c); }
      assert FromMoved(u, scopes, MappingOf(ev), n);
      SeededIsPulled(u, scopes, ev, nested, n);
    } else {
      PulledBelow(u, scopes, ev, c, n);
    }
  }

  /** After a move nothing is left at the old place. */
  lemma NothingLeftThere(t: Tree, u: Tree, from: Name, to: Name, scopes: seq<Name>, n: Name)
    requires MovedTree(t, u, from, to) && from != [] && to != [] && Apart(from, to) && n in u
    ensures !AtOrUnder(n, from)
  {
    hide AtOrUnder, Apart, Moved, Canonical;
    var d :| d in t && Moved(d, from, to) == n;
    if AtOrUnder(d, from) {
      RebaseUnder(d, from, to);
      ApartDescendants(n, from, to);
    } else {
      StaysPut(d, from, to);
    }
  }

  lemma StaysNamed(t: Tree, u: Tree, scopes: seq<Name>, from: Name, to: Name, c: Name, n: Name)
    requires var g, h := GroupGraph(t, scopes, Identity), GroupGraph(u, scopes, Relocation(from, to));
      && c in g && n in g[c] && c in h && h[c] == Image(g[c], Relocation(from, to))
    requires !AtOrUnder(n, from)
    ensures n in GroupGraph(u, scopes, Relocation(from, to))[c]
  {
    hide GroupGraph, AtOrUnder, Moved, Canonical;
    StaysPut(n, from, to);
    assert Apply(Relocation(from, to), n) == n;
  }

  /** A group that moved away pulls in whom it named. */
  lemma MovedGroupSeeds(t: Tree, u: Tree, from: Name, to: Name, ev: WriteEvent, scopes: seq<Name>, nested: bool,
      c: Name, n: Name)
    requires SpelledTree(t, scopes) && SpelledTree(u, scopes) && UnderAny(n, scopes) && n in u
    requires MovedTree(t, u, from, to) && from != [] && to != [] && from != to && UnderAny(to, scopes)
    requires Apart(from, to) && AtOrUnder(c, from)
    requires ev == WriteEvent(WriteRename, Some(t[from]), Some(u[to])) && t[from].dn == from && u[to].dn == to
    requires var g := GroupGraph(t, scopes, Identity); c in g && n in g[c]
    ensures Pulled(u, scopes, ev, nested, n)
  {
    hide UnderAny, GroupGraph, Canonical, SpelledEntry, ScopedMembers, AtOrUnder, Apart, Moved, IsGroup, MemberNames;
    var mv := Relocation(from, to);
    assert MappingOf(ev) == mv;
    GraphAt(t, scopes, c);
    NothingLeftThere(t, u, from, to, scopes, n);
    StaysPut(n, from, to);
    assert Apply(mv, n) == n && n in Image(MemberNames(t[c]), mv);
    SpelledIsScoped(t[c], scopes, mv, n);
    if c == from {
      assert n in SeedsOf(ev.before, scopes, mv);
    } else {
      var c' := Moved(c, from, to);
      RebaseUnder(c, from, to);
      SameContent(t[c], u[c'], c');
      SameRefs(t[c], u[c'], scopes, mv);
      assert n in SeedsOf(Some(u[c']), scopes, mv);
      assert FromMoved(u, scopes, mv, n);
    }
    SeededIsPulled(u, scopes, ev, nested, n);
  }

  lemma SameRefs(e: Entry, e': Entry, scopes: seq<Name>, mv: Mapping)
    requires e'.attrs == e.attrs
    ensures ScopedMembers(e', scopes, mv) == ScopedMembers(e, scopes, mv)
  {
    hide FirstRef, NamesIn, InScope, Respelled, Apply, ValuesOf;
    assert Values(e', "member") == Values(e, "member") && Values(e', "uniqueMember") == Values(e, "uniqueMember");
    forall n ensures ScopedRef(e', n, scopes, mv) <==> ScopedRef(e, n, scopes, mv) {
    }
  }
}
