// Whole runs of the server: which committed requests keep the memberOf sets exact.
module Runs {
  import opened Text
  import opened Names
  import opened Entries
  import opened Stores
  import opened Graphs
  import opened MemberOf
  import opened RefInt
  import opened Convergence
  import opened Orders
  import opened Spellings
  import opened Writes
  import opened Servers

  /** A request with the decisions and the stamp that go with it. */
  datatype Call = Call(policy: Policy, request: Request, stamp: Stamp)

  /**
   * What the edit of t to u must meet for the memberOf sets to stay exact, decided before
   * any plugin runs: an added entry that is named is recomputed, and whatever the
   * recomputation passes over keeps its groups; an add or a delete takes those of all that
   * it names; and redirecting the values of a move keeps them too.
   */
  ghost predicate KeepsExact(t: Tree, u: Tree, scopes: seq<Name>, nested: bool, r: Request, ev: WriteEvent) {
    match r
    case AddRequest(dn, _) =>
      && (NamedInTree(u, scopes, dn) ==> Pulled(u, scopes, ev, nested, dn))
      && forall n :: !Overlooked(t, u, scopes, ev, nested, n)
    case DeleteRequest(_) => forall n :: !Overlooked(t, u, scopes, ev, nested, n)
    case ModifyRequest(_, _, _) => OverlookedKeep(t, u, scopes, ev, nested)
    case ModifyDNRequest(_, _, _, _) =>
      match MappingOf(ev)
      case Identity => OverlookedKeep(t, u, scopes, ev, nested)
      case Relocation(from, to) => MoveKeeps(t, u, scopes, nested, from, to, ev)
  }

  /**
   * What makes all of this hold: member values spell managed suffixes as they are configured,
   * no group already names the DN an Add creates, and a move redirects only values that
   * are read back.
   */
  ghost predicate Clean(t: Tree, u: Tree, scopes: seq<Name>, r: Request, ev: WriteEvent) {
    && SpelledTree(t, scopes) && SpelledTree(u, scopes)
    && (r.AddRequest? ==> !NamedInTree(t, scopes, r.dn))
    && (r.ModifyDNRequest? && MappingOf(ev).Relocation? ==> SafeMove(t, scopes, MappingOf(ev).from, MappingOf(ev).to))
  }

  // ---------------------------------------------------------------------------
  // One request
  // ---------------------------------------------------------------------------

  lemma AddedHasNoMemberOf(t: Tree, scopes: seq<Name>, p: Policy, r: Request, s: Stamp)
    requires r.AddRequest? && AddCode(t, scopes, p, r) == Success && ProtectsMemberOf(p)
    ensures var e := StampedNew(Entry(r.dn, r.attrs), s.uuid, s.now, s.who); e.dn == r.dn && MemberOfNames(e) == {}
  {
    hide StampedNew, Canonical, UnderAny, EqualFold, Distinct, Watched;
    WatchedNames();
    StampedNewFacts(Entry(r.dn, r.attrs), s.uuid, s.now, s.who, "memberOf");
    ValuesAbsent(r.attrs, "memberOf");
    NamesInNone(false);
  }

  /** An Add: see KeepsExact. */
  lemma AddCommitExact(t: Tree, u: Tree, z: Tree, scopes: seq<Name>, nested: bool, memberOfFirst: bool, p: Policy,
      r: Request, s: Stamp, ev: WriteEvent)
    requires WellShaped(t, scopes) && Converged(t, scopes, nested) && r.AddRequest? && r.dn != [] && ProtectsMemberOf(p)
    requires AddCode(t, scopes, p, r) == Success
    requires Edit(t, u, p, r, s, ev) && PluginsRan(u, z, scopes, nested, memberOfFirst, ev)
    ensures Converged(z, scopes, nested) <==> KeepsExact(t, u, scopes, nested, r, ev)
  {
    hide WellShaped, Converged, Ran, UnderAny, NamedInTree, Reaching, GroupGraph, Canonical, StampedNew, Distinct,
        MemberOfNames, Recomputed, Touches, Pulled, Overlooked;
    var mid, seeds :| Ran(u, mid, z, seeds, scopes, nested, memberOfFirst, ev);
    AddedHasNoMemberOf(t, scopes, p, r, s);
    RanWithoutRepair(u, mid, z, seeds, scopes, nested, memberOfFirst, ev);
    assert MappingOf(ev) == Identity && u[r.dn] == ev.after.value && PutAt(t, u, r.dn);
    AddConvergesExactly(t, u, z, r.dn, ev, seeds, scopes, nested);
  }

  /** A Modify: exactly when every entry that the recomputation passes over belongs to the same groups as before. */
  lemma ModifyCommitExact(t: Tree, u: Tree, z: Tree, scopes: seq<Name>, nested: bool, memberOfFirst: bool, p: Policy,
      r: Request, s: Stamp, ev: WriteEvent)
    requires WellShaped(t, scopes) && Converged(t, scopes, nested) && r.ModifyRequest? && r.dn != []
    requires ProtectsMemberOf(p)
    requires ModifyCode(t, p, r) == Success
    requires Edit(t, u, p, r, s, ev) && PluginsRan(u, z, scopes, nested, memberOfFirst, ev)
    ensures Converged(z, scopes, nested) <==> KeepsExact(t, u, scopes, nested, r, ev)
  {
    hide WellShaped, Converged, Ran, UnderAny, Canonical, Stamped, Distinct, MemberOfNames, Recomputed, Touches,
        GroupGraph, ApplyChanges, Gate, OverlookedKeep;
    var mid, seeds :| Ran(u, mid, z, seeds, scopes, nested, memberOfFirst, ev);
    EntryInShape(t, scopes, r.dn);
    ModifiedFacts(t, p, r, s);
    assert MappingOf(ev) == Identity;
    NoRepairInPlace(ev, scopes);
    RanWithoutRepair(u, mid, z, seeds, scopes, nested, memberOfFirst, ev);
    ModifyConvergesExactly(t, u, z, r.dn, ev, seeds, scopes, nested);
  }

  /**
   * For direct membership: a Modify keeps the memberOf sets exact precisely when every entry
   * that the group gained or lost is named, before or after, by a value that spells its suffix.
   */
  lemma DirectModify(t: Tree, u: Tree, scopes: seq<Name>, p: Policy, r: Request, s: Stamp, ev: WriteEvent)
    requires WellShaped(t, scopes) && r.ModifyRequest? && r.dn != []
    requires ModifyCode(t, p, r) == Success && Edit(t, u, p, r, s, ev)
    ensures KeepsExact(t, u, scopes, false, r, ev) <==>
              forall n :: n in u && UnderAny(n, scopes) && (GroupLists(t[r.dn], n) != GroupLists(u[r.dn], n)) ==>
                n in SeedsOf(ev.before, scopes, Identity) || n in SeedsOf(ev.after, scopes, Identity)
  {
    hide WellShaped, UnderAny, Canonical, Stamped, Distinct, GroupGraph, ApplyChanges, Gate, IsGroup, MemberNames,
        SeedsOf;
    EntryInShape(t, scopes, r.dn);
    ShapeManaged(t, scopes, r.dn);
    ModifiedFacts(t, p, r, s);
    assert MappingOf(ev) == Identity && PutAt(t, u, r.dn);
    forall n ensures Pulled(u, scopes, ev, false, n) <==>
                       n in SeedsOf(ev.before, scopes, Identity) || n in SeedsOf(ev.after, scopes, Identity) {
    }
    forall n | n in u && UnderAny(n, scopes)
      ensures SameReach(t, u, scopes, ev, false, n) <==> GroupLists(t[r.dn], n) == GroupLists(u[r.dn], n)
    {
      DirectReach(t, u, r.dn, scopes, n);
    }
    forall n | n in u && UnderAny(n, scopes) && (GroupLists(t[r.dn], n) || GroupLists(u[r.dn], n))
      ensures EitherNames(GroupGraph(t, scopes, Identity), GroupGraph(u, scopes, Identity), r.dn, n)
    {
      GraphAt(t, scopes, r.dn);
      GraphAt(u, scopes, r.dn);
    }
  }

  lemma ShapeManaged(t: Tree, scopes: seq<Name>, d: Name)
    requires WellShaped(t, scopes) && d in t
    ensures UnderAny(d, scopes)
  {
  }

  /** e is a group that names n. */
  ghost predicate GroupLists(e: Entry, n: Name) { IsGroup(e) && n in MemberNames(e) }

  lemma DirectReach(t: Tree, u: Tree, x: Name, scopes: seq<Name>, n: Name)
    requires PutAt(t, u, x) && x in t && UnderAny(x, scopes)
    ensures Reaching(GroupGraph(t, scopes, Identity), false, n) == Reaching(GroupGraph(u, scopes, Identity), false, n)
            <==> GroupLists(t[x], n) == GroupLists(u[x], n)
  {
    hide UnderAny, Canonical, GroupGraph, IsGroup, MemberNames;
    var g, h := GroupGraph(t, scopes, Identity), GroupGraph(u, scopes, Identity);
    GraphAt(t, scopes, x);
    GraphAt(u, scopes, x);
    forall c | c != x ensures (c in g <==> c in h) && (c in g ==> g[c] == h[c]) {
      PutGraphs(t, u, x, scopes, c);
    }
    assert x in Reaching(g, false, n) <==> GroupLists(t[x], n);
    assert x in Reaching(h, false, n) <==> GroupLists(u[x], n);
  }

  /** A write that leaves the DN alone calls for no repair. */
  lemma NoRepairInPlace(ev: WriteEvent, scopes: seq<Name>)
    requires ev.op == WriteModify || ev.op == WriteRename
    requires ev.before.Some? && ev.after.Some? && ev.before.value.dn == ev.after.value.dn
    ensures RepairFor(ev, scopes) == NoRepair && MappingOf(ev) == Identity
  {
    hide UnderAny;
  }

  /** A Delete: exactly when nothing is overlooked. */
  lemma DeleteCommitExact(t: Tree, u: Tree, z: Tree, scopes: seq<Name>, nested: bool, memberOfFirst: bool, p: Policy,
      r: Request, s: Stamp, ev: WriteEvent)
    requires WellShaped(t, scopes) && Converged(t, scopes, nested) && r.DeleteRequest? && r.dn != []
    requires Edit(t, u, p, r, s, ev) && PluginsRan(u, z, scopes, nested, memberOfFirst, ev)
    ensures Converged(z, scopes, nested) <==> KeepsExact(t, u, scopes, nested, r, ev)
  {
    hide Converged, Ran, UnderAny, Canonical, Distinct, Overlooked;
    var mid, seeds :| Ran(u, mid, z, seeds, scopes, nested, memberOfFirst, ev);
    DeleteRan(t, u, mid, z, r.dn, ev, seeds, scopes, nested, memberOfFirst);
  }

  /** A rename to the entry's own name. */
  lemma TouchCommit(t: Tree, u: Tree, z: Tree, scopes: seq<Name>, nested: bool, memberOfFirst: bool, d: Name, s: Stamp,
      ev: WriteEvent)
    requires WellShaped(t, scopes) && Converged(t, scopes, nested) && d in t
    requires u == t[d := Stamped(t[d], s.now, s.who)] && ev == WriteEvent(WriteRename, Some(t[d]), Some(u[d]))
    requires PluginsRan(u, z, scopes, nested, memberOfFirst, ev)
    ensures MappingOf(ev) == Identity
    ensures Converged(z, scopes, nested) <==> OverlookedKeep(t, u, scopes, ev, nested)
  {
    hide WellShaped, Converged, Ran, UnderAny, Canonical, Stamped, Distinct, Recomputed, Touches, GroupGraph, Watched,
        ValuesOf, NamesIn, OverlookedKeep;
    var mid, seeds :| Ran(u, mid, z, seeds, scopes, nested, memberOfFirst, ev);
    EntryInShape(t, scopes, d);
    WatchedNames();
    StampedFacts(t[d], s.now, s.who, "memberOf");
    NoRepairInPlace(ev, scopes);
    RanWithoutRepair(u, mid, z, seeds, scopes, nested, memberOfFirst, ev);
    ModifyConvergesExactly(t, u, z, d, ev, seeds, scopes, nested);
  }

  /** A rename or a subtree move that passed the gates, as the plugins find it. */
  lemma MoveEdited(t: Tree, moved: Tree, scopes: seq<Name>, p: Policy, r: Request, s: Stamp, ev: WriteEvent, to: Name)
    requires WellShaped(t, scopes) && Siblings(scopes) && r.ModifyDNRequest? && r.dn != []
    requires ModifyDNCode(t, scopes, p, r) == Success && to == Target(r.newRdn, SuperiorOf(r).value) && to != r.dn
    requires IsRename(t, moved, r.dn, to)
    requires ev == WriteEvent(WriteRename, Some(t[r.dn]), Some(Stamped(Renamed(t, p, r, to), s.now, s.who)))
    ensures var u := moved[to := ev.after.value];
      && MovedTree(t, u, r.dn, to) && Tidy(u) && WellShaped(u, scopes)
      && to !in t && UnderAny(to, scopes) && UnderAny(r.dn, scopes) && !Under(to, r.dn)
      && t[r.dn].dn == r.dn && ev.after.value.dn == to && MappingOf(ev) == Relocation(r.dn, to)
  {
    hide WellShaped, Siblings, UnderAny, Canonical, Stamped, Distinct, IsRename, AtOrUnder, MovedTree, Renamed,
        SameContext, MayRename;
    var e := ev.after.value;
    EntryInShape(t, scopes, r.dn);
    RenamedFacts(t, p, r, s, to);
    RenameIsFree(t, scopes, p, r, to);
    RenameTarget(t, scopes, r, to);
    RenameKeepsShape(t, moved, scopes, r.dn, to, e);
    TargetNotBelow(to, r.dn);
    ShapeIsTidy(moved[to := e], scopes);
  }

  /** A rename or move whose redirected values survive, in either order: exact when the overlooked keep their groups. */
  lemma MoveCommit(t: Tree, moved: Tree, z: Tree, scopes: seq<Name>, nested: bool, memberOfFirst: bool, p: Policy,
      r: Request, s: Stamp, ev: WriteEvent, to: Name)
    requires WellShaped(t, scopes) && Siblings(scopes) && Converged(t, scopes, nested) && r.ModifyDNRequest?
    requires r.dn != []
    requires ModifyDNCode(t, scopes, p, r) == Success && to == Target(r.newRdn, SuperiorOf(r).value) && to != r.dn
    requires IsRename(t, moved, r.dn, to) && SafeMove(t, scopes, r.dn, to)
    requires ev == WriteEvent(WriteRename, Some(t[r.dn]), Some(Stamped(Renamed(t, p, r, to), s.now, s.who)))
    requires PluginsRan(moved[to := ev.after.value], z, scopes, nested, memberOfFirst, ev)
    ensures Converged(z, scopes, nested) <==> OverlookedKeep(t, moved[to := ev.after.value], scopes, ev, nested)
  {
    hide WellShaped, Siblings, Converged, Ran, UnderAny, Canonical, Stamped, IsRename, SafeMove, SafeTree, AtOrUnder,
        MovedTree, Renamed, SameContext, MayRename, OverlookedKeep, Tidy, MappingOf;
    var u := moved[to := ev.after.value];
    var mid, seeds :| Ran(u, mid, z, seeds, scopes, nested, memberOfFirst, ev);
    MoveEdited(t, moved, scopes, p, r, s, ev, to);
    MoveStaysSafe(t, moved, scopes, p, r, s, to);
    MoveRan(t, u, mid, z, r.dn, to, ev, seeds, scopes, nested, memberOfFirst);
  }

  /** Any rename or move, in the server's plugin order. */
  lemma MoveCommitExact(t: Tree, moved: Tree, z: Tree, scopes: seq<Name>, nested: bool, p: Policy, r: Request,
      s: Stamp, ev: WriteEvent, to: Name)
    requires WellShaped(t, scopes) && Siblings(scopes) && Converged(t, scopes, nested) && r.ModifyDNRequest?
    requires r.dn != []
    requires ModifyDNCode(t, scopes, p, r) == Success && to == Target(r.newRdn, SuperiorOf(r).value) && to != r.dn
    requires IsRename(t, moved, r.dn, to)
    requires ev == WriteEvent(WriteRename, Some(t[r.dn]), Some(Stamped(Renamed(t, p, r, to), s.now, s.who)))
    requires PluginsRan(moved[to := ev.after.value], z, scopes, nested, true, ev)
    ensures Converged(z, scopes, nested) <==>
              KeepsExact(t, moved[to := ev.after.value], scopes, nested, r, ev)
  {
    hide WellShaped, Siblings, Converged, Ran, UnderAny, Canonical, Stamped, IsRename, AtOrUnder, MovedTree, Renamed,
        SameContext, MayRename, MoveKeeps, Tidy, MappingOf;
    var u := moved[to := ev.after.value];
    var mid, seeds :| Ran(u, mid, z, seeds, scopes, nested, true, ev);
    MoveEdited(t, moved, scopes, p, r, s, ev, to);
    MoveRanExactly(t, u, mid, z, r.dn, to, ev, seeds, scopes, nested);
  }

  lemma TargetNotBelow(to: Name, from: Name)
    requires |to| >= 2 && from != [] && !AtOrUnder(to[1..], from)
    ensures !Under(to, from)
  {
    ParentAtOrUnder(to, from);
  }

  lemma RenamedFacts(t: Tree, p: Policy, r: Request, s: Stamp, to: Name)
    requires r.ModifyDNRequest? && r.dn != [] && r.dn in t && t[r.dn].dn == r.dn && Distinct(t[r.dn].attrs)
    ensures var e := Stamped(Renamed(t, p, r, to), s.now, s.who); e.dn == to && Distinct(e.attrs)
  {
    hide Distinct, Canonical, Stamped, EditRdn, Watched, ValuesOf, NoNewValues;
    WatchedNames();
    EditRdnFacts(p.matches, t[r.dn].(dn := to), r.dn[0], r.newRdn, r.deleteOld, "memberOf");
    StampedFacts(Renamed(t, p, r, to), s.now, s.who, "memberOf");
  }

  /**
   * In the server's plugin order, every committed request, whatever it is: the memberOf sets
   * are exact afterwards if and only if its edit keeps them.
   */
  lemma CommitExact(t: Tree, u: Tree, z: Tree, scopes: seq<Name>, nested: bool, c: Call, ev: WriteEvent)
    requires WellShaped(t, scopes) && Siblings(scopes) && Converged(t, scopes, nested) && c.request.dn != []
    requires ProtectsMemberOf(c.policy) && Code(t, scopes, c.policy, c.request) == Success
    requires Edit(t, u, c.policy, c.request, c.stamp, ev) && PluginsRan(u, z, scopes, nested, true, ev)
    ensures Converged(z, scopes, nested) <==> KeepsExact(t, u, scopes, nested, c.request, ev)
  {
    hide WellShaped, Siblings, Converged, Canonical, AddCode, ModifyCode, DeleteCode, ModifyDNCode, PluginsRan,
        IsRename, ProtectsMemberOf, Stamped, StampedNew, ApplyChanges, EditRdn, KeepsExact;
    var p, r, s := c.policy, c.request, c.stamp;
    match r {
      case AddRequest(_, _) => AddCommitExact(t, u, z, scopes, nested, true, p, r, s, ev);
      case ModifyRequest(_, _, _) => ModifyCommitExact(t, u, z, scopes, nested, true, p, r, s, ev);
      case DeleteRequest(_) => DeleteCommitExact(t, u, z, scopes, nested, true, p, r, s, ev);
      case ModifyDNRequest(dn, newRdn, _, _) =>
        var to := Target(newRdn, SuperiorOf(r).value);
        var moved: Tree :| IsRename(t, moved, dn, to) && u == moved[to := ev.after.value];
        if to == dn {
          EntryInShape(t, scopes, dn);
          ShapeIsTidy(t, scopes);
          RenamedToItself(t, moved, dn);
          TouchCommit(t, u, z, scopes, nested, true, dn, s, ev);
          TouchKeeps(t, u, scopes, nested, r, ev);
        } else {
          MoveCommitExact(t, moved, z, scopes, nested, p, r, s, ev, to);
        }
    }
  }

  lemma TouchKeeps(t: Tree, u: Tree, scopes: seq<Name>, nested: bool, r: Request, ev: WriteEvent)
    requires r.ModifyDNRequest? && MappingOf(ev) == Identity
    ensures KeepsExact(t, u, scopes, nested, r, ev) <==> OverlookedKeep(t, u, scopes, ev, nested)
  {
    hide OverlookedKeep, MappingOf;
  }

  /**
   * In either plugin order, every committed clean request restores exactness for all entries,
   * although only the seeded ones were recomputed.
   */
  lemma CommitConverges(t: Tree, u: Tree, z: Tree, scopes: seq<Name>, nested: bool, memberOfFirst: bool, c: Call,
      ev: WriteEvent)
    requires WellShaped(t, scopes) && Siblings(scopes) && Converged(t, scopes, nested) && c.request.dn != []
    requires ProtectsMemberOf(c.policy) && Code(t, scopes, c.policy, c.request) == Success
    requires Edit(t, u, c.policy, c.request, c.stamp, ev) && PluginsRan(u, z, scopes, nested, memberOfFirst, ev)
    requires Clean(t, u, scopes, c.request, ev)
    ensures Converged(z, scopes, nested)
  {
    hide WellShaped, Siblings, Converged, Canonical, AddCode, ModifyCode, DeleteCode, ModifyDNCode, PluginsRan,
        IsRename, ProtectsMemberOf, Stamped, StampedNew, ApplyChanges, EditRdn, KeepsExact, Clean, OverlookedKeep;
    var p, r, s := c.policy, c.request, c.stamp;
    match r {
      case AddRequest(_, _) =>
        CleanAdd(t, u, scopes, nested, p, r, s, ev);
        AddCommitExact(t, u, z, scopes, nested, memberOfFirst, p, r, s, ev);
      case ModifyRequest(_, _, _) =>
        CleanModify(t, u, scopes, nested, p, r, s, ev);
        ModifyCommitExact(t, u, z, scopes, nested, memberOfFirst, p, r, s, ev);
      case DeleteRequest(_) =>
        CleanDelete(t, u, scopes, nested, p, r, s, ev);
        DeleteCommitExact(t, u, z, scopes, nested, memberOfFirst, p, r, s, ev);
      case ModifyDNRequest(dn, newRdn, _, _) =>
        var to := Target(newRdn, SuperiorOf(r).value);
        var moved: Tree :| IsRename(t, moved, dn, to) && u == moved[to := ev.after.value];
        if to == dn {
          EntryInShape(t, scopes, dn);
          ShapeIsTidy(t, scopes);
          RenamedToItself(t, moved, dn);
          TouchCommit(t, u, z, scopes, nested, memberOfFirst, dn, s, ev);
          CleanTouch(t, u, scopes, nested, dn, r, s, ev);
        } else {
          CleanMove(t, moved, scopes, nested, p, r, s, ev, to);
          MoveCommit(t, moved, z, scopes, nested, memberOfFirst, p, r, s, ev, to);
        }
    }
  }

  lemma CleanAdd(t: Tree, u: Tree, scopes: seq<Name>, nested: bool, p: Policy, r: Request, s: Stamp, ev: WriteEvent)
    requires WellShaped(t, scopes) && r.AddRequest? && r.dn != []
    requires AddCode(t, scopes, p, r) == Success && Edit(t, u, p, r, s, ev) && Clean(t, u, scopes, r, ev)
    ensures KeepsExact(t, u, scopes, nested, r, ev)
  {
    hide WellShaped, UnderAny, Canonical, StampedNew, Distinct, SpelledTree, Overlooked, GroupGraph, IsGroup,
        MemberNames, Pulled, SeedsOf, Watched;
    WatchedNames();
    StampedNewFacts(Entry(r.dn, r.attrs), s.uuid, s.now, s.who, "member");
    assert MappingOf(ev) == Identity && PutAt(t, u, r.dn);
    forall n ensures !Overlooked(t, u, scopes, ev, nested, n) {
      PutOverlooksNothing(t, u, r.dn, ev, scopes, nested, n);
    }
    if NamedInTree(u, scopes, r.dn) {
      var c :| c in u && UnderAny(c, scopes) && IsGroup(u[c]) && r.dn in MemberNames(u[c]);
      assert c == r.dn;
      GraphAt(u, scopes, c);
      SpelledFollows(u, scopes, Identity, c, c);
      SeededIsPulled(u, scopes, ev, nested, c);
    }
  }

  lemma CleanModify(t: Tree, u: Tree, scopes: seq<Name>, nested: bool, p: Policy, r: Request, s: Stamp, ev: WriteEvent)
    requires WellShaped(t, scopes) && r.ModifyRequest? && r.dn != []
    requires ModifyCode(t, p, r) == Success && Edit(t, u, p, r, s, ev) && Clean(t, u, scopes, r, ev)
    ensures KeepsExact(t, u, scopes, nested, r, ev)
  {
    hide WellShaped, UnderAny, Canonical, Stamped, Distinct, SpelledTree, Overlooked, ApplyChanges, Gate;
    EntryInShape(t, scopes, r.dn);
    ModifiedFacts(t, p, r, s);
    assert MappingOf(ev) == Identity && PutAt(t, u, r.dn);
    forall n ensures !Overlooked(t, u, scopes, ev, nested, n) {
      PutOverlooksNothing(t, u, r.dn, ev, scopes, nested, n);
    }
  }

  lemma CleanDelete(t: Tree, u: Tree, scopes: seq<Name>, nested: bool, p: Policy, r: Request, s: Stamp, ev: WriteEvent)
    requires WellShaped(t, scopes) && r.DeleteRequest? && r.dn != []
    requires Edit(t, u, p, r, s, ev) && Clean(t, u, scopes, r, ev)
    ensures KeepsExact(t, u, scopes, nested, r, ev)
  {
    hide WellShaped, UnderAny, Canonical, SpelledTree, Overlooked;
    EntryInShape(t, scopes, r.dn);
    forall n ensures !Overlooked(t, u, scopes, ev, nested, n) {
      DeleteOverlooksNothing(t, u, r.dn, ev, scopes, nested, n);
    }
  }

  lemma CleanTouch(t: Tree, u: Tree, scopes: seq<Name>, nested: bool, d: Name, r: Request, s: Stamp, ev: WriteEvent)
    requires WellShaped(t, scopes) && d in t && Clean(t, u, scopes, r, ev)
    requires u == t[d := Stamped(t[d], s.now, s.who)] && ev == WriteEvent(WriteRename, Some(t[d]), Some(u[d]))
    ensures OverlookedKeep(t, u, scopes, ev, nested)
  {
    hide WellShaped, UnderAny, Canonical, Stamped, Distinct, SpelledTree, Overlooked, Watched;
    EntryInShape(t, scopes, d);
    WatchedNames();
    StampedFacts(t[d], s.now, s.who, "member");
    assert MappingOf(ev) == Identity && PutAt(t, u, d);
    forall n ensures !Overlooked(t, u, scopes, ev, nested, n) {
      PutOverlooksNothing(t, u, d, ev, scopes, nested, n);
    }
  }

  lemma CleanMove(t: Tree, moved: Tree, scopes: seq<Name>, nested: bool, p: Policy, r: Request, s: Stamp,
      ev: WriteEvent, to: Name)
    requires WellShaped(t, scopes) && Siblings(scopes) && r.ModifyDNRequest? && r.dn != []
    requires ModifyDNCode(t, scopes, p, r) == Success && to == Target(r.newRdn, SuperiorOf(r).value) && to != r.dn
    requires IsRename(t, moved, r.dn, to)
    requires ev == WriteEvent(WriteRename, Some(t[r.dn]), Some(Stamped(Renamed(t, p, r, to), s.now, s.who)))
    requires Clean(t, moved[to := ev.after.value], scopes, r, ev)
    ensures SafeMove(t, scopes, r.dn, to)
    ensures OverlookedKeep(t, moved[to := ev.after.value], scopes, ev, nested)
  {
    hide WellShaped, Siblings, UnderAny, Canonical, Stamped, IsRename, SafeMove, AtOrUnder, MovedTree, Renamed, Tidy,
        SameContext, MayRename, Overlooked, SpelledTree, Apart, MappingOf;
    var u := moved[to := ev.after.value];
    MoveEdited(t, moved, scopes, p, r, s, ev, to);
    MoveIsApart(t, scopes, r.dn, to);
    forall n ensures !Overlooked(t, u, scopes, ev, nested, n) {
      MoveOverlooksNothing(t, u, r.dn, to, ev, scopes, nested, n);
    }
  }

  lemma RenamedToItself(t: Tree, moved: Tree, d: Name)
    requires IsRename(t, moved, d, d) && Tidy(t)
    ensures moved == t
  {
    hide Moved, Canonical, Distinct;
    forall x | x in t ensures Moved(x, d, d) == x {
      MovedToItself(x, d);
    }
  }

  lemma ShapeIsTidy(t: Tree, scopes: seq<Name>)
    requires WellShaped(t, scopes)
    ensures Tidy(t)
  {
  }

  // ---------------------------------------------------------------------------
  // Runs
  // ---------------------------------------------------------------------------

  /** A request takes t to z: it commits with its effect, or changes nothing. */
  ghost predicate Step(t: Tree, z: Tree, scopes: seq<Name>, nested: bool, memberOfFirst: bool, c: Call)
    requires c.request.dn != []
  {
    if Code(t, scopes, c.policy, c.request) == Success
    then Served(t, z, scopes, nested, memberOfFirst, c.policy, c.request, c.stamp)
    else z == t
  }

  ghost predicate IsRun(trees: seq<Tree>, calls: seq<Call>, scopes: seq<Name>, nested: bool, memberOfFirst: bool) {
    && |trees| == |calls| + 1
    && WellShaped(trees[0], scopes)
    && forall i :: 0 <= i < |calls| ==>
         calls[i].request.dn != [] && Step(trees[i], trees[i + 1], scopes, nested, memberOfFirst, calls[i])
  }

  /** The call is clean on t, whatever edit it makes. */
  ghost predicate CleanCall(t: Tree, scopes: seq<Name>, c: Call)
    requires c.request.dn != []
  {
    forall u, ev :: Edit(t, u, c.policy, c.request, c.stamp, ev) ==> Clean(t, u, scopes, c.request, ev)
  }

  /** In a run of clean requests from an exact tree, in either plugin order, every tree is exact. */
  lemma {:induction false} RunConverges(trees: seq<Tree>, calls: seq<Call>, scopes: seq<Name>, nested: bool,
      memberOfFirst: bool, n: nat)
    requires Siblings(scopes) && IsRun(trees, calls, scopes, nested, memberOfFirst)
    requires Converged(trees[0], scopes, nested)
    requires forall i :: 0 <= i < |calls| ==> ProtectsMemberOf(calls[i].policy) && CleanCall(trees[i], scopes, calls[i])
    requires n <= |calls|
    ensures Converged(trees[n], scopes, nested)
  {
    hide WellShaped, Siblings, Converged, Canonical, Code, Clean, ProtectsMemberOf, Edit, PluginsRan;
    if n > 0 {
      RunConverges(trees, calls, scopes, nested, memberOfFirst, n - 1);
      var t, z, c := trees[n - 1], trees[n], calls[n - 1];
      assert Step(t, z, scopes, nested, memberOfFirst, c);
      ShapeAlong(trees, calls, scopes, nested, memberOfFirst, n - 1);
      if Code(t, scopes, c.policy, c.request) == Success {
        var u, ev :| Edit(t, u, c.policy, c.request, c.stamp, ev)
            && PluginsRan(u, z, scopes, nested, memberOfFirst, ev);
        assert CleanCall(t, scopes, c);
        CommitConverges(t, u, z, scopes, nested, memberOfFirst, c, ev);
      }
    }
  }

  /** If the call commits on t, its edit keeps the memberOf sets exact. */
  ghost predicate ExactCall(t: Tree, scopes: seq<Name>, nested: bool, c: Call)
    requires c.request.dn != []
  {
    Code(t, scopes, c.policy, c.request) == Success ==>
      forall u, ev :: Edit(t, u, c.policy, c.request, c.stamp, ev) ==> KeepsExact(t, u, scopes, nested, c.request, ev)
  }

  /** A run of the server from an exact tree stays exact throughout if and only if every call keeps exactness. */
  lemma RunExact(trees: seq<Tree>, calls: seq<Call>, scopes: seq<Name>, nested: bool)
    requires Siblings(scopes) && IsRun(trees, calls, scopes, nested, true) && Converged(trees[0], scopes, nested)
    requires forall i :: 0 <= i < |calls| ==> ProtectsMemberOf(calls[i].policy)
    ensures (forall i :: 0 <= i <= |calls| ==> Converged(trees[i], scopes, nested)) <==>
              forall i :: 0 <= i < |calls| ==> ExactCall(trees[i], scopes, nested, calls[i])
  {
    hide WellShaped, Siblings, Converged, Canonical, ProtectsMemberOf, Step, ExactCall;
    if forall i :: 0 <= i <= |calls| ==> Converged(trees[i], scopes, nested) {
      forall i | 0 <= i < |calls| ensures ExactCall(trees[i], scopes, nested, calls[i]) {
        ShapeAlong(trees, calls, scopes, nested, true, i);
        StepExact(trees[i], trees[i + 1], scopes, nested, calls[i]);
      }
    }
    if forall i :: 0 <= i < |calls| ==> ExactCall(trees[i], scopes, nested, calls[i]) {
      for n := 0 to |calls|
        invariant forall i :: 0 <= i <= n ==> Converged(trees[i], scopes, nested)
      {
        ShapeAlong(trees, calls, scopes, nested, true, n);
        StepExact(trees[n], trees[n + 1], scopes, nested, calls[n]);
      }
    }
  }

  lemma StepExact(t: Tree, z: Tree, scopes: seq<Name>, nested: bool, c: Call)
    requires WellShaped(t, scopes) && Siblings(scopes) && Converged(t, scopes, nested) && c.request.dn != []
    requires ProtectsMemberOf(c.policy) && Step(t, z, scopes, nested, true, c)
    ensures Converged(z, scopes, nested) <==> ExactCall(t, scopes, nested, c)
  {
    hide WellShaped, Siblings, Converged, Canonical, Code, ProtectsMemberOf, Edit, PluginsRan, KeepsExact;
    if Code(t, scopes, c.policy, c.request) == Success {
      var u, ev :| Edit(t, u, c.policy, c.request, c.stamp, ev) && PluginsRan(u, z, scopes, nested, true, ev);
      CommitExact(t, u, z, scopes, nested, c, ev);
      forall u', ev' | Edit(t, u', c.policy, c.request, c.stamp, ev') ensures u' == u && ev' == ev {
        OneEdit(t, u, ev, u', ev', c);
      }
    }
  }

  /** A call makes one edit of a tree. */
  lemma OneEdit(t: Tree, u: Tree, ev: WriteEvent, u': Tree, ev': WriteEvent, c: Call)
    requires c.request.dn != [] && Edit(t, u, c.policy, c.request, c.stamp, ev)
    requires Edit(t, u', c.policy, c.request, c.stamp, ev')
    ensures u' == u && ev' == ev
  {
    hide Canonical, IsRename, Stamped, StampedNew, ApplyChanges, Renamed;
    if c.request.ModifyDNRequest? {
      var r := c.request;
      var to := Target(r.newRdn, SuperiorOf(r).value);
      var moved: Tree :| IsRename(t, moved, r.dn, to) && u == moved[to := ev.after.value];
      var moved': Tree :| IsRename(t, moved', r.dn, to) && u' == moved'[to := ev'.after.value];
      OneRename(t, moved, moved', r.dn, to);
    }
  }

  lemma OneRename(t: Tree, a: Tree, b: Tree, from: Name, to: Name)
    requires IsRename(t, a, from, to) && IsRename(t, b, from, to)
    ensures a == b
  {
    hide Canonical, Moved;
    assert a.Keys == b.Keys;
    forall x | x in a ensures a[x] == b[x] {
      var d :| d in t && Moved(d, from, to) == x;
    }
  }

  /** Along a run every entry keeps its parent, whatever was requested. */
  lemma {:induction false} ShapeAlong(trees: seq<Tree>, calls: seq<Call>, scopes: seq<Name>, nested: bool,
      memberOfFirst: bool, n: nat)
    requires Siblings(scopes) && IsRun(trees, calls, scopes, nested, memberOfFirst) && n <= |calls|
    ensures WellShaped(trees[n], scopes)
  {
    hide WellShaped, Siblings, Served, Code;
    if n > 0 {
      ShapeAlong(trees, calls, scopes, nested, memberOfFirst, n - 1);
      var c := calls[n - 1];
      assert Step(trees[n - 1], trees[n], scopes, nested, memberOfFirst, c);
      if Code(trees[n - 1], scopes, c.policy, c.request) == Success {
        CommitKeepsShape(trees[n - 1], trees[n], scopes, nested, memberOfFirst, c);
      }
    }
  }

  /** Every committed request keeps the shape of the tree. */
  lemma CommitKeepsShape(t: Tree, z: Tree, scopes: seq<Name>, nested: bool, memberOfFirst: bool, c: Call)
    requires WellShaped(t, scopes) && Siblings(scopes) && c.request.dn != []
    requires Code(t, scopes, c.policy, c.request) == Success
    requires Served(t, z, scopes, nested, memberOfFirst, c.policy, c.request, c.stamp)
    ensures WellShaped(z, scopes)
  {
    hide WellShaped, Siblings, Canonical, Code, PluginsRan, Edit;
    var u, ev :| Edit(t, u, c.policy, c.request, c.stamp, ev) && PluginsRan(u, z, scopes, nested, memberOfFirst, ev);
    EditKeepsShape(t, u, scopes, c, ev);
    PluginsKeepShape(u, z, scopes, nested, memberOfFirst, ev);
  }

  lemma EditKeepsShape(t: Tree, u: Tree, scopes: seq<Name>, c: Call, ev: WriteEvent)
    requires WellShaped(t, scopes) && Siblings(scopes) && c.request.dn != []
    requires Code(t, scopes, c.policy, c.request) == Success && Edit(t, u, c.policy, c.request, c.stamp, ev)
    ensures WellShaped(u, scopes)
  {
    hide WellShaped, Siblings, Canonical, AddCode, ModifyCode, DeleteCode, ModifyDNCode, IsRename, Stamped, StampedNew,
        ApplyChanges, EditRdn;
    var p, r, s := c.policy, c.request, c.stamp;
    match r {
      case AddRequest(_, _) => AddKeepsShape(t, scopes, p, r, s);
      case ModifyRequest(_, _, _) =>
        EntryInShape(t, scopes, r.dn);
        ModifiedFacts(t, p, r, s);
        PutKeepsShape(t, scopes, Modified(t, p, r, s));
      case DeleteRequest(dn) =>
        DeletedIsLeaf(t, p, r);
        DeleteKeepsShape(t, scopes, dn);
      case ModifyDNRequest(dn, newRdn, _, _) =>
        var to := Target(newRdn, SuperiorOf(r).value);
        var e := ev.after.value;
        var moved: Tree :| IsRename(t, moved, dn, to) && u == moved[to := e];
        EntryInShape(t, scopes, dn);
        RenamedFacts(t, p, r, s, to);
        if to == dn {
          ShapeIsTidy(t, scopes);
          RenamedToItself(t, moved, dn);
          PutKeepsShape(t, scopes, e);
        } else {
          MoveKeepsShape(t, moved, scopes, p, r, to, e);
        }
    }
  }

  lemma DeletedIsLeaf(t: Tree, p: Policy, r: Request)
    requires r.DeleteRequest? && r.dn != [] && DeleteCode(t, p, r) == Success
    ensures !HasEntryBelow(t, r.dn)
  {
    hide Canonical, HasKeyBelow, HasEntryBelow;
    if HasEntryBelow(t, r.dn) { EntryBelowHasKey(t, r.dn); }
  }

  lemma MoveKeepsShape(t: Tree, moved: Tree, scopes: seq<Name>, p: Policy, r: Request, to: Name, e: Entry)
    requires WellShaped(t, scopes) && Siblings(scopes) && r.ModifyDNRequest? && r.dn != []
    requires ModifyDNCode(t, scopes, p, r) == Success && to == Target(r.newRdn, SuperiorOf(r).value) && to != r.dn
    requires IsRename(t, moved, r.dn, to) && e.dn == to && Distinct(e.attrs)
    ensures WellShaped(moved[to := e], scopes)
  {
    hide WellShaped, Siblings, UnderAny, Canonical, Distinct, IsRename, AtOrUnder, MovedTree, Renamed, SameContext,
        MayRename;
    RenameIsFree(t, scopes, p, r, to);
    RenameTarget(t, scopes, r, to);
    RenameKeepsShape(t, moved, scopes, r.dn, to, e);
  }

  /** The caller lacks a right the request needs. */
  predicate Denied(p: Policy, r: Request) {
    match r
    case AddRequest(dn, _) => !p.allowed(dn, "", AddPerm)
    case ModifyRequest(dn, changes, _) => Gate(p, dn, changes) == InsufficientAccessRights
    case DeleteRequest(dn) => !p.allowed(dn, "", DeletePerm)
    case ModifyDNRequest(dn, _, _, _) => !p.allowed(dn, "", EntryWriteNotDenied)
  }

  /** The answer to a denied Add, Modify or Delete says nothing about the directory. */
  lemma DenialHidesTree(t1: Tree, t2: Tree, scopes: seq<Name>, p: Policy, r: Request)
    requires r.dn != [] && Denied(p, r) && !r.ModifyDNRequest?
    ensures Code(t1, scopes, p, r) == Code(t2, scopes, p, r)
  {
    hide UnderAny, AtOrUnder, Canonical, Distinct, SameContext;
  }

  /** The caller may learn that the entry, or the new parent of a move, does not exist, and it does not. */
  ghost predicate ShowsMissing(t: Tree, p: Policy, r: Request)
    requires r.ModifyDNRequest? && r.dn != [] && SuperiorOf(r).Some?
  {
    var sup := SuperiorOf(r).value;
    if r.dn !in t then p.allowed(r.dn, "", ExistencePerm)
    else
      && !AtOrUnder(sup, r.dn) && !ShowsTaken(t, r) && sup !in t
      && (Some(sup) != Parent(r.dn) ==> p.allowed(sup, "", ExistencePerm))
  }

  /** The entry exists, and the new name belongs to another one. */
  ghost predicate ShowsTaken(t: Tree, r: Request)
    requires r.ModifyDNRequest? && r.dn != [] && SuperiorOf(r).Some?
  {
    var sup := SuperiorOf(r).value;
    var to := Target(r.newRdn, sup);
    r.dn in t && !AtOrUnder(sup, r.dn) && to != r.dn && to in t
  }

  /** The entry exists, and the move would put it below itself. */
  ghost predicate ShowsLoop(t: Tree, r: Request)
    requires r.ModifyDNRequest? && SuperiorOf(r).Some?
  {
    r.dn in t && AtOrUnder(SuperiorOf(r).value, r.dn)
  }

  /**
   * What a denied ModifyDN, which looks names up before it checks rights, tells of the
   * directory, exactly: nothing when its place is refused already; else whether the entry is
   * missing, whether the move would be into itself, and whether the new name is taken.
   */
  lemma DeniedModifyDN(t1: Tree, t2: Tree, scopes: seq<Name>, p: Policy, r: Request)
    requires r.ModifyDNRequest? && r.dn != [] && Denied(p, r)
    ensures Code(t1, scopes, p, r) == Code(t2, scopes, p, r) <==>
              PlaceCode(scopes, r) != Success
              || ((ShowsMissing(t1, p, r) <==> ShowsMissing(t2, p, r))
                  && (ShowsTaken(t1, r) <==> ShowsTaken(t2, r)) && (ShowsLoop(t1, r) <==> ShowsLoop(t2, r)))
  {
    hide UnderAny, AtOrUnder, Canonical, Distinct, SameContext, Renamed;
    if PlaceCode(scopes, r) == Success {
      DeniedCode(t1, scopes, p, r);
      DeniedCode(t2, scopes, p, r);
    }
  }

  lemma DeniedCode(t: Tree, scopes: seq<Name>, p: Policy, r: Request)
    requires r.ModifyDNRequest? && r.dn != [] && Denied(p, r) && PlaceCode(scopes, r) == Success
    ensures Code(t, scopes, p, r) ==
            if ShowsMissing(t, p, r) then ResultCode.NoSuchObject
            else if ShowsLoop(t, r) then UnwillingToPerform
            else if ShowsTaken(t, r) then EntryAlreadyExists
            else InsufficientAccessRights
  {
    hide UnderAny, AtOrUnder, Canonical, Distinct, SameContext, Renamed;
  }

  /** So entries' contents, and all names but those of the entry, its new place and its new parent, stay hidden. */
  lemma DeniedModifyDNHides(t1: Tree, t2: Tree, scopes: seq<Name>, p: Policy, r: Request)
    requires r.ModifyDNRequest? && r.dn != [] && Denied(p, r)
    requires SuperiorOf(r).Some? ==>
               var sup := SuperiorOf(r).value;
               && (r.dn in t1 <==> r.dn in t2) && (sup in t1 <==> sup in t2)
               && (Target(r.newRdn, sup) in t1 <==> Target(r.newRdn, sup) in t2)
    ensures Code(t1, scopes, p, r) == Code(t2, scopes, p, r)
  {
    hide UnderAny, AtOrUnder, Canonical, Distinct, SameContext, Renamed, Code;
    DeniedModifyDN(t1, t2, scopes, p, r);
    PlaceHasSuperior(scopes, r);
  }

  lemma PlaceHasSuperior(scopes: seq<Name>, r: Request)
    requires r.ModifyDNRequest? && r.dn != []
    ensures PlaceCode(scopes, r) == Success ==> SuperiorOf(r).Some?
  {
    hide UnderAny, SameContext;
  }

  // ---------------------------------------------------------------------------
  // The running server
  // ---------------------------------------------------------------------------

  /** Dispatches one request. */
  method Handle(server: Server, c: Call) returns (code: ResultCode)
    requires server.Valid() && Parsed(c.request)
    modifies server.store
    ensures server.Valid() && server.store.closed == old(server.store.closed)
    ensures code == Success ==> Code(old(server.store.Tree()), server.scopes, c.policy, c.request) == Success
    ensures !server.store.closed ==> code == Code(old(server.store.Tree()), server.scopes, c.policy, c.request)
    ensures code != Success ==> server.store.entries == old(server.store.entries)
    ensures code == Success ==>
              Served(old(server.store.Tree()), server.store.Tree(), server.scopes, server.nested,
                  server.memberOfFirst, c.policy, c.request, c.stamp)
    ensures !server.store.closed ==>
              Step(old(server.store.Tree()), server.store.Tree(), server.scopes, server.nested, server.memberOfFirst, c)
  {
    hide TreeOf, Keyed, Canonical, WellShaped, Siblings, Served, UnderAny, AddCode, ModifyCode, DeleteCode,
        ModifyDNCode, PlaceCode;
    match c.request {
      case AddRequest(_, _) =>
        AddOutsideSuffix(server.store.Tree(), server.scopes, c.policy, c.request);
        code := server.Add(c.policy, c.request, c.stamp);
      case ModifyRequest(_, _, _) => code := server.Modify(c.policy, c.request, c.stamp);
      case DeleteRequest(_) => code := server.Delete(c.policy, c.request, c.stamp);
      case ModifyDNRequest(_, _, _, _) =>
        PlaceFirst(server.store.Tree(), server.scopes, c.policy, c.request);
        code := server.ModifyDN(c.policy, c.request, c.stamp);
    }
  }

  /** An open server goes through runs and nothing else. */
  method HandleAll(server: Server, calls: seq<Call>) returns (ghost trees: seq<Tree>)
    requires server.Valid() && !server.store.closed && forall i :: 0 <= i < |calls| ==> Parsed(calls[i].request)
    modifies server.store
    ensures server.Valid() && IsRun(trees, calls, server.scopes, server.nested, server.memberOfFirst)
    ensures trees[0] == old(server.store.Tree()) && trees[|calls|] == server.store.Tree()
  {
    hide TreeOf, Keyed, Canonical, WellShaped, Siblings, Step, RunSoFar, IsRun, Parsed, Code, Served;
    trees := [server.store.Tree()];
    StartsRun(trees, calls, server);
    for i := 0 to |calls|
      invariant Serving(server, trees, calls, i) && trees[0] == old(server.store.Tree())
    {
      trees := HandleNext(server, calls, i, trees);
    }
    RunIsOver(trees, calls, server.scopes, server.nested, server.memberOfFirst);
  }

  /** An open server that has gone through the first n calls. */
  ghost predicate Serving(server: Server, trees: seq<Tree>, calls: seq<Call>, n: nat)
    reads server, server.store
  {
    && server.Valid() && !server.store.closed && |trees| == n + 1 && trees[n] == server.store.Tree()
    && RunSoFar(trees, calls, n, server.scopes, server.nested, server.memberOfFirst)
  }

  method HandleNext(server: Server, calls: seq<Call>, n: nat, ghost trees: seq<Tree>) returns (ghost more: seq<Tree>)
    requires n < |calls| && Parsed(calls[n].request) && Serving(server, trees, calls, n)
    modifies server.store
    ensures Serving(server, more, calls, n + 1) && more[0] == trees[0]
  {
    hide TreeOf, Keyed, Canonical, WellShaped, Siblings, Step, RunSoFar, Parsed, Code, Served;
    var code := Handle(server, calls[n]);
    RunGoesOn(trees, calls, n, server.scopes, server.nested, server.memberOfFirst, server.store.Tree());
    more := trees + [server.store.Tree()];
  }

  /** The first n calls took trees this far. */
  ghost predicate RunSoFar(trees: seq<Tree>, calls: seq<Call>, n: nat, scopes: seq<Name>, nested: bool,
      memberOfFirst: bool) {
    && n <= |calls| && |trees| == n + 1 && WellShaped(trees[0], scopes)
    && forall i :: 0 <= i < n ==>
         calls[i].request.dn != [] && Step(trees[i], trees[i + 1], scopes, nested, memberOfFirst, calls[i])
  }

  lemma StartsRun(trees: seq<Tree>, calls: seq<Call>, server: Server)
    requires server.Valid() && trees == [server.store.Tree()]
    ensures RunSoFar(trees, calls, 0, server.scopes, server.nested, server.memberOfFirst)
  {
    hide TreeOf, Keyed, Canonical, WellShaped, Siblings, Step;
  }

  lemma RunGoesOn(trees: seq<Tree>, calls: seq<Call>, n: nat, scopes: seq<Name>, nested: bool, memberOfFirst: bool,
      z: Tree)
    requires RunSoFar(trees, calls, n, scopes, nested, memberOfFirst) && n < |calls| && Parsed(calls[n].request)
    requires Step(trees[n], z, scopes, nested, memberOfFirst, calls[n])
    ensures RunSoFar(trees + [z], calls, n + 1, scopes, nested, memberOfFirst)
  {
    hide Canonical, WellShaped, Step;
  }

  lemma RunIsOver(trees: seq<Tree>, calls: seq<Call>, scopes: seq<Name>, nested: bool, memberOfFirst: bool)
    requires RunSoFar(trees, calls, |calls|, scopes, nested, memberOfFirst)
    ensures IsRun(trees, calls, scopes, nested, memberOfFirst)
  {
    hide Canonical, WellShaped, Step;
  }

  lemma AddOutsideSuffix(t: Tree, scopes: seq<Name>, p: Policy, r: Request)
    requires r.AddRequest?
    ensures !UnderAny(r.dn, scopes) ==> AddCode(t, scopes, p, r) == ResultCode.NoSuchObject
  {
  }

  lemma PlaceFirst(t: Tree, scopes: seq<Name>, p: Policy, r: Request)
    requires r.ModifyDNRequest? && r.dn != []
    ensures PlaceCode(scopes, r) != Success ==> ModifyDNCode(t, scopes, p, r) == PlaceCode(scopes, r)
  {
  }

  /** Recomputes every managed entry in a transaction of its own. */
  method Fixup(server: Server) returns (done: bool)
    requires server.Valid()
    modifies server.store
    ensures server.Valid() && server.store.closed == old(server.store.closed) && done == !server.store.closed
    ensures done ==> Converged(server.store.Tree(), server.scopes, server.nested)
    ensures done && old(Converged(server.store.Tree(), server.scopes, server.nested)) ==>
              SameMemberOf(old(server.store.Tree()), server.store.Tree())
    ensures !done ==> server.store.entries == old(server.store.entries)
  {
    hide TreeOf, Keyed, Canonical, WellShaped, Siblings, Recomputed, Converged, SameMemberOf, UnderAny, GroupGraph;
    if server.store.closed {
      return false;
    }
    ghost var t := server.store.Tree();
    ShapeIsTidy(t, server.scopes);
    ShapeCovers(t, server.scopes);
    var tx := new Tx(server.store.entries);
    server.groups.FixupIn(tx);
    ghost var all := set d | d in t && UnderAny(d, server.scopes);
    RecomputedKeepsShape(t, tx.Tree(), server.scopes, GroupGraph(t, server.scopes, Identity), server.nested, all);
    FixupConverges(t, tx.Tree(), server.scopes, server.nested);
    FixupAfterRun(t, tx.Tree(), server.scopes, server.nested);
    server.store.entries := tx.entries;
    done := true;
  }

  ghost predicate SameMemberOf(t: Tree, t': Tree) {
    t'.Keys == t.Keys && forall d :: d in t ==> MemberOfNames(t'[d]) == MemberOfNames(t[d])
  }

  lemma FixupAfterRun(t: Tree, t': Tree, scopes: seq<Name>, nested: bool)
    requires Recomputed(t, t', GroupGraph(t, scopes, Identity), nested, set d | d in t && UnderAny(d, scopes))
    ensures Converged(t, scopes, nested) ==> SameMemberOf(t, t')
  {
    hide Recomputed, Converged, UnderAny, GroupGraph, MemberOfNames;
    if Converged(t, scopes, nested) {
      FixupChangesNothing(t, t', scopes, nested);
    }
  }
}
