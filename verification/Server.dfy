// The write handlers of the server. Each runs in one update transaction together with
// the plugins; the store changes as a whole, or not at all.
module Servers {
  import opened Text
  import opened Names
  import opened Entries
  import opened Stores
  import opened Graphs
  import opened MemberOf
  import opened RefInt
  import opened Changes
  import opened Convergence
  import opened Writes

  datatype Request =
    | AddRequest(dn: Name, attrs: seq<Attr>)
    | ModifyRequest(dn: Name, changes: seq<Change>, assertion: Option<Entry -> bool>)
    | DeleteRequest(dn: Name)
    | ModifyDNRequest(dn: Name, newRdn: CRdn, newSuperior: Option<Name>, deleteOld: bool)

  /** What a committed request stamps on the entry it writes. */
  datatype Stamp = Stamp(uuid: string, now: string, who: string)

  /** A parsed request names an entry. */
  predicate Parsed(r: Request) { r.dn != [] && (r.ModifyDNRequest? ==> r.newSuperior != Some([])) }

  // ---------------------------------------------------------------------------
  // Outcomes: the first failing gate decides the result code
  // ---------------------------------------------------------------------------

  ghost function AddCode(t: Tree, scopes: seq<Name>, p: Policy, r: Request): ResultCode
    requires r.AddRequest?
  {
    if !UnderAny(r.dn, scopes) then ResultCode.NoSuchObject
    else if !p.allowed(r.dn, "", AddPerm) then InsufficientAccessRights
    else if r.dn !in scopes && Parent(r.dn).None? then InvalidDNSyntax
    else if r.dn !in scopes && Parent(r.dn).value !in t then ResultCode.NoSuchObject
    else if exists i :: 0 <= i < |r.attrs| && !p.modifiable(r.attrs[i].name) then ConstraintViolation
    else if !Distinct(r.attrs) || !p.schemaOk(Entry(r.dn, r.attrs)) then ObjectClassViolation
    else if r.dn in t then EntryAlreadyExists
    else Success
  }

  /** The first change the caller may not make. */
  function Gate(p: Policy, dn: Name, changes: seq<Change>): ResultCode {
    if changes == [] then Success
    else if !p.allowed(dn, changes[0].attr.name, WritePerm) then InsufficientAccessRights
    else if !p.modifiable(changes[0].attr.name) then ConstraintViolation
    else Gate(p, dn, changes[1..])
  }

  function ApplyChanges(m: Matcher, e: Entry, changes: seq<Change>): Edited
    decreases changes
  {
    if changes == [] then Edited(e)
    else
      var r := ApplyChange(m, e, changes[0]);
      if r.Refused? then r else ApplyChanges(m, r.entry, changes[1..])
  }

  function CodeOf(f: Failure): ResultCode {
    match f
    case NoSuchAttribute => NoSuchAttributeOrValue
    case AttributeOrValueExists => ResultCode.AttributeOrValueExists
  }

  ghost function ModifyCode(t: Tree, p: Policy, r: Request): ResultCode
    requires r.ModifyRequest?
  {
    var gate := Gate(p, r.dn, r.changes);
    if gate != Success then gate
    else if r.dn !in t then ResultCode.NoSuchObject
    else if r.assertion.Some? && !r.assertion.value(t[r.dn]) then AssertionFailed
    else
      var edited := ApplyChanges(p.matches, t[r.dn], r.changes);
      if edited.Refused? then CodeOf(edited.failure)
      else if !p.schemaOk(edited.entry) then ObjectClassViolation
      else Success
  }

  ghost function DeleteCode(t: Tree, p: Policy, r: Request): ResultCode
    requires r.DeleteRequest?
  {
    if !p.allowed(r.dn, "", DeletePerm) then InsufficientAccessRights
    else if r.dn !in t then ResultCode.NoSuchObject
    else if HasKeyBelow(t, r.dn) then NotAllowedOnNonLeaf
    else Success
  }

  /** Both names belong to the same managed suffix. */
  predicate SameContext(a: Name, b: Name, scopes: seq<Name>) {
    exists i :: 0 <= i < |scopes| && AtOrUnder(a, scopes[i]) && AtOrUnder(b, scopes[i])
  }

  function Missing(p: Policy, d: Name): ResultCode {
    if p.allowed(d, "", ExistencePerm) then ResultCode.NoSuchObject else InsufficientAccessRights
  }

  /** The new parent of a ModifyDN. */
  function SuperiorOf(r: Request): Option<Name>
    requires r.ModifyDNRequest?
  {
    if r.newSuperior.Some? then r.newSuperior else Parent(r.dn)
  }

  function Target(newRdn: CRdn, superior: Name): Name { [newRdn] + superior }

  predicate MayRename(p: Policy, dn: Name, newAttr: string, oldAttr: string, deleteOld: bool) {
    p.allowed(dn, "", EntryWriteNotDenied) && p.allowed(dn, newAttr, WritePerm)
        && (deleteOld ==> p.allowed(dn, oldAttr, WritePerm))
  }

  /** The gates before the transaction. */
  function PlaceCode(scopes: seq<Name>, r: Request): ResultCode
    requires r.ModifyDNRequest? && r.dn != []
  {
    var sup := SuperiorOf(r);
    if sup.None? || r.dn in scopes then UnwillingToPerform
    else if !UnderAny(r.dn, scopes) || !UnderAny(sup.value, scopes) then UnwillingToPerform
    else if Some(sup.value) != Parent(r.dn) && !SameContext(r.dn, sup.value, scopes) then AffectsMultipleDSAs
    else Success
  }

  ghost function ModifyDNCode(t: Tree, scopes: seq<Name>, p: Policy, r: Request): ResultCode
    requires r.ModifyDNRequest? && r.dn != []
  {
    if PlaceCode(scopes, r) != Success then PlaceCode(scopes, r)
    else
      var sup := SuperiorOf(r).value;
      var to := Target(r.newRdn, sup);
      var move := Some(sup) != Parent(r.dn);
      if r.dn !in t then Missing(p, r.dn)
      else if AtOrUnder(sup, r.dn) then UnwillingToPerform
      else if to != r.dn && to in t then EntryAlreadyExists
      else if sup !in t then if move then Missing(p, sup) else ResultCode.NoSuchObject
      else if move && !p.allowed(sup, "", ModDNPerm) then InsufficientAccessRights
      else if !MayRename(p, r.dn, r.newRdn.attr, r.dn[0].attr, r.deleteOld) then InsufficientAccessRights
      else if !p.modifiable(r.newRdn.attr) then ConstraintViolation
      else if !p.schemaOk(Renamed(t, p, r, to)) then ObjectClassViolation
      else Success
  }

  /** The renamed entry before it is stamped. */
  ghost function Renamed(t: Tree, p: Policy, r: Request, to: Name): Entry
    requires r.ModifyDNRequest? && r.dn != [] && r.dn in t
  {
    if to == r.dn then t[r.dn] else EditRdn(p.matches, t[r.dn].(dn := to), r.dn[0], r.newRdn, r.deleteOld)
  }

  ghost function Code(t: Tree, scopes: seq<Name>, p: Policy, r: Request): ResultCode
    requires r.dn != []
  {
    match r
    case AddRequest(_, _) => AddCode(t, scopes, p, r)
    case ModifyRequest(_, _, _) => ModifyCode(t, p, r)
    case DeleteRequest(_) => DeleteCode(t, p, r)
    case ModifyDNRequest(_, _, _, _) => ModifyDNCode(t, scopes, p, r)
  }

  // ---------------------------------------------------------------------------
  // Effects
  // ---------------------------------------------------------------------------

  /** The plugins took the edited tree u to z. */
  ghost predicate PluginsRan(u: Tree, z: Tree, scopes: seq<Name>, nested: bool, memberOfFirst: bool, ev: WriteEvent) {
    exists mid: Tree, seeds: set<Name> :: Ran(u, mid, z, seeds, scopes, nested, memberOfFirst, ev)
  }

  /** u is t after the request's own edit, which the plugins learn about through ev. */
  ghost predicate Edit(t: Tree, u: Tree, p: Policy, r: Request, s: Stamp, ev: WriteEvent)
    requires r.dn != []
  {
    match r
    case AddRequest(dn, attrs) =>
      var e := StampedNew(Entry(dn, attrs), s.uuid, s.now, s.who);
      u == t[dn := e] && ev == WriteEvent(WriteAdd, None, Some(e))
    case ModifyRequest(dn, changes, _) =>
      dn in t && ApplyChanges(p.matches, t[dn], changes).Edited? &&
      var e := Stamped(ApplyChanges(p.matches, t[dn], changes).entry, s.now, s.who);
      u == t[dn := e] && ev == WriteEvent(WriteModify, Some(t[dn]), Some(e))
    case DeleteRequest(dn) =>
      dn in t && u == t - {dn} && ev == WriteEvent(WriteDelete, Some(t[dn]), None)
    case ModifyDNRequest(dn, newRdn, _, _) =>
      dn in t && SuperiorOf(r).Some? &&
      var to := Target(newRdn, SuperiorOf(r).value);
      var e := Stamped(Renamed(t, p, r, to), s.now, s.who);
      ev == WriteEvent(WriteRename, Some(t[dn]), Some(e))
      && exists moved: Tree :: IsRename(t, moved, dn, to) && u == moved[to := e]
  }

  // ---------------------------------------------------------------------------
  // What the edits keep
  // ---------------------------------------------------------------------------

  lemma AddKeepsShape(t: Tree, scopes: seq<Name>, p: Policy, r: Request, s: Stamp)
    requires WellShaped(t, scopes) && r.AddRequest? && r.dn != [] && AddCode(t, scopes, p, r) == Success
    ensures var e := StampedNew(Entry(r.dn, r.attrs), s.uuid, s.now, s.who);
      e.dn == r.dn && WellShaped(t[r.dn := e], scopes)
  {
    hide UnderAny, Distinct, StampedNew, Canonical, Watched, WellShaped;
    WatchedNames();
    StampedNewFacts(Entry(r.dn, r.attrs), s.uuid, s.now, s.who, "member");
    ChildKeepsShape(t, scopes, StampedNew(Entry(r.dn, r.attrs), s.uuid, s.now, s.who));
  }

  /** An entry below an existing one, or at a suffix, keeps the shape. */
  lemma ChildKeepsShape(t: Tree, scopes: seq<Name>, e: Entry)
    requires WellShaped(t, scopes) && e.dn != [] && Distinct(e.attrs) && UnderAny(e.dn, scopes)
    requires e.dn in scopes || (|e.dn| >= 2 && e.dn[1..] in t)
    ensures WellShaped(t[e.dn := e], scopes)
  {
    hide UnderAny, Distinct, Canonical;
  }

  lemma WatchedNames()
    ensures Watched("member") && Watched("uniqueMember") && Watched("memberOf") && Watched("objectClass")
  {
  }

  /** No client change reaches memberOf. */
  lemma {:induction false} ApplyChangesFacts(p: Policy, e: Entry, changes: seq<Change>)
    requires Distinct(e.attrs) && ApplyChanges(p.matches, e, changes).Edited?
    ensures var e' := ApplyChanges(p.matches, e, changes).entry; Distinct(e'.attrs) && e'.dn == e.dn
    ensures ProtectsMemberOf(p) && Gate(p, e.dn, changes) == Success ==>
              Values(ApplyChanges(p.matches, e, changes).entry, "memberOf") == Values(e, "memberOf")
    decreases changes
  {
    hide Distinct, ApplyChange, ValuesOf, EqualFold;
    if changes != [] {
      ChangeFacts(p.matches, e, changes[0], "memberOf");
      ApplyChangesFacts(p, ApplyChange(p.matches, e, changes[0]).entry, changes[1..]);
    }
  }

  /** The entry a modification writes. */
  ghost function Modified(t: Tree, p: Policy, r: Request, s: Stamp): Entry
    requires r.ModifyRequest? && r.dn in t && ApplyChanges(p.matches, t[r.dn], r.changes).Edited?
  {
    Stamped(ApplyChanges(p.matches, t[r.dn], r.changes).entry, s.now, s.who)
  }

  lemma ModifiedFacts(t: Tree, p: Policy, r: Request, s: Stamp)
    requires r.ModifyRequest? && r.dn in t && t[r.dn].dn == r.dn && Distinct(t[r.dn].attrs)
    requires ApplyChanges(p.matches, t[r.dn], r.changes).Edited?
    ensures var e := Modified(t, p, r, s);
      && e.dn == r.dn && Distinct(e.attrs)
      && (ProtectsMemberOf(p) && Gate(p, r.dn, r.changes) == Success ==> MemberOfNames(e) == MemberOfNames(t[r.dn]))
  {
    hide Distinct, Stamped, Canonical, Watched, ValuesOf, ApplyChanges, Gate, NamesIn;
    WatchedNames();
    ApplyChangesFacts(p, t[r.dn], r.changes);
    StampedFacts(ApplyChanges(p.matches, t[r.dn], r.changes).entry, s.now, s.who, "memberOf");
  }

  lemma PutKeepsShape(t: Tree, scopes: seq<Name>, e: Entry)
    requires WellShaped(t, scopes) && e.dn in t && Distinct(e.attrs)
    ensures WellShaped(t[e.dn := e], scopes)
  {
    hide UnderAny, Distinct, Canonical;
  }

  lemma ParentIsAbove(d: Name)
    requires |d| >= 2
    ensures Under(d, d[1..])
  {
  }

  lemma DeleteKeepsShape(t: Tree, scopes: seq<Name>, d: Name)
    requires WellShaped(t, scopes) && d in t && !HasEntryBelow(t, d)
    ensures WellShaped(t - {d}, scopes)
  {
    hide UnderAny, Distinct, Canonical, Under;
    var u := t - {d};
    forall x | x in u && x !in scopes ensures |x| >= 2 && x[1..] in u {
      ParentIsAbove(x);
    }
  }

  /** The checks of ModifyDN make the subtree rename legal. */
  lemma RenameIsFree(t: Tree, scopes: seq<Name>, p: Policy, r: Request, to: Name)
    requires WellShaped(t, scopes) && Siblings(scopes) && r.ModifyDNRequest? && r.dn != [] && r.dn in t
    requires PlaceCode(scopes, r) == Success && to == Target(r.newRdn, SuperiorOf(r).value)
    requires to == r.dn || to !in t
    ensures UnderAny(to, scopes) && CanMove(t, r.dn, to)
  {
    var sup := SuperiorOf(r).value;
    var i :| 0 <= i < |scopes| && AtOrUnder(sup, scopes[i]);
    assert to[1..] == sup;
    ParentAtOrUnder(to, scopes[i]);
    hide UnderAny, WellShaped, Siblings, AtOrUnder, Canonical, Moved;
    if to != r.dn {
      forall d | d in t && AtOrUnder(d, r.dn) ensures Moved(d, r.dn, to) !in t {
        RebaseUnder(d, r.dn, to);
        if Moved(d, r.dn, to) in t {
          NothingBelowFreeName(t, scopes, Moved(d, r.dn, to), to);
        }
      }
    }
  }

  /** A subtree rename under an existing entry keeps every parent present. */
  lemma RenameKeepsShape(t: Tree, moved: Tree, scopes: seq<Name>, from: Name, to: Name, e: Entry)
    requires WellShaped(t, scopes) && Siblings(scopes) && IsRename(t, moved, from, to)
    requires from in t && from !in scopes && UnderAny(from, scopes) && UnderAny(to, scopes)
    requires |to| >= 2 && to[1..] in t && !AtOrUnder(to[1..], from)
    requires e.dn == to && Distinct(e.attrs)
    ensures MovedTree(t, moved[to := e], from, to) && WellShaped(moved[to := e], scopes)
  {
    hide UnderAny, Distinct, Canonical, AtOrUnder, Moved, IsRename, MovedTree, Siblings;
    var u := moved[to := e];
    EntryInShape(t, scopes, from);
    RenamedTree(t, moved, from, to, e);
    ShapedTidy(t, scopes);
    RenamedTidy(t, moved, from, to, e);
    forall x | x in u ensures UnderAny(x, scopes) && (x in scopes || (|x| >= 2 && x[1..] in u)) {
      ParentPresent(t, u, scopes, from, to, x);
    }
  }

  lemma ShapedTidy(t: Tree, scopes: seq<Name>)
    requires WellShaped(t, scopes)
    ensures Tidy(t)
  {
  }

  lemma RenamedTree(t: Tree, moved: Tree, from: Name, to: Name, e: Entry)
    requires from != [] && from in t && IsRename(t, moved, from, to)
    ensures MovedTree(t, moved[to := e], from, to)
  {
    hide Moved, Canonical;
    RootMoves(from, to);
  }

  lemma RenamedTidy(t: Tree, moved: Tree, from: Name, to: Name, e: Entry)
    requires Tidy(t) && from != [] && to != [] && IsRename(t, moved, from, to) && e.dn == to && Distinct(e.attrs)
    ensures Tidy(moved[to := e])
  {
    hide Moved, Canonical, Distinct;
    forall x | x in moved ensures x != [] && moved[x].dn == x && Distinct(moved[x].attrs) {
      var d :| d in t && Moved(d, from, to) == x;
      MovedNotEmpty(d, from, to);
    }
  }

  lemma MovedNotEmpty(d: Name, from: Name, to: Name)
    requires d != [] && to != []
    ensures Moved(d, from, to) != []
  {
  }

  lemma ParentPresent(t: Tree, u: Tree, scopes: seq<Name>, from: Name, to: Name, x: Name)
    requires WellShaped(t, scopes) && Siblings(scopes) && MovedTree(t, u, from, to) && x in u
    requires from != [] && from !in scopes && UnderAny(from, scopes) && UnderAny(to, scopes)
    requires |to| >= 2 && to[1..] in t && !AtOrUnder(to[1..], from)
    ensures UnderAny(x, scopes) && (x in scopes || (|x| >= 2 && x[1..] in u))
  {
    hide UnderAny, Distinct, Canonical, AtOrUnder, Moved, Siblings, WellShaped;
    var d :| d in t && Moved(d, from, to) == x;
    MovedParent(t, scopes, from, to, d);
    if d != from && d !in scopes { assert Moved(d[1..], from, to) in u; }
    if d == from { assert Moved(to[1..], from, to) in u; }
  }

  lemma RootMoves(from: Name, to: Name)
    requires from != []
    ensures Moved(from, from, to) == to
  {
    assert from[|from| - |from|..] == from && from[..0] + to == to;
  }

  /** The parent of a moved entry is the moved parent. */
  lemma MovedParent(t: Tree, scopes: seq<Name>, from: Name, to: Name, d: Name)
    requires WellShaped(t, scopes) && Siblings(scopes) && from != [] && from !in scopes && UnderAny(from, scopes)
    requires UnderAny(to, scopes) && |to| >= 2 && !AtOrUnder(to[1..], from) && d in t
    ensures var x := Moved(d, from, to);
      && UnderAny(x, scopes) && Moved(to[1..], from, to) == to[1..]
      && (d == from ==> x == to)
      && (d in scopes ==> x == d)
      && (d != from && d !in scopes ==> |d| >= 2 && d[1..] in t && |x| >= 2 && x[1..] == Moved(d[1..], from, to))
  {
    hide UnderAny, AtOrUnder, Moved, Siblings, Distinct, Canonical;
    RootMoves(from, to);
    if AtOrUnder(d, from) {
      if d in scopes { NoSuffixBelow(scopes, d, from); }
      RebaseUnder(d, from, to);
      MovedUnderAny(Moved(d, from, to), to, scopes);
    } else {
      StaysPut(d, from, to);
    }
    StaysPut(to[1..], from, to);
    if d != from && d !in scopes { MovedTail(d, from, to); }
  }

  /** Below the moved root, moving commutes with taking the parent. */
  lemma MovedTail(d: Name, from: Name, to: Name)
    requires from != [] && to != [] && d != from && |d| >= 2
    ensures var x := Moved(d, from, to); |x| >= 2 && x[1..] == Moved(d[1..], from, to)
  {
    hide AtOrUnder, Moved, Canonical;
    ParentAtOrUnder(d, from);
    if AtOrUnder(d, from) {
      MovedParts(d, from, to);
      MovedParts(d[1..], from, to);
      var k := |d| - |from|;
      assert (d[..k] + to)[1..] == d[1..][..k - 1] + to;
    } else {
      StaysPut(d, from, to);
      StaysPut(d[1..], from, to);
    }
  }

  lemma MovedParts(d: Name, from: Name, to: Name)
    requires from != [] && AtOrUnder(d, from)
    ensures |d| >= |from| && Moved(d, from, to) == d[..|d| - |from|] + to
    ensures d != from ==> |d| > |from|
  {
    hide Canonical;
    AtOrUnderSplit(d, from);
  }

  lemma MovedUnderAny(x: Name, to: Name, scopes: seq<Name>)
    requires AtOrUnder(x, to) && UnderAny(to, scopes) && to != [] && Siblings(scopes)
    ensures UnderAny(x, scopes)
  {
    var i :| 0 <= i < |scopes| && AtOrUnder(to, scopes[i]);
    AtOrUnderTransitive(x, to, scopes[i]);
  }

  /** Every member value that a move redirects, the one its new RDN may add included, is read back. */
  ghost predicate SafeMove(t: Tree, scopes: seq<Name>, from: Name, to: Name) {
    && SafeTree(t, scopes, from, to)
    && (from in t ==> SafeToRedirect(t[from], from, to))
    && (to != [] && EqualFold(to[0].attr, "member") ==> SafeValue(to[0].value, false, from, to))
    && (to != [] && EqualFold(to[0].attr, "uniqueMember") ==> SafeValue(to[0].value, true, from, to))
  }

  lemma MoveStaysSafe(t: Tree, moved: Tree, scopes: seq<Name>, p: Policy, r: Request, s: Stamp, to: Name)
    requires WellShaped(t, scopes) && Siblings(scopes) && r.ModifyDNRequest? && r.dn != [] && r.dn in t && to != []
    requires to != r.dn
    requires to[0] == r.newRdn && UnderAny(r.dn, scopes)
    requires IsRename(t, moved, r.dn, to) && SafeMove(t, scopes, r.dn, to)
    ensures SafeTree(moved[to := Stamped(Renamed(t, p, r, to), s.now, s.who)], scopes, r.dn, to)
  {
    hide UnderAny, Distinct, Canonical, AtOrUnder, Moved, IsGroup, Stamped, Renamed, SafeToRedirect;
    var e := Stamped(Renamed(t, p, r, to), s.now, s.who);
    var u := moved[to := e];
    RootIsSafe(t, scopes, p, r, s, to);
    forall x | x in u && UnderAny(x, scopes) && IsGroup(u[x]) ensures SafeToRedirect(u[x], r.dn, to) {
      if x != to {
        var d :| d in t && Moved(d, r.dn, to) == x;
        SameContent(t[d], u[x], x);
        SafeElsewhere(t, scopes, r.dn, to, d);
        SameUnique(t[d], u[x], r.dn, to);
      }
    }
  }

  lemma SameUnique(e: Entry, e': Entry, from: Name, to: Name)
    requires e'.attrs == e.attrs && SafeToRedirect(e, from, to)
    ensures SafeToRedirect(e', from, to)
  {
    assert Values(e', "uniqueMember") == Values(e, "uniqueMember") && Values(e', "member") == Values(e, "member");
  }

  lemma SafeElsewhere(t: Tree, scopes: seq<Name>, from: Name, to: Name, d: Name)
    requires WellShaped(t, scopes) && d in t && SafeTree(t, scopes, from, to) && IsGroup(t[d])
    ensures SafeToRedirect(t[d], from, to)
  {
    hide UnderAny, IsGroup, Canonical, SafeToRedirect;
  }

  lemma RootIsSafe(t: Tree, scopes: seq<Name>, p: Policy, r: Request, s: Stamp, to: Name)
    requires Tidy(t) && r.ModifyDNRequest? && r.dn != [] && r.dn in t && to != [] && to != r.dn
    requires to[0] == r.newRdn && SafeMove(t, scopes, r.dn, to)
    ensures SafeToRedirect(Stamped(Renamed(t, p, r, to), s.now, s.who), r.dn, to)
  {
    hide UnderAny, Canonical, AtOrUnder, Moved, IsGroup, Stamped, EditRdn, ValuesOf, SafeValue, Distinct,
        EqualFold, Watched;
    WatchedNames();
    var e0 := t[r.dn].(dn := to);
    assert Values(e0, "uniqueMember") == Values(t[r.dn], "uniqueMember");
    assert Values(e0, "member") == Values(t[r.dn], "member");
    var e1 := Renamed(t, p, r, to);
    EditRdnFacts(p.matches, e0, r.dn[0], r.newRdn, r.deleteOld, "member");
    StampedFacts(e1, s.now, s.who, "member");
    EditRdnFacts(p.matches, e0, r.dn[0], r.newRdn, r.deleteOld, "uniqueMember");
    StampedFacts(e1, s.now, s.who, "uniqueMember");
  }

  // ---------------------------------------------------------------------------
  // The handlers
  // ---------------------------------------------------------------------------

  /** One committed request: its own edit, then the plugins. */
  ghost predicate Served(t: Tree, z: Tree, scopes: seq<Name>, nested: bool, memberOfFirst: bool, p: Policy, r: Request,
      s: Stamp)
    requires r.dn != []
  {
    exists u: Tree, ev: WriteEvent :: Edit(t, u, p, r, s, ev) && PluginsRan(u, z, scopes, nested, memberOfFirst, ev)
  }

  lemma RecomputedKeepsShape(u: Tree, z: Tree, scopes: seq<Name>, g: Graph<Name>, nested: bool, seeds: set<Name>)
    requires WellShaped(u, scopes) && Recomputed(u, z, g, nested, seeds)
    ensures WellShaped(z, scopes)
  {
    hide UnderAny, Reaching, Canonical, Distinct, ValuesOf, IsGroup, HasClass, MemberOfNames;
  }

  lemma RepairedKeepsShape(u: Tree, scopes: seq<Name>, r: Repair)
    requires WellShaped(u, scopes)
    ensures WellShaped(RepairedTree(u, scopes, r), scopes)
  {
    hide UnderAny, Canonical, Distinct, RepairedTree;
    RepairKeepsTidy(u, scopes, r);
  }

  /** None of the attributes the plugins write. */
  predicate Foreign(name: string) {
    !EqualFold("memberOf", name) && !EqualFold("objectClass", name) && !EqualFold("member", name)
        && !EqualFold("uniqueMember", name)
  }

  /** e' agrees with e but for what the plugins write. */
  ghost predicate KeepsRest(e: Entry, e': Entry, name: string) {
    e'.dn == e.dn && Values(e', name) == Values(e, name)
        && OtherClasses(e', "nsmemberof") == OtherClasses(e, "nsmemberof")
  }

  lemma RecomputedKeepsRest(e: Entry, e': Entry, name: string)
    requires SameBut(e, e') && Foreign(name)
    ensures KeepsRest(e, e', name)
  {
    hide EqualFold, ValuesOf, WithoutClass, IsGroup, Distinct;
  }

  lemma RepairedKeepsRest(t: Tree, scopes: seq<Name>, r: Repair, d: Name, name: string)
    requires Tidy(t) && d in t && Foreign(name)
    ensures d in RepairedTree(t, scopes, r) && KeepsRest(t[d], RepairedTree(t, scopes, r)[d], name)
  {
    hide RepairedTree, Canonical, IsGroup, Tidy, OnlyMembersDiffer, Foreign, KeepsRest, UnderAny;
    RepairedFacts(t, scopes, r, d);
    MembersKeepRest(t[d], RepairedTree(t, scopes, r)[d], name);
  }

  lemma MembersKeepRest(e: Entry, e': Entry, name: string)
    requires OnlyMembersDiffer(e, e') && Foreign(name)
    ensures KeepsRest(e, e', name)
  {
    hide EqualFold, ValuesOf, Distinct, WithoutClass;
    NamesDiffer();
  }

  /** The plugins leave every other attribute and every other object class of every entry alone. */
  lemma PluginsKeepRest(u: Tree, z: Tree, scopes: seq<Name>, nested: bool, memberOfFirst: bool, ev: WriteEvent,
      d: Name, name: string)
    requires Tidy(u) && PluginsRan(u, z, scopes, nested, memberOfFirst, ev) && d in u && Foreign(name)
    ensures d in z && KeepsRest(u[d], z[d], name)
  {
    hide Touches, GroupGraph, MappingOf, RepairFor, RepairedTree, Canonical, Reaching, HasClass, MemberOfNames, Tidy,
        SameBut, Foreign, Values, OtherClasses;
    var mid, seeds :| Ran(u, mid, z, seeds, scopes, nested, memberOfFirst, ev);
    var r := RepairFor(ev, scopes);
    if memberOfFirst {
      RecomputedKeepsRest(u[d], mid[d], name);
      RepairedKeepsRest(mid, scopes, r, d, name);
    } else {
      RepairedKeepsRest(u, scopes, r, d, name);
      RecomputedKeepsRest(mid[d], z[d], name);
    }
  }

  /** Plugins change neither names nor the shape of the tree. */
  lemma PluginsKeepShape(u: Tree, z: Tree, scopes: seq<Name>, nested: bool, memberOfFirst: bool, ev: WriteEvent)
    requires WellShaped(u, scopes) && PluginsRan(u, z, scopes, nested, memberOfFirst, ev)
    ensures WellShaped(z, scopes)
  {
    hide WellShaped, Recomputed, Touches, GroupGraph, MappingOf, RepairFor, RepairedTree, Canonical;
    var mid, seeds :| Ran(u, mid, z, seeds, scopes, nested, memberOfFirst, ev);
    var mv, r := MappingOf(ev), RepairFor(ev, scopes);
    if memberOfFirst {
      RecomputedKeepsShape(u, mid, scopes, GroupGraph(u, scopes, mv), nested, seeds);
      RepairedKeepsShape(mid, scopes, r);
    } else {
      RepairedKeepsShape(u, scopes, r);
      RecomputedKeepsShape(mid, z, scopes, GroupGraph(mid, scopes, mv), nested, seeds);
    }
  }

  class Server {
    const scopes: seq<Name>
    const nested: bool
    /** The order in which the plugins run. */
    const memberOfFirst: bool
    const groups: MemberOf.Plugin
    const refs: RefInt.Plugin
    const store: Store

    constructor (scopes: seq<Name>, nested: bool, memberOfFirst: bool)
      requires Siblings(scopes)
      ensures Valid() && fresh(store) && store.Tree() == map[]
      ensures this.scopes == scopes && this.nested == nested && this.memberOfFirst == memberOfFirst
    {
      this.scopes, this.nested, this.memberOfFirst := scopes, nested, memberOfFirst;
      groups := new MemberOf.Plugin(scopes, nested);
      refs := new RefInt.Plugin(scopes);
      store := new Store();
    }

    /** The directory is a forest of managed suffixes. */
    ghost predicate Valid()
      reads store
    {
      && store.Valid() && WellShaped(store.Tree(), scopes) && Siblings(scopes)
      && groups.scopes == scopes && groups.nested == nested && refs.scopes == scopes
    }

    method RunPlugins(tx: Tx, ev: WriteEvent)
      requires Valid() && tx.Valid() && WellShaped(tx.Tree(), scopes)
      modifies tx
      ensures tx.Valid() && WellShaped(tx.Tree(), scopes)
      ensures PluginsRan(old(tx.Tree()), tx.Tree(), scopes, nested, memberOfFirst, ev)
    {
      hide Recomputed, RepairedTree, Touches, GroupGraph, Covered, Siblings, TreeOf, Keyed, Canonical, UnderAny,
          Distinct;
      ghost var u := tx.Tree();
      ShapeCovers(u, scopes);
      if memberOfFirst {
        ghost var seeds := groups.AfterWrite(tx, ev);
        ghost var mid := tx.Tree();
        RecomputedKeepsShape(u, mid, scopes, GroupGraph(u, scopes, MappingOf(ev)), nested, seeds);
        ShapeCovers(mid, scopes);
        refs.AfterWrite(tx, ev);
        RepairedKeepsShape(mid, scopes, RepairFor(ev, scopes));
        assert Ran(u, mid, tx.Tree(), seeds, scopes, nested, memberOfFirst, ev);
      } else {
        refs.AfterWrite(tx, ev);
        ghost var mid := tx.Tree();
        RepairedKeepsShape(u, scopes, RepairFor(ev, scopes));
        ShapeCovers(mid, scopes);
        ghost var seeds := groups.AfterWrite(tx, ev);
        RecomputedKeepsShape(mid, tx.Tree(), scopes, GroupGraph(mid, scopes, MappingOf(ev)), nested, seeds);
        assert Ran(u, mid, tx.Tree(), seeds, scopes, nested, memberOfFirst, ev);
      }
    }

    method Delete(p: Policy, r: Request, s: Stamp) returns (code: ResultCode)
      requires Valid() && r.DeleteRequest? && Parsed(r)
      modifies store
      ensures Valid() && store.closed == old(store.closed)
      ensures code == if store.closed then OperationsError else DeleteCode(old(store.Tree()), p, r)
      ensures code != Success ==> store.entries == old(store.entries)
      ensures code == Success ==> Served(old(store.Tree()), store.Tree(), scopes, nested, memberOfFirst, p, r, s)
    {
      hide TreeOf, Keyed, Canonical, WellShaped, Siblings, HasKeyBelow, PluginsRan, HasEntryBelow;
      if store.closed {
        return OperationsError;
      }
      var tx := new Tx(store.entries);
      if !p.allowed(r.dn, "", DeletePerm) {
        return InsufficientAccessRights;
      }
      var before := tx.Get(r.dn);
      if before.None? {
        return ResultCode.NoSuchObject;
      }
      var err := tx.Delete(r.dn);
      if err.Some? {
        return NotAllowedOnNonLeaf;
      }
      ghost var t, u := store.Tree(), tx.Tree();
      DeleteKeepsShape(t, scopes, r.dn);
      var ev := WriteEvent(WriteDelete, before, None);
      assert Edit(t, u, p, r, s, ev);
      RunPlugins(tx, ev);
      store.entries := tx.entries;
      code := Success;
    }

    method Add(p: Policy, r: Request, s: Stamp) returns (code: ResultCode)
      requires Valid() && r.AddRequest? && Parsed(r)
      modifies store
      ensures Valid() && store.closed == old(store.closed)
      ensures code == if !UnderAny(r.dn, scopes) then ResultCode.NoSuchObject
                      else if store.closed then OperationsError else AddCode(old(store.Tree()), scopes, p, r)
      ensures code != Success ==> store.entries == old(store.entries)
      ensures code == Success ==> Served(old(store.Tree()), store.Tree(), scopes, nested, memberOfFirst, p, r, s)
    {
      hide TreeOf, Keyed, Canonical, WellShaped, Siblings, PluginsRan, UnderAny, Distinct, StampedNew;
      if !UnderAny(r.dn, scopes) {
        return ResultCode.NoSuchObject;
      }
      if store.closed {
        return OperationsError;
      }
      var tx := new Tx(store.entries);
      if !p.allowed(r.dn, "", AddPerm) {
        return InsufficientAccessRights;
      }
      if r.dn !in scopes {
        var parent := Parent(r.dn);
        if parent.None? {
          return InvalidDNSyntax;
        }
        var above := tx.Get(parent.value);
        if above.None? {
          return ResultCode.NoSuchObject;
        }
      }
      var clean := CheckClientAttrs(p, r.attrs);
      if !clean {
        return ConstraintViolation;
      }
      var distinct := CheckDuplicateAttrTypes(r.attrs);
      if !distinct {
        return ObjectClassViolation;
      }
      if !p.schemaOk(Entry(r.dn, r.attrs)) {
        return ObjectClassViolation;
      }
      var entry := StampedNew(Entry(r.dn, r.attrs), s.uuid, s.now, s.who);
      ghost var t := store.Tree();
      StampedKeepsName(Entry(r.dn, r.attrs), s);
      var err := tx.Add(entry);
      if err.Some? {
        return ResultCode.EntryAlreadyExists;
      }
      AddKeepsShape(t, scopes, p, r, s);
      var ev := WriteEvent(WriteAdd, None, Some(entry));
      assert Edit(t, tx.Tree(), p, r, s, ev);
      RunPlugins(tx, ev);
      store.entries := tx.entries;
      code := Success;
    }

    method Modify(p: Policy, r: Request, s: Stamp) returns (code: ResultCode)
      requires Valid() && r.ModifyRequest? && Parsed(r)
      modifies store
      ensures Valid() && store.closed == old(store.closed)
      ensures code == if store.closed then OperationsError else ModifyCode(old(store.Tree()), p, r)
      ensures code != Success ==> store.entries == old(store.entries)
      ensures code == Success ==> Served(old(store.Tree()), store.Tree(), scopes, nested, memberOfFirst, p, r, s)
    {
      hide TreeOf, Keyed, Canonical, WellShaped, Siblings, PluginsRan, UnderAny, Distinct, Stamped, ApplyChanges, Gate;
      if store.closed {
        return OperationsError;
      }
      var tx := new Tx(store.entries);
      var gate := CheckChanges(p, r.dn, r.changes);
      if gate != Success {
        return gate;
      }
      var before := tx.Get(r.dn);
      if before.None? {
        return ResultCode.NoSuchObject;
      }
      if r.assertion.Some? && !r.assertion.value(before.value) {
        return AssertionFailed;
      }
      var after := ApplyAll(p.matches, before.value, r.changes);
      if after.Refused? {
        return CodeOf(after.failure);
      }
      if !p.schemaOk(after.entry) {
        return ObjectClassViolation;
      }
      ghost var t := store.Tree();
      EntryInShape(t, scopes, r.dn);
      ModifiedFacts(t, p, r, s);
      var entry := Stamped(after.entry, s.now, s.who);
      PutKeepsShape(t, scopes, entry);
      var err := tx.Replace(entry);
      var ev := WriteEvent(WriteModify, before, Some(entry));
      assert Edit(t, tx.Tree(), p, r, s, ev);
      RunPlugins(tx, ev);
      store.entries := tx.entries;
      code := Success;
    }

    method CheckClientAttrs(p: Policy, attrs: seq<Attr>) returns (ok: bool)
      ensures ok <==> forall i :: 0 <= i < |attrs| ==> p.modifiable(attrs[i].name)
    {
      for i := 0 to |attrs|
        invariant forall j :: 0 <= j < i ==> p.modifiable(attrs[j].name)
      {
        if !p.modifiable(attrs[i].name) {
          return false;
        }
      }
      ok := true;
    }

    method CheckDuplicateAttrTypes(attrs: seq<Attr>) returns (ok: bool)
      ensures ok <==> Distinct(attrs)
    {
      hide Lower;
      var seen: set<string> := {};
      for i := 0 to |attrs|
        invariant forall k :: k in seen <==> exists j :: 0 <= j < i && Lower(attrs[j].name) == k
        invariant Distinct(attrs[..i])
      {
        var key := Lower(attrs[i].name);
        if key in seen {
          ghost var j :| 0 <= j < i && Lower(attrs[j].name) == key;
          assert EqualFold(attrs[j].name, attrs[i].name);
          return false;
        }
        seen := seen + {key};
        assert attrs[..i + 1] == attrs[..i] + [attrs[i]];
      }
      assert attrs[..|attrs|] == attrs;
      ok := true;
    }

    method CheckChanges(p: Policy, dn: Name, changes: seq<Change>) returns (code: ResultCode)
      ensures code == Gate(p, dn, changes)
    {
      assert changes[0..] == changes;
      for i := 0 to |changes|
        invariant Gate(p, dn, changes[i..]) == Gate(p, dn, changes)
      {
        assert changes[i..][1..] == changes[i + 1..];
        if !p.allowed(dn, changes[i].attr.name, WritePerm) {
          return InsufficientAccessRights;
        }
        if !p.modifiable(changes[i].attr.name) {
          return ConstraintViolation;
        }
      }
      code := Success;
    }

    method ApplyAll(m: Matcher, e: Entry, changes: seq<Change>) returns (r: Edited)
      ensures r == ApplyChanges(m, e, changes)
    {
      hide ApplyChange;
      var draft := new Draft(e);
      assert changes[0..] == changes;
      for i := 0 to |changes|
        invariant fresh(draft) && ApplyChanges(m, draft.Current(), changes[i..]) == ApplyChanges(m, e, changes)
      {
        assert changes[i..][1..] == changes[i + 1..];
        var failure := draft.Apply(m, changes[i]);
        if failure.Some? {
          return Refused(failure.value);
        }
      }
      r := Edited(draft.Current());
    }

    method ModifyDN(p: Policy, r: Request, s: Stamp) returns (code: ResultCode)
      requires Valid() && r.ModifyDNRequest? && Parsed(r)
      modifies store
      ensures Valid() && store.closed == old(store.closed)
      ensures code == if PlaceCode(scopes, r) != Success then PlaceCode(scopes, r)
                      else if store.closed then OperationsError else ModifyDNCode(old(store.Tree()), scopes, p, r)
      ensures code != Success ==> store.entries == old(store.entries)
      ensures code == Success ==> Served(old(store.Tree()), store.Tree(), scopes, nested, memberOfFirst, p, r, s)
    {
      hide TreeOf, Keyed, Canonical, WellShaped, Siblings, Served, UnderAny, ModifyDNCode, SameContext;
      var sup := SuperiorOf(r);
      if sup.None? {
        return UnwillingToPerform;
      }
      var superior := sup.value;
      if r.dn in scopes {
        return UnwillingToPerform;
      }
      if !UnderAny(r.dn, scopes) || !UnderAny(superior, scopes) {
        return UnwillingToPerform;
      }
      var isMove := Some(superior) != Parent(r.dn);
      if isMove && !SameContext(r.dn, superior, scopes) {
        return AffectsMultipleDSAs;
      }
      if store.closed {
        return OperationsError;
      }
      var tx := new Tx(store.entries);
      code := ModifyDNIn(tx, p, r, superior, isMove, s);
      if code == Success {
        store.entries := tx.entries;
      }
    }

    /** The part of ModifyDN inside the transaction. */
    method ModifyDNIn(tx: Tx, p: Policy, r: Request, superior: Name, isMove: bool, s: Stamp) returns (code: ResultCode)
      requires Valid() && tx.Valid() && WellShaped(tx.Tree(), scopes) && r.ModifyDNRequest? && r.dn != []
      requires PlaceCode(scopes, r) == Success && SuperiorOf(r) == Some(superior)
      requires (isMove <==> Some(superior) != Parent(r.dn))
      modifies tx
      ensures tx.Valid() && code == ModifyDNCode(old(tx.Tree()), scopes, p, r)
      ensures code == Success ==>
                WellShaped(tx.Tree(), scopes)
                    && Served(old(tx.Tree()), tx.Tree(), scopes, nested, memberOfFirst, p, r, s)
    {
      hide TreeOf, Keyed, Canonical, WellShaped, Siblings, PluginsRan, UnderAny, Distinct, AtOrUnder, MayRename,
          Stamped, EditRdn, IsRename, PlaceCode;
      var newDn := Target(r.newRdn, superior);
      ghost var t := tx.Tree();
      var before := tx.Get(r.dn);
      if before.None? {
        return Missing(p, r.dn);
      }
      if AtOrUnder(superior, r.dn) {
        return UnwillingToPerform;
      }
      if newDn != r.dn {
        var taken := tx.Get(newDn);
        if taken.Some? {
          return ResultCode.EntryAlreadyExists;
        }
      }
      var above := tx.Get(superior);
      if isMove {
        if above.None? {
          return Missing(p, superior);
        }
        if !p.allowed(superior, "", ModDNPerm) {
          return InsufficientAccessRights;
        }
      } else if above.None? {
        return ResultCode.NoSuchObject;
      }
      if !MayRename(p, r.dn, r.newRdn.attr, r.dn[0].attr, r.deleteOld) {
        return InsufficientAccessRights;
      }
      if !p.modifiable(r.newRdn.attr) {
        return ConstraintViolation;
      }
      EntryInShape(t, scopes, r.dn);
      if newDn == r.dn {
        code := Touch(tx, p, before.value, s);
        RenameToItself(t, scopes, r.dn);
      } else {
        code := Relocate(tx, p, r, before.value, newDn, s);
      }
    }

    /** A rename proper: the store moves the subtree, then the moved entry's RDN values follow. */
    method Relocate(tx: Tx, p: Policy, r: Request, before: Entry, newDn: Name, s: Stamp) returns (code: ResultCode)
      requires Valid() && tx.Valid() && WellShaped(tx.Tree(), scopes) && r.ModifyDNRequest? && r.dn != []
      requires r.dn in tx.Tree() && tx.Tree()[r.dn] == before && PlaceCode(scopes, r) == Success
      requires newDn == Target(r.newRdn, SuperiorOf(r).value) && newDn !in tx.Tree()
      requires SuperiorOf(r).value in tx.Tree() && !AtOrUnder(SuperiorOf(r).value, r.dn)
      modifies tx
      ensures tx.Valid()
      ensures code == if p.schemaOk(Renamed(old(tx.Tree()), p, r, newDn)) then Success else ObjectClassViolation
      ensures code == Success ==>
                WellShaped(tx.Tree(), scopes)
                    && Served(old(tx.Tree()), tx.Tree(), scopes, nested, memberOfFirst, p, r, s)
    {
      hide TreeOf, Keyed, Canonical, WellShaped, Siblings, PluginsRan, UnderAny, Distinct, AtOrUnder, Stamped, EditRdn,
          IsRename, CanMove, MovedTree, Watched, ValuesOf;
      ghost var t := tx.Tree();
      RenameIsFree(t, scopes, p, r, newDn);
      RenameTarget(t, scopes, r, newDn);
      var err := tx.Rename(r.dn, newDn);
      ghost var moved := tx.Tree();
      RootEntry(t, moved, r.dn, newDn);
      var after := tx.Get(newDn);
      var edited := EditRdn(p.matches, after.value, r.dn[0], r.newRdn, r.deleteOld);
      EntryInShape(t, scopes, r.dn);
      if !p.schemaOk(edited) {
        return ObjectClassViolation;
      }
      var entry := Stamped(edited, s.now, s.who);
      WatchedNames();
      EditRdnFacts(p.matches, after.value, r.dn[0], r.newRdn, r.deleteOld, "memberOf");
      StampedFacts(edited, s.now, s.who, "memberOf");
      RenameKeepsShape(t, moved, scopes, r.dn, newDn, entry);
      err := tx.Replace(entry);
      var ev := WriteEvent(WriteRename, Some(before), Some(entry));
      assert Edit(t, tx.Tree(), p, r, s, ev);
      RunPlugins(tx, ev);
      code := Success;
    }

    /** A rename to the entry's own name only stamps it. */
    method Touch(tx: Tx, p: Policy, before: Entry, s: Stamp) returns (code: ResultCode)
      requires Valid() && tx.Valid() && WellShaped(tx.Tree(), scopes) && before.dn in tx.Tree()
      requires tx.Tree()[before.dn] == before
      modifies tx
      ensures tx.Valid() && WellShaped(tx.Tree(), scopes)
      ensures code == if p.schemaOk(before) then Success else ObjectClassViolation
      ensures code == Success ==>
                var e := Stamped(before, s.now, s.who);
                PluginsRan(old(tx.Tree())[before.dn := e], tx.Tree(), scopes, nested, memberOfFirst,
                    WriteEvent(WriteRename, Some(before), Some(e)))
    {
      hide TreeOf, Keyed, Canonical, WellShaped, Siblings, PluginsRan, UnderAny, Distinct, Stamped;
      if !p.schemaOk(before) {
        return ObjectClassViolation;
      }
      var after := Stamped(before, s.now, s.who);
      EntryInShape(tx.Tree(), scopes, before.dn);
      WatchedNames();
      StampedFacts(before, s.now, s.who, "memberOf");
      PutKeepsShape(tx.Tree(), scopes, after);
      var err := tx.Replace(after);
      RunPlugins(tx, WriteEvent(WriteRename, Some(before), Some(after)));
      code := Success;
    }
  }

  lemma EntryInShape(t: Tree, scopes: seq<Name>, d: Name)
    requires WellShaped(t, scopes) && d in t
    ensures d != [] && t[d].dn == d && Distinct(t[d].attrs)
  {
    hide UnderAny, Distinct;
  }

  lemma StampedKeepsName(e: Entry, s: Stamp)
    ensures StampedNew(e, s.uuid, s.now, s.who).dn == e.dn
  {
  }

  /** The place a rename goes to, as the gates before it leave it. */
  lemma RenameTarget(t: Tree, scopes: seq<Name>, r: Request, to: Name)
    requires WellShaped(t, scopes) && r.ModifyDNRequest? && r.dn != [] && r.dn in t && PlaceCode(scopes, r) == Success
    requires to == Target(r.newRdn, SuperiorOf(r).value) && SuperiorOf(r).value in t
    ensures |to| >= 2 && to[1..] == SuperiorOf(r).value && to[0] == r.newRdn
    ensures r.dn !in scopes && UnderAny(r.dn, scopes)
  {
    hide UnderAny, Distinct, Canonical, SameContext;
  }

  lemma RootEntry(t: Tree, moved: Tree, from: Name, to: Name)
    requires from != [] && from in t && IsRename(t, moved, from, to)
    ensures to in moved && moved[to] == t[from].(dn := to)
  {
    RootMoves(from, to);
    hide Moved, Canonical;
  }

  lemma RenameToItself(t: Tree, scopes: seq<Name>, d: Name)
    requires WellShaped(t, scopes) && d != []
    ensures IsRename(t, t, d, d)
  {
    hide Moved, Canonical, Distinct, UnderAny;
    forall x | x in t ensures Moved(x, d, d) == x {
      MovedToItself(x, d);
    }
  }
}
