// What the write handlers answer, condition by condition, and what a committed request
// leaves in the directory, attribute by attribute.
module Outcomes {
  import opened Text
  import DnSyntax
  import opened Names
  import opened Entries
  import opened Stores
  import opened Graphs
  import opened MemberOf
  import opened RefInt
  import opened Changes
  import opened Edits
  import opened Convergence
  import opened Writes
  import opened Servers
  import opened Runs

  // ---------------------------------------------------------------------------
  // Answers
  // ---------------------------------------------------------------------------

  /** d is s, or ends in it. */
  predicate EndsIn(d: Name, s: Name) { d == s || (s != [] && |d| > |s| && d[|d| - |s|..] == s) }

  /** Some managed suffix holds d. */
  predicate Managed(d: Name, scopes: seq<Name>) { exists i :: 0 <= i < |scopes| && EndsIn(d, scopes[i]) }

  lemma ManagedIsUnder(d: Name, scopes: seq<Name>)
    ensures UnderAny(d, scopes) <==> Managed(d, scopes)
  {
  }

  /** No attribute type comes twice, in whatever spelling. */
  predicate OnceEach(attrs: seq<Attr>) {
    forall i, j :: 0 <= i < |attrs| && 0 <= j < |attrs| && Lower(attrs[i].name) == Lower(attrs[j].name) ==> i == j
  }

  lemma OnceEachIs(attrs: seq<Attr>)
    ensures Distinct(attrs) <==> OnceEach(attrs)
  {
    if Distinct(attrs) {
      forall i, j | 0 <= i < |attrs| && 0 <= j < |attrs| && Lower(attrs[i].name) == Lower(attrs[j].name)
        ensures i == j
      {
        assert !(i < j) && !(j < i) by {
          assert EqualFold(attrs[i].name, attrs[j].name) && EqualFold(attrs[j].name, attrs[i].name);
        }
      }
    }
  }

  /**
   * An Add succeeds with the right to add, below an existing parent or at a suffix, with
   * attributes that clients may write, each type once, a valid entry, and a free name.
   */
  lemma AddAnswers(t: Tree, scopes: seq<Name>, p: Policy, r: Request)
    requires r.AddRequest?
    ensures var placed := r.dn in scopes || (|r.dn| >= 2 && r.dn[1..] in t);
      var mayAdd := Managed(r.dn, scopes) && p.allowed(r.dn, "", AddPerm);
      var clients := forall i :: 0 <= i < |r.attrs| ==> p.modifiable(r.attrs[i].name);
      var valid := OnceEach(r.attrs) && p.schemaOk(Entry(r.dn, r.attrs));
      var code := AddCode(t, scopes, p, r);
      && (code == Success <==> mayAdd && placed && clients && valid && r.dn !in t)
      && (code == EntryAlreadyExists <==> mayAdd && placed && clients && valid && r.dn in t)
      && (code == ObjectClassViolation <==> mayAdd && placed && clients && !valid)
      && (code == ConstraintViolation <==> mayAdd && placed && !clients)
      && (code == InvalidDNSyntax <==> mayAdd && !placed && |r.dn| < 2)
      && (code == ResultCode.NoSuchObject <==> !Managed(r.dn, scopes) || (mayAdd && !placed && |r.dn| >= 2))
      && (code == InsufficientAccessRights <==> Managed(r.dn, scopes) && !p.allowed(r.dn, "", AddPerm))
  {
    ManagedIsUnder(r.dn, scopes);
    OnceEachIs(r.attrs);
    hide UnderAny, Managed, Distinct, OnceEach;
  }

  /** The caller may write the attribute of the change, and clients may at all. */
  predicate MayChange(p: Policy, dn: Name, ch: Change) {
    p.allowed(dn, ch.attr.name, WritePerm) && p.modifiable(ch.attr.name)
  }

  /** The answer to a change that may not be made: clients may not make it, or this one lacks the right. */
  function Barred(p: Policy, dn: Name, ch: Change): ResultCode {
    if p.allowed(dn, ch.attr.name, WritePerm) then ConstraintViolation else InsufficientAccessRights
  }

  /** The change at i is the first one that the caller may not make. */
  ghost predicate StopsAt(p: Policy, dn: Name, changes: seq<Change>, i: nat) {
    i < |changes| && !MayChange(p, dn, changes[i]) && forall j :: 0 <= j < i ==> MayChange(p, dn, changes[j])
  }

  /** The first change that may not be made decides: for want of the right, or because clients may not make it. */
  lemma {:induction false} GateAnswers(p: Policy, dn: Name, changes: seq<Change>)
    ensures Gate(p, dn, changes) == Success <==> forall i :: 0 <= i < |changes| ==> MayChange(p, dn, changes[i])
    ensures forall i: nat :: StopsAt(p, dn, changes, i) ==>
              Gate(p, dn, changes)
              == Barred(p, dn, changes[i])
  {
    if changes != [] {
      var rest := changes[1..];
      GateAnswers(p, dn, rest);
      assert forall i :: 0 <= i < |rest| ==> rest[i] == changes[i + 1];
      if MayChange(p, dn, changes[0]) {
        forall i: nat | StopsAt(p, dn, changes, i)
          ensures Gate(p, dn, changes)
              == Barred(p, dn, changes[i])
        {
          assert i > 0 && rest[i - 1] == changes[i];
          assert StopsAt(p, dn, rest, i - 1);
        }
        assert forall i :: 1 <= i < |changes| ==> changes[i] == rest[i - 1];
      }
    }
  }

  /** The changes made one after the other: in two parts, the second on what the first leaves. */
  lemma {:induction false} ChangesInTurn(m: Matcher, e: Entry, a: seq<Change>, b: seq<Change>)
    ensures ApplyChanges(m, e, a + b) ==
            if ApplyChanges(m, e, a).Refused? then ApplyChanges(m, e, a)
            else ApplyChanges(m, ApplyChanges(m, e, a).entry, b)
    ensures forall c :: ApplyChanges(m, e, [c]) == ApplyChange(m, e, c)
    ensures ApplyChanges(m, e, []) == Edited(e)
    decreases a
  {
    hide ApplyChange;
    forall c ensures ApplyChanges(m, e, [c]) == ApplyChange(m, e, c) {
      assert [c][1..] == [];
    }
    if a == [] {
      assert a + b == b;
    } else {
      assert (a + b)[0] == a[0] && (a + b)[1..] == a[1..] + b;
      var r := ApplyChange(m, e, a[0]);
      if r.Edited? { ChangesInTurn(m, r.entry, a[1..], b); }
    }
  }

  /**
   * A Modify succeeds when the caller may make every change, the entry exists and meets the
   * assertion, every change applies in turn, and the result is valid.
   */
  lemma ModifyAnswers(t: Tree, p: Policy, r: Request)
    requires r.ModifyRequest?
    ensures var may := forall i :: 0 <= i < |r.changes| ==> MayChange(p, r.dn, r.changes[i]);
      var code := ModifyCode(t, p, r);
      && (r.dn !in t ==> (code == ResultCode.NoSuchObject <==> may))
      && (r.dn in t ==>
           var asserted := r.assertion.None? || r.assertion.value(t[r.dn]);
           var edited := ApplyChanges(p.matches, t[r.dn], r.changes);
           && (code == Success <==> may && asserted && edited.Edited? && p.schemaOk(edited.entry))
           && (code == ObjectClassViolation <==> may && asserted && edited.Edited? && !p.schemaOk(edited.entry))
           && (code == NoSuchAttributeOrValue <==> may && asserted && edited == Refused(NoSuchAttribute))
           && (code == ResultCode.AttributeOrValueExists <==>
               may && asserted && edited == Refused(Failure.AttributeOrValueExists))
           && (code == AssertionFailed <==> may && !asserted))
      && (code == InsufficientAccessRights <==> Gate(p, r.dn, r.changes) == InsufficientAccessRights)
      && (code == ConstraintViolation <==> Gate(p, r.dn, r.changes) == ConstraintViolation)
  {
    GateAnswers(p, r.dn, r.changes);
    GateCodes(p, r.dn, r.changes);
    hide Gate, ApplyChanges, MayChange;
  }

  lemma {:induction false} GateCodes(p: Policy, dn: Name, changes: seq<Change>)
    ensures Gate(p, dn, changes) in {Success, InsufficientAccessRights, ConstraintViolation}
  {
    if changes != [] { GateCodes(p, dn, changes[1..]); }
  }

  /** A Delete succeeds with the right to delete, on an entry that exists and looks like a leaf. */
  lemma DeleteAnswers(t: Tree, p: Policy, r: Request)
    requires r.DeleteRequest?
    ensures var code := DeleteCode(t, p, r);
      var below := exists x :: x in t && HasSuffix(Key(x), "," + Key(r.dn));
      && (code == Success <==> p.allowed(r.dn, "", DeletePerm) && r.dn in t && !below)
      && (code == NotAllowedOnNonLeaf <==> p.allowed(r.dn, "", DeletePerm) && r.dn in t && below)
      && (code == ResultCode.NoSuchObject <==> p.allowed(r.dn, "", DeletePerm) && r.dn !in t)
      && (code == InsufficientAccessRights <==> !p.allowed(r.dn, "", DeletePerm))
  {
  }

  /**
   * A ModifyDN succeeds when entry and new parent lie in managed suffixes (in the same one for
   * a move), the entry exists and is no suffix, the new parent exists and lies elsewhere, the
   * new name is free or the old one; with every right: entry write not denied, write on the
   * new RDN attribute, with deleteoldrdn on the old one, and for a move moddn on the new
   * parent; and when clients may write the new RDN attribute and the result is valid.
   */
  lemma ModifyDNSucceeds(t: Tree, scopes: seq<Name>, p: Policy, r: Request)
    requires r.ModifyDNRequest? && r.dn != []
    ensures ModifyDNCode(t, scopes, p, r) == Success <==>
              && r.dn !in scopes && (r.newSuperior.Some? || |r.dn| >= 2)
              && var sup := if r.newSuperior.Some? then r.newSuperior.value else r.dn[1..];
                 var move := |r.dn| < 2 || sup != r.dn[1..];
                 var to := [r.newRdn] + sup;
                 && Managed(r.dn, scopes) && Managed(sup, scopes)
                 && (move ==> exists i :: 0 <= i < |scopes| && EndsIn(r.dn, scopes[i]) && EndsIn(sup, scopes[i]))
                 && r.dn in t && sup in t && !EndsIn(sup, r.dn) && (to == r.dn || to !in t)
                 && p.allowed(r.dn, "", EntryWriteNotDenied)
                 && p.allowed(r.dn, r.newRdn.attr, WritePerm)
                 && (r.deleteOld ==> p.allowed(r.dn, r.dn[0].attr, WritePerm))
                 && (move ==> p.allowed(sup, "", ModDNPerm))
                 && p.modifiable(r.newRdn.attr)
                 && p.schemaOk(Renamed(t, p, r, to))
  {
    PlaceAnswers(scopes, r);
    if SuperiorOf(r).Some? { EndsInIs(SuperiorOf(r).value, r.dn); }
    hide PlaceCode, Managed, Renamed, EndsIn, AtOrUnder;
  }

  lemma EndsInIs(a: Name, b: Name)
    ensures AtOrUnder(a, b) <==> EndsIn(a, b)
  {
  }

  lemma PlaceAnswers(scopes: seq<Name>, r: Request)
    requires r.ModifyDNRequest? && r.dn != []
    ensures PlaceCode(scopes, r) == Success <==>
              && r.dn !in scopes && (r.newSuperior.Some? || |r.dn| >= 2)
              && var sup := if r.newSuperior.Some? then r.newSuperior.value else r.dn[1..];
                 && Managed(r.dn, scopes) && Managed(sup, scopes)
                 && (|r.dn| < 2 || sup != r.dn[1..] ==>
                       exists i :: 0 <= i < |scopes| && EndsIn(r.dn, scopes[i]) && EndsIn(sup, scopes[i]))
  {
    ManagedIsUnder(r.dn, scopes);
    if SuperiorOf(r).Some? {
      ManagedIsUnder(SuperiorOf(r).value, scopes);
      SameSuffix(r.dn, SuperiorOf(r).value, scopes);
    }
    hide UnderAny, Managed, SameContext, EndsIn;
  }

  lemma SameSuffix(a: Name, b: Name, scopes: seq<Name>)
    ensures SameContext(a, b, scopes) <==>
              exists i :: 0 <= i < |scopes| && EndsIn(a, scopes[i]) && EndsIn(b, scopes[i])
  {
    if exists i :: 0 <= i < |scopes| && EndsIn(a, scopes[i]) && EndsIn(b, scopes[i]) {
      var i :| 0 <= i < |scopes| && EndsIn(a, scopes[i]) && EndsIn(b, scopes[i]);
      assert AtOrUnder(a, scopes[i]) && AtOrUnder(b, scopes[i]);
    }
    if i :| 0 <= i < |scopes| && AtOrUnder(a, scopes[i]) && AtOrUnder(b, scopes[i]) {
      assert EndsIn(a, scopes[i]) && EndsIn(b, scopes[i]);
    }
  }

  /** And when it does not: by the first condition that fails, in this order. */
  lemma ModifyDNRefusals(t: Tree, scopes: seq<Name>, p: Policy, r: Request)
    requires r.ModifyDNRequest? && r.dn != [] && r.dn !in scopes && (r.newSuperior.Some? || |r.dn| >= 2)
    ensures var sup := if r.newSuperior.Some? then r.newSuperior.value else r.dn[1..];
      var move := |r.dn| < 2 || sup != r.dn[1..];
      var to := [r.newRdn] + sup;
      var code := ModifyDNCode(t, scopes, p, r);
      var inside := Managed(r.dn, scopes) && Managed(sup, scopes);
      var together := exists i :: 0 <= i < |scopes| && EndsIn(r.dn, scopes[i]) && EndsIn(sup, scopes[i]);
      var placed := inside && (move ==> together);
      var found := placed && r.dn in t && !EndsIn(sup, r.dn) && (to == r.dn || to !in t);
      var rights := (move ==> p.allowed(sup, "", ModDNPerm)) && p.allowed(r.dn, "", EntryWriteNotDenied)
          && p.allowed(r.dn, r.newRdn.attr, WritePerm) && (r.deleteOld ==> p.allowed(r.dn, r.dn[0].attr, WritePerm));
      && (code == AffectsMultipleDSAs <==> inside && move && !together)
      && (code == UnwillingToPerform <==> !inside || (placed && r.dn in t && EndsIn(sup, r.dn)))
      && (code == EntryAlreadyExists <==> placed && r.dn in t && !EndsIn(sup, r.dn) && to != r.dn && to in t)
      && (code == ResultCode.NoSuchObject <==>
          (placed && r.dn !in t && p.allowed(r.dn, "", ExistencePerm))
          || (found && sup !in t && (!move || p.allowed(sup, "", ExistencePerm))))
      && (code == InsufficientAccessRights <==>
          (placed && r.dn !in t && !p.allowed(r.dn, "", ExistencePerm))
          || (found && sup !in t && move && !p.allowed(sup, "", ExistencePerm))
          || (found && sup in t && !rights))
      && (code == ConstraintViolation <==> found && sup in t && rights && !p.modifiable(r.newRdn.attr))
      && (code == ObjectClassViolation <==>
          found && sup in t && rights && p.modifiable(r.newRdn.attr) && !p.schemaOk(Renamed(t, p, r, to)))
  {
    ManagedIsUnder(r.dn, scopes);
    ManagedIsUnder(SuperiorOf(r).value, scopes);
    SameSuffix(r.dn, SuperiorOf(r).value, scopes);
    EndsInIs(SuperiorOf(r).value, r.dn);
    hide UnderAny, Managed, Renamed, SameContext, EndsIn, AtOrUnder;
  }

  // ---------------------------------------------------------------------------
  // Contents
  // ---------------------------------------------------------------------------

  /** An Add puts in the entry as it was sent, with its five stamps, and touches no other. */
  lemma AddedContents(t: Tree, u: Tree, p: Policy, r: Request, s: Stamp, ev: WriteEvent, name: string)
    requires r.AddRequest? && r.dn != [] && Distinct(r.attrs) && Edit(t, u, p, r, s, ev)
    ensures u.Keys == t.Keys + {r.dn} && (forall d :: d in t && d != r.dn ==> u[d] == t[d]) && u[r.dn].dn == r.dn
    ensures Values(u[r.dn], name) ==
            if EqualFold("entryUUID", name) then [s.uuid]
            else if EqualFold("createTimestamp", name) || EqualFold("modifyTimestamp", name) then [s.now]
            else if EqualFold("creatorsName", name) || EqualFold("modifiersName", name) then [s.who]
            else Values(Entry(r.dn, r.attrs), name)
    ensures ev.op == WriteAdd && ev.before == None && ev.after == Some(u[r.dn])
  {
    hide StampedNew, Distinct, EqualFold, ValuesOf, Canonical;
    StampedNewExactly(Entry(r.dn, r.attrs), s.uuid, s.now, s.who, name);
  }

  /** A Modify makes the changes and two stamps on its entry, and touches no other. */
  lemma ModifiedContents(t: Tree, u: Tree, p: Policy, r: Request, s: Stamp, ev: WriteEvent, name: string)
    requires r.ModifyRequest? && r.dn != [] && Edit(t, u, p, r, s, ev) && Distinct(t[r.dn].attrs)
    ensures u.Keys == t.Keys && (forall d :: d in t && d != r.dn ==> u[d] == t[d]) && u[r.dn].dn == t[r.dn].dn
    ensures Values(u[r.dn], name) ==
            if EqualFold("modifyTimestamp", name) then [s.now]
            else if EqualFold("modifiersName", name) then [s.who]
            else Values(ApplyChanges(p.matches, t[r.dn], r.changes).entry, name)
    ensures ev.op == WriteModify && ev.before == Some(t[r.dn]) && ev.after == Some(u[r.dn])
  {
    hide Stamped, Distinct, EqualFold, ValuesOf, Canonical, ApplyChanges;
    ApplyChangesFacts(p, t[r.dn], r.changes);
    StampedExactly(ApplyChanges(p.matches, t[r.dn], r.changes).entry, s.now, s.who, name);
  }

  /** Where a name ends up when from becomes to. */
  function Place(d: Name, from: Name, to: Name): Name { if EndsIn(d, from) then d[..|d| - |from|] + to else d }

  lemma PlaceIsMoved(d: Name, from: Name, to: Name)
    requires from != []
    ensures Moved(d, from, to) == Place(d, from, to)
  {
  }

  /**
   * A ModifyDN puts every entry at or below the old name at its place below the new one,
   * merges none, and leaves the attributes of all but the renamed entry alone.
   */
  lemma RenamedPlaces(t: Tree, u: Tree, p: Policy, r: Request, s: Stamp, ev: WriteEvent)
    requires r.ModifyDNRequest? && r.dn != [] && Edit(t, u, p, r, s, ev) && Tidy(t)
    ensures r.newSuperior.Some? || |r.dn| >= 2
    ensures var sup := if r.newSuperior.Some? then r.newSuperior.value else r.dn[1..];
      var to := [r.newRdn] + sup;
      && (forall d :: d in t ==> Place(d, r.dn, to) in u && u[Place(d, r.dn, to)].dn == Place(d, r.dn, to))
      && (forall d :: d in t && d != r.dn ==> u[Place(d, r.dn, to)].attrs == t[d].attrs)
      && (forall x :: x in u ==> exists d :: d in t && Place(d, r.dn, to) == x)
      && (forall a, b :: a in t && b in t && Place(a, r.dn, to) == Place(b, r.dn, to) ==> a == b)
      && Place(r.dn, r.dn, to) == to
  {
    hide Stamped, Distinct, EqualFold, Canonical, EndsIn, Moved, EditRdn;
    var to := Target(r.newRdn, SuperiorOf(r).value);
    var moved: Tree :| IsRename(t, moved, r.dn, to) && u == moved[to := ev.after.value];
    forall d ensures Moved(d, r.dn, to) == Place(d, r.dn, to) { PlaceIsMoved(d, r.dn, to); }
    hide Place;
    RenamedName(t, p, r, s, to);
    OldToNew(r.dn, to);
  }

  lemma OldToNew(from: Name, to: Name)
    ensures Place(from, from, to) == to
  {
    assert from[..0] + to == to;
  }

  lemma RenamedName(t: Tree, p: Policy, r: Request, s: Stamp, to: Name)
    requires r.ModifyDNRequest? && r.dn != [] && r.dn in t && Tidy(t)
    ensures Stamped(Renamed(t, p, r, to), s.now, s.who).dn == to
  {
    hide Distinct, EqualFold, Canonical, Stamped, EditRdn, ValuesOf;
    EditRdnFacts(p.matches, t[r.dn].(dn := to), r.dn[0], r.newRdn, r.deleteOld, "");
    StampedExactly(Renamed(t, p, r, to), s.now, s.who, "");
  }

  /** Which attributes the edit of the RDN leaves there: the old one only with values, the new one, and the others. */
  lemma EditRdnHas(m: Matcher, e: Entry, old_: DnSyntax.Rdn, new_: DnSyntax.Rdn, deleteOld: bool, name: string)
    requires Distinct(e.attrs)
    ensures var e' := EditRdn(m, e, old_, new_, deleteOld);
      Has(e', name) <==>
        if EqualFold(old_.attr, name) then Values(e', name) != [] else Has(e, name) || EqualFold(new_.attr, name)
  {
    hide SetAttr, SetValues, Append, Distinct, ValuesOf, EqualFold, RemoveMatched, IndexOf;
    var e1 := DropOldRdn(m, e, old_.attr, old_.value, deleteOld);
    DropOldFacts(m, e, old_.attr, old_.value, deleteOld, name);
    if deleteOld && Has(e, old_.attr) {
      SameHas(e, old_.attr, RemoveMatched(m, old_.attr, Values(e, old_.attr), old_.value), name);
    }
    var e2 := AddNewRdn(m, e1, new_.attr, new_.value);
    AddNewFacts(m, e1, new_.attr, new_.value, name);
    AddedHas(m, e1, new_.attr, new_.value, name);
    SetAttrHas(e2, old_.attr, [], name);
    SetAttrValues(e2, old_.attr, [], name);
    SameNameSameValues(e2, old_.attr, name);
    SameNameSameValues(Without(e2, old_.attr), old_.attr, name);
    HasAlike(e2, old_.attr, name);
    NoValues(e2, name);
  }

  lemma SameHas(e: Entry, attr: string, values: seq<string>, name: string)
    requires Has(e, attr)
    ensures Has(SetValues(e, attr, values), name) <==> Has(e, name)
  {
    HasSome(e, name);
    HasSome(SetValues(e, attr, values), name);
    hide EqualFold;
    var a' := SetValues(e, attr, values).attrs;
    assert forall k :: 0 <= k < |a'| ==> a'[k].name == e.attrs[k].name;
  }

  lemma AddedHas(m: Matcher, e: Entry, attr: string, value: string, name: string)
    ensures Has(AddNewRdn(m, e, attr, value), name) <==> Has(e, name) || EqualFold(attr, name)
  {
    hide EqualFold, ValuesOf;
    HasAlike(e, attr, name);
    if HasMatched(m, attr, Values(e, attr), value) {
      NoValues(e, attr);
    } else if Has(e, attr) {
      SameHas(e, attr, Values(e, attr) + [value], name);
    } else {
      var e' := Append(e, attr, [value]);
      HasSome(e, name);
      HasSome(e', name);
      assert e'.attrs[|e.attrs|].name == attr;
      assert forall i :: 0 <= i < |e.attrs| ==> e'.attrs[i] == e.attrs[i];
    }
  }

  lemma HasAlike(e: Entry, a: string, b: string)
    ensures EqualFold(a, b) ==> (Has(e, a) <==> Has(e, b))
  {
    HasSome(e, a);
    HasSome(e, b);
  }

  lemma NoValues(e: Entry, name: string)
    ensures Values(e, name) != [] ==> Has(e, name)
  {
    ValuesAtIndex(e.attrs, name);
  }

  /**
   * The renamed entry loses the old RDN value when told to, gains the new one unless it has
   * it, and is stamped; an entry renamed to its own name is only stamped.
   */
  lemma RenamedContents(t: Tree, u: Tree, p: Policy, r: Request, s: Stamp, ev: WriteEvent, name: string)
    requires r.ModifyDNRequest? && r.dn != [] && Edit(t, u, p, r, s, ev) && Tidy(t)
    ensures r.newSuperior.Some? || |r.dn| >= 2
    ensures var to := [r.newRdn] + if r.newSuperior.Some? then r.newSuperior.value else r.dn[1..];
      && to in u && ev.op == WriteRename && ev.before == Some(t[r.dn]) && ev.after == Some(u[to])
      && Values(u[to], name) ==
         if EqualFold("modifyTimestamp", name) then [s.now]
         else if EqualFold("modifiersName", name) then [s.who]
         else if to == r.dn then Values(t[r.dn], name)
         else EditedValues(p.matches, t[r.dn], r.dn[0], r.newRdn, r.deleteOld, name)
  {
    hide Distinct, EqualFold, Canonical, Stamped, EditRdn, ValuesOf, IsRename, HasMatched, RemoveMatched;
    var to := Target(r.newRdn, SuperiorOf(r).value);
    EditRdnFacts(p.matches, t[r.dn].(dn := to), r.dn[0], r.newRdn, r.deleteOld, name);
    EditRdnExactly(p.matches, t[r.dn].(dn := to), r.dn[0], r.newRdn, r.deleteOld, name);
    StampedExactly(Renamed(t, p, r, to), s.now, s.who, name);
  }

  /**
   * So a committed request leaves what its edit left, in every entry and every attribute that
   * the plugins do not write; and no entry comes or goes with them.
   */
  lemma CommittedContents(t: Tree, z: Tree, scopes: seq<Name>, nested: bool, memberOfFirst: bool, c: Call)
    requires WellShaped(t, scopes) && Siblings(scopes) && c.request.dn != []
    requires Code(t, scopes, c.policy, c.request) == Success
    requires Served(t, z, scopes, nested, memberOfFirst, c.policy, c.request, c.stamp)
    ensures exists u: Tree, ev: WriteEvent ::
              Edit(t, u, c.policy, c.request, c.stamp, ev) && WellShaped(u, scopes) && SameElsewhere(u, z)
  {
    hide Edit, Canonical, PluginsRan, WellShaped, SameElsewhere, Code, Siblings, Tidy;
    var u: Tree, ev: WriteEvent :|
      Edit(t, u, c.policy, c.request, c.stamp, ev) && PluginsRan(u, z, scopes, nested, memberOfFirst, ev);
    EditKeepsShape(t, u, scopes, c, ev);
    ShapeIsTidy(u, scopes);
    PluginsSame(u, z, scopes, nested, memberOfFirst, ev);
  }

  /** The same entries, with the same values of every attribute that no plugin writes. */
  ghost predicate SameElsewhere(u: Tree, z: Tree) {
    && z.Keys == u.Keys
    && forall d, name: string ::
         d in u && Lower(name) != "memberof" && Lower(name) != "objectclass" && Lower(name) != "member"
         && Lower(name) != "uniquemember" ==>
           Values(z[d], name) == Values(u[d], name)
  }

  lemma PluginsSame(u: Tree, z: Tree, scopes: seq<Name>, nested: bool, memberOfFirst: bool, ev: WriteEvent)
    requires Tidy(u) && PluginsRan(u, z, scopes, nested, memberOfFirst, ev)
    ensures SameElsewhere(u, z)
  {
    hide PluginsRan, Tidy, ValuesOf, Canonical;
    LowerNames();
    PluginsKeys(u, z, scopes, nested, memberOfFirst, ev);
    forall d, name: string |
        d in u && Lower(name) != "memberof" && Lower(name) != "objectclass" && Lower(name) != "member"
        && Lower(name) != "uniquemember"
      ensures d in z && Values(z[d], name) == Values(u[d], name)
    {
      PluginsKeepRest(u, z, scopes, nested, memberOfFirst, ev, d, name);
    }
  }

  lemma LowerNames()
    ensures Lower("memberOf") == "memberof" && Lower("objectClass") == "objectclass" && Lower("member") == "member"
    ensures Lower("uniqueMember") == "uniquemember"
  {
  }

  lemma PluginsKeys(u: Tree, z: Tree, scopes: seq<Name>, nested: bool, memberOfFirst: bool, ev: WriteEvent)
    requires PluginsRan(u, z, scopes, nested, memberOfFirst, ev)
    ensures z.Keys == u.Keys
  {
    hide Touches, GroupGraph, MappingOf, RepairFor, Canonical, Reaching, HasClass, MemberOfNames, SameBut;
    var mid, seeds :| Ran(u, mid, z, seeds, scopes, nested, memberOfFirst, ev);
  }
}
