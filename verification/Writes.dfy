// The write operations: each runs in one store transaction together with the plugins,
// and commits as a whole or not at all.
module Writes {
  import opened Text
  import opened DnSyntax
  import opened Names
  import opened Entries
  import opened Changes

  datatype ResultCode =
    | Success
    | NoSuchObject
    | EntryAlreadyExists
    | NotAllowedOnNonLeaf
    | InsufficientAccessRights
    | ConstraintViolation
    | ObjectClassViolation
    | NoSuchAttributeOrValue
    | AttributeOrValueExists
    | AssertionFailed
    | UnwillingToPerform
    | AffectsMultipleDSAs
    | InvalidDNSyntax
    | OperationsError

  datatype Perm = AddPerm | WritePerm | DeletePerm | ModDNPerm | ExistencePerm | EntryWriteNotDenied

  /** The decisions made outside the write path: access control, schema and value matching. */
  datatype Policy = Policy(
    allowed: (Name, string, Perm) -> bool,
    modifiable: string -> bool,
    schemaOk: Entry -> bool,
    matches: Matcher
  )

  /** memberOf is declared operational, so no client write may carry it. */
  ghost predicate ProtectsMemberOf(p: Policy) {
    forall a :: EqualFold(a, "memberOf") ==> !p.modifiable(a)
  }

  // ---------------------------------------------------------------------------
  // Server-owned attributes
  // ---------------------------------------------------------------------------

  /** applyModifyOpAttrs. */
  function Stamped(e: Entry, now: string, who: string): Entry {
    SetAttr(SetAttr(e, "modifyTimestamp", [now]), "modifiersName", [who])
  }

  /** applyAddOpAttrs. */
  function StampedNew(e: Entry, uuid: string, now: string, who: string): Entry {
    var e1 := SetAttr(SetAttr(e, "entryUUID", [uuid]), "createTimestamp", [now]);
    SetAttr(SetAttr(SetAttr(e1, "modifyTimestamp", [now]), "creatorsName", [who]), "modifiersName", [who])
  }

  /** An attribute name the plugins read. */
  predicate Watched(name: string) {
    name == "member" || name == "uniqueMember" || name == "memberOf" || name == "objectClass"
  }

  lemma StampNames(name: string)
    requires Watched(name)
    ensures !EqualFold("modifyTimestamp", name) && !EqualFold("modifiersName", name)
    ensures !EqualFold("entryUUID", name) && !EqualFold("createTimestamp", name) && !EqualFold("creatorsName", name)
  {
    assert |Lower("modifyTimestamp")| == 15 && |Lower("modifiersName")| == 13 && |Lower("entryUUID")| == 9;
    assert |Lower("createTimestamp")| == 15 && |Lower("creatorsName")| == 12;
    assert |Lower("member")| == 6 && |Lower("memberOf")| == 8 && |Lower("objectClass")| == 11;
    assert Lower("creatorsName")[0] == 'c' && Lower("uniqueMember")[0] == 'u';
  }

  lemma StampedFacts(e: Entry, now: string, who: string, name: string)
    requires Distinct(e.attrs) && Watched(name)
    ensures var e' := Stamped(e, now, who);
      Distinct(e'.attrs) && e'.dn == e.dn && Values(e', name) == Values(e, name)
  {
    hide SetAttr, EqualFold, Distinct, ValuesOf, Watched;
    StampNames(name);
    var e1 := SetAttr(e, "modifyTimestamp", [now]);
    SetAttrValues(e, "modifyTimestamp", [now], name);
    SetAttrValues(e1, "modifiersName", [who], name);
  }

  lemma StampedNewFacts(e: Entry, uuid: string, now: string, who: string, name: string)
    requires Distinct(e.attrs) && Watched(name)
    ensures var e' := StampedNew(e, uuid, now, who);
      Distinct(e'.attrs) && e'.dn == e.dn && Values(e', name) == Values(e, name)
  {
    hide StampedNew, Distinct, ValuesOf, Watched, EqualFold;
    StampNames(name);
    StampedNewExactly(e, uuid, now, who, name);
  }

  lemma StampsDiffer()
    ensures !EqualFold("modifyTimestamp", "modifiersName") && !EqualFold("entryUUID", "createTimestamp")
    ensures !EqualFold("entryUUID", "modifyTimestamp") && !EqualFold("entryUUID", "creatorsName")
    ensures !EqualFold("entryUUID", "modifiersName") && !EqualFold("createTimestamp", "creatorsName")
    ensures !EqualFold("createTimestamp", "modifiersName") && !EqualFold("modifyTimestamp", "creatorsName")
  {
    assert |Lower("modifyTimestamp")| == 15 && |Lower("modifiersName")| == 13 && |Lower("entryUUID")| == 9;
    assert |Lower("createTimestamp")| == 15 && |Lower("creatorsName")| == 12;
    assert Lower("modifyTimestamp")[0] == 'm' && Lower("createTimestamp")[0] == 'c';
  }

  /** The entry after a modification: the time and the author, and everything else as it was. */
  lemma StampedExactly(e: Entry, now: string, who: string, name: string)
    requires Distinct(e.attrs)
    ensures var e' := Stamped(e, now, who);
      && Distinct(e'.attrs) && e'.dn == e.dn
      && Values(e', name) ==
         if EqualFold("modifyTimestamp", name) then [now]
         else if EqualFold("modifiersName", name) then [who]
         else Values(e, name)
  {
    hide SetAttr, EqualFold, Distinct, ValuesOf;
    StampsDiffer();
    var e1 := SetAttr(e, "modifyTimestamp", [now]);
    SetSame(e, "modifyTimestamp", [now], name);
    SetSame(e1, "modifiersName", [who], name);
    FoldBoth("modifyTimestamp", "modifiersName", name);
  }

  /** The entry after an add: identity, both times and both authors, and everything else as it came. */
  lemma StampedNewExactly(e: Entry, uuid: string, now: string, who: string, name: string)
    requires Distinct(e.attrs)
    ensures var e' := StampedNew(e, uuid, now, who);
      && Distinct(e'.attrs) && e'.dn == e.dn
      && Values(e', name) ==
         if EqualFold("entryUUID", name) then [uuid]
         else if EqualFold("createTimestamp", name) || EqualFold("modifyTimestamp", name) then [now]
         else if EqualFold("creatorsName", name) || EqualFold("modifiersName", name) then [who]
         else Values(e, name)
  {
    hide SetAttr, EqualFold, Distinct, ValuesOf;
    StampsDiffer();
    var e1 := SetAttr(e, "entryUUID", [uuid]);
    SetSame(e, "entryUUID", [uuid], name);
    var e2 := SetAttr(e1, "createTimestamp", [now]);
    SetSame(e1, "createTimestamp", [now], name);
    var e3 := SetAttr(e2, "modifyTimestamp", [now]);
    SetSame(e2, "modifyTimestamp", [now], name);
    var e4 := SetAttr(e3, "creatorsName", [who]);
    SetSame(e3, "creatorsName", [who], name);
    SetSame(e4, "modifiersName", [who], name);
    FoldBoth("entryUUID", "createTimestamp", name);
    FoldBoth("entryUUID", "modifyTimestamp", name);
    FoldBoth("entryUUID", "creatorsName", name);
    FoldBoth("entryUUID", "modifiersName", name);
    FoldBoth("createTimestamp", "creatorsName", name);
    FoldBoth("createTimestamp", "modifiersName", name);
    FoldBoth("modifyTimestamp", "creatorsName", name);
    FoldBoth("modifyTimestamp", "modifiersName", name);
  }

  lemma SetSame(e: Entry, attr: string, values: seq<string>, name: string)
    requires Distinct(e.attrs)
    ensures var e' := SetAttr(e, attr, values);
      && Distinct(e'.attrs) && e'.dn == e.dn
      && Values(e', name) == if EqualFold(attr, name) then values else Values(e, name)
  {
    hide SetAttr, EqualFold, Distinct, ValuesOf;
    SetAttrValues(e, attr, values, name);
    SameNameSameValues(SetAttr(e, attr, values), attr, name);
  }

  lemma FoldBoth(a: string, b: string, name: string)
    ensures EqualFold(a, name) && EqualFold(b, name) ==> EqualFold(a, b)
  {
  }

  // ---------------------------------------------------------------------------
  // RDN maintenance
  // ---------------------------------------------------------------------------

  /** With deleteOldRDN the old value goes first and its emptied attribute stays in place for now. */
  function DropOldRdn(m: Matcher, e: Entry, attr: string, value: string, deleteOld: bool): Entry {
    if deleteOld && Has(e, attr) then SetValues(e, attr, RemoveMatched(m, attr, Values(e, attr), value)) else e
  }

  /** The new value is added unless an equal one is left. */
  function AddNewRdn(m: Matcher, e: Entry, attr: string, value: string): Entry {
    if HasMatched(m, attr, Values(e, attr), value) then e
    else if Has(e, attr) then SetValues(e, attr, Values(e, attr) + [value])
    else Append(e, attr, [value])
  }

  function DropIfEmpty(e: Entry, attr: string): Entry {
    if Has(e, attr) && Values(e, attr) == [] then Without(e, attr) else e
  }

  function EditRdn(m: Matcher, e: Entry, old_: Rdn, new_: Rdn, deleteOld: bool): Entry {
    DropIfEmpty(AddNewRdn(m, DropOldRdn(m, e, old_.attr, old_.value, deleteOld), new_.attr, new_.value), old_.attr)
  }

  /** Every value of name in e' is a value of e, or the one given. */
  ghost predicate NoNewValues(e: Entry, e': Entry, name: string, attr: string, value: string) {
    forall v :: v in Values(e', name) ==> v in Values(e, name) || (EqualFold(attr, name) && v == value)
  }

  lemma EditRdnFacts(m: Matcher, e: Entry, old_: Rdn, new_: Rdn, deleteOld: bool, name: string)
    requires Distinct(e.attrs)
    ensures var e' := EditRdn(m, e, old_, new_, deleteOld);
      Distinct(e'.attrs) && e'.dn == e.dn && NoNewValues(e, e', name, new_.attr, new_.value)
  {
    hide SetAttr, SetValues, Append, Distinct, ValuesOf, EqualFold, RemoveMatched, HasMatched;
    var e1 := DropOldRdn(m, e, old_.attr, old_.value, deleteOld);
    DropOldFacts(m, e, old_.attr, old_.value, deleteOld, name);
    var e2 := AddNewRdn(m, e1, new_.attr, new_.value);
    AddNewFacts(m, e1, new_.attr, new_.value, name);
    SetAttrValues(e2, old_.attr, [], name);
    SameNameSameValues(Without(e2, old_.attr), old_.attr, name);
  }

  lemma {:induction false} SameNameValues(attrs: seq<Attr>, a: string, b: string)
    requires EqualFold(a, b)
    ensures ValuesOf(attrs, a) == ValuesOf(attrs, b)
  {
    if attrs != [] {
      SameNameValues(attrs[1..], a, b);
    }
  }

  lemma SameNameSameValues(e: Entry, a: string, b: string)
    ensures EqualFold(a, b) ==> Values(e, a) == Values(e, b)
  {
    if EqualFold(a, b) {
      SameNameValues(e.attrs, a, b);
    }
  }

  lemma DropOldFacts(m: Matcher, e: Entry, attr: string, value: string, deleteOld: bool, name: string)
    requires Distinct(e.attrs)
    ensures var e' := DropOldRdn(m, e, attr, value, deleteOld);
      Distinct(e'.attrs) && e'.dn == e.dn && forall v :: v in Values(e', name) ==> v in Values(e, name)
  {
    hide SetValues, Distinct, ValuesOf, EqualFold;
    if deleteOld && Has(e, attr) {
      SetValuesFacts(e, attr, RemoveMatched(m, attr, Values(e, attr), value), name);
      RemoveMatchedMembers(m, attr, Values(e, attr), value);
      SameNameSameValues(e, attr, name);
      SameNameSameValues(DropOldRdn(m, e, attr, value, deleteOld), attr, name);
    }
  }

  lemma AddNewFacts(m: Matcher, e: Entry, attr: string, value: string, name: string)
    requires Distinct(e.attrs)
    ensures var e' := AddNewRdn(m, e, attr, value);
      Distinct(e'.attrs) && e'.dn == e.dn && NoNewValues(e, e', name, attr, value)
    ensures var e' := AddNewRdn(m, e, attr, value);
      value in Values(e', attr) || HasMatched(m, attr, Values(e', attr), value)
  {
    hide SetValues, Append, Distinct, ValuesOf, EqualFold;
    var e' := AddNewRdn(m, e, attr, value);
    SameNameSameValues(e, attr, name);
    SameNameSameValues(e', attr, name);
    if !HasMatched(m, attr, Values(e, attr), value) {
      if Has(e, attr) {
        SetValuesFacts(e, attr, Values(e, attr) + [value], name);
        assert (Values(e, attr) + [value])[|Values(e, attr)|] == value;
      } else {
        AppendFacts(e, attr, [value], name);
        assert [value][0] == value;
      }
    }
  }

  /** After the edit the entry carries its new RDN value, whatever the old one was. */
  lemma EditRdnKeepsNew(m: Matcher, e: Entry, old_: Rdn, new_: Rdn, deleteOld: bool)
    requires Distinct(e.attrs)
    ensures var vs := Values(EditRdn(m, e, old_, new_, deleteOld), new_.attr);
      new_.value in vs || HasMatched(m, new_.attr, vs, new_.value)
  {
    hide SetAttr, SetValues, Append, Distinct, ValuesOf, EqualFold, RemoveMatched;
    var e1 := DropOldRdn(m, e, old_.attr, old_.value, deleteOld);
    DropOldFacts(m, e, old_.attr, old_.value, deleteOld, new_.attr);
    var e2 := AddNewRdn(m, e1, new_.attr, new_.value);
    AddNewFacts(m, e1, new_.attr, new_.value, new_.attr);
    SameNameSameValues(e2, old_.attr, new_.attr);
    SetAttrValues(e2, old_.attr, [], new_.attr);
  }

  /**
   * An attribute's values after the edit: with deleteOldRDN without the old value, and with
   * the new one unless an equal one is left.
   */
  function EditedValues(m: Matcher, e: Entry, old_: Rdn, new_: Rdn, deleteOld: bool, name: string): seq<string> {
    var kept :=
      if deleteOld && EqualFold(old_.attr, name) then RemoveMatched(m, old_.attr, Values(e, name), old_.value)
      else Values(e, name);
    if EqualFold(new_.attr, name) && !HasMatched(m, new_.attr, kept, new_.value) then kept + [new_.value] else kept
  }

  /** The edit, exactly: what every attribute holds after it. */
  lemma EditRdnExactly(m: Matcher, e: Entry, old_: Rdn, new_: Rdn, deleteOld: bool, name: string)
    requires Distinct(e.attrs)
    ensures Values(EditRdn(m, e, old_, new_, deleteOld), name) == EditedValues(m, e, old_, new_, deleteOld, name)
  {
    hide SetAttr, SetValues, Append, Distinct, ValuesOf, EqualFold, RemoveMatched, HasMatched, DropOldRdn, AddNewRdn;
    var e1 := DropOldRdn(m, e, old_.attr, old_.value, deleteOld);
    DropOldFacts(m, e, old_.attr, old_.value, deleteOld, name);
    DropOldExactly(m, e, old_.attr, old_.value, deleteOld, name);
    var e2 := AddNewRdn(m, e1, new_.attr, new_.value);
    AddNewFacts(m, e1, new_.attr, new_.value, name);
    AddNewExactly(m, e1, new_.attr, new_.value, name);
    SetAttrValues(e2, old_.attr, [], name);
    SameNameSameValues(e2, old_.attr, name);
    SameNameSameValues(Without(e2, old_.attr), old_.attr, name);
  }

  lemma DropOldExactly(m: Matcher, e: Entry, attr: string, value: string, deleteOld: bool, name: string)
    requires Distinct(e.attrs)
    ensures Values(DropOldRdn(m, e, attr, value, deleteOld), name) ==
            if deleteOld
                && EqualFold(attr, name) then RemoveMatched(m, attr, Values(e, name), value) else Values(e, name)
  {
    hide SetValues, Distinct, ValuesOf, EqualFold;
    SameNameSameValues(e, attr, name);
    SameNameSameValues(DropOldRdn(m, e, attr, value, deleteOld), attr, name);
    if Has(e, attr) {
      SetValuesFacts(e, attr, RemoveMatched(m, attr, Values(e, attr), value), name);
    } else {
      ValuesAtIndex(e.attrs, attr);
    }
  }

  lemma AddNewExactly(m: Matcher, e: Entry, attr: string, value: string, name: string)
    requires Distinct(e.attrs)
    ensures Values(AddNewRdn(m, e, attr, value), name) ==
            if EqualFold(attr, name)
                && !HasMatched(m, attr, Values(e, name), value) then Values(e, name) + [value] else Values(e, name)
  {
    hide SetValues, Append, Distinct, ValuesOf, EqualFold, HasMatched;
    SameNameSameValues(e, attr, name);
    SameNameSameValues(AddNewRdn(m, e, attr, value), attr, name);
    if !HasMatched(m, attr, Values(e, attr), value) {
      if Has(e, attr) {
        SetValuesFacts(e, attr, Values(e, attr) + [value], name);
      } else {
        ValuesAtIndex(e.attrs, attr);
        AppendFacts(e, attr, [value], name);
        assert [] + [value] == [value];
      }
    }
  }
}
