// What group entries say: which values make an entry a group and name its members, and whom
// the managed groups name once a committed request is through the plugins.
module References {
  import opened Text
  import opened DnSyntax
  import opened Names
  import opened Entries
  import opened Stores
  import opened Graphs
  import opened MemberOf
  import opened RefInt
  import opened Changes
  import Edits
  import opened Convergence
  import opened Writes
  import opened Servers
  import opened Runs
  import opened Outcomes

  // ---------------------------------------------------------------------------
  // Groups and members in the text of an entry
  // ---------------------------------------------------------------------------

  /** An entry is a group by either of two object classes, in any case. */
  lemma GroupMeaning(e: Entry)
    ensures IsGroup(e) <==>
              exists c :: c in Values(e, "objectClass")
                  && (Lower(c) == "groupofnames" || Lower(c) == "groupofuniquenames")
  {
    ClassNames();
    hide Lower;
    var vs := Values(e, "objectClass");
    if IsGroup(e) {
      var i :| 0 <= i < |vs| && (EqualFold(vs[i], "groupOfNames") || EqualFold(vs[i], "groupOfUniqueNames"));
      assert vs[i] in vs;
    }
    if c :| c in vs && (Lower(c) == "groupofnames" || Lower(c) == "groupofuniquenames") {
      var i :| 0 <= i < |vs| && vs[i] == c;
      assert EqualFold(vs[i], "groupOfNames") || EqualFold(vs[i], "groupOfUniqueNames");
    }
  }

  lemma ClassNames()
    ensures Lower("groupOfNames") == "groupofnames" && Lower("groupOfUniqueNames") == "groupofuniquenames"
  {
  }

  /** The DN is one whose folded form is n: the same types, the values in lower case. */
  predicate StandsFor(d: DN, n: Name) {
    && TabFree(d) && |d| == |n|
    && forall i :: 0 <= i < |d| ==> d[i].attr == n[i].attr && Lower(d[i].value) == n[i].value
  }

  lemma NamedBy(v: string, unique: bool, n: Name)
    ensures NameOf(v, unique) == Some(n) <==>
              var t := if unique then v[..FirstUnescaped(v, '#')] else v;
              ParseDN(t).Some? && StandsFor(ParseDN(t).value, n)
  {
    hide ParseDN, FirstUnescaped;
    var d := ParsedDN(v, unique);
    if d.Some? && TabFree(d.value) {
      var f := Fold(d.value);
      assert Canon(d.value) == Some(f);
      if StandsFor(d.value, n) {
        forall i | 0 <= i < |f| ensures f[i] == n[i] { assert f[i] == FoldRdn(d.value[i]); }
        assert f == n;
      }
    }
  }

  /** A group names n when a member value parses to it, or a uniqueMember value in front of its bit-string suffix. */
  lemma MemberMeaning(e: Entry, n: Name)
    ensures n in MemberNames(e) <==>
              || (exists v :: v in Values(e, "member") && ParseDN(v).Some? && StandsFor(ParseDN(v).value, n))
              || (exists v :: v in Values(e, "uniqueMember")
                    && var t := v[..FirstUnescaped(v, '#')]; ParseDN(t).Some? && StandsFor(ParseDN(t).value, n))
  {
    hide NameOf, ParseDN, StandsFor, FirstUnescaped;
    forall v, unique
      ensures NameOf(v, unique) == Some(n) <==>
                var t := if unique then v[..FirstUnescaped(v, '#')] else v;
                ParseDN(t).Some? && StandsFor(ParseDN(t).value, n)
    {
      NamedBy(v, unique, n);
    }
    InNames(Values(e, "member"), false, n);
    InNames(Values(e, "uniqueMember"), true, n);
  }

  lemma InNames(vs: seq<string>, unique: bool, n: Name)
    ensures n in NamesIn(vs, unique) <==> exists v :: v in vs && NameOf(v, unique) == Some(n)
  {
    hide NameOf;
  }

  /** The memberOf attribute is there exactly when some group is reached. */
  lemma MemberOfIsThere(e: Entry, values: seq<string>)
    requires Distinct(e.attrs)
    ensures Has(WithMemberOf(e, values), "memberOf") <==> values != []
  {
    NamesDiffer();
    hide EqualFold, Distinct, SetAttr, ValuesOf;
    var e1 := SetAttr(e, "memberOf", values);
    SetAttrValues(e, "memberOf", values, "memberOf");
    Edits.SetAttrHas(e, "memberOf", values, "memberOf");
    FoldReflexive("memberOf");
    ClassEditHas(e1);
  }

  lemma ClassEditHas(e: Entry)
    requires Distinct(e.attrs)
    ensures Has(EnsureClass(e, "nsmemberof"), "memberOf") <==> Has(e, "memberOf")
    ensures Has(RemoveClass(e, "nsmemberof"), "memberOf") <==> Has(e, "memberOf")
  {
    NamesDiffer();
    Edits.SetAttrHas(e, "objectClass", Values(e, "objectClass") + ["nsmemberof"], "memberOf");
    Edits.HasSome(e, "memberOf");
    Edits.HasSome(RemoveClass(e, "nsmemberof"), "memberOf");
    hide EqualFold;
    var a' := RemoveClass(e, "nsmemberof").attrs;
    assert forall k :: 0 <= k < |a'| ==> a'[k].name == e.attrs[k].name;
  }

  // ---------------------------------------------------------------------------
  // After the plugins
  // ---------------------------------------------------------------------------

  /** A delete: every managed group names whom it named, without the entry that is gone. */
  lemma AfterDelete(u: Tree, z: Tree, scopes: seq<Name>, nested: bool, memberOfFirst: bool, ev: WriteEvent, x: Name,
      g: Name)
    requires Tidy(u) && PluginsRan(u, z, scopes, nested, memberOfFirst, ev)
    requires ev.op == WriteDelete && ev.before.Some? && ev.before.value.dn == x && UnderAny(x, scopes)
    requires g in u && UnderAny(g, scopes) && IsGroup(u[g])
    ensures g in z && IsGroup(z[g]) && MemberNames(z[g]) == MemberNames(u[g]) - {x}
  {
    hide UnderAny, GroupGraph, Touches, Reaching, Canonical, RepairedTree, MemberNames, MemberOfNames, IsGroup, SameBut,
        HasClass, Tidy, MappingOf, OnlyMembersDiffer;
    var mid, seeds :| Ran(u, mid, z, seeds, scopes, nested, memberOfFirst, ev);
    assert RepairFor(ev, scopes) == Drop(x);
    DropIn(u, scopes, x, g);
    if memberOfFirst {
      SameMembers(u[g], mid[g]);
      DropIn(mid, scopes, x, g);
    } else {
      SameMembers(mid[g], z[g]);
    }
  }

  lemma DropIn(t: Tree, scopes: seq<Name>, x: Name, g: Name)
    requires Tidy(t) && g in t
    ensures var w := RepairedTree(t, scopes, Drop(x));
      && g in w && (IsGroup(w[g]) <==> IsGroup(t[g]))
      && (UnderAny(g, scopes) && IsGroup(t[g]) ==> MemberNames(w[g]) == MemberNames(t[g]) - {x})
  {
    hide UnderAny, Canonical, RepairedTree, MemberNames, MemberOfNames, IsGroup, OnlyMembersDiffer, Distinct;
    RepairedFacts(t, scopes, Drop(x), g);
    OnlyMembersFacts(t[g], RepairedTree(t, scopes, Drop(x))[g]);
    DropFacts(t[g], x);
  }

  /** A move whose redirected values survive: every managed group names the new places of whom it named. */
  lemma AfterMove(u: Tree, z: Tree, scopes: seq<Name>, nested: bool, memberOfFirst: bool, ev: WriteEvent, from: Name,
      to: Name, g: Name)
    requires Tidy(u) && PluginsRan(u, z, scopes, nested, memberOfFirst, ev) && from != [] && to != [] && from != to
    requires ev.op == WriteRename && ev.before.Some? && ev.before.value.dn == from
    requires ev.after.Some? && ev.after.value.dn == to && UnderAny(from, scopes) && UnderAny(to, scopes)
    requires SafeTree(u, scopes, from, to) && g in u && UnderAny(g, scopes) && IsGroup(u[g])
    ensures g in z && IsGroup(z[g])
    ensures forall n :: n in MemberNames(z[g]) <==> exists m :: m in MemberNames(u[g]) && Place(m, from, to) == n
  {
    hide UnderAny, GroupGraph, Touches, Reaching, Canonical, RepairedTree, MemberNames, MemberOfNames, IsGroup, SameBut,
        HasClass, Tidy, MappingOf, OnlyMembersDiffer, Place, Moved, SafeToRedirect;
    var mid, seeds :| Ran(u, mid, z, seeds, scopes, nested, memberOfFirst, ev);
    assert RepairFor(ev, scopes) == Redirect(from, to);
    RedirectIn(u, scopes, from, to, g);
    if memberOfFirst {
      SameMembers(u[g], mid[g]);
      SafeAgain(u[g], mid[g], from, to);
      RedirectIn(mid, scopes, from, to, g);
    } else {
      SameMembers(mid[g], z[g]);
    }
    forall m ensures Moved(m, from, to) == Place(m, from, to) { PlaceIsMoved(m, from, to); }
  }

  lemma SafeAgain(e: Entry, e': Entry, from: Name, to: Name)
    requires Values(e', "member") == Values(e, "member") && Values(e', "uniqueMember") == Values(e, "uniqueMember")
    ensures SafeToRedirect(e', from, to) <==> SafeToRedirect(e, from, to)
  {
  }

  lemma RedirectIn(t: Tree, scopes: seq<Name>, from: Name, to: Name, g: Name)
    requires Tidy(t) && g in t && from != [] && to != [] && UnderAny(g, scopes) && IsGroup(t[g])
    requires SafeToRedirect(t[g], from, to)
    ensures var w := RepairedTree(t, scopes, Redirect(from, to));
      g in w && IsGroup(w[g]) && MemberNames(w[g]) == Image(MemberNames(t[g]), Relocation(from, to))
  {
    hide UnderAny, Canonical, RepairedTree, MemberNames, MemberOfNames, IsGroup, OnlyMembersDiffer, Distinct,
        SafeToRedirect, Image;
    RepairedFacts(t, scopes, Redirect(from, to), g);
    OnlyMembersFacts(t[g], RepairedTree(t, scopes, Redirect(from, to))[g]);
    RedirectFacts(t[g], from, to);
  }

  /** Any other write: every entry names whom it named. */
  lemma AfterOther(u: Tree, z: Tree, scopes: seq<Name>, nested: bool, memberOfFirst: bool, ev: WriteEvent, g: Name)
    requires Tidy(u) && PluginsRan(u, z, scopes, nested, memberOfFirst, ev) && g in u
    requires ev.op == WriteAdd || ev.op == WriteModify
          || (ev.op == WriteRename && ev.before.Some? && ev.after.Some? && ev.before.value.dn == ev.after.value.dn)
    ensures g in z && (IsGroup(z[g]) <==> IsGroup(u[g])) && MemberNames(z[g]) == MemberNames(u[g])
  {
    hide UnderAny, GroupGraph, Touches, Reaching, Canonical, RepairedTree, MemberNames, MemberOfNames, IsGroup, SameBut,
        HasClass, Tidy, MappingOf, Ran;
    var mid, seeds :| Ran(u, mid, z, seeds, scopes, nested, memberOfFirst, ev);
    assert RepairFor(ev, scopes) == NoRepair;
    RanWithoutRepair(u, mid, z, seeds, scopes, nested, memberOfFirst, ev);
    SameMembers(u[g], z[g]);
  }

  // ---------------------------------------------------------------------------
  // After a committed request
  // ---------------------------------------------------------------------------

  /** After a committed delete no managed group names the entry, and whom else it names has not changed. */
  lemma DeleteLeavesNoReference(t: Tree, z: Tree, scopes: seq<Name>, nested: bool, memberOfFirst: bool, c: Call,
      g: Name)
    requires WellShaped(t, scopes) && Siblings(scopes) && c.request.DeleteRequest? && c.request.dn != []
    requires Code(t, scopes, c.policy, c.request) == Success
    requires Served(t, z, scopes, nested, memberOfFirst, c.policy, c.request, c.stamp)
    requires g in z && IsGroup(z[g])
    ensures g in t && MemberNames(z[g]) == MemberNames(t[g]) - {c.request.dn}
  {
    hide Canonical, PluginsRan, WellShaped, Siblings, MemberNames, IsGroup, UnderAny, Code, Tidy;
    var u, ev :| Edit(t, u, c.policy, c.request, c.stamp, ev) && PluginsRan(u, z, scopes, nested, memberOfFirst, ev);
    EditKeepsShape(t, u, scopes, c, ev);
    ShapeIsTidy(u, scopes);
    PluginsKeys(u, z, scopes, nested, memberOfFirst, ev);
    ShapeManaged(t, scopes, c.request.dn);
    ShapeManaged(u, scopes, g);
    EntryInShape(t, scopes, c.request.dn);
    if IsGroup(u[g]) {
      AfterDelete(u, z, scopes, nested, memberOfFirst, ev, c.request.dn, g);
    } else {
      StaysNoGroup(u, z, scopes, nested, memberOfFirst, ev, g);
    }
  }

  /**
   * After a committed move whose redirected values survive, every managed group names the new
   * places of whom the edit left it naming.
   */
  lemma MoveLeadsReferences(t: Tree, z: Tree, scopes: seq<Name>, nested: bool, memberOfFirst: bool, c: Call, to: Name)
    requires WellShaped(t, scopes) && Siblings(scopes) && c.request.ModifyDNRequest? && c.request.dn != []
    requires Code(t, scopes, c.policy, c.request) == Success
    requires to == Target(c.request.newRdn, SuperiorOf(c.request).value) && to != c.request.dn
    requires SafeMove(t, scopes, c.request.dn, to)
    requires Served(t, z, scopes, nested, memberOfFirst, c.policy, c.request, c.stamp)
    ensures exists u, ev ::
              Edit(t, u, c.policy, c.request, c.stamp, ev) && LeadTo(u, z, scopes, c.request.dn, to)
  {
    hide Canonical, PluginsRan, WellShaped, Siblings, UnderAny, Code, Tidy, SafeMove, SafeTree, IsRename, Stamped,
        Renamed, MayRename, SameContext, AtOrUnder, MovedTree, LeadTo;
    var p, r, s := c.policy, c.request, c.stamp;
    var u, ev :| Edit(t, u, p, r, s, ev) && PluginsRan(u, z, scopes, nested, memberOfFirst, ev);
    var moved: Tree :| IsRename(t, moved, r.dn, to) && u == moved[to := ev.after.value];
    IsModifyDN(t, scopes, p, r);
    MoveEdited(t, moved, scopes, p, r, s, ev, to);
    MoveStaysSafe(t, moved, scopes, p, r, s, to);
    LeadThere(u, z, scopes, nested, memberOfFirst, ev, r.dn, to);
  }

  lemma IsModifyDN(t: Tree, scopes: seq<Name>, p: Policy, r: Request)
    requires r.ModifyDNRequest? && r.dn != []
    ensures Code(t, scopes, p, r) == ModifyDNCode(t, scopes, p, r)
  {
  }

  ghost predicate LeadTo(u: Tree, z: Tree, scopes: seq<Name>, from: Name, to: Name) {
    forall g :: g in u && UnderAny(g, scopes) && IsGroup(u[g]) ==>
      && g in z && IsGroup(z[g])
      && forall n :: n in MemberNames(z[g]) <==> exists m :: m in MemberNames(u[g]) && Place(m, from, to) == n
  }

  lemma LeadThere(u: Tree, z: Tree, scopes: seq<Name>, nested: bool, memberOfFirst: bool, ev: WriteEvent, from: Name,
      to: Name)
    requires Tidy(u) && PluginsRan(u, z, scopes, nested, memberOfFirst, ev) && from != [] && to != [] && from != to
    requires ev.op == WriteRename && ev.before.Some? && ev.before.value.dn == from
    requires ev.after.Some? && ev.after.value.dn == to && UnderAny(from, scopes) && UnderAny(to, scopes)
    requires SafeTree(u, scopes, from, to)
    ensures LeadTo(u, z, scopes, from, to)
  {
    hide Canonical, PluginsRan, UnderAny, Tidy, SafeTree, IsGroup, MemberNames, Place;
    forall g | g in u && UnderAny(g, scopes) && IsGroup(u[g])
      ensures g in z && IsGroup(z[g])
      ensures forall n :: n in MemberNames(z[g]) <==> exists m :: m in MemberNames(u[g]) && Place(m, from, to) == n
    {
      AfterMove(u, z, scopes, nested, memberOfFirst, ev, from, to, g);
    }
  }

  /** The plugins make no entry a group. */
  lemma StaysNoGroup(u: Tree, z: Tree, scopes: seq<Name>, nested: bool, memberOfFirst: bool, ev: WriteEvent, g: Name)
    requires Tidy(u) && PluginsRan(u, z, scopes, nested, memberOfFirst, ev) && g in u
    ensures g in z && (IsGroup(z[g]) <==> IsGroup(u[g]))
  {
    hide UnderAny, GroupGraph, Touches, Reaching, Canonical, RepairedTree, MemberNames, MemberOfNames, IsGroup, SameBut,
        HasClass, Tidy, MappingOf, OnlyMembersDiffer, RepairFor;
    var mid, seeds :| Ran(u, mid, z, seeds, scopes, nested, memberOfFirst, ev);
    var r := RepairFor(ev, scopes);
    if memberOfFirst {
      SameMembers(u[g], mid[g]);
      RepairedFacts(mid, scopes, r, g);
      OnlyMembersFacts(mid[g], z[g]);
    } else {
      RepairedFacts(u, scopes, r, g);
      OnlyMembersFacts(u[g], mid[g]);
      SameMembers(mid[g], z[g]);
    }
  }
}
