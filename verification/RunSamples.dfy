// Requests after which the server falls short of what it promises.
module RunSamples {
  import opened Text
  import opened DnSyntax
  import opened Names
  import opened Entries
  import opened Stores
  import opened Graphs
  import opened MemberOf
  import opened RefInt
  import opened Convergence
  import opened Changes
  import opened Writes
  import opened Servers
  import opened Runs
  import opened Samples

  /** Everything a client may change, and everyone may do anything or nothing. */
  function PolicyOf(allowed: bool): Policy {
    Policy((d: Name, a: string, q: Perm) => allowed, (a: string) => !EqualFold(a, "memberOf"), (e: Entry) => true,
        (a: string, x: string, y: string) => x == y)
  }

  lemma PolicyFacts(allowed: bool)
    ensures ProtectsMemberOf(PolicyOf(allowed))
  {
    forall a | EqualFold(a, "memberOf") ensures !PolicyOf(allowed).modifiable(a) {
    }
  }

  // ---------------------------------------------------------------------------
  // An entry that a group named before it existed
  // ---------------------------------------------------------------------------

  /** A tree with only a group at the suffix, which names an absent entry below it. */
  lemma DanglingGroup(suffix: Name, x: Name, v: string)
    requires |suffix| == 1 && |x| == 2 && x[1..] == suffix && NameOf(v, true) == Some(x) && UnderAny(suffix, [suffix])
    ensures var t := map[suffix := GroupOf(suffix, v)];
      && x !in t && WellShaped(t, [suffix]) && Converged(t, [suffix], false) && NamedInTree(t, [suffix], x)
  {
    hide UnderAny, Canonical, Distinct, IsGroup, MemberNames, MemberOfNames, NameOf, GroupOf;
    var t := map[suffix := GroupOf(suffix, v)];
    GroupOfFacts(suffix, v);
    OneName(v, true, x);
    assert GroupOf(suffix, v).dn == suffix by { GroupDn(suffix, v); }
    GraphAt(t, [suffix], suffix);
    assert MemberNames(t[suffix]) == {x} && suffix != x;
    hide GroupGraph;
    assert forall g :: g in GroupGraph(t, [suffix], Identity) ==> g == suffix by { GraphKeys(t, [suffix]); }
  }

  lemma GraphKeys(t: Tree, scopes: seq<Name>)
    ensures GroupGraph(t, scopes, Identity).Keys <= t.Keys
  {
    hide UnderAny, IsGroup, MemberNames, Image;
  }

  /** Adding an entry that is no group touches nothing. */
  lemma PlainAddRan(u: Tree, scopes: seq<Name>, e: Entry)
    requires Tidy(u) && !IsGroup(e)
    ensures PluginsRan(u, u, scopes, false, true, WriteEvent(WriteAdd, None, Some(e)))
  {
    hide UnderAny, IsGroup, MemberNames, Image, GroupGraph, Reaching, Recomputed, RepairedTree, Tidy, Canonical;
    var ev := WriteEvent(WriteAdd, None, Some(e));
    RecomputedNone(u, GroupGraph(u, scopes, Identity), false);
    NothingRepaired(u, scopes);
    assert Ran(u, u, u, {}, scopes, false, true, ev);
  }

  lemma StampedPlain(dn: Name, s: Stamp)
    ensures var e := StampedNew(Plain(dn), s.uuid, s.now, s.who); e.dn == dn && Distinct(e.attrs) && !IsGroup(e)
  {
    PlainFacts(dn);
    hide StampedNew, Distinct, EqualFold, Canonical, Watched;
    WatchedNames();
    StampedNewFacts(Plain(dn), s.uuid, s.now, s.who, "objectClass");
  }

  /** The tree with the group, and the request that adds whom it names. */
  ghost predicate IsSampleAdd(t: Tree, suffix: Name, x: Name, r: Request) {
    && |suffix| == 1 && |x| == 2 && x[1..] == suffix && UnderAny(suffix, [suffix]) && UnderAny(x, [suffix])
    && NameOf(Key(x), true) == Some(x) && t == map[suffix := GroupOf(suffix, Key(x))] && r == AddRequest(x, [])
  }

  lemma SampleAdd() returns (t: Tree, suffix: Name, x: Name, r: Request)
    ensures IsSampleAdd(t, suffix, x, r) && Siblings([suffix])
  {
    var to;
    suffix, x, to := MoveNames();
    SampleNames(suffix, x, to);
    hide UnderAny, NameOf, StripSuffix, Key, Canonical, AtOrUnder, Moved, Apart, Siblings, GroupOf;
    t, r := map[suffix := GroupOf(suffix, Key(x))], AddRequest(x, []);
  }

  lemma SampleAddAccepted(t: Tree, suffix: Name, x: Name, r: Request)
    requires IsSampleAdd(t, suffix, x, r)
    ensures AddCode(t, [suffix], PolicyOf(true), r) == Success
  {
    hide UnderAny, NameOf, Key, Canonical, GroupOf, Distinct;
    NoDuplicates();
    assert suffix != x && Parent(x) == Some(suffix);
  }

  lemma SampleAddStale(t: Tree, suffix: Name, x: Name, r: Request, s: Stamp, u: Tree, ev: WriteEvent)
    requires IsSampleAdd(t, suffix, x, r) && AddCode(t, [suffix], PolicyOf(true), r) == Success
    requires ev == WriteEvent(WriteAdd, None, Some(StampedNew(Plain(x), s.uuid, s.now, s.who)))
    requires u == t[x := ev.after.value]
    ensures WellShaped(t, [suffix]) && Converged(t, [suffix], false)
    ensures PluginsRan(u, u, [suffix], false, true, ev) && !Converged(u, [suffix], false)
  {
    hide UnderAny, NameOf, Key, Canonical, Tidy, WellShaped, Converged, GroupGraph, Reaching, NamedInTree, StampedNew,
        IsGroup, Distinct, GroupOf, PluginsRan, ProtectsMemberOf, AddCode, PolicyOf;
    DanglingGroup(suffix, x, Key(x));
    PolicyFacts(true);
    AddKeepsShape(t, [suffix], PolicyOf(true), r, s);
    ShapeIsTidy(u, [suffix]);
    StampedPlain(x, s);
    PlainAddRan(u, [suffix], ev.after.value);
    assert Edit(t, u, PolicyOf(true), r, s, ev);
    AddCommitExact(t, u, u, [suffix], false, true, PolicyOf(true), r, s, ev);
    StillNamed(t, [suffix], x, ev.after.value);
    PlainNotPulled(u, [suffix], ev, x);
  }

  lemma StillNamed(t: Tree, scopes: seq<Name>, x: Name, e: Entry)
    requires NamedInTree(t, scopes, x) && x !in t
    ensures NamedInTree(t[x := e], scopes, x)
  {
    hide UnderAny, IsGroup, MemberNames;
    var c :| c in t && UnderAny(c, scopes) && IsGroup(t[c]) && x in MemberNames(t[c]);
    assert t[x := e][c] == t[c];
  }

  /** Adding an entry that is no group recomputes nothing. */
  lemma PlainNotPulled(u: Tree, scopes: seq<Name>, ev: WriteEvent, x: Name)
    requires ev.op == WriteAdd && ev.after.Some? && !IsGroup(ev.after.value)
    ensures !Pulled(u, scopes, ev, false, x)
  {
    hide IsGroup, ScopedMembers;
  }

  /** A committed add of an entry that a group named already leaves its memberOf behind. */
  lemma AddLeavesStale() returns (t: Tree, u: Tree, scopes: seq<Name>, p: Policy, r: Request, s: Stamp, ev: WriteEvent)
    ensures WellShaped(t, scopes) && Siblings(scopes) && Converged(t, scopes, false) && ProtectsMemberOf(p)
    ensures r.AddRequest? && r.dn != [] && AddCode(t, scopes, p, r) == Success
    ensures Edit(t, u, p, r, s, ev) && PluginsRan(u, u, scopes, false, true, ev) && !Converged(u, scopes, false)
  {
    var suffix, x;
    t, suffix, x, r := SampleAdd();
    scopes, p, s := [suffix], PolicyOf(true), Stamp("", "", "");
    hide UnderAny, NameOf, Key, Canonical, Siblings, WellShaped, Converged, StampedNew, GroupOf, PluginsRan,
        ProtectsMemberOf, AddCode, PolicyOf;
    PolicyFacts(true);
    SampleAddAccepted(t, suffix, x, r);
    var e := StampedNew(Plain(x), s.uuid, s.now, s.who);
    u, ev := t[x := e], WriteEvent(WriteAdd, None, Some(e));
    SampleAddStale(t, suffix, x, r, s, u, ev);
  }

  lemma NoDuplicates()
    ensures Distinct([])
  {
  }

  // ---------------------------------------------------------------------------
  // A member whose suffix is spelled in another case
  // ---------------------------------------------------------------------------

  /** A group without members. */
  function BareGroup(dn: Name): Entry { Entry(dn, [Attr("objectClass", ["groupOfNames"])]) }

  /** The same group with one member value. */
  function Grouping(dn: Name, v: string): Entry {
    Entry(dn, [Attr("objectClass", ["groupOfNames"]), Attr("member", [v])])
  }

  lemma MoreNamesDiffer()
    ensures !EqualFold("objectClass", "member") && !EqualFold("objectClass", "uniqueMember")
    ensures !EqualFold("objectClass", "memberOf") && !EqualFold("member", "uniqueMember")
    ensures !EqualFold("member", "memberOf") && !EqualFold("member", "objectClass")
  {
    assert |Lower("objectClass")| == 11 && |Lower("member")| == 6 && |Lower("uniqueMember")| == 12;
    assert |Lower("memberOf")| == 8;
  }

  lemma BareGroupFacts(dn: Name)
    ensures var e := BareGroup(dn);
      && e.dn == dn && Distinct(e.attrs) && IsGroup(e) && MemberNames(e) == {} && MemberOfNames(e) == {}
      && IndexOf(e.attrs, "member") == 1
  {
    MoreNamesDiffer();
    FoldReflexive("objectClass");
    FoldReflexive("groupOfNames");
    NamesInNone(false);
    NamesInNone(true);
    hide EqualFold, NameOf, Canonical;
    var e := BareGroup(dn);
    assert e.attrs[1..] == [];
    ValuesAbsent(e.attrs, "member");
    ValuesAbsent(e.attrs, "uniqueMember");
    ValuesAbsent(e.attrs, "memberOf");
    assert Values(e, "objectClass") == ["groupOfNames"] && EqualFold(Values(e, "objectClass")[0], "groupOfNames");
  }

  lemma GroupingFacts(dn: Name, v: string)
    ensures var e := Grouping(dn, v);
      && e.dn == dn && Distinct(e.attrs) && IsGroup(e) && MemberOfNames(e) == {}
      && Values(e, "member") == [v] && Values(e, "uniqueMember") == [] && Values(e, "memberOf") == []
  {
    MoreNamesDiffer();
    FoldReflexive("objectClass");
    FoldReflexive("groupOfNames");
    FoldReflexive("member");
    NamesInNone(false);
    hide EqualFold, NameOf, Canonical;
    var e := Grouping(dn, v);
    assert e.attrs[1..] == [Attr("member", [v])] && e.attrs[1..][1..] == [];
    ValuesAbsent(e.attrs, "uniqueMember");
    ValuesAbsent(e.attrs, "memberOf");
    assert Values(e, "objectClass") == ["groupOfNames"] && EqualFold(Values(e, "objectClass")[0], "groupOfNames");
    assert ValuesOf(e.attrs, "member") == ValuesOf([Attr("member", [v])], "member") == [v];
  }

  /** suffix is a=x and x is a=x,a=x; v spells it a=x,a=X. */
  lemma Misspelling() returns (suffix: Name, x: Name, d: DN)
    ensures |suffix| == 1 && |x| == 2 && x[1..] == suffix && |d| == 2 && d[1..] != suffix && d != suffix
    ensures RefOf(String(d), false) == Some(Ref(x, d))
  {
    var n;
    n, suffix := HashSampleNames();
    x := suffix + suffix;
    d := [Rdn("a", "x"), Rdn("a", "X")];
    assert Lower("X") == "x" && Lower("x") == "x" && Lower("a") == "a";
    assert "X"[1..] == "" && "x"[1..] == "";
    assert ValidUtf8("X") && ValidUtf8("x");
    hide ValidUtf8, String, ParseDN, Lower;
    assert Fold(d) == x;
    assert WellFormed(d) && TabFree(d);
    NameOfText(d);
    assert d[1..][0].value == "X" && suffix[0].value == "x";
  }

  /** A group without members above an entry, and the request that adds the entry as spelled. */
  ghost predicate IsSampleModify(t: Tree, suffix: Name, x: Name, d: DN, r: Request) {
    && |suffix| == 1 && |x| == 2 && x[1..] == suffix && |d| == 2 && d[1..] != suffix && d != suffix
    && RefOf(String(d), false) == Some(Ref(x, d))
    && t == map[suffix := BareGroup(suffix), x := Plain(x)]
    && r == ModifyRequest(suffix, [Change(ModifyAdd, Attr("member", [String(d)]))], None)
  }

  lemma SampleModify() returns (t: Tree, suffix: Name, x: Name, d: DN, r: Request)
    ensures IsSampleModify(t, suffix, x, d, r)
  {
    suffix, x, d := Misspelling();
    hide RefOf, String, BareGroup, Plain, Canonical;
    t := map[suffix := BareGroup(suffix), x := Plain(x)];
    r := ModifyRequest(suffix, [Change(ModifyAdd, Attr("member", [String(d)]))], None);
  }

  lemma SampleManaged(t: Tree, suffix: Name, x: Name, d: DN, r: Request)
    requires IsSampleModify(t, suffix, x, d, r)
    ensures UnderAny(suffix, [suffix]) && UnderAny(x, [suffix]) && Siblings([suffix]) && suffix in t && x in t
    ensures suffix != x && t[suffix] == BareGroup(suffix) && t[x] == Plain(x) && t.Keys == {suffix, x}
    ensures |suffix| == 1 && |x| == 2 && x[1..] == suffix
  {
    hide RefOf, String, BareGroup, Plain, Canonical;
    ParentAtOrUnder(x, suffix);
    assert [suffix][0] == suffix;
  }

  lemma SampleModifyShape(t: Tree, suffix: Name, x: Name, d: DN, r: Request)
    requires IsSampleModify(t, suffix, x, d, r)
    ensures WellShaped(t, [suffix]) && Converged(t, [suffix], false)
  {
    hide RefOf, String, BareGroup, Plain, Canonical, UnderAny, Siblings, Distinct, IsGroup, MemberNames,
        MemberOfNames, GroupGraph, Reaching, IsSampleModify;
    SampleManaged(t, suffix, x, d, r);
    BareGroupFacts(suffix);
    PlainFacts(x);
    assert Plain(x).dn == x by { PlainDn(x); }
    forall y ensures Reaching(GroupGraph(t, [suffix], Identity), false, y) == {} {
      NobodyNamed(t, suffix, x, y);
    }
  }

  lemma PlainDn(x: Name)
    ensures Plain(x).dn == x
  {
  }

  lemma NobodyNamed(t: Tree, suffix: Name, x: Name, y: Name)
    requires t.Keys == {suffix, x} && MemberNames(t[suffix]) == {} && !IsGroup(t[x])
    ensures Reaching(GroupGraph(t, [suffix], Identity), false, y) == {}
  {
    hide UnderAny, IsGroup, MemberNames, Canonical;
    forall c | c in GroupGraph(t, [suffix], Identity) ensures y !in GroupGraph(t, [suffix], Identity)[c] {
      GraphAt(t, [suffix], c);
    }
  }

  lemma SampleModifyAccepted(t: Tree, suffix: Name, x: Name, d: DN, r: Request)
    requires IsSampleModify(t, suffix, x, d, r)
    ensures r.ModifyRequest? && r.dn == suffix && ModifyCode(t, PolicyOf(true), r) == Success
    ensures ApplyChanges(PolicyOf(true).matches, t[suffix], r.changes) == Edited(Grouping(suffix, String(d)))
  {
    hide RefOf, String, Canonical, Plain, EqualFold, BareGroup, Grouping, ApplyChange;
    SampleManaged(t, suffix, x, d, r);
    MoreNamesDiffer();
    var p, g := PolicyOf(true), Grouping(suffix, String(d));
    GroupingIs(p.matches, suffix, String(d));
    assert r.changes[0] == Change(ModifyAdd, Attr("member", [String(d)])) && r.changes[1..] == [];
    assert Gate(p, suffix, []) == Success && Gate(p, suffix, r.changes) == Success;
    assert ApplyChanges(p.matches, g, []) == Edited(g);
  }

  lemma GroupingIs(m: Matcher, dn: Name, v: string)
    ensures ApplyChange(m, BareGroup(dn), Change(ModifyAdd, Attr("member", [v]))) == Edited(Grouping(dn, v))
  {
    BareGroupFacts(dn);
    OneValueIsDistinct(m, "member", v);
    hide Canonical, EqualFold, Distinct, IsGroup, MemberNames, MemberOfNames, IndexOf, Dedup;
    assert Append(BareGroup(dn), "member", [v]).attrs == Grouping(dn, v).attrs;
  }

  lemma OneValueIsDistinct(m: Matcher, attr: string, v: string)
    ensures Dedup(m, attr, [v]) == [v]
  {
    assert [v][1..] == [] && [] + [v] == [v];
    assert DedupOnto(m, attr, [v], []) == [v];
  }

  /** The group as it is written. */
  lemma SampleWritten(suffix: Name, x: Name, d: DN, s: Stamp)
    requires |d| == 2 && d[1..] != suffix && d != suffix && |suffix| == 1 && RefOf(String(d), false) == Some(Ref(x, d))
    ensures var e := Stamped(Grouping(suffix, String(d)), s.now, s.who);
      && e.dn == suffix && Distinct(e.attrs) && IsGroup(e) && MemberOfNames(e) == {}
      && MemberNames(e) == {x} && ScopedMembers(e, [suffix], Identity) == {}
  {
    var g := Grouping(suffix, String(d));
    GroupingFacts(suffix, String(d));
    WatchedNames();
    hide Stamped, Distinct, ValuesOf, EqualFold, Canonical, Watched, RefOf, String, Grouping;
    var e := Stamped(g, s.now, s.who);
    StampedFacts(g, s.now, s.who, "member");
    StampedFacts(g, s.now, s.who, "uniqueMember");
    StampedFacts(g, s.now, s.who, "memberOf");
    StampedFacts(g, s.now, s.who, "objectClass");
    SameClasses(g, e);
    MemberOfIs(e, []);
    NamesInNone(false);
    NamesInNone(true);
    OneRef(e, x, d);
    assert !InScope(d, [suffix]);
  }

  lemma OneRef(e: Entry, x: Name, d: DN)
    requires Values(e, "member") == [String(d)] && Values(e, "uniqueMember") == []
    requires RefOf(String(d), false) == Some(Ref(x, d))
    ensures MemberNames(e) == {x} && RefTo(e, x) == Some(Ref(x, d))
  {
    hide ValuesOf, String, NameOf, ParsedDN, Canonical;
    assert NameOf(String(d), false) == Some(x);
    OneName(String(d), false, x);
    NamesInNone(true);
  }

  /** The modification pulls nothing in, and recomputes nothing. */
  lemma NothingPulled(t: Tree, u: Tree, suffix: Name, ev: WriteEvent, m: Name)
    requires ev.op == WriteModify && ev.before.Some? && ev.after.Some?
    requires MemberNames(ev.before.value) == {} && ScopedMembers(ev.after.value, [suffix], Identity) == {}
    requires ev.before.value.dn == ev.after.value.dn
    ensures !Pulled(u, [suffix], ev, false, m)
  {
    hide MemberNames, ScopedMembers, IsGroup, Canonical, UnderAny;
    assert MappingOf(ev) == Identity;
    if m in ScopedMembers(ev.before.value, [suffix], Identity) {
      ScopedFacts(ev.before.value, [suffix], Identity, m);
    }
  }

  lemma ModifyRan(u: Tree, scopes: seq<Name>, ev: WriteEvent)
    requires Tidy(u) && ev.op == WriteModify && MappingOf(ev) == Identity
    requires forall m :: !Pulled(u, scopes, ev, false, m)
    ensures PluginsRan(u, u, scopes, false, true, ev)
  {
    hide UnderAny, GroupGraph, Reaching, Recomputed, RepairedTree, Tidy, Canonical, Pulled, MappingOf;
    RecomputedNone(u, GroupGraph(u, scopes, Identity), false);
    NothingRepaired(u, scopes);
    assert Ran(u, u, u, {}, scopes, false, true, ev);
  }

  /** A committed Modify that adds a member whose suffix is spelled in another case leaves that entry behind. */
  lemma ModifyLeavesStale()
      returns (t: Tree, u: Tree, scopes: seq<Name>, p: Policy, r: Request, s: Stamp, ev: WriteEvent)
    ensures WellShaped(t, scopes) && Siblings(scopes) && Converged(t, scopes, false) && ProtectsMemberOf(p)
    ensures r.ModifyRequest? && r.dn != [] && ModifyCode(t, p, r) == Success
    ensures Edit(t, u, p, r, s, ev) && PluginsRan(u, u, scopes, false, true, ev) && !Converged(u, scopes, false)
  {
    var suffix, x, d;
    t, suffix, x, d, r := SampleModify();
    hide *;
    scopes, p, s := [suffix], PolicyOf(true), Stamp("", "", "");
    PolicyFacts(true);
    SampleManaged(t, suffix, x, d, r);
    SampleModifyShape(t, suffix, x, d, r);
    SampleModifyAccepted(t, suffix, x, d, r);
    u, ev := SampleEdited(t, suffix, x, d, r, s);
    SampleModifyStale(t, u, suffix, x, d, r, s, ev);
  }

  lemma SampleEdited(t: Tree, suffix: Name, x: Name, d: DN, r: Request, s: Stamp) returns (u: Tree, ev: WriteEvent)
    requires IsSampleModify(t, suffix, x, d, r) && r.ModifyRequest? && r.dn == suffix && suffix in t && suffix != []
    requires ApplyChanges(PolicyOf(true).matches, t[suffix], r.changes) == Edited(Grouping(suffix, String(d)))
    ensures Edit(t, u, PolicyOf(true), r, s, ev) && ev.op == WriteModify && suffix in u
    ensures u == t[suffix := u[suffix]] && u[suffix] == Stamped(Grouping(suffix, String(d)), s.now, s.who)
    ensures ev.before == Some(t[suffix]) && ev.after == Some(u[suffix])
  {
    hide Canonical, Stamped, Grouping, String, ApplyChanges, PolicyOf, IsSampleModify;
    var e := Stamped(Grouping(suffix, String(d)), s.now, s.who);
    u, ev := t[suffix := e], WriteEvent(WriteModify, Some(t[suffix]), Some(e));
  }

  lemma SampleModifyStale(t: Tree, u: Tree, suffix: Name, x: Name, d: DN, r: Request, s: Stamp, ev: WriteEvent)
    requires IsSampleModify(t, suffix, x, d, r) && r.ModifyRequest? && r.dn == suffix && suffix in t && suffix in u
    requires WellShaped(t, [suffix]) && Converged(t, [suffix], false) && ProtectsMemberOf(PolicyOf(true))
    requires ModifyCode(t, PolicyOf(true), r) == Success && r.dn != [] && Edit(t, u, PolicyOf(true), r, s, ev)
    requires u == t[suffix := u[suffix]] && u[suffix] == Stamped(Grouping(suffix, String(d)), s.now, s.who)
    requires ev.op == WriteModify && ev.before == Some(t[suffix]) && ev.after == Some(u[suffix])
    ensures PluginsRan(u, u, [suffix], false, true, ev) && !Converged(u, [suffix], false)
  {
    SampleManaged(t, suffix, x, d, r);
    BareGroupFacts(suffix);
    SampleWritten(suffix, x, d, s);
    hide Canonical, Stamped, Grouping, String, ApplyChanges, PolicyOf, UnderAny, Siblings, WellShaped, Converged,
        ModifyCode, ProtectsMemberOf, Edit, IsGroup, MemberNames, MemberOfNames, Distinct, BareGroup, Plain,
        ScopedMembers, RefOf, Pulled, PluginsRan, KeepsExact;
    PutKeepsShape(t, [suffix], u[suffix]);
    ShapeIsTidy(u, [suffix]);
    forall m ensures !Pulled(u, [suffix], ev, false, m) {
      NothingPulled(t, u, suffix, ev, m);
    }
    ModifyRan(u, [suffix], ev);
    DirectModify(t, u, [suffix], PolicyOf(true), r, s, ev);
    ModifyCommitExact(t, u, u, [suffix], false, true, PolicyOf(true), r, s, ev);
    SeedsPulled(u, [suffix], ev, x);
    assert GroupLists(u[suffix], x) && !GroupLists(t[suffix], x);
  }

  lemma SeedsPulled(u: Tree, scopes: seq<Name>, ev: WriteEvent, n: Name)
    requires ev.op == WriteModify && MappingOf(ev) == Identity && !Pulled(u, scopes, ev, false, n)
    ensures n !in SeedsOf(ev.before, scopes, Identity) && n !in SeedsOf(ev.after, scopes, Identity)
  {
    hide SeedsOf, MappingOf;
  }

  // ---------------------------------------------------------------------------
  // A move whose new name a uniqueMember value cannot hold
  // ---------------------------------------------------------------------------

  /** The entry that carries the group at the suffix in its memberOf. */
  function Carrier(dn: Name, suffix: Name): Entry { WithMemberOf(Plain(dn), [Key(suffix)]) }

  lemma CarrierFacts(dn: Name, suffix: Name)
    requires NameOf(Key(suffix), false) == Some(suffix)
    ensures IsPlain(Carrier(dn, suffix), dn) && MemberOfNames(Carrier(dn, suffix)) == {suffix}
  {
    hide Canonical, Distinct, NameOf, Key, IsGroup, WithMemberOf;
    PlainFacts(dn);
    WithMemberOfFacts(Plain(dn), [Key(suffix)]);
    MemberOfIs(Carrier(dn, suffix), [Key(suffix)]);
    OneName(Key(suffix), false, suffix);
  }

  /** An entry that carries its group, about to move to a name with a hash. */
  ghost predicate IsMoveAhead(t: Tree, suffix: Name, from: Name, to: Name, r: Request) {
    && |suffix| == 1 && |from| == 2 && |to| == 2 && from != to && from[1..] == suffix && to[1..] == suffix
    && NameOf(Key(from), true) == Some(from) && StripSuffix(Key(from)) == Key(from)
    && NameOf(Key(to), true) == Some(suffix) && NameOf(Key(suffix), false) == Some(suffix)
    && from[0].attr == "a" && to[0].attr == "a"
    && t == map[suffix := GroupOf(suffix, Key(from)), from := Carrier(from, suffix)]
    && r == ModifyDNRequest(from, to[0], None, false)
  }

  lemma MoveAhead() returns (t: Tree, suffix: Name, from: Name, to: Name, r: Request)
    ensures IsMoveAhead(t, suffix, from, to, r)
  {
    suffix, from, to := MoveNames();
    hide NameOf, StripSuffix, Key, Canonical, GroupOf, Carrier;
    t := map[suffix := GroupOf(suffix, Key(from)), from := Carrier(from, suffix)];
    r := ModifyDNRequest(from, to[0], None, false);
  }

  lemma AheadConverged(t: Tree, suffix: Name, from: Name, to: Name, r: Request)
    requires IsMoveAhead(t, suffix, from, to, r)
    ensures WellShaped(t, [suffix]) && Siblings([suffix]) && Converged(t, [suffix], false)
  {
    hide UnderAny, NameOf, StripSuffix, Key, Canonical, AtOrUnder, Moved, Apart, Siblings, WellShaped, GroupGraph,
        Reaching, MemberOfNames, GroupOf, Carrier, IsPlain, Distinct, IsGroup, MemberNames;
    SampleNames(suffix, from, to);
    GroupOfFacts(suffix, Key(from));
    CarrierFacts(from, suffix);
    assert IsSample(t, suffix, from, Key(from));
    SampleTidy(t, suffix, from, Key(from));
    SampleReaching(t, suffix, from, Key(from), Identity, from, from);
    SampleReaching(t, suffix, from, Key(from), Identity, from, suffix);
  }

  lemma AheadAccepted(t: Tree, suffix: Name, from: Name, to: Name, r: Request)
    requires IsMoveAhead(t, suffix, from, to, r)
    ensures ModifyDNCode(t, [suffix], PolicyOf(true), r) == Success && SuperiorOf(r) == Some(suffix)
    ensures Target(r.newRdn, suffix) == to
  {
    hide UnderAny, NameOf, StripSuffix, Key, Canonical, AtOrUnder, GroupOf, Carrier, Renamed, IsMoveAhead, MayRename,
        PlaceCode;
    AheadPlace(t, suffix, from, to, r);
    AheadAllowed(suffix, from, to);
  }

  lemma AheadPlace(t: Tree, suffix: Name, from: Name, to: Name, r: Request)
    requires IsMoveAhead(t, suffix, from, to, r)
    ensures r == ModifyDNRequest(from, to[0], None, false) && |from| == 2 && |to| == 2 && Parent(from) == Some(suffix)
    ensures SuperiorOf(r) == Some(suffix) && Target(r.newRdn, suffix) == to && PlaceCode([suffix], r) == Success
    ensures from in t && to !in t && suffix in t && !AtOrUnder(suffix, from) && to[0].attr == "a"
  {
    hide UnderAny, NameOf, StripSuffix, Key, Canonical, AtOrUnder, GroupOf, Carrier, Moved, Apart, Siblings;
    SampleNames(suffix, from, to);
    assert [to[0]] + suffix == to && from !in [suffix];
  }

  lemma AheadAllowed(suffix: Name, from: Name, to: Name)
    requires |from| == 2 && |to| == 2 && to[0].attr == "a"
    ensures MayRename(PolicyOf(true), from, to[0].attr, from[0].attr, false) && PolicyOf(true).modifiable(to[0].attr)
    ensures forall e :: PolicyOf(true).schemaOk(e)
  {
    hide Canonical;
    assert |Lower("a")| == 1 && |Lower("memberOf")| == 8;
  }

  /** The entry behind its RDN edit and its stamp. */
  lemma MovedIsPlain(t: Tree, suffix: Name, from: Name, to: Name, r: Request, s: Stamp)
    requires IsMoveAhead(t, suffix, from, to, r)
    ensures IsPlain(Stamped(Renamed(t, PolicyOf(true), r, to), s.now, s.who), to)
  {
    hide NameOf, StripSuffix, Key, Canonical, GroupOf, Carrier, Stamped, EditRdn, Distinct, Values, PolicyOf;
    CarrierFacts(from, suffix);
    WatchedNames();
    var p := PolicyOf(true);
    var e0, e1 := t[from].(dn := to), Renamed(t, p, r, to);
    assert !EqualFold("a", "objectClass") by {
      assert |Lower("a")| == 1 && |Lower("objectClass")| == 11;
    }
    SameButDn(t[from], to);
    EditRdnFacts(p.matches, e0, from[0], to[0], false, "objectClass");
    EditRdnExactly(p.matches, e0, from[0], to[0], false, "objectClass");
    StampedFacts(e1, s.now, s.who, "objectClass");
    SameClasses(t[from], Stamped(e1, s.now, s.who));
  }

  lemma SameButDn(e: Entry, dn: Name)
    ensures Values(e.(dn := dn), "objectClass") == Values(e, "objectClass")
  {
  }

  lemma SameClasses(e: Entry, e': Entry)
    requires Values(e', "objectClass") == Values(e, "objectClass")
    ensures IsGroup(e') == IsGroup(e)
  {
    hide ValuesOf, EqualFold;
  }

  lemma AheadRenamed(t: Tree, suffix: Name, from: Name, to: Name, r: Request) returns (moved: Tree)
    requires IsMoveAhead(t, suffix, from, to, r)
    ensures IsRename(t, moved, from, to) && moved.Keys == {suffix, to} && moved[suffix] == GroupOf(suffix, Key(from))
  {
    hide UnderAny, NameOf, StripSuffix, Key, Canonical, AtOrUnder, Moved, Apart, Siblings, GroupOf, Carrier;
    SampleNames(suffix, from, to);
    GroupDn(suffix, Key(from));
    moved := map[suffix := GroupOf(suffix, Key(from)), to := t[from].(dn := to)];
    assert from in t && suffix in t && suffix != from && suffix != to;
  }

  /** A committed move leaves the moved entry with a memberOf that no value supports. */
  lemma MoveLeavesStale()
      returns (t: Tree, u: Tree, z: Tree, scopes: seq<Name>, p: Policy, r: Request, s: Stamp, ev: WriteEvent)
    ensures WellShaped(t, scopes) && Siblings(scopes) && Converged(t, scopes, false) && ProtectsMemberOf(p)
    ensures r.ModifyDNRequest? && r.dn != [] && ModifyDNCode(t, scopes, p, r) == Success
    ensures Edit(t, u, p, r, s, ev) && PluginsRan(u, z, scopes, false, true, ev) && !Converged(z, scopes, false)
  {
    var suffix, from, to;
    t, suffix, from, to, r := MoveAhead();
    hide *;
    scopes, p, s := [suffix], PolicyOf(true), Stamp("", "", "");
    PolicyFacts(true);
    AheadConverged(t, suffix, from, to, r);
    AheadAccepted(t, suffix, from, to, r);
    AheadPlace(t, suffix, from, to, r);
    u, ev := AheadEdited(t, suffix, from, to, r, s);
    z := AheadRan(u, suffix, from, to, ev);
  }

  lemma AheadEdited(t: Tree, suffix: Name, from: Name, to: Name, r: Request, s: Stamp)
      returns (u: Tree, ev: WriteEvent)
    requires IsMoveAhead(t, suffix, from, to, r) && r.ModifyDNRequest? && r.dn != [] && from in t
    requires SuperiorOf(r) == Some(suffix) && Target(r.newRdn, suffix) == to
    ensures Edit(t, u, PolicyOf(true), r, s, ev) && IsSampleMove(u, suffix, from, to, ev)
  {
    hide UnderAny, NameOf, StripSuffix, Key, Canonical, AtOrUnder, Moved, Stamped, GroupOf, Carrier, PolicyOf, Renamed,
        IsRename, IsPlain;
    CarrierFacts(from, suffix);
    MovedIsPlain(t, suffix, from, to, r, s);
    var moved := AheadRenamed(t, suffix, from, to, r);
    var e := Stamped(Renamed(t, PolicyOf(true), r, to), s.now, s.who);
    u, ev := moved[to := e], WriteEvent(WriteRename, Some(t[from]), Some(e));
  }

  lemma AheadRan(u: Tree, suffix: Name, from: Name, to: Name, ev: WriteEvent) returns (z: Tree)
    requires IsSampleMove(u, suffix, from, to, ev)
    ensures PluginsRan(u, z, [suffix], false, true, ev) && !Converged(z, [suffix], false)
  {
    hide Canonical, Ran, Converged, IsSampleMove, MemberOfNames;
    var mid1, mid2, z2;
    mid1, z, mid2, z2 := OrdersDiffer(u, suffix, from, to, ev);
  }

  // ---------------------------------------------------------------------------
  // What a denied caller learns
  // ---------------------------------------------------------------------------

  /** A tree of bare entries at and right below the suffix. */
  ghost predicate IsBare(t: Tree, suffix: Name) {
    && |suffix| == 1 && suffix in t
    && forall d :: d in t ==>
        t[d] == Plain(d) && UnderAny(d, [suffix]) && (d == suffix || (|d| == 2 && d[1..] == suffix))
  }

  lemma BareShape(t: Tree, suffix: Name)
    requires IsBare(t, suffix)
    ensures WellShaped(t, [suffix])
  {
    hide UnderAny, Canonical, Distinct;
    forall d | d in t ensures Distinct(t[d].attrs) {
      PlainFacts(d);
    }
  }

  /** A denied rename in place: refused for the right, or for the name that is taken. */
  lemma DeniedRename(t: Tree, suffix: Name, from: Name, to: Name)
    requires IsBare(t, suffix) && from in t && |from| == 2 && |to| == 2 && from != to && from[1..] == suffix
    requires to[1..] == suffix
    requires UnderAny(suffix, [suffix]) && UnderAny(from, [suffix]) && !AtOrUnder(suffix, from)
    ensures Code(t, [suffix], PolicyOf(false), ModifyDNRequest(from, to[0], None, false)) ==
            if to in t then EntryAlreadyExists else InsufficientAccessRights
  {
    hide UnderAny, Canonical, AtOrUnder, Renamed;
    assert Target(to[0], suffix) == to && Parent(from) == Some(suffix);
  }

  lemma BareTrees(suffix: Name, from: Name, to: Name) returns (t1: Tree, t2: Tree)
    requires |suffix| == 1 && |from| == 2 && |to| == 2 && from != to && from[1..] == suffix && to[1..] == suffix
    requires UnderAny(suffix, [suffix]) && UnderAny(from, [suffix]) && UnderAny(to, [suffix])
    ensures IsBare(t1, suffix) && IsBare(t2, suffix) && from in t1 && to !in t1 && t2 == t1[to := Plain(to)]
  {
    hide UnderAny, Canonical, Plain;
    t1 := map[suffix := Plain(suffix), from := Plain(from)];
    t2 := t1[to := Plain(to)];
  }

  /** Two directories that differ in one name, and a denied ModifyDN that is answered differently. */
  lemma DenialTellsNames() returns (t1: Tree, t2: Tree, scopes: seq<Name>, p: Policy, r: Request)
    ensures WellShaped(t1, scopes) && WellShaped(t2, scopes) && Siblings(scopes) && r.dn != [] && Denied(p, r)
    ensures Code(t1, scopes, p, r) == InsufficientAccessRights && Code(t2, scopes, p, r) == EntryAlreadyExists
  {
    var suffix, from, to := MoveNames();
    hide UnderAny, NameOf, StripSuffix, Key, Canonical, AtOrUnder, Moved, Apart, Siblings, Plain, WellShaped, Code,
        IsBare;
    SampleNames(suffix, from, to);
    scopes, p, r := [suffix], PolicyOf(false), ModifyDNRequest(from, to[0], None, false);
    t1, t2 := BareTrees(suffix, from, to);
    BareShape(t1, suffix);
    BareShape(t2, suffix);
    DeniedRename(t1, suffix, from, to);
    DeniedRename(t2, suffix, from, to);
  }
}
