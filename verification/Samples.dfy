// Small directories on which the plugins do less than they promise.
module Samples {
  import opened Text
  import opened DnSyntax
  import opened Names
  import opened Entries
  import opened Stores
  import opened Graphs
  import opened MemberOf
  import opened RefInt
  import opened Convergence
  import opened Orders

  // ---------------------------------------------------------------------------
  // Entries
  // ---------------------------------------------------------------------------

  /** A group with one uniqueMember value. */
  function GroupOf(dn: Name, v: string): Entry {
    Entry(dn, [Attr("objectClass", ["groupOfUniqueNames"]), Attr("uniqueMember", [v])])
  }

  function Plain(dn: Name): Entry { Entry(dn, []) }

  lemma GroupOfFacts(dn: Name, v: string)
    ensures var e := GroupOf(dn, v);
      && Distinct(e.attrs) && IsGroup(e) && MemberOfNames(e) == {}
      && Values(e, "member") == [] && Values(e, "uniqueMember") == [v]
      && MemberNames(e) == NamesIn([v], true)
  {
    var e := GroupOf(dn, v);
    NamesDiffer();
    hide EqualFold, NameOf, Canonical;
    FoldReflexive("objectClass");
    FoldReflexive("uniqueMember");
    FoldReflexive("groupOfUniqueNames");
    FoldSymmetric("objectClass", "uniqueMember");
    assert e.attrs[1..] == [Attr("uniqueMember", [v])] && e.attrs[1..][1..] == [];
    ValuesAbsent(e.attrs, "member");
    ValuesAbsent(e.attrs, "memberOf");
    assert ValuesOf(e.attrs, "uniqueMember") == ValuesOf([Attr("uniqueMember", [v])], "uniqueMember") == [v];
    var classes := Values(e, "objectClass");
    assert classes == ["groupOfUniqueNames"] && EqualFold(classes[0], "groupOfUniqueNames");
    NamesInNone(false);
  }

  lemma PlainFacts(dn: Name)
    ensures var e := Plain(dn); Distinct(e.attrs) && !IsGroup(e) && MemberOfNames(e) == {} && MemberNames(e) == {}
  {
    NamesInNone(false);
    NamesInNone(true);
  }

  lemma OneName(v: string, unique: bool, n: Name)
    requires NameOf(v, unique) == Some(n)
    ensures NamesIn([v], unique) == {n}
  {
    hide NameOf, Canonical;
    assert [v][0] == v;
  }

  // ---------------------------------------------------------------------------
  // A move whose new name is cut
  // ---------------------------------------------------------------------------

  /** suffix is a=x; an entry moves from a=x,a=x to a=x#,a=x. */
  lemma MoveNames() returns (suffix: Name, from: Name, to: Name)
    ensures |suffix| == 1 && |from| == 2 && |to| == 2 && from != to && from[1..] == suffix && to[1..] == suffix
    ensures NameOf(Key(from), true) == Some(from) && StripSuffix(Key(from)) == Key(from)
    ensures NameOf(Key(to), true) == Some(suffix)
    ensures NameOf(Key(suffix), false) == Some(suffix) && from[0].attr == "a" && to[0].attr == "a"
  {
    var n;
    n, suffix := HashSampleNames();
    from, to := suffix + suffix, n + suffix;
    assert from[1..] == suffix && to[1..] == suffix && from[0] == suffix[0] && to[0] == n[0];
    NameOfKey(suffix);
    WholeKey(from);
    NameFacts(suffix);
    NameFacts(n);
    NameFacts(to);
    StringConcat(n, suffix);
    CutKey(Key(to), Key(n), Key(suffix));
    hide NameOf, StripSuffix, Key;
    SameCut(Key(to), Key(suffix));
  }

  lemma WholeKey(n: Name)
    requires n != [] && HashSafe(n)
    ensures NameOf(Key(n), true) == Some(n) && StripSuffix(Key(n)) == Key(n)
  {
    NameFacts(n);
    NameOfTagged(n, "");
    KeyHashClean(n);
    CleanIndex(Key(n), "", '#');
    hide NameOf, Key, FirstUnescaped, Clean, HashSafe, Canonical;
    assert Key(n) + "" == Key(n);
  }

  lemma CutKey(k: string, n: string, m: string)
    requires n == "a=x#" && m == "a=x" && k == n + ([','] + m)
    ensures StripSuffix(k) == m
  {
    assert k == "a=x#,a=x";
    assert k[1..] == "=x#,a=x" && k[1..][1..] == "x#,a=x" && k[1..][1..][1..] == "#,a=x";
    assert FirstUnescaped("#,a=x", '#') == 0;
    assert FirstUnescaped("x#,a=x", '#') == 1;
    assert FirstUnescaped("=x#,a=x", '#') == 2;
    assert FirstUnescaped(k, '#') == 3;
    assert k[..3] == "a=x";
  }

  /** An entry that is no group. */
  ghost predicate IsPlain(e: Entry, dn: Name) { e.dn == dn && Distinct(e.attrs) && !IsGroup(e) }

  /** Whether t holds just the group at the suffix and the moved entry. */
  ghost predicate IsSample(t: Tree, suffix: Name, to: Name, v: string) {
    t.Keys == {suffix, to} && suffix != to && t[suffix] == GroupOf(suffix, v) && IsPlain(t[to], to)
  }

  /** The move of an entry that is no group. */
  ghost predicate IsMove(ev: WriteEvent, from: Name, to: Name) {
    && ev.op == WriteRename && ev.before.Some? && ev.after.Some?
    && IsPlain(ev.before.value, from) && IsPlain(ev.after.value, to)
  }

  lemma SampleNames(suffix: Name, from: Name, to: Name)
    requires |suffix| == 1 && |from| == 2 && |to| == 2 && from != to && from[1..] == suffix && to[1..] == suffix
    ensures Apart(from, to) && Siblings([suffix]) && UnderAny(suffix, [suffix]) && UnderAny(from, [suffix])
    ensures UnderAny(to, [suffix])
    ensures !AtOrUnder(suffix, from) && !AtOrUnder(suffix, to)
    ensures Moved(from, from, to) == to && Moved(suffix, from, to) == suffix
  {
    hide Canonical;
    var scopes := [suffix];
    ParentAtOrUnder(from, suffix);
    ParentAtOrUnder(to, suffix);
    assert scopes[0] == suffix;
    assert from[0..] == from && from[..0] + to == to;
  }

  /** Without groups among what moved, only the moved entry is seeded. */
  lemma OnlyMovedIsSeeded(t: Tree, suffix: Name, from: Name, to: Name, v: string, ev: WriteEvent)
    requires IsSample(t, suffix, to, v) && from != to && !AtOrUnder(suffix, to) && UnderAny(to, [suffix])
    requires IsMove(ev, from, to)
    ensures Touches(t, [suffix], ev, false, {to})
  {
    hide AtOrUnder, UnderAny, IsGroup, MemberNames, Image, Canonical, Distinct;
    AtItself(to);
    forall m ensures Seeded(t, [suffix], ev, m) <==> m == to {
    }
  }

  lemma AtItself(d: Name)
    ensures AtOrUnder(d, d)
  {
  }

  lemma SampleTidy(t: Tree, suffix: Name, to: Name, v: string)
    requires IsSample(t, suffix, to, v) && suffix != [] && |to| >= 2 && to[1..] == suffix && UnderAny(suffix, [suffix])
    requires UnderAny(to, [suffix])
    ensures to in t && Tidy(t) && WellShaped(t, [suffix])
  {
    hide UnderAny, Canonical, Distinct, IsGroup, GroupOf;
    GroupOfFacts(suffix, v);
    GroupDn(suffix, v);
  }

  lemma GroupDn(dn: Name, v: string)
    ensures GroupOf(dn, v).dn == dn
  {
  }

  /** Who reaches an entry: the group, when its value reads as that entry. */
  lemma SampleReaching(t: Tree, suffix: Name, to: Name, v: string, mv: Mapping, named: Name, d: Name)
    requires IsSample(t, suffix, to, v) && UnderAny(suffix, [suffix]) && NameOf(v, true) == Some(named)
    ensures Reaching(GroupGraph(t, [suffix], mv), false, d) == if Apply(mv, named) == d then {suffix} else {}
  {
    hide UnderAny, IsGroup, MemberNames, Canonical, NameOf, Apply, Distinct;
    GroupOfFacts(suffix, v);
    OneName(v, true, named);
    GraphMapped(t, [suffix], mv, suffix);
    GraphMapped(t, [suffix], mv, to);
    assert MemberNames(t[suffix]) == {named};
    assert Image({named}, mv) == {Apply(mv, named)};
    assert GroupGraph(t, [suffix], mv).Keys <= t.Keys;
  }

  /** The sample after referint: the group's value is the new name's text. */
  lemma SampleRedirected(t: Tree, suffix: Name, from: Name, to: Name)
    requires IsSample(t, suffix, to, Key(from)) && UnderAny(suffix, [suffix]) && from != [] && to != []
    requires NameOf(Key(from), true) == Some(from) && StripSuffix(Key(from)) == Key(from) && Moved(from, from, to) == to
    ensures IsSample(RepairedTree(t, [suffix], Redirect(from, to)), suffix, to, Key(to))
    ensures RepairedTree(t, [suffix], Redirect(from, to))[to] == t[to]
  {
    hide UnderAny, IsGroup, NameOf, StripSuffix, Key, Canonical, Distinct, NewText;
    GroupOfFacts(suffix, Key(from));
    SampleText(from, to);
    SampleFixed(suffix, Key(from), Key(to), from, to);
  }

  /** The name's own text is rewritten to the text of its new place. */
  lemma SampleText(from: Name, to: Name)
    requires from != [] && StripSuffix(Key(from)) == Key(from)
    ensures NewText(Key(from), true, from, to) == Key(to)
  {
    NameFacts(from);
    NameFacts(to);
    NameOfText(from);
    hide ParseDN, StripSuffix, Key, String, Fold, WellFormed, TabFree, Canonical;
    assert ParsedDN(Key(from), true) == Some(from);
    assert from[0..] == from && from[..0] + to == to;
    assert Key(to) + Key(from)[|Key(from)|..] == Key(to);
  }

  lemma SampleFixed(dn: Name, v: string, w: string, from: Name, to: Name)
    requires NewText(v, true, from, to) == w
    ensures Fixed(GroupOf(dn, v), Redirect(from, to)) == GroupOf(dn, w)
  {
    hide NewText, Canonical;
    MemberAttrNames();
    var attrs := GroupOf(dn, v).attrs;
    var f := Follow(from, to);
    assert EqualFold(attrs[1].name, "uniqueMember") && !IsMemberAttr(attrs[0]) by {
      NamesDiffer();
    }
    assert MapValues([v], f, true) == [w];
    assert MapMembers(attrs, f) == GroupOf(dn, w).attrs;
  }

  /** The names of a sample move, and the tree before the plugins run. */
  ghost predicate IsSampleMove(u: Tree, suffix: Name, from: Name, to: Name, ev: WriteEvent) {
    && |suffix| == 1 && |from| == 2 && |to| == 2 && from != to && from[1..] == suffix && to[1..] == suffix
    && NameOf(Key(from), true) == Some(from) && StripSuffix(Key(from)) == Key(from)
    && NameOf(Key(to), true) == Some(suffix) && NameOf(Key(suffix), false) == Some(suffix)
    && IsSample(u, suffix, to, Key(from)) && IsMove(ev, from, to) && ev.after == Some(u[to])
  }

  lemma MemberOfRunsFirst(u: Tree, suffix: Name, from: Name, to: Name, ev: WriteEvent) returns (mid: Tree, z: Tree)
    requires IsSampleMove(u, suffix, from, to, ev)
    ensures Ran(u, mid, z, {to}, [suffix], false, true, ev)
    ensures Reaching(GroupGraph(u, [suffix], Relocation(from, to)), false, to) == {suffix}
  {
    hide UnderAny, IsGroup, NameOf, StripSuffix, Key, Canonical, AtOrUnder, Moved, Apart, Siblings, Touches, Recomputed,
        RepairedTree, Tidy, WellShaped, GroupGraph, Reaching, WithMemberOf, IsSample;
    var scopes, mv := [suffix], Relocation(from, to);
    SampleNames(suffix, from, to);
    SampleTidy(u, suffix, to, Key(from));
    SampleEvent(suffix, from, to, ev);
    SampleReaching(u, suffix, to, Key(from), mv, from, to);
    OnlyMovedIsSeeded(u, suffix, from, to, Key(from), ev);
    OneName(Key(suffix), false, suffix);
    RecomputedOne(u, GroupGraph(u, scopes, mv), false, to, [Key(suffix)]);
    mid := u[to := WithMemberOf(u[to], [Key(suffix)])];
    z := RepairedTree(mid, scopes, Redirect(from, to));
  }

  lemma RefIntRunsFirst(u: Tree, suffix: Name, from: Name, to: Name, ev: WriteEvent) returns (mid: Tree, z: Tree)
    requires IsSampleMove(u, suffix, from, to, ev)
    ensures Ran(u, mid, z, {to}, [suffix], false, false, ev)
    ensures mid == RepairedTree(u, [suffix], Redirect(from, to))
    ensures Reaching(GroupGraph(mid, [suffix], Relocation(from, to)), false, to) == {}
    ensures Reaching(GroupGraph(mid, [suffix], Identity), false, to) == {}
  {
    hide UnderAny, IsGroup, NameOf, StripSuffix, Key, Canonical, AtOrUnder, Moved, Apart, Siblings, Touches, Recomputed,
        RepairedTree, Tidy, WellShaped, GroupGraph, Reaching, WithMemberOf, IsSample;
    var scopes, mv := [suffix], Relocation(from, to);
    SampleNames(suffix, from, to);
    SampleEvent(suffix, from, to, ev);
    SampleRedirected(u, suffix, from, to);
    mid := RepairedTree(u, scopes, Redirect(from, to));
    SampleTidy(mid, suffix, to, Key(to));
    SampleReaching(mid, suffix, to, Key(to), mv, suffix, to);
    SampleReaching(mid, suffix, to, Key(to), Identity, suffix, to);
    OnlyMovedIsSeeded(mid, suffix, from, to, Key(to), ev);
    NamesInNone(false);
    RecomputedOne(mid, GroupGraph(mid, scopes, mv), false, to, []);
    z := mid[to := WithMemberOf(mid[to], [])];
  }

  lemma SampleEvent(suffix: Name, from: Name, to: Name, ev: WriteEvent)
    requires IsMove(ev, from, to) && from != to && UnderAny(from, [suffix]) && UnderAny(to, [suffix])
    ensures MappingOf(ev) == Relocation(from, to) && RepairFor(ev, [suffix]) == Redirect(from, to)
  {
    hide UnderAny, Canonical, IsGroup, Distinct;
  }

  /**
   * The order of the plugins can matter: on a well-shaped tree, memberof first gives the
   * moved entry its group, referint first takes it away, because the redirected value
   * a=x#,a=x is read as a=x. In the first order, the server's, the memberOf set is then
   * no longer what the values say.
   */
  lemma OrderMatters()
      returns (u: Tree, mid1: Tree, z1: Tree, mid2: Tree, z2: Tree, from: Name, to: Name, ev: WriteEvent,
          scopes: seq<Name>)
    ensures Tidy(u) && WellShaped(u, scopes) && Siblings(scopes) && from != [] && to in u && to != [] && Apart(from, to)
    ensures UnderAny(from, scopes) && UnderAny(to, scopes)
    ensures ev.op == WriteRename && ev.before.Some? && ev.before.value.dn == from && ev.after == Some(u[to])
    ensures Ran(u, mid1, z1, {to}, scopes, false, true, ev) && Ran(u, mid2, z2, {to}, scopes, false, false, ev)
    ensures to in z1 && to in z2 && MemberOfNames(z1[to]) != MemberOfNames(z2[to])
    ensures !Converged(z1, scopes, false)
  {
    var suffix;
    suffix, u, from, to, ev := SampleMove();
    hide *;
    SampleShape(u, suffix, from, to, ev);
    scopes := [suffix];
    mid1, z1, mid2, z2 := OrdersDiffer(u, suffix, from, to, ev);
  }

  lemma OrdersDiffer(u: Tree, suffix: Name, from: Name, to: Name, ev: WriteEvent)
      returns (mid1: Tree, z1: Tree, mid2: Tree, z2: Tree)
    requires IsSampleMove(u, suffix, from, to, ev)
    ensures Ran(u, mid1, z1, {to}, [suffix], false, true, ev) && Ran(u, mid2, z2, {to}, [suffix], false, false, ev)
    ensures to in z1 && to in z2 && MemberOfNames(z1[to]) != MemberOfNames(z2[to]) && !Converged(z1, [suffix], false)
  {
    hide *;
    mid1, z1 := MemberOfRunsFirst(u, suffix, from, to, ev);
    mid2, z2 := RefIntRunsFirst(u, suffix, from, to, ev);
    SampleOutcome(u, suffix, from, to, ev, mid1, z1, mid2, z2);
    SampleStale(u, suffix, from, to, ev, mid1, z1);
  }

  lemma PlainIsPlain(dn: Name)
    ensures IsPlain(Plain(dn), dn)
  {
    PlainFacts(dn);
  }

  lemma SampleMove() returns (suffix: Name, u: Tree, from: Name, to: Name, ev: WriteEvent)
    ensures IsSampleMove(u, suffix, from, to, ev)
  {
    suffix, from, to := MoveNames();
    hide Key, NameOf, StripSuffix, GroupOf, Canonical, Plain, IsPlain;
    PlainIsPlain(from);
    PlainIsPlain(to);
    u, ev := map[suffix := GroupOf(suffix, Key(from)), to := Plain(to)],
        WriteEvent(WriteRename, Some(Plain(from)), Some(Plain(to)));
  }

  lemma SampleShape(u: Tree, suffix: Name, from: Name, to: Name, ev: WriteEvent)
    requires IsSampleMove(u, suffix, from, to, ev)
    ensures Tidy(u) && WellShaped(u, [suffix]) && Siblings([suffix]) && from != [] && to in u && to != []
    ensures Apart(from, to)
    ensures UnderAny(from, [suffix]) && UnderAny(to, [suffix])
    ensures ev.op == WriteRename && ev.before.Some? && ev.before.value.dn == from && ev.after == Some(u[to])
  {
    hide UnderAny, NameOf, StripSuffix, Key, Canonical, AtOrUnder, Moved, Apart, Siblings, Tidy, WellShaped, IsGroup,
        Distinct;
    SampleNames(suffix, from, to);
    SampleTidy(u, suffix, to, Key(from));
  }

  lemma SampleOutcome(u: Tree, suffix: Name, from: Name, to: Name, ev: WriteEvent, mid1: Tree, z1: Tree, mid2: Tree,
      z2: Tree)
    requires IsSampleMove(u, suffix, from, to, ev)
    requires Ran(u, mid1, z1, {to}, [suffix], false, true, ev)
    requires Ran(u, mid2, z2, {to}, [suffix], false, false, ev)
    requires Reaching(GroupGraph(u, [suffix], Relocation(from, to)), false, to) == {suffix}
    requires Reaching(GroupGraph(RepairedTree(u, [suffix], Redirect(from, to)), [suffix], Relocation(from, to)),
               false, to) == {}
    ensures to in z1 && to in z2 && MemberOfNames(z1[to]) == {suffix} && MemberOfNames(z2[to]) == {}
  {
    hide UnderAny, NameOf, StripSuffix, Key, Canonical, AtOrUnder, Apart, Siblings, Ran, RepairedTree, Tidy, WellShaped,
        GroupGraph, Reaching, MemberOfNames, IsSampleMove;
    SampleShape(u, suffix, from, to, ev);
    AtItself(to);
    MovedEntryMemberOf(u, mid1, z1, {to}, mid2, z2, {to}, from, to, ev, [suffix], false, to);
  }

  lemma SampleStale(u: Tree, suffix: Name, from: Name, to: Name, ev: WriteEvent, mid: Tree, z: Tree)
    requires IsSampleMove(u, suffix, from, to, ev) && Ran(u, mid, z, {to}, [suffix], false, true, ev)
    requires to in z && MemberOfNames(z[to]) == {suffix}
    requires Reaching(GroupGraph(RepairedTree(u, [suffix], Redirect(from, to)), [suffix], Identity), false, to) == {}
    ensures !Converged(z, [suffix], false)
  {
    hide UnderAny, NameOf, StripSuffix, Key, Canonical, AtOrUnder, Apart, Siblings, RepairedTree, Tidy, WellShaped,
        Touches, Recomputed, GroupGraph, Reaching, MemberOfNames, MappingOf, RepairFor, IsSample;
    SampleShape(u, suffix, from, to, ev);
    SampleNames(suffix, from, to);
    SampleEvent(suffix, from, to, ev);
    var mv := Relocation(from, to);
    SameRedirectedGraph(u, mid, GroupGraph(u, [suffix], mv), false, {to}, [suffix], from, to);
  }
}
