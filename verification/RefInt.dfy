// The referential integrity plugin: after a delete or a rename it repairs the member
// values of every managed group.
module RefInt {
  import opened Text
  import opened DnSyntax
  import opened Names
  import opened Entries
  import opened Stores
  import opened MemberOf

  /** What happens to a member value: values naming gone go, values at or below from follow to to. */
  datatype Repair = NoRepair | Drop(gone: Name) | Redirect(from: Name, to: Name)

  function KeepOthers(gone: Name): Keep {
    (v: string, unique: bool) => NameOf(v, unique) != Some(gone)
  }

  /** A value's new text; a uniqueMember value keeps its bit-string suffix. */
  function NewText(v: string, unique: bool, from: Name, to: Name): string {
    var nd := NewDN(v, unique, from, to);
    if nd.None? then v
    else if !unique then String(nd.value)
    else String(nd.value) + v[|StripSuffix(v)|..]
  }

  /** The DN of a value that follows the move, in its new place. */
  function NewDN(v: string, unique: bool, from: Name, to: Name): Option<DN> {
    var d := ParsedDN(v, unique);
    if d.None? then None else RebaseDN(d.value, from, to)
  }

  function Follow(from: Name, to: Name): Rewrite {
    (v: string, unique: bool) => NewText(v, unique, from, to)
  }

  /** A group entry after the repair. */
  function Fixed(e: Entry, r: Repair): Entry {
    match r
    case NoRepair => e
    case Drop(gone) => if DropsSome(e.attrs, KeepOthers(gone))
        then e.(attrs := FilterMembers(e.attrs, KeepOthers(gone))) else e
    case Redirect(from, to) => e.(attrs := MapMembers(e.attrs, Follow(from, to)))
  }

  /** The tree with every managed group repaired. */
  ghost function RepairedTree(t: Tree, scopes: seq<Name>, r: Repair): Tree {
    map d | d in t :: if UnderAny(d, scopes) && IsGroup(t[d]) then Fixed(t[d], r) else t[d]
  }

  /** What a write calls for. Entries outside the managed suffixes are ignored. */
  function RepairFor(ev: WriteEvent, scopes: seq<Name>): Repair {
    match ev.op
    case WriteDelete =>
      if ev.before.Some? && UnderAny(ev.before.value.dn, scopes) then Drop(ev.before.value.dn) else NoRepair
    case WriteRename =>
      if ev.before.Some? && ev.after.Some?
         && UnderAny(ev.before.value.dn, scopes) && UnderAny(ev.after.value.dn, scopes)
         && ev.before.value.dn != ev.after.value.dn
      then Redirect(ev.before.value.dn, ev.after.value.dn) else NoRepair
    case _ => NoRepair
  }

  /** Managed suffixes are sibling naming contexts, never nested. */
  ghost predicate Siblings(scopes: seq<Name>) {
    (forall i :: 0 <= i < |scopes| ==> scopes[i] != [])
    && forall i, j :: 0 <= i < j < |scopes| ==> Apart(scopes[i], scopes[j])
  }

  // ---------------------------------------------------------------------------
  // What a repair does to an entry
  // ---------------------------------------------------------------------------

  /** e' differs from e in its member values only. */
  ghost predicate OnlyMembersDiffer(e: Entry, e': Entry) {
    e'.dn == e.dn && Distinct(e'.attrs) && KeepsBut(e, e', "member", "uniqueMember")
  }

  lemma {:induction false} KeptNames(vs: seq<string>, gone: Name, unique: bool)
    ensures NamesIn(KeepValues(vs, KeepOthers(gone), unique), unique) == NamesIn(vs, unique) - {gone}
  {
    hide NameOf;
    if vs == [] {
      NamesInNone(unique);
    } else {
      var last, init := vs[|vs| - 1], vs[..|vs| - 1];
      KeptNames(init, gone, unique);
      KeepValuesSnoc(init, last, KeepOthers(gone), unique);
      NamesInSnoc(init, last, unique);
      NamesInSnoc(KeepValues(init, KeepOthers(gone), unique), last, unique);
      assert vs == init + [last];
      hide NamesIn, KeepValues;
      assert KeepValues(init, KeepOthers(gone), unique) + [] == KeepValues(init, KeepOthers(gone), unique);
    }
  }

  lemma DropFacts(e: Entry, gone: Name)
    requires Distinct(e.attrs)
    ensures OnlyMembersDiffer(e, Fixed(e, Drop(gone)))
    ensures MemberNames(Fixed(e, Drop(gone))) == MemberNames(e) - {gone}
  {
    hide KeepOthers, KeepValues, NamesIn, Distinct, EqualFold;
    var keep := KeepOthers(gone);
    NamesDiffer();
    KeptNames(Values(e, "member"), gone, false);
    KeptNames(Values(e, "uniqueMember"), gone, true);
    FilterMembersNames(e.attrs, keep);
    FilterKeepsRest(e, keep);
    FilteredValues(e.attrs, keep);
    if !DropsSome(e.attrs, keep) {
      NothingDropped(e.attrs, keep, "member", false);
      NothingDropped(e.attrs, keep, "uniqueMember", true);
    }
  }

  lemma MemberAttrNames()
    ensures EqualFold("member", "member") && EqualFold("uniqueMember", "uniqueMember")
    ensures forall a: Attr :: EqualFold(a.name, "member") ==> IsMemberAttr(a) && !IsUnique(a)
    ensures forall a: Attr :: EqualFold(a.name, "uniqueMember") ==> IsMemberAttr(a) && IsUnique(a)
    ensures forall a: Attr :: EqualFold(a.name, "memberOf") || EqualFold(a.name, "objectClass") ==> !IsMemberAttr(a)
  {
    NamesDiffer();
  }

  /** Filtering member values leaves every other attribute alone. */
  lemma FilterKeepsRest(e: Entry, keep: Keep)
    requires Distinct(e.attrs)
    ensures KeepsBut(e, e.(attrs := FilterMembers(e.attrs, keep)), "member", "uniqueMember")
  {
    hide FilterMembers, ValuesOf, EqualFold, Distinct;
    var e' := e.(attrs := FilterMembers(e.attrs, keep));
    forall name | !EqualFold("member", name)
        && !EqualFold("uniqueMember", name) ensures Values(e', name) == Values(e, name) {
      FilterMembersValues(e.attrs, keep, name);
      ValuesAtIndex(e.attrs, name);
      var i := IndexOf(e.attrs, name);
      if i < |e.attrs| {
        FoldTransitive(e.attrs[i].name, name, "member");
        FoldTransitive(e.attrs[i].name, name, "uniqueMember");
        FoldSymmetric(name, "member");
        FoldSymmetric(name, "uniqueMember");
      }
    }
  }

  lemma FilteredValues(attrs: seq<Attr>, keep: Keep)
    requires Distinct(attrs)
    ensures ValuesOf(FilterMembers(attrs, keep), "member") == KeepValues(ValuesOf(attrs, "member"), keep, false)
    ensures ValuesOf(FilterMembers(attrs, keep), "uniqueMember")
              == KeepValues(ValuesOf(attrs, "uniqueMember"), keep, true)
  {
    hide FilterMembers, ValuesOf, IndexOf, EqualFold, IsMemberAttr, IsUnique, Distinct;
    MemberAttrNames();
    FilterMembersValues(attrs, keep, "member");
    FilterMembersValues(attrs, keep, "uniqueMember");
    ValuesAtIndex(attrs, "member");
    ValuesAtIndex(attrs, "uniqueMember");
  }

  lemma NothingDropped(attrs: seq<Attr>, keep: Keep, name: string, unique: bool)
    requires !DropsSome(attrs, keep) && name == if unique then "uniqueMember" else "member"
    ensures KeepValues(ValuesOf(attrs, name), keep, unique) == ValuesOf(attrs, name)
  {
    hide EqualFold, IsMemberAttr, IsUnique;
    MemberAttrNames();
    ValuesAtIndex(attrs, name);
    var i := IndexOf(attrs, name);
    if i < |attrs| {
      assert !DropsFrom(attrs[i], keep);
      KeepValuesAll(attrs[i].values, keep, unique);
      KeepAllSame(attrs[i].values, keep, unique);
    }
  }

  lemma {:induction false} KeepAllSame(vs: seq<string>, keep: Keep, unique: bool)
    requires forall j :: 0 <= j < |vs| ==> keep(vs[j], unique)
    ensures KeepValues(vs, keep, unique) == vs
  {
    if vs != [] {
      KeepAllSame(vs[1..], keep, unique);
    }
  }

  /** The text the value gets is read back: no value ends in a tab and, in a uniqueMember value, none hides a '#'. */
  predicate SafeValue(v: string, unique: bool, from: Name, to: Name) {
    var nd := NewDN(v, unique, from, to);
    nd.Some? ==> TabFree(nd.value) && (unique ==> HashSafe(nd.value))
  }

  /** Names at neither end of a move are referred to as before. */
  lemma {:induction false} FirstRefStays(vs: seq<string>, unique: bool, from: Name, to: Name, n: Name)
    requires from != [] && to != [] && !AtOrUnder(n, from) && !AtOrUnder(n, to)
    requires forall v :: v in vs ==> SafeValue(v, unique, from, to)
    ensures FirstRef(MapValues(vs, Follow(from, to), unique), unique, n) == FirstRef(vs, unique, n)
  {
    var ws := MapValues(vs, Follow(from, to), unique);
    if vs == [] {
      assert ws == [];
    } else {
      assert ws[1..] == MapValues(vs[1..], Follow(from, to), unique) && ws[0] == NewText(vs[0], unique, from, to);
      FirstRefStays(vs[1..], unique, from, to, n);
      assert vs[0] in vs;
      FollowsName(vs[0], unique, from, to);
      FollowedAway(vs[0], unique, from, to);
      hide NameOf, ParsedDN, SafeValue, NewText, Canonical, AtOrUnder, Moved;
      assert NameOf(ws[0], unique) == Some(n) || NameOf(vs[0], unique) == Some(n) ==> ws[0] == vs[0];
    }
  }

  /** A value that is rewritten names something at or below from, and then something at or below to. */
  lemma FollowedAway(v: string, unique: bool, from: Name, to: Name)
    requires from != [] && to != [] && NamesNewPlace(v, unique, from, to) && SafeValue(v, unique, from, to)
    ensures NewText(v, unique, from, to) != v ==>
              && NameOf(v, unique).Some? && AtOrUnder(NameOf(v, unique).value, from)
              && NameOf(NewText(v, unique, from, to), unique).Some?
              && AtOrUnder(NameOf(NewText(v, unique, from, to), unique).value, to)
  {
    hide ParsedDN, HashSafe, StripSuffix, Canonical, String, RebaseDN, Rebase, AtOrUnder, Moved;
    var d, nd := ParsedDN(v, unique), NewDN(v, unique, from, to);
    if nd.Some? {
      KeptLead(d.value, from, to);
      RebaseSpelling(d.value, from, to);
      RebaseUnder(Canon(d.value).value, from, to);
    }
  }

  /** How a redirected group refers to names at neither end of the move. */
  lemma RefToStays(e: Entry, from: Name, to: Name, n: Name)
    requires from != [] && to != [] && !AtOrUnder(n, from) && !AtOrUnder(n, to) && SafeToRedirect(e, from, to)
    ensures RefTo(Fixed(e, Redirect(from, to)), n) == RefTo(e, n)
  {
    hide Follow, FirstRef, MapValues, SafeValue, AtOrUnder, ValuesOf, MapMembers, Canonical;
    var f := Follow(from, to);
    MapMembersValues(e.attrs, f, "member");
    MapMembersValues(e.attrs, f, "uniqueMember");
    FirstRefStays(Values(e, "member"), false, from, to, n);
    FirstRefStays(Values(e, "uniqueMember"), true, from, to, n);
  }

  lemma {:induction false} FirstRefKept(vs: seq<string>, unique: bool, gone: Name, n: Name)
    requires n != gone
    ensures FirstRef(KeepValues(vs, KeepOthers(gone), unique), unique, n) == FirstRef(vs, unique, n)
  {
    if vs == [] {
      assert KeepValues(vs, KeepOthers(gone), unique) == [];
    } else {
      var ws := KeepValues(vs[1..], KeepOthers(gone), unique);
      FirstRefKept(vs[1..], unique, gone, n);
      FirstRefCons(vs[0], vs[1..], unique, n);
      FirstRefCons(vs[0], ws, unique, n);
      hide NameOf, ParsedDN, Canonical, FirstRef;
      assert [vs[0]] + vs[1..] == vs && [] + ws == ws;
    }
  }

  lemma FirstRefCons(v: string, vs: seq<string>, unique: bool, n: Name)
    ensures FirstRef([v] + vs, unique, n) == if NameOf(v, unique) == Some(n) then RefOf(v, unique)
              else FirstRef(vs, unique, n)
  {
    hide NameOf, ParsedDN, Canonical;
    assert ([v] + vs)[1..] == vs;
  }

  /** A group from which a reference was dropped refers to all others as before. */
  lemma RefToKept(e: Entry, gone: Name, n: Name)
    requires Distinct(e.attrs) && n != gone
    ensures RefTo(Fixed(e, Drop(gone)), n) == RefTo(e, n)
  {
    hide KeepOthers, KeepValues, FirstRef, Distinct, EqualFold;
    var keep := KeepOthers(gone);
    FirstRefKept(Values(e, "member"), false, gone, n);
    FirstRefKept(Values(e, "uniqueMember"), true, gone, n);
    FilteredValues(e.attrs, keep);
    if !DropsSome(e.attrs, keep) {
      NothingDropped(e.attrs, keep, "member", false);
      NothingDropped(e.attrs, keep, "uniqueMember", true);
    }
  }

  /** Every member value that follows the move is read back from its new text. */
  ghost predicate SafeToRedirect(e: Entry, from: Name, to: Name) {
    && (forall v :: v in Values(e, "member") ==> SafeValue(v, false, from, to))
    && forall v :: v in Values(e, "uniqueMember") ==> SafeValue(v, true, from, to)
  }

  /** The rewritten value names the new place of what the value names; a value that names nothing still does not. */
  predicate NamesNewPlace(v: string, unique: bool, from: Name, to: Name) {
    NameOf(NewText(v, unique, from, to), unique)
    == if NameOf(v, unique).Some? then Some(Moved(NameOf(v, unique).value, from, to)) else None
  }

  lemma FollowsName(v: string, unique: bool, from: Name, to: Name)
    requires from != [] && to != [] && SafeValue(v, unique, from, to)
    ensures NamesNewPlace(v, unique, from, to)
    ensures NewDN(v, unique, from, to).Some? ==>
              ParsedDN(NewText(v, unique, from, to), unique) == NewDN(v, unique, from, to)
  {
    hide ParsedDN, HashSafe, StripSuffix, Canonical, String, Moved, RebaseDN, Rebase;
    var d, nd := ParsedDN(v, unique), NewDN(v, unique, from, to);
    if nd.Some? {
      KeptLead(d.value, from, to);
      RebaseSpelling(d.value, from, to);
      MovedIs(Canon(d.value).value, from, to);
      if unique {
        SuffixTail(v);
        NameOfTagged(nd.value, v[|StripSuffix(v)|..]);
      } else {
        NameOfText(nd.value);
      }
    } else if NameOf(v, unique).Some? {
      RebaseSpelling(d.value, from, to);
      MovedIs(NameOf(v, unique).value, from, to);
    }
  }

  lemma MovedIs(d: Name, from: Name, to: Name)
    ensures Moved(d, from, to) == if Rebase(d, from, to).Some? then Rebase(d, from, to).value else d
  {
  }

  /** A rebased DN keeps its leading RDNs; what they were behind is a spelling of from. */
  lemma KeptLead(d: DN, from: Name, to: Name)
    requires WellFormed(d) && RebaseDN(d, from, to).Some? && to != []
    ensures var nd := RebaseDN(d, from, to).value;
      nd != [] && WellFormed(nd) && (TabFree(nd) <==> TabFree(d))
  {
    var keep, nd := |d| - |from|, RebaseDN(d, from, to).value;
    assert d == d[..keep] + d[keep..] && nd == d[..keep] + to;
    NameFacts(to);
    NameFacts(from);
    FoldTabFree(d[keep..]);
    FormedSplit(d[..keep], d[keep..]);
    FormedSplit(d[..keep], to);
  }

  lemma FoldTabFree(d: DN)
    ensures TabFree(Fold(d)) <==> TabFree(d)
  {
    forall i | 0 <= i < |d| ensures EndsInTab(Fold(d)[i].value) <==> EndsInTab(d[i].value) {
      LowerTab(d[i].value);
    }
  }

  lemma FormedSplit(a: DN, b: DN)
    ensures WellFormed(a + b) <==> WellFormed(a) && WellFormed(b)
    ensures TabFree(a + b) <==> TabFree(a) && TabFree(b)
  {
    hide WellFormedRdn, EndsInTab;
    assert forall i :: 0 <= i < |b| ==> (a + b)[|a| + i] == b[i];
    assert forall i :: 0 <= i < |a| ==> (a + b)[i] == a[i];
  }

  lemma LowerTab(v: string)
    ensures EndsInTab(Lower(v)) <==> EndsInTab(v)
  {
  }

  lemma SuffixTail(v: string)
    ensures |StripSuffix(v)| <= |v|
    ensures v[|StripSuffix(v)|..] == "" || v[|StripSuffix(v)|..][0] == '#'
  {
  }

  lemma {:induction false} FollowedNames(vs: seq<string>, unique: bool, from: Name, to: Name)
    requires from != [] && to != [] && forall v :: v in vs ==> SafeValue(v, unique, from, to)
    ensures NamesIn(MapValues(vs, Follow(from, to), unique), unique) == Image(NamesIn(vs, unique), Relocation(from, to))
  {
    hide NameOf, SafeValue, NewText, Moved, Canonical, AtOrUnder;
    var ws := MapValues(vs, Follow(from, to), unique);
    forall i | 0 <= i < |vs|
      ensures NameOf(ws[i], unique) == if NameOf(vs[i], unique).Some?
                then Some(Moved(NameOf(vs[i], unique).value, from, to)) else None
    {
      assert vs[i] in vs;
      FollowsName(vs[i], unique, from, to);
    }
    SamePositions(vs, ws, unique, Relocation(from, to));
  }

  lemma SamePositions(vs: seq<string>, ws: seq<string>, unique: bool, mv: Mapping)
    requires |vs| == |ws|
    requires forall i :: 0 <= i < |vs| ==>
               NameOf(ws[i], unique) == if NameOf(vs[i], unique).Some?
                   then Some(Apply(mv, NameOf(vs[i], unique).value)) else None
    ensures NamesIn(ws, unique) == Image(NamesIn(vs, unique), mv)
  {
    hide NameOf, Apply, Canonical;
    forall n ensures n in NamesIn(ws, unique) <==> n in Image(NamesIn(vs, unique), mv) {
      if n in NamesIn(ws, unique) {
        var w :| w in ws && NameOf(w, unique) == Some(n);
        var i :| 0 <= i < |ws| && ws[i] == w;
        assert NameOf(vs[i], unique).Some?;
        assert vs[i] in vs && NameOf(vs[i], unique).value in NamesIn(vs, unique);
      }
      if n in Image(NamesIn(vs, unique), mv) {
        var m :| m in NamesIn(vs, unique) && Apply(mv, m) == n;
        var v :| v in vs && NameOf(v, unique) == Some(m);
        var i :| 0 <= i < |vs| && vs[i] == v;
        assert ws[i] in ws;
      }
    }
  }

  lemma ImageUnion(a: set<Name>, b: set<Name>, mv: Mapping)
    ensures Image(a + b, mv) == Image(a, mv) + Image(b, mv)
  {
    hide Apply;
  }

  lemma RedirectKeepsRest(e: Entry, from: Name, to: Name)
    requires Distinct(e.attrs)
    ensures OnlyMembersDiffer(e, Fixed(e, Redirect(from, to)))
  {
    hide EqualFold, Follow;
    var f := Follow(from, to);
    var bs := MapMembers(e.attrs, f);
    MapKeepsRest(e, f);
    forall i, j | 0 <= i < j < |bs| ensures !EqualFold(bs[i].name, bs[j].name) {
      assert bs[i].name == e.attrs[i].name && bs[j].name == e.attrs[j].name;
    }
  }

  lemma MapKeepsRest(e: Entry, f: Rewrite)
    ensures KeepsBut(e, e.(attrs := MapMembers(e.attrs, f)), "member", "uniqueMember")
  {
    hide EqualFold, ValuesOf, MapMembers;
    var e' := e.(attrs := MapMembers(e.attrs, f));
    forall name | !EqualFold("member", name)
        && !EqualFold("uniqueMember", name) ensures Values(e', name) == Values(e, name) {
      FoldSymmetric(name, "member");
      FoldSymmetric(name, "uniqueMember");
      MapMembersValues(e.attrs, f, name);
    }
  }

  lemma RedirectFacts(e: Entry, from: Name, to: Name)
    requires from != [] && to != [] && SafeToRedirect(e, from, to)
    ensures MemberNames(Fixed(e, Redirect(from, to))) == Image(MemberNames(e), Relocation(from, to))
  {
    hide Follow, NamesIn, Image, MapValues, NameOf, SafeValue, Moved, AtOrUnder, ValuesOf, MapMembers, Canonical;
    var f := Follow(from, to);
    MapMembersValues(e.attrs, f, "member");
    MapMembersValues(e.attrs, f, "uniqueMember");
    FollowedNames(Values(e, "member"), false, from, to);
    FollowedNames(Values(e, "uniqueMember"), true, from, to);
    ImageUnion(NamesIn(Values(e, "member"), false), NamesIn(Values(e, "uniqueMember"), true), Relocation(from, to));
  }

  // ---------------------------------------------------------------------------
  // The repair sweep
  // ---------------------------------------------------------------------------

  ghost function PartlyRepaired(t: Tree, scopes: seq<Name>, r: Repair, done: set<Name>): Tree {
    map d | d in t :: if d in done && UnderAny(d, scopes) && IsGroup(t[d]) then Fixed(t[d], r) else t[d]
  }

  lemma PartlyNone(t: Tree, scopes: seq<Name>, r: Repair)
    ensures PartlyRepaired(t, scopes, r, {}) == t
  {
    hide Fixed, IsGroup, UnderAny, Canonical;
  }

  lemma PartlyStep(t: Tree, scopes: seq<Name>, r: Repair, done: set<Name>, suffix: Name, e: Entry)
    requires suffix in scopes && e.dn in t && e.dn !in done && AtOrUnder(e.dn, suffix)
    requires e == PartlyRepaired(t, scopes, r, done)[e.dn]
    ensures PartlyRepaired(t, scopes, r, done + {e.dn}) ==
            if IsGroup(e) then PartlyRepaired(t, scopes, r, done)[e.dn := Fixed(e, r)]
                else PartlyRepaired(t, scopes, r, done)
  {
    hide Fixed, IsGroup, AtOrUnder, Canonical;
  }

  lemma PartlyFacts(t: Tree, scopes: seq<Name>, r: Repair, done: set<Name>)
    requires Tidy(t)
    ensures PartlyRepaired(t, scopes, r, done).Keys == t.Keys
    ensures Tidy(PartlyRepaired(t, scopes, r, done))
  {
    hide Distinct, IsGroup, UnderAny, Canonical, Fixed;
    forall d | d in t ensures Fixed(t[d], r).dn == d && Distinct(Fixed(t[d], r).attrs) {
      FixedTidy(t[d], r);
    }
  }

  lemma FixedTidy(e: Entry, r: Repair)
    requires Distinct(e.attrs)
    ensures Fixed(e, r).dn == e.dn && Distinct(Fixed(e, r).attrs)
  {
    match r
    case NoRepair =>
    case Drop(gone) => DropFacts(e, gone);
    case Redirect(from, to) => RedirectKeepsRest(e, from, to);
  }

  lemma PartlyAll(t: Tree, scopes: seq<Name>, r: Repair, done: set<Name>)
    requires Covered(t, scopes) && ScannedUpTo(t, scopes, |scopes|, done)
    ensures PartlyRepaired(t, scopes, r, done) == RepairedTree(t, scopes, r)
  {
    hide Fixed, IsGroup, AtOrUnder, Canonical;
  }

  /** done holds only entries of suffixes already swept. */
  ghost predicate SweptOnly(scopes: seq<Name>, n: nat, done: set<Name>)
    requires n <= |scopes|
  {
    forall d :: d in done ==> exists i :: 0 <= i < n && AtOrUnder(d, scopes[i])
  }

  lemma SweptStep(t: Tree, scopes: seq<Name>, n: nat, done: set<Name>, es: seq<Entry>)
    requires Siblings(scopes) && n < |scopes| && SweptOnly(scopes, n, done) && IsListing(es, t, scopes[n])
    ensures SweptOnly(scopes, n + 1, done + DnsOf(es))
    ensures done !! DnsOf(es)
  {
    hide AtOrUnder, Canonical;
    forall d | d in DnsOf(es) ensures d !in done && AtOrUnder(d, scopes[n]) {
      var j :| 0 <= j < |es| && es[j].dn == d;
      if d in done {
        var i :| 0 <= i < n && AtOrUnder(d, scopes[i]);
        ApartDescendants(d, scopes[i], scopes[n]);
      }
    }
  }

  class Plugin {
    const scopes: seq<Name>

    constructor (scopes: seq<Name>)
      ensures this.scopes == scopes
    {
      this.scopes := scopes;
    }

    /** The hook: a delete drops references to the entry, a rename redirects them, anything else is ignored. */
    method AfterWrite(tx: Tx, ev: WriteEvent)
      requires tx.Valid() && Tidy(tx.Tree()) && Covered(tx.Tree(), scopes) && Siblings(scopes)
      modifies tx
      ensures tx.Valid() && Tidy(tx.Tree())
      ensures tx.Tree() == RepairedTree(old(tx.Tree()), scopes, RepairFor(ev, scopes))
    {
      hide Tidy, Covered, Siblings, Canonical, TreeOf, Keyed, UnderAny, RepairedTree;
      NothingRepaired(tx.Tree(), scopes);
      match ev.op {
        case WriteDelete =>
          if ev.before.None? || !UnderAny(ev.before.value.dn, scopes) {
            return;
          }
          RepairGroups(tx, Drop(ev.before.value.dn));
        case WriteRename =>
          if ev.before.None? || ev.after.None? {
            return;
          }
          var from, to := ev.before.value.dn, ev.after.value.dn;
          if !UnderAny(from, scopes) || !UnderAny(to, scopes) {
            return;
          }
          if from == to {
            return;
          }
          RepairGroups(tx, Redirect(from, to));
        case _ =>
      }
    }

    /** Applies the repair to every managed group, writing back only entries it changed. */
    method RepairGroups(tx: Tx, r: Repair)
      requires tx.Valid() && Tidy(tx.Tree()) && Covered(tx.Tree(), scopes) && Siblings(scopes)
      modifies tx
      ensures tx.Valid() && Tidy(tx.Tree())
      ensures tx.Tree() == RepairedTree(old(tx.Tree()), scopes, r)
    {
      hide Tidy, Covered, Siblings, Canonical, TreeOf, Keyed, UnderAny, RepairedTree, PartlyRepaired, SweptOnly,
          ScannedUpTo, IsListing, DnsOf;
      ghost var t := tx.Tree();
      ghost var done: set<Name> := {};
      PartlyNone(t, scopes, r);
      SweepStarts(t, scopes);
      for i := 0 to |scopes|
        invariant tx.Valid() && tx.Tree() == PartlyRepaired(t, scopes, r, done)
        invariant ScannedUpTo(t, scopes, i, done) && SweptOnly(scopes, i, done)
      {
        PartlyFacts(t, scopes, r, done);
        var es := tx.Subtree(scopes[i]);
        if es.None? {
          ScanMissing(t, scopes, i, done);
          SweptMissing(scopes, i, done);
          continue;
        }
        ScanStepLike(t, tx.Tree(), scopes, i, done, es.value);
        SweptStep(tx.Tree(), scopes, i, done, es.value);
        RepairListing(tx, r, es.value, scopes[i], t, done);
        done := done + DnsOf(es.value);
      }
      PartlyFacts(t, scopes, r, done);
      PartlyAll(t, scopes, r, done);
    }

    method RepairListing(tx: Tx, r: Repair, es: seq<Entry>, suffix: Name, ghost t: Tree, ghost done: set<Name>)
      requires tx.Valid() && Tidy(t) && suffix in scopes && tx.Tree() == PartlyRepaired(t, scopes, r, done)
      requires IsListing(es, tx.Tree(), suffix) && done !! DnsOf(es)
      modifies tx
      ensures tx.Valid() && tx.Tree() == PartlyRepaired(t, scopes, r, done + DnsOf(es))
    {
      hide Tidy, Canonical, TreeOf, Keyed, UnderAny, PartlyRepaired, IsListing, DnsOf, AtOrUnder, IsGroup;
      ghost var t1 := tx.Tree();
      DnsOfNone(done);
      assert es[..0] == [];
      for j := 0 to |es|
        invariant tx.Valid() && tx.Tree() == PartlyRepaired(t, scopes, r, done + DnsOf(es[..j]))
      {
        var e := es[j];
        ghost var sofar := done + DnsOf(es[..j]);
        DnsOfSnoc(es, j, done);
        ListedUntouched(es, t1, suffix, j, done);
        StillThere(t, t1, scopes, r, done, sofar, e);
        PartlyStep(t, scopes, r, sofar, suffix, e);
        if !IsGroup(e) {
          continue;
        }
        var e', changed := Repaired(e, r);
        FixedTidy(e, r);
        if !changed {
          SameEntry(tx.Tree(), e);
          continue;
        }
        var err := tx.Replace(e');
      }
      assert es[..|es|] == es;
    }

    /** The repair of one entry, and whether it changed anything. */
    method Repaired(e: Entry, r: Repair) returns (e': Entry, changed: bool)
      ensures e' == Fixed(e, r)
      ensures !changed ==> e' == e
    {
      hide KeepOthers, Follow, FilterMembers, DropsSome;
      match r {
        case NoRepair =>
          e', changed := e, false;
        case Drop(gone) =>
          e', changed := FilterMemberValues(e, KeepOthers(gone));
        case Redirect(from, to) =>
          e', changed := MapMemberValues(e, Follow(from, to));
      }
    }
  }

  lemma NothingRepaired(t: Tree, scopes: seq<Name>)
    ensures RepairedTree(t, scopes, NoRepair) == t
  {
    hide IsGroup, UnderAny, Canonical;
  }

  lemma SweepStarts(t: Tree, scopes: seq<Name>)
    ensures ScannedUpTo(t, scopes, 0, {}) && SweptOnly(scopes, 0, {})
  {
  }

  lemma SweptMissing(scopes: seq<Name>, n: nat, done: set<Name>)
    requires n < |scopes| && SweptOnly(scopes, n, done)
    ensures SweptOnly(scopes, n + 1, done)
  {
    hide AtOrUnder;
  }

  /** An entry of a listing has not been repaired before its turn. */
  lemma ListedUntouched(es: seq<Entry>, t: Tree, suffix: Name, j: nat, done: set<Name>)
    requires IsListing(es, t, suffix) && j < |es| && done !! DnsOf(es)
    ensures es[j].dn in t && t[es[j].dn] == es[j] && AtOrUnder(es[j].dn, suffix)
    ensures es[j].dn !in done && es[j].dn !in DnsOf(es[..j])
  {
    hide AtOrUnder, Canonical;
    assert es[j].dn in DnsOf(es);
  }

  lemma StillThere(t: Tree, t1: Tree, scopes: seq<Name>, r: Repair, done: set<Name>, sofar: set<Name>, e: Entry)
    requires t1 == PartlyRepaired(t, scopes, r, done) && e.dn in t1 && t1[e.dn] == e
    requires e.dn !in done && e.dn !in sofar && Tidy(t)
    ensures e.dn != [] && Distinct(e.attrs)
    ensures e.dn in t && PartlyRepaired(t, scopes, r, sofar).Keys == t.Keys
    ensures PartlyRepaired(t, scopes, r, sofar)[e.dn] == e
    ensures e == t[e.dn]
  {
    hide Fixed, IsGroup, UnderAny, Canonical;
  }

  lemma SameEntry(t: Tree, e: Entry)
    requires e.dn in t && t[e.dn] == e
    ensures t[e.dn := e] == t
  {
  }
}
