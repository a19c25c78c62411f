// The memberof plugin: after every write it recomputes the memberOf sets of a seeded
// set of entries from the group graph of the tree as it now stands.
module MemberOf {
  import opened Text
  import DnSyntax
  import opened Names
  import opened Entries
  import opened Stores
  import opened Graphs

  datatype WriteOp = WriteAdd | WriteModify | WriteDelete | WriteRename

  /** One write as the plugins see it: before is absent for an add, after for a delete. */
  datatype WriteEvent = WriteEvent(op: WriteOp, before: Option<Entry>, after: Option<Entry>)

  /** How member values that still carry old names are read. */
  datatype Mapping = Identity | Relocation(from: Name, to: Name)

  function Apply(mv: Mapping, d: Name): Name {
    match mv case Identity => d case Relocation(from, to) => Moved(d, from, to)
  }

  /** The same for a DN as it is spelled. */
  function Respelled(mv: Mapping, d: DnSyntax.DN): DnSyntax.DN {
    match mv
    case Identity => d
    case Relocation(from, to) => if RebaseDN(d, from, to).Some? then RebaseDN(d, from, to).value else d
  }

  function Image(ns: set<Name>, mv: Mapping): set<Name> { set n | n in ns :: Apply(mv, n) }

  /** The groups of the managed suffixes and whom they name, member values read through mv. */
  ghost function GroupGraph(t: Tree, scopes: seq<Name>, mv: Mapping): Graph<Name> {
    map d | d in t && UnderAny(d, scopes) && IsGroup(t[d]) :: Image(MemberNames(t[d]), mv)
  }

  /** Every managed entry is listed by the subtree scan of some suffix that exists. */
  ghost predicate Covered(t: Tree, scopes: seq<Name>) {
    forall d :: d in t && UnderAny(d, scopes) ==>
        exists i :: 0 <= i < |scopes| && scopes[i] in t && AtOrUnder(d, scopes[i])
  }

  /** Attribute names are distinct in every entry. */
  ghost predicate Tidy(t: Tree) {
    forall d :: d in t ==> d != [] && t[d].dn == d && Distinct(t[d].attrs)
  }

  /** The memberOf sets are exact: every managed entry carries the groups it belongs to. */
  ghost predicate Converged(t: Tree, scopes: seq<Name>, nested: bool) {
    forall d :: d in t && UnderAny(d, scopes) ==>
      MemberOfNames(t[d]) == Reaching(GroupGraph(t, scopes, Identity), nested, d)
  }

  /** e' is e up to memberOf and the object class nsmemberof. */
  ghost predicate SameBut(e: Entry, e': Entry) {
    && e'.dn == e.dn && Distinct(e'.attrs)
    && KeepsBut(e, e', "memberOf", "objectClass")
    && OtherClasses(e', "nsmemberof") == OtherClasses(e, "nsmemberof")
    && (IsGroup(e') <==> IsGroup(e))
  }

  /** Member values are among what stays. */
  lemma SameMembers(e: Entry, e': Entry)
    requires SameBut(e, e')
    ensures Values(e', "member") == Values(e, "member") && Values(e', "uniqueMember") == Values(e, "uniqueMember")
    ensures MemberNames(e') == MemberNames(e) && (IsGroup(e') <==> IsGroup(e))
  {
    NamesDiffer();
    hide EqualFold, NamesIn, ValuesOf;
    assert KeepsBut(e, e', "memberOf", "objectClass");
  }

  /** t' is t with the entries in touched brought in line with the graph g, and nothing else changed. */
  ghost predicate Recomputed(t: Tree, t': Tree, g: Graph<Name>, nested: bool, touched: set<Name>) {
    && t'.Keys == t.Keys
    && (forall d :: d in t && d !in touched ==> t'[d] == t[d])
    && (forall d :: d in t ==> SameBut(t[d], t'[d]))
    && (forall d :: d in t && d in touched ==>
          MemberOfNames(t'[d]) == Reaching(g, nested, d)
          && (HasClass(t'[d], "nsmemberof") <==> Reaching(g, nested, d) != {}))
  }

  // ---------------------------------------------------------------------------
  // The group index
  // ---------------------------------------------------------------------------

  /** A snapshot of the graph: the groups, and for every member the groups that list it. */
  datatype GroupIndex = GroupIndex(groups: map<Name, Entry>, byMember: map<Name, seq<Entry>>)

  ghost predicate Lists(idx: GroupIndex, m: Name, d: Name) {
    m in idx.byMember && exists i :: 0 <= i < |idx.byMember[m]| && idx.byMember[m][i].dn == d
  }

  /** The index holds the graph, and hands out the group entries of t. */
  ghost predicate IndexFor(idx: GroupIndex, t: Tree, g: Graph<Name>) {
    && idx.groups.Keys == g.Keys
    && (forall d :: d in g ==> d in t && idx.groups[d] == t[d])
    && (forall m, d :: Lists(idx, m, d) <==> d in g && m in g[d])
  }

  /** The index with e recorded as listing m. */
  function Listed(idx: GroupIndex, m: Name, e: Entry): GroupIndex {
    idx.(byMember := idx.byMember[m := (if m in idx.byMember then idx.byMember[m] else []) + [e]])
  }

  /** r records exactly what idx does and that d0 lists ms. */
  ghost predicate ListsMore(idx: GroupIndex, r: GroupIndex, d0: Name, ms: set<Name>) {
    r.groups == idx.groups && forall m, d :: Lists(r, m, d) <==> (Lists(idx, m, d) || (d == d0 && m in ms))
  }

  lemma ListOne(idx: GroupIndex, m: Name, e: Entry)
    ensures ListsMore(idx, Listed(idx, m, e), e.dn, {m})
  {
    var prior := if m in idx.byMember then idx.byMember[m] else [];
    var r := Listed(idx, m, e);
    forall n, d ensures Lists(r, n, d) <==> (Lists(idx, n, d) || (d == e.dn && n in {m})) {
      if n == m {
        assert r.byMember[m][|prior|] == e;
        if Lists(idx, n, d) {
          var i :| 0 <= i < |prior| && prior[i].dn == d;
          assert r.byMember[m][i].dn == d;
        }
      }
    }
  }

  lemma ListsMoreAgain(idx: GroupIndex, r: GroupIndex, r': GroupIndex, d0: Name, ms: set<Name>, m: Name)
    requires ListsMore(idx, r, d0, ms) && ListsMore(r, r', d0, {m})
    ensures ListsMore(idx, r', d0, ms + {m})
  {
    hide Lists;
  }

  function NamesAmong(rs: seq<Ref>): set<Name> { set r | r in rs :: r.name }

  lemma ImageSnoc(rs: seq<Ref>, r: Ref, mv: Mapping)
    ensures Image(NamesAmong(rs + [r]), mv) == Image(NamesAmong(rs), mv) + {Apply(mv, r.name)}
  {
    hide Apply, Canonical;
    forall n ensures n in NamesAmong(rs + [r]) <==> n in NamesAmong(rs) || n == r.name {
      if n in NamesAmong(rs) {
        var q :| q in rs && q.name == n;
        assert q in rs + [r];
      }
      assert (rs + [r])[|rs|] == r;
    }
    assert NamesAmong(rs + [r]) == NamesAmong(rs) + {r.name};
    hide NamesAmong;
    forall n ensures n in Image(NamesAmong(rs) + {r.name}, mv) <==>
                       n in Image(NamesAmong(rs), mv) || n == Apply(mv, r.name) {
    }
  }

  lemma ImageNone(mv: Mapping)
    ensures Image(NamesAmong([]), mv) == {}
  {
  }

  /** What memberDNs lists names what the entry names. */
  lemma ListedNames(e: Entry, rs: seq<Ref>)
    requires forall r :: r in rs <==> Refers(e, r)
    ensures NamesAmong(rs) == MemberNames(e)
  {
    hide MemberNames, RefTo, Spells, Canonical;
    forall n ensures n in NamesAmong(rs) <==> n in MemberNames(e) {
      RefToFacts(e, n);
      if n in MemberNames(e) {
        assert RefTo(e, n).value in rs;
      }
    }
  }

  method AddMembers(idx: GroupIndex, e: Entry, ms: seq<Ref>, mv: Mapping) returns (r: GroupIndex)
    ensures ListsMore(idx, r, e.dn, Image(NamesAmong(ms), mv))
  {
    hide Apply, Image, NamesAmong, Lists;
    r := idx;
    ImageNone(mv);
    assert ms[..0] == [];
    for i := 0 to |ms|
      invariant ListsMore(idx, r, e.dn, Image(NamesAmong(ms[..i]), mv))
    {
      ImageSnoc(ms[..i], ms[i], mv);
      assert ms[..i + 1] == ms[..i] + [ms[i]];
      var m := Apply(mv, ms[i].name);
      ListOne(r, m, e);
      ListsMoreAgain(idx, r, Listed(r, m, e), e.dn, Image(NamesAmong(ms[..i]), mv), m);
      r := Listed(r, m, e);
    }
    assert ms[..|ms|] == ms;
  }

  /** The graph restricted to the groups done so far. */
  ghost function Part(g: Graph<Name>, done: set<Name>): Graph<Name> { map d | d in g && d in done :: g[d] }

  lemma PartStep(idx: GroupIndex, r: GroupIndex, t: Tree, g: Graph<Name>, done: set<Name>, d: Name)
    requires IndexFor(idx, t, Part(g, done)) && d in g && d in t
    requires ListsMore(idx.(groups := idx.groups[d := t[d]]), r, d, g[d])
    ensures IndexFor(r, t, Part(g, done + {d}))
  {
    var idx' := idx.(groups := idx.groups[d := t[d]]);
    var h, h' := Part(g, done), Part(g, done + {d});
    assert h'.Keys == h.Keys + {d};
    forall m, x ensures Lists(r, m, x) <==> x in h' && m in h'[x] {
      assert Lists(idx', m, x) <==> Lists(idx, m, x);
    }
  }

  lemma PartSame(g: Graph<Name>, done: set<Name>, d: Name)
    requires d !in g || d in done
    ensures Part(g, done + {d}) == Part(g, done)
  {
  }

  lemma PartAll(g: Graph<Name>, done: set<Name>)
    requires g.Keys <= done
    ensures Part(g, done) == g
  {
  }

  lemma IndexStarts(t: Tree, g: Graph<Name>)
    ensures IndexFor(GroupIndex(map[], map[]), t, Part(g, {}))
  {
  }

  class Plugin {
    const scopes: seq<Name>
    const nested: bool

    constructor (scopes: seq<Name>, nested: bool)
      ensures this.scopes == scopes && this.nested == nested
    {
      this.scopes := scopes;
      this.nested := nested;
    }

    /** The groups a member belongs to, walking up from it through the index. */
    method ReachingGroups(idx: GroupIndex, y: Name, ghost t: Tree, ghost g: Graph<Name>) returns (expected: set<Name>)
      requires IndexFor(idx, t, g)
      ensures expected == Reaching(g, nested, y)
    {
      hide IndexFor, Reaches, Searching, DnsOf, Reaching;
      expected := {};
      var seen := {y};
      var frontier := [y];
      SearchStarts(g, nested, y);
      while |frontier| > 0
        invariant Searching(g, nested, y, expected, seen, frontier)
        decreases |g.Keys - expected|, |frontier|
      {
        var key := frontier[0];
        var list := if key in idx.byMember then idx.byMember[key] else [];
        ListersListed(idx, t, g, key);
        ghost var e0, s0, f0 := expected, seen, frontier;
        SearchBounds(g, nested, y, e0, s0, f0);
        expected, seen, frontier := Absorb(nested, list, expected, seen, frontier[1..]);
        SearchStep(g, nested, y, e0, s0, f0, expected, seen, frontier);
        SearchBounds(g, nested, y, expected, seen, frontier);
        FewerLeft(g.Keys, e0, expected);
      }
      SearchEnds(g, nested, y, expected, seen);
    }

    /** A group's managed members join the seeds. */
    method Seed(e: Option<Entry>, mv: Mapping, seeds0: set<Name>) returns (seeds: set<Name>)
      ensures seeds == seeds0 + SeedsOf(e, scopes, mv)
    {
      hide ScopedAmong, ScopedMembers, Apply, Respelled, InScope, IsGroup;
      seeds := seeds0;
      if e.None? || !IsGroup(e.value) {
        return;
      }
      var ms := MemberDNs(e.value);
      ScopedListed(e.value, ms, scopes, mv);
      ScopedNone(scopes, mv);
      assert ms[..0] == [];
      for i := 0 to |ms|
        invariant seeds == seeds0 + ScopedAmong(ms[..i], scopes, mv)
      {
        ScopedSnoc(ms[..i], ms[i], scopes, mv);
        assert ms[..i + 1] == ms[..i] + [ms[i]];
        if InScope(Respelled(mv, ms[i].dn), scopes) {
          seeds := seeds + {Apply(mv, ms[i].name)};
        }
      }
      assert ms[..|ms|] == ms;
    }

    /** Every group among the seeds pulls its managed members in, and they theirs. */
    method Expand(idx: GroupIndex, mv: Mapping, seeds0: set<Name>, ghost t: Tree) returns (seeds: set<Name>)
      requires IndexFor(idx, t, GroupGraph(t, scopes, mv))
      ensures forall x :: x in seeds <==> Below(FollowedGraph(t, scopes, mv), seeds0, x)
    {
      hide IndexFor, GroupGraph, FollowedGraph, Below, ScopedAmong, ScopedMembers, Elements, Universe;
      ghost var g := FollowedGraph(t, scopes, mv);
      seeds := seeds0;
      var queue := ToQueue(seeds0);
      ExpandStarts(g, seeds0, queue);
      while |queue| > 0
        invariant Expanding(g, seeds0, seeds, queue)
        decreases |Universe(g, seeds0) - seeds|, |queue|
      {
        ghost var s0, q0 := seeds, queue;
        var key := queue[0];
        queue := queue[1..];
        ExpandBounds(g, seeds0, s0, q0);
        GroupInIndex(idx, t, scopes, mv, key);
        if key in idx.groups {
          var ms := MemberDNs(idx.groups[key]);
          ScopedListed(idx.groups[key], ms, scopes, mv);
          seeds, queue := Enqueue(ms, mv, scopes, seeds, queue);
        }
        ExpandStep(g, seeds0, s0, q0, seeds, queue);
        ExpandBounds(g, seeds0, seeds, queue);
        FewerLeft(Universe(g, seeds0), s0, seeds);
      }
      ExpandEnds(g, seeds0, seeds);
    }

    /** Brings one entry's memberOf in line with the groups that reach it; an absent entry is skipped. */
    method Recompute(tx: Tx, idx: GroupIndex, d: Name, ghost t0: Tree, ghost g: Graph<Name>)
      requires tx.Valid() && Tidy(tx.Tree()) && IndexFor(idx, t0, g) && [] !in g
      modifies tx
      ensures tx.Valid() && Tidy(tx.Tree())
      ensures Recomputed(old(tx.Tree()), tx.Tree(), g, nested, {d})
    {
      hide IndexFor, Reaching, Tidy, Recomputed, WithMemberOf, HasClass, MemberOfNames, Canonical, TreeOf, Keyed;
      ghost var t := tx.Tree();
      var e := tx.Get(d);
      if e.None? {
        AlreadyRecomputed(t, g, nested, d);
        return;
      }
      TidyEntry(t, d);
      var expected := ReachingGroups(idx, d, t0, g);
      var current := MemberOfNames(e.value);
      if current == expected && HasClass(e.value, "nsmemberof") == (expected != {}) {
        AlreadyRecomputed(t, g, nested, d);
        return;
      }
      ReachingInGraph(g, nested, d);
      var values := Texts(expected);
      RecomputedOne(t, g, nested, d, values);
      var err := tx.Replace(WithMemberOf(e.value, values));
    }

    /** A moved subtree seeds its managed entries and the members of its groups. */
    method SeedMoved(tx: Tx, mv: Mapping, seeds0: set<Name>) returns (seeds: set<Name>)
      requires tx.Valid() && mv.Relocation?
      ensures forall m :: m in seeds <==> m in seeds0 || FromMoved(tx.Tree(), scopes, mv, m)
    {
      hide SeedsOf, AtOrUnder, UnderAny, Canonical, IsListing, FromFirst, FromMoved, TreeOf, Keyed;
      seeds := seeds0;
      var es := tx.Subtree(mv.to);
      if es.None? {
        NothingMoved(tx.Tree(), scopes, mv);
        return;
      }
      FromListing(tx.Tree(), scopes, mv, es.value);
      FromNone(es.value, scopes, mv);
      for i := 0 to |es.value|
        invariant forall m :: m in seeds <==> m in seeds0 || FromFirst(es.value, i, scopes, mv, m)
      {
        var e := es.value[i];
        FromSnoc(es.value, i, scopes, mv);
        if UnderAny(e.dn, scopes) {
          seeds := seeds + {e.dn};
        }
        seeds := Seed(Some(e), mv, seeds);
      }
    }

    /** The entries whose memberOf a write may change, before expansion. */
    method Seeds(tx: Tx, ev: WriteEvent) returns (seeds: set<Name>)
      requires tx.Valid()
      ensures forall m :: m in seeds <==> Seeded(tx.Tree(), scopes, ev, m)
    {
      hide SeedsOf, FromMoved, UnderAny, Canonical;
      var mv := MappingOf(ev);
      seeds := {};
      match ev.op {
        case WriteAdd =>
          seeds := Seed(ev.after, mv, seeds);
        case WriteDelete =>
          seeds := Seed(ev.before, mv, seeds);
        case _ =>
          seeds := Seed(ev.before, mv, seeds);
          seeds := Seed(ev.after, mv, seeds);
          if mv.Relocation? {
            seeds := SeedMoved(tx, mv, seeds);
          } else {
            NothingRelocated(tx.Tree(), scopes, mv);
          }
      }
    }

    /** The plugin's hook: seed, expand, and recompute every seed, inside the write's transaction. */
    method AfterWrite(tx: Tx, ev: WriteEvent) returns (ghost touched: set<Name>)
      requires tx.Valid() && Tidy(tx.Tree()) && Covered(tx.Tree(), scopes)
      modifies tx
      ensures tx.Valid() && Tidy(tx.Tree())
      ensures Recomputed(old(tx.Tree()), tx.Tree(), GroupGraph(old(tx.Tree()), scopes, MappingOf(ev)), nested, touched)
      ensures Touches(old(tx.Tree()), scopes, ev, nested, touched)
    {
      hide Seeded, GroupGraph, FollowedGraph, IndexFor, Recomputed, Tidy, Covered, Reaches, Canonical, TreeOf, Keyed,
          MappingOf;
      ghost var t := tx.Tree();
      var mv := MappingOf(ev);
      ghost var g := GroupGraph(t, scopes, mv);
      RecomputedNone(t, g, nested);
      var seeds := Seeds(tx, ev);
      ghost var seeds0 := seeds;
      if seeds == {} {
        return {};
      }
      var idx := IndexGroups(tx, mv);
      if nested {
        seeds := Expand(idx, mv, seeds, t);
      }
      touched := seeds;
      GroupsNamed(t, scopes, mv);
      RecomputeAll(tx, idx, seeds, t, g);
    }

    method RecomputeAll(tx: Tx, idx: GroupIndex, seeds: set<Name>, ghost t: Tree, ghost g: Graph<Name>)
      requires tx.Valid() && Tidy(tx.Tree()) && t == tx.Tree() && IndexFor(idx, t, g) && [] !in g
      modifies tx
      ensures tx.Valid() && Tidy(tx.Tree())
      ensures Recomputed(t, tx.Tree(), g, nested, seeds)
    {
      hide IndexFor, Recomputed, Tidy, Canonical, TreeOf, Keyed;
      RecomputedNone(t, g, nested);
      var rest := seeds;
      ghost var done: set<Name> := {};
      while rest != {}
        invariant done + rest == seeds && done !! rest
        invariant tx.Valid() && Tidy(tx.Tree())
        invariant Recomputed(t, tx.Tree(), g, nested, done)
        decreases |rest|
      {
        var d :| d in rest;
        ghost var t1 := tx.Tree();
        Recompute(tx, idx, d, t, g);
        RecomputedMore(t, t1, tx.Tree(), g, nested, done, d);
        done := done + {d};
        rest := rest - {d};
      }
      assert done == seeds;
    }

    /** Recomputes every managed entry. */
    method FixupIn(tx: Tx)
      requires tx.Valid() && Tidy(tx.Tree()) && Covered(tx.Tree(), scopes)
      modifies tx
      ensures tx.Valid() && Tidy(tx.Tree())
      ensures Recomputed(old(tx.Tree()), tx.Tree(), GroupGraph(old(tx.Tree()), scopes, Identity), nested,
                         set d | d in old(tx.Tree()) && UnderAny(d, scopes))
    {
      hide IndexFor, GroupGraph, Recomputed, Tidy, Canonical, TreeOf, Keyed, IsListing, ScannedUpTo, UnderAny;
      ghost var t := tx.Tree();
      ghost var g := GroupGraph(t, scopes, Identity);
      GroupsNamed(t, scopes, Identity);
      RecomputedNone(t, g, nested);
      var idx := IndexGroups(tx, Identity);
      ghost var done: set<Name> := {};
      ScanNone(t, scopes);
      for i := 0 to |scopes|
        invariant tx.Valid() && Tidy(tx.Tree()) && Recomputed(t, tx.Tree(), g, nested, done)
        invariant ScannedUpTo(t, scopes, i, done) && forall d :: d in done ==> d in t && UnderAny(d, scopes)
      {
        ghost var t1 := tx.Tree();
        var es := tx.Subtree(scopes[i]);
        RecomputedKeys(t, t1, g, nested, done);
        if es.None? {
          ScanMissing(t, scopes, i, done);
          continue;
        }
        ScanStepLike(t, t1, scopes, i, done, es.value);
        FixupListing(tx, idx, es.value, t, g, done);
        done := done + DnsOf(es.value);
      }
      AllScannedNames(t, scopes, done);
    }

    method FixupListing(tx: Tx, idx: GroupIndex,
        es: seq<Entry>, ghost t: Tree, ghost g: Graph<Name>, ghost done: set<Name>)
      requires tx.Valid() && Tidy(tx.Tree()) && IndexFor(idx, t, g) && [] !in g
      requires Recomputed(t, tx.Tree(), g, nested, done)
      modifies tx
      ensures tx.Valid() && Tidy(tx.Tree())
      ensures Recomputed(t, tx.Tree(), g, nested, done + DnsOf(es))
    {
      hide IndexFor, Recomputed, Tidy, Canonical, TreeOf, Keyed, DnsOf;
      DnsOfNone(done);
      assert es[..0] == [];
      for j := 0 to |es|
        invariant tx.Valid() && Tidy(tx.Tree())
        invariant Recomputed(t, tx.Tree(), g, nested, done + DnsOf(es[..j]))
      {
        ghost var t1 := tx.Tree();
        Recompute(tx, idx, es[j].dn, t, g);
        RecomputedMore(t, t1, tx.Tree(), g, nested, done + DnsOf(es[..j]), es[j].dn);
        DnsOfSnoc(es, j, done);
      }
      assert es[..|es|] == es;
    }

    /** Scans every managed suffix once and builds the membership graph. */
    method IndexGroups(tx: Tx, mv: Mapping) returns (idx: GroupIndex)
      requires tx.Valid() && Covered(tx.Tree(), scopes)
      ensures IndexFor(idx, tx.Tree(), GroupGraph(tx.Tree(), scopes, mv))
    {
      hide GroupGraph, IndexFor, Part, IsListing, Covered;
      ghost var t := tx.Tree();
      ghost var g := GroupGraph(t, scopes, mv);
      idx := GroupIndex(map[], map[]);
      ghost var done: set<Name> := {};
      IndexStarts(t, g);
      for i := 0 to |scopes|
        invariant IndexFor(idx, t, Part(g, done))
        invariant ScannedUpTo(t, scopes, i, done)
      {
        var es := tx.Subtree(scopes[i]);
        if es.None? {
          ScanMissing(t, scopes, i, done);
          continue;
        }
        idx := IndexListing(tx, es.value, mv, scopes[i], idx, done);
        ScanStep(t, scopes, i, done, es.value);
        done := done + DnsOf(es.value);
      }
      AllScanned(t, scopes, mv, done);
      PartAll(g, done);
    }

    /** The groups among one suffix's entries. */
    method IndexListing(tx: Tx, es: seq<Entry>, mv: Mapping, suffix: Name, idx0: GroupIndex, ghost done: set<Name>)
        returns (idx: GroupIndex)
      requires tx.Valid() && suffix in scopes && IsListing(es, tx.Tree(), suffix)
      requires IndexFor(idx0, tx.Tree(), Part(GroupGraph(tx.Tree(), scopes, mv), done))
      ensures IndexFor(idx, tx.Tree(), Part(GroupGraph(tx.Tree(), scopes, mv), done + DnsOf(es)))
    {
      hide IndexFor, Part, ListsMore, IsGroup, MemberNames, Image, AtOrUnder, GroupGraph, UnderAny;
      ghost var t := tx.Tree();
      ghost var g := GroupGraph(t, scopes, mv);
      idx := idx0;
      DnsOfNone(done);
      assert es[..0] == [];
      for j := 0 to |es|
        invariant IndexFor(idx, t, Part(g, done + DnsOf(es[..j])))
      {
        var e := es[j];
        DnsOfSnoc(es, j, done);
        GroupAt(t, scopes, mv, suffix, e);
        if !IsGroup(e) {
          PartSame(g, done + DnsOf(es[..j]), e.dn);
          continue;
        }
        var ms := MemberDNs(e);
        ListedNames(e, ms);
        ghost var before := idx;
        idx := AddMembers(idx.(groups := idx.groups[e.dn := e]), e, ms, mv);
        PartStep(before, idx, t, g, done + DnsOf(es[..j]), e.dn);
      }
      assert es[..|es|] == es;
    }
  }

  // ---------------------------------------------------------------------------
  // Seeds
  // ---------------------------------------------------------------------------

  /** e refers to n, and the reference, read through mv, is in scope as it is spelled. */
  predicate ScopedRef(e: Entry, n: Name, scopes: seq<Name>, mv: Mapping) {
    RefTo(e, n).Some? && InScope(Respelled(mv, RefTo(e, n).value.dn), scopes)
  }

  /** The members whose spelling lies in scope, read through mv. */
  ghost function ScopedMembers(e: Entry, scopes: seq<Name>, mv: Mapping): set<Name> {
    set n | n in MemberNames(e) && ScopedRef(e, n, scopes, mv) :: Apply(mv, n)
  }

  /** Scoped members are members under a managed suffix. */
  lemma ScopedFacts(e: Entry, scopes: seq<Name>, mv: Mapping, m: Name)
    requires m in ScopedMembers(e, scopes, mv)
    ensures m in Image(MemberNames(e), mv) && UnderAny(m, scopes)
  {
    hide RefTo, MemberNames, Canonical, UnderAny, InScope, Apply, Respelled;
    var n :| n in MemberNames(e) && ScopedRef(e, n, scopes, mv) && Apply(mv, n) == m;
    RefToFacts(e, n);
    RespelledFacts(mv, RefTo(e, n).value);
    InScopeIsUnder(Respelled(mv, RefTo(e, n).value.dn), scopes);
  }

  lemma RespelledFacts(mv: Mapping, r: Ref)
    requires Spells(r)
    ensures Spells(Ref(Apply(mv, r.name), Respelled(mv, r.dn)))
  {
    match mv
    case Identity =>
    case Relocation(from, to) =>
      RebaseSpelling(r.dn, from, to);
      hide Canonical, RebaseDN, Rebase;
  }

  function ScopedAmong(rs: seq<Ref>, scopes: seq<Name>, mv: Mapping): set<Name> {
    set r | r in rs && InScope(Respelled(mv, r.dn), scopes) :: Apply(mv, r.name)
  }

  lemma ScopedListed(e: Entry, rs: seq<Ref>, scopes: seq<Name>, mv: Mapping)
    requires forall r :: r in rs <==> Refers(e, r)
    ensures ScopedAmong(rs, scopes, mv) == ScopedMembers(e, scopes, mv)
  {
    hide MemberNames, RefTo, Spells, Canonical, InScope, Respelled, Apply;
    forall m ensures m in ScopedAmong(rs, scopes, mv) <==> m in ScopedMembers(e, scopes, mv) {
      if m in ScopedAmong(rs, scopes, mv) {
        var r :| r in rs && InScope(Respelled(mv, r.dn), scopes) && Apply(mv, r.name) == m;
        RefToFacts(e, r.name);
        assert Refers(e, r) && ScopedRef(e, r.name, scopes, mv);
      }
      if m in ScopedMembers(e, scopes, mv) {
        var n :| n in MemberNames(e) && ScopedRef(e, n, scopes, mv) && Apply(mv, n) == m;
        RefToFacts(e, n);
        assert RefTo(e, n).value in rs;
      }
    }
  }

  lemma ScopedNone(scopes: seq<Name>, mv: Mapping)
    ensures ScopedAmong([], scopes, mv) == {}
  {
  }

  lemma ScopedSnoc(rs: seq<Ref>, r: Ref, scopes: seq<Name>, mv: Mapping)
    ensures ScopedAmong(rs + [r], scopes, mv) ==
            ScopedAmong(rs, scopes, mv) + if InScope(Respelled(mv, r.dn), scopes) then {Apply(mv, r.name)} else {}
  {
    hide InScope, Respelled, Apply, Canonical;
    forall m ensures m in ScopedAmong(rs + [r], scopes, mv) <==>
                       m in ScopedAmong(rs, scopes, mv)
                       || (InScope(Respelled(mv, r.dn), scopes) && m == Apply(mv, r.name)) {
      if m in ScopedAmong(rs, scopes, mv) {
        var q :| q in rs && InScope(Respelled(mv, q.dn), scopes) && Apply(mv, q.name) == m;
        assert q in rs + [r];
      }
      assert (rs + [r])[|rs|] == r;
    }
  }

  /** What a group entry seeds. */
  ghost function SeedsOf(e: Option<Entry>, scopes: seq<Name>, mv: Mapping): set<Name> {
    if e.Some? && IsGroup(e.value) then ScopedMembers(e.value, scopes, mv) else {}
  }

  /** The memberships that the expansion of the seeds follows: those spelled in scope. */
  ghost function FollowedGraph(t: Tree, scopes: seq<Name>, mv: Mapping): Graph<Name> {
    map d | d in t && UnderAny(d, scopes) && IsGroup(t[d]) :: SeedsOf(Some(t[d]), scopes, mv)
  }

  function MappingOf(ev: WriteEvent): Mapping {
    if ev.op == WriteRename && ev.before.Some? && ev.after.Some? && ev.before.value.dn != ev.after.value.dn
    then Relocation(ev.before.value.dn, ev.after.value.dn) else Identity
  }

  /** A moved entry, or a member of a moved group. */
  ghost predicate FromMoved(t: Tree, scopes: seq<Name>, mv: Mapping, m: Name) {
    mv.Relocation? && mv.to in t &&
    ((m in t && AtOrUnder(m, mv.to) && UnderAny(m, scopes))
     || exists d :: d in t && AtOrUnder(d, mv.to) && m in SeedsOf(Some(t[d]), scopes, mv))
  }

  /** What a write seeds: the members of the group before and after it and, for a move, all that moved. */
  ghost predicate Seeded(t: Tree, scopes: seq<Name>, ev: WriteEvent, m: Name) {
    match ev.op
    case WriteAdd => m in SeedsOf(ev.after, scopes, Identity)
    case WriteDelete => m in SeedsOf(ev.before, scopes, Identity)
    case _ =>
      m in SeedsOf(ev.before, scopes, MappingOf(ev)) || m in SeedsOf(ev.after, scopes, MappingOf(ev))
      || FromMoved(t, scopes, MappingOf(ev), m)
  }

  /** x is a seed or lies below one. */
  ghost predicate Below(g: Graph<Name>, seeds: set<Name>, x: Name) {
    x in seeds || exists s :: s in seeds && Reaches(g, s, x)
  }

  /** x lies below a seed of the write, over memberships spelled in scope. */
  ghost predicate BelowSeed(t: Tree, scopes: seq<Name>, ev: WriteEvent, x: Name) {
    exists s :: Seeded(t, scopes, ev, s) && Reaches(FollowedGraph(t, scopes, MappingOf(ev)), s, x)
  }

  /** Whose memberOf a write recomputes: what it seeds and, when nested, what lies below that. */
  ghost predicate Pulled(t: Tree, scopes: seq<Name>, ev: WriteEvent, nested: bool, m: Name) {
    Seeded(t, scopes, ev, m) || (nested && BelowSeed(t, scopes, ev, m))
  }

  ghost predicate Touches(t: Tree, scopes: seq<Name>, ev: WriteEvent, nested: bool, touched: set<Name>) {
    forall m :: m in touched <==> Pulled(t, scopes, ev, nested, m)
  }

  /** The state of the downward expansion. */
  ghost predicate Expanding(g: Graph<Name>, seeds0: set<Name>, seeds: set<Name>, queue: seq<Name>) {
    && seeds0 <= seeds
    && (forall x :: x in seeds ==> Below(g, seeds0, x))
    && (forall i :: 0 <= i < |queue| ==> queue[i] in seeds)
    && (forall s, n :: s in seeds && s in g && n in g[s] ==> n in seeds || s in queue)
  }

  lemma ExpandStep(g: Graph<Name>, seeds0: set<Name>, seeds: set<Name>, queue: seq<Name>, seeds': set<Name>,
                   queue': seq<Name>)
    requires queue != [] && Expanding(g, seeds0, seeds, queue)
    requires seeds' == seeds + if queue[0] in g then g[queue[0]] else {}
    requires forall x :: x in queue' <==> x in queue[1..] || x in seeds' - seeds
    ensures Expanding(g, seeds0, seeds', queue')
  {
    hide Reaches;
    var key := queue[0];
    forall x | x in seeds' - seeds ensures Below(g, seeds0, x) {
      if key in seeds0 {
        EdgeReaches(g, key, x);
      } else {
        var s :| s in seeds0 && Reaches(g, s, key);
        AppendReaches(g, s, key, x);
      }
    }
    assert forall x :: x in queue ==> x == key || x in queue[1..];
    forall i | 0 <= i < |queue'| ensures queue'[i] in seeds' {
      assert queue'[i] in queue';
      assert forall x :: x in queue[1..] ==> x in queue;
    }
  }

  lemma ExpandStarts(g: Graph<Name>, seeds0: set<Name>, queue: seq<Name>)
    requires Elements(queue) == seeds0
    ensures Expanding(g, seeds0, seeds0, queue)
  {
    hide Reaches;
    forall i | 0 <= i < |queue| ensures queue[i] in seeds0 {
      assert queue[i] in Elements(queue);
    }
  }

  lemma GroupInIndex(idx: GroupIndex, t: Tree, scopes: seq<Name>, mv: Mapping, key: Name)
    requires IndexFor(idx, t, GroupGraph(t, scopes, mv))
    ensures var g := FollowedGraph(t, scopes, mv);
      (key in idx.groups <==> key in g) && (key in g ==> g[key] == ScopedMembers(idx.groups[key], scopes, mv))
  {
    hide UnderAny, IsGroup, MemberNames, Image, ScopedMembers;
  }

  lemma ExpandEnds(g: Graph<Name>, seeds0: set<Name>, seeds: set<Name>)
    requires Expanding(g, seeds0, seeds, [])
    ensures forall x :: x in seeds <==> Below(g, seeds0, x)
  {
    hide Reaches;
    forall x | Below(g, seeds0, x) ensures x in seeds {
      if x !in seeds0 {
        var s :| s in seeds0 && Reaches(g, s, x);
        ClosedHolds(g, seeds, s, x);
      }
    }
  }

  /** A bound on what expansion can ever hold. */
  ghost function Universe(g: Graph<Name>, seeds0: set<Name>): set<Name> {
    seeds0 + set d, n | d in g.Keys && n in g[d] :: n
  }

  lemma ExpandBounds(g: Graph<Name>, seeds0: set<Name>, seeds: set<Name>, queue: seq<Name>)
    requires Expanding(g, seeds0, seeds, queue)
    ensures seeds <= Universe(g, seeds0)
  {
    hide Reaches;
    forall x | x in seeds && x !in seeds0 ensures x in Universe(g, seeds0) {
      var s :| s in seeds0 && Reaches(g, s, x);
      ReachesTarget(g, s, x);
    }
  }

  lemma ReachesTarget(g: Graph<Name>, a: Name, b: Name)
    requires Reaches(g, a, b)
    ensures exists d :: d in g && b in g[d]
  {
    var p :| IsWalk(g, p, a, b);
    assert p[|p| - 2] in g && p[|p| - 1] in g[p[|p| - 2]];
  }

  /** The members of one queued group that are managed and new join the seeds and the queue. */
  method Enqueue(ms: seq<Ref>, mv: Mapping, scopes: seq<Name>, seeds0: set<Name>, queue0: seq<Name>)
      returns (seeds: set<Name>, queue: seq<Name>)
    ensures seeds == seeds0 + ScopedAmong(ms, scopes, mv)
    ensures forall x :: x in queue <==> x in queue0 || x in seeds - seeds0
    ensures seeds == seeds0 ==> queue == queue0
  {
    seeds, queue := seeds0, queue0;
    hide ScopedAmong, Apply, Respelled, InScope;
    ScopedNone(scopes, mv);
    assert ms[..0] == [];
    for i := 0 to |ms|
      invariant seeds == seeds0 + ScopedAmong(ms[..i], scopes, mv)
      invariant forall x :: x in queue <==> x in queue0 || x in seeds - seeds0
      invariant seeds == seeds0 ==> queue == queue0
    {
      ScopedSnoc(ms[..i], ms[i], scopes, mv);
      assert ms[..i + 1] == ms[..i] + [ms[i]];
      var m := Apply(mv, ms[i].name);
      if m !in seeds && InScope(Respelled(mv, ms[i].dn), scopes) {
        seeds := seeds + {m};
        queue := queue + [m];
      }
    }
    assert ms[..|ms|] == ms;
  }

  /** A set in some order. */
  method ToQueue(s: set<Name>) returns (queue: seq<Name>)
    ensures Elements(queue) == s
  {
    queue := [];
    var rest := s;
    hide Canonical;
    while rest != {}
      invariant rest <= s && Elements(queue) == s - rest
      decreases |rest|
    {
      var x :| x in rest;
      ElementsSnoc(queue, x);
      queue := queue + [x];
      rest := rest - {x};
    }
  }

  lemma NothingMoved(t: Tree, scopes: seq<Name>, mv: Mapping)
    requires mv.Relocation? && mv.to !in t
    ensures forall m :: !FromMoved(t, scopes, mv, m)
  {
    hide SeedsOf, AtOrUnder, UnderAny;
  }

  lemma NothingRelocated(t: Tree, scopes: seq<Name>, mv: Mapping)
    requires mv.Identity?
    ensures forall m :: !FromMoved(t, scopes, mv, m)
  {
  }

  /** FromMoved for the first n entries of a listing. */
  ghost predicate FromFirst(es: seq<Entry>, n: nat, scopes: seq<Name>, mv: Mapping, m: Name)
    requires n <= |es|
  {
    exists i :: 0 <= i < n && ((es[i].dn == m && UnderAny(m, scopes)) || m in SeedsOf(Some(es[i]), scopes, mv))
  }

  lemma FromNone(es: seq<Entry>, scopes: seq<Name>, mv: Mapping)
    ensures forall m :: !FromFirst(es, 0, scopes, mv, m)
  {
  }

  lemma FromSnoc(es: seq<Entry>, n: nat, scopes: seq<Name>, mv: Mapping)
    requires n < |es|
    ensures forall m :: FromFirst(es, n + 1, scopes, mv, m) <==>
              (FromFirst(es, n, scopes, mv, m) || (es[n].dn == m && UnderAny(m, scopes))
                  || m in SeedsOf(Some(es[n]), scopes, mv))
  {
    hide SeedsOf, UnderAny, Canonical;
  }

  lemma FromListing(t: Tree, scopes: seq<Name>, mv: Mapping, es: seq<Entry>)
    requires mv.Relocation? && mv.to in t && IsListing(es, t, mv.to)
    ensures forall m :: FromFirst(es, |es|, scopes, mv, m) <==> FromMoved(t, scopes, mv, m)
  {
    hide SeedsOf, AtOrUnder, UnderAny, Canonical;
    forall m ensures FromFirst(es, |es|, scopes, mv, m) <==> FromMoved(t, scopes, mv, m) {
      if FromMoved(t, scopes, mv, m) {
        if m in t && AtOrUnder(m, mv.to) && UnderAny(m, scopes) {
          var i :| 0 <= i < |es| && es[i].dn == m;
        } else {
          var d :| d in t && AtOrUnder(d, mv.to) && m in SeedsOf(Some(t[d]), scopes, mv);
          var i :| 0 <= i < |es| && es[i].dn == d;
          assert es[i] == t[d];
        }
      }
    }
  }

  lemma GroupsNamed(t: Tree, scopes: seq<Name>, mv: Mapping)
    requires Tidy(t)
    ensures [] !in GroupGraph(t, scopes, mv)
  {
  }

  // ---------------------------------------------------------------------------
  // Recomputing
  // ---------------------------------------------------------------------------

  /** The texts of a set of names, in some order. */
  method Texts(names: set<Name>) returns (values: seq<string>)
    requires [] !in names
    ensures NamesIn(values, false) == names
    ensures values == [] <==> names == {}
  {
    values := [];
    var rest := names;
    hide Canonical, NameOf, NamesIn, Key;
    NamesInNone(false);
    while rest != {}
      invariant rest <= names && NamesIn(values, false) == names - rest
      invariant values == [] <==> rest == names
      decreases |rest|
    {
      var n :| n in rest;
      NameOfKey(n);
      NamesInSnoc(values, Key(n), false);
      values := values + [Key(n)];
      rest := rest - {n};
    }
  }

  /** A recomputed entry in place of the old one. */
  lemma RecomputedOne(t: Tree, g: Graph<Name>, nested: bool, d: Name, values: seq<string>)
    requires Tidy(t) && d in t && NamesIn(values, false) == Reaching(g, nested, d)
    requires values == [] <==> Reaching(g, nested, d) == {}
    ensures Recomputed(t, t[d := WithMemberOf(t[d], values)], g, nested, {d})
    ensures Tidy(t[d := WithMemberOf(t[d], values)])
  {
    hide Distinct, Values, NamesIn, Reaching, WithMemberOf, IsGroup, HasClass, Canonical;
    WithMemberOfFacts(t[d], values);
    MemberOfIs(WithMemberOf(t[d], values), values);
  }

  lemma MemberOfIs(e: Entry, values: seq<string>)
    requires Values(e, "memberOf") == values
    ensures MemberOfNames(e) == NamesIn(values, false)
  {
  }

  lemma TidyEntry(t: Tree, d: Name)
    requires Tidy(t) && d in t
    ensures d != [] && t[d].dn == d
    ensures forall values :: WithMemberOf(t[d], values).dn == d
  {
    forall values ensures WithMemberOf(t[d], values).dn == d {
      WithMemberOfFacts(t[d], values);
    }
  }

  lemma ReachingInGraph(g: Graph<Name>, nested: bool, d: Name)
    ensures Reaching(g, nested, d) <= g.Keys
  {
  }

  lemma AlreadyRecomputed(t: Tree, g: Graph<Name>, nested: bool, d: Name)
    requires Tidy(t)
    requires d in t ==> MemberOfNames(t[d]) == Reaching(g, nested, d)
    requires d in t ==> (HasClass(t[d], "nsmemberof") <==> Reaching(g, nested, d) != {})
    ensures Recomputed(t, t, g, nested, {d})
  {
    hide Distinct, Values, NamesIn, Reaching, IsGroup, HasClass, Canonical, MemberOfNames;
  }

  lemma RecomputedMore(t: Tree, t1: Tree, t2: Tree, g: Graph<Name>, nested: bool, a: set<Name>, d: Name)
    requires Recomputed(t, t1, g, nested, a) && Recomputed(t1, t2, g, nested, {d})
    ensures Recomputed(t, t2, g, nested, a + {d})
  {
    hide Distinct, Values, NamesIn, Reaching, IsGroup, HasClass, Canonical, MemberOfNames;
  }

  lemma RecomputedNone(t: Tree, g: Graph<Name>, nested: bool)
    requires Tidy(t)
    ensures Recomputed(t, t, g, nested, {})
  {
    hide Distinct, Values, NamesIn, Reaching, IsGroup, HasClass, Canonical, MemberOfNames;
  }

  /** Recomputing leaves the group graph as it is. */
  lemma RecomputedKeepsGraph(t: Tree, t': Tree, g: Graph<Name>, nested: bool, touched: set<Name>, scopes: seq<Name>,
      mv: Mapping)
    requires Recomputed(t, t', g, nested, touched)
    ensures GroupGraph(t', scopes, mv) == GroupGraph(t, scopes, mv)
  {
    hide Reaching, IsGroup, HasClass, Canonical, MemberOfNames, MemberNames, UnderAny, Image, SameBut;
    forall d | d in t ensures MemberNames(t'[d]) == MemberNames(t[d]) && (IsGroup(t'[d]) <==> IsGroup(t[d])) {
      SameMembers(t[d], t'[d]);
    }
  }

  // ---------------------------------------------------------------------------
  // Reverse reachability
  // ---------------------------------------------------------------------------

  /** The state of the upward search from y: what was found, and what is still to be expanded. */
  ghost predicate Searching(g: Graph<Name>, nested: bool, y: Name, expected: set<Name>, seen: set<Name>,
      frontier: seq<Name>) {
    && expected <= g.Keys
    && (forall a :: a in expected ==> if nested then Reaches(g, a, y) else y in g[a])
    && seen == (if nested then {y} + expected else {y})
    && (forall i :: 0 <= i < |frontier| ==> frontier[i] in seen)
    && (forall k, a :: k in seen && a in g && k in g[a] ==> a in expected || k in frontier)
  }

  ghost function Listers(g: Graph<Name>, k: Name): set<Name> { set a | a in g.Keys && k in g[a] }

  lemma SearchStarts(g: Graph<Name>, nested: bool, y: Name)
    ensures Searching(g, nested, y, {}, {y}, [y])
  {
  }

  lemma SearchStep(g: Graph<Name>, nested: bool, y: Name, expected: set<Name>, seen: set<Name>, frontier: seq<Name>,
                   expected': set<Name>, seen': set<Name>, frontier': seq<Name>)
    requires frontier != [] && Searching(g, nested, y, expected, seen, frontier)
    requires expected' == expected + Listers(g, frontier[0])
    requires seen' == if nested then seen + Listers(g, frontier[0]) else seen
    requires forall x :: x in frontier' <==> x in frontier[1..] || x in seen' - seen
    ensures Searching(g, nested, y, expected', seen', frontier')
  {
    hide Reaches;
    var key := frontier[0];
    forall a | a in Listers(g, key) ensures if nested then Reaches(g, a, y) else y in g[a] {
      if key == y { EdgeReaches(g, a, y); } else { PrependReaches(g, a, key, y); }
    }
    assert forall x :: x in frontier ==> x == key || x in frontier[1..];
    forall i | 0 <= i < |frontier'| ensures frontier'[i] in seen' {
      assert frontier'[i] in frontier';
      assert forall x :: x in frontier[1..] ==> x in frontier;
    }
  }

  lemma SearchBounds(g: Graph<Name>, nested: bool, y: Name, expected: set<Name>, seen: set<Name>, frontier: seq<Name>)
    requires Searching(g, nested, y, expected, seen, frontier)
    ensures expected <= g.Keys && (nested ==> expected <= seen)
  {
  }

  lemma FewerLeft<N>(all: set<N>, a: set<N>, b: set<N>)
    requires a <= b <= all
    ensures a != b ==> |all - b| < |all - a|
  {
    if a != b {
      assert all - b < all - a;
      SmallerSet(all - b, all - a);
    }
  }

  lemma SearchEnds(g: Graph<Name>, nested: bool, y: Name, expected: set<Name>, seen: set<Name>)
    requires Searching(g, nested, y, expected, seen, [])
    ensures expected == Reaching(g, nested, y)
  {
    hide Reaches;
    assert y in seen;
    if nested {
      UpwardClosureIsReaching(g, y, expected);
    } else {
      forall a ensures a in expected <==> a in Reaching(g, nested, y) {
      }
    }
  }

  /** One expansion: the groups listing a key join the result and, when nested, the frontier. */
  method Absorb(nested: bool, list: seq<Entry>, expected0: set<Name>, seen0: set<Name>, frontier0: seq<Name>)
      returns (expected: set<Name>, seen: set<Name>, frontier: seq<Name>)
    requires nested ==> expected0 <= seen0
    ensures expected == expected0 + DnsOf(list)
    ensures seen == if nested then seen0 + DnsOf(list) else seen0
    ensures forall x :: x in frontier <==> x in frontier0 || x in seen - seen0
    ensures expected == expected0 ==> frontier == frontier0
  {
    expected, seen, frontier := expected0, seen0, frontier0;
    DnsOfNone({});
    assert list[..0] == [];
    hide DnsOf;
    for i := 0 to |list|
      invariant expected == expected0 + DnsOf(list[..i])
      invariant seen == if nested then seen0 + DnsOf(list[..i]) else seen0
      invariant forall x :: x in frontier <==> x in frontier0 || x in seen - seen0
      invariant expected0 <= expected && (expected == expected0 ==> frontier == frontier0)
    {
      DnsOfSnoc(list, i, {});
      var d := list[i].dn;
      if d in expected {
        continue;
      }
      expected := expected + {d};
      if nested && d !in seen {
        seen := seen + {d};
        frontier := frontier + [d];
      }
    }
    assert list[..|list|] == list;
  }

  lemma ListersListed(idx: GroupIndex, t: Tree, g: Graph<Name>, k: Name)
    requires IndexFor(idx, t, g)
    ensures Listers(g, k) == DnsOf(if k in idx.byMember then idx.byMember[k] else [])
  {
    forall d ensures d in Listers(g, k) <==> Lists(idx, k, d) {
    }
  }

  ghost function DnsOf(es: seq<Entry>): set<Name> { set i | 0 <= i < |es| :: es[i].dn }

  lemma DnsOfNone(done: set<Name>)
    ensures done + DnsOf([]) == done
  {
  }

  lemma DnsOfSnoc(es: seq<Entry>, j: nat, done: set<Name>)
    requires j < |es|
    ensures done + DnsOf(es[..j + 1]) == done + DnsOf(es[..j]) + {es[j].dn}
  {
    assert es[..j + 1] == es[..j] + [es[j]];
    forall d ensures d in DnsOf(es[..j + 1]) <==> d in DnsOf(es[..j]) + {es[j].dn} {
      if d in DnsOf(es[..j + 1]) {
        var i :| 0 <= i < j + 1 && es[..j + 1][i].dn == d;
        assert i < j ==> es[..j][i].dn == d;
      }
      if d in DnsOf(es[..j]) {
        var i :| 0 <= i < j && es[..j][i].dn == d;
        assert es[..j + 1][i].dn == d;
      }
      assert es[..j + 1][j] == es[j];
    }
  }

  lemma GroupAt(t: Tree, scopes: seq<Name>, mv: Mapping, suffix: Name, e: Entry)
    requires suffix in scopes && e.dn in t && t[e.dn] == e && AtOrUnder(e.dn, suffix)
    ensures var g := GroupGraph(t, scopes, mv);
      (e.dn in g <==> IsGroup(e)) && (e.dn in g ==> g[e.dn] == Image(MemberNames(e), mv))
  {
    hide IsGroup, MemberNames, Image, AtOrUnder;
  }

  ghost predicate ScannedUpTo(t: Tree, scopes: seq<Name>, n: nat, done: set<Name>)
    requires n <= |scopes|
  {
    forall i, d :: 0 <= i < n && scopes[i] in t && d in t && AtOrUnder(d, scopes[i]) ==> d in done
  }

  lemma ScanMissing(t: Tree, scopes: seq<Name>, n: nat, done: set<Name>)
    requires n < |scopes| && scopes[n] !in t && ScannedUpTo(t, scopes, n, done)
    ensures ScannedUpTo(t, scopes, n + 1, done)
  {
    hide AtOrUnder;
  }

  lemma ScanStep(t: Tree, scopes: seq<Name>, n: nat, done: set<Name>, es: seq<Entry>)
    requires n < |scopes| && ScannedUpTo(t, scopes, n, done) && IsListing(es, t, scopes[n])
    ensures ScannedUpTo(t, scopes, n + 1, done + DnsOf(es))
  {
    hide AtOrUnder;
    forall i, d | 0 <= i < n + 1 && scopes[i] in t && d in t && AtOrUnder(d, scopes[i]) ensures d in done + DnsOf(es) {
      if i == n {
        var j :| 0 <= j < |es| && es[j].dn == d;
      }
    }
  }

  lemma ScanNone(t: Tree, scopes: seq<Name>)
    ensures ScannedUpTo(t, scopes, 0, {})
  {
  }

  lemma RecomputedKeys(t: Tree, t1: Tree, g: Graph<Name>, nested: bool, done: set<Name>)
    requires Recomputed(t, t1, g, nested, done)
    ensures t1.Keys == t.Keys
  {
  }

  /** A listing of the tree under repair scans the original tree just as well. */
  lemma ScanStepLike(t: Tree, t1: Tree, scopes: seq<Name>, n: nat, done: set<Name>, es: seq<Entry>)
    requires n < |scopes| && ScannedUpTo(t, scopes, n, done) && IsListing(es, t1, scopes[n]) && t1.Keys == t.Keys
    ensures ScannedUpTo(t, scopes, n + 1, done + DnsOf(es))
    ensures forall d :: d in DnsOf(es) ==> d in t && UnderAny(d, scopes)
  {
    hide AtOrUnder;
    forall i, d | 0 <= i < n + 1 && scopes[i] in t && d in t && AtOrUnder(d, scopes[i]) ensures d in done + DnsOf(es) {
      if i == n {
        var j :| 0 <= j < |es| && es[j].dn == d;
      }
    }
  }

  lemma AllScannedNames(t: Tree, scopes: seq<Name>, done: set<Name>)
    requires Covered(t, scopes) && ScannedUpTo(t, scopes, |scopes|, done)
    requires forall d :: d in done ==> d in t && UnderAny(d, scopes)
    ensures done == set d | d in t && UnderAny(d, scopes)
  {
    hide AtOrUnder;
  }

  lemma AllScanned(t: Tree, scopes: seq<Name>, mv: Mapping, done: set<Name>)
    requires Covered(t, scopes) && ScannedUpTo(t, scopes, |scopes|, done)
    ensures GroupGraph(t, scopes, mv).Keys <= done
  {
    hide AtOrUnder, IsGroup, MemberNames, Image, UnderAny;
  }
}
