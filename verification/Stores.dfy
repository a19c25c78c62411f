// The entry store: a map from folded key text to entry, read and written inside a
// transaction that is committed as a whole or not at all.
module Stores {
  import opened Text
  import opened Names
  import opened Entries

  datatype Error = NoSuchObject | EntryExists | NotLeaf

  /** The directory as names and entries; the map the keys stand for. */
  type Tree = map<Name, Entry>

  /** Every entry is stored under the key of its own DN. */
  ghost predicate Keyed(m: map<string, Entry>) {
    forall k :: k in m ==> m[k].dn != [] && k == Key(m[k].dn)
  }

  ghost function TreeOf(m: map<string, Entry>): Tree
    requires Keyed(m)
  {
    map k | k in m :: m[k].dn := m[k]
  }

  lemma TreeFacts(m: map<string, Entry>)
    requires Keyed(m)
    ensures forall d :: d in TreeOf(m) ==> d != [] && TreeOf(m)[d].dn == d && Key(d) in m && m[Key(d)] == TreeOf(m)[d]
    ensures forall k :: k in m ==> m[k].dn in TreeOf(m) && TreeOf(m)[m[k].dn] == m[k]
  {
    forall k | k in m ensures m[k].dn in TreeOf(m) && TreeOf(m)[m[k].dn] == m[k] {
      assert m[k].dn in TreeOf(m);
    }
  }

  lemma KeyInTree(m: map<string, Entry>, d: Name)
    requires Keyed(m)
    ensures Key(d) in m <==> d in TreeOf(m)
    ensures Key(d) in m ==> m[Key(d)] == TreeOf(m)[d]
  {
    TreeFacts(m);
    if Key(d) in m {
      KeyInjective(m[Key(d)].dn, d);
    }
  }

  ghost function Lookup(t: Tree, d: Name): Option<Entry> { if d in t then Some(t[d]) else None }

  /** es lists exactly the entries of t at or below d, each once. */
  ghost predicate IsListing(es: seq<Entry>, t: Tree, d: Name) {
    && (forall i :: 0 <= i < |es| ==> es[i].dn in t && t[es[i].dn] == es[i] && AtOrUnder(es[i].dn, d))
    && (forall i, j :: 0 <= i < j < |es| ==> es[i].dn != es[j].dn)
    && (forall x :: x in t && AtOrUnder(x, d) ==> exists i :: 0 <= i < |es| && es[i].dn == x)
  }

  /** es lists exactly the entries of t right below d, each once. */
  ghost predicate IsChildren(es: seq<Entry>, t: Tree, d: Name) {
    && (forall i :: 0 <= i < |es| ==> es[i].dn in t && t[es[i].dn] == es[i] && Parent(es[i].dn) == Some(d))
    && (forall i, j :: 0 <= i < j < |es| ==> es[i].dn != es[j].dn)
    && (forall x :: x in t && Parent(x) == Some(d) ==> exists i :: 0 <= i < |es| && es[i].dn == x)
  }

  /** out holds those of the first n entries that lie one step below d. */
  ghost predicate ChildrenSoFar(out: seq<Entry>, es: seq<Entry>, n: nat, d: Name) {
    && n <= |es|
    && (forall e :: e in out <==> e in es[..n] && |e.dn| == |d| + 1)
    && (NoneTwice(es[..n]) ==> NoneTwice(out))
  }

  /** No two entries share a name. */
  ghost predicate NoneTwice(es: seq<Entry>) { forall i, j :: 0 <= i < j < |es| ==> es[i].dn != es[j].dn }

  lemma NoneTwiceSnoc(es: seq<Entry>, e: Entry)
    ensures NoneTwice(es + [e]) <==> NoneTwice(es) && forall x :: x in es ==> x.dn != e.dn
  {
    var s := es + [e];
    assert forall i :: 0 <= i < |es| ==> s[i] == es[i];
    if NoneTwice(s) {
      forall x | x in es ensures x.dn != e.dn {
        var i :| 0 <= i < |es| && es[i] == x;
        assert s[i].dn != s[|es|].dn;
      }
      assert forall i, j :: 0 <= i < j < |es| ==> s[i].dn != s[j].dn;
    }
  }

  lemma ChildrenStep(out: seq<Entry>, es: seq<Entry>, n: nat, d: Name)
    requires ChildrenSoFar(out, es, n, d) && n < |es|
    ensures ChildrenSoFar(if |es[n].dn| == |d| + 1 then out + [es[n]] else out, es, n + 1, d)
  {
    assert es[..n + 1] == es[..n] + [es[n]];
    NoneTwiceSnoc(es[..n], es[n]);
    NoneTwiceSnoc(out, es[n]);
    hide Canonical, NoneTwice;
  }

  lemma ChildrenDone(out: seq<Entry>, es: seq<Entry>, t: Tree, d: Name)
    requires IsListing(es, t, d) && ChildrenSoFar(out, es, |es|, d)
    ensures IsChildren(out, t, d)
  {
    hide Canonical, AtOrUnder;
    assert es[..|es|] == es;
    forall k | 0 <= k < |out| ensures out[k].dn in t && t[out[k].dn] == out[k] && Parent(out[k].dn) == Some(d) {
      assert out[k] in out;
      var i :| 0 <= i < |es| && es[i] == out[k];
      OneBelow(out[k].dn, d);
    }
    forall x | x in t && Parent(x) == Some(d) ensures exists i :: 0 <= i < |out| && out[i].dn == x {
      OneBelow(x, d);
      var i :| 0 <= i < |es| && es[i].dn == x;
      assert es[i] in out;
    }
  }

  lemma OneBelow(x: Name, d: Name)
    ensures Parent(x) == Some(d) && d != [] ==> AtOrUnder(x, d) && |x| == |d| + 1
    ensures AtOrUnder(x, d) && |x| == |d| + 1 ==> Parent(x) == Some(d)
    ensures Parent(x) != Some([])
  {
  }

  /** Some key ends in the key of d behind a comma: what Delete takes for a subordinate. */
  ghost predicate HasKeyBelow(t: Tree, d: Name) {
    exists x :: x in t && HasSuffix(Key(x), "," + Key(d))
  }

  ghost predicate HasEntryBelow(t: Tree, d: Name) { exists x :: x in t && Under(x, d) }

  lemma KeyBelowInMap(m: map<string, Entry>, d: Name)
    requires Keyed(m)
    ensures HasKeyBelow(TreeOf(m), d) <==> exists k :: k in m && HasSuffix(k, "," + Key(d))
  {
    TreeFacts(m);
    hide HasSuffix, Key, TreeOf;
    if k :| k in m && HasSuffix(k, "," + Key(d)) {
      assert m[k].dn in TreeOf(m) && Key(m[k].dn) == k;
    }
  }

  lemma EntryBelowHasKey(t: Tree, d: Name)
    requires d != [] && HasEntryBelow(t, d)
    ensures HasKeyBelow(t, d)
  {
    var x :| x in t && Under(x, d);
    UnderHasKeySuffix(x, d);
  }

  /** Delete's key test refuses some leaves: one behind whose name another key's escaped comma hides. */
  lemma LeafCanLookLikeParent() returns (t: Tree, d: Name)
    ensures d in t && HasKeyBelow(t, d) && !HasEntryBelow(t, d)
  {
    var x, a := KeySuffixWithoutDescent();
    t, d := map[x := Entry(x, []), a := Entry(a, [])], a;
  }

  /** No entry at or below from would land on an entry that is not itself staying put. */
  ghost predicate CanMove(t: Tree, from: Name, to: Name) {
    from == to || forall d :: d in t && AtOrUnder(d, from) ==> Moved(d, from, to) !in t
  }

  /** t' is t with the subtree at from relocated to to: nothing lost, nothing merged, nothing else touched. */
  ghost predicate IsRename(t: Tree, t': Tree, from: Name, to: Name) {
    && (forall d :: d in t ==> Moved(d, from, to) in t' && t'[Moved(d, from, to)] == t[d].(dn := Moved(d, from, to)))
    && (forall x :: x in t' ==> exists d :: d in t && Moved(d, from, to) == x)
    && (forall a, b :: a in t && b in t && Moved(a, from, to) == Moved(b, from, to) ==> a == b)
  }

  /** One update transaction over a staged copy of the store's map. */
  class Tx {
    var entries: map<string, Entry>

    ghost predicate Valid()
      reads this
    {
      Keyed(entries)
    }

    ghost function Tree(): Tree
      reads this
      requires Valid()
    {
      TreeOf(entries)
    }

    constructor (staged: map<string, Entry>)
      requires Keyed(staged)
      ensures Valid() && entries == staged
    {
      entries := staged;
    }

    method Get(d: Name) returns (r: Option<Entry>)
      requires Valid()
      ensures r == Lookup(Tree(), d)
    {
      KeyInTree(entries, d);
      var key := Key(d);
      r := if key in entries then Some(entries[key]) else None;
    }

    /** d and every entry below it, or None when d is absent. */
    method Subtree(d: Name) returns (r: Option<seq<Entry>>)
      requires Valid()
      ensures r.None? <==> d !in Tree()
      ensures r.Some? ==> IsListing(r.value, Tree(), d)
    {
      hide Key, AtOrUnder, IsListing, TreeOf, ListedSoFar, Keyed, Canonical;
      KeyInTree(entries, d);
      if Key(d) !in entries {
        return None;
      }
      var out: seq<Entry> := [];
      var rest := entries.Keys;
      ghost var done: set<string> := {};
      ListingStarts(entries, d);
      while rest != {}
        invariant done + rest == entries.Keys && done !! rest
        invariant ListedSoFar(out, entries, done, d)
        decreases |rest|
      {
        var k :| k in rest;
        ListingStep(out, entries, done, d, k);
        done := done + {k};
        rest := rest - {k};
        if AtOrUnder(entries[k].dn, d) {
          out := out + [entries[k]];
        }
      }
      assert done == entries.Keys;
      ListingDone(out, entries, d);
      r := Some(out);
    }

    /** The entries right below d, or None when d is absent. */
    method Children(d: Name) returns (r: Option<seq<Entry>>)
      requires Valid()
      ensures r.None? <==> d !in Tree()
      ensures r.Some? ==> IsChildren(r.value, Tree(), d)
    {
      hide Key, TreeOf, Keyed, Canonical, AtOrUnder;
      var all := Subtree(d);
      if all.None? {
        return None;
      }
      var es := all.value;
      var out: seq<Entry> := [];
      for i := 0 to |es|
        invariant ChildrenSoFar(out, es, i, d)
      {
        ChildrenStep(out, es, i, d);
        if |es[i].dn| == |d| + 1 {
          out := out + [es[i]];
        }
      }
      ChildrenDone(out, es, Tree(), d);
      r := Some(out);
    }

    method Add(e: Entry) returns (r: Option<Error>)
      requires Valid() && e.dn != []
      modifies this
      ensures Valid()
      ensures r == if e.dn in old(Tree()) then Some(EntryExists) else None
      ensures Tree() == if r.None? then old(Tree())[e.dn := e] else old(Tree())
    {
      KeyInTree(entries, e.dn);
      if Key(e.dn) in entries {
        return Some(EntryExists);
      }
      PutInTree(entries, e);
      entries := entries[Key(e.dn) := e];
      r := None;
    }

    method Replace(e: Entry) returns (r: Option<Error>)
      requires Valid() && e.dn != []
      modifies this
      ensures Valid()
      ensures r == if e.dn in old(Tree()) then None else Some(NoSuchObject)
      ensures Tree() == if r.None? then old(Tree())[e.dn := e] else old(Tree())
    {
      KeyInTree(entries, e.dn);
      if Key(e.dn) !in entries {
        return Some(NoSuchObject);
      }
      PutInTree(entries, e);
      entries := entries[Key(e.dn) := e];
      r := None;
    }

    /** Removes one leaf. It never leaves an entry without its ancestor. */
    method Delete(d: Name) returns (r: Option<Error>)
      requires Valid() && d != []
      modifies this
      ensures Valid()
      ensures r == if d !in old(Tree()) then Some(NoSuchObject)
                   else if HasKeyBelow(old(Tree()), d) then Some(NotLeaf) else None
      ensures Tree() == if r.None? then old(Tree()) - {d} else old(Tree())
      ensures r.None? ==> !HasEntryBelow(old(Tree()), d)
    {
      hide Key, TreeOf, Keyed, Canonical, HasSuffix, Under, HasEntryBelow;
      KeyBelowInMap(entries, d);
      KeyInTree(entries, d);
      TreeFacts(entries);
      var key := Key(d);
      if key !in entries {
        return Some(NoSuchObject);
      }
      var rest := entries.Keys;
      while rest != {}
        invariant rest <= entries.Keys
        invariant forall k :: k in entries.Keys - rest ==> !HasSuffix(k, "," + key)
        decreases |rest|
      {
        var k :| k in rest;
        if HasSuffix(k, "," + key) {
          return Some(NotLeaf);
        }
        rest := rest - {k};
      }
      RemoveFromTree(entries, d);
      if HasEntryBelow(Tree(), d) {
        EntryBelowHasKey(Tree(), d);
      }
      entries := entries - {key};
      r := None;
    }

    /** Moves an entry with everything below it. */
    method Rename(from: Name, to: Name) returns (r: Option<Error>)
      requires Valid() && from != [] && to != []
      modifies this
      ensures Valid()
      ensures r == if from !in old(Tree()) then Some(NoSuchObject)
                   else if CanMove(old(Tree()), from, to) then None else Some(EntryExists)
      ensures r.Some? ==> Tree() == old(Tree())
      ensures r.None? ==> IsRename(old(Tree()), Tree(), from, to)
    {
      hide Key, TreeOf, CanMove, IsRename;
      KeyInTree(entries, from);
      var fromKey, toKey := Key(from), Key(to);
      if fromKey !in entries {
        return Some(NoSuchObject);
      }
      if toKey in entries && toKey != fromKey {
        RenameOntoEntry(entries, from, to);
        return Some(EntryExists);
      }
      var moves := CollectMoves(from, to);
      var clash := Clashes(moves, from, to);
      if clash {
        return Some(EntryExists);
      }
      ApplyMoves(moves, from, to);
      r := None;
    }

    /** Whether some entry would land on the key of another entry. */
    method Clashes(moves: map<string, Name>, from: Name, to: Name) returns (clash: bool)
      requires Valid() && from != [] && to != [] && moves == MovesAmong(entries, entries.Keys, from, to)
      ensures clash <==> !CanMove(Tree(), from, to)
      ensures !clash ==> forall k :: k in moves ==> Key(moves[k]) == k || Key(moves[k]) !in entries
    {
      hide Key, TreeOf, CanMove, MovesAmong, Moved, Keyed, Canonical;
      var rest := moves.Keys;
      while rest != {}
        invariant rest <= moves.Keys
        invariant forall k :: k in moves.Keys - rest ==> Key(moves[k]) == k || Key(moves[k]) !in entries
        decreases |rest|
      {
        var k :| k in rest;
        rest := rest - {k};
        if Key(moves[k]) != k && Key(moves[k]) in entries {
          ClashBlocks(entries, moves, from, to, k);
          return true;
        }
      }
      NoClashMoves(entries, moves, from, to);
      clash := false;
    }

    /** Takes every moved entry out of the map, respelled for its new place. */
    method TakeOut(moves: map<string, Name>) returns (staged: map<string, Entry>)
      requires forall k :: k in moves ==> k in entries
      requires forall i, j :: i in moves && j in moves && moves[i] == moves[j] ==> i == j
      modifies this
      ensures entries == old(entries) - moves.Keys
      ensures IsStaged(old(entries), moves, moves.Keys, staged)
    {
      hide Key, IsStaged, Canonical;
      ghost var m0 := entries;
      staged := map[];
      var rest := moves.Keys;
      ghost var done: set<string> := {};
      StagedNone(m0, moves);
      while rest != {}
        invariant done + rest == moves.Keys && done !! rest
        invariant entries == m0 - done
        invariant IsStaged(m0, moves, done, staged)
        decreases |rest|
      {
        var k :| k in rest;
        StageOne(m0, moves, done, staged, k);
        staged := staged[Key(moves[k]) := entries[k].(dn := moves[k])];
        MinusTwice(m0, done, {k});
        entries := entries - {k};
        rest := rest - {k};
        done := done + {k};
      }
      assert done == moves.Keys;
    }

    /** Every old key goes before any new one comes, so no move overwrites what another one wrote. */
    method ApplyMoves(moves: map<string, Name>, from: Name, to: Name)
      requires Valid() && from != [] && to != [] && moves == MovesAmong(entries, entries.Keys, from, to)
      requires forall k :: k in moves ==> Key(moves[k]) == k || Key(moves[k]) !in entries
      modifies this
      ensures Valid() && IsRename(old(Tree()), Tree(), from, to)
    {
      hide Key, TreeOf, IsRename, IsStaged, Moved, MovesAmong, Keyed, Canonical, AtOrUnder, CanMove;
      MovesFacts(entries, moves, from, to);
      var staged := TakeOut(moves);
      RenameResult(old(entries), moves, staged, from, to);
      entries := entries + staged;
    }

    /**
     * The new DN of every entry the rename relocates, by old key. Keys that merely look like
     * descendants are skipped.
     */
    method CollectMoves(from: Name, to: Name) returns (moves: map<string, Name>)
      requires Valid() && from != [] && to != []
      ensures moves == MovesAmong(entries, entries.Keys, from, to)
    {
      hide Key, MovesAmong, AtOrUnder, Canonical, HasSuffix, Moved;
      moves := map[];
      var fromKey := Key(from);
      var rest := entries.Keys;
      ghost var done: set<string> := {};
      MovesNone(entries, from, to);
      while rest != {}
        invariant done + rest == entries.Keys && done !! rest
        invariant moves == MovesAmong(entries, done, from, to)
        decreases |rest|
      {
        var k :| k in rest;
        MovesStep(entries, done, k, from, to);
        done := done + {k};
        rest := rest - {k};
        if k != fromKey && !HasSuffix(k, "," + fromKey) {
          NotBelowByKey(entries[k].dn, from);
          continue;
        }
        var nd := Rebase(entries[k].dn, from, to);
        if nd.None? {
          continue;
        }
        moves := moves[k := nd.value];
      }
      assert done == entries.Keys;
    }
  }

  /** A tree that agrees with the map on every key is the tree of the map. */
  lemma TreeIs(m: map<string, Entry>, t: Tree)
    requires Keyed(m)
    requires forall d :: d in t <==> Key(d) in m
    requires forall d :: d in t ==> t[d] == m[Key(d)]
    ensures TreeOf(m) == t
  {
    hide Canonical, Key, TreeOf;
    forall d ensures d in TreeOf(m) <==> d in t {
      KeyInTree(m, d);
    }
    forall d | d in t ensures TreeOf(m)[d] == t[d] {
      KeyInTree(m, d);
    }
  }

  lemma PutInTree(m: map<string, Entry>, e: Entry)
    requires Keyed(m) && e.dn != []
    ensures Keyed(m[Key(e.dn) := e]) && TreeOf(m[Key(e.dn) := e]) == TreeOf(m)[e.dn := e]
  {
    hide Canonical, Key, TreeOf;
    var m', t' := m[Key(e.dn) := e], TreeOf(m)[e.dn := e];
    forall d ensures d in t' <==> Key(d) in m' {
      KeyInTree(m, d);
      if Key(d) == Key(e.dn) { KeyInjective(d, e.dn); }
    }
    forall d | d in t' ensures t'[d] == m'[Key(d)] {
      KeyInTree(m, d);
      if Key(d) == Key(e.dn) { KeyInjective(d, e.dn); }
    }
    TreeIs(m', t');
  }

  lemma RemoveFromTree(m: map<string, Entry>, d: Name)
    requires Keyed(m)
    ensures Keyed(m - {Key(d)}) && TreeOf(m - {Key(d)}) == TreeOf(m) - {d}
  {
    hide Canonical, Key, TreeOf;
    var m', t' := m - {Key(d)}, TreeOf(m) - {d};
    forall x ensures x in t' <==> Key(x) in m' {
      KeyInTree(m, x);
      if Key(x) == Key(d) { KeyInjective(x, d); }
    }
    forall x | x in t' ensures t'[x] == m'[Key(x)] {
      KeyInTree(m, x);
    }
    TreeIs(m', t');
  }

  // ---------------------------------------------------------------------------
  // Subtree, step by step
  // ---------------------------------------------------------------------------

  ghost predicate ListedSoFar(out: seq<Entry>, m: map<string, Entry>, done: set<string>, d: Name) {
    && (forall i :: 0 <= i < |out| ==>
        Key(out[i].dn) in done * m.Keys && m[Key(out[i].dn)] == out[i] && AtOrUnder(out[i].dn, d))
    && (forall i, j :: 0 <= i < j < |out| ==> out[i].dn != out[j].dn)
    && (forall k :: k in done && k in m && AtOrUnder(m[k].dn, d) ==> m[k] in out)
  }

  lemma ListingStarts(m: map<string, Entry>, d: Name)
    ensures ListedSoFar([], m, {}, d)
  {
  }

  lemma ListingStep(out: seq<Entry>, m: map<string, Entry>, done: set<string>, d: Name, k: string)
    requires Keyed(m) && k in m && k !in done && ListedSoFar(out, m, done, d)
    ensures ListedSoFar(if AtOrUnder(m[k].dn, d) then out + [m[k]] else out, m, done + {k}, d)
  {
    hide Key, AtOrUnder, Canonical;
  }

  lemma ListingDone(out: seq<Entry>, m: map<string, Entry>, d: Name)
    requires Keyed(m) && ListedSoFar(out, m, m.Keys, d)
    ensures IsListing(out, TreeOf(m), d)
  {
    hide Key, AtOrUnder, Canonical, TreeOf;
    TreeFacts(m);
    forall i | 0 <= i < |out| ensures out[i].dn in TreeOf(m) && TreeOf(m)[out[i].dn] == out[i] {
      assert m[Key(out[i].dn)] == out[i];
    }
    forall x | x in TreeOf(m) && AtOrUnder(x, d) ensures exists i :: 0 <= i < |out| && out[i].dn == x {
      assert m[Key(x)] in out;
    }
  }

  // ---------------------------------------------------------------------------
  // Rename, step by step
  // ---------------------------------------------------------------------------

  ghost function MovesAmong(m: map<string, Entry>, ks: set<string>, from: Name, to: Name): map<string, Name> {
    map k | k in m.Keys * ks && Rebase(m[k].dn, from, to).Some? :: Rebase(m[k].dn, from, to).value
  }

  lemma MovesNone(m: map<string, Entry>, from: Name, to: Name)
    ensures MovesAmong(m, {}, from, to) == map[]
  {
  }

  lemma MovesStep(m: map<string, Entry>, ks: set<string>, k: string, from: Name, to: Name)
    requires k in m
    ensures MovesAmong(m, ks + {k}, from, to) ==
            if Rebase(m[k].dn, from, to).Some?
            then MovesAmong(m, ks, from, to)[k := Rebase(m[k].dn, from, to).value]
            else MovesAmong(m, ks, from, to)
  {
    hide Rebase;
  }

  lemma NotBelowByKey(d: Name, from: Name)
    requires from != [] && Key(d) != Key(from) && !HasSuffix(Key(d), "," + Key(from))
    ensures !AtOrUnder(d, from)
  {
    if Under(d, from) {
      UnderHasKeySuffix(d, from);
    }
  }

  lemma MovesFacts(m: map<string, Entry>, moves: map<string, Name>, from: Name, to: Name)
    requires Keyed(m) && from != [] && to != [] && moves == MovesAmong(m, m.Keys, from, to)
    ensures forall k :: k in moves ==>
              k in m && AtOrUnder(m[k].dn, from) && moves[k] == Moved(m[k].dn, from, to) && moves[k] != []
    ensures forall k :: k in m && k !in moves ==> !AtOrUnder(m[k].dn, from) && Moved(m[k].dn, from, to) == m[k].dn
    ensures forall j, k :: j in moves && k in moves && moves[j] == moves[k] ==> j == k
  {
    forall k | k in moves ensures moves[k] != [] {
      RebaseUnder(m[k].dn, from, to);
    }
    forall j, k | j in moves && k in moves && moves[j] == moves[k] ensures j == k {
      MovedInjective(m[j].dn, m[k].dn, from, to);
    }
  }

  lemma RenameOntoEntry(m: map<string, Entry>, from: Name, to: Name)
    requires Keyed(m) && from != [] && Key(from) in m && Key(to) in m && Key(to) != Key(from)
    ensures !CanMove(TreeOf(m), from, to)
  {
    KeyInTree(m, from);
    KeyInTree(m, to);
    assert from[|from| - |from|..] == from && from[..0] + to == to;
    assert Moved(from, from, to) == to;
  }

  lemma ClashBlocks(m: map<string, Entry>, moves: map<string, Name>, from: Name, to: Name, k: string)
    requires Keyed(m) && from != [] && to != [] && moves == MovesAmong(m, m.Keys, from, to)
    requires k in moves && Key(moves[k]) != k && Key(moves[k]) in m
    ensures !CanMove(TreeOf(m), from, to)
  {
    MovesFacts(m, moves, from, to);
    TreeFacts(m);
    KeyInTree(m, moves[k]);
    if from == to {
      MovedToItself(m[k].dn, from);
    }
  }

  lemma MovedToItself(d: Name, from: Name)
    ensures Moved(d, from, from) == d
  {
    if Rebase(d, from, from).Some? {
      assert d == d[..|d| - |from|] + d[|d| - |from|..];
    }
  }

  lemma NoClashMoves(m: map<string, Entry>, moves: map<string, Name>, from: Name, to: Name)
    requires Keyed(m) && from != [] && to != [] && moves == MovesAmong(m, m.Keys, from, to)
    requires forall k :: k in moves ==> Key(moves[k]) == k || Key(moves[k]) !in m
    ensures CanMove(TreeOf(m), from, to)
  {
    MovesFacts(m, moves, from, to);
    TreeFacts(m);
    if from != to {
      forall d | d in TreeOf(m) && AtOrUnder(d, from) ensures Moved(d, from, to) !in TreeOf(m) {
        var k := Key(d);
        KeyInTree(m, Moved(d, from, to));
        if Key(moves[k]) == k {
          KeyInjective(moves[k], d);
          MovedFixed(d, from, to);
        }
      }
    }
  }

  lemma MovedFixed(d: Name, from: Name, to: Name)
    requires from != [] && AtOrUnder(d, from) && Moved(d, from, to) == d
    ensures from == to
  {
    AtOrUnderSplit(d, from);
    var keep := |d| - |from|;
    assert d == d[..keep] + to;
    assert d[keep..] == to;
  }

  ghost predicate IsStaged(m: map<string, Entry>, moves: map<string, Name>, ks: set<string>,
      staged: map<string, Entry>) {
    && (forall k :: k in ks && k in moves && k in m ==>
          Key(moves[k]) in staged && staged[Key(moves[k])] == m[k].(dn := moves[k]))
    && (forall s :: s in staged ==> exists k :: k in ks && k in moves && s == Key(moves[k]))
  }

  lemma StageOne(m: map<string, Entry>, moves: map<string, Name>, ks: set<string>, staged: map<string, Entry>,
      k: string)
    requires IsStaged(m, moves, ks, staged) && k in moves && k in m && k !in ks
    requires forall i, j :: i in moves && j in moves && moves[i] == moves[j] ==> i == j
    ensures IsStaged(m, moves, ks + {k}, staged[Key(moves[k]) := m[k].(dn := moves[k])])
  {
    hide Key;
    var staged' := staged[Key(moves[k]) := m[k].(dn := moves[k])];
    forall j | j in ks && j in moves && j in m
      ensures Key(moves[j]) in staged' && staged'[Key(moves[j])] == m[j].(dn := moves[j])
    {
      if Key(moves[j]) == Key(moves[k]) {
        KeyInjective(moves[j], moves[k]);
      }
    }
    forall s | s in staged' ensures exists i :: i in ks + {k} && i in moves && s == Key(moves[i]) {
      if s != Key(moves[k]) {
        var i :| i in ks && i in moves && s == Key(moves[i]);
        assert i in ks + {k};
      } else {
        assert k in ks + {k};
      }
    }
  }

  lemma MinusTwice<K, V>(m: map<K, V>, a: set<K>, b: set<K>)
    ensures m - a - b == m - (a + b)
  {
  }

  lemma StagedNone(m: map<string, Entry>, moves: map<string, Name>)
    ensures IsStaged(m, moves, {}, map[])
  {
  }

  /** Putting the staged entries back yields the renamed tree. */
  lemma RenameResult(m: map<string, Entry>, moves: map<string, Name>, staged: map<string, Entry>, from: Name, to: Name)
    requires Keyed(m) && from != [] && to != [] && moves == MovesAmong(m, m.Keys, from, to)
    requires forall k :: k in moves ==> Key(moves[k]) == k || Key(moves[k]) !in m
    requires IsStaged(m, moves, moves.Keys, staged)
    ensures Keyed(m - moves.Keys + staged)
    ensures IsRename(TreeOf(m), TreeOf(m - moves.Keys + staged), from, to)
  {
    hide Key, TreeOf, IsStaged, Moved, MovesAmong, Keyed, Canonical;
    StagedKeyed(m, moves, staged, from, to);
    StagedCovers(m, moves, staged, from, to);
    StagedOnly(m, moves, staged, from, to);
    MovedApartInTree(m, moves, from, to);
  }

  lemma StagedKeyed(m: map<string, Entry>, moves: map<string, Name>, staged: map<string, Entry>, from: Name, to: Name)
    requires Keyed(m) && from != [] && to != [] && moves == MovesAmong(m, m.Keys, from, to)
    requires IsStaged(m, moves, moves.Keys, staged)
    ensures Keyed(m - moves.Keys + staged)
  {
    hide Key, AtOrUnder, Moved, MovesAmong, Canonical, Rebase;
    MovesFacts(m, moves, from, to);
    forall s | s in staged ensures staged[s].dn != [] && s == Key(staged[s].dn) {
      var k :| k in moves.Keys && k in moves && s == Key(moves[k]);
    }
  }

  lemma StagedCovers(m: map<string, Entry>, moves: map<string, Name>, staged: map<string, Entry>, from: Name, to: Name)
    requires Keyed(m) && from != [] && to != [] && moves == MovesAmong(m, m.Keys, from, to)
    requires forall k :: k in moves ==> Key(moves[k]) == k || Key(moves[k]) !in m
    requires IsStaged(m, moves, moves.Keys, staged) && Keyed(m - moves.Keys + staged)
    ensures forall d :: d in TreeOf(m) ==>
              var t' := TreeOf(m - moves.Keys + staged);
              Moved(d, from, to) in t' && t'[Moved(d, from, to)] == TreeOf(m)[d].(dn := Moved(d, from, to))
  {
    hide Key, AtOrUnder, Moved, TreeOf;
    MovesFacts(m, moves, from, to);
    var m' := m - moves.Keys + staged;
    forall d | d in TreeOf(m)
      ensures Moved(d, from, to) in TreeOf(m')
      ensures TreeOf(m')[Moved(d, from, to)] == TreeOf(m)[d].(dn := Moved(d, from, to))
    {
      var k := Key(d);
      KeyInTree(m, d);
      TreeEntry(m, d);
      KeyInTree(m', Moved(d, from, to));
      if k !in moves {
        NotStaged(m, moves, staged, k);
        assert k in m - moves.Keys;
      }
    }
  }

  lemma TreeEntry(m: map<string, Entry>, d: Name)
    requires Keyed(m) && d in TreeOf(m)
    ensures Key(d) in m && m[Key(d)].dn == d
  {
    TreeFacts(m);
  }

  lemma NotStaged(m: map<string, Entry>, moves: map<string, Name>, staged: map<string, Entry>, k: string)
    requires forall k :: k in moves ==> Key(moves[k]) == k || Key(moves[k]) !in m
    requires IsStaged(m, moves, moves.Keys, staged) && k in m && k !in moves
    ensures k !in staged
  {
    hide Key;
  }

  lemma StagedOnly(m: map<string, Entry>, moves: map<string, Name>, staged: map<string, Entry>, from: Name, to: Name)
    requires Keyed(m) && from != [] && to != [] && moves == MovesAmong(m, m.Keys, from, to)
    requires IsStaged(m, moves, moves.Keys, staged) && Keyed(m - moves.Keys + staged)
    ensures forall x :: x in TreeOf(m - moves.Keys + staged) ==> exists d :: d in TreeOf(m) && Moved(d, from, to) == x
  {
    hide Key, AtOrUnder, Moved, TreeOf;
    MovesFacts(m, moves, from, to);
    var m' := m - moves.Keys + staged;
    forall x | x in TreeOf(m') ensures exists d :: d in TreeOf(m) && Moved(d, from, to) == x {
      TreeEntry(m', x);
      var s := Key(x);
      TreeFacts(m);
      if s in staged {
        var k :| k in moves.Keys && k in moves && s == Key(moves[k]);
        assert m[k].dn in TreeOf(m) && Moved(m[k].dn, from, to) == x;
      } else {
        assert s in m && s !in moves && m[s].dn == x;
      }
    }
  }

  lemma MovedApartInTree(m: map<string, Entry>, moves: map<string, Name>, from: Name, to: Name)
    requires Keyed(m) && from != [] && to != [] && moves == MovesAmong(m, m.Keys, from, to)
    requires forall k :: k in moves ==> Key(moves[k]) == k || Key(moves[k]) !in m
    ensures forall a, b :: a in TreeOf(m) && b in TreeOf(m) && Moved(a, from, to) == Moved(b, from, to) ==> a == b
  {
    hide Key, AtOrUnder, Moved, TreeOf;
    MovesFacts(m, moves, from, to);
    forall a, b | a in TreeOf(m) && b in TreeOf(m) && Moved(a, from, to) == Moved(b, from, to) ensures a == b {
      TreeEntry(m, a);
      TreeEntry(m, b);
      var i, j := Key(a), Key(b);
      if i in moves && j !in moves {
        NoLanding(m, moves, i, j);
      } else if j in moves && i !in moves {
        NoLanding(m, moves, j, i);
      }
    }
  }

  lemma NoLanding(m: map<string, Entry>, moves: map<string, Name>, i: string, j: string)
    requires i in moves && j in m && j !in moves
    requires forall k :: k in moves ==> Key(moves[k]) == k || Key(moves[k]) !in m
    ensures Key(moves[i]) != j
  {
    hide Key;
  }

  /** The store proper: what a transaction starts from and commits to. */
  class Store {
    var entries: map<string, Entry>
    var closed: bool

    ghost predicate Valid()
      reads this
    {
      Keyed(entries)
    }

    ghost function Tree(): Tree
      reads this
      requires Valid()
    {
      TreeOf(entries)
    }

    constructor ()
      ensures Valid() && Tree() == map[] && !closed
    {
      entries := map[];
      closed := false;
      new;
      assert TreeOf(entries).Keys == {};
    }
  }
}
