// The equality index: postings kept beside the entries, and why a walk over the postings
// of one leaf meets every entry for which the leaf is True.
module Indexes {
  import opened Text
  import opened DnSyntax
  import opened Names
  import opened Entries
  import opened Stores
  import opened Codec
  import opened Searches
  import Matching

  // ---------------------------------------------------------------------------
  // Posting keys
  // ---------------------------------------------------------------------------

  /** The runs of characters other than white space; cur is the run that is open. */
  function FieldsFrom(s: string, cur: string): seq<string>
    decreases |s|
  {
    if s == "" then Closing(cur)
    else if IsSpace(s[0]) then Closing(cur) + FieldsFrom(s[1..], "")
    else FieldsFrom(s[1..], cur + [s[0]])
  }

  function Closing(cur: string): seq<string> { if cur == "" then [] else [cur] }

  function Fields(s: string): seq<string> { FieldsFrom(s, "") }

  /** A text value's posting key. */
  function TextKey(v: string): string { Lower(Matching.Spaced(Fields(v))) }

  function FieldsOf(ws: seq<string>): seq<string> { if ws == [] then [] else Fields(ws[0]) + FieldsOf(ws[1..]) }

  /** Text behind a space is split on its own. */
  lemma {:induction false} FieldsBehindSpace(w: string, t: string, cur: string)
    requires t == "" || t[0] == ' '
    ensures FieldsFrom(w + t, cur) == FieldsFrom(w, cur) + FieldsFrom(t, "")
    decreases |w|
  {
    if w == "" {
      assert w + t == t;
      if t != "" { assert Closing("") + FieldsFrom(t[1..], "") == FieldsFrom(t[1..], ""); }
      assert FieldsFrom("", cur) + [] == Closing(cur);
    } else {
      assert (w + t)[1..] == w[1..] + t && (w + t)[0] == w[0];
      if IsSpace(w[0]) {
        FieldsBehindSpace(w[1..], t, "");
      } else {
        FieldsBehindSpace(w[1..], t, cur + [w[0]]);
      }
    }
  }

  /** Splitting at white space splits every space-separated word further, and nothing else. */
  lemma {:induction false} FieldsOfWords(s: string)
    ensures Fields(s) == FieldsOf(Matching.Words(s))
    decreases |s|
  {
    if s == "" {
    } else if s[0] == ' ' {
      FieldsOfWords(s[1..]);
      assert Closing("") + FieldsFrom(s[1..], "") == FieldsFrom(s[1..], "");
    } else {
      var n := Matching.WordEnd(s);
      FieldsOfWords(s[n..]);
      FieldsBehindSpace(s[..n], s[n..], "");
      assert s == s[..n] + s[n..];
    }
  }

  /** Folding case does not move white space. */
  lemma {:induction false} FieldsLower(s: string, cur: string)
    ensures FieldsFrom(Lower(s), Lower(cur)) == LowerEach(FieldsFrom(s, cur))
    decreases |s|
  {
    if s != "" {
      assert Lower(s)[1..] == Lower(s[1..]) && (IsSpace(Lower(s)[0]) <==> IsSpace(s[0]));
      if IsSpace(s[0]) {
        FieldsLower(s[1..], "");
        LowerEachConcat(Closing(cur), FieldsFrom(s[1..], ""));
      } else {
        FieldsLower(s[1..], cur + [s[0]]);
        assert Lower(cur + [s[0]]) == Lower(cur) + [Lower(s)[0]];
      }
    }
  }

  function LowerEach(ss: seq<string>): (r: seq<string>)
    ensures |r| == |ss|
  {
    seq(|ss|, i requires 0 <= i < |ss| => Lower(ss[i]))
  }

  lemma LowerEachConcat(a: seq<string>, b: seq<string>)
    ensures LowerEach(a + b) == LowerEach(a) + LowerEach(b)
  {
  }

  lemma {:induction false} SpacedLower(ws: seq<string>)
    ensures Lower(Matching.Spaced(ws)) == Matching.Spaced(LowerEach(ws))
  {
    if |ws| > 1 {
      SpacedLower(ws[1..]);
      var t := Matching.Spaced(ws[1..]);
      assert LowerEach(ws)[1..] == LowerEach(ws[1..]);
      assert Lower(ws[0] + ([' '] + t)) == Lower(ws[0]) + ([' '] + Lower(t));
    }
  }

  /** The posting key is at least as coarse as the matching rule: values that match share it. */
  lemma MatchingShareKey(a: string, b: string)
    requires Matching.Collapse(Lower(a)) == Matching.Collapse(Lower(b))
    ensures TextKey(a) == TextKey(b)
  {
    Matching.CollapseIdentity(Lower(a), Lower(b));
    FieldsOfWords(Lower(a));
    FieldsOfWords(Lower(b));
    FieldsLower(a, "");
    FieldsLower(b, "");
    SpacedLower(Fields(a));
    SpacedLower(Fields(b));
  }

  // ---------------------------------------------------------------------------
  // Postings
  // ---------------------------------------------------------------------------

  type Id = nat

  /** The lowercase type an attribute description resolves to. */
  type Typing = string -> string

  datatype Posting = Posting(attr: string, key: string, id: Id)

  /** The postings one attribute calls for. */
  function AttrPostings(typ: Typing, id: Id, a: Attr): set<Posting> {
    if IndexedAttr(typ(a.name)) then set v | v in a.values :: Posting(typ(a.name), TextKey(v), id) else {}
  }

  function PostingsOf(typ: Typing, id: Id, e: Entry): set<Posting> {
    set a, p | a in e.attrs && p in AttrPostings(typ, id, a) :: p
  }

  /** The index holds exactly the postings of the stored entries. */
  ghost predicate Agrees(typ: Typing, postings: set<Posting>, entries: map<Id, Entry>) {
    forall p :: p in postings <==> p.id in entries && p in PostingsOf(typ, p.id, entries[p.id])
  }

  lemma PostingsKeepId(typ: Typing, id: Id, e: Entry)
    ensures forall p :: p in PostingsOf(typ, id, e) ==> p.id == id
  {
  }

  /** Entries by id, with their index. */
  class IndexedStore {
    const typ: Typing
    var entries: map<Id, Entry>
    var postings: set<Posting>

    ghost predicate Valid()
      reads this
    {
      Agrees(typ, postings, entries)
    }

    constructor (typ: Typing)
      ensures Valid() && entries == map[] && this.typ == typ
    {
      this.typ, entries, postings := typ, map[], {};
    }

    method AddPostings(id: Id, e: Entry)
      modifies this`postings
      ensures postings == old(postings) + PostingsOf(typ, id, e)
    {
      hide AttrPostings;
      for i := 0 to |e.attrs|
        invariant postings == old(postings) + PostingsOf(typ, id, e.(attrs := e.attrs[..i]))
      {
        postings := postings + AttrPostings(typ, id, e.attrs[i]);
        OneMoreAttr(typ, id, e, i);
      }
      assert e.attrs[..|e.attrs|] == e.attrs;
    }

    method RemovePostings(id: Id, e: Entry)
      modifies this`postings
      ensures postings == old(postings) - PostingsOf(typ, id, e)
    {
      hide AttrPostings;
      for i := 0 to |e.attrs|
        invariant postings == old(postings) - PostingsOf(typ, id, e.(attrs := e.attrs[..i]))
      {
        postings := postings - AttrPostings(typ, id, e.attrs[i]);
        OneMoreAttr(typ, id, e, i);
      }
      assert e.attrs[..|e.attrs|] == e.attrs;
    }

    method Add(id: Id, e: Entry)
      requires Valid() && id !in entries
      modifies this
      ensures Valid() && entries == old(entries)[id := e]
    {
      hide PostingsOf;
      PostingsKeepId(typ, id, e);
      AddPostings(id, e);
      entries := entries[id := e];
    }

    /** Replace swaps the postings of the old entry for those of the new one. */
    method Replace(id: Id, e: Entry)
      requires Valid() && id in entries
      modifies this
      ensures Valid() && entries == old(entries)[id := e]
    {
      hide PostingsOf;
      PostingsKeepId(typ, id, entries[id]);
      PostingsKeepId(typ, id, e);
      RemovePostings(id, entries[id]);
      AddPostings(id, e);
      entries := entries[id := e];
    }

    method Delete(id: Id)
      requires Valid() && id in entries
      modifies this
      ensures Valid() && entries == old(entries) - {id}
    {
      hide PostingsOf;
      PostingsKeepId(typ, id, entries[id]);
      RemovePostings(id, entries[id]);
      entries := entries - {id};
    }

    /** The ids with a posting for the value, each once. */
    method Lookup(attr: string, value: string) returns (ids: seq<Id>)
      ensures forall id :: id in ids <==> Posting(attr, TextKey(value), id) in postings
      ensures forall i, j :: 0 <= i < j < |ids| ==> ids[i] != ids[j]
    {
      hide TextKey;
      ids := [];
      var rest := postings;
      ghost var done: set<Posting> := {};
      while rest != {}
        invariant rest + done == postings && rest !! done
        invariant forall id :: id in ids <==> Posting(attr, TextKey(value), id) in done
        invariant forall i, j :: 0 <= i < j < |ids| ==> ids[i] != ids[j]
        decreases |rest|
      {
        var p :| p in rest;
        rest := rest - {p};
        if p.attr == attr && p.key == TextKey(value) {
          assert p == Posting(attr, TextKey(value), p.id);
          ids := ids + [p.id];
        }
        done := done + {p};
      }
    }

    /** The entries an equality leaf's postings lead to. */
    method Walk(p: Filter) returns (es: seq<Entry>)
      requires Valid() && p.Equality? && IndexedAttr(p.attr)
      ensures Posted(es, typ, entries, p)
    {
      var ids := Lookup(Lower(p.attr), p.value);
      es := [];
      ghost var known := entries;
      hide PostingsOf, TextKey;
      for i := 0 to |ids|
        invariant |es| == i && forall k :: 0 <= k < i ==> ids[k] in entries && es[k] == entries[ids[k]]
      {
        assert ids[i] in ids;
        es := es + [entries[ids[i]]];
      }
      assert forall k :: 0 <= k < |ids| ==> ids[k] in ids;
      assert WalkOf(es, ids, entries);
    }
  }

  lemma OneMoreAttr(typ: Typing, id: Id, e: Entry, i: nat)
    requires i < |e.attrs|
    ensures PostingsOf(typ, id, e.(attrs := e.attrs[..i + 1])) ==
            PostingsOf(typ, id, e.(attrs := e.attrs[..i])) + AttrPostings(typ, id, e.attrs[i])
  {
    hide AttrPostings;
    var before, after := e.attrs[..i], e.attrs[..i + 1];
    assert after == before + [e.attrs[i]];
  }

  /** es are the entries of ids, in order, and no id occurs twice. */
  ghost predicate WalkOf(es: seq<Entry>, ids: seq<Id>, entries: map<Id, Entry>) {
    && |es| == |ids| && (forall k :: 0 <= k < |ids| ==> ids[k] in entries && es[k] == entries[ids[k]])
    && forall i, j :: 0 <= i < j < |ids| ==> ids[i] != ids[j]
  }

  /** es are the entries with a posting for the leaf, each id once. */
  ghost predicate Posted(es: seq<Entry>, typ: Typing, entries: map<Id, Entry>, p: Filter)
    requires p.Equality?
  {
    exists ids: seq<Id> ::
      && WalkOf(es, ids, entries)
      && forall id :: id in ids <==>
          id in entries && Posting(Lower(p.attr), TextKey(p.value), id) in PostingsOf(typ, id, entries[id])
  }

  // ---------------------------------------------------------------------------
  // Completeness
  // ---------------------------------------------------------------------------

  /** filterValues, for a type without options: the values of every attribute of that type. */
  function TypedValues(attrs: seq<Attr>, typ: Typing, attr: string): seq<string> {
    if attrs == [] then []
    else (if typ(attrs[0].name) == attr then attrs[0].values else []) + TypedValues(attrs[1..], typ, attr)
  }

  lemma {:induction false} TypedValuesSnoc(attrs: seq<Attr>, a: Attr, typ: Typing, attr: string)
    ensures TypedValues(attrs + [a], typ, attr) ==
            TypedValues(attrs, typ, attr) + if typ(a.name) == attr then a.values else []
  {
    if attrs == [] {
      assert attrs + [a] == [a] && [a][1..] == [] && TypedValues([], typ, attr) == [];
    } else {
      TypedValuesSnoc(attrs[1..], a, typ, attr);
      assert (attrs + [a])[1..] == attrs[1..] + [a];
    }
  }

  /** A value is selected exactly when an attribute of the type holds it. */
  lemma {:induction false} Selected(attrs: seq<Attr>, typ: Typing, attr: string, v: string)
    ensures v in TypedValues(attrs, typ, attr) <==> exists a :: a in attrs && typ(a.name) == attr && v in a.values
  {
    if attrs != [] {
      Selected(attrs[1..], typ, attr, v);
      assert forall a :: a in attrs <==> a == attrs[0] || a in attrs[1..];
    }
  }

  /** caseIgnoreMatch and objectIdentifierMatch: the rules of the indexed text attributes. */
  predicate TextEqual(a: string, b: string) { Matching.Collapse(Lower(a)) == Matching.Collapse(Lower(b)) }

  /** An equality on one of those attributes holds when some selected value matches. */
  predicate HasMatch(e: Entry, typ: Typing, attr: string, value: string) {
    exists v :: v in TypedValues(e.attrs, typ, attr) && TextEqual(v, value)
  }

  /** matchEquality for one of those attributes. */
  method MatchEquality(e: Entry, typ: Typing, attr: string, value: string) returns (ok: bool)
    ensures ok <==> HasMatch(e, typ, attr, value)
  {
    hide TextEqual;
    var vs := FilterValues(e, typ, attr);
    ok := false;
    for i := 0 to |vs|
      invariant !ok && forall j :: 0 <= j < i ==> !TextEqual(vs[j], value)
    {
      if TextEqual(vs[i], value) {
        return true;
      }
    }
  }

  method FilterValues(e: Entry, typ: Typing, attr: string) returns (out: seq<string>)
    ensures out == TypedValues(e.attrs, typ, attr)
  {
    out := [];
    assert e.attrs[..0] == [];
    for i := 0 to |e.attrs|
      invariant out == TypedValues(e.attrs[..i], typ, attr)
    {
      TypedValuesSnoc(e.attrs[..i], e.attrs[i], typ, attr);
      assert e.attrs[..i + 1] == e.attrs[..i] + [e.attrs[i]];
      if typ(e.attrs[i].name) == attr {
        out := out + e.attrs[i].values;
      }
    }
    assert e.attrs[..|e.attrs|] == e.attrs;
  }

  /** It holds exactly when an attribute of the type holds a matching value. */
  lemma MatchSelected(e: Entry, typ: Typing, attr: string, value: string)
    ensures HasMatch(e, typ, attr, value) <==>
              exists a, v :: a in e.attrs && v in a.values && typ(a.name) == attr && TextEqual(v, value)
  {
    hide TypedValues, TextEqual;
    forall v: string ensures v in TypedValues(e.attrs, typ, attr) <==>
        exists a :: a in e.attrs && typ(a.name) == attr && v in a.values {
      Selected(e.attrs, typ, attr, v);
    }
  }

  /** What a leaf says: an indexed equality by its rule, any other leaf as given; without the search right, nothing. */
  function LeafOf(others: Leaf, permitted: (Entry, Filter) -> bool, typ: Typing): Leaf {
    (e: Entry, f: Filter) =>
      if f.Equality? && IndexedAttr(f.attr) then
        if !permitted(e, f) then Undefined else if HasMatch(e, typ, Lower(f.attr), f.value) then True else False
      else others(e, f)
  }

  /** Every entry of the tree has an id of its own. */
  ghost predicate Identified(t: Tree, entries: map<Id, Entry>) {
    && (forall id :: id in entries ==> entries[id].dn in t && t[entries[id].dn] == entries[id])
    && (forall d :: d in t ==> exists id :: id in entries && entries[id] == t[d])
    && (forall i, j :: i in entries && j in entries && entries[i].dn == entries[j].dn ==> i == j)
    && forall d :: d in t ==> t[d].dn == d
  }

  lemma MatchIsPosted(e: Entry, typ: Typing, attr: string, value: string, id: Id)
    requires HasMatch(e, typ, attr, value) && IndexedAttr(attr)
    ensures Posting(attr, TextKey(value), id) in PostingsOf(typ, id, e)
  {
    hide TextKey, HasMatch;
    MatchSelected(e, typ, attr, value);
    var a, v :| a in e.attrs && v in a.values && typ(a.name) == attr && TextEqual(v, value);
    MatchingShareKey(v, value);
    assert Posting(attr, TextKey(v), id) in AttrPostings(typ, id, a);
  }

  /** The walk over a leaf's postings misses no entry of which the leaf is True: what the index search relies on. */
  lemma WalkIsComplete(es: seq<Entry>, t: Tree, entries: map<Id, Entry>, leaf: Leaf, typ: Typing, p: Filter,
      others: Leaf, permitted: (Entry, Filter) -> bool)
    requires p.Equality? && IndexedAttr(p.attr) && Identified(t, entries) && leaf == LeafOf(others, permitted, typ)
    requires Posted(es, typ, entries, p)
    ensures Postings(es, t, leaf, p)
  {
    hide PostingsOf, TextKey, HasMatch, Canonical;
    LowerIdempotent(p.attr);
    var ids: seq<Id> :|
      && WalkOf(es, ids, entries)
      && forall id :: id in ids <==>
          id in entries && Posting(Lower(p.attr), TextKey(p.value), id) in PostingsOf(typ, id, entries[id]);
    forall d | d in t && leaf(t[d], p) == True ensures exists i :: 0 <= i < |es| && es[i].dn == d {
      var id :| id in entries && entries[id] == t[d];
      MatchIsPosted(t[d], typ, Lower(p.attr), p.value, id);
      var i :| 0 <= i < |ids| && ids[i] == id;
      assert es[i] == t[d];
    }
  }

  lemma {:induction false} PredicateIsIndexed(f: Filter)
    ensures IndexedPredicate(f).Some? ==>
              IndexedPredicate(f).value.Equality? && IndexedAttr(IndexedPredicate(f).value.attr)
    decreases f
  {
    match f
    case And(fs) => FirstIsIndexed(fs);
    case _ =>
  }

  lemma {:induction false} FirstIsIndexed(fs: seq<Filter>)
    ensures FirstIndexed(fs).Some? ==> FirstIndexed(fs).value.Equality? && IndexedAttr(FirstIndexed(fs).value.attr)
    decreases fs
  {
    if fs != [] {
      PredicateIsIndexed(fs[0]);
      FirstIsIndexed(fs[1..]);
    }
  }

  /** A search through the index ends as the scan over the same tree does. */
  method Search(tx: Tx, store: IndexedStore, q: Query, sizeLimit: nat, ghost others: Leaf,
      ghost permitted: (Entry, Filter) -> bool)
      returns (found: bool, matched: seq<Entry>, limited: bool)
    requires tx.Valid() && store.Valid() && Identified(tx.Tree(), store.entries)
    requires q.leaf == LeafOf(others, permitted, store.typ)
    requires q.scope != BaseObject && IndexedPredicate(q.filter).Some?
    ensures found <==> q.base in tx.Tree()
    ensures found ==> Outcome(q, tx.Tree(), sizeLimit, matched, limited)
  {
    hide TreeOf, Keyed, Canonical, Postings, Posted, Outcome, IndexedPredicate, IndexedAttr, Identified, LeafOf;
    PredicateIsIndexed(q.filter);
    var p := IndexedPredicate(q.filter).value;
    var es := store.Walk(p);
    WalkIsComplete(es, tx.Tree(), store.entries, q.leaf, store.typ, p, others, permitted);
    found, matched, limited := SearchByIndex(tx, q, es, sizeLimit);
  }
}
