// Search: three-valued filters, and the equality index against the scan it replaces.
module Searches {
  import opened Text
  import opened Names
  import opened Entries
  import opened Stores
  import opened Codec

  datatype Truth = True | False | Undefined

  /** What one leaf says about an entry; a leaf the subject may not search is Undefined. */
  type Leaf = (Entry, Filter) -> Truth

  function Negated(v: Truth): Truth {
    match v case True => False case False => True case Undefined => Undefined
  }

  /** matchSearchFilter (section 4.5.1.7 of RFC 4511). */
  function Eval(leaf: Leaf, e: Entry, f: Filter): Truth
    decreases f
  {
    match f
    case And(fs) => EvalAnd(leaf, e, fs, True)
    case Or(fs) => EvalOr(leaf, e, fs, False)
    case Not(g) => Negated(Eval(leaf, e, g))
    case _ => leaf(e, f)
  }

  /** The rest of a conjunction: one False decides, one Undefined spoils True. */
  function EvalAnd(leaf: Leaf, e: Entry, fs: seq<Filter>, sofar: Truth): Truth
    decreases fs
  {
    if fs == [] then sofar
    else
      var v := Eval(leaf, e, fs[0]);
      if v == False then False else EvalAnd(leaf, e, fs[1..], if v == Undefined then Undefined else sofar)
  }

  function EvalOr(leaf: Leaf, e: Entry, fs: seq<Filter>, sofar: Truth): Truth
    decreases fs
  {
    if fs == [] then sofar
    else
      var v := Eval(leaf, e, fs[0]);
      if v == True then True else EvalOr(leaf, e, fs[1..], if v == Undefined then Undefined else sofar)
  }

  /** A conjunction is True exactly when all its parts are, False exactly when one is. */
  lemma {:induction false} AndMeaning(leaf: Leaf, e: Entry, fs: seq<Filter>, sofar: Truth)
    requires sofar != False
    ensures EvalAnd(leaf, e, fs, sofar) == True <==>
              sofar == True && forall i :: 0 <= i < |fs| ==> Eval(leaf, e, fs[i]) == True
    ensures EvalAnd(leaf, e, fs, sofar) == False <==> exists i :: 0 <= i < |fs| && Eval(leaf, e, fs[i]) == False
    decreases fs
  {
    hide Eval;
    if fs != [] {
      var v := Eval(leaf, e, fs[0]);
      if v != False {
        AndMeaning(leaf, e, fs[1..], if v == Undefined then Undefined else sofar);
      }
      assert forall i :: 0 <= i < |fs[1..]| ==> fs[1..][i] == fs[i + 1];
      assert forall i :: 1 <= i < |fs| ==> fs[i] == fs[1..][i - 1];
    }
  }

  lemma {:induction false} OrMeaning(leaf: Leaf, e: Entry, fs: seq<Filter>, sofar: Truth)
    requires sofar != True
    ensures EvalOr(leaf, e, fs, sofar) == False <==>
              sofar == False && forall i :: 0 <= i < |fs| ==> Eval(leaf, e, fs[i]) == False
    ensures EvalOr(leaf, e, fs, sofar) == True <==> exists i :: 0 <= i < |fs| && Eval(leaf, e, fs[i]) == True
    decreases fs
  {
    hide Eval;
    if fs != [] {
      var v := Eval(leaf, e, fs[0]);
      if v != True {
        OrMeaning(leaf, e, fs[1..], if v == Undefined then Undefined else sofar);
      }
      assert forall i :: 0 <= i < |fs[1..]| ==> fs[1..][i] == fs[i + 1];
      assert forall i :: 1 <= i < |fs| ==> fs[i] == fs[1..][i - 1];
    }
  }

  /** A negation is decided exactly when its part is, and then the other way. */
  lemma NotMeaning(leaf: Leaf, e: Entry, g: Filter)
    ensures Eval(leaf, e, Not(g)) == True <==> Eval(leaf, e, g) == False
    ensures Eval(leaf, e, Not(g)) == False <==> Eval(leaf, e, g) == True
    ensures Eval(leaf, e, Not(g)) == Undefined <==> Eval(leaf, e, g) == Undefined
  {
  }

  /** The filter read in two-valued logic. */
  predicate Holds(says: (Entry, Filter) -> bool, e: Entry, f: Filter)
    decreases f
  {
    match f
    case And(fs) => forall i :: 0 <= i < |fs| ==> Holds(says, e, fs[i])
    case Or(fs) => exists i :: 0 <= i < |fs| && Holds(says, e, fs[i])
    case Not(g) => !Holds(says, e, g)
    case _ => says(e, f)
  }

  /** With the right to search every attribute of a filter, it is decided as two-valued logic decides it. */
  lemma {:induction false} TwoValued(leaf: Leaf, says: (Entry, Filter) -> bool, e: Entry, f: Filter)
    requires forall g: Filter :: !g.And? && !g.Or? && !g.Not? ==> leaf(e, g) == if says(e, g) then True else False
    ensures Eval(leaf, e, f) == if Holds(says, e, f) then True else False
    decreases f
  {
    match f
    case And(fs) =>
      AndMeaning(leaf, e, fs, True);
      forall i | 0 <= i < |fs| ensures Eval(leaf, e, fs[i]) == if Holds(says, e, fs[i]) then True else False {
        TwoValued(leaf, says, e, fs[i]);
      }
    case Or(fs) =>
      OrMeaning(leaf, e, fs, False);
      forall i | 0 <= i < |fs| ensures Eval(leaf, e, fs[i]) == if Holds(says, e, fs[i]) then True else False {
        TwoValued(leaf, says, e, fs[i]);
      }
    case Not(g) => TwoValued(leaf, says, e, g);
    case _ =>
  }

  /** The leaves that are decided settle the filter as want. */
  predicate Settled(leaf: Leaf, e: Entry, f: Filter, want: bool)
    decreases f
  {
    match f
    case And(fs) =>
      if want then forall i :: 0 <= i < |fs| ==> Settled(leaf, e, fs[i], true)
      else exists i :: 0 <= i < |fs| && Settled(leaf, e, fs[i], false)
    case Or(fs) =>
      if want then exists i :: 0 <= i < |fs| && Settled(leaf, e, fs[i], true)
      else forall i :: 0 <= i < |fs| ==> Settled(leaf, e, fs[i], false)
    case Not(g) => Settled(leaf, e, g, !want)
    case _ => leaf(e, f) == if want then True else False
  }

  /** Whatever the rights: a filter is True, or False, exactly when its decided leaves settle it so. */
  lemma {:induction false} SettledExactly(leaf: Leaf, e: Entry, f: Filter)
    ensures Eval(leaf, e, f) == True <==> Settled(leaf, e, f, true)
    ensures Eval(leaf, e, f) == False <==> Settled(leaf, e, f, false)
    decreases f
  {
    match f
    case And(fs) =>
      AndMeaning(leaf, e, fs, True);
      forall i | 0 <= i < |fs|
        ensures Eval(leaf, e, fs[i]) == True <==> Settled(leaf, e, fs[i], true)
        ensures Eval(leaf, e, fs[i]) == False <==> Settled(leaf, e, fs[i], false)
      {
        SettledExactly(leaf, e, fs[i]);
      }
    case Or(fs) =>
      OrMeaning(leaf, e, fs, False);
      forall i | 0 <= i < |fs|
        ensures Eval(leaf, e, fs[i]) == True <==> Settled(leaf, e, fs[i], true)
        ensures Eval(leaf, e, fs[i]) == False <==> Settled(leaf, e, fs[i], false)
      {
        SettledExactly(leaf, e, fs[i]);
      }
    case Not(g) =>
      SettledExactly(leaf, e, g);
      NotMeaning(leaf, e, g);
    case _ =>
  }

  /** b knows at least what a knows: it decides every leaf a decides, and the same way. */
  ghost predicate Knows(a: Leaf, b: Leaf) {
    forall e, f :: a(e, f) != Undefined ==> b(e, f) == a(e, f)
  }

  /**
   * Searching with fewer rights decides fewer filters and never decides one differently: not
   * even NOT gives a denied attribute away.
   */
  lemma {:induction false} FewerRights(a: Leaf, b: Leaf, e: Entry, f: Filter)
    requires Knows(a, b) && Eval(a, e, f) != Undefined
    ensures Eval(b, e, f) == Eval(a, e, f)
    decreases f
  {
    match f
    case And(fs) =>
      AndMeaning(a, e, fs, True);
      AndMeaning(b, e, fs, True);
      forall i | 0 <= i < |fs| && Eval(a, e, fs[i]) != Undefined ensures Eval(b, e, fs[i]) == Eval(a, e, fs[i]) {
        FewerRights(a, b, e, fs[i]);
      }
    case Or(fs) =>
      OrMeaning(a, e, fs, False);
      OrMeaning(b, e, fs, False);
      forall i | 0 <= i < |fs| && Eval(a, e, fs[i]) != Undefined ensures Eval(b, e, fs[i]) == Eval(a, e, fs[i]) {
        FewerRights(a, b, e, fs[i]);
      }
    case Not(g) => FewerRights(a, b, e, g);
    case _ =>
  }

  // ---------------------------------------------------------------------------
  // The index predicate
  // ---------------------------------------------------------------------------

  predicate IndexedAttr(name: string) { Lower(name) == "uid" || Lower(name) == "cn" || Lower(name) == "objectclass" }

  /** A required equality leaf: the filter itself, or the first one found among the parts of a conjunction. */
  function IndexedPredicate(f: Filter): Option<Filter>
    decreases f
  {
    match f
    case Equality(attr, _) => if IndexedAttr(attr) then Some(f) else None
    case And(fs) => FirstIndexed(fs)
    case _ => None
  }

  function FirstIndexed(fs: seq<Filter>): Option<Filter>
    decreases fs
  {
    if fs == [] then None
    else
      var p := IndexedPredicate(fs[0]);
      if p.Some? then p else FirstIndexed(fs[1..])
  }

  /** Whatever makes the filter True makes the chosen leaf True. */
  lemma {:induction false} LeafIsRequired(leaf: Leaf, e: Entry, f: Filter)
    requires IndexedPredicate(f).Some? && Eval(leaf, e, f) == True
    ensures leaf(e, IndexedPredicate(f).value) == True
    decreases f
  {
    match f
    case And(fs) =>
      AndMeaning(leaf, e, fs, True);
      FirstIsRequired(leaf, e, fs);
    case _ =>
  }

  lemma {:induction false} FirstIsRequired(leaf: Leaf, e: Entry, fs: seq<Filter>)
    requires FirstIndexed(fs).Some? && forall i :: 0 <= i < |fs| ==> Eval(leaf, e, fs[i]) == True
    ensures leaf(e, FirstIndexed(fs).value) == True
    decreases fs
  {
    if IndexedPredicate(fs[0]).Some? {
      LeafIsRequired(leaf, e, fs[0]);
    } else {
      FirstIsRequired(leaf, e, fs[1..]);
    }
  }

  // ---------------------------------------------------------------------------
  // Scope
  // ---------------------------------------------------------------------------

  datatype Scope = BaseObject | SingleLevel | WholeSubtree | Children

  predicate InScope(base: Name, d: Name, scope: Scope) {
    match scope
    case BaseObject => d == base
    case WholeSubtree => AtOrUnder(d, base)
    case _ => Parent(d) == Some(base)
  }

  /** How far below the base a scope goes: not at all, one step, or any number of steps. */
  lemma ScopeMeaning(base: Name, d: Name, scope: Scope)
    requires base != []
    ensures InScope(base, d, scope) <==>
              && |d| >= |base| && d[|d| - |base|..] == base
              && match scope
                 case BaseObject => |d| == |base|
                 case SingleLevel => |d| == |base| + 1
                 case Children => |d| == |base| + 1
                 case WholeSubtree => true
  {
    if |d| == |base| { assert d[0..] == d; }
  }

  /** es lists exactly the entries of t in scope, each once. */
  ghost predicate ScopeListing(es: seq<Entry>, t: Tree, base: Name, scope: Scope) {
    && Distinguished(es, t)
    && (forall i :: 0 <= i < |es| ==> InScope(base, es[i].dn, scope))
    && forall d :: d in t && InScope(base, d, scope) ==> exists i :: 0 <= i < |es| && es[i].dn == d
  }

  /** Entries of t, none twice. */
  ghost predicate Distinguished(es: seq<Entry>, t: Tree) {
    && (forall i :: 0 <= i < |es| ==> es[i].dn in t && t[es[i].dn] == es[i])
    && forall i, j :: 0 <= i < j < |es| ==> es[i].dn != es[j].dn
  }

  /** The index walk for an equality leaf: entries of t, none twice, every one for which the leaf is True among them. */
  ghost predicate Postings(es: seq<Entry>, t: Tree, leaf: Leaf, p: Filter) {
    && Distinguished(es, t)
    && forall d :: d in t && leaf(t[d], p) == True ==> exists i :: 0 <= i < |es| && es[i].dn == d
  }

  /** A request as the search runs it: what a leaf says, and whether the subject may read any attribute that counts. */
  datatype Query = Query(base: Name, scope: Scope, filter: Filter, leaf: Leaf, readable: Entry -> bool)

  /** searchResultVisible. */
  predicate Visible(q: Query, e: Entry) { Eval(q.leaf, e, q.filter) == True && q.readable(e) }

  /** What the search is to return. */
  ghost function Answer(q: Query, t: Tree): set<Name> {
    set d | d in t && InScope(q.base, d, q.scope) && Visible(q, t[d])
  }

  /**
   * With the right to search every attribute, the answer holds exactly the readable entries at
   * the scope's distance below the base for which the filter holds.
   */
  lemma AnswerMeans(q: Query, t: Tree, says: (Entry, Filter) -> bool, d: Name)
    requires q.base != []
    requires forall e, g: Filter :: !g.And? && !g.Or? && !g.Not? ==> q.leaf(e, g) == if says(e, g) then True else False
    ensures d in Answer(q, t) <==>
              && d in t && q.readable(t[d]) && Holds(says, t[d], q.filter)
              && |d| >= |q.base| && d[|d| - |q.base|..] == q.base
              && match q.scope
                 case BaseObject => |d| == |q.base|
                 case SingleLevel => |d| == |q.base| + 1
                 case Children => |d| == |q.base| + 1
                 case WholeSubtree => true
  {
    hide InScope, Eval, Holds;
    ScopeMeaning(q.base, d, q.scope);
    if d in t { TwoValued(q.leaf, says, t[d], q.filter); }
  }

  function DnSet(es: seq<Entry>): set<Name> { set i | 0 <= i < |es| :: es[i].dn }

  /** The visited part of a walk: what it has matched so far. */
  ghost predicate MatchedSoFar(q: Query, t: Tree, es: seq<Entry>, n: nat, matched: seq<Entry>)
    requires n <= |es|
  {
    && Distinguished(matched, t)
    && DnSet(matched) == (set i | 0 <= i < n && InScope(q.base, es[i].dn, q.scope) && Visible(q, es[i]) :: es[i].dn)
  }

  lemma MatchStep(q: Query, t: Tree, es: seq<Entry>, n: nat, matched: seq<Entry>)
    requires n < |es| && Distinguished(es, t) && MatchedSoFar(q, t, es, n, matched)
    ensures MatchedSoFar(q, t, es, n + 1,
              if InScope(q.base, es[n].dn, q.scope) && Visible(q, es[n]) then matched + [es[n]] else matched)
  {
    hide InScope, Visible;
    if InScope(q.base, es[n].dn, q.scope) && Visible(q, es[n]) {
      var m := matched + [es[n]];
      assert m[|matched|] == es[n] && forall i :: 0 <= i < |matched| ==> m[i] == matched[i];
      forall i | 0 <= i < |matched| ensures matched[i].dn != es[n].dn {
        assert matched[i].dn in DnSet(matched);
      }
      forall d ensures d in DnSet(m) <==> d in DnSet(matched) || d == es[n].dn {
        if d in DnSet(matched) {
          var i :| 0 <= i < |matched| && matched[i].dn == d;
          assert m[i].dn == d;
        }
        if d == es[n].dn { assert m[|matched|].dn == d; }
      }
    }
  }

  lemma {:induction false} DnSetSize(es: seq<Entry>, t: Tree)
    requires Distinguished(es, t)
    ensures |DnSet(es)| == |es|
  {
    if es != [] {
      var init, last := es[..|es| - 1], es[|es| - 1];
      DnSetSize(init, t);
      assert last.dn !in DnSet(init);
      forall d ensures d in DnSet(es) <==> d in DnSet(init) || d == last.dn {
        if d in DnSet(init) {
          var i :| 0 <= i < |init| && init[i].dn == d;
          assert es[i].dn == d;
        }
        if d == last.dn { assert es[|es| - 1].dn == d; }
      }
      assert DnSet(es) == DnSet(init) + {last.dn};
    }
  }

  /** A walk that comes to an end has matched the answer, if it visits every entry of the answer. */
  lemma WalkDone(q: Query, t: Tree, es: seq<Entry>, matched: seq<Entry>)
    requires Distinguished(es, t) && MatchedSoFar(q, t, es, |es|, matched)
    requires forall d :: d in Answer(q, t) ==> exists i :: 0 <= i < |es| && es[i].dn == d
    ensures DnSet(matched) == Answer(q, t) && |matched| == |Answer(q, t)|
  {
    hide InScope, Visible;
    DnSetSize(matched, t);
  }

  lemma PartOfAnswer(q: Query, t: Tree, es: seq<Entry>, n: nat, matched: seq<Entry>)
    requires n <= |es| && Distinguished(es, t) && MatchedSoFar(q, t, es, n, matched)
    ensures DnSet(matched) <= Answer(q, t) && |matched| <= |Answer(q, t)|
  {
    hide InScope, Visible;
    DnSetSize(matched, t);
    SubsetSize(DnSet(matched), Answer(q, t));
  }

  /** What a finished search may say: all of the answer, or as much as the size limit allows when it is larger. */
  ghost predicate Outcome(q: Query, t: Tree, sizeLimit: nat, matched: seq<Entry>, limited: bool) {
    && Distinguished(matched, t)
    && (limited <==> |Answer(q, t)| > sizeLimit)
    && (limited ==> |matched| == sizeLimit && DnSet(matched) <= Answer(q, t))
    && (!limited ==> DnSet(matched) == Answer(q, t))
  }

  /** Visits entries in order until the size limit trips. */
  method Walk(q: Query, es: seq<Entry>, sizeLimit: nat, ghost t: Tree) returns (matched: seq<Entry>, limited: bool)
    requires Distinguished(es, t) && forall d :: d in Answer(q, t) ==> exists i :: 0 <= i < |es| && es[i].dn == d
    ensures Outcome(q, t, sizeLimit, matched, limited)
  {
    hide InScope, Visible, Answer, MatchedSoFar;
    matched := [];
    NothingMatched(q, t, es);
    for i := 0 to |es|
      invariant MatchedSoFar(q, t, es, i, matched) && |matched| <= sizeLimit
    {
      MatchStep(q, t, es, i, matched);
      if !InScope(q.base, es[i].dn, q.scope) {
        continue;
      }
      if !Visible(q, es[i]) {
        continue;
      }
      if |matched| >= sizeLimit {
        PartOfAnswer(q, t, es, i + 1, matched + [es[i]]);
        PartOfAnswer(q, t, es, i, matched);
        MatchedDistinct(q, t, es, i, matched);
        return matched, true;
      }
      matched := matched + [es[i]];
    }
    WalkDone(q, t, es, matched);
    MatchedDistinct(q, t, es, |es|, matched);
    limited := false;
  }

  lemma NothingMatched(q: Query, t: Tree, es: seq<Entry>)
    ensures MatchedSoFar(q, t, es, 0, [])
  {
  }

  lemma MatchedDistinct(q: Query, t: Tree, es: seq<Entry>, n: nat, matched: seq<Entry>)
    requires n <= |es| && MatchedSoFar(q, t, es, n, matched)
    ensures Distinguished(matched, t)
  {
  }

  /** The scan visits every entry in scope. */
  method ScanSearch(q: Query, candidates: seq<Entry>, sizeLimit: nat, ghost t: Tree)
      returns (matched: seq<Entry>, limited: bool)
    requires ScopeListing(candidates, t, q.base, q.scope)
    ensures Outcome(q, t, sizeLimit, matched, limited)
  {
    hide InScope, Visible;
    matched, limited := Walk(q, candidates, sizeLimit, t);
  }

  /** The entries a scan is to visit, as the store lists them; None when the base is absent. */
  method Candidates(tx: Tx, base: Name, scope: Scope) returns (es: Option<seq<Entry>>)
    requires tx.Valid()
    ensures es.None? <==> base !in tx.Tree()
    ensures es.Some? ==> ScopeListing(es.value, tx.Tree(), base, scope)
  {
    hide TreeOf, Keyed, Canonical, AtOrUnder, Parent;
    match scope {
      case BaseObject =>
        var e := tx.Get(base);
        if e.None? {
          return None;
        }
        EntryName(tx, base);
        es := Some([e.value]);
        assert es.value[0].dn == base;
      case WholeSubtree => es := tx.Subtree(base);
      case _ => es := tx.Children(base);
    }
  }

  lemma EntryName(tx: Tx, d: Name)
    requires tx.Valid() && d in tx.Tree()
    ensures tx.Tree()[d].dn == d
  {
    TreeFacts(tx.entries);
  }

  /** The scan, from the base lookup on. */
  method SearchByScan(tx: Tx, q: Query, sizeLimit: nat) returns (found: bool, matched: seq<Entry>, limited: bool)
    requires tx.Valid()
    ensures found <==> q.base in tx.Tree()
    ensures found ==> Outcome(q, tx.Tree(), sizeLimit, matched, limited)
  {
    hide TreeOf, Keyed, Canonical, ScopeListing, Outcome;
    var es := Candidates(tx, q.base, q.scope);
    if es.None? {
      return false, [], false;
    }
    matched, limited := ScanSearch(q, es.value, sizeLimit, tx.Tree());
    found := true;
  }

  /** The index path, from the base lookup on. */
  method SearchByIndex(tx: Tx, q: Query, postings: seq<Entry>, sizeLimit: nat)
      returns (found: bool, matched: seq<Entry>, limited: bool)
    requires tx.Valid() && q.scope != BaseObject && IndexedPredicate(q.filter).Some?
    requires Postings(postings, tx.Tree(), q.leaf, IndexedPredicate(q.filter).value)
    ensures found <==> q.base in tx.Tree()
    ensures found ==> Outcome(q, tx.Tree(), sizeLimit, matched, limited)
  {
    hide TreeOf, Keyed, Canonical, Postings, Outcome, IndexedPredicate;
    var base := tx.Get(q.base);
    if base.None? {
      return false, [], false;
    }
    matched, limited := IndexSearch(q, postings, sizeLimit, tx.Tree());
    found := true;
  }

  /** The index path visits only the postings of the chosen leaf, and ends with the same outcome. */
  method IndexSearch(q: Query, postings: seq<Entry>, sizeLimit: nat, ghost t: Tree)
      returns (matched: seq<Entry>, limited: bool)
    requires q.scope != BaseObject && IndexedPredicate(q.filter).Some?
    requires Postings(postings, t, q.leaf, IndexedPredicate(q.filter).value)
    ensures Outcome(q, t, sizeLimit, matched, limited)
  {
    hide InScope;
    forall d | d in Answer(q, t) ensures exists i :: 0 <= i < |postings| && postings[i].dn == d {
      LeafIsRequired(q.leaf, t[d], q.filter);
    }
    matched, limited := Walk(q, postings, sizeLimit, t);
  }

  /**
   * Two searches with the same outcome return the same entries when no limit trips, and a
   * limit trips in both or in neither.
   */
  lemma OutcomesAgree(q: Query, t: Tree, sizeLimit: nat, m1: seq<Entry>, l1: bool, m2: seq<Entry>, l2: bool)
    requires Outcome(q, t, sizeLimit, m1, l1) && Outcome(q, t, sizeLimit, m2, l2)
    ensures l1 == l2 && |m1| == |m2|
    ensures !l1 ==> multiset(m1) == multiset(m2)
  {
    hide InScope, Visible, Answer;
    DnSetSize(m1, t);
    DnSetSize(m2, t);
    if !l1 {
      forall e ensures multiset(m1)[e] == multiset(m2)[e] {
        CountOnce(m1, t, e);
        CountOnce(m2, t, e);
      }
    }
  }

  lemma {:induction false} CountOnce(es: seq<Entry>, t: Tree, e: Entry)
    requires Distinguished(es, t)
    ensures multiset(es)[e] == if e.dn in DnSet(es) && t[e.dn] == e then 1 else 0
  {
    if es != [] {
      var init, last := es[..|es| - 1], es[|es| - 1];
      CountOnce(init, t, e);
      assert es == init + [last];
      assert last.dn !in DnSet(init);
      if e.dn in DnSet(es) {
        var i :| 0 <= i < |es| && es[i].dn == e.dn;
        if i < |init| { assert init[i].dn == e.dn; }
      }
      if e.dn in DnSet(init) {
        var i :| 0 <= i < |init| && init[i].dn == e.dn;
        assert es[i].dn == e.dn;
      }
      if e.dn == last.dn { assert es[|es| - 1].dn == e.dn; }
    }
  }
}
