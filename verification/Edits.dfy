// What a modification leaves behind, said without the order in which it is worked out:
// which values are selected, which refuse the change, and what is not touched.
module Edits {
  import opened Text
  import opened Names
  import opened Entries
  import opened Changes

  // ---------------------------------------------------------------------------
  // Selections
  // ---------------------------------------------------------------------------

  /** out holds the values of vs at the places at, in order. */
  ghost predicate Selects(vs: seq<string>, at: seq<nat>, out: seq<string>) {
    && |at| == |out|
    && (forall k :: 0 <= k < |at| ==> at[k] < |vs| && out[k] == vs[at[k]])
    && forall k, l :: 0 <= k < l < |at| ==> at[k] < at[l]
  }

  /** One of the places before i is selected and holds a value that matches the one at i. */
  ghost predicate MatchedBefore(m: Matcher, attr: string, vs: seq<string>, at: seq<nat>, i: nat)
    requires i < |vs| && forall k :: 0 <= k < |at| ==> at[k] < |vs|
  {
    exists k :: 0 <= k < |at| && at[k] < i && m(attr, vs[at[k]], vs[i])
  }

  /** out is vs without the values that an earlier kept one matches. */
  ghost predicate FirstOfEach(m: Matcher, attr: string, vs: seq<string>, out: seq<string>) {
    exists at: seq<nat> :: Selects(vs, at, out) && SelectsFirst(m, attr, vs, at)
  }

  ghost predicate SelectsFirst(m: Matcher, attr: string, vs: seq<string>, at: seq<nat>)
    requires forall k :: 0 <= k < |at| ==> at[k] < |vs|
  {
    forall i: nat :: i < |vs| ==> (i in at <==> !MatchedBefore(m, attr, vs, at, i))
  }

  ghost predicate MatchesOne(m: Matcher, attr: string, v: string, ws: seq<string>) {
    exists j :: 0 <= j < |ws| && m(attr, v, ws[j])
  }

  /** out is vs without the values that match one of ws. */
  ghost predicate Rest(m: Matcher, attr: string, vs: seq<string>, ws: seq<string>, out: seq<string>) {
    exists at: seq<nat> :: Selects(vs, at, out) && SelectsRest(m, attr, vs, ws, at)
  }

  ghost predicate SelectsRest(m: Matcher, attr: string, vs: seq<string>, ws: seq<string>, at: seq<nat>) {
    forall i: nat :: i < |vs| ==> (i in at <==> !MatchesOne(m, attr, vs[i], ws))
  }

  // ---------------------------------------------------------------------------
  // The first of each
  // ---------------------------------------------------------------------------

  /** The first n values have been looked at. */
  ghost predicate Selecting(m: Matcher, attr: string, vs: seq<string>, n: nat, at: seq<nat>, out: seq<string>)
    requires n <= |vs|
  {
    && Selects(vs, at, out) && (forall k :: 0 <= k < |at| ==> at[k] < n)
    && forall i: nat :: i < n ==> (i in at <==> !MatchedBefore(m, attr, vs, at, i))
  }

  lemma SelectingStep(m: Matcher, attr: string, vs: seq<string>, n: nat, at: seq<nat>, out: seq<string>)
    requires n < |vs| && Selecting(m, attr, vs, n, at, out)
    ensures if HasMatched(m, attr, out, vs[n]) then Selecting(m, attr, vs, n + 1, at, out)
            else Selecting(m, attr, vs, n + 1, at + [n], out + [vs[n]])
  {
    if HasMatched(m, attr, out, vs[n]) {
      var k :| 0 <= k < |out| && m(attr, out[k], vs[n]);
      assert MatchedBefore(m, attr, vs, at, n);
    } else {
      var at', out' := at + [n], out + [vs[n]];
      assert forall k :: 0 <= k < |at| ==> at'[k] == at[k] && out'[k] == out[k];
      assert at'[|at|] == n && out'[|out|] == vs[n];
      forall i: nat | i < n + 1 ensures i in at' <==> !MatchedBefore(m, attr, vs, at', i) {
        if i < n {
          assert MatchedBefore(m, attr, vs, at', i) <==> MatchedBefore(m, attr, vs, at, i) by {
            if MatchedBefore(m, attr, vs, at, i) {
              var k :| 0 <= k < |at| && at[k] < i && m(attr, vs[at[k]], vs[i]);
              assert at'[k] == at[k];
            }
          }
        } else {
          assert forall k :: 0 <= k < |out| ==> !m(attr, out[k], vs[n]);
        }
      }
    }
  }

  lemma {:induction false} DedupSelects(m: Matcher, attr: string, vs: seq<string>, n: nat, at: seq<nat>,
      out: seq<string>)
    requires n <= |vs| && Selecting(m, attr, vs, n, at, out)
    ensures FirstOfEach(m, attr, vs, DedupOnto(m, attr, out, vs[n..]))
    decreases |vs| - n
  {
    if n < |vs| {
      SelectingStep(m, attr, vs, n, at, out);
      assert vs[n..][0] == vs[n] && vs[n..][1..] == vs[n + 1..];
      if HasMatched(m, attr, out, vs[n]) {
        DedupSelects(m, attr, vs, n + 1, at, out);
      } else {
        DedupSelects(m, attr, vs, n + 1, at + [n], out + [vs[n]]);
      }
    } else {
      assert vs[n..] == [];
    }
  }

  lemma DedupIsFirst(m: Matcher, attr: string, vs: seq<string>)
    ensures FirstOfEach(m, attr, vs, Dedup(m, attr, vs))
  {
    assert Selecting(m, attr, vs, 0, [], []);
    DedupSelects(m, attr, vs, 0, [], []);
    assert vs[0..] == vs;
  }

  /** The first of each: given values only, each there or matched by one that is, and no later one matched. */
  lemma FirstOfEachFacts(m: Matcher, attr: string, vs: seq<string>, out: seq<string>)
    requires FirstOfEach(m, attr, vs, out)
    ensures forall v :: v in out ==> v in vs
    ensures forall v :: v in vs ==> v in out || HasMatched(m, attr, out, v)
    ensures forall k, l :: 0 <= k < l < |out| ==> !m(attr, out[k], out[l])
    ensures out == [] <==> vs == []
  {
    var at: seq<nat> :| Selects(vs, at, out) && SelectsFirst(m, attr, vs, at);
    forall i: nat | i < |vs| ensures vs[i] in out || HasMatched(m, attr, out, vs[i]) {
      if i in at {
        var k :| 0 <= k < |at| && at[k] == i;
        assert out[k] == vs[i];
      } else {
        var k :| 0 <= k < |at| && at[k] < i && m(attr, vs[at[k]], vs[i]);
        assert out[k] == vs[at[k]];
      }
    }
    forall k, l | 0 <= k < l < |out| ensures !m(attr, out[k], out[l]) {
      assert at[l] in at && !MatchedBefore(m, attr, vs, at, at[l]);
    }
    if vs != [] { assert vs[0] in vs; }
    if out != [] { assert out[0] in out; }
  }

  /** And nothing else: the values and their order are determined. */
  lemma FirstOfEachIsDedup(m: Matcher, attr: string, vs: seq<string>, out: seq<string>)
    requires FirstOfEach(m, attr, vs, out)
    ensures out == Dedup(m, attr, vs)
  {
    DedupIsFirst(m, attr, vs);
    var d := Dedup(m, attr, vs);
    var a: seq<nat> :| Selects(vs, a, out) && SelectsFirst(m, attr, vs, a);
    var b: seq<nat> :| Selects(vs, b, d) && SelectsFirst(m, attr, vs, b);
    SameSelection(m, attr, vs, a, b, |vs|);
    SameIncreasing(a, b);
  }

  lemma {:induction false} SameSelection(m: Matcher, attr: string, vs: seq<string>, a: seq<nat>, b: seq<nat>, n: nat)
    requires n <= |vs| && (forall k :: 0 <= k < |a| ==> a[k] < |vs|) && (forall k :: 0 <= k < |b| ==> b[k] < |vs|)
    requires SelectsFirst(m, attr, vs, a) && SelectsFirst(m, attr, vs, b)
    ensures forall i: nat :: i < n ==> (i in a <==> i in b)
  {
    if n > 0 {
      SameSelection(m, attr, vs, a, b, n - 1);
      var i: nat := n - 1;
      assert MatchedBefore(m, attr, vs, a, i) <==> MatchedBefore(m, attr, vs, b, i) by {
        if MatchedBefore(m, attr, vs, a, i) {
          var k :| 0 <= k < |a| && a[k] < i && m(attr, vs[a[k]], vs[i]);
          assert a[k] in a;
          var l :| 0 <= l < |b| && b[l] == a[k];
        }
        if MatchedBefore(m, attr, vs, b, i) {
          var k :| 0 <= k < |b| && b[k] < i && m(attr, vs[b[k]], vs[i]);
          assert b[k] in b;
          var l :| 0 <= l < |a| && a[l] == b[k];
        }
      }
    }
  }

  /** Increasing lists of the same places are the same list. */
  lemma {:induction false} SameIncreasing(a: seq<nat>, b: seq<nat>)
    requires forall k, l :: 0 <= k < l < |a| ==> a[k] < a[l]
    requires forall k, l :: 0 <= k < l < |b| ==> b[k] < b[l]
    requires forall i :: i in a <==> i in b
    ensures a == b
  {
    if a != [] && b != [] {
      var a', b' := a[..|a| - 1], b[..|b| - 1];
      SameLast(a, b);
      forall i ensures i in a' <==> i in b' {
        Shorter(a, i);
        Shorter(b, i);
      }
      SameIncreasing(a', b');
      assert a == a' + [a[|a| - 1]] && b == b' + [b[|b| - 1]];
    } else {
      HeadIsIn(a);
      HeadIsIn(b);
    }
  }

  lemma HeadIsIn(a: seq<nat>)
    ensures a == [] || a[0] in a
  {
  }

  lemma Shorter(a: seq<nat>, i: nat)
    requires a != [] && forall k, l :: 0 <= k < l < |a| ==> a[k] < a[l]
    ensures i in a[..|a| - 1] <==> i in a && i != a[|a| - 1]
  {
    if i in a && i != a[|a| - 1] {
      var k :| 0 <= k < |a| && a[k] == i;
      assert a[..|a| - 1][k] == i;
    }
  }

  lemma SameLast(a: seq<nat>, b: seq<nat>)
    requires forall k, l :: 0 <= k < l < |a| ==> a[k] < a[l]
    requires forall k, l :: 0 <= k < l < |b| ==> b[k] < b[l]
    requires a != [] && b != [] && forall i :: i in a <==> i in b
    ensures a[|a| - 1] == b[|b| - 1]
  {
    assert a[|a| - 1] in b && b[|b| - 1] in a;
    var k :| 0 <= k < |b| && b[k] == a[|a| - 1];
    var l :| 0 <= l < |a| && a[l] == b[|b| - 1];
  }

  // ---------------------------------------------------------------------------
  // The rest
  // ---------------------------------------------------------------------------

  lemma {:induction false} RemoveMatchedRest(m: Matcher, attr: string, vs: seq<string>, v: string)
      returns (at: seq<nat>)
    ensures Selects(vs, at, RemoveMatched(m, attr, vs, v))
    ensures forall i: nat :: i < |vs| ==> (i in at <==> !m(attr, vs[i], v))
  {
    if vs == [] {
      at := [];
    } else {
      var init, last := vs[..|vs| - 1], vs[|vs| - 1];
      var p := RemoveMatchedRest(m, attr, init, v);
      RemoveMatchedAppend(m, attr, init, [last], v);
      assert vs == init + [last];
      if m(attr, last, v) {
        at := p;
        assert RemoveMatched(m, attr, vs, v) == RemoveMatched(m, attr, init, v);
      } else {
        at := p + [|vs| - 1];
        assert RemoveMatched(m, attr, vs, v) == RemoveMatched(m, attr, init, v) + [last];
        assert forall k :: 0 <= k < |p| ==> at[k] == p[k];
      }
    }
  }

  /** Selecting twice is selecting once. */
  lemma SelectTwice(vs: seq<string>, a: seq<nat>, mid: seq<string>, b: seq<nat>, out: seq<string>)
      returns (c: seq<nat>)
    requires Selects(vs, a, mid) && Selects(mid, b, out)
    ensures Selects(vs, c, out)
    ensures forall i: nat :: i in c <==> exists k :: 0 <= k < |b| && a[b[k]] == i
  {
    c := seq(|b|, k requires 0 <= k < |b| => a[b[k]]);
  }

  lemma {:induction false} RemoveAllIsRest(m: Matcher, attr: string, vs: seq<string>, ws: seq<string>)
    ensures Rest(m, attr, vs, ws, RemoveAll(m, attr, vs, ws))
    decreases ws
  {
    if ws == [] {
      KeepAll(m, attr, vs);
    } else {
      var mid, out := RemoveMatched(m, attr, vs, ws[0]), RemoveAll(m, attr, vs, ws);
      var a := RemoveMatchedRest(m, attr, vs, ws[0]);
      RemoveAllIsRest(m, attr, mid, ws[1..]);
      hide Selects, SelectsRest, RemoveAll, RemoveMatched;
      var b: seq<nat> :| Selects(mid, b, out) && SelectsRest(m, attr, mid, ws[1..], b);
      var c := SelectTwice(vs, a, mid, b, out);
      RestBoth(m, attr, vs, ws, mid, a, b, out, c);
    }
  }

  lemma KeepAll(m: Matcher, attr: string, vs: seq<string>)
    ensures Rest(m, attr, vs, [], vs)
  {
    var at: seq<nat> := seq(|vs|, i requires 0 <= i < |vs| => i);
    assert Selects(vs, at, vs);
    forall i: nat | i < |vs| ensures i in at && !MatchesOne(m, attr, vs[i], []) { assert at[i] == i; }
    assert SelectsRest(m, attr, vs, [], at);
  }

  /** What stays after the first value stays after all when it matches none of the others. */
  lemma RestBoth(m: Matcher, attr: string, vs: seq<string>, ws: seq<string>, mid: seq<string>, a: seq<nat>, b: seq<nat>,
      out: seq<string>, c: seq<nat>)
    requires ws != [] && Selects(vs, a, mid) && (forall i: nat :: i < |vs| ==> (i in a <==> !m(attr, vs[i], ws[0])))
    requires Selects(mid, b, out) && SelectsRest(m, attr, mid, ws[1..], b)
    requires forall i: nat :: i in c <==> exists k :: 0 <= k < |b| && a[b[k]] == i
    ensures SelectsRest(m, attr, vs, ws, c)
  {
    forall i: nat | i < |vs| ensures i in c <==> !MatchesOne(m, attr, vs[i], ws) {
      MatchesCons(m, attr, vs[i], ws);
      hide MatchesOne;
      if i in a {
        var k :| 0 <= k < |a| && a[k] == i;
        assert mid[k] == vs[i];
        InBoth(vs, a, mid, b, out, c, k);
      } else {
        assert forall k :: 0 <= k < |b| ==> a[b[k]] in a;
      }
    }
  }

  lemma InBoth(vs: seq<string>, a: seq<nat>, mid: seq<string>, b: seq<nat>, out: seq<string>, c: seq<nat>, k: nat)
    requires Selects(vs, a, mid) && Selects(mid, b, out) && k < |a|
    requires forall i: nat :: i in c <==> exists l :: 0 <= l < |b| && a[b[l]] == i
    ensures a[k] in c <==> k in b
  {
    if a[k] in c {
      var l :| 0 <= l < |b| && a[b[l]] == a[k];
      assert b[l] == k;
    }
    if k in b {
      var l :| 0 <= l < |b| && b[l] == k;
    }
  }

  /** And nothing else. */
  lemma RestIsOnly(m: Matcher, attr: string, vs: seq<string>, ws: seq<string>, out: seq<string>)
    requires Rest(m, attr, vs, ws, out)
    ensures out == RemoveAll(m, attr, vs, ws)
  {
    RemoveAllIsRest(m, attr, vs, ws);
    var a: seq<nat> :| Selects(vs, a, out) && SelectsRest(m, attr, vs, ws, a);
    var b: seq<nat> :| Selects(vs, b, RemoveAll(m, attr, vs, ws)) && SelectsRest(m, attr, vs, ws, b);
    SamePlaces(m, attr, vs, ws, out, a, RemoveAll(m, attr, vs, ws), b);
    hide SelectsRest;
    SameIncreasing(a, b);
  }

  lemma SamePlaces(m: Matcher, attr: string, vs: seq<string>, ws: seq<string>, x: seq<string>, a: seq<nat>,
      y: seq<string>, b: seq<nat>)
    requires Selects(vs, a, x) && SelectsRest(m, attr, vs, ws, a)
    requires Selects(vs, b, y) && SelectsRest(m, attr, vs, ws, b)
    ensures forall i :: i in a <==> i in b
  {
    hide MatchesOne;
    forall i | i in a ensures i in b {
      var k :| 0 <= k < |a| && a[k] == i;
    }
    forall i | i in b ensures i in a {
      var k :| 0 <= k < |b| && b[k] == i;
    }
  }

  lemma MatchesCons(m: Matcher, attr: string, v: string, ws: seq<string>)
    requires ws != []
    ensures MatchesOne(m, attr, v, ws) <==> m(attr, v, ws[0]) || MatchesOne(m, attr, v, ws[1..])
  {
    if MatchesOne(m, attr, v, ws) && !m(attr, v, ws[0]) {
      var j :| 0 <= j < |ws| && m(attr, v, ws[j]);
      assert ws[1..][j - 1] == ws[j];
    }
    if MatchesOne(m, attr, v, ws[1..]) {
      var j :| 0 <= j < |ws[1..]| && m(attr, v, ws[1..][j]);
      assert ws[j + 1] == ws[1..][j];
    }
  }

  // ---------------------------------------------------------------------------
  // One change
  // ---------------------------------------------------------------------------

  /** Attributes of other names are as they were, and in the same order. */
  function Others(attrs: seq<Attr>, name: string): seq<Attr> {
    if attrs == [] then []
    else (if EqualFold(attrs[0].name, name) then [] else [attrs[0]]) + Others(attrs[1..], name)
  }

  /** The first of each of vs stands behind old_. */
  ghost predicate AddedFirst(m: Matcher, name: string, old_: seq<string>, vs: seq<string>, out: seq<string>) {
    exists added :: FirstOfEach(m, name, vs, added) && out == old_ + added
  }

  /**
   * An add is refused when the attribute already holds a value that matches a given one, and
   * otherwise puts the first of each behind the values that are there.
   */
  lemma AddExactly(m: Matcher, e: Entry, name: string, vs: seq<string>)
    requires Distinct(e.attrs)
    ensures var r := ApplyChange(m, e, Change(ModifyAdd, Attr(name, vs)));
      && (r.Refused? <==> exists i :: 0 <= i < |vs| && HasMatched(m, name, Values(e, name), vs[i]))
      && (r.Refused? ==> r.failure == AttributeOrValueExists)
      && (r.Edited? ==> Has(r.entry, name) && AddedFirst(m, name, Values(e, name), vs, Values(r.entry, name)))
  {
    hide EqualFold, Distinct, SetAttr, Append, SetValues, ValuesOf, FirstOfEach, DedupOnto, HasMatched;
    ValuesAtIndex(e.attrs, name);
    DedupIsFirst(m, name, vs);
    NoMatch(m, name);
    var r := ApplyChange(m, e, Change(ModifyAdd, Attr(name, vs)));
    if r.Edited? {
      if Has(e, name) {
        SetValuesFacts(e, name, Values(e, name) + Dedup(m, name, vs), name);
        SetValuesHas(e, name, Values(e, name) + Dedup(m, name, vs));
      } else {
        AppendFacts(e, name, Dedup(m, name, vs), name);
        AppendHas(e, name, Dedup(m, name, vs));
        assert [] + Dedup(m, name, vs) == Dedup(m, name, vs);
      }
    }
  }

  lemma NoMatch(m: Matcher, name: string)
    ensures forall v :: !HasMatched(m, name, [], v)
  {
  }

  lemma SetValuesHas(e: Entry, name: string, values: seq<string>)
    requires Has(e, name)
    ensures Has(SetValues(e, name, values), name)
  {
    hide EqualFold;
    var i := IndexOf(e.attrs, name);
    var a' := SetValues(e, name, values).attrs;
    assert a'[i].name == e.attrs[i].name;
  }

  lemma AppendHas(e: Entry, name: string, values: seq<string>)
    ensures Has(Append(e, name, values), name)
  {
    var a' := Append(e, name, values).attrs;
    assert a'[|e.attrs|].name == name && EqualFold(name, name);
  }

  /**
   * A delete is refused when the attribute, or a match for a given value, is missing. Without
   * values it takes the attribute away; with values it takes their matches, and the attribute
   * with the last of them.
   */
  lemma DeleteExactly(m: Matcher, e: Entry, name: string, vs: seq<string>)
    requires Distinct(e.attrs)
    ensures var r := ApplyChange(m, e, Change(ModifyDelete, Attr(name, vs)));
      && (r.Refused? <==> !Has(e, name) || exists i :: 0 <= i < |vs| && !HasMatched(m, name, Values(e, name), vs[i]))
      && (r.Refused? ==> r.failure == NoSuchAttribute)
      && (r.Edited? && vs == [] ==> !Has(r.entry, name) && Values(r.entry, name) == [])
      && (r.Edited? && vs != [] ==> Rest(m, name, Values(e, name), vs, Values(r.entry, name)))
      && (r.Edited? && vs != [] ==> (Has(r.entry, name) <==> Values(r.entry, name) != []))
  {
    hide EqualFold, Distinct, SetAttr, SetValues, ValuesOf, Rest, RemoveAll, HasMatched;
    ValuesAtIndex(e.attrs, name);
    var r := ApplyChange(m, e, Change(ModifyDelete, Attr(name, vs)));
    if r.Edited? {
      SetAttrValues(e, name, [], name);
      WithoutIsAbsent(e, name);
      RemoveAllIsRest(m, name, Values(e, name), vs);
      var left := RemoveAll(m, name, Values(e, name), vs);
      SetValuesFacts(e, name, left, name);
      SetValuesHas(e, name, left);
    }
  }

  /** A replace is never refused: the attribute holds the first of each given value, and is gone when none was given. */
  lemma ReplaceExactly(m: Matcher, e: Entry, name: string, vs: seq<string>)
    requires Distinct(e.attrs)
    ensures var r := ApplyChange(m, e, Change(ModifyReplace, Attr(name, vs)));
      && r.Edited? && FirstOfEach(m, name, vs, Values(r.entry, name)) && (Has(r.entry, name) <==> vs != [])
  {
    hide EqualFold, Distinct, SetAttr, Append, ValuesOf, FirstOfEach, DedupOnto;
    DedupIsFirst(m, name, vs);
    SetAttrValues(e, name, [], name);
    WithoutIsAbsent(e, name);
    AppendFacts(Without(e, name), name, Dedup(m, name, vs), name);
    AppendHas(Without(e, name), name, Dedup(m, name, vs));
    NothingFirst(m, name);
  }

  lemma NothingFirst(m: Matcher, name: string)
    ensures Dedup(m, name, []) == []
  {
  }

  // ---------------------------------------------------------------------------
  // Which attributes are there
  // ---------------------------------------------------------------------------

  lemma HasSome(e: Entry, name: string)
    ensures Has(e, name) <==> exists i :: 0 <= i < |e.attrs| && EqualFold(e.attrs[i].name, name)
  {
    hide EqualFold;
  }

  /** Setting values makes the attribute there, setting none takes it away, and no other comes or goes. */
  lemma SetAttrHas(e: Entry, name: string, values: seq<string>, other: string)
    requires Distinct(e.attrs)
    ensures Has(SetAttr(e, name, values), other) <==> if EqualFold(name, other) then values != [] else Has(e, other)
  {
    var pre, mid, mid', post := SetAttrShape(e, name, values);
    var e' := SetAttr(e, name, values);
    HasSome(e, other);
    HasSome(e', other);
    HasInside(pre, mid, post, name, other);
    HasInside(pre, mid', post, name, other);
  }

  /** Around attributes of one name, that name's presence is theirs, and any other name's is that of the rest. */
  lemma HasInside(pre: seq<Attr>, mid: seq<Attr>, post: seq<Attr>, name: string, other: string)
    requires forall k :: 0 <= k < |mid| ==> EqualFold(mid[k].name, name)
    requires forall k :: 0 <= k < |pre| ==> !EqualFold(pre[k].name, name)
    requires forall k :: 0 <= k < |post| ==> !EqualFold(post[k].name, name)
    ensures var s := pre + mid + post;
      (exists i :: 0 <= i < |s| && EqualFold(s[i].name, other)) <==>
        if EqualFold(name, other) then mid != []
        else (exists i :: 0 <= i < |pre| && EqualFold(pre[i].name, other))
             || exists i :: 0 <= i < |post| && EqualFold(post[i].name, other)
  {
    var s := pre + mid + post;
    if i :| 0 <= i < |s| && EqualFold(s[i].name, other) {
      if i < |pre| {
        assert s[i] == pre[i];
      } else if i < |pre| + |mid| {
        assert s[i] == mid[i - |pre|];
      } else {
        assert s[i] == post[i - |pre| - |mid|];
      }
    }
    assert mid != [] ==> s[|pre|] == mid[0];
    assert forall i :: 0 <= i < |pre| ==> s[i] == pre[i];
    assert forall i :: 0 <= i < |post| ==> s[|pre| + |mid| + i] == post[i];
  }

  // ---------------------------------------------------------------------------
  // What a change leaves alone
  // ---------------------------------------------------------------------------

  lemma {:induction false} OthersConcat(a: seq<Attr>, b: seq<Attr>, name: string)
    ensures Others(a + b, name) == Others(a, name) + Others(b, name)
  {
    hide EqualFold;
    if a == [] {
      assert a + b == b && [] + Others(b, name) == Others(b, name);
    } else {
      OthersConcat(a[1..], b, name);
      assert (a + b)[1..] == a[1..] + b && (a + b)[0] == a[0];
      var first := if EqualFold(a[0].name, name) then [] else [a[0]];
      ConcatAssoc(first, Others(a[1..], name), Others(b, name));
    }
  }

  lemma {:induction false} NoOthers(a: seq<Attr>, name: string)
    requires forall k :: 0 <= k < |a| ==> EqualFold(a[k].name, name)
    ensures Others(a, name) == []
  {
    if a != [] { NoOthers(a[1..], name); }
  }

  /** An edit in the middle that only concerns one name keeps all other attributes, in order. */
  lemma EditedOthers(pre: seq<Attr>, mid: seq<Attr>, mid': seq<Attr>, post: seq<Attr>, name: string)
    requires forall k :: 0 <= k < |mid| ==> EqualFold(mid[k].name, name)
    requires forall k :: 0 <= k < |mid'| ==> EqualFold(mid'[k].name, name)
    ensures Others(pre + mid + post, name) == Others(pre + mid' + post, name)
  {
    hide EqualFold;
    NoOthers(mid, name);
    NoOthers(mid', name);
    hide Others;
    OthersConcat(pre + mid, post, name);
    OthersConcat(pre + mid', post, name);
    OthersConcat(pre, mid, name);
    OthersConcat(pre, mid', name);
  }

  lemma SetAttrOthers(e: Entry, name: string, values: seq<string>)
    requires Distinct(e.attrs)
    ensures Others(SetAttr(e, name, values).attrs, name) == Others(e.attrs, name)
  {
    var pre, mid, mid', post := SetAttrShape(e, name, values);
    hide SetAttr, EqualFold, Others;
    EditedOthers(pre, mid, mid', post, name);
  }

  lemma SetValuesOthers(e: Entry, name: string, values: seq<string>)
    requires Has(e, name)
    ensures Others(SetValues(e, name, values).attrs, name) == Others(e.attrs, name)
  {
    hide EqualFold, Others;
    var i := IndexOf(e.attrs, name);
    var a' := SetValues(e, name, values).attrs;
    var pre, post := e.attrs[..i], e.attrs[i + 1..];
    assert e.attrs == pre + [e.attrs[i]] + post && a' == pre + [a'[i]] + post;
    EditedOthers(pre, [e.attrs[i]], [a'[i]], post, name);
  }

  lemma AppendOthers(e: Entry, name: string, values: seq<string>)
    ensures Others(Append(e, name, values).attrs, name) == Others(e.attrs, name)
  {
    var a := Attr(name, values);
    assert EqualFold(a.name, name);
    hide EqualFold, Others;
    EditedOthers(e.attrs, [], [a], [], name);
    assert e.attrs + [] + [] == e.attrs && e.attrs + [a] + [] == e.attrs + [a];
  }

  /** Whatever the change, the attributes of other names stay as they are, and in order. */
  lemma ChangeKeepsOthers(m: Matcher, e: Entry, ch: Change)
    requires Distinct(e.attrs) && ApplyChange(m, e, ch).Edited?
    ensures var e' := ApplyChange(m, e, ch).entry;
      e'.dn == e.dn && Others(e'.attrs, ch.attr.name) == Others(e.attrs, ch.attr.name)
  {
    hide EqualFold, Others, SetAttr, Append, SetValues, Dedup, RemoveAll, HasMatched, ValuesOf, Distinct;
    var name, vs := ch.attr.name, ch.attr.values;
    SetAttrOthers(e, name, []);
    SetAttrName(e, name);
    match ch.op {
      case ModifyAdd =>
        if Has(e, name) {
          SetValuesOthers(e, name, Values(e, name) + Dedup(m, name, vs));
          SetValuesName(e, name, Values(e, name) + Dedup(m, name, vs));
        } else {
          AppendOthers(e, name, Dedup(m, name, vs));
          AppendName(e, name, Dedup(m, name, vs));
        }
      case ModifyDelete =>
        var left := RemoveAll(m, name, Values(e, name), vs);
        if Has(e, name) {
          SetValuesOthers(e, name, left);
          SetValuesName(e, name, left);
        }
      case ModifyReplace =>
        AppendOthers(Without(e, name), name, Dedup(m, name, vs));
        AppendName(Without(e, name), name, Dedup(m, name, vs));
    }
  }

  lemma SetAttrName(e: Entry, name: string)
    ensures Without(e, name).dn == e.dn
  {
  }

  lemma SetValuesName(e: Entry, name: string, values: seq<string>)
    requires Has(e, name)
    ensures SetValues(e, name, values).dn == e.dn
  {
  }

  lemma AppendName(e: Entry, name: string, values: seq<string>)
    ensures Append(e, name, values).dn == e.dn
  {
  }

  /** What a replace leaves, in a reader's terms. */
  lemma ReplacedValues(m: Matcher, e: Entry, name: string, vs: seq<string>)
    requires Distinct(e.attrs)
    ensures var out := Values(ApplyChange(m, e, Change(ModifyReplace, Attr(name, vs))).entry, name);
      && (forall v :: v in out ==> v in vs)
      && (forall v :: v in vs ==> v in out || HasMatched(m, name, out, v))
      && (forall k, l :: 0 <= k < l < |out| ==> !m(name, out[k], out[l]))
      && (out == [] <==> vs == [])
  {
    hide ApplyChange, FirstOfEach, ValuesOf;
    ReplaceExactly(m, e, name, vs);
    FirstOfEachFacts(m, name, vs, Values(ApplyChange(m, e, Change(ModifyReplace, Attr(name, vs))).entry, name));
  }
}
