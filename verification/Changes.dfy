// The attribute edits of Modify and ModifyDN, over a matcher that decides when two
// values of an attribute are equal.
module Changes {
  import opened Text
  import opened Names
  import opened Entries

  /** Equality of a stored value and an asserted one under the attribute's matching rule. */
  type Matcher = (string, string, string) -> bool

  datatype ModifyOp = ModifyAdd | ModifyDelete | ModifyReplace
  datatype Change = Change(op: ModifyOp, attr: Attr)
  datatype Failure = NoSuchAttribute | AttributeOrValueExists
  datatype Edited = Edited(entry: Entry) | Refused(failure: Failure)

  predicate Has(e: Entry, name: string) { IndexOf(e.attrs, name) < |e.attrs| }

  predicate HasMatched(m: Matcher, attr: string, vs: seq<string>, v: string) {
    exists i :: 0 <= i < |vs| && m(attr, vs[i], v)
  }

  function RemoveMatched(m: Matcher, attr: string, vs: seq<string>, v: string): seq<string> {
    if vs == [] then []
    else (if m(attr, vs[0], v) then [] else [vs[0]]) + RemoveMatched(m, attr, vs[1..], v)
  }

  /** What is left of vs once every value matching one of ws is gone. */
  function RemoveAll(m: Matcher, attr: string, vs: seq<string>, ws: seq<string>): seq<string>
    decreases ws
  {
    if ws == [] then vs else RemoveAll(m, attr, RemoveMatched(m, attr, vs, ws[0]), ws[1..])
  }

  /** vs without the values that match an earlier one, appended to out. */
  function DedupOnto(m: Matcher, attr: string, out: seq<string>, vs: seq<string>): seq<string>
    decreases vs
  {
    if vs == [] then out
    else if HasMatched(m, attr, out, vs[0]) then DedupOnto(m, attr, out, vs[1..])
    else DedupOnto(m, attr, out + [vs[0]], vs[1..])
  }

  function Dedup(m: Matcher, attr: string, vs: seq<string>): seq<string> { DedupOnto(m, attr, [], vs) }

  method DedupMatched(m: Matcher, attr: string, vs: seq<string>) returns (out: seq<string>)
    ensures out == Dedup(m, attr, vs)
  {
    out := [];
    assert vs[0..] == vs;
    for i := 0 to |vs|
      invariant DedupOnto(m, attr, out, vs[i..]) == Dedup(m, attr, vs)
    {
      assert vs[i..][1..] == vs[i + 1..] && vs[i..][0] == vs[i];
      if !HasMatched(m, attr, out, vs[i]) {
        out := out + [vs[i]];
      }
    }
    assert vs[|vs|..] == [];
  }

  /** The attribute list without the attribute of that name. */
  function Without(e: Entry, name: string): Entry { SetAttr(e, name, []) }

  /** Appends an attribute that is not there yet, even one without values. */
  function Append(e: Entry, name: string, values: seq<string>): Entry { e.(attrs := e.attrs + [Attr(name, values)]) }

  /** Overwrites the values of an attribute that is there. */
  function SetValues(e: Entry, name: string, values: seq<string>): Entry
    requires IndexOf(e.attrs, name) < |e.attrs|
  {
    var i := IndexOf(e.attrs, name);
    e.(attrs := e.attrs[i := e.attrs[i].(values := values)])
  }

  /** One modification (section 4.6 of RFC 4511). */
  function ApplyChange(m: Matcher, e: Entry, ch: Change): Edited {
    var name, vs := ch.attr.name, ch.attr.values;
    var present := IndexOf(e.attrs, name) < |e.attrs|;
    match ch.op
    case ModifyAdd =>
      if !present then Edited(Append(e, name, Dedup(m, name, vs)))
      else if exists i ::
          0 <= i < |vs| && HasMatched(m, name, Values(e, name), vs[i]) then Refused(AttributeOrValueExists)
      else Edited(SetValues(e, name, Values(e, name) + Dedup(m, name, vs)))
    case ModifyDelete =>
      if !present then Refused(NoSuchAttribute)
      else if vs == [] then Edited(Without(e, name))
      else if exists i :: 0 <= i < |vs| && !HasMatched(m, name, Values(e, name), vs[i]) then Refused(NoSuchAttribute)
      else
        var left := RemoveAll(m, name, Values(e, name), vs);
        Edited(if left == [] then Without(e, name) else SetValues(e, name, left))
    case ModifyReplace =>
      var e1 := Without(e, name);
      Edited(if vs == [] then e1 else Append(e1, name, Dedup(m, name, vs)))
  }

  /** removeMatched: what stays moves to the front of the same storage, never past the reader. */
  method Compact(m: Matcher, attr: string, a: array<string>, v: string) returns (n: nat)
    modifies a
    ensures n <= a.Length && a[..n] == RemoveMatched(m, attr, old(a[..]), v)
  {
    ghost var was := a[..];
    n := 0;
    for i := 0 to a.Length
      invariant n <= i && a[..n] == RemoveMatched(m, attr, was[..i], v)
      invariant forall k :: i <= k < a.Length ==> a[k] == was[k]
    {
      RemoveMatchedAppend(m, attr, was[..i], [was[i]], v);
      assert was[..i + 1] == was[..i] + [was[i]];
      if !m(attr, a[i], v) {
        a[n] := a[i];
        n := n + 1;
      }
    }
    assert was[..a.Length] == was;
  }

  method RemoveEach(m: Matcher, attr: string, vs: seq<string>, ws: seq<string>) returns (left: seq<string>)
    ensures left == RemoveAll(m, attr, vs, ws)
  {
    left := vs;
    assert ws[0..] == ws;
    for i := 0 to |ws|
      invariant RemoveAll(m, attr, left, ws[i..]) == RemoveAll(m, attr, vs, ws)
    {
      assert ws[i..][1..] == ws[i + 1..] && ws[i..][0] == ws[i];
      var storage := new string[|left|](j requires 0 <= j < |left| => left[j]);
      assert storage[..] == left;
      var n := Compact(m, attr, storage, ws[i]);
      left := storage[..n];
    }
    assert ws[|ws|..] == [];
  }

  /** attrIndex, with the length of the list for a missing attribute. */
  method AttrIndex(attrs: seq<Attr>, name: string) returns (i: nat)
    ensures i == IndexOf(attrs, name)
  {
    i := 0;
    while i < |attrs| && !EqualFold(attrs[i].name, name)
      invariant i <= |attrs| && forall k :: 0 <= k < i ==> !EqualFold(attrs[k].name, name)
    {
      i := i + 1;
    }
  }

  /** An entry under edit. */
  class Draft {
    const dn: Name
    var attrs: seq<Attr>

    constructor (e: Entry)
      ensures Current() == e
    {
      dn, attrs := e.dn, e.attrs;
    }

    function Current(): Entry
      reads this
    {
      Entry(dn, attrs)
    }

    /** Applies one change in place. A refused change leaves the entry as it was. */
    method Apply(m: Matcher, ch: Change) returns (failure: Option<Failure>)
      modifies this
      ensures failure.None? ==> ApplyChange(m, old(Current()), ch) == Edited(Current())
      ensures failure.Some? ==> ApplyChange(m, old(Current()), ch) == Refused(failure.value) && attrs == old(attrs)
    {
      hide EqualFold, HasMatched, DedupOnto;
      var name, vs := ch.attr.name, ch.attr.values;
      var idx := AttrIndex(attrs, name);
      ValuesAtIndex(attrs, name);
      failure := None;
      match ch.op
      case ModifyAdd =>
        if idx < |attrs| {
          for i := 0 to |vs|
            invariant attrs == old(attrs) && forall k :: 0 <= k < i ==> !HasMatched(m, name, attrs[idx].values, vs[k])
          {
            if HasMatched(m, name, attrs[idx].values, vs[i]) {
              return Some(AttributeOrValueExists);
            }
          }
        }
        var added := DedupMatched(m, name, vs);
        if idx == |attrs| {
          attrs := attrs + [Attr(name, added)];
        } else {
          attrs := attrs[idx := attrs[idx].(values := attrs[idx].values + added)];
        }
      case ModifyDelete =>
        if idx == |attrs| {
          return Some(NoSuchAttribute);
        }
        if vs == [] {
          attrs := attrs[..idx] + attrs[idx + 1..];
          return None;
        }
        for i := 0 to |vs|
          invariant attrs == old(attrs) && forall k :: 0 <= k < i ==> HasMatched(m, name, attrs[idx].values, vs[k])
        {
          if !HasMatched(m, name, attrs[idx].values, vs[i]) {
            return Some(NoSuchAttribute);
          }
        }
        var left := RemoveEach(m, name, attrs[idx].values, vs);
        if left == [] {
          attrs := attrs[..idx] + attrs[idx + 1..];
        } else {
          attrs := attrs[idx := attrs[idx].(values := left)];
        }
      case ModifyReplace =>
        if idx < |attrs| {
          attrs := attrs[..idx] + attrs[idx + 1..];
        }
        if vs != [] {
          var values := DedupMatched(m, name, vs);
          attrs := attrs + [Attr(name, values)];
        }
    }
  }

  // ---------------------------------------------------------------------------
  // What an edit leaves alone
  // ---------------------------------------------------------------------------

  lemma AppendDistinct(as_: seq<Attr>, a: Attr)
    requires Distinct(as_) && IndexOf(as_, a.name) == |as_|
    ensures Distinct(as_ + [a])
  {
    hide EqualFold;
    var as' := as_ + [a];
    forall i, j | 0 <= i < j < |as'| ensures !EqualFold(as'[i].name, as'[j].name) {
      if j == |as_| {
        assert as'[j] == a && as'[i] == as_[i];
      } else {
        assert as'[i] == as_[i] && as'[j] == as_[j];
      }
    }
  }

  lemma AppendFacts(e: Entry, name: string, values: seq<string>, other: string)
    requires Distinct(e.attrs) && IndexOf(e.attrs, name) == |e.attrs|
    ensures var e' := Append(e, name, values);
      && Distinct(e'.attrs) && e'.dn == e.dn && Values(e', name) == values
      && (!EqualFold(name, other) ==> Values(e', other) == Values(e, other))
  {
    hide EqualFold, Distinct;
    var a := Attr(name, values);
    var as' := e.attrs + [a];
    AppendDistinct(e.attrs, a);
    assert forall k :: 0 <= k < |e.attrs| ==> as'[k] == e.attrs[k];
    ValuesSkip(as', |e.attrs|, name);
    assert as'[|e.attrs|..] == [a];
    FoldReflexive(name);
    if !EqualFold(name, other) {
      ValuesElsewhere(e.attrs, [], [a], [], other);
      assert e.attrs + [] + [] == e.attrs && e.attrs + [a] + [] == as';
    }
  }

  lemma SetValuesDistinct(e: Entry, name: string, values: seq<string>)
    requires Distinct(e.attrs) && IndexOf(e.attrs, name) < |e.attrs|
    ensures Distinct(SetValues(e, name, values).attrs)
  {
    hide EqualFold;
    var a' := SetValues(e, name, values).attrs;
    forall j, k | 0 <= j < k < |a'| ensures !EqualFold(a'[j].name, a'[k].name) {
      assert a'[j].name == e.attrs[j].name && a'[k].name == e.attrs[k].name;
    }
  }

  lemma SetValuesOwn(e: Entry, name: string, values: seq<string>)
    requires IndexOf(e.attrs, name) < |e.attrs|
    ensures Values(SetValues(e, name, values), name) == values
  {
    hide EqualFold, ValuesOf;
    var i := IndexOf(e.attrs, name);
    var a' := SetValues(e, name, values).attrs;
    assert forall k :: 0 <= k < |a'| ==> a'[k].name == e.attrs[k].name;
    assert IndexOf(a', name) == i;
    ValuesAtIndex(a', name);
  }

  lemma SetValuesFacts(e: Entry, name: string, values: seq<string>, other: string)
    requires Distinct(e.attrs) && IndexOf(e.attrs, name) < |e.attrs|
    ensures var e' := SetValues(e, name, values);
      && Distinct(e'.attrs) && e'.dn == e.dn && Values(e', name) == values
      && (!EqualFold(name, other) ==> Values(e', other) == Values(e, other))
  {
    hide EqualFold, Distinct, ValuesOf;
    var i := IndexOf(e.attrs, name);
    var a' := SetValues(e, name, values).attrs;
    SetValuesDistinct(e, name, values);
    SetValuesOwn(e, name, values);
    if !EqualFold(name, other) {
      FoldTransitive(e.attrs[i].name, name, other);
      var pre, post := e.attrs[..i], e.attrs[i + 1..];
      ValuesElsewhere(pre, [e.attrs[i]], [a'[i]], post, other);
      assert e.attrs == pre + [e.attrs[i]] + post && a' == pre + [a'[i]] + post;
    }
  }

  /** A change touches the values of its own attribute only, and keeps attribute names distinct. */
  lemma ChangeFacts(m: Matcher, e: Entry, ch: Change, other: string)
    requires Distinct(e.attrs) && ApplyChange(m, e, ch).Edited?
    ensures var e' := ApplyChange(m, e, ch).entry;
      && Distinct(e'.attrs) && e'.dn == e.dn
      && (!EqualFold(ch.attr.name, other) ==> Values(e', other) == Values(e, other))
  {
    hide EqualFold, Distinct, SetAttr, Append, SetValues, Dedup, RemoveAll, HasMatched, ValuesOf;
    var name, vs := ch.attr.name, ch.attr.values;
    SetAttrValues(e, name, [], other);
    match ch.op {
      case ModifyAdd =>
        if IndexOf(e.attrs, name) == |e.attrs| {
          AppendFacts(e, name, Dedup(m, name, vs), other);
        } else {
          SetValuesFacts(e, name, Values(e, name) + Dedup(m, name, vs), other);
        }
      case ModifyDelete =>
        var left := RemoveAll(m, name, Values(e, name), vs);
        if vs != [] && left != [] {
          SetValuesFacts(e, name, left, other);
        }
      case ModifyReplace =>
        WithoutIsAbsent(e, name);
        AppendFacts(Without(e, name), name, Dedup(m, name, vs), other);
    }
  }

  lemma WithoutIsAbsent(e: Entry, name: string)
    requires Distinct(e.attrs)
    ensures IndexOf(Without(e, name).attrs, name) == |Without(e, name).attrs|
  {
    var pre, mid, mid', post := SetAttrShape(e, name, []);
    hide SetAttr, EqualFold, Distinct;
    var a' := Without(e, name).attrs;
    forall k | 0 <= k < |a'| ensures !EqualFold(a'[k].name, name) {
      assert a'[k] == if k < |pre| then pre[k] else post[k - |pre|];
    }
  }

  // ---------------------------------------------------------------------------
  // Deleting what was added
  // ---------------------------------------------------------------------------

  lemma {:induction false} RemoveMatchedMembers(m: Matcher, attr: string, vs: seq<string>, v: string)
    ensures forall x :: x in RemoveMatched(m, attr, vs, v) <==> x in vs && !m(attr, x, v)
  {
    if vs != [] {
      RemoveMatchedMembers(m, attr, vs[1..], v);
      assert forall x :: x in vs <==> x == vs[0] || x in vs[1..];
    }
  }

  lemma {:induction false} RemoveMatchedAppend(m: Matcher, attr: string, a: seq<string>, b: seq<string>, v: string)
    ensures RemoveMatched(m, attr, a + b, v) == RemoveMatched(m, attr, a, v) + RemoveMatched(m, attr, b, v)
  {
    if a == [] {
      assert a + b == b;
    } else {
      RemoveMatchedAppend(m, attr, a[1..], b, v);
      assert (a + b)[1..] == a[1..] + b && (a + b)[0] == a[0];
    }
  }

  lemma {:induction false} RemoveNothing(m: Matcher, attr: string, a: seq<string>, v: string)
    requires !HasMatched(m, attr, a, v)
    ensures RemoveMatched(m, attr, a, v) == a
  {
    if a != [] {
      assert !m(attr, a[0], v);
      assert forall i :: 0 <= i < |a[1..]| ==> a[1..][i] == a[i + 1];
      RemoveNothing(m, attr, a[1..], v);
    }
  }

  lemma FirstIsMember(b: seq<string>)
    ensures b == [] || b[0] in b
  {
  }

  lemma {:induction false} RemoveAllSplit(m: Matcher, attr: string, a: seq<string>, b: seq<string>, ws: seq<string>)
    requires forall i :: 0 <= i < |ws| ==> !HasMatched(m, attr, a, ws[i])
    requires forall x :: x in b ==> exists i :: 0 <= i < |ws| && m(attr, x, ws[i])
    ensures RemoveAll(m, attr, a + b, ws) == a
    decreases ws
  {
    if ws == [] {
      FirstIsMember(b);
      assert a + b == a;
    } else {
      var b' := RemoveMatched(m, attr, b, ws[0]);
      RemoveMatchedAppend(m, attr, a, b, ws[0]);
      RemoveNothing(m, attr, a, ws[0]);
      RemoveMatchedMembers(m, attr, b, ws[0]);
      forall x | x in b' ensures exists i :: 0 <= i < |ws[1..]| && m(attr, x, ws[1..][i]) {
        var i :| 0 <= i < |ws| && m(attr, x, ws[i]);
        assert i > 0 && ws[1..][i - 1] == ws[i];
      }
      RemoveAllSplit(m, attr, a, b', ws[1..]);
    }
  }

  lemma {:induction false} DedupMembers(m: Matcher, attr: string, out: seq<string>, vs: seq<string>)
    ensures forall x :: x in DedupOnto(m, attr, out, vs) ==> x in out || x in vs
    ensures out <= DedupOnto(m, attr, out, vs)
    ensures forall v :: v in vs ==>
              HasMatched(m, attr, DedupOnto(m, attr, out, vs), v) || v in DedupOnto(m, attr, out, vs)
    decreases vs
  {
    if vs != [] {
      var out' := if HasMatched(m, attr, out, vs[0]) then out else out + [vs[0]];
      DedupMembers(m, attr, out', vs[1..]);
      var r := DedupOnto(m, attr, out', vs[1..]);
      assert forall x :: x in vs <==> x == vs[0] || x in vs[1..];
      if HasMatched(m, attr, out, vs[0]) {
        var i :| 0 <= i < |out| && m(attr, out[i], vs[0]);
        assert r[i] == out[i];
      } else {
        assert r[|out|] == vs[0];
      }
    }
  }

  /** Deleting the values an add has put in restores the attribute's values exactly. */
  lemma DeleteUndoesAdd(m: Matcher, e: Entry, name: string, vs: seq<string>)
    requires Distinct(e.attrs) && vs != []
    requires forall i :: 0 <= i < |vs| ==> m(name, vs[i], vs[i])
    requires ApplyChange(m, e, Change(ModifyAdd, Attr(name, vs))).Edited?
    ensures var e1 := ApplyChange(m, e, Change(ModifyAdd, Attr(name, vs))).entry;
      var r := ApplyChange(m, e1, Change(ModifyDelete, Attr(name, vs)));
      r.Edited? && Values(r.entry, name) == Values(e, name)
  {
    hide EqualFold, Distinct, SetAttr, Append, SetValues, ValuesOf;
    var e1 := ApplyChange(m, e, Change(ModifyAdd, Attr(name, vs))).entry;
    var ds := Dedup(m, name, vs);
    ValuesAtIndex(e.attrs, name);
    if IndexOf(e.attrs, name) == |e.attrs| {
      AppendFacts(e, name, ds, name);
      assert [] + ds == ds;
    } else {
      SetValuesFacts(e, name, Values(e, name) + ds, name);
    }
    DedupMembers(m, name, [], vs);
    forall x | x in ds ensures exists i :: 0 <= i < |vs| && m(name, x, vs[i]) {
      var i :| 0 <= i < |vs| && vs[i] == x;
    }
    ValuesAtIndex(e1.attrs, name);
    assert Values(e1, name) == Values(e, name) + ds;
    AllMatched(m, name, Values(e, name), ds, vs);
    RemoveAllSplit(m, name, Values(e, name), ds, vs);
    DeletedValues(m, e1, name, vs);
  }

  lemma AllMatched(m: Matcher, name: string, a: seq<string>, ds: seq<string>, vs: seq<string>)
    requires forall i :: 0 <= i < |vs| ==> m(name, vs[i], vs[i])
    requires ds == Dedup(m, name, vs)
    ensures forall i :: 0 <= i < |vs| ==> HasMatched(m, name, a + ds, vs[i])
    ensures vs != [] ==> ds != []
  {
    DedupMembers(m, name, [], vs);
    forall i | 0 <= i < |vs| ensures HasMatched(m, name, a + ds, vs[i]) && ds != [] {
      assert vs[i] in vs;
      var j :| 0 <= j < |ds| && (m(name, ds[j], vs[i]) || ds[j] == vs[i]);
      assert (a + ds)[|a| + j] == ds[j];
    }
    if vs != [] { assert HasMatched(m, name, a + ds, vs[0]); }
  }

  /** What a delete of values leaves. */
  lemma DeletedValues(m: Matcher, e: Entry, name: string, vs: seq<string>)
    requires Distinct(e.attrs) && vs != [] && Values(e, name) != []
    requires forall i :: 0 <= i < |vs| ==> HasMatched(m, name, Values(e, name), vs[i])
    ensures var r := ApplyChange(m, e, Change(ModifyDelete, Attr(name, vs)));
      r.Edited? && Values(r.entry, name) == RemoveAll(m, name, Values(e, name), vs)
  {
    hide EqualFold, Distinct, SetAttr, SetValues, ValuesOf, HasMatched, RemoveAll;
    ValuesAtIndex(e.attrs, name);
    var left := RemoveAll(m, name, Values(e, name), vs);
    SetAttrValues(e, name, [], name);
    if left != [] {
      SetValuesFacts(e, name, left, name);
    }
  }
}
