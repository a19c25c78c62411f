// Directory entries as ordered attribute lists, the DN values they hold, and the
// attribute edits of the memberof and referint plugins.
module Entries {
  import opened Text
  import opened DnSyntax
  import opened Names

  datatype Attr = Attr(name: string, values: seq<string>)
  datatype Entry = Entry(dn: Name, attrs: seq<Attr>)

  // ---------------------------------------------------------------------------
  // Values that name entries
  // ---------------------------------------------------------------------------

  /** Cuts a uniqueMember value at its first unescaped '#'. */
  function StripSuffix(v: string): string { v[..FirstUnescaped(v, '#')] }

  /** The DN a member value parses to, in the spelling it has there. */
  function ParsedDN(v: string, unique: bool): (d: Option<DN>)
    ensures d.Some? ==> WellFormed(d.value) && d.value != []
  {
    var t := if unique then StripSuffix(v) else v;
    var d := ParseDN(t);
    if d.None? then None
    else
      ParsedIsWellFormed(t);
      d
  }

  /** The name a member value stands for, whatever its spelling. */
  function NameOf(v: string, unique: bool): Option<Name> {
    var d := ParsedDN(v, unique);
    if d.None? then None else Canon(d.value)
  }

  /** No value holds a '#' behind its first byte; only there printing leaves it unescaped. */
  predicate HashSafe(n: DN) {
    forall i, j :: 0 <= i < |n| && 1 <= j < |n[i].value| ==> n[i].value[j] != '#'
  }

  /** A name's own text is read back as the name. */
  lemma NameOfKey(n: Name)
    requires n != []
    ensures NameOf(Key(n), false) == Some(n)
  {
    NameFacts(n);
    ParsePrintedDN(n);
  }

  /** Any DN's text is read back in its own spelling. */
  lemma NameOfText(d: DN)
    requires d != [] && WellFormed(d) && TabFree(d)
    ensures ParsedDN(String(d), false) == Some(d) && NameOf(String(d), false) == Canon(d)
  {
    ParsePrintedDN(d);
  }

  lemma {:induction false} EscapeHashClean(v: string, k: nat)
    requires k <= |v| && forall j :: 1 <= j < |v| ==> v[j] != '#'
    ensures Clean(EscapeUpTo(v, k), '#')
  {
    if k > 0 {
      EscapeHashClean(v, k - 1);
      var p := Piece(v, k - 1);
      assert Clean(p, '#') by {
        if p[0] == '\\' {
          assert |p| == 2 ==> p[2..] == "";
          assert |p| == 3 ==> p[2..] == "0" && Clean("0", '#');
        } else {
          assert p[1..] == "";
        }
      }
      hide Piece;
      CleanAppend(EscapeUpTo(v, k - 1), p, '#');
    }
  }

  lemma RdnHashClean(r: Rdn)
    requires WellFormedRdn(r) && forall j :: 1 <= j < |r.value| ==> r.value[j] != '#'
    ensures Clean(RdnText(r), '#')
  {
    EscapeHashClean(r.value, |r.value|);
    AttrChars(r.attr);
    PlainClean(r.attr, '#');
    assert Clean(['='], '#');
    hide Escape, ValidAttr;
    CleanAppend(['='], Escape(r.value), '#');
    CleanAppend(r.attr, ['='] + Escape(r.value), '#');
  }

  lemma {:induction false} KeyHashClean(n: DN)
    requires WellFormed(n) && HashSafe(n)
    ensures Clean(String(n), '#')
  {
    if n != [] {
      RdnHashClean(n[0]);
      assert Texts(n)[0] == RdnText(n[0]) && Texts(n)[1..] == Texts(n[1..]);
      if |n| > 1 {
        KeyHashClean(n[1..]);
        assert Clean([','], '#');
        hide RdnText;
        CleanAppend([','], String(n[1..]), '#');
        CleanAppend(RdnText(n[0]), [','] + String(n[1..]), '#');
      }
    }
  }

  /** As a uniqueMember value, with any bit-string suffix, a DN is read back in its spelling when it is hash-safe. */
  lemma NameOfTagged(d: DN, tail: string)
    requires d != [] && WellFormed(d) && TabFree(d) && HashSafe(d) && (tail == "" || tail[0] == '#')
    ensures ParsedDN(String(d) + tail, true) == Some(d) && NameOf(String(d) + tail, true) == Canon(d)
  {
    KeyHashClean(d);
    NameOfText(d);
    CleanIndex(String(d), tail, '#');
    hide FirstUnescaped, Clean, HashSafe, String, Canon, ParseDN, WellFormed, TabFree;
    assert (String(d) + tail)[..|String(d)|] == String(d);
    assert StripSuffix(String(d) + tail) == String(d) by {
      TagStart(tail);
    }
  }

  lemma TagStart(tail: string)
    requires tail == "" || tail[0] == '#'
    ensures FirstUnescaped(tail, '#') == 0
  {
  }

  lemma HashSampleText()
    ensures Escape("x#") == "x#" && Escape("x") == "x"
    ensures ValidUtf8("x#") && Lower("x#") == "x#" && ValidUtf8("x") && Lower("x") == "x"
  {
    assert EscapeUpTo("x#", 1) == "x";
    assert EscapeUpTo("x#", 2) == "x#";
    assert EscapeUpTo("x", 1) == "x";
    assert "x#"[1..] == "#" && ValidUtf8("#") && ValidUtf8("x");
  }

  lemma HashSampleNames() returns (n: Name, m: Name)
    ensures n != [] && m != [] && n != m && !HashSafe(n)
    ensures n == [Rdn("a", "x#")] && m == [Rdn("a", "x")]
    ensures Key(n) == "a=x#" && Key(m) == "a=x"
  {
    n := SampleName("x#");
    m := SampleName("x");
    hide Key, Canonical;
    assert n[0].value[1] == '#' && n[0].value != m[0].value;
    assert "a" + (['='] + "x#") == "a=x#" && "a" + (['='] + "x") == "a=x";
  }

  lemma SampleName(v: string) returns (n: Name)
    requires v == "x#" || v == "x"
    ensures n == [Rdn("a", v)] && Key(n) == "a" + (['='] + v)
  {
    HashSampleText();
    assert Lower("a") == "a";
    n := [Rdn("a", v)];
    SampleKey(n, n[0], "a", v);
  }

  /** Without hash safety it is not: "a=x#" written as a uniqueMember value names "a=x". */
  lemma HashIsLost() returns (n: Name)
    ensures n != [] && !HashSafe(n) && NameOf(Key(n), false) == Some(n) && NameOf(Key(n), true) != Some(n)
  {
    var m;
    n, m := HashSampleNames();
    NameOfKey(n);
    NameOfKey(m);
    HashCut();
    hide NameOf, StripSuffix, Key, HashSafe;
    SameCut("a=x#", "a=x");
  }

  lemma HashCut()
    ensures StripSuffix("a=x#") == "a=x"
  {
    var s := "a=x#";
    assert s[1..] == "=x#" && s[1..][1..] == "x#" && s[1..][1..][1..] == "#";
    assert FirstUnescaped("#", '#') == 0;
    assert FirstUnescaped("x#", '#') == 1;
    assert FirstUnescaped("=x#", '#') == 2;
  }

  lemma SameCut(v: string, w: string)
    requires StripSuffix(v) == w
    ensures NameOf(v, true) == NameOf(w, false)
  {
  }

  // ---------------------------------------------------------------------------
  // Reading entries
  // ---------------------------------------------------------------------------

  /** The values of the first attribute with that name, names compared without case. */
  function ValuesOf(attrs: seq<Attr>, name: string): seq<string> {
    if attrs == [] then []
    else if EqualFold(attrs[0].name, name) then attrs[0].values
    else ValuesOf(attrs[1..], name)
  }

  function Values(e: Entry, name: string): seq<string> { ValuesOf(e.attrs, name) }

  /** No two attributes share a name. */
  predicate Distinct(attrs: seq<Attr>) {
    forall i, j :: 0 <= i < j < |attrs| ==> !EqualFold(attrs[i].name, attrs[j].name)
  }

  function NamesIn(vs: seq<string>, unique: bool): set<Name> {
    set v | v in vs && NameOf(v, unique).Some? :: NameOf(v, unique).value
  }

  /** What a group entry lists, through member and through uniqueMember. */
  function MemberNames(e: Entry): set<Name> {
    NamesIn(Values(e, "member"), false) + NamesIn(Values(e, "uniqueMember"), true)
  }

  /** The stored memberOf set. */
  function MemberOfNames(e: Entry): set<Name> { NamesIn(Values(e, "memberOf"), false) }

  predicate HasClass(e: Entry, class_: string) {
    exists i :: 0 <= i < |Values(e, "objectClass")| && EqualFold(Values(e, "objectClass")[i], class_)
  }

  predicate IsGroup(e: Entry) { HasClass(e, "groupOfNames") || HasClass(e, "groupOfUniqueNames") }

  function Elements<T>(s: seq<T>): set<T> { set x | x in s }

  lemma ElementsSnoc<T>(s: seq<T>, x: T)
    ensures Elements(s + [x]) == Elements(s) + {x}
  {
  }

  // ---------------------------------------------------------------------------
  // References
  // ---------------------------------------------------------------------------

  /** A reference to an entry: whom it names, and in which spelling. */
  datatype Ref = Ref(name: Name, dn: DN)

  /** dn is a spelling of name. */
  ghost predicate Spells(r: Ref) { WellFormed(r.dn) && Canon(r.dn) == Some(r.name) }

  function RefOf(v: string, unique: bool): Option<Ref> {
    if NameOf(v, unique).None? then None else Some(Ref(NameOf(v, unique).value, ParsedDN(v, unique).value))
  }

  /** The first value that names n, with its spelling. */
  function FirstRef(vs: seq<string>, unique: bool, n: Name): Option<Ref> {
    if vs == [] then None
    else if NameOf(vs[0], unique) == Some(n) then RefOf(vs[0], unique)
    else FirstRef(vs[1..], unique, n)
  }

  lemma {:induction false} FirstRefFacts(vs: seq<string>, unique: bool, n: Name)
    ensures FirstRef(vs, unique, n).Some? <==> n in NamesIn(vs, unique)
    ensures FirstRef(vs, unique, n).Some? ==>
              FirstRef(vs, unique, n).value.name == n && Spells(FirstRef(vs, unique, n).value)
  {
    if vs == [] {
    } else if NameOf(vs[0], unique) == Some(n) {
      assert vs[0] in vs;
    } else {
      FirstRefFacts(vs[1..], unique, n);
      hide NameOf, Spells, Canonical;
      assert forall v :: v in vs ==> v == vs[0] || v in vs[1..];
    }
  }

  /** How a group entry refers to n: by the first value that names it, member before uniqueMember. */
  function RefTo(e: Entry, n: Name): Option<Ref> {
    var r := FirstRef(Values(e, "member"), false, n);
    if r.Some? then r else FirstRef(Values(e, "uniqueMember"), true, n)
  }

  lemma RefToFacts(e: Entry, n: Name)
    ensures RefTo(e, n).Some? <==> n in MemberNames(e)
    ensures RefTo(e, n).Some? ==> RefTo(e, n).value.name == n && Spells(RefTo(e, n).value)
  {
    hide NamesIn, FirstRef, Spells, Canonical;
    FirstRefFacts(Values(e, "member"), false, n);
    FirstRefFacts(Values(e, "uniqueMember"), true, n);
  }

  /** r is among what memberDNs lists. */
  ghost predicate Refers(e: Entry, r: Ref) { RefTo(e, r.name) == Some(r) }

  /** memberDNs, from what is listed already: values that name nothing, or what is listed, are skipped. */
  function ListRefs(before: seq<Ref>, vs: seq<string>, unique: bool): seq<Ref>
    decreases |vs|
  {
    if vs == [] then before
    else
      var r := RefOf(vs[0], unique);
      ListRefs(if r.None? || HasRef(before, r.value.name) then before else before + [r.value], vs[1..], unique)
  }

  predicate HasRef(rs: seq<Ref>, n: Name) { exists i :: 0 <= i < |rs| && rs[i].name == n }

  lemma {:induction false} ListRefsFacts(before: seq<Ref>, vs: seq<string>, unique: bool, r: Ref)
    ensures r in ListRefs(before, vs, unique) <==>
              r in before || (!HasRef(before, r.name) && FirstRef(vs, unique, r.name) == Some(r))
    decreases |vs|
  {
    if vs != [] {
      var q := RefOf(vs[0], unique);
      var more := if q.None? || HasRef(before, q.value.name) then before else before + [q.value];
      ListRefsFacts(more, vs[1..], unique, r);
      hide NameOf, ListRefs, Canonical;
      if more != before {
        assert more[|before|] == q.value && forall i :: 0 <= i < |before| ==> more[i] == before[i];
        assert HasRef(more, r.name) <==> HasRef(before, r.name) || r.name == q.value.name;
      }
    }
  }

  lemma {:induction false} ListRefsDistinct(before: seq<Ref>, vs: seq<string>, unique: bool)
    requires forall i, j :: 0 <= i < j < |before| ==> before[i].name != before[j].name
    ensures var rs := ListRefs(before, vs, unique); forall i, j :: 0 <= i < j < |rs| ==> rs[i].name != rs[j].name
    decreases |vs|
  {
    hide NameOf, Canonical;
    if vs == [] {
      assert ListRefs(before, vs, unique) == before;
    } else {
      var q := RefOf(vs[0], unique);
      var more := if q.None? || HasRef(before, q.value.name) then before else before + [q.value];
      ListRefsDistinct(more, vs[1..], unique);
      assert ListRefs(before, vs, unique) == ListRefs(more, vs[1..], unique);
    }
  }

  /** memberDNs: one reference for every name, in list order, member before uniqueMember. */
  method MemberDNs(e: Entry) returns (out: seq<Ref>)
    ensures forall r :: r in out <==> Refers(e, r)
    ensures forall i, j :: 0 <= i < j < |out| ==> out[i].name != out[j].name
  {
    var members := AppendRefs([], Values(e, "member"), false);
    ListRefsDistinct([], Values(e, "member"), false);
    out := AppendRefs(members, Values(e, "uniqueMember"), true);
    ListRefsDistinct(members, Values(e, "uniqueMember"), true);
    hide ListRefs, FirstRef, Canonical;
    forall r ensures r in out <==> Refers(e, r) {
      ListRefsFacts([], Values(e, "member"), false, r);
      ListRefsFacts(members, Values(e, "uniqueMember"), true, r);
      ListedFirst(members, Values(e, "member"), r.name);
    }
  }

  lemma ListedFirst(rs: seq<Ref>, vs: seq<string>, n: Name)
    requires rs == ListRefs([], vs, false)
    ensures HasRef(rs, n) <==> FirstRef(vs, false, n).Some?
  {
    hide ListRefs, NamesIn, Spells, Canonical, FirstRef;
    FirstRefFacts(vs, false, n);
    if FirstRef(vs, false, n).Some? {
      ListRefsFacts([], vs, false, FirstRef(vs, false, n).value);
    }
    if HasRef(rs, n) {
      var i :| 0 <= i < |rs| && rs[i].name == n;
      ListRefsFacts([], vs, false, rs[i]);
      assert rs[i] in rs;
    }
  }

  /** One attribute's share of memberDNs. */
  method AppendRefs(before: seq<Ref>, vs: seq<string>, unique: bool) returns (out: seq<Ref>)
    ensures out == ListRefs(before, vs, unique)
  {
    out := before;
    hide NameOf, Canonical;
    assert vs[0..] == vs;
    for k := 0 to |vs|
      invariant ListRefs(out, vs[k..], unique) == ListRefs(before, vs, unique)
    {
      assert vs[k..][0] == vs[k] && vs[k..][1..] == vs[k + 1..];
      var r := RefOf(vs[k], unique);
      if r.None? || HasRef(out, r.value.name) {
        continue;
      }
      out := out + [r.value];
    }
    assert vs[|vs|..] == [];
  }

  lemma NamesInNone(unique: bool)
    ensures NamesIn([], unique) == {}
  {
  }

  lemma NamesInSnoc(vs: seq<string>, v: string, unique: bool)
    ensures NamesIn(vs + [v], unique) ==
            NamesIn(vs, unique) + if NameOf(v, unique).Some? then {NameOf(v, unique).value} else {}
  {
    hide NameOf;
  }

  // ---------------------------------------------------------------------------
  // Editing attributes
  // ---------------------------------------------------------------------------

  /** Index of the first attribute with that name, |attrs| when there is none. */
  function IndexOf(attrs: seq<Attr>, name: string): (i: nat)
    ensures i <= |attrs|
    ensures i < |attrs| ==> EqualFold(attrs[i].name, name)
    ensures forall k :: 0 <= k < i ==> !EqualFold(attrs[k].name, name)
  {
    if attrs == [] then 0
    else if EqualFold(attrs[0].name, name) then 0
    else 1 + IndexOf(attrs[1..], name)
  }

  lemma {:induction false} ValuesAtIndex(attrs: seq<Attr>, name: string)
    ensures ValuesOf(attrs, name) == if IndexOf(attrs, name) < |attrs| then attrs[IndexOf(attrs, name)].values else []
  {
    if attrs != [] && !EqualFold(attrs[0].name, name) {
      ValuesAtIndex(attrs[1..], name);
    }
  }

  /** setAttr: replaces, creates, or with no values removes the attribute. */
  function SetAttr(e: Entry, name: string, values: seq<string>): Entry {
    var i := IndexOf(e.attrs, name);
    if values == [] then
      if i < |e.attrs| then e.(attrs := e.attrs[..i] + e.attrs[i + 1..]) else e
    else if i == |e.attrs| then e.(attrs := e.attrs + [Attr(name, values)])
    else e.(attrs := e.attrs[i := e.attrs[i].(values := values)])
  }

  lemma {:induction false} ValuesSkip(attrs: seq<Attr>, i: nat, name: string)
    requires i <= |attrs| && forall k :: 0 <= k < i ==> !EqualFold(attrs[k].name, name)
    ensures ValuesOf(attrs, name) == ValuesOf(attrs[i..], name)
  {
    if i > 0 {
      ValuesSkip(attrs[1..], i - 1, name);
      assert attrs[1..][i - 1..] == attrs[i..];
    } else {
      assert attrs[0..] == attrs;
    }
  }

  lemma {:induction false} ValuesAbsent(attrs: seq<Attr>, name: string)
    requires forall k :: 0 <= k < |attrs| ==> !EqualFold(attrs[k].name, name)
    ensures ValuesOf(attrs, name) == []
  {
    if attrs != [] {
      ValuesAbsent(attrs[1..], name);
    }
  }

  /** Changing one attribute in any way leaves the values of every other name alone. */
  lemma {:induction false} ValuesElsewhere(pre: seq<Attr>, mid: seq<Attr>, mid': seq<Attr>, post: seq<Attr>,
      name: string)
    requires forall k :: 0 <= k < |mid| ==> !EqualFold(mid[k].name, name)
    requires forall k :: 0 <= k < |mid'| ==> !EqualFold(mid'[k].name, name)
    ensures ValuesOf(pre + mid + post, name) == ValuesOf(pre + mid' + post, name)
  {
    if pre != [] {
      ValuesElsewhere(pre[1..], mid, mid', post, name);
      assert (pre + mid + post)[1..] == pre[1..] + mid + post;
      assert (pre + mid' + post)[1..] == pre[1..] + mid' + post;
      assert (pre + mid + post)[0] == pre[0] == (pre + mid' + post)[0];
    } else {
      ValuesSkip(mid + post, |mid|, name);
      ValuesSkip(mid' + post, |mid'|, name);
      assert (mid + post)[|mid|..] == post && (mid' + post)[|mid'|..] == post;
      assert [] + mid + post == mid + post && [] + mid' + post == mid' + post;
    }
  }

  lemma LaterDiffer(attrs: seq<Attr>, name: string)
    requires Distinct(attrs)
    ensures var i := IndexOf(attrs, name); forall k :: i < k < |attrs| ==> !EqualFold(attrs[k].name, name)
  {
  }

  /** How setAttr rewrites the list: the attribute's place between the attributes before and after it. */
  lemma SetAttrShape(e: Entry, name: string, values: seq<string>)
      returns (pre: seq<Attr>, mid: seq<Attr>, mid': seq<Attr>, post: seq<Attr>)
    requires Distinct(e.attrs)
    ensures e.attrs == pre + mid + post && SetAttr(e, name, values).attrs == pre + mid' + post
    ensures |mid| <= 1 && forall k :: 0 <= k < |mid| ==> EqualFold(mid[k].name, name)
    ensures values == [] ==> mid' == []
    ensures values != [] ==> |mid'| == 1 && EqualFold(mid'[0].name, name) && mid'[0].values == values
    ensures mid == [] ==> post == []
    ensures forall k :: 0 <= k < |pre| ==> !EqualFold(pre[k].name, name)
    ensures forall k :: 0 <= k < |post| ==> !EqualFold(post[k].name, name)
  {
    LaterDiffer(e.attrs, name);
    FoldReflexive(name);
    hide EqualFold, Distinct;
    var i := IndexOf(e.attrs, name);
    pre := e.attrs[..i];
    if i < |e.attrs| {
      post, mid := e.attrs[i + 1..], [e.attrs[i]];
      mid' := if values == [] then [] else [e.attrs[i].(values := values)];
      assert e.attrs == pre + mid + post;
      assert SetAttr(e, name, values).attrs == pre + mid' + post;
      forall k | 0 <= k < |post| ensures !EqualFold(post[k].name, name) {
        assert post[k] == e.attrs[i + 1 + k];
      }
    } else {
      post, mid := [], [];
      mid' := if values == [] then [] else [Attr(name, values)];
      assert pre == e.attrs && pre + mid + post == e.attrs;
    }
  }

  lemma DistinctReplaced(pre: seq<Attr>, mid: seq<Attr>, mid': seq<Attr>, post: seq<Attr>, name: string)
    requires Distinct(pre + mid + post) && |mid| <= 1 && |mid'| <= 1
    requires forall k :: 0 <= k < |pre| ==> !EqualFold(pre[k].name, name)
    requires forall k :: 0 <= k < |post| ==> !EqualFold(post[k].name, name)
    requires forall k :: 0 <= k < |mid'| ==> EqualFold(mid'[k].name, name)
    ensures Distinct(pre + mid' + post)
  {
    var a, a' := pre + mid + post, pre + mid' + post;
    forall i, j | 0 <= i < j < |a'| ensures !EqualFold(a'[i].name, a'[j].name) {
      var shift := |mid| - |mid'|;
      var i0 := if i < |pre| then i else i + shift;
      var j0 := if j < |pre| then j else j + shift;
      if i < |pre| && j >= |pre| + |mid'| {
        assert a[i] == a'[i] && a[j0] == a'[j];
      } else if j < |pre| {
        assert a[i] == a'[i] && a[j] == a'[j];
      } else if i >= |pre| + |mid'| {
        assert a[i0] == a'[i] && a[j0] == a'[j];
      } else if i < |pre| {
        assert a'[i] == pre[i] && a'[j] == mid'[0];
      } else {
        assert a'[i] == mid'[0] && a'[j] == post[j - |pre| - |mid'|];
      }
    }
  }

  /** setAttr sets the values of its attribute, touches no other, and keeps names distinct. */
  lemma SetAttrValues(e: Entry, name: string, values: seq<string>, other: string)
    requires Distinct(e.attrs)
    ensures Distinct(SetAttr(e, name, values).attrs)
    ensures Values(SetAttr(e, name, values), name) == values
    ensures !EqualFold(name, other) ==> Values(SetAttr(e, name, values), other) == Values(e, other)
    ensures SetAttr(e, name, values).dn == e.dn
  {
    var pre, mid, mid', post := SetAttrShape(e, name, values);
    hide SetAttr, EqualFold;
    DistinctReplaced(pre, mid, mid', post, name);
    if !EqualFold(name, other) {
      forall k | 0 <= k < |mid| ensures !EqualFold(mid[k].name, other) { FoldTransitive(mid[k].name, name, other); }
      forall k | 0 <= k < |mid'| ensures !EqualFold(mid'[k].name, other) { FoldTransitive(mid'[k].name, name, other); }
      ValuesElsewhere(pre, mid, mid', post, other);
    }
    hide Distinct;
    ValuesReplaced(pre, mid', post, name);
  }

  lemma FoldReflexive(a: string)
    ensures EqualFold(a, a)
  {
  }

  lemma FoldTransitive(a: string, b: string, c: string)
    ensures EqualFold(a, b) ==> (EqualFold(a, c) <==> EqualFold(b, c))
  {
  }

  lemma ValuesReplaced(pre: seq<Attr>, mid: seq<Attr>, post: seq<Attr>, name: string)
    requires |mid| <= 1
    requires forall k :: 0 <= k < |pre| ==> !EqualFold(pre[k].name, name)
    requires forall k :: 0 <= k < |post| ==> !EqualFold(post[k].name, name)
    requires forall k :: 0 <= k < |mid| ==> EqualFold(mid[k].name, name)
    ensures ValuesOf(pre + mid + post, name) == if mid == [] then [] else mid[0].values
  {
    hide EqualFold;
    ValuesSkip(pre + mid + post, |pre|, name);
    assert (pre + mid + post)[|pre|..] == mid + post;
    if mid == [] {
      assert mid + post == post;
      ValuesAbsent(post, name);
    }
  }

  /** ensureObjectClass. */
  function EnsureClass(e: Entry, class_: string): Entry {
    if HasClass(e, class_) then e
    else SetAttr(e, "objectClass", Values(e, "objectClass") + [class_])
  }

  function WithoutClass(vs: seq<string>, class_: string): seq<string> {
    if vs == [] then []
    else if EqualFold(vs[0], class_) then WithoutClass(vs[1..], class_)
    else [vs[0]] + WithoutClass(vs[1..], class_)
  }

  /** removeObjectClass keeps the attribute even when no value is left. */
  function RemoveClass(e: Entry, class_: string): Entry {
    var i := IndexOf(e.attrs, "objectClass");
    if i == |e.attrs| then e
    else e.(attrs := e.attrs[i := e.attrs[i].(values := WithoutClass(e.attrs[i].values, class_))])
  }

  lemma {:induction false} WithoutClassKeeps(vs: seq<string>, class_: string, other: string)
    requires !EqualFold(class_, other)
    ensures (exists i :: 0 <= i < |vs| && EqualFold(vs[i], other)) <==>
            (exists i :: 0 <= i < |WithoutClass(vs, class_)| && EqualFold(WithoutClass(vs, class_)[i], other))
    ensures forall i :: 0 <= i < |WithoutClass(vs, class_)| ==> !EqualFold(WithoutClass(vs, class_)[i], class_)
  {
    if vs != [] {
      WithoutClassKeeps(vs[1..], class_, other);
      var w, w' := WithoutClass(vs, class_), WithoutClass(vs[1..], class_);
      if i :| 0 <= i < |vs| && EqualFold(vs[i], other) {
        if i > 0 {
          assert EqualFold(vs[1..][i - 1], other);
          var j :| 0 <= j < |w'| && EqualFold(w'[j], other);
          assert !EqualFold(vs[0], class_) ==> w[j + 1] == w'[j];
        } else {
          assert w[0] == vs[0];
        }
      }
      if i :| 0 <= i < |w| && EqualFold(w[i], other) {
        if EqualFold(vs[0], class_) {
          var j :| 0 <= j < |vs[1..]| && EqualFold(vs[1..][j], other);
          assert vs[j + 1] == vs[1..][j];
        } else if i > 0 {
          assert w'[i - 1] == w[i];
          var j :| 0 <= j < |vs[1..]| && EqualFold(vs[1..][j], other);
          assert vs[j + 1] == vs[1..][j];
        } else {
          assert vs[0] == w[0];
        }
      }
    }
  }

  /** What an entry's object classes are apart from one. */
  function OtherClasses(e: Entry, class_: string): seq<string> { WithoutClass(Values(e, "objectClass"), class_) }

  lemma {:induction false} WithoutClassAppended(vs: seq<string>, class_: string)
    ensures WithoutClass(vs + [class_], class_) == WithoutClass(vs, class_)
  {
    if vs == [] {
      assert [] + [class_] == [class_] && [class_][1..] == [];
    } else {
      WithoutClassAppended(vs[1..], class_);
      assert (vs + [class_])[1..] == vs[1..] + [class_];
    }
  }

  lemma {:induction false} WithoutClassTwice(vs: seq<string>, class_: string)
    ensures WithoutClass(WithoutClass(vs, class_), class_) == WithoutClass(vs, class_)
  {
    if vs != [] {
      WithoutClassTwice(vs[1..], class_);
      var w := WithoutClass(vs[1..], class_);
      assert ([vs[0]] + w)[1..] == w;
    }
  }

  lemma RemoveClassValues(e: Entry, class_: string)
    ensures Values(RemoveClass(e, class_), "objectClass") == OtherClasses(e, class_)
  {
    hide EqualFold;
    var i := IndexOf(e.attrs, "objectClass");
    ValuesAtIndex(e.attrs, "objectClass");
    if i < |e.attrs| {
      var a' := RemoveClass(e, class_).attrs;
      ValuesSkip(a', i, "objectClass");
      assert a'[i..][0] == a'[i];
    }
  }

  lemma RemoveClassFacts(e: Entry, class_: string, other: string)
    requires Distinct(e.attrs) && !EqualFold(class_, other)
    ensures var e' := RemoveClass(e, class_);
      && Distinct(e'.attrs) && e'.dn == e.dn && !HasClass(e', class_)
      && (HasClass(e', other) <==> HasClass(e, other))
  {
    WithoutClassKeeps(Values(e, "objectClass"), class_, other);
    RemoveClassValues(e, class_);
  }

  /** Adding or removing an object class leaves the other ones as they are. */
  lemma RemoveClassOthers(e: Entry, class_: string)
    ensures OtherClasses(RemoveClass(e, class_), class_) == OtherClasses(e, class_)
  {
    RemoveClassValues(e, class_);
    WithoutClassTwice(Values(e, "objectClass"), class_);
  }

  lemma EnsureClassOthers(e: Entry, class_: string)
    requires Distinct(e.attrs)
    ensures OtherClasses(EnsureClass(e, class_), class_) == OtherClasses(e, class_)
  {
    if !HasClass(e, class_) {
      SetAttrValues(e, "objectClass", Values(e, "objectClass") + [class_], "objectClass");
      WithoutClassAppended(Values(e, "objectClass"), class_);
    }
  }

  lemma RemoveClassElsewhere(e: Entry, class_: string, name: string)
    requires !EqualFold("objectClass", name)
    ensures Values(RemoveClass(e, class_), name) == Values(e, name)
  {
    var i := IndexOf(e.attrs, "objectClass");
    if i < |e.attrs| {
      var a, a' := e.attrs, RemoveClass(e, class_).attrs;
      assert a == a[..i] + [a[i]] + a[i + 1..];
      assert a' == a[..i] + [a'[i]] + a[i + 1..];
      ValuesElsewhere(a[..i], [a[i]], [a'[i]], a[i + 1..], name);
    }
  }

  lemma EnsureClassFacts(e: Entry, class_: string, other: string)
    requires Distinct(e.attrs) && !EqualFold(class_, other)
    ensures var e' := EnsureClass(e, class_);
      && Distinct(e'.attrs) && e'.dn == e.dn && HasClass(e', class_)
      && (HasClass(e', other) <==> HasClass(e, other))
  {
    var vs := Values(e, "objectClass");
    if !HasClass(e, class_) {
      SetAttrValues(e, "objectClass", vs + [class_], "objectClass");
      var ws := vs + [class_];
      assert ws[|vs|] == class_;
      if i :| 0 <= i < |vs| && EqualFold(vs[i], other) {
        assert ws[i] == vs[i];
      }
    }
  }

  lemma EnsureClassElsewhere(e: Entry, class_: string, name: string)
    requires Distinct(e.attrs) && !EqualFold("objectClass", name)
    ensures Values(EnsureClass(e, class_), name) == Values(e, name)
  {
    if !HasClass(e, class_) {
      SetAttrValues(e, "objectClass", Values(e, "objectClass") + [class_], name);
    }
  }

  /** What recompute writes: the given memberOf values, and nsmemberof exactly when there are any. */
  function WithMemberOf(e: Entry, values: seq<string>): Entry {
    var e1 := SetAttr(e, "memberOf", values);
    if values != [] then EnsureClass(e1, "nsmemberof") else RemoveClass(e1, "nsmemberof")
  }

  lemma NamesDiffer()
    ensures !EqualFold("memberOf", "member") && !EqualFold("memberOf", "uniqueMember")
    ensures !EqualFold("memberOf", "objectClass") && !EqualFold("objectClass", "memberOf")
    ensures !EqualFold("objectClass", "member") && !EqualFold("objectClass", "uniqueMember")
    ensures !EqualFold("nsmemberof", "groupOfNames") && !EqualFold("nsmemberof", "groupOfUniqueNames")
    ensures !EqualFold("member", "uniqueMember") && !EqualFold("uniqueMember", "member")
    ensures !EqualFold("member", "memberOf") && !EqualFold("uniqueMember", "memberOf")
    ensures !EqualFold("member", "objectClass") && !EqualFold("uniqueMember", "objectClass")
  {
    assert |Lower("memberOf")| == 8 && |Lower("member")| == 6 && |Lower("uniqueMember")| == 12;
    assert |Lower("objectClass")| == 11;
    assert |Lower("nsmemberof")| == 10 && |Lower("groupOfNames")| == 12 && |Lower("groupOfUniqueNames")| == 18;
  }

  /** e' has e's values in every attribute but the two named. */
  ghost predicate KeepsBut(e: Entry, e': Entry, a: string, b: string) {
    forall name :: !EqualFold(a, name) && !EqualFold(b, name) ==> Values(e', name) == Values(e, name)
  }

  /** Writing memberOf sets its values, adds or removes the class nsmemberof, and changes nothing else. */
  lemma WithMemberOfFacts(e: Entry, values: seq<string>)
    requires Distinct(e.attrs)
    ensures var e' := WithMemberOf(e, values);
      && Distinct(e'.attrs) && e'.dn == e.dn
      && Values(e', "memberOf") == values
      && KeepsBut(e, e', "memberOf", "objectClass")
      && OtherClasses(e', "nsmemberof") == OtherClasses(e, "nsmemberof")
      && (IsGroup(e') <==> IsGroup(e))
      && (HasClass(e', "nsmemberof") <==> values != [])
  {
    NamesDiffer();
    hide EqualFold;
    var e1 := SetAttr(e, "memberOf", values);
    SetAttrValues(e, "memberOf", values, "objectClass");
    hide SetAttr, ValuesOf;
    if values != [] {
      EnsureClassFacts(e1, "nsmemberof", "groupOfNames");
      EnsureClassFacts(e1, "nsmemberof", "groupOfUniqueNames");
      EnsureClassElsewhere(e1, "nsmemberof", "memberOf");
      EnsureClassOthers(e1, "nsmemberof");
    } else {
      RemoveClassFacts(e1, "nsmemberof", "groupOfNames");
      RemoveClassFacts(e1, "nsmemberof", "groupOfUniqueNames");
      RemoveClassElsewhere(e1, "nsmemberof", "memberOf");
      RemoveClassOthers(e1, "nsmemberof");
    }
    WithMemberOfKeeps(e, values);
  }

  lemma WithMemberOfKeeps(e: Entry, values: seq<string>)
    requires Distinct(e.attrs)
    ensures KeepsBut(e, WithMemberOf(e, values), "memberOf", "objectClass")
  {
    hide EqualFold, SetAttr, ValuesOf, EnsureClass, RemoveClass;
    var e1 := SetAttr(e, "memberOf", values);
    forall name | !EqualFold("memberOf", name) && !EqualFold("objectClass", name)
      ensures Values(WithMemberOf(e, values), name) == Values(e, name)
    {
      SetAttrValues(e, "memberOf", values, name);
      if values != [] {
        EnsureClassElsewhere(e1, "nsmemberof", name);
      } else {
        RemoveClassElsewhere(e1, "nsmemberof", name);
      }
    }
  }

  // ---------------------------------------------------------------------------
  // Repairing member values
  // ---------------------------------------------------------------------------

  type Keep = (string, bool) -> bool
  type Rewrite = (string, bool) -> string

  predicate IsMemberAttr(a: Attr) { EqualFold(a.name, "member") || EqualFold(a.name, "uniqueMember") }

  predicate IsUnique(a: Attr) { EqualFold(a.name, "uniqueMember") }

  function KeepValues(vs: seq<string>, keep: Keep, unique: bool): seq<string> {
    if vs == [] then []
    else (if keep(vs[0], unique) then [vs[0]] else []) + KeepValues(vs[1..], keep, unique)
  }

  /** Member values that fail keep are gone, and so is an attribute left without values. */
  function FilterMembers(attrs: seq<Attr>, keep: Keep): seq<Attr> {
    if attrs == [] then []
    else
      var a, rest := attrs[0], FilterMembers(attrs[1..], keep);
      if !IsMemberAttr(a) then [a] + rest
      else
        var kept := KeepValues(a.values, keep, IsUnique(a));
        if kept == [] then rest else [a.(values := kept)] + rest
  }

  function MapValues(vs: seq<string>, f: Rewrite, unique: bool): (r: seq<string>)
    ensures |r| == |vs|
  {
    seq(|vs|, i requires 0 <= i < |vs| => f(vs[i], unique))
  }

  function MapAttr(a: Attr, f: Rewrite): Attr {
    if IsMemberAttr(a) then a.(values := MapValues(a.values, f, IsUnique(a))) else a
  }

  function MapMembers(attrs: seq<Attr>, f: Rewrite): (r: seq<Attr>)
    ensures |r| == |attrs|
  {
    seq(|attrs|, i requires 0 <= i < |attrs| => MapAttr(attrs[i], f))
  }

  predicate DropsFrom(a: Attr, keep: Keep) {
    IsMemberAttr(a) && exists j :: 0 <= j < |a.values| && !keep(a.values[j], IsUnique(a))
  }

  /** Some member value fails keep. */
  predicate DropsSome(attrs: seq<Attr>, keep: Keep) {
    exists i :: 0 <= i < |attrs| && DropsFrom(attrs[i], keep)
  }

  lemma {:induction false} KeepValuesAll(vs: seq<string>, keep: Keep, unique: bool)
    ensures |KeepValues(vs, keep, unique)| <= |vs|
    ensures |KeepValues(vs, keep, unique)| == |vs| <==> forall j :: 0 <= j < |vs| ==> keep(vs[j], unique)
  {
    if vs != [] {
      KeepValuesAll(vs[1..], keep, unique);
      if keep(vs[0], unique) && forall j :: 0 <= j < |vs[1..]| ==> keep(vs[1..][j], unique) {
        forall j | 0 <= j < |vs| ensures keep(vs[j], unique) {
          if j > 0 { assert vs[j] == vs[1..][j - 1]; }
        }
      }
      if forall j :: 0 <= j < |vs| ==> keep(vs[j], unique) {
        forall j | 0 <= j < |vs[1..]| ensures keep(vs[1..][j], unique) {
          assert vs[1..][j] == vs[j + 1];
        }
      }
    }
  }

  lemma {:induction false} KeepValuesSnoc(vs: seq<string>, v: string, keep: Keep, unique: bool)
    ensures KeepValues(vs + [v], keep, unique) ==
            KeepValues(vs, keep, unique) + if keep(v, unique) then [v] else []
  {
    if vs == [] {
      assert vs + [v] == [v] && [v][1..] == [];
    } else {
      KeepValuesSnoc(vs[1..], v, keep, unique);
      assert (vs + [v])[1..] == vs[1..] + [v];
    }
  }

  lemma {:induction false} FilterMembersSnoc(attrs: seq<Attr>, a: Attr, keep: Keep)
    ensures FilterMembers(attrs + [a], keep) == FilterMembers(attrs, keep) + FilterMembers([a], keep)
  {
    hide IsMemberAttr, IsUnique, KeepValues;
    if attrs == [] {
      assert attrs + [a] == [a];
    } else {
      FilterMembersSnoc(attrs[1..], a, keep);
      assert (attrs + [a])[1..] == attrs[1..] + [a];
    }
  }

  method FilterValues(vs: seq<string>, keep: Keep, unique: bool) returns (kept: seq<string>)
    ensures kept == KeepValues(vs, keep, unique)
  {
    kept := [];
    for j := 0 to |vs|
      invariant kept == KeepValues(vs[..j], keep, unique)
    {
      KeepValuesSnoc(vs[..j], vs[j], keep, unique);
      assert vs[..j + 1] == vs[..j] + [vs[j]];
      if keep(vs[j], unique) {
        kept := kept + [vs[j]];
      }
    }
    assert vs[..|vs|] == vs;
  }

  function FilterOne(a: Attr, keep: Keep): seq<Attr> {
    if !IsMemberAttr(a) then [a]
    else
      var kept := KeepValues(a.values, keep, IsUnique(a));
      if kept == [] then [] else [a.(values := kept)]
  }

  lemma FilterOneStep(attrs: seq<Attr>, i: nat, keep: Keep)
    requires i < |attrs|
    ensures FilterMembers(attrs[..i + 1], keep) == FilterMembers(attrs[..i], keep) + FilterOne(attrs[i], keep)
    ensures DropsSome(attrs[..i + 1], keep) <==> (DropsSome(attrs[..i], keep) || DropsFrom(attrs[i], keep))
  {
    FilterMembersSnoc(attrs[..i], attrs[i], keep);
    DropsSomeSnoc(attrs[..i], attrs[i], keep);
    assert attrs[..i + 1] == attrs[..i] + [attrs[i]];
    assert [attrs[i]][1..] == [];
  }

  /** filterMemberValues: compacts the attribute list, and reports whether a value was dropped. */
  method FilterMemberValues(e: Entry, keep: Keep) returns (r: Entry, changed: bool)
    ensures changed <==> DropsSome(e.attrs, keep)
    ensures r == if changed then e.(attrs := FilterMembers(e.attrs, keep)) else e
  {
    changed := false;
    var attrs: seq<Attr> := [];
    for i := 0 to |e.attrs|
      invariant attrs == FilterMembers(e.attrs[..i], keep)
      invariant changed <==> DropsSome(e.attrs[..i], keep)
    {
      var a := e.attrs[i];
      FilterOneStep(e.attrs, i, keep);
      hide FilterMembers, DropsSome;
      if !IsMemberAttr(a) {
        attrs := attrs + [a];
        continue;
      }
      var kept := FilterValues(a.values, keep, IsUnique(a));
      KeepValuesAll(a.values, keep, IsUnique(a));
      if |kept| != |a.values| {
        changed := true;
      }
      if |kept| == 0 {
        continue;
      }
      attrs := attrs + [Attr(a.name, kept)];
    }
    assert e.attrs[..|e.attrs|] == e.attrs;
    r := if changed then e.(attrs := attrs) else e;
  }

  lemma DropsSomeSnoc(attrs: seq<Attr>, a: Attr, keep: Keep)
    ensures DropsSome(attrs + [a], keep) <==> (DropsSome(attrs, keep) || DropsFrom(a, keep))
  {
    var bs := attrs + [a];
    assert bs[|attrs|] == a && forall i :: 0 <= i < |attrs| ==> bs[i] == attrs[i];
    hide DropsFrom;
  }

  /** mapMemberValues: rewrites member values in place, and reports whether one changed. */
  method MapMemberValues(e: Entry, f: Rewrite) returns (r: Entry, changed: bool)
    ensures r == e.(attrs := MapMembers(e.attrs, f))
    ensures changed <==> r != e
  {
    var attrs := e.attrs;
    changed := false;
    for i := 0 to |e.attrs|
      invariant |attrs| == |e.attrs|
      invariant forall k :: 0 <= k < i ==> attrs[k] == MapAttr(e.attrs[k], f)
      invariant forall k :: i <= k < |attrs| ==> attrs[k] == e.attrs[k]
      invariant changed <==> attrs != e.attrs
    {
      var a := e.attrs[i];
      if !IsMemberAttr(a) {
        continue;
      }
      var unique := IsUnique(a);
      hide IsMemberAttr, IsUnique;
      ghost var before, was := attrs, changed;
      var vs := a.values;
      for j := 0 to |a.values|
        invariant |vs| == |a.values|
        invariant forall k :: 0 <= k < j ==> vs[k] == f(a.values[k], unique)
        invariant forall k :: j <= k < |vs| ==> vs[k] == a.values[k]
        invariant changed <==> was || vs != a.values
      {
        var nv := f(a.values[j], unique);
        if nv != a.values[j] {
          assert (vs[j := nv])[j] != a.values[j];
          vs := vs[j := nv];
          changed := true;
        } else {
          assert vs[j] == nv;
        }
      }
      assert vs == MapValues(a.values, f, unique);
      attrs := attrs[i := a.(values := vs)];
      assert vs == a.values ==> attrs == before;
      if attrs == e.attrs {
        assert attrs[i] == e.attrs[i] && before == e.attrs;
      }
    }
    assert attrs == MapMembers(e.attrs, f);
    r := e.(attrs := attrs);
  }

  /** What filtering leaves of one attribute's values. */
  function Kept(a: Attr, keep: Keep): seq<string> {
    if IsMemberAttr(a) then KeepValues(a.values, keep, IsUnique(a)) else a.values
  }

  lemma {:induction false} FilterKeepsNames(attrs: seq<Attr>, keep: Keep, a: Attr)
    requires a in FilterMembers(attrs, keep)
    ensures exists b :: b in attrs && a.name == b.name
  {
    hide IsMemberAttr, IsUnique, KeepValues;
    var rest := FilterMembers(attrs[1..], keep);
    if a in rest {
      FilterKeepsNames(attrs[1..], keep, a);
      var b :| b in attrs[1..] && a.name == b.name;
      assert b in attrs;
    } else {
      assert a.name == attrs[0].name && attrs[0] in attrs;
    }
  }

  lemma {:induction false} FilterMembersNames(attrs: seq<Attr>, keep: Keep)
    requires Distinct(attrs)
    ensures forall a :: a in FilterMembers(attrs, keep) ==> exists b :: b in attrs && a.name == b.name
    ensures Distinct(FilterMembers(attrs, keep))
  {
    hide IsMemberAttr, IsUnique, KeepValues, EqualFold;
    forall a | a in FilterMembers(attrs, keep) ensures exists b :: b in attrs && a.name == b.name {
      FilterKeepsNames(attrs, keep, a);
    }
    if attrs != [] {
      var rest := FilterMembers(attrs[1..], keep);
      FilterMembersNames(attrs[1..], keep);
      forall k | 0 <= k < |rest| ensures !EqualFold(attrs[0].name, rest[k].name) {
        FilterKeepsNames(attrs[1..], keep, rest[k]);
        var b :| b in attrs[1..] && rest[k].name == b.name;
      }
      if FilterMembers(attrs, keep) != rest {
        DistinctCons(FilterMembers(attrs, keep), attrs[0].name, rest);
      }
    }
  }

  lemma DistinctCons(all: seq<Attr>, name: string, rest: seq<Attr>)
    requires |all| == |rest| + 1 && all[0].name == name && all[1..] == rest && Distinct(rest)
    requires forall k :: 0 <= k < |rest| ==> !EqualFold(name, rest[k].name)
    ensures Distinct(all)
  {
    hide EqualFold;
    forall i, j | 0 <= i < j < |all| ensures !EqualFold(all[i].name, all[j].name) {
      assert all[j] == rest[j - 1];
      if i > 0 { assert all[i] == rest[i - 1]; }
    }
  }

  lemma {:induction false} FilterMembersValues(attrs: seq<Attr>, keep: Keep, name: string)
    requires Distinct(attrs)
    ensures var i := IndexOf(attrs, name);
      ValuesOf(FilterMembers(attrs, keep), name) == if i < |attrs| then Kept(attrs[i], keep) else []
  {
    if attrs != [] {
      var a, rest := attrs[0], attrs[1..];
      var f := FilterMembers(rest, keep);
      hide IsMemberAttr, IsUnique, KeepValues, EqualFold;
      FilterMembersValues(rest, keep, name);
      if EqualFold(a.name, name) && IsMemberAttr(a) && KeepValues(a.values, keep, IsUnique(a)) == [] {
        FilterMembersNames(rest, keep);
        forall k | 0 <= k < |f| ensures !EqualFold(f[k].name, name) {
          var b :| b in rest && f[k].name == b.name;
          assert !EqualFold(a.name, b.name);
          FoldTransitive(a.name, name, b.name);
          FoldTransitive(b.name, name, name);
          FoldSymmetric(b.name, name);
        }
        ValuesAbsent(f, name);
      } else if FilterMembers(attrs, keep) != f {
        var a' := FilterMembers(attrs, keep)[0];
        assert FilterMembers(attrs, keep) == [a'] + f && ([a'] + f)[1..] == f && a'.name == a.name;
      }
    }
  }

  lemma FoldSymmetric(a: string, b: string)
    ensures EqualFold(a, b) <==> EqualFold(b, a)
  {
  }

  lemma {:induction false} MapMembersValues(attrs: seq<Attr>, f: Rewrite, name: string)
    ensures !EqualFold(name, "member") && !EqualFold(name, "uniqueMember") ==>
              ValuesOf(MapMembers(attrs, f), name) == ValuesOf(attrs, name)
    ensures name == "member" ==>
              ValuesOf(MapMembers(attrs, f), name) == MapValues(ValuesOf(attrs, name), f, false)
    ensures name == "uniqueMember" ==>
              ValuesOf(MapMembers(attrs, f), name) == MapValues(ValuesOf(attrs, name), f, true)
  {
    NamesDiffer();
    if attrs != [] {
      MapMembersValues(attrs[1..], f, name);
      assert MapMembers(attrs, f)[1..] == MapMembers(attrs[1..], f);
      assert MapMembers(attrs, f)[0] == MapAttr(attrs[0], f);
    }
  }
}
