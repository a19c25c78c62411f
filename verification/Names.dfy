// Directory names: DNs in their one canonical (folded) spelling, leaf RDN first.
module Names {
  import opened Text
  import opened DnSyntax

  /** An RDN in canonical spelling; its text is read back as itself. */
  predicate Canonical(r: Rdn) {
    WellFormedRdn(r) && Lower(r.value) == r.value && !EndsInTab(r.value)
  }

  type CRdn = r: Rdn | Canonical(r) witness Rdn("a", "")
  type Name = seq<CRdn>

  /** The store key of a name: its folded text. */
  function Key(n: Name): string { FoldedKey(n) }

  lemma NameFacts(n: Name)
    ensures WellFormed(n) && TabFree(n) && Fold(n) == n && Key(n) == String(n)
  {
    forall i | 0 <= i < |n| ensures WellFormedRdn(n[i]) && !EndsInTab(n[i].value) && FoldRdn(n[i]) == n[i] {
      var r: CRdn := n[i];
      assert Canonical(r);
    }
    assert Fold(n) == n;
  }

  /** Store keys identify names. */
  lemma KeyInjective(a: Name, b: Name)
    requires Key(a) == Key(b)
    ensures a == b
  {
    NameFacts(a);
    NameFacts(b);
    StringInjective(a, b);
  }

  /** The canonical name a parsed DN stands for; None for a DN that does not survive printing. */
  function Canon(d: DN): (r: Option<Name>)
    requires WellFormed(d)
    ensures r.Some? <==> TabFree(d)
    ensures r.Some? ==> r.value == Fold(d)
  {
    if TabFree(d) then
      CanonIsCanonical(d);
      Some(Fold(d))
    else None
  }

  lemma CanonIsCanonical(d: DN)
    requires WellFormed(d) && TabFree(d)
    ensures forall i :: 0 <= i < |d| ==> Canonical(Fold(d)[i])
  {
    FoldWellFormed(d);
    forall i | 0 <= i < |d| ensures Canonical(Fold(d)[i]) {
      LowerIdempotent(d[i].value);
      LowerEnd(d[i].value);
    }
  }

  lemma LowerEnd(v: string)
    ensures EndsInTab(Lower(v)) <==> EndsInTab(v)
  {
  }

  /** d lies strictly below a. */
  predicate Under(d: Name, a: Name) {
    a != [] && |d| > |a| && d[|d| - |a|..] == a
  }

  predicate AtOrUnder(d: Name, a: Name) { d == a || Under(d, a) }

  /** d equals or lies below one of the suffixes. */
  predicate UnderAny(d: Name, suffixes: seq<Name>) {
    exists i :: 0 <= i < |suffixes| && AtOrUnder(d, suffixes[i])
  }

  /** Whether a DN, as it is spelled, equals a managed suffix or ends in one. */
  predicate InScope(d: DN, scopes: seq<Name>) {
    exists i :: 0 <= i < |scopes|
        && (d == scopes[i] || (scopes[i] != [] && |d| > |scopes[i]| && d[|d| - |scopes[i]|..] == scopes[i]))
  }

  /** In scope as spelled is in scope by name. */
  lemma InScopeIsUnder(d: DN, scopes: seq<Name>)
    requires WellFormed(d) && TabFree(d) && InScope(d, scopes)
    ensures UnderAny(Canon(d).value, scopes)
  {
    hide WellFormed, TabFree, Canonical;
    var i :| 0 <= i < |scopes|
        && (d == scopes[i] || (scopes[i] != [] && |d| > |scopes[i]| && d[|d| - |scopes[i]|..] == scopes[i]));
    FoldTail(d, scopes[i]);
    assert AtOrUnder(Canon(d).value, scopes[i]);
  }

  lemma FoldTail(d: DN, s: Name)
    ensures d == s ==> Fold(d) == s
    ensures |d| >= |s| && d[|d| - |s|..] == s ==> Fold(d)[|d| - |s|..] == s
  {
    NameFacts(s);
    if |d| >= |s| {
      assert Fold(d)[|d| - |s|..] == Fold(d[|d| - |s|..]);
    }
  }

  function Parent(d: Name): Option<Name> {
    if |d| < 2 then None else Some(d[1..])
  }

  /** Replaces from, an ancestor-or-self of d, by to. */
  function Rebase(d: Name, from: Name, to: Name): (r: Option<Name>)
    ensures r.Some? <==> from != [] && AtOrUnder(d, from)
  {
    if from == [] || |d| < |from| then None
    else
      var keep := |d| - |from|;
      if d[keep..] == from then Some(d[..keep] + to) else None
  }

  /** Where a name is after from has become to; every other name stays. */
  function Moved(d: Name, from: Name, to: Name): Name {
    var r := Rebase(d, from, to);
    if r.Some? then r.value else d
  }

  /** The same for a DN as it is spelled: its leading RDNs stay as they are. */
  function RebaseDN(d: DN, from: Name, to: Name): Option<DN> {
    if from == [] || |d| < |from| then None
    else
      var keep := |d| - |from|;
      if Fold(d[keep..]) == from then Some(d[..keep] + to) else None
  }

  /** Rebasing a DN rebases the name it stands for. */
  lemma RebaseSpelling(d: DN, from: Name, to: Name)
    requires WellFormed(d) && TabFree(d)
    ensures RebaseDN(d, from, to).Some? <==> Rebase(Canon(d).value, from, to).Some?
    ensures RebaseDN(d, from, to).Some? ==>
              var nd := RebaseDN(d, from, to).value;
              WellFormed(nd) && TabFree(nd) && Canon(nd) == Rebase(Canon(d).value, from, to)
  {
    if from != [] && |d| >= |from| {
      var keep := |d| - |from|;
      assert Fold(d[keep..]) == Fold(d)[keep..];
      if RebaseDN(d, from, to).Some? {
        NameFacts(to);
        var nd := d[..keep] + to;
        forall i | 0 <= i < |nd| ensures WellFormedRdn(nd[i]) && !EndsInTab(nd[i].value) {
          if i >= keep { assert nd[i] == to[i - keep]; }
        }
        assert Fold(nd) == Fold(d)[..keep] + to;
      }
    }
  }

  /** Neither name is the other one or lies below it. */
  predicate Apart(a: Name, b: Name) { !AtOrUnder(a, b) && !AtOrUnder(b, a) }

  lemma AtOrUnderSplit(d: Name, a: Name)
    requires a != []
    ensures AtOrUnder(d, a) <==> |d| >= |a| && d[|d| - |a|..] == a
  {
    if |d| == |a| {
      assert d[0..] == d;
    }
  }

  lemma RebaseUnder(d: Name, from: Name, to: Name)
    requires from != [] && to != [] && AtOrUnder(d, from)
    ensures AtOrUnder(Moved(d, from, to), to)
    ensures Moved(d, from, to)[..|d| - |from|] == d[..|d| - |from|]
    ensures |Moved(d, from, to)| == |d| - |from| + |to|
  {
    AtOrUnderSplit(d, from);
    var m := Moved(d, from, to);
    assert m == d[..|d| - |from|] + to;
    assert m[|m| - |to|..] == to;
    AtOrUnderSplit(m, to);
  }

  /** Distinct names of a moved subtree stay distinct. */
  lemma MovedInjective(a: Name, b: Name, from: Name, to: Name)
    requires from != [] && to != [] && AtOrUnder(a, from) && AtOrUnder(b, from)
    requires Moved(a, from, to) == Moved(b, from, to)
    ensures a == b
  {
    AtOrUnderSplit(a, from);
    AtOrUnderSplit(b, from);
    RebaseUnder(a, from, to);
    RebaseUnder(b, from, to);
    assert a == a[..|a| - |from|] + from;
    assert b == b[..|b| - |from|] + from;
  }

  /** The mapping is idempotent when neither name is an ancestor of the other. */
  lemma MovedIdempotent(d: Name, from: Name, to: Name)
    requires from != [] && to != [] && Apart(from, to)
    ensures Moved(Moved(d, from, to), from, to) == Moved(d, from, to)
  {
    if AtOrUnder(d, from) {
      RebaseUnder(d, from, to);
      ApartDescendants(Moved(d, from, to), from, to);
    }
  }

  /** Two names that d lies at or below are comparable. */
  lemma CommonDescendant(d: Name, a: Name, b: Name)
    requires a != [] && b != [] && AtOrUnder(d, a) && AtOrUnder(d, b)
    ensures AtOrUnder(a, b) || AtOrUnder(b, a)
  {
    AtOrUnderSplit(d, a);
    AtOrUnderSplit(d, b);
    if |a| <= |b| {
      assert b[|b| - |a|..] == d[|d| - |b|..][|b| - |a|..] == d[|d| - |a|..];
      AtOrUnderSplit(b, a);
    } else {
      assert a[|a| - |b|..] == d[|d| - |a|..][|a| - |b|..] == d[|d| - |b|..];
      AtOrUnderSplit(a, b);
    }
  }

  /** No name lies at or below both of two names that are apart. */
  lemma ApartDescendants(d: Name, a: Name, b: Name)
    requires a != [] && b != [] && Apart(a, b) && AtOrUnder(d, b)
    ensures !AtOrUnder(d, a)
  {
    if AtOrUnder(d, a) {
      CommonDescendant(d, a, b);
    }
  }

  lemma AtOrUnderTransitive(a: Name, b: Name, c: Name)
    requires b != [] && c != [] && AtOrUnder(a, b) && AtOrUnder(b, c)
    ensures AtOrUnder(a, c)
  {
    AtOrUnderSplit(a, b);
    AtOrUnderSplit(b, c);
    AtOrUnderSplit(a, c);
    assert a[|a| - |c|..] == a[|a| - |b|..][|b| - |c|..];
  }

  /** Below a name is the name itself or something whose parent is at or below it. */
  lemma ParentAtOrUnder(d: Name, a: Name)
    requires a != [] && |d| >= 2
    ensures AtOrUnder(d, a) <==> d == a || AtOrUnder(d[1..], a)
  {
    AtOrUnderSplit(d, a);
    AtOrUnderSplit(d[1..], a);
    if |d| > |a| {
      assert d[1..][|d| - 1 - |a|..] == d[|d| - |a|..];
    }
  }

  // ---------------------------------------------------------------------------
  // Names as text
  // ---------------------------------------------------------------------------

  lemma {:induction false} StringConcat(p: DN, d: DN)
    requires p != [] && d != []
    ensures String(p + d) == String(p) + ([','] + String(d))
  {
    assert (p + d)[1..] == p[1..] + d;
    assert Texts(p + d)[1..] == Texts((p + d)[1..]) && Texts(p + d)[0] == RdnText(p[0]) == Texts(p)[0];
    assert Texts(p)[1..] == Texts(p[1..]);
    hide RdnText;
    if |p| == 1 {
      assert p[1..] + d == d;
    } else {
      StringConcat(p[1..], d);
      ConcatAssoc([','], String(p[1..]), [','] + String(d));
      ConcatAssoc(RdnText(p[0]), [','] + String(p[1..]), [','] + String(d));
    }
  }

  /** Below a name, keys end in its key behind a comma: what the store's key prefilter relies on. */
  lemma UnderHasKeySuffix(d: Name, a: Name)
    requires a != [] && Under(d, a)
    ensures HasSuffix(Key(d), "," + Key(a))
  {
    NameFacts(d);
    NameFacts(a);
    var p := d[..|d| - |a|];
    assert d == p + a;
    StringConcat(p, a);
    SuffixOfConcat(String(p), [','] + String(a));
  }

  lemma SuffixOfConcat(a: string, b: string)
    ensures HasSuffix(a + b, b)
  {
  }

  lemma SampleTexts()
    ensures Escape(",a=") == "\\,a=" && Escape("") == ""
    ensures ValidUtf8(",a=") && Lower(",a=") == ",a="
  {
    var v := ",a=";
    assert EscapeUpTo(v, 1) == "\\,";
    assert EscapeUpTo(v, 2) == "\\,a";
    assert EscapeUpTo(v, 3) == "\\,a=";
    assert v[1..] == "a=" && v[1..][1..] == "=" && ValidUtf8("=");
  }

  lemma SampleKey(n: Name, r: Rdn, attr: string, text: string)
    requires n == [r] && r.attr == attr && Escape(r.value) == text
    ensures Key(n) == attr + (['='] + text)
  {
    NameFacts(n);
  }

  /** The converse fails: a key can end in ",a=" because of an escaped comma inside one value. */
  lemma KeySuffixWithoutDescent() returns (d: Name, a: Name)
    ensures a != [] && HasSuffix(Key(d), "," + Key(a)) && !AtOrUnder(d, a)
  {
    SampleTexts();
    assert Lower("a") == "a" && Lower("c") == "c";
    d, a := [Rdn("c", ",a=")], [Rdn("a", "")];
    SampleKey(d, d[0], "c", "\\,a=");
    SampleKey(a, a[0], "a", "");
    hide Key, Escape, Canonical;
    CommaText();
    assert Key(d)[3..] == "," + Key(a);
  }

  lemma CommaText()
    ensures ("c" + (['='] + "\\,a="))[3..] == "," + ("a" + (['='] + ""))
    ensures |"c" + (['='] + "\\,a=")| == 3 + |"," + ("a" + (['='] + ""))|
  {
  }
}
