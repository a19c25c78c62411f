// Attribute lists: compiling the scenario's allow and deny lists to one targetattr clause,
// and deciding whether a clause covers an attribute description.
module TargetAttr {
  import opened Text
  import opened Acis
  import opened AciRoundTrip

  // ---------------------------------------------------------------------------
  // Attribute descriptions
  // ---------------------------------------------------------------------------

  function BaseOf(name: string): string { name[..CutAt(name)] }

  /** The options behind the first semicolon, empty ones included. */
  function OptionsOf(name: string): seq<string> {
    if CutAt(name) == |name| then [] else SplitSemi(name[CutAt(name) + 1..])
  }

  function SplitSemi(s: string): (parts: seq<string>)
    ensures |parts| > 0
    decreases |s|
  {
    var n := CutAt(s);
    if n == |s| then [s] else [s[..n]] + SplitSemi(s[n + 1..])
  }

  /** Some option of set equals o, case aside; an empty option equals none. */
  predicate HasOption(o: string, set_: seq<string>) {
    o != "" && exists i :: 0 <= i < |set_| && EqualFold(o, set_[i])
  }

  /** optionSubset. */
  predicate OptionsWithin(sub: seq<string>, set_: seq<string>) {
    forall i :: 0 <= i < |sub| ==> HasOption(sub[i], set_)
  }

  /** A targetattr name covers base;opts: same base, and every option it asks for is there. */
  predicate NameCovers(name: string, base: string, opts: seq<string>) {
    name == "*" || (EqualFold(BaseOf(name), base) && OptionsWithin(OptionsOf(name), opts))
  }

  predicate ListCovers(list: seq<string>, base: string, opts: seq<string>) {
    exists i :: 0 <= i < |list| && NameCovers(list[i], base, opts)
  }

  /** aciAttrInA, name by name and option by option. */
  method AciAttrIn(list: seq<string>, base: string, opts: seq<string>) returns (r: bool)
    ensures r <==> ListCovers(list, base, opts)
  {
    hide EqualFold, OptionsOf, BaseOf;
    for i := 0 to |list|
      invariant forall k :: 0 <= k < i ==> !NameCovers(list[k], base, opts)
    {
      var a := list[i];
      if a == "*" {
        return true;
      }
      if !EqualFold(BaseOf(a), base) {
        continue;
      }
      var wanted := OptionsOf(a);
      var covered := true;
      var j := 0;
      while j < |wanted|
        invariant 0 <= j <= |wanted| && covered
        invariant forall k :: 0 <= k < j ==> HasOption(wanted[k], opts)
      {
        if wanted[j] == "" {
          covered := false;
          break;
        }
        var found := false;
        for k := 0 to |opts|
          invariant !found && forall l :: 0 <= l < k ==> !EqualFold(wanted[j], opts[l])
        {
          if EqualFold(wanted[j], opts[k]) {
            found := true;
            break;
          }
        }
        if !found {
          covered := false;
          break;
        }
        j := j + 1;
      }
      if covered {
        return true;
      }
    }
    r := false;
  }

  /** TargetsAttr: what a parsed clause covers. An omitted clause covers no attribute. */
  predicate Targets(mode: AttrMode, attrs: seq<string>, base: string, opts: seq<string>) {
    match mode
    case AllAttrs => true
    case AllowList => ListCovers(attrs, base, opts)
    case DenyList => !ListCovers(attrs, base, opts)
    case NoAttrs => false
  }

  // ---------------------------------------------------------------------------
  // Compiling the lists
  // ---------------------------------------------------------------------------

  /** The schema's names for a base: the NAME that is written out, and the type two bases are compared by. */
  datatype Naming = Naming(primary: string -> string, typ: string -> string)

  /** Bases have the same type exactly when their NAMEs are the same, case aside; a NAME has no options. */
  ghost predicate Lawful(nm: Naming) {
    (forall a, b :: EqualFold(nm.typ(a), nm.typ(b)) <==> EqualFold(nm.primary(a), nm.primary(b)))
    && forall a :: ';' !in nm.primary(a) && nm.primary(a) != "*"
  }

  /** The name as it is written out: its base by NAME, its options as they are. */
  function Emitted(nm: Naming, name: string): string { nm.primary(BaseOf(name)) + name[CutAt(name)..] }

  function EmittedAll(nm: Naming, names: seq<string>): seq<string> {
    seq(|names|, i requires 0 <= i < |names| => Emitted(nm, names[i]))
  }

  /** dedupFold: later spellings of a name already listed are dropped. */
  function DedupFold(out: seq<string>, names: seq<string>): seq<string>
    decreases names
  {
    if names == [] then out
    else if exists i :: 0 <= i < |out| && EqualFold(out[i], names[0]) then DedupFold(out, names[1..])
    else DedupFold(out + [names[0]], names[1..])
  }

  datatype Rejection = TooManyNames | DenyStar | DenyTooNarrow | NothingLeft
  datatype Compiled = Clause(spec: AttrSpec) | Rejected(why: Rejection)

  predicate SameType(nm: Naming, a: string, b: string) { EqualFold(nm.typ(BaseOf(a)), nm.typ(BaseOf(b))) }

  /** A deny name of the same type whose options the allow name does not all carry. */
  predicate Inexpressible(nm: Naming, a: string, d: string) {
    SameType(nm, a, d) && !OptionsWithin(OptionsOf(d), OptionsOf(a))
  }

  /** The allow names that share no type with a deny name. */
  function Kept(nm: Naming, allow: seq<string>, deny: seq<string>): seq<string> {
    if allow == [] then []
    else
      var rest := Kept(nm, allow[1..], deny);
      if exists j :: 0 <= j < |deny| && SameType(nm, allow[0], deny[j]) then rest else [allow[0]] + rest
  }

  function Joined(nm: Naming, names: seq<string>): seq<string> { DedupFold([], EmittedAll(nm, names)) }

  function DslTargetAttr(nm: Naming, allow: seq<string>, deny: seq<string>): Compiled {
    var allowAll := allow == [] || "*" in allow;
    if |allow| > MAX_ATTRS || |deny| > MAX_ATTRS then Rejected(TooManyNames)
    else if "*" in deny then Rejected(DenyStar)
    else if deny == [] && allowAll then Clause(Every)
    else if deny == [] then Clause(Allow(Joined(nm, allow)))
    else if allowAll then Clause(Deny(Joined(nm, deny)))
    else if exists i, j ::
        0 <= i < |allow| && 0 <= j < |deny| && Inexpressible(nm, allow[i], deny[j]) then Rejected(DenyTooNarrow)
    else
      var kept := Kept(nm, allow, deny);
      if kept == [] then Rejected(NothingLeft) else Clause(Allow(Joined(nm, kept)))
  }

  // ---------------------------------------------------------------------------
  // What the clause means
  // ---------------------------------------------------------------------------

  /** What the author of the scenario wrote: name covers the description once its base is read by NAME. */
  predicate Means(nm: Naming, name: string, base: string, opts: seq<string>) {
    name == "*" || (EqualFold(nm.primary(BaseOf(name)), base) && OptionsWithin(OptionsOf(name), opts))
  }

  predicate SomeMeans(nm: Naming, names: seq<string>, base: string, opts: seq<string>) {
    exists i :: 0 <= i < |names| && Means(nm, names[i], base, opts)
  }

  lemma {:induction false} CutBehind(p: string, t: string)
    requires ';' !in p && (t == "" || t[0] == ';')
    ensures CutAt(p + t) == |p|
  {
    if p == "" {
      assert p + t == t;
    } else {
      CutBehind(p[1..], t);
      assert (p + t)[1..] == p[1..] + t && (p + t)[0] == p[0];
    }
  }

  lemma EmittedParts(nm: Naming, name: string)
    requires Lawful(nm)
    ensures BaseOf(Emitted(nm, name)) == nm.primary(BaseOf(name)) && OptionsOf(Emitted(nm, name)) == OptionsOf(name)
  {
    var p, t := nm.primary(BaseOf(name)), name[CutAt(name)..];
    CutBehind(p, t);
    assert (p + t)[..|p|] == p;
    if t != "" { assert (p + t)[|p| + 1..] == t[1..] == name[CutAt(name) + 1..]; }
  }

  lemma EmittedCovers(nm: Naming, name: string, base: string, opts: seq<string>)
    requires Lawful(nm) && name != "*"
    ensures Emitted(nm, name) != "*"
    ensures NameCovers(Emitted(nm, name), base, opts) <==> Means(nm, name, base, opts)
  {
    EmittedParts(nm, name);
    hide EqualFold, OptionsWithin, BaseOf, OptionsOf;
    if Emitted(nm, name) == "*" { StarBase(); }
  }

  lemma StarBase()
    ensures BaseOf("*") == "*"
  {
    assert CutAt("*") == 1 by { assert "*"[1..] == ""; }
  }

  /** Names that are spelled alike cover alike. */
  lemma SpelledAlike(a: string, b: string, base: string, opts: seq<string>)
    requires EqualFold(a, b) && NameCovers(b, base, opts) && a != "*" && b != "*"
    ensures NameCovers(a, base, opts)
  {
    LowerParts(a);
    LowerParts(b);
    var oa, ob := OptionsOf(a), OptionsOf(b);
    hide OptionsOf, BaseOf;
    forall i | 0 <= i < |oa| ensures HasOption(oa[i], opts) {
      assert LowerAll(oa)[i] == LowerAll(ob)[i];
      assert HasOption(ob[i], opts);
    }
  }

  function LowerAll(ss: seq<string>): (r: seq<string>)
    ensures |r| == |ss|
  {
    seq(|ss|, i requires 0 <= i < |ss| => Lower(ss[i]))
  }

  lemma {:induction false} LowerCut(s: string)
    ensures CutAt(Lower(s)) == CutAt(s)
  {
    if s != "" && s[0] != ';' {
      LowerCut(s[1..]);
      assert Lower(s)[1..] == Lower(s[1..]);
    }
  }

  lemma {:induction false} LowerSplit(s: string)
    ensures SplitSemi(Lower(s)) == LowerAll(SplitSemi(s))
    decreases |s|
  {
    hide Lower, CutAt, LowerAll;
    LowerCut(s);
    var n := CutAt(s);
    LowerHead(s, n);
    if n < |s| {
      LowerSplit(s[n + 1..]);
      LowerTail(s, n + 1);
      LowerAllCons(s[..n], SplitSemi(s[n + 1..]));
    } else {
      assert s[..n] == s && Lower(s)[..n] == Lower(s);
      LowerAllCons(s, []);
    }
  }

  lemma LowerAllCons(s: string, ss: seq<string>)
    ensures LowerAll([s] + ss) == [Lower(s)] + LowerAll(ss)
    ensures LowerAll([s]) == [Lower(s)]
  {
    hide Lower;
  }

  lemma LowerHead(s: string, n: nat)
    requires n <= |s|
    ensures Lower(s)[..n] == Lower(s[..n])
  {
  }

  lemma LowerTail(s: string, n: nat)
    requires n <= |s|
    ensures Lower(s)[n..] == Lower(s[n..])
  {
  }

  lemma LowerParts(s: string)
    ensures BaseOf(Lower(s)) == Lower(BaseOf(s)) && OptionsOf(Lower(s)) == LowerAll(OptionsOf(s))
  {
    LowerCut(s);
    var n := CutAt(s);
    assert Lower(s)[..n] == Lower(s[..n]);
    if n < |s| {
      assert Lower(s)[n + 1..] == Lower(s[n + 1..]);
      LowerSplit(s[n + 1..]);
    }
  }

  lemma {:induction false} DedupCovers(out: seq<string>, names: seq<string>, base: string, opts: seq<string>)
    requires forall i :: 0 <= i < |names| ==> names[i] != "*"
    requires forall i :: 0 <= i < |out| ==> out[i] != "*"
    ensures ListCovers(DedupFold(out, names), base, opts) <==>
              ListCovers(out, base, opts) || ListCovers(names, base, opts)
    ensures forall i :: 0 <= i < |DedupFold(out, names)| ==>
              DedupFold(out, names)[i] in out || DedupFold(out, names)[i] in names
    ensures |DedupFold(out, names)| <= |out| + |names| && (out != [] || names != [] ==> DedupFold(out, names) != [])
    decreases names
  {
    hide NameCovers, EqualFold;
    if names != [] {
      var n := names[0];
      assert ListCovers(names, base, opts) <==> NameCovers(n, base, opts) || ListCovers(names[1..], base, opts) by {
        assert forall i :: 0 <= i < |names[1..]| ==> names[1..][i] == names[i + 1];
      }
      if exists i :: 0 <= i < |out| && EqualFold(out[i], n) {
        var i :| 0 <= i < |out| && EqualFold(out[i], n);
        if NameCovers(n, base, opts) { SpelledAlike(out[i], n, base, opts); }
        DedupCovers(out, names[1..], base, opts);
      } else {
        DedupCovers(out + [n], names[1..], base, opts);
        assert (out + [n])[|out|] == n && forall k :: 0 <= k < |out| ==> (out + [n])[k] == out[k];
      }
    }
  }

  lemma JoinedMeans(nm: Naming, names: seq<string>, base: string, opts: seq<string>)
    requires Lawful(nm) && forall i :: 0 <= i < |names| ==> names[i] != "*"
    ensures ListCovers(Joined(nm, names), base, opts) <==> SomeMeans(nm, names, base, opts)
    ensures |Joined(nm, names)| <= |names| && (names != [] ==> Joined(nm, names) != [])
  {
    hide NameCovers, Means, DedupFold, Emitted;
    var es := EmittedAll(nm, names);
    forall i | 0 <= i < |names| ensures es[i] != "*"
        && (NameCovers(es[i], base, opts) <==> Means(nm, names[i], base, opts)) {
      EmittedCovers(nm, names[i], base, opts);
    }
    DedupCovers([], es, base, opts);
  }

  lemma {:induction false} KeptMembers(nm: Naming, allow: seq<string>, deny: seq<string>)
    ensures forall a :: a in Kept(nm, allow, deny) <==>
              a in allow && forall j :: 0 <= j < |deny| ==> !SameType(nm, a, deny[j])
    ensures |Kept(nm, allow, deny)| <= |allow|
  {
    hide SameType;
    if allow != [] {
      KeptMembers(nm, allow[1..], deny);
      assert forall a :: a in allow <==> a == allow[0] || a in allow[1..];
    }
  }

  lemma WithinTransitive(a: seq<string>, b: seq<string>, c: seq<string>)
    requires OptionsWithin(a, b) && OptionsWithin(b, c)
    ensures OptionsWithin(a, c)
  {
    forall i | 0 <= i < |a| ensures HasOption(a[i], c) {
      var j :| 0 <= j < |b| && EqualFold(a[i], b[j]);
      assert HasOption(b[j], c);
    }
  }

  /** A deny name of the same type takes back everything the allow name covers, unless it cannot be expressed. */
  lemma DenyTakesBack(nm: Naming, a: string, d: string, base: string, opts: seq<string>)
    requires Lawful(nm) && a != "*" && d != "*" && SameType(nm, a, d) && !Inexpressible(nm, a, d)
    requires Means(nm, a, base, opts)
    ensures Means(nm, d, base, opts)
  {
    WithinTransitive(OptionsOf(d), OptionsOf(a), opts);
    hide OptionsWithin, OptionsOf, BaseOf;
  }

  lemma CoveredHasType(nm: Naming, a: string, d: string, base: string, opts: seq<string>)
    requires Lawful(nm) && a != "*" && d != "*" && Means(nm, a, base, opts) && Means(nm, d, base, opts)
    ensures SameType(nm, a, d)
  {
    hide OptionsWithin, OptionsOf, BaseOf;
  }

  /** With both lists, what is kept covers exactly what is allowed and not denied. */
  lemma KeptMeans(nm: Naming, allow: seq<string>, deny: seq<string>, base: string, opts: seq<string>)
    requires Lawful(nm) && "*" !in allow && "*" !in deny
    requires forall i, j :: 0 <= i < |allow| && 0 <= j < |deny| ==> !Inexpressible(nm, allow[i], deny[j])
    ensures SomeMeans(nm, Kept(nm, allow, deny), base, opts) <==>
              SomeMeans(nm, allow, base, opts) && !SomeMeans(nm, deny, base, opts)
  {
    hide Means, SameType, Inexpressible, Lawful;
    var kept := Kept(nm, allow, deny);
    KeptMembers(nm, allow, deny);
    if SomeMeans(nm, kept, base, opts) {
      var i :| 0 <= i < |kept| && Means(nm, kept[i], base, opts);
      assert kept[i] in kept;
      var k :| 0 <= k < |allow| && allow[k] == kept[i];
      forall j | 0 <= j < |deny| ensures !Means(nm, deny[j], base, opts) {
        if Means(nm, deny[j], base, opts) { CoveredHasType(nm, kept[i], deny[j], base, opts); }
      }
    }
    if SomeMeans(nm, allow, base, opts) && !SomeMeans(nm, deny, base, opts) {
      var i :| 0 <= i < |allow| && Means(nm, allow[i], base, opts);
      forall j | 0 <= j < |deny| ensures !SameType(nm, allow[i], deny[j]) {
        if SameType(nm, allow[i], deny[j]) { DenyTakesBack(nm, allow[i], deny[j], base, opts); }
      }
      assert allow[i] in kept;
      var k :| 0 <= k < |kept| && kept[k] == allow[i];
    }
  }

  /** The clause of a compiled list, as the parser hands it to the evaluator. */
  function ModeOf(spec: AttrSpec): (AttrMode, seq<string>) {
    match spec case Every => (AllAttrs, []) case Allow(names) => (AllowList, names) case Deny(names) => (DenyList,
        names)
  }

  /**
   * Whenever the lists compile, the clause covers a description exactly when some allow
   * name (or allow-all) covers it and no deny name does.
   */
  lemma ClauseMeaning(nm: Naming, allow: seq<string>, deny: seq<string>, base: string, opts: seq<string>)
    requires Lawful(nm) && DslTargetAttr(nm, allow, deny).Clause?
    ensures var (mode, attrs) := ModeOf(DslTargetAttr(nm, allow, deny).spec);
      Targets(mode, attrs, base, opts) <==>
        (allow == [] || "*" in allow || SomeMeans(nm, allow, base, opts)) && !SomeMeans(nm, deny, base, opts)
  {
    hide Means, SameType, Inexpressible, Lawful, Joined, Kept, ListCovers;
    StarFree(deny);
    if !(allow == [] || "*" in allow) { StarFree(allow); }
    if deny == [] {
      if !(allow == [] || "*" in allow) { JoinedMeans(nm, allow, base, opts); }
    } else if allow == [] || "*" in allow {
      JoinedMeans(nm, deny, base, opts);
    } else {
      KeptMembers(nm, allow, deny);
      forall i | 0 <= i < |Kept(nm, allow, deny)| ensures Kept(nm, allow, deny)[i] != "*" {
        assert Kept(nm, allow, deny)[i] in Kept(nm, allow, deny);
      }
      JoinedMeans(nm, Kept(nm, allow, deny), base, opts);
      KeptMeans(nm, allow, deny, base, opts);
    }
  }

  lemma StarFree(names: seq<string>)
    ensures "*" !in names ==> forall i :: 0 <= i < |names| ==> names[i] != "*"
  {
  }

  /**
   * From the scenario's lists to the evaluator: the printed instruction, parsed, covers
   * exactly what the lists allow and do not deny.
   */
  lemma PrintedClauseMeaning(nm: Naming, sc: Schema, a: Acl, allow: seq<string>, deny: seq<string>, base: string,
      opts: seq<string>)
    requires Lawful(nm) && DslTargetAttr(nm, allow, deny) == Clause(a.attrs)
    requires InLimits(sc, a) && Survives(a.target) && (HasDN(a.subject) ==> Survives(a.subject.dn))
    ensures var r := ParseAci(sc, Print(Compile(a)));
      r.Some? &&
      (Targets(r.value.mode, r.value.attrs, base, opts) <==>
        (allow == [] || "*" in allow || SomeMeans(nm, allow, base, opts)) && !SomeMeans(nm, deny, base, opts))
  {
    hide DslTargetAttr, SomeMeans, Targets, InLimits, Survives, ParseAci, Lawful;
    CompiledRoundTrip(sc, a);
    ClauseMeaning(nm, allow, deny, base, opts);
  }

  // ---------------------------------------------------------------------------
  // Descriptions and names, by their parts
  // ---------------------------------------------------------------------------

  /** A base and its options, a semicolon in front of each. */
  function Described(base: string, opts: seq<string>): string {
    if opts == [] then base else Described(base, opts[..|opts| - 1]) + ([';'] + opts[|opts| - 1])
  }

  /** The same, from the front. */
  lemma {:induction false} DescribedFront(base: string, o: string, rest: seq<string>)
    ensures Described(base, [o] + rest) == base + ([';'] + Described(o, rest))
  {
    var opts := [o] + rest;
    if rest == [] {
      assert opts[..0] == [] && opts[|opts| - 1] == o;
    } else {
      var init, last := rest[..|rest| - 1], rest[|rest| - 1];
      assert opts[..|opts| - 1] == [o] + init && opts[|opts| - 1] == last;
      DescribedFront(base, o, init);
      ConcatAssoc([';'], Described(o, init), [';'] + last);
      ConcatAssoc(base, [';'] + Described(o, init), [';'] + last);
    }
  }

  /** The base of a name and its options are what stands before, between and behind its semicolons. */
  lemma NameParts(name: string, base: string, opts: seq<string>)
    ensures BaseOf(name) == base && OptionsOf(name) == opts <==>
              && name == Described(base, opts) && ';' !in base && forall i :: 0 <= i < |opts| ==> ';' !in opts[i]
  {
    if BaseOf(name) == base && OptionsOf(name) == opts { PartsDescribe(name); }
    if name == Described(base, opts) && ';' !in base && forall i :: 0 <= i < |opts| ==> ';' !in opts[i] {
      DescribedParts(base, opts);
    }
  }

  lemma PartsDescribe(name: string)
    ensures var base, opts := BaseOf(name), OptionsOf(name);
      name == Described(base, opts) && ';' !in base && forall i :: 0 <= i < |opts| ==> ';' !in opts[i]
  {
    var n, base, opts := CutAt(name), BaseOf(name), OptionsOf(name);
    if n < |name| {
      SplitDescribes(name[n + 1..]);
      hide SplitSemi, CutAt, Described;
      DescribedFront(base, opts[0], opts[1..]);
      assert opts == [opts[0]] + opts[1..];
      assert name == base + ([';'] + name[n + 1..]);
    } else {
      assert name == base;
    }
  }

  lemma DescribedParts(base: string, opts: seq<string>)
    requires ';' !in base && forall i :: 0 <= i < |opts| ==> ';' !in opts[i]
    ensures BaseOf(Described(base, opts)) == base && OptionsOf(Described(base, opts)) == opts
  {
    if opts == [] {
      CutBehind(base, "");
      assert base + "" == base;
    } else {
      var t := [';'] + Described(opts[0], opts[1..]);
      DescribedFront(base, opts[0], opts[1..]);
      assert opts == [opts[0]] + opts[1..];
      CutBehind(base, t);
      DescribedSplits(opts[0], opts[1..]);
      hide SplitSemi, CutAt, Described;
      assert (base + t)[..|base|] == base && (base + t)[|base| + 1..] == t[1..];
    }
  }

  lemma {:induction false} SplitDescribes(s: string)
    ensures var parts := SplitSemi(s); s == Described(parts[0], parts[1..])
    ensures forall i :: 0 <= i < |SplitSemi(s)| ==> ';' !in SplitSemi(s)[i]
    decreases |s|
  {
    var n := CutAt(s);
    if n < |s| {
      SplitDescribes(s[n + 1..]);
      var parts, rest := SplitSemi(s), SplitSemi(s[n + 1..]);
      assert parts[1..] == rest && rest == [rest[0]] + rest[1..];
      DescribedFront(s[..n], rest[0], rest[1..]);
      assert s == s[..n] + ([';'] + s[n + 1..]);
    } else {
      assert SplitSemi(s)[1..] == [];
    }
  }

  lemma {:induction false} DescribedSplits(o: string, rest: seq<string>)
    requires ';' !in o && forall i :: 0 <= i < |rest| ==> ';' !in rest[i]
    ensures SplitSemi(Described(o, rest)) == [o] + rest
    decreases rest
  {
    if rest == [] {
      CutBehind(o, "");
      assert o + "" == o;
    } else {
      DescribedFront(o, rest[0], rest[1..]);
      assert rest == [rest[0]] + rest[1..];
      var t := [';'] + Described(rest[0], rest[1..]);
      CutBehind(o, t);
      DescribedSplits(rest[0], rest[1..]);
      assert (o + t)[..|o|] == o && (o + t)[|o| + 1..] == Described(rest[0], rest[1..]);
    }
  }

  /** A name covers a description: the same base and, however the letters are cased, no option that is not there. */
  lemma CoversByParts(name: string, base: string, opts: seq<string>)
    ensures NameCovers(name, base, opts) <==>
              || name == "*"
              || (Lower(BaseOf(name)) == Lower(base) && "" !in OptionsOf(name)
                  && forall o :: o in OptionsOf(name) ==> exists p :: p in opts && Lower(p) == Lower(o))
  {
    hide Lower, BaseOf, OptionsOf;
    var os := OptionsOf(name);
    forall o ensures HasOption(o, opts) <==> o != "" && exists p :: p in opts && Lower(p) == Lower(o) {
      if HasOption(o, opts) {
        var i :| 0 <= i < |opts| && EqualFold(o, opts[i]);
        assert opts[i] in opts;
      }
      if p :| p in opts && Lower(p) == Lower(o) {
        var i :| 0 <= i < |opts| && opts[i] == p;
        assert o != "" ==> EqualFold(o, opts[i]);
      }
    }
    hide HasOption;
    assert (forall i :: 0 <= i < |os| ==> HasOption(os[i], opts)) <==> forall o :: o in os ==> HasOption(o, opts) by {
      forall o | o in os && forall i :: 0 <= i < |os| ==> HasOption(os[i], opts) ensures HasOption(o, opts) {
        var i :| 0 <= i < |os| && os[i] == o;
      }
      forall i | 0 <= i < |os| && forall o :: o in os ==> HasOption(o, opts) ensures HasOption(os[i], opts) {
        assert os[i] in os;
      }
    }
  }

  // ---------------------------------------------------------------------------
  // Which lists compile
  // ---------------------------------------------------------------------------

  /** No option is empty, as the compiler demands of every name before. */
  predicate Named(names: seq<string>) { forall i :: 0 <= i < |names| ==> "" !in OptionsOf(names[i]) }

  /** The deny name takes away some of what the allow name covers, and leaves some. */
  ghost predicate PartlyDenied(nm: Naming, a: string, d: string) {
    && (exists base, opts :: Means(nm, a, base, opts) && Means(nm, d, base, opts))
    && exists base, opts :: Means(nm, a, base, opts) && !Means(nm, d, base, opts)
  }

  lemma OwnOptions(os: seq<string>, more: seq<string>)
    requires "" !in os
    ensures OptionsWithin(os, os + more) && OptionsWithin(os, more + os) && OptionsWithin(os, os)
  {
    forall i | 0 <= i < |os|
      ensures HasOption(os[i], os + more) && HasOption(os[i], more + os) && HasOption(os[i], os)
    {
      assert os[i] in os && (os + more)[i] == os[i] && (more + os)[|more| + i] == os[i];
      assert EqualFold(os[i], (os + more)[i]) && EqualFold(os[i], (more + os)[|more| + i]) && EqualFold(os[i], os[i]);
    }
  }

  lemma InexpressibleExactly(nm: Naming, a: string, d: string)
    requires Lawful(nm) && a != "*" && d != "*" && "" !in OptionsOf(a) && "" !in OptionsOf(d)
    ensures Inexpressible(nm, a, d) <==> PartlyDenied(nm, a, d)
  {
    hide OptionsOf, BaseOf, OptionsWithin;
    var oa, od := OptionsOf(a), OptionsOf(d);
    if Inexpressible(nm, a, d) {
      var base := nm.primary(BaseOf(a));
      OwnOptions(oa, od);
      OwnOptions(od, oa);
      assert Means(nm, a, base, oa + od) && Means(nm, d, base, oa + od);
      assert Means(nm, a, base, oa) && !Means(nm, d, base, oa);
    }
    if PartlyDenied(nm, a, d) {
      var base, opts :| Means(nm, a, base, opts) && Means(nm, d, base, opts);
      CoveredHasType(nm, a, d, base, opts);
      var base', opts' :| Means(nm, a, base', opts') && !Means(nm, d, base', opts');
      if !Inexpressible(nm, a, d) { DenyTakesBack(nm, a, d, base', opts'); }
    }
  }

  /** Both lists restrict: neither is empty, and no star allows everything. */
  predicate BothRestrict(allow: seq<string>, deny: seq<string>) { deny != [] && allow != [] && "*" !in allow }

  /**
   * The lists compile exactly when they are short enough, no star is denied and, if both
   * restrict, no allow name is denied in part and something is left.
   */
  lemma CompilesExactly(nm: Naming, allow: seq<string>, deny: seq<string>)
    requires Lawful(nm) && Named(allow) && Named(deny)
    ensures var partly := exists i, j ::
              0 <= i < |allow| && 0 <= j < |deny| && PartlyDenied(nm, allow[i], deny[j]);
      var left := exists base, opts :: SomeMeans(nm, allow, base, opts) && !SomeMeans(nm, deny, base, opts);
      var short := |allow| <= 64 && |deny| <= 64;
      var r := DslTargetAttr(nm, allow, deny);
      && (r.Clause? <==> short && "*" !in deny && (BothRestrict(allow, deny) ==> !partly && left))
      && (r == Rejected(TooManyNames) <==> !short)
      && (r == Rejected(DenyStar) <==> short && "*" in deny)
      && (r == Rejected(DenyTooNarrow) <==> short && "*" !in deny && BothRestrict(allow, deny) && partly)
      && (r == Rejected(NothingLeft) <==> short && "*" !in deny && BothRestrict(allow, deny) && !partly && !left)
  {
    hide Lawful, PartlyDenied, SomeMeans, Inexpressible, Joined, Kept, OptionsOf;
    if BothRestrict(allow, deny) && "*" !in deny {
      StarFree(allow);
      StarFree(deny);
      forall i, j | 0 <= i < |allow| && 0 <= j < |deny|
        ensures Inexpressible(nm, allow[i], deny[j]) <==> PartlyDenied(nm, allow[i], deny[j])
      {
        InexpressibleExactly(nm, allow[i], deny[j]);
      }
      if forall i, j :: 0 <= i < |allow| && 0 <= j < |deny| ==> !Inexpressible(nm, allow[i], deny[j]) {
        SomethingLeft(nm, allow, deny);
      }
    }
  }

  lemma SomethingLeft(nm: Naming, allow: seq<string>, deny: seq<string>)
    requires Lawful(nm) && Named(allow) && "*" !in allow && "*" !in deny
    requires forall i, j :: 0 <= i < |allow| && 0 <= j < |deny| ==> !Inexpressible(nm, allow[i], deny[j])
    ensures Kept(nm, allow, deny) != [] <==>
              exists base, opts :: SomeMeans(nm, allow, base, opts) && !SomeMeans(nm, deny, base, opts)
  {
    hide Lawful, Inexpressible, Kept, OptionsOf, BaseOf, OptionsWithin;
    var kept := Kept(nm, allow, deny);
    if kept != [] {
      KeptMembers(nm, allow, deny);
      assert kept[0] in kept && kept[0] in allow;
      var base, opts := nm.primary(BaseOf(kept[0])), OptionsOf(kept[0]);
      OwnOptions(opts, []);
      assert Means(nm, kept[0], base, opts);
      KeptMeans(nm, allow, deny, base, opts);
    }
    if base, opts :| SomeMeans(nm, allow, base, opts) && !SomeMeans(nm, deny, base, opts) {
      KeptMeans(nm, allow, deny, base, opts);
    }
  }

  // ---------------------------------------------------------------------------
  // The compiler's loops
  // ---------------------------------------------------------------------------

  method DedupNames(names: seq<string>) returns (out: seq<string>)
    ensures out == DedupFold([], names)
  {
    hide Lower;
    out := [];
    var seen: set<string> := {};
    assert names[0..] == names;
    for i := 0 to |names|
      invariant forall k :: k in seen <==> exists j :: 0 <= j < |out| && Lower(out[j]) == k
      invariant DedupFold(out, names[i..]) == DedupFold([], names)
    {
      assert names[i..][0] == names[i] && names[i..][1..] == names[i + 1..];
      var k := Lower(names[i]);
      if k !in seen {
        seen := seen + {k};
        ghost var was := out;
        out := out + [names[i]];
        assert out[|was|] == names[i] && forall j :: 0 <= j < |was| ==> out[j] == was[j];
      } else {
        assert exists j :: 0 <= j < |out| && EqualFold(out[j], names[i]);
      }
    }
    assert names[|names|..] == [];
  }

  /** What is left of the allow list, or nothing when a deny name is too narrow. */
  method KeepAllowed(nm: Naming, allow: seq<string>, deny: seq<string>) returns (kept: Option<seq<string>>)
    ensures kept.None? <==> exists i, j :: 0 <= i < |allow| && 0 <= j < |deny| && Inexpressible(nm, allow[i], deny[j])
    ensures kept.Some? ==> kept.value == Kept(nm, allow, deny)
  {
    hide OptionsWithin, EqualFold, OptionsOf, BaseOf;
    var out: seq<string> := [];
    assert allow[0..] == allow && [] + Kept(nm, allow, deny) == Kept(nm, allow, deny);
    for i := 0 to |allow|
      invariant Kept(nm, allow, deny) == out + Kept(nm, allow[i..], deny)
      invariant forall k, j :: 0 <= k < i && 0 <= j < |deny| ==> !Inexpressible(nm, allow[k], deny[j])
    {
      assert allow[i..][0] == allow[i] && allow[i..][1..] == allow[i + 1..];
      var drop := false;
      for j := 0 to |deny|
        invariant drop <==> exists k :: 0 <= k < j && SameType(nm, allow[i], deny[k])
        invariant forall k :: 0 <= k < j ==> !Inexpressible(nm, allow[i], deny[k])
      {
        if !SameType(nm, allow[i], deny[j]) {
          continue;
        }
        if !OptionsWithin(OptionsOf(deny[j]), OptionsOf(allow[i])) {
          assert Inexpressible(nm, allow[i], deny[j]);
          return None;
        }
        drop := true;
      }
      if !drop {
        ConcatAssoc(out, [allow[i]], Kept(nm, allow[i + 1..], deny));
        out := out + [allow[i]];
      } else {
        assert [] + Kept(nm, allow[i + 1..], deny) == Kept(nm, allow[i + 1..], deny);
      }
    }
    assert allow[|allow|..] == [] && out + [] == out;
    kept := Some(out);
  }

  method CompileTargetAttr(nm: Naming, allow: seq<string>, deny: seq<string>) returns (r: Compiled)
    ensures r == DslTargetAttr(nm, allow, deny)
  {
    hide Inexpressible, Kept, DedupFold, EmittedAll;
    if |allow| > MAX_ATTRS || |deny| > MAX_ATTRS {
      return Rejected(TooManyNames);
    }
    var allowAll := |allow| == 0;
    for i := 0 to |allow|
      invariant allowAll <==> allow == [] || "*" in allow[..i]
    {
      if allow[i] == "*" {
        allowAll := true;
      }
      assert allow[..i + 1] == allow[..i] + [allow[i]];
    }
    assert allow[..|allow|] == allow;
    for i := 0 to |deny|
      invariant "*" !in deny[..i]
    {
      if deny[i] == "*" {
        return Rejected(DenyStar);
      }
      assert deny[..i + 1] == deny[..i] + [deny[i]];
    }
    assert deny[..|deny|] == deny;
    if |deny| == 0 {
      if allowAll {
        return Clause(Every);
      }
      var names := DedupNames(EmittedAll(nm, allow));
      return Clause(Allow(names));
    }
    if allowAll {
      var names := DedupNames(EmittedAll(nm, deny));
      return Clause(Deny(names));
    }
    var kept := KeepAllowed(nm, allow, deny);
    if kept.None? {
      return Rejected(DenyTooNarrow);
    }
    if |kept.value| == 0 {
      return Rejected(NothingLeft);
    }
    var names := DedupNames(EmittedAll(nm, kept.value));
    r := Clause(Allow(names));
  }
}
