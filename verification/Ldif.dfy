// LDIF export and its reader: entries are written one block at a time and read back.
module Ldif {
  import opened Text
  import opened LdifText

  datatype AttrKV = AttrKV(name: string, value: string)
  datatype SearchEntry = SearchEntry(dn: string, attributes: seq<AttrKV>)

  /** What the export leaves out. */
  datatype Options = Options(omitSecrets: bool, secret: string -> bool)

  // ---------------------------------------------------------------------------
  // Grouping
  // ---------------------------------------------------------------------------

  datatype Group = Group(name: string, values: seq<string>)

  predicate Kept(o: Options, a: AttrKV) {
    var n := NameText(a.name);
    n != "" && n != "dn" && !(o.omitSecrets && o.secret(n))
  }

  /** The values a name has among the kept attributes, in order. */
  function ValuesNamed(o: Options, attrs: seq<AttrKV>, name: string): seq<string> {
    if attrs == [] then []
    else
      var last, init := attrs[|attrs| - 1], attrs[..|attrs| - 1];
      ValuesNamed(o, init, name) + if Kept(o, last) && NameText(last.name) == name then [last.value] else []
  }

  /** Bytewise order. */
  predicate LessEq(a: string, b: string) {
    a == "" || (b != "" && (a[0] < b[0] || (a[0] == b[0] && LessEq(a[1..], b[1..]))))
  }

  lemma {:induction false} LessEqTotal(a: string, b: string)
    ensures LessEq(a, b) || LessEq(b, a)
    ensures LessEq(a, b) && LessEq(b, a) ==> a == b
  {
    if a != "" && b != "" {
      LessEqTotal(a[1..], b[1..]);
      assert a == [a[0]] + a[1..] && b == [b[0]] + b[1..];
    }
  }

  /** A text comes first when it begins the other one, or has the smaller byte where they first differ. */
  lemma {:induction false} LessEqExactly(a: string, b: string)
    ensures LessEq(a, b) <==>
              a <= b || exists k :: 0 <= k < |a| && k < |b| && a[..k] == b[..k] && a[k] < b[k]
  {
    if a != "" && b != "" {
      var a', b' := a[1..], b[1..];
      LessEqExactly(a', b');
      if a[0] == b[0] {
        assert a == [a[0]] + a' && b == [b[0]] + b';
        if k :| 0 <= k < |a'| && k < |b'| && a'[..k] == b'[..k] && a'[k] < b'[k] {
          assert a[..k + 1] == [a[0]] + a'[..k] && b[..k + 1] == [b[0]] + b'[..k];
        }
        if k :| 0 <= k < |a| && k < |b| && a[..k] == b[..k] && a[k] < b[k] {
          assert k > 0 && a'[..k - 1] == a[..k][1..] && b'[..k - 1] == b[..k][1..];
        }
      } else {
        if a[0] < b[0] { assert a[..0] == b[..0]; }
        assert forall k :: 0 < k <= |a| && k <= |b| ==> a[..k][0] == a[0] && b[..k][0] == b[0];
      }
    }
  }

  lemma {:induction false} LessEqTransitive(a: string, b: string, c: string)
    requires LessEq(a, b) && LessEq(b, c)
    ensures LessEq(a, c)
  {
    if a != "" && b != "" && c != "" && a[0] == b[0] == c[0] {
      LessEqTransitive(a[1..], b[1..], c[1..]);
    }
  }

  predicate Sorted(ss: seq<string>) { forall i, j :: 0 <= i < j < |ss| ==> LessEq(ss[i], ss[j]) }

  function Insert(s: string, ss: seq<string>): seq<string> {
    if ss == [] || LessEq(s, ss[0]) then [s] + ss else [ss[0]] + Insert(s, ss[1..])
  }

  function Sort(ss: seq<string>): seq<string> { if ss == [] then [] else Insert(ss[0], Sort(ss[1..])) }

  lemma {:induction false} InsertSorts(s: string, ss: seq<string>)
    requires Sorted(ss)
    ensures Sorted(Insert(s, ss)) && multiset(Insert(s, ss)) == multiset(ss) + multiset{s}
  {
    hide LessEq;
    if ss != [] && !LessEq(s, ss[0]) {
      InsertSorts(s, ss[1..]);
      LessEqTotal(s, ss[0]);
      var r := Insert(s, ss[1..]);
      assert ss == [ss[0]] + ss[1..];
      forall x | x in r ensures LessEq(ss[0], x) {
        assert x in multiset(r);
        assert x == s || x in multiset(ss[1..]);
      }
    } else if ss != [] {
      forall j | 0 <= j < |ss| ensures LessEq(s, ss[j]) {
        if j > 0 { LessEqTransitive(s, ss[0], ss[j]); }
      }
    }
  }

  lemma {:induction false} SortSorts(ss: seq<string>)
    ensures Sorted(Sort(ss)) && multiset(Sort(ss)) == multiset(ss) && |Sort(ss)| == |ss|
  {
    if ss != [] {
      SortSorts(ss[1..]);
      InsertSorts(ss[0], Sort(ss[1..]));
      assert ss == [ss[0]] + ss[1..];
      assert |multiset(Sort(ss))| == |Sort(ss)|;
    }
  }

  function Names(gs: seq<Group>): (r: seq<string>)
    ensures |r| == |gs|
  {
    seq(|gs|, i requires 0 <= i < |gs| => gs[i].name)
  }

  /** Index of the group with that name; |gs| when there is none. */
  function GroupAt(gs: seq<Group>, name: string): (i: nat)
    ensures i <= |gs| && (i < |gs| ==> gs[i].name == name)
    ensures forall k :: 0 <= k < i ==> gs[k].name != name
  {
    if gs == [] || gs[0].name == name then 0 else 1 + GroupAt(gs[1..], name)
  }

  function AddValue(gs: seq<Group>, name: string, value: string): seq<Group> {
    var i := GroupAt(gs, name);
    if i == |gs| then gs + [Group(name, [value])] else gs[i := gs[i].(values := gs[i].values + [value])]
  }

  /** Attributes collected under their lowercase names, in order of first appearance. */
  function Collect(o: Options, attrs: seq<AttrKV>): seq<Group> {
    if attrs == [] then []
    else
      var last, init := attrs[|attrs| - 1], attrs[..|attrs| - 1];
      if Kept(o, last) then AddValue(Collect(o, init), NameText(last.name), last.value) else Collect(o, init)
  }

  /** gs holds exactly the kept attributes: one group a name, its values in order. */
  ghost predicate Collected(o: Options, attrs: seq<AttrKV>, gs: seq<Group>) {
    && DistinctNames(gs)
    && (forall i :: 0 <= i < |gs| ==> gs[i].values == ValuesNamed(o, attrs, gs[i].name) && gs[i].values != [])
    && forall n :: ValuesNamed(o, attrs, n) != [] ==> GroupAt(gs, n) < |gs|
  }

  lemma {:induction false} CollectFacts(o: Options, attrs: seq<AttrKV>)
    ensures Collected(o, attrs, Collect(o, attrs))
  {
    hide Kept, NameText, Collected;
    if attrs == [] {
      NothingCollected(o);
    } else {
      var last, init := attrs[|attrs| - 1], attrs[..|attrs| - 1];
      CollectFacts(o, init);
      if Kept(o, last) {
        CollectedMore(o, attrs, Collect(o, init));
      } else {
        CollectedSame(o, attrs, Collect(o, init));
      }
    }
  }

  lemma NothingCollected(o: Options)
    ensures Collected(o, [], [])
  {
  }

  lemma CollectedSame(o: Options, attrs: seq<AttrKV>, gs: seq<Group>)
    requires attrs != [] && Collected(o, attrs[..|attrs| - 1], gs) && !Kept(o, attrs[|attrs| - 1])
    ensures Collected(o, attrs, gs)
  {
    hide Kept, NameText;
    forall n ensures ValuesNamed(o, attrs, n) == ValuesNamed(o, attrs[..|attrs| - 1], n) {
      assert ValuesNamed(o, attrs[..|attrs| - 1], n) + [] == ValuesNamed(o, attrs[..|attrs| - 1], n);
    }
  }

  lemma ValuesMore(o: Options, attrs: seq<AttrKV>, n: string)
    requires attrs != [] && Kept(o, attrs[|attrs| - 1])
    ensures var last := attrs[|attrs| - 1];
      ValuesNamed(o, attrs, n) == ValuesNamed(o, attrs[..|attrs| - 1], n) + if NameText(last.name) == n
          then [last.value] else []
  {
    hide Kept, NameText;
  }

  lemma GroupAtIs(gs: seq<Group>, n: string, i: nat)
    requires i <= |gs| && (i < |gs| ==> gs[i].name == n) && forall k :: 0 <= k < i ==> gs[k].name != n
    ensures GroupAt(gs, n) == i
  {
  }

  predicate DistinctNames(gs: seq<Group>) { forall i, j :: 0 <= i < j < |gs| ==> gs[i].name != gs[j].name }

  /** Adding a value keeps names distinct and changes the values of its own name only. */
  lemma AddValueFacts(gs: seq<Group>, name: string, value: string)
    requires DistinctNames(gs)
    ensures var hs, at := AddValue(gs, name, value), GroupAt(gs, name);
      && DistinctNames(hs) && |gs| <= |hs| && (at == |gs| ==> |hs| == |gs| + 1)
      && (forall n :: GroupAt(hs, n) == if n == name || GroupAt(gs, n) < |gs| then GroupAt(gs, n) else |hs|)
      && forall i :: 0 <= i < |hs| ==>
           (hs[i].name == name && hs[i].values == (if at < |gs| then gs[at].values else []) + [value])
           || (hs[i].name != name && i < |gs| && hs[i] == gs[i])
  {
    var hs, at := AddValue(gs, name, value), GroupAt(gs, name);
    assert forall i :: 0 <= i < |hs| ==> hs[i].name == if i < |gs| then gs[i].name else name;
    forall n ensures GroupAt(hs, n) == if n == name || GroupAt(gs, n) < |gs| then GroupAt(gs, n) else |hs| {
      GroupAtIs(hs, n, if n == name || GroupAt(gs, n) < |gs| then GroupAt(gs, n) else |hs|);
    }
    assert [] + [value] == [value];
  }

  lemma CollectedMore(o: Options, attrs: seq<AttrKV>, gs: seq<Group>)
    requires attrs != [] && Collected(o, attrs[..|attrs| - 1], gs) && Kept(o, attrs[|attrs| - 1])
    ensures Collected(o, attrs, AddValue(gs, NameText(attrs[|attrs| - 1].name), attrs[|attrs| - 1].value))
  {
    hide Kept, NameText, ValuesNamed, AddValue;
    var last, init := attrs[|attrs| - 1], attrs[..|attrs| - 1];
    var name := NameText(last.name);
    var hs := AddValue(gs, name, last.value);
    AddValueFacts(gs, name, last.value);
    forall n
      ensures n == name ==> ValuesNamed(o, attrs, n) == ValuesNamed(o, init, n) + [last.value]
      ensures n != name ==> ValuesNamed(o, attrs, n) == ValuesNamed(o, init, n)
    {
      ValuesMore(o, attrs, n);
      assert ValuesNamed(o, init, n) + [] == ValuesNamed(o, init, n);
    }
  }

  function InsertGroup(g: Group, gs: seq<Group>): seq<Group> {
    if gs == [] || LessEq(g.name, gs[0].name) then [g] + gs else [gs[0]] + InsertGroup(g, gs[1..])
  }

  function SortGroups(gs: seq<Group>): seq<Group> { if gs == [] then [] else InsertGroup(gs[0], SortGroups(gs[1..])) }

  predicate SortedByName(gs: seq<Group>) { forall i, j :: 0 <= i < j < |gs| ==> LessEq(gs[i].name, gs[j].name) }

  lemma {:induction false} InsertGroupSorts(g: Group, gs: seq<Group>)
    requires SortedByName(gs)
    ensures SortedByName(InsertGroup(g, gs)) && multiset(InsertGroup(g, gs)) == multiset(gs) + multiset{g}
  {
    hide LessEq;
    if gs != [] && !LessEq(g.name, gs[0].name) {
      InsertGroupSorts(g, gs[1..]);
      LessEqTotal(g.name, gs[0].name);
      var r := InsertGroup(g, gs[1..]);
      assert gs == [gs[0]] + gs[1..];
      forall x | x in r ensures LessEq(gs[0].name, x.name) {
        assert x in multiset(r);
        assert x == g || x in multiset(gs[1..]);
      }
    } else if gs != [] {
      forall j | 0 <= j < |gs| ensures LessEq(g.name, gs[j].name) {
        if j > 0 { LessEqTransitive(g.name, gs[0].name, gs[j].name); }
      }
    }
  }

  lemma {:induction false} SortGroupsSorts(gs: seq<Group>)
    ensures SortedByName(SortGroups(gs)) && multiset(SortGroups(gs)) == multiset(gs)
  {
    if gs != [] {
      SortGroupsSorts(gs[1..]);
      InsertGroupSorts(gs[0], SortGroups(gs[1..]));
      assert gs == [gs[0]] + gs[1..];
    }
  }

  lemma {:induction false} InsertGroupDistinct(g: Group, gs: seq<Group>)
    requires DistinctNames(gs) && forall i :: 0 <= i < |gs| ==> gs[i].name != g.name
    ensures DistinctNames(InsertGroup(g, gs))
    ensures forall h :: h in InsertGroup(g, gs) ==> h == g || h in gs
  {
    hide LessEq;
    if gs != [] && !LessEq(g.name, gs[0].name) {
      var rest := InsertGroup(g, gs[1..]);
      InsertGroupDistinct(g, gs[1..]);
      forall i | 0 <= i < |rest| ensures rest[i].name != gs[0].name {
        assert rest[i] in rest;
        if rest[i] != g {
          var j :| 0 <= j < |gs[1..]| && gs[1..][j] == rest[i];
        }
      }
    }
  }

  /** Sorting the groups keeps their names apart. */
  lemma {:induction false} SortGroupsDistinct(gs: seq<Group>)
    requires DistinctNames(gs)
    ensures DistinctNames(SortGroups(gs)) && forall h :: h in SortGroups(gs) ==> h in gs
  {
    if gs != [] {
      var rest := SortGroups(gs[1..]);
      SortGroupsDistinct(gs[1..]);
      forall i | 0 <= i < |rest| ensures rest[i].name != gs[0].name {
        assert rest[i] in gs[1..];
        var j :| 0 <= j < |gs[1..]| && gs[1..][j] == rest[i];
      }
      InsertGroupDistinct(gs[0], rest);
    }
  }

  function SortEach(gs: seq<Group>): (r: seq<Group>)
    ensures |r| == |gs|
  {
    seq(|gs|, i requires 0 <= i < |gs| => Group(gs[i].name, Sort(gs[i].values)))
  }

  /** groupExportAttrs: names in order, and under each name its values in order. */
  function Grouped(o: Options, attrs: seq<AttrKV>): seq<Group> { SortEach(SortGroups(Collect(o, attrs))) }

  /** A group holds the kept values of its name, sorted. */
  ghost predicate HoldsValues(o: Options, attrs: seq<AttrKV>, g: Group) {
    Sorted(g.values) && multiset(g.values) == multiset(ValuesNamed(o, attrs, g.name)) && g.values != []
  }

  /** The export lists every kept value once, under its lowercase name, sorted by name and value. */
  lemma GroupedFacts(o: Options, attrs: seq<AttrKV>, name: string)
    ensures var gs := Grouped(o, attrs);
      && SortedByName(gs) && DistinctNames(gs)
      && (forall i :: 0 <= i < |gs| ==> HoldsValues(o, attrs, gs[i]))
      && (ValuesNamed(o, attrs, name) != [] ==> exists i :: 0 <= i < |gs| && gs[i].name == name)
  {
    hide LessEq, Sort, Kept, NameText, Collect, ValuesNamed, SortGroups, Sorted;
    var cs := Collect(o, attrs);
    CollectFacts(o, attrs);
    SortGroupsSorts(cs);
    SortGroupsDistinct(cs);
    var ss := SortGroups(cs);
    forall i | 0 <= i < |ss| ensures Sorted(Sort(ss[i].values))
        && multiset(Sort(ss[i].values)) == multiset(ValuesNamed(o, attrs, ss[i].name)) && Sort(ss[i].values) != [] {
      SortSorts(ss[i].values);
      assert ss[i] in multiset(cs);
      assert ss[i] in cs;
    }
    if ValuesNamed(o, attrs, name) != [] {
      var k := GroupAt(cs, name);
      assert cs[k] in multiset(ss);
      var i :| 0 <= i < |ss| && ss[i] == cs[k];
      assert Grouped(o, attrs)[i].name == name;
    }
  }

  /** The collecting loop with its index from name to place. */
  method CollectAttrs(o: Options, attrs: seq<AttrKV>) returns (out: seq<Group>)
    ensures out == Collect(o, attrs)
  {
    hide Kept, NameText, ValuesNamed;
    var idx: map<string, nat> := map[];
    out := [];
    assert attrs[..0] == [];
    for i := 0 to |attrs|
      invariant out == Collect(o, attrs[..i])
      invariant forall n :: n in idx ==> idx[n] < |out| && GroupAt(out, n) == idx[n]
      invariant forall n :: n !in idx ==> GroupAt(out, n) == |out|
    {
      var a := attrs[i];
      ghost var was := out;
      assert attrs[..i + 1][..i] == attrs[..i] && attrs[..i + 1][i] == a;
      var name := NameText(a.name);
      if !Kept(o, a) {
        continue;
      }
      if name !in idx {
        out := out + [Group(name, [a.value])];
        IndexAfterAppend(was, Group(name, [a.value]));
        idx := idx[name := |out| - 1];
      } else {
        var k := idx[name];
        out := out[k := out[k].(values := out[k].values + [a.value])];
        IndexAfterUpdate(was, k, out[k]);
      }
    }
    assert attrs[..|attrs|] == attrs;
  }

  lemma IndexAfterAppend(gs: seq<Group>, g: Group)
    ensures forall n :: GroupAt(gs + [g], n) ==
              if GroupAt(gs, n) < |gs| || g.name == n then GroupAt(gs, n) else |gs| + 1
  {
    var hs := gs + [g];
    assert hs[|gs|] == g && forall k :: 0 <= k < |gs| ==> hs[k] == gs[k];
    forall n ensures GroupAt(hs, n) == if GroupAt(gs, n) < |gs| || g.name == n then GroupAt(gs, n) else |gs| + 1 {
      GroupAtIs(hs, n, if GroupAt(gs, n) < |gs| || g.name == n then GroupAt(gs, n) else |gs| + 1);
    }
  }

  lemma IndexAfterUpdate(gs: seq<Group>, k: nat, g: Group)
    requires k < |gs| && g.name == gs[k].name
    ensures forall n :: GroupAt(gs[k := g], n) == GroupAt(gs, n)
  {
    var hs := gs[k := g];
    assert forall m :: 0 <= m < |gs| ==> hs[m].name == gs[m].name;
    forall n ensures GroupAt(hs, n) == GroupAt(gs, n) {
      GroupAtIs(hs, n, GroupAt(gs, n));
    }
  }

  // ---------------------------------------------------------------------------
  // Writing
  // ---------------------------------------------------------------------------

  function GroupPairs(g: Group): (r: seq<AttrKV>)
    ensures |r| == |g.values|
  {
    seq(|g.values|, i requires 0 <= i < |g.values| => AttrKV(g.name, g.values[i]))
  }

  function Flatten(gs: seq<Group>): seq<AttrKV> { if gs == [] then [] else GroupPairs(gs[0]) + Flatten(gs[1..]) }

  /** What an entry is exported as. */
  function Exported(o: Options, e: SearchEntry): SearchEntry { SearchEntry(e.dn, Flatten(Grouped(o, e.attributes))) }

  function PairLines(b: Base64, pairs: seq<AttrKV>): (r: seq<string>)
    ensures |r| == |pairs|
  {
    seq(|pairs|, i requires 0 <= i < |pairs| => Pair(b, pairs[i].name, pairs[i].value))
  }

  /** The logical lines of one block: the DN, the values, a blank line. */
  function EntryLines(b: Base64, e: SearchEntry): seq<string> {
    [Pair(b, "dn", e.dn)] + PairLines(b, e.attributes) + [""]
  }

  /** Lines written one after another, each folded. */
  function Block(lines: seq<string>): string { if lines == [] then "" else FoldedLine(lines[0]) + Block(lines[1..]) }

  /** encodeLDIFEntry. */
  function EncodeEntry(b: Base64, o: Options, e: SearchEntry): string { Block(EntryLines(b, Exported(o, e))) }

  const VERSION_LINE := "version: 1"
  const EXPORT_LINE := "# labldap export"
  const OMIT_LINE := "# omitSecrets: true"
  const COMPLETE_MARK := "# labldap: export complete"

  function HeaderText(o: Options): string {
    VERSION_LINE + (['\n'] + (EXPORT_LINE + (['\n'] + ((if o.omitSecrets then OMIT_LINE + ['\n'] else "") + ['\n']))))
  }

  function HeaderLines(o: Options): seq<string> {
    [VERSION_LINE, EXPORT_LINE] + (if o.omitSecrets then [OMIT_LINE] else []) + [""]
  }

  function Blocks(b: Base64, o: Options, es: seq<SearchEntry>): string {
    if es == [] then "" else Blocks(b, o, es[..|es| - 1]) + EncodeEntry(b, o, es[|es| - 1])
  }

  /** The export of some entries, with or without its success trailer. */
  function Document(b: Base64, o: Options, es: seq<SearchEntry>, complete: bool): string {
    HeaderText(o) + Blocks(b, o, es) + if complete then COMPLETE_MARK + ['\n'] else ""
  }

  datatype Failure = Closed | TooManyEntries | TooManyBytes

  /**
   * Why an entry is not written: the header alone is too long, or the count or the document
   * with it exceeds a limit.
   */
  function Refusal(b: Base64, o: Options, maxEntries: nat, maxBytes: nat, es: seq<SearchEntry>,
      e: SearchEntry): Option<Failure> {
    if maxBytes > 0 && |HeaderText(o)| > maxBytes then Some(TooManyBytes)
    else if maxEntries > 0 && |es| + 1 > maxEntries then Some(TooManyEntries)
    else if maxBytes > 0 && |Document(b, o, es + [e], false)| > maxBytes then Some(TooManyBytes)
    else None
  }

  /** Writes LDIF one entry at a time, within its limits; zero means no limit. The writer itself never fails. */
  class Encoder {
    const base64: Base64
    const options: Options
    const maxEntries: nat
    const maxBytes: nat
    var out: string
    var wrote: nat
    var entries: nat
    var header: bool
    var closed: bool
    ghost var written: seq<SearchEntry>

    ghost predicate Valid()
      reads this
    {
      && wrote == |out| && (maxBytes > 0 ==> wrote <= maxBytes)
      && entries == |written| && (maxEntries > 0 ==> entries <= maxEntries)
      && (closed ==> header)
      && out == (if header then Document(base64, options, written, closed) else "")
      && (!header ==> written == [])
    }

    constructor (base64: Base64, options: Options, maxEntries: nat, maxBytes: nat)
      ensures Valid() && !header && !closed && written == []
      ensures this.base64 == base64 && this.options == options && this.maxEntries == maxEntries
      ensures this.maxBytes == maxBytes
    {
      this.base64, this.options, this.maxEntries, this.maxBytes := base64, options, maxEntries, maxBytes;
      out, wrote, entries, header, closed, written := "", 0, 0, false, false, [];
    }

    method WriteRaw(s: string) returns (ok: bool)
      modifies this`out, this`wrote
      ensures ok <==> maxBytes == 0 || old(wrote) + |s| <= maxBytes
      ensures out == (if ok then old(out) + s else old(out)) && wrote == old(wrote) + if ok then |s| else 0
    {
      if maxBytes > 0 && wrote + |s| > maxBytes {
        return false;
      }
      out := out + s;
      wrote := wrote + |s|;
      ok := true;
    }

    method EnsureHeader() returns (ok: bool)
      requires Valid()
      modifies this`out, this`wrote, this`header
      ensures Valid() && (ok <==> header)
      ensures ok <==> old(header) || maxBytes == 0 || |HeaderText(options)| <= maxBytes
      ensures !ok ==> out == old(out)
    {
      hide HeaderText;
      if header {
        return true;
      }
      var s := HeaderText(options);
      assert "" + s == s && s + "" + "" == s;
      ok := WriteRaw(s);
      if !ok {
        return;
      }
      header := true;
    }

    /** One entry goes out whole, or not at all. */
    method WriteEntry(e: SearchEntry) returns (err: Option<Failure>)
      requires Valid()
      modifies this
      ensures Valid() && closed == old(closed)
      ensures written == if err.None? then old(written) + [e] else old(written)
      ensures err == if old(closed) then Some(Closed)
                else Refusal(base64, options, maxEntries, maxBytes, old(written), e)
    {
      hide HeaderText, EncodeEntry;
      if closed {
        return Some(Closed);
      }
      var ok := EnsureHeader();
      if !ok {
        return Some(TooManyBytes);
      }
      if maxEntries > 0 && entries + 1 > maxEntries {
        return Some(TooManyEntries);
      }
      var block := EncodeEntry(base64, options, e);
      if maxBytes > 0 && wrote + |block| > maxBytes {
        return Some(TooManyBytes);
      }
      assert (written + [e])[..|written|] == written;
      ConcatAssoc(HeaderText(options), Blocks(base64, options, written), block);
      assert out + block == Document(base64, options, written + [e], false) by {
        assert HeaderText(options) + Blocks(base64, options, written) + ""
            == HeaderText(options) + Blocks(base64, options, written);
        assert HeaderText(options) + Blocks(base64, options, written + [e]) + ""
            == HeaderText(options) + Blocks(base64, options, written + [e]);
      }
      ok := WriteRaw(block);
      entries := entries + 1;
      written := written + [e];
      err := None;
    }

    /** The success trailer. */
    method Close() returns (err: Option<Failure>)
      requires Valid()
      modifies this
      ensures Valid() && written == old(written) && (err.None? <==> closed) && (err.Some? ==> err == Some(TooManyBytes))
      ensures err.None? <==> old(closed) || maxBytes == 0 || |Document(base64, options, old(written), true)| <= maxBytes
    {
      hide HeaderText, Blocks;
      if closed {
        return None;
      }
      var ok := EnsureHeader();
      if !ok {
        return Some(TooManyBytes);
      }
      var line := COMPLETE_MARK + ['\n'];
      if maxBytes > 0 && wrote + |line| > maxBytes {
        return Some(TooManyBytes);
      }
      assert HeaderText(options) + Blocks(base64, options, written) + ""
          == HeaderText(options) + Blocks(base64, options, written);
      ok := WriteRaw(line);
      closed := true;
      err := None;
    }
  }
}
