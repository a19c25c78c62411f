// The request messages of RFC 4511 as packets, tag by tag: what the decoder accepts, and as
// what, compared with the protocol's own definition.
module Protocol {
  import opened Text
  import opened Codec
  import opened Messages

  // ---------------------------------------------------------------------------
  // Scalars
  // ---------------------------------------------------------------------------

  function Place(k: nat): nat { if k == 0 then 1 else Place(k - 1) * 256 }

  /** The octets of s by their places, most significant first. */
  function PlaceValue(s: string): nat {
    if s == "" then 0 else s[0] as int * Place(|s| - 1) + PlaceValue(s[1..])
  }

  lemma {:induction false} PlaceSnoc(s: string, c: char)
    ensures PlaceValue(s + [c]) == PlaceValue(s) * 256 + c as int
  {
    if s == "" {
      assert s + [c] == [c] && [c][1..] == "";
    } else {
      PlaceSnoc(s[1..], c);
      assert (s + [c])[1..] == s[1..] + [c];
      PlaceTimes(s[0] as int, |s| - 1);
    }
  }

  lemma PlaceTimes(a: nat, k: nat)
    ensures a * Place(k + 1) == a * Place(k) * 256
  {
  }

  lemma {:induction false} UnsignedIsPlace(s: string)
    ensures Unsigned(s) == PlaceValue(s)
  {
    if s != "" {
      UnsignedIsPlace(s[..|s| - 1]);
      PlaceSnoc(s[..|s| - 1], s[|s| - 1]);
      assert s == s[..|s| - 1] + [s[|s| - 1]];
    }
  }

  lemma {:induction false} PowerIsPlace(k: nat)
    ensures Power256(k) == Place(k)
  {
    if k > 0 { PowerIsPlace(k - 1); }
  }

  /** One to eight octets; a set top bit counts the whole as negative. */
  ghost predicate Integer(s: string, n: int) {
    1 <= |s| <= 8 && n == PlaceValue(s) - if s[0] as int >= 128 then Place(|s|) else 0
  }

  lemma IntegerExactly(s: string, n: int)
    ensures ParseInt(s) == Some(n) <==> Integer(s, n)
  {
    UnsignedIsPlace(s);
    PowerIsPlace(|s|);
  }

  /** What is written for a number is as short as it can be, and its top bit is clear. */
  lemma {:induction false} IntegerIsShort(n: nat)
    ensures var s := IntOctets(n);
      s[0] as int < 128 && (|s| > 1 ==> s[0] as int > 0 || s[1] as int >= 128) && PlaceValue(s) == n
  {
    IntOctetsValue(n);
    UnsignedIsPlace(IntOctets(n));
    if n >= 128 { ShortStep(n); }
  }

  lemma {:induction false} ShortStep(n: nat)
    requires n >= 128
    ensures var s := IntOctets(n); |s| > 1 && (s[0] as int > 0 || s[1] as int >= 128)
    decreases n
  {
    var q := IntOctets(n / 256);
    if n / 256 >= 128 {
      ShortStep(n / 256);
    } else {
      assert q == [(n / 256) as char];
      assert IntOctets(n)[1] == (n % 256) as char;
    }
  }

  ghost predicate OctetsOf(p: Packet, s: string) { p == Primitive(Universal, 4, s) }

  ghost predicate NumberOf(p: Packet, tag: nat, n: int, hi: int) {
    p.Primitive? && p.class_ == Universal && p.tag == tag && Integer(p.data, n) && 0 <= n <= hi
  }

  ghost predicate TruthOf(p: Packet, b: bool) {
    p.Primitive? && p.class_ == Universal && p.tag == 1 && |p.data| == 1 && (b <==> p.data[0] as int != 0)
  }

  ghost predicate SequenceOf(p: Packet) { p.Constructed? && p.class_ == Universal && p.tag == 16 }

  lemma Scalars(p: Packet)
    ensures forall s :: OctetString(p) == Ok(s) <==> OctetsOf(p, s)
    ensures forall b :: Boolean(p) == Ok(b) <==> TruthOf(p, b)
    ensures forall tag: nat, n, hi :: Number(p, tag, 0, hi) == Ok(n) <==> NumberOf(p, tag, n, hi)
    ensures IsSequence(p) <==> SequenceOf(p)
  {
    hide ParseInt, Integer;
    forall n ensures p.Primitive? ==> (ParseInt(p.data) == Some(n) <==> Integer(p.data, n)) {
      if p.Primitive? { IntegerExactly(p.data, n); }
    }
  }

  // ---------------------------------------------------------------------------
  // Filters (section 4.5.1 of RFC 4511)
  // ---------------------------------------------------------------------------

  /** The data of the runs with that tag, in order. */
  function RunData(ps: seq<Packet>, tag: nat): seq<string> {
    if ps == [] then []
    else (if ps[0].Primitive? && ps[0].tag == tag then [ps[0].data] else []) + RunData(ps[1..], tag)
  }

  /** Nothing, or one. */
  predicate AtMostOne(ss: seq<string>, s: Option<string>) { ss == if s.Some? then [s.value] else [] }

  predicate AllRuns(ps: seq<Packet>) {
    ps == [] || (ps[0].Primitive? && ps[0].class_ == Context && ps[0].tag <= 2 && AllRuns(ps[1..]))
  }

  ghost predicate RunsOf(ps: seq<Packet>, initial: Option<string>, any: seq<string>, final: Option<string>) {
    && AllRuns(ps)
    && AtMostOne(RunData(ps, 0), initial) && RunData(ps, 1) == any && AtMostOne(RunData(ps, 2), final)
  }

  ghost predicate AssertionOf(p: Packet, attr: string, value: string) {
    p.Constructed? && |p.children| == 2 && OctetsOf(p.children[0], attr) && attr != "" && OctetsOf(p.children[1], value)
  }

  ghost predicate FilterOf(p: Packet, f: Filter)
    decreases p
  {
    && p.class_ == Context
    && match f
       case And(fs) => p.Constructed? && p.tag == 0 && FiltersOf(p.children, fs)
       case Or(fs) => p.Constructed? && p.tag == 1 && FiltersOf(p.children, fs)
       case Not(g) => p.Constructed? && p.tag == 2 && |p.children| == 1 && FilterOf(p.children[0], g)
       case Equality(a, v) => p.tag == 3 && AssertionOf(p, a, v)
       case Substrings(a, initial, any, final) =>
         && p.Constructed? && p.tag == 4 && |p.children| == 2 && OctetsOf(p.children[0], a) && a != ""
         && SequenceOf(p.children[1]) && p.children[1].children != []
         && RunsOf(p.children[1].children, initial, any, final)
       case GreaterOrEqual(a, v) => p.tag == 5 && AssertionOf(p, a, v)
       case LessOrEqual(a, v) => p.tag == 6 && AssertionOf(p, a, v)
       case Present(a) => p.Primitive? && p.tag == 7 && p.data == a && a != ""
       case Approx(a, v) => p.tag == 8 && AssertionOf(p, a, v)
  }

  ghost predicate FiltersOf(ps: seq<Packet>, fs: seq<Filter>)
    decreases ps
  {
    if ps == [] then fs == [] else fs != [] && FilterOf(ps[0], fs[0]) && FiltersOf(ps[1..], fs[1..])
  }

  /** The first part that is no filter of the protocol subset is an extensible match, which has tag 9. */
  ghost predicate Extensible(p: Packet)
    decreases p
  {
    && p.class_ == Context
    && (p.tag == 9 || ((p.tag == 0 || p.tag == 1) && p.Constructed? && SomeExtensible(p.children))
        || (p.tag == 2 && p.Constructed? && |p.children| == 1 && Extensible(p.children[0])))
  }

  ghost predicate SomeExtensible(ps: seq<Packet>)
    decreases ps
  {
    ps != [] && (Extensible(ps[0]) || ((exists f :: FilterOf(ps[0], f)) && SomeExtensible(ps[1..])))
  }

  lemma AssertionExactly(p: Packet, a: string, v: string)
    ensures DecodeAVA(p) == Ok((a, v)) <==> AssertionOf(p, a, v)
  {
    if p.Constructed? && |p.children| == 2 {
      Scalars(p.children[0]);
      Scalars(p.children[1]);
    }
  }

  /** One value, taken before or among the data that follow. */
  ghost predicate Fills(before: Option<string>, ss: seq<string>, after: Option<string>) {
    if before.Some? then ss == [] && after == before else AtMostOne(ss, after)
  }

  lemma FillsCons(before: Option<string>, s: string, ss: seq<string>, after: Option<string>)
    ensures Fills(before, [s] + ss, after) <==> before.None? && Fills(Some(s), ss, after)
  {
    assert |[s] + ss| == 1 + |ss| && ([s] + ss)[0] == s;
    if ss == [] { assert [s] + ss == [s]; }
  }

  /** Taking the runs one after the other, from what has been taken. */
  lemma {:induction false} RunsExactly(c: Choices, ps: seq<Packet>, d: Choices)
    ensures TakeChoices(c, ps) == Ok(d) <==>
              && AllRuns(ps) && Fills(c.initial, RunData(ps, 0), d.initial)
              && d.any == c.any + RunData(ps, 1) && Fills(c.final, RunData(ps, 2), d.final)
    decreases ps
  {
    if ps == [] {
      assert c.any + [] == c.any;
    } else {
      var p, rest := ps[0], ps[1..];
      RunDataCons(ps, 0);
      RunDataCons(ps, 1);
      RunDataCons(ps, 2);
      var r := TakeChoice(c, p);
      if p.Primitive? {
        FillsCons(c.initial, p.data, RunData(rest, 0), d.initial);
        FillsCons(c.final, p.data, RunData(rest, 2), d.final);
        ConcatAssoc(c.any, [p.data], RunData(rest, 1));
      }
      hide RunData, Fills;
      if r.Ok? { RunsExactly(r.value, rest, d); }
    }
  }

  lemma RunDataCons(ps: seq<Packet>, tag: nat)
    requires ps != []
    ensures RunData(ps, tag) ==
            if ps[0].Primitive? && ps[0].tag == tag then [ps[0].data] + RunData(ps[1..], tag) else RunData(ps[1..], tag)
  {
    assert [] + RunData(ps[1..], tag) == RunData(ps[1..], tag);
  }

  lemma SubstringsExactly(p: Packet, f: Filter)
    requires p.class_ == Context && p.tag == 4
    ensures DecodeSubstrings(p) == Ok(f) <==> f.Substrings? && FilterOf(p, f)
  {
    hide TakeChoices, AllRuns, RunData, OctetString;
    if p.Constructed? && |p.children| == 2 {
      Scalars(p.children[0]);
      Scalars(p.children[1]);
      var list := p.children[1];
      if IsSequence(list) {
        var c0 := Choices(None, [], None);
        forall d: Choices ensures TakeChoices(c0, list.children) == Ok(d) <==>
            RunsOf(list.children, d.initial, d.any, d.final) {
          RunsExactly(c0, list.children, d);
          assert [] + RunData(list.children, 1) == RunData(list.children, 1);
        }
        if f.Substrings? {
          assert RunsOf(list.children, f.initial, f.any, f.final) <==>
              TakeChoices(c0, list.children) == Ok(Choices(f.initial, f.any, f.final));
        }
      }
    }
  }

  /** The decoder reads exactly the filters of the protocol, and calls unsupported exactly the extensible ones. */
  lemma {:induction false} FilterExactly(p: Packet, f: Filter)
    ensures DecodeFilter(p) == Ok(f) <==> FilterOf(p, f)
    decreases p
  {
    hide DecodeAVA, DecodeSubstrings;
    if p.class_ == Context {
      if p.tag == 0 || p.tag == 1 {
        if p.Constructed? && (f.And? || f.Or?) { FiltersExactly(p.children, f.children); }
      } else if p.tag == 2 {
        if p.Constructed? && |p.children| == 1 && f.Not? { FilterExactly(p.children[0], f.child); }
      } else if p.tag == 4 {
        SubstringsExactly(p, f);
      } else if p.tag == 7 {
      } else if p.tag == 3 || p.tag == 5 || p.tag == 6 || p.tag == 8 {
        LeafExactly(p, f);
      }
    }
  }

  lemma LeafExactly(p: Packet, f: Filter)
    requires p.class_ == Context && (p.tag == 3 || p.tag == 5 || p.tag == 6 || p.tag == 8)
    ensures DecodeFilter(p) == Ok(f) <==> FilterOf(p, f)
  {
    hide DecodeAVA, AssertionOf;
    if f.Equality? || f.GreaterOrEqual? || f.LessOrEqual? || f.Approx? {
      AssertionExactly(p, f.attr, f.value);
      var r := DecodeAVA(p);
      if r.Ok? { assert r.value == (r.value.0, r.value.1); }
    }
  }

  lemma {:induction false} FiltersExactly(ps: seq<Packet>, fs: seq<Filter>)
    ensures DecodeFilters(ps) == Ok(fs) <==> FiltersOf(ps, fs)
    decreases ps
  {
    hide DecodeFilter, FilterOf;
    if ps != [] && fs != [] {
      FilterExactly(ps[0], fs[0]);
      FiltersExactly(ps[1..], fs[1..]);
      assert fs == [fs[0]] + fs[1..];
    }
  }

  /** And it calls unsupported exactly those whose first other part is an extensible match. */
  lemma {:induction false} ExtensibleExactly(p: Packet)
    ensures DecodeFilter(p) == Unsupported <==> Extensible(p)
    decreases p
  {
    hide DecodeAVA, DecodeSubstrings;
    SubstringsSupported(p);
    if p.class_ == Context {
      if p.tag == 0 || p.tag == 1 {
        if p.Constructed? { SomeExtensibleExactly(p.children); }
      } else if p.tag == 2 {
        if p.Constructed? && |p.children| == 1 { ExtensibleExactly(p.children[0]); }
      }
    }
  }

  lemma SubstringsSupported(p: Packet)
    ensures DecodeSubstrings(p) != Unsupported
  {
  }

  lemma {:induction false} SomeExtensibleExactly(ps: seq<Packet>)
    ensures DecodeFilters(ps) == Unsupported <==> SomeExtensible(ps)
    decreases ps
  {
    hide DecodeFilter, FilterOf, Extensible;
    if ps != [] {
      ExtensibleExactly(ps[0]);
      SomeExtensibleExactly(ps[1..]);
      forall f ensures DecodeFilter(ps[0]) == Ok(f) <==> FilterOf(ps[0], f) { FilterExactly(ps[0], f); }
      if DecodeFilter(ps[0]).Ok? { assert FilterOf(ps[0], DecodeFilter(ps[0]).value); }
    }
  }

  // ---------------------------------------------------------------------------
  // Attributes, changes and controls (sections 4.1.7, 4.6 and 4.1.11)
  // ---------------------------------------------------------------------------

  ghost predicate AllOctets(ps: seq<Packet>, ss: seq<string>) {
    |ps| == |ss| && forall i :: 0 <= i < |ps| ==> OctetsOf(ps[i], ss[i])
  }

  ghost predicate AttributeOf(p: Packet, a: Attribute) {
    && SequenceOf(p) && |p.children| == 2 && OctetsOf(p.children[0], a.name) && a.name != ""
    && var vals := p.children[1];
       vals.Constructed? && vals.class_ == Universal && vals.tag == 17 && AllOctets(vals.children, a.values)
  }

  ghost predicate AllAttributes(ps: seq<Packet>, as_: seq<Attribute>) {
    |ps| == |as_| && forall i :: 0 <= i < |ps| ==> AttributeOf(ps[i], as_[i])
  }

  /** Add is 0, delete 1, replace 2. */
  ghost predicate ChangeOf(p: Packet, c: ModifyChange) {
    SequenceOf(p) && |p.children| == 2 && NumberOf(p.children[0], 10, c.op, 2) && AttributeOf(p.children[1], c.attr)
  }

  ghost predicate AllChanges(ps: seq<Packet>, cs: seq<ModifyChange>) {
    |ps| == |cs| && forall i :: 0 <= i < |ps| ==> ChangeOf(ps[i], cs[i])
  }

  /** The last of the fields that says something decides; without one the default holds. */
  ghost predicate FieldsOf(ps: seq<Packet>, critical: bool, value: string)
    decreases |ps|
  {
    if ps == [] then !critical && value == ""
    else
      var init, last := ps[..|ps| - 1], ps[|ps| - 1];
      || (TruthOf(last, critical) && exists c :: FieldsOf(init, c, value))
      || (OctetsOf(last, "") && FieldsOf(init, critical, value))
      || (OctetsOf(last, value) && value != "" && exists v :: FieldsOf(init, critical, v))
  }

  ghost predicate ControlOf(p: Packet, c: Control) {
    && SequenceOf(p) && 1 <= |p.children| <= 3 && OctetsOf(p.children[0], c.oid) && c.oid != ""
    && FieldsOf(p.children[1..], c.critical, c.value)
  }

  ghost predicate AllControls(ps: seq<Packet>, cs: seq<Control>) {
    |ps| == |cs| && forall i :: 0 <= i < |ps| ==> ControlOf(ps[i], cs[i])
  }

  lemma {:induction false} OctetsExactly(ps: seq<Packet>, ss: seq<string>)
    ensures OctetStrings(ps) == Ok(ss) <==> AllOctets(ps, ss)
  {
    hide OctetString, OctetsOf;
    if ps != [] && ss != [] {
      Scalars(ps[0]);
      OctetsExactly(ps[1..], ss[1..]);
      assert ss == [ss[0]] + ss[1..];
      assert AllOctets(ps, ss) <==> OctetsOf(ps[0], ss[0]) && AllOctets(ps[1..], ss[1..]) by {
        if OctetsOf(ps[0], ss[0]) && AllOctets(ps[1..], ss[1..]) {
          forall i | 0 <= i < |ps| ensures OctetsOf(ps[i], ss[i]) {
            if i > 0 { assert ps[i] == ps[1..][i - 1] && ss[i] == ss[1..][i - 1]; }
          }
        }
      }
    }
  }

  lemma AttributeExactly(p: Packet, a: Attribute)
    ensures DecodeAttribute(p) == Ok(a) <==> AttributeOf(p, a)
  {
    hide OctetStrings, AllOctets, OctetString;
    if p.Constructed? && |p.children| == 2 {
      Scalars(p.children[0]);
      var vals := p.children[1];
      if vals.Constructed? { OctetsExactly(vals.children, a.values); }
    }
  }

  lemma {:induction false} AttributesExactly(ps: seq<Packet>, as_: seq<Attribute>)
    ensures DecodeAttributes(ps) == Ok(as_) <==> AllAttributes(ps, as_)
  {
    hide DecodeAttribute, AttributeOf;
    if ps != [] && as_ != [] {
      AttributeExactly(ps[0], as_[0]);
      AttributesExactly(ps[1..], as_[1..]);
      assert as_ == [as_[0]] + as_[1..];
      assert AllAttributes(ps, as_) <==> AttributeOf(ps[0], as_[0]) && AllAttributes(ps[1..], as_[1..]) by {
        if AttributeOf(ps[0], as_[0]) && AllAttributes(ps[1..], as_[1..]) {
          forall i | 0 <= i < |ps| ensures AttributeOf(ps[i], as_[i]) {
            if i > 0 { assert ps[i] == ps[1..][i - 1] && as_[i] == as_[1..][i - 1]; }
          }
        }
      }
    }
  }

  lemma ChangeExactly(p: Packet, c: ModifyChange)
    ensures DecodeChange(p) == Ok(c) <==> ChangeOf(p, c)
  {
    hide DecodeAttribute, AttributeOf, Number, NumberOf;
    if p.Constructed? && |p.children| == 2 {
      Scalars(p.children[0]);
      AttributeExactly(p.children[1], c.attr);
      assert Number(p.children[0], TAG_ENUMERATED, 0, 2) == Ok(c.op) <==> NumberOf(p.children[0], 10, c.op, 2);
    }
  }

  lemma {:induction false} ChangesExactly(ps: seq<Packet>, cs: seq<ModifyChange>)
    ensures DecodeChanges(ps) == Ok(cs) <==> AllChanges(ps, cs)
  {
    hide DecodeChange, ChangeOf;
    if ps != [] && cs != [] {
      ChangeExactly(ps[0], cs[0]);
      ChangesExactly(ps[1..], cs[1..]);
      assert cs == [cs[0]] + cs[1..];
      assert AllChanges(ps, cs) <==> ChangeOf(ps[0], cs[0]) && AllChanges(ps[1..], cs[1..]) by {
        if ChangeOf(ps[0], cs[0]) && AllChanges(ps[1..], cs[1..]) {
          forall i | 0 <= i < |ps| ensures ChangeOf(ps[i], cs[i]) {
            if i > 0 { assert ps[i] == ps[1..][i - 1] && cs[i] == cs[1..][i - 1]; }
          }
        }
      }
    }
  }

  /** Taking the last field last. */
  lemma {:induction false} FieldsSnoc(c: Control, ps: seq<Packet>, p: Packet)
    ensures TakeFields(c, ps + [p]) ==
            if TakeFields(c, ps).Ok? then TakeFields(TakeFields(c, ps).value, [p]) else TakeFields(c, ps)
    decreases ps
  {
    hide Boolean, OctetString;
    if ps == [] {
      assert ps + [p] == [p];
    } else {
      assert (ps + [p])[0] == ps[0] && (ps + [p])[1..] == ps[1..] + [p];
      if ps[0].class_ == Universal && ps[0].tag == TAG_BOOLEAN {
        if Boolean(ps[0]).Ok? { FieldsSnoc(c.(critical := Boolean(ps[0]).value), ps[1..], p); }
      } else if ps[0].class_ == Universal && ps[0].tag == TAG_OCTETS {
        var v := OctetString(ps[0]);
        if v.Ok? { FieldsSnoc(if v.value != "" then c.(value := v.value) else c, ps[1..], p); }
      }
    }
  }

  lemma OneField(c: Control, p: Packet, d: Control)
    ensures TakeFields(c, [p]) == Ok(d) <==>
              || (TruthOf(p, d.critical) && d == c.(critical := d.critical))
              || (OctetsOf(p, "") && d == c)
              || (OctetsOf(p, d.value) && d.value != "" && d == c.(value := d.value))
  {
    assert [p][1..] == [];
    assert forall x: Control :: TakeFields(x, []) == Ok(x);
  }

  lemma {:induction false} FieldsExactly(oid: string, ps: seq<Packet>, critical: bool, value: string)
    ensures TakeFields(Control(oid, false, ""), ps) == Ok(Control(oid, critical, value)) <==>
              FieldsOf(ps, critical, value)
    ensures TakeFields(Control(oid, false, ""), ps).Ok? ==> TakeFields(Control(oid, false, ""), ps).value.oid == oid
    decreases |ps|
  {
    var c0 := Control(oid, false, "");
    TakenIf(c0, ps);
    if ps != [] {
      var init, last := ps[..|ps| - 1], ps[|ps| - 1];
      assert ps == init + [last];
      FieldsSnoc(c0, init, last);
      var r := TakeFields(c0, init);
      forall c, v ensures r == Ok(Control(oid, c, v)) <==> FieldsOf(init, c, v) { FieldsExactly(oid, init, c, v); }
      TakenIf(c0, init);
      hide TakeFields, OctetsOf, TruthOf;
      if r.Ok? {
        OneField(r.value, last, Control(oid, critical, value));
        assert r.value == Control(oid, r.value.critical, r.value.value);
        assert FieldsOf(init, r.value.critical, r.value.value);
      }
    }
  }

  lemma TakenIf(c: Control, ps: seq<Packet>)
    ensures TakeFields(c, ps).Ok? ==> TakeFields(c, ps).value.oid == c.oid
  {
    if TakeFields(c, ps).Ok? { TakenFields(c, ps); }
  }

  lemma ControlExactly(p: Packet, c: Control)
    ensures DecodeControl(p) == Ok(c) <==> ControlOf(p, c)
  {
    hide TakeFields, FieldsOf, OctetString;
    if p.Constructed? && 1 <= |p.children| <= 3 {
      Scalars(p.children[0]);
      FieldsExactly(c.oid, p.children[1..], c.critical, c.value);
      if OctetString(p.children[0]).Ok? {
        var oid := OctetString(p.children[0]).value;
        FieldsExactly(oid, p.children[1..], c.critical, c.value);
        assert c == Control(c.oid, c.critical, c.value);
      }
    }
  }

  lemma {:induction false} ControlsExactly(ps: seq<Packet>, cs: seq<Control>)
    ensures DecodeControls(ps) == Ok(cs) <==> AllControls(ps, cs)
  {
    hide DecodeControl, ControlOf;
    if ps != [] && cs != [] {
      ControlExactly(ps[0], cs[0]);
      ControlsExactly(ps[1..], cs[1..]);
      assert cs == [cs[0]] + cs[1..];
      assert AllControls(ps, cs) <==> ControlOf(ps[0], cs[0]) && AllControls(ps[1..], cs[1..]) by {
        if ControlOf(ps[0], cs[0]) && AllControls(ps[1..], cs[1..]) {
          forall i | 0 <= i < |ps| ensures ControlOf(ps[i], cs[i]) {
            if i > 0 { assert ps[i] == ps[1..][i - 1] && cs[i] == cs[1..][i - 1]; }
          }
        }
      }
    }
  }

  // ---------------------------------------------------------------------------
  // Operations and messages (sections 4.1.1 and 4.2 to 4.12)
  // ---------------------------------------------------------------------------

  ghost predicate ContextOf(p: Packet, tag: nat, s: string) { p == Primitive(Context, tag, s) }

  ghost predicate SearchOf(p: Packet, op: Operation)
    requires op.Search?
  {
    && p.Constructed? && |p.children| == 8
    && var c := p.children;
       && OctetsOf(c[0], op.base)
       && NumberOf(c[1], 10, op.scope, 3) && NumberOf(c[2], 10, op.deref, 3)
       && NumberOf(c[3], 2, op.sizeLimit, 2147483647) && NumberOf(c[4], 2, op.timeLimit, 2147483647)
       && TruthOf(c[5], op.typesOnly) && FilterOf(c[6], op.filter)
       && SequenceOf(c[7]) && AllOctets(c[7].children, op.attributes)
  }

  ghost predicate BindOf(p: Packet, version: int, name: string, password: string) {
    && p.Constructed? && |p.children| == 3
    && NumberOf(p.children[0], 2, version, 127) && version >= 1 && OctetsOf(p.children[1], name)
    && ContextOf(p.children[2], 0, password)
  }

  ghost predicate ModifyOf(p: Packet, dn: string, changes: seq<ModifyChange>) {
    && p.Constructed? && |p.children| == 2 && OctetsOf(p.children[0], dn)
    && SequenceOf(p.children[1]) && AllChanges(p.children[1].children, changes) && changes != []
  }

  ghost predicate AddOf(p: Packet, dn: string, attrs: seq<Attribute>) {
    && p.Constructed? && |p.children| == 2 && OctetsOf(p.children[0], dn)
    && SequenceOf(p.children[1]) && AllAttributes(p.children[1].children, attrs) && attrs != []
  }

  ghost predicate ModifyDNOf(p: Packet, dn: string, newRdn: string, deleteOldRdn: bool, newSuperior: string) {
    && p.Constructed? && 3 <= |p.children| <= 4
    && OctetsOf(p.children[0], dn) && OctetsOf(p.children[1], newRdn) && TruthOf(p.children[2], deleteOldRdn)
    && (if |p.children| == 4 then ContextOf(p.children[3], 0, newSuperior) else newSuperior == "")
  }

  ghost predicate CompareOf(p: Packet, dn: string, attr: string, value: string) {
    && p.Constructed? && |p.children| == 2
    && OctetsOf(p.children[0], dn) && AssertionOf(p.children[1], attr, value)
  }

  ghost predicate AbandonOf(p: Packet, id: int) { p.Primitive? && Integer(p.data, id) && 0 <= id <= 2147483647 }

  ghost predicate ExtendedOf(p: Packet, name: string, value: string) {
    && p.Constructed? && 1 <= |p.children| <= 2 && ContextOf(p.children[0], 0, name)
    && (if |p.children| == 2 then ContextOf(p.children[1], 1, value) else value == "")
  }

  /** The operation in a packet of class application, by its tag. */
  ghost predicate OperationOf(p: Packet, op: Operation) {
    match op
    case Bind(version, name, password) => p.tag == 0 && BindOf(p, version, name, password)
    case Unbind => p.tag == 2 && p.Primitive? && p.data == ""
    case Search(_, _, _, _, _, _, _, _) => p.tag == 3 && SearchOf(p, op)
    case Modify(dn, changes) => p.tag == 6 && ModifyOf(p, dn, changes)
    case Add(dn, attrs) => p.tag == 8 && AddOf(p, dn, attrs)
    case Delete(dn) => p.tag == 10 && p.Primitive? && p.data == dn
    case ModifyDN(dn, newRdn, deleteOldRdn, newSuperior) =>
      p.tag == 12 && ModifyDNOf(p, dn, newRdn, deleteOldRdn, newSuperior)
    case Compare(dn, attr, value) => p.tag == 14 && CompareOf(p, dn, attr, value)
    case Abandon(id) => p.tag == 16 && AbandonOf(p, id)
    case Extended(name, value) => p.tag == 23 && ExtendedOf(p, name, value)
  }

  ghost predicate MessageOf(p: Packet, m: Message) {
    && SequenceOf(p) && 2 <= |p.children| <= 3
    && NumberOf(p.children[0], 2, m.id, 2147483647)
    && p.children[1].class_ == Application && OperationOf(p.children[1], m.op)
    && if |p.children| == 2 then m.controls == []
       else
         var cs := p.children[2];
         cs.Constructed? && cs.class_ == Context && cs.tag == 0 && AllControls(cs.children, m.controls)
  }

  lemma NumberExactly(p: Packet, tag: nat, lo: int, hi: int, n: int)
    ensures Number(p, tag, lo, hi) == Ok(n) <==>
              p.Primitive? && p.class_ == Universal && p.tag == tag && Integer(p.data, n) && lo <= n <= hi
  {
    hide ParseInt, Integer;
    if p.Primitive? { IntegerExactly(p.data, n); }
  }

  lemma BindExactly(p: Packet, version: int, name: string, password: string)
    ensures DecodeBind(p) == Ok(Bind(version, name, password)) <==> BindOf(p, version, name, password)
  {
    if p.Constructed? && |p.children| == 3 {
      hide Number, Integer, OctetString;
      NumberExactly(p.children[0], 2, 1, 127, version);
      Scalars(p.children[1]);
    }
  }

  lemma SearchExactly(p: Packet, op: Operation)
    requires op.Search?
    ensures DecodeSearch(p) == Ok(op) <==> SearchOf(p, op)
  {
    hide Number, NumberOf, OctetString, OctetsOf, Boolean, TruthOf, DecodeFilter, FilterOf, OctetStrings, AllOctets;
    if p.Constructed? && |p.children| == 8 {
      var c := p.children;
      Scalars(c[0]);
      Scalars(c[1]);
      Scalars(c[2]);
      Scalars(c[3]);
      Scalars(c[4]);
      Scalars(c[5]);
      Scalars(c[7]);
      FilterExactly(c[6], op.filter);
      if c[7].Constructed? { OctetsExactly(c[7].children, op.attributes); }
    }
  }

  lemma ModifyExactly(p: Packet, dn: string, changes: seq<ModifyChange>)
    ensures DecodeModify(p) == Ok(Modify(dn, changes)) <==> ModifyOf(p, dn, changes)
  {
    hide OctetString, OctetsOf, DecodeChanges;
    if p.Constructed? && |p.children| == 2 {
      Scalars(p.children[0]);
      var list := p.children[1];
      if list.Constructed? {
        ChangesExactly(list.children, changes);
        if DecodeChanges(list.children) == Ok(changes) { assert |list.children| == |changes|; }
      }
    }
  }

  lemma AddExactly(p: Packet, dn: string, attrs: seq<Attribute>)
    ensures DecodeAdd(p) == Ok(Add(dn, attrs)) <==> AddOf(p, dn, attrs)
  {
    hide OctetString, OctetsOf, DecodeAttributes;
    if p.Constructed? && |p.children| == 2 {
      Scalars(p.children[0]);
      var list := p.children[1];
      if list.Constructed? {
        AttributesExactly(list.children, attrs);
        if DecodeAttributes(list.children) == Ok(attrs) { assert |list.children| == |attrs|; }
      }
    }
  }

  lemma ModifyDNExactly(p: Packet, dn: string, newRdn: string, deleteOldRdn: bool, newSuperior: string)
    ensures DecodeModifyDN(p) == Ok(ModifyDN(dn, newRdn, deleteOldRdn, newSuperior)) <==>
              ModifyDNOf(p, dn, newRdn, deleteOldRdn, newSuperior)
  {
    hide OctetString, OctetsOf, Boolean, TruthOf;
    if p.Constructed? && 3 <= |p.children| <= 4 {
      Scalars(p.children[0]);
      Scalars(p.children[1]);
      Scalars(p.children[2]);
    }
  }

  lemma CompareExactly(p: Packet, dn: string, attr: string, value: string)
    ensures DecodeCompare(p) == Ok(Compare(dn, attr, value)) <==> CompareOf(p, dn, attr, value)
  {
    hide OctetString, OctetsOf, DecodeAVA, AssertionOf;
    if p.Constructed? && |p.children| == 2 {
      Scalars(p.children[0]);
      AssertionExactly(p.children[1], attr, value);
      var r := DecodeAVA(p.children[1]);
      if r.Ok? { assert r.value == (r.value.0, r.value.1); }
    }
  }

  lemma AbandonExactly(p: Packet, id: int)
    ensures DecodeAbandon(p) == Ok(Abandon(id)) <==> AbandonOf(p, id)
  {
    hide ParseInt, Integer;
    if p.Primitive? { IntegerExactly(p.data, id); }
  }

  lemma ExtendedExactly(p: Packet, name: string, value: string)
    ensures DecodeExtended(p) == Ok(Extended(name, value)) <==> ExtendedOf(p, name, value)
  {
  }

  /** Which decoder yields which operation. */
  lemma Kinds(p: Packet)
    ensures DecodeBind(p).Ok? ==> DecodeBind(p).value.Bind?
    ensures DecodeSearch(p).Ok? ==> DecodeSearch(p).value.Search?
    ensures DecodeModify(p).Ok? ==> DecodeModify(p).value.Modify?
    ensures DecodeAdd(p).Ok? ==> DecodeAdd(p).value.Add?
    ensures DecodeModifyDN(p).Ok? ==> DecodeModifyDN(p).value.ModifyDN?
    ensures DecodeCompare(p).Ok? ==> DecodeCompare(p).value.Compare?
    ensures DecodeAbandon(p).Ok? ==> DecodeAbandon(p).value.Abandon?
    ensures DecodeExtended(p).Ok? ==> DecodeExtended(p).value.Extended?
  {
    hide OctetString, Number, Boolean, DecodeAVA, OctetStrings, DecodeChanges, DecodeAttributes, DecodeFilter, ParseInt;
  }

  /** The tag of an operation in class application. */
  function TagOf(op: Operation): nat {
    match op
    case Bind(_, _, _) => 0 case Unbind => 2 case Search(_, _, _, _, _, _, _, _) => 3 case Modify(_, _) => 6
    case Add(_, _) => 8 case Delete(_) => 10 case ModifyDN(_, _, _, _) => 12 case Compare(_, _, _) => 14
    case Abandon(_) => 16 case Extended(_, _) => 23
  }

  lemma DecodedTag(p: Packet)
    ensures DecodeOp(p).Ok? ==> p.tag == TagOf(DecodeOp(p).value)
  {
    Kinds(p);
    hide DecodeBind, DecodeSearch, DecodeModify, DecodeAdd, DecodeModifyDN, DecodeCompare, DecodeAbandon,
        DecodeExtended;
  }

  lemma Dispatched(p: Packet)
    ensures p.tag == 0 ==> DecodeOp(p) == DecodeBind(p)
    ensures p.tag == 3 ==> DecodeOp(p) == DecodeSearch(p)
    ensures p.tag == 6 ==> DecodeOp(p) == DecodeModify(p)
    ensures p.tag == 8 ==> DecodeOp(p) == DecodeAdd(p)
    ensures p.tag == 12 ==> DecodeOp(p) == DecodeModifyDN(p)
    ensures p.tag == 14 ==> DecodeOp(p) == DecodeCompare(p)
    ensures p.tag == 16 ==> DecodeOp(p) == DecodeAbandon(p)
    ensures p.tag == 23 ==> DecodeOp(p) == DecodeExtended(p)
    ensures p.tag == 2 ==> DecodeOp(p) == if p.Primitive? && p.data == "" then Ok(Unbind) else Malformed
    ensures p.tag == 10 ==> DecodeOp(p) == if p.Primitive? then Ok(Delete(p.data)) else Malformed
  {
    hide DecodeBind, DecodeSearch, DecodeModify, DecodeAdd, DecodeModifyDN, DecodeCompare, DecodeAbandon,
        DecodeExtended;
  }

  lemma OperationExactly(p: Packet, op: Operation)
    ensures DecodeOp(p) == Ok(op) <==> OperationOf(p, op)
  {
    hide DecodeBind, DecodeSearch, DecodeModify, DecodeAdd, DecodeModifyDN, DecodeCompare, DecodeAbandon,
        DecodeExtended, DecodeOp, BindOf, SearchOf, ModifyOf, AddOf, ModifyDNOf, CompareOf, AbandonOf, ExtendedOf;
    DecodedTag(p);
    Dispatched(p);
    match op
    case Bind(version, name, password) => BindExactly(p, version, name, password);
    case Search(_, _, _, _, _, _, _, _) => SearchExactly(p, op);
    case Modify(dn, changes) => ModifyExactly(p, dn, changes);
    case Add(dn, attrs) => AddExactly(p, dn, attrs);
    case ModifyDN(dn, newRdn, deleteOldRdn, newSuperior) => ModifyDNExactly(p, dn, newRdn, deleteOldRdn, newSuperior);
    case Compare(dn, attr, value) => CompareExactly(p, dn, attr, value);
    case Abandon(id) => AbandonExactly(p, id);
    case Extended(name, value) => ExtendedExactly(p, name, value);
    case _ =>
  }

  /** The decoder accepts exactly the messages of the protocol subset, each as what it is. */
  lemma MessageExactly(p: Packet, m: Message)
    ensures DecodeMessage(p) == Ok(m) <==> MessageOf(p, m)
  {
    hide DecodeOp, OperationOf, Number, NumberOf, DecodeControls, AllControls;
    if p.Constructed? && 2 <= |p.children| <= 3 {
      Scalars(p.children[0]);
      OperationExactly(p.children[1], m.op);
      if |p.children| == 3 && p.children[2].Constructed? { ControlsExactly(p.children[2].children, m.controls); }
    }
  }

  /** An operation outside the subset: another tag, a bind that is not simple, or a search with an extensible match. */
  ghost predicate Outside(p: Packet) {
    || p.tag !in {0, 2, 3, 6, 8, 10, 12, 14, 16, 23}
    || (p.tag == 0 && p.Constructed? && |p.children| == 3
        && (exists v :: NumberOf(p.children[0], 2, v, 127) && v >= 1) && (exists n :: OctetsOf(p.children[1], n))
        && p.children[2].class_ == Context && p.children[2].tag == 3)
    || (p.tag == 3 && p.Constructed? && |p.children| == 8
        && var c := p.children;
           && (exists s :: OctetsOf(c[0], s))
           && (exists n :: NumberOf(c[1], 10, n, 3)) && (exists n :: NumberOf(c[2], 10, n, 3))
           && (exists n :: NumberOf(c[3], 2, n, 2147483647)) && (exists n :: NumberOf(c[4], 2, n, 2147483647))
           && (exists b :: TruthOf(c[5], b)) && Extensible(c[6]))
  }

  lemma SomeScalar(p: Packet)
    ensures OctetString(p).Ok? <==> exists s :: OctetsOf(p, s)
    ensures Boolean(p).Ok? <==> exists b :: TruthOf(p, b)
    ensures forall tag: nat, hi :: Number(p, tag, 0, hi).Ok? <==> exists n :: NumberOf(p, tag, n, hi)
  {
    Scalars(p);
    hide OctetString, Number, NumberOf, Boolean, TruthOf, OctetsOf;
    if OctetString(p).Ok? { assert OctetsOf(p, OctetString(p).value); }
    if Boolean(p).Ok? { assert TruthOf(p, Boolean(p).value); }
    forall tag: nat, hi ensures Number(p, tag, 0, hi).Ok? <==> exists n :: NumberOf(p, tag, n, hi) {
      if Number(p, tag, 0, hi).Ok? { assert NumberOf(p, tag, Number(p, tag, 0, hi).value, hi); }
    }
  }

  lemma OutsideExactly(p: Packet)
    ensures DecodeOp(p) == Unsupported <==> Outside(p)
  {
    hide OctetString, OctetsOf, Number, NumberOf, Boolean, TruthOf, DecodeFilter, Extensible, OctetStrings, DecodeAVA,
        DecodeChanges, DecodeAttributes, ParseInt;
    if p.tag == 0 && p.Constructed? && |p.children| == 3 {
      SomeScalar(p.children[1]);
      FirstNumber(p.children[0]);
    } else if p.tag == 3 && p.Constructed? && |p.children| == 8 {
      SomeScalar(p.children[0]);
      SomeScalar(p.children[1]);
      SomeScalar(p.children[2]);
      SomeScalar(p.children[3]);
      SomeScalar(p.children[4]);
      SomeScalar(p.children[5]);
      ExtensibleExactly(p.children[6]);
    }
  }

  lemma FirstNumber(p: Packet)
    ensures Number(p, TAG_INTEGER, 1, 127).Ok? <==> exists v :: NumberOf(p, 2, v, 127) && v >= 1
  {
    hide Number, Integer;
    forall v ensures Number(p, TAG_INTEGER, 1, 127) == Ok(v) <==> NumberOf(p, 2, v, 127) && v >= 1 {
      NumberExactly(p, 2, 1, 127, v);
    }
    if Number(p, TAG_INTEGER, 1, 127).Ok? {
      assert NumberOf(p, 2, Number(p, TAG_INTEGER, 1, 127).value, 127);
    }
  }

  /** It answers "unsupported" exactly when the envelope is right and the operation lies outside the subset. */
  lemma UnsupportedExactly(p: Packet)
    ensures DecodeMessage(p) == Unsupported <==>
              && SequenceOf(p) && 2 <= |p.children| <= 3
              && (exists id :: NumberOf(p.children[0], 2, id, 2147483647))
              && p.children[1].class_ == Application && Outside(p.children[1])
  {
    hide DecodeOp, Outside, Number, NumberOf, DecodeControls;
    if p.Constructed? && 2 <= |p.children| <= 3 {
      SomeScalar(p.children[0]);
      OutsideExactly(p.children[1]);
    }
  }

  // ---------------------------------------------------------------------------
  // What is written (section 5.1)
  // ---------------------------------------------------------------------------

  /** No octet more than the number needs. */
  predicate Minimal(s: string) { s != "" && (|s| > 1 ==> s[0] as int > 0 || s[1] as int >= 128) }

  /** True is written as 255, and numbers are as short as they can be. */
  predicate Strict(p: Packet)
    decreases p
  {
    match p
    case Primitive(class_, tag, data) =>
      class_ == Universal ==>
        && (tag == 1 ==> data == [0 as char] || data == [255 as char])
        && (tag == 2 || tag == 10 ==> Minimal(data))
    case Constructed(_, _, ps) => forall i :: 0 <= i < |ps| ==> Strict(ps[i])
  }

  lemma StrictNumber(tag: nat, n: nat)
    requires tag != 1
    ensures Strict(NumberPacket(tag, n)) && Minimal(IntOctets(n))
  {
    IntegerIsShort(n);
    hide IntOctets, PlaceValue;
  }

  lemma {:induction false} StrictFilter(f: Filter, depth: nat)
    requires EncodeFilter(f, depth).Some?
    ensures Strict(EncodeFilter(f, depth).value)
    decreases f
  {
    match f
    case And(fs) => StrictFilters(fs, depth + 1);
    case Or(fs) => StrictFilters(fs, depth + 1);
    case Not(g) => StrictFilter(g, depth + 1);
    case Substrings(_, _, _, _) => StrictSubstrings(f);
    case _ =>
  }

  lemma StrictSubstrings(f: Filter)
    requires f.Substrings? && EncodeSubstrings(f).Some?
    ensures Strict(EncodeSubstrings(f).value)
  {
    var ps := RunIf(0, f.initial) + Runs(1, f.any) + RunIf(2, f.final);
    forall i | 0 <= i < |ps| ensures Strict(ps[i]) {
      assert ps[i].Primitive? && ps[i].class_ == Context;
    }
    assert Strict(Sequence(ps)) && Strict(StringPacket(f.attr));
  }

  lemma {:induction false} StrictFilters(fs: seq<Filter>, depth: nat)
    requires EncodeFilters(fs, depth).Some?
    ensures forall i :: 0 <= i < |EncodeFilters(fs, depth).value| ==> Strict(EncodeFilters(fs, depth).value[i])
    decreases fs
  {
    hide Strict;
    if fs != [] {
      StrictFilter(fs[0], depth);
      StrictFilters(fs[1..], depth);
    }
  }

  lemma StrictStrings(ss: seq<string>)
    ensures Strict(Sequence(StringPackets(ss))) && Strict(Constructed(Universal, TAG_SET, StringPackets(ss)))
  {
    assert forall i :: 0 <= i < |ss| ==> Strict(StringPackets(ss)[i]);
  }

  lemma StrictAttribute(a: Attribute)
    requires EncodeAttribute(a).Some?
    ensures Strict(EncodeAttribute(a).value)
  {
    StrictStrings(a.values);
    hide StringPackets;
    assert Strict(StringPacket(a.name));
  }

  lemma {:induction false} StrictAttributes(as_: seq<Attribute>)
    requires EncodeAttributes(as_).Some?
    ensures forall i :: 0 <= i < |EncodeAttributes(as_).value| ==> Strict(EncodeAttributes(as_).value[i])
  {
    hide Strict, EncodeAttribute;
    if as_ != [] {
      StrictAttribute(as_[0]);
      StrictAttributes(as_[1..]);
    }
  }

  lemma {:induction false} StrictChanges(cs: seq<ModifyChange>)
    requires EncodeChanges(cs).Some?
    ensures forall i :: 0 <= i < |EncodeChanges(cs).value| ==> Strict(EncodeChanges(cs).value[i])
  {
    if cs != [] {
      StrictChanges(cs[1..]);
      StrictAttribute(cs[0].attr);
      StrictNumber(TAG_ENUMERATED, cs[0].op);
      hide EncodeAttribute, NumberPacket;
    }
  }

  lemma StrictControl(c: Control)
    requires EncodeControl(c).Some?
    ensures Strict(EncodeControl(c).value)
  {
    assert Strict(BoolPacket(true)) && Strict(StringPacket(c.oid)) && Strict(StringPacket(c.value));
  }

  lemma {:induction false} StrictControls(cs: seq<Control>)
    requires EncodeControls(cs).Some?
    ensures forall i :: 0 <= i < |EncodeControls(cs).value| ==> Strict(EncodeControls(cs).value[i])
  {
    hide Strict, EncodeControl;
    if cs != [] {
      StrictControl(cs[0]);
      StrictControls(cs[1..]);
    }
  }

  lemma StrictScalars(s: string, b: bool)
    ensures Strict(StringPacket(s)) && Strict(BoolPacket(b)) && Strict(Primitive(Context, 0, s))
    ensures Strict(Primitive(Context, 1, s))
  {
  }

  lemma StrictSearch(op: Operation)
    requires op.Search? && EncodeSearch(op).Some?
    ensures Strict(EncodeSearch(op).value)
  {
    StrictScalars(op.base, op.typesOnly);
    StrictNumber(TAG_ENUMERATED, op.scope);
    StrictNumber(TAG_ENUMERATED, op.deref);
    StrictNumber(TAG_INTEGER, op.sizeLimit);
    StrictNumber(TAG_INTEGER, op.timeLimit);
    StrictFilter(op.filter, 0);
    StrictStrings(op.attributes);
    hide EncodeFilter, NumberPacket, StringPackets, Sequence, StringPacket, BoolPacket;
  }

  lemma StrictOperation(op: Operation)
    requires EncodeOp(op).Some?
    ensures Strict(EncodeOp(op).value)
    ensures op.Abandon? ==> Minimal(EncodeOp(op).value.data)
  {
    hide EncodeSearch, EncodeChanges, EncodeAttributes, IntOctets;
    match op
    case Bind(version, name, password) =>
      StrictNumber(TAG_INTEGER, version);
      StrictScalars(name, true);
      StrictScalars(password, true);
    case Search(_, _, _, _, _, _, _, _) => StrictSearch(op);
    case Modify(dn, changes) =>
      StrictScalars(dn, true);
      StrictChanges(changes);
    case Add(dn, attrs) =>
      StrictScalars(dn, true);
      StrictAttributes(attrs);
    case ModifyDN(dn, newRdn, deleteOldRdn, newSuperior) =>
      StrictScalars(dn, deleteOldRdn);
      StrictScalars(newRdn, true);
      StrictScalars(newSuperior, true);
    case Compare(dn, attr, value) =>
      StrictScalars(dn, true);
      StrictScalars(attr, true);
      StrictScalars(value, true);
    case Abandon(id) => StrictNumber(TAG_INTEGER, id);
    case Extended(name, value) =>
      StrictScalars(name, true);
      StrictScalars(value, true);
    case _ =>
  }

  /**
   * What is written for a message is that message by the protocol's definition, unless an
   * attribute description is empty; and always in the strict form that the protocol asks for.
   */
  lemma WrittenMessage(m: Message)
    requires EncodeMessage(m).Some?
    ensures Strict(EncodeMessage(m).value)
    ensures NamesAttributes(m.op) <==> MessageOf(EncodeMessage(m).value, m)
  {
    MessageRoundTrip(m);
    MessageExactly(EncodeMessage(m).value, m);
    StrictOperation(m.op);
    StrictNumber(TAG_INTEGER, m.id);
    if m.controls != [] { StrictControls(m.controls); }
    hide EncodeOp, EncodeControls, DecodeMessage, MessageOf, NamesAttributes, NumberPacket;
  }
}
