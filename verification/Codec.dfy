// The typed message codec over packet trees. The octet encoding of a tree is not part of
// the model: a tree that is written is taken to be read back as it was.
module Codec {
  import opened Text

  datatype Result<+T> = Ok(value: T) | Malformed | Unsupported

  datatype Class = Universal | Application | Context | Private

  /** One BER element: its identifier and either its content octets or its children. */
  datatype Packet =
    | Primitive(class_: Class, tag: nat, data: string)
    | Constructed(class_: Class, tag: nat, children: seq<Packet>)

  const MAX_INT32: int := 0x7FFF_FFFF
  const MAX_FILTER_DEPTH: nat := 256

  const TAG_BOOLEAN: nat := 1
  const TAG_INTEGER: nat := 2
  const TAG_OCTETS: nat := 4
  const TAG_ENUMERATED: nat := 10
  const TAG_SEQUENCE: nat := 16
  const TAG_SET: nat := 17

  // ---------------------------------------------------------------------------
  // Scalars
  // ---------------------------------------------------------------------------

  /** The minimal two's complement content octets of a number that is not negative. */
  function IntOctets(n: nat): (r: string)
    ensures r != "" && r[0] as int < 128
  {
    if n < 128 then [n as char] else IntOctets(n / 256) + [(n % 256) as char]
  }

  function Unsigned(s: string): nat {
    if s == "" then 0 else Unsigned(s[..|s| - 1]) * 256 + s[|s| - 1] as int
  }

  function Power256(n: nat): nat { if n == 0 then 1 else 256 * Power256(n - 1) }

  /** A two's complement number of one to eight octets. */
  function ParseInt(s: string): Option<int> {
    if s == "" || |s| > 8 then None
    else if s[0] as int < 128 then Some(Unsigned(s))
    else Some(Unsigned(s) - Power256(|s|))
  }

  lemma {:induction false} IntOctetsValue(n: nat)
    ensures Unsigned(IntOctets(n)) == n
    ensures |IntOctets(n)| <= 1 + |IntOctets(n / 256)|
    decreases n
  {
    var r := IntOctets(n);
    if n < 128 {
      assert r[..0] == "";
    } else {
      IntOctetsValue(n / 256);
      assert r[..|r| - 1] == IntOctets(n / 256);
    }
  }

  /** Every number of the protocol's 32-bit range survives. */
  lemma IntRoundTrip(n: nat)
    requires n <= MAX_INT32
    ensures ParseInt(IntOctets(n)) == Some(n)
  {
    IntOctetsValue(n);
    IntOctetsValue(n / 256);
    IntOctetsValue(n / 256 / 256);
    IntOctetsValue(n / 256 / 256 / 256);
    assert n / 256 / 256 / 256 < 128;
  }

  function StringPacket(s: string): Packet { Primitive(Universal, TAG_OCTETS, s) }

  function OctetString(p: Packet): Result<string> {
    if p.Primitive? && p.class_ == Universal && p.tag == TAG_OCTETS then Ok(p.data) else Malformed
  }

  function ContextString(p: Packet, tag: nat): Result<string> {
    if p.Primitive? && p.class_ == Context && p.tag == tag then Ok(p.data) else Malformed
  }

  function NumberPacket(tag: nat, n: nat): Packet { Primitive(Universal, tag, IntOctets(n)) }

  function Number(p: Packet, tag: nat, lo: int, hi: int): Result<int> {
    if !(p.Primitive? && p.class_ == Universal && p.tag == tag) then Malformed
    else
      var v := ParseInt(p.data);
      if v.None? || v.value < lo || v.value > hi then Malformed else Ok(v.value)
  }

  lemma NumberRoundTrip(tag: nat, n: nat, lo: int, hi: int)
    requires lo <= n <= hi && n <= MAX_INT32
    ensures Number(NumberPacket(tag, n), tag, lo, hi) == Ok(n)
  {
    IntRoundTrip(n);
  }

  function BoolPacket(b: bool): Packet { Primitive(Universal, TAG_BOOLEAN, [if b then 255 as char else 0 as char]) }

  function Boolean(p: Packet): Result<bool> {
    if !(p.Primitive? && p.class_ == Universal && p.tag == TAG_BOOLEAN) || |p.data| != 1 then Malformed
    else Ok(p.data[0] != 0 as char)
  }

  predicate IsSequence(p: Packet) { p.Constructed? && p.class_ == Universal && p.tag == TAG_SEQUENCE }

  function Sequence(children: seq<Packet>): Packet { Constructed(Universal, TAG_SEQUENCE, children) }

  // ---------------------------------------------------------------------------
  // Filters (section 4.5.1 of RFC 4511)
  // ---------------------------------------------------------------------------

  datatype Filter =
    | And(children: seq<Filter>)
    | Or(children: seq<Filter>)
    | Not(child: Filter)
    | Equality(attr: string, value: string)
    | GreaterOrEqual(attr: string, value: string)
    | LessOrEqual(attr: string, value: string)
    | Approx(attr: string, value: string)
    | Present(attr: string)
    | Substrings(attr: string, initial: Option<string>, any: seq<string>, final: Option<string>)

  function EncodeAVA(attr: string, value: string, tag: nat): Packet {
    Constructed(Context, tag, [StringPacket(attr), StringPacket(value)])
  }

  function Run(tag: nat, s: string): Packet { Primitive(Context, tag, s) }

  function RunIf(tag: nat, s: Option<string>): seq<Packet> { if s.Some? then [Run(tag, s.value)] else [] }

  function Runs(tag: nat, ss: seq<string>): seq<Packet> { seq(|ss|, i requires 0 <= i < |ss| => Run(tag, ss[i])) }

  function EncodeSubstrings(f: Filter): Option<Packet>
    requires f.Substrings?
  {
    if f.initial.None? && f.any == [] && f.final.None? then None
    else
      Some(Constructed(Context, 4,
          [StringPacket(f.attr), Sequence(RunIf(0, f.initial) + Runs(1, f.any) + RunIf(2, f.final))]))
  }

  function EncodeFilter(f: Filter, depth: nat): Option<Packet>
    decreases f
  {
    if depth > MAX_FILTER_DEPTH then None
    else match f
      case And(fs) =>
        var ps := EncodeFilters(fs, depth + 1);
        if ps.Some? then Some(Constructed(Context, 0, ps.value)) else None
      case Or(fs) =>
        var ps := EncodeFilters(fs, depth + 1);
        if ps.Some? then Some(Constructed(Context, 1, ps.value)) else None
      case Not(g) =>
        var p := EncodeFilter(g, depth + 1);
        if p.Some? then Some(Constructed(Context, 2, [p.value])) else None
      case Equality(a, v) => Some(EncodeAVA(a, v, 3))
      case GreaterOrEqual(a, v) => Some(EncodeAVA(a, v, 5))
      case LessOrEqual(a, v) => Some(EncodeAVA(a, v, 6))
      case Approx(a, v) => Some(EncodeAVA(a, v, 8))
      case Present(a) => Some(Primitive(Context, 7, a))
      case Substrings(_, _, _, _) => EncodeSubstrings(f)
  }

  function EncodeFilters(fs: seq<Filter>, depth: nat): Option<seq<Packet>>
    decreases fs
  {
    if fs == [] then Some([])
    else
      var p := EncodeFilter(fs[0], depth);
      if p.None? then None
      else
        var ps := EncodeFilters(fs[1..], depth);
        if ps.None? then None else Some([p.value] + ps.value)
  }

  /** The attribute and value of an assertion. The class of the packet is not looked at. */
  function DecodeAVA(p: Packet): Result<(string, string)> {
    if !p.Constructed? || |p.children| != 2 then Malformed
    else
      var attr, value := OctetString(p.children[0]), OctetString(p.children[1]);
      if !attr.Ok? || attr.value == "" || !value.Ok? then Malformed else Ok((attr.value, value.value))
  }

  /** The runs read so far. */
  datatype Choices = Choices(initial: Option<string>, any: seq<string>, final: Option<string>)

  /** One more choice; initial and final may come once each. */
  function TakeChoice(c: Choices, p: Packet): Result<Choices> {
    if !p.Primitive? || p.class_ != Context then Malformed
    else if p.tag == 0 then if c.initial.Some? then Malformed else Ok(c.(initial := Some(p.data)))
    else if p.tag == 1 then Ok(c.(any := c.any + [p.data]))
    else if p.tag == 2 then if c.final.Some? then Malformed else Ok(c.(final := Some(p.data)))
    else Malformed
  }

  function TakeChoices(c: Choices, ps: seq<Packet>): Result<Choices>
    decreases ps
  {
    if ps == [] then Ok(c)
    else
      var r := TakeChoice(c, ps[0]);
      if r.Ok? then TakeChoices(r.value, ps[1..]) else r
  }

  function DecodeSubstrings(p: Packet): Result<Filter> {
    if !p.Constructed? || |p.children| != 2 then Malformed
    else
      var attr, list := OctetString(p.children[0]), p.children[1];
      if !attr.Ok? || attr.value == "" || !IsSequence(list) || list.children == [] then Malformed
      else
        var c := TakeChoices(Choices(None, [], None), list.children);
        if c.Ok? then Ok(Substrings(attr.value, c.value.initial, c.value.any, c.value.final)) else Malformed
  }

  function DecodeFilter(p: Packet): Result<Filter>
    decreases p
  {
    if p.class_ != Context then Malformed
    else if p.tag == 0 || p.tag == 1 then
      if !p.Constructed? then Malformed
      else
        var fs := DecodeFilters(p.children);
        match fs case Malformed => Malformed case Unsupported => Unsupported
        case Ok(cs) => Ok(if p.tag == 0 then And(cs) else Or(cs))
    else if p.tag == 2 then
      if !p.Constructed? || |p.children| != 1 then Malformed
      else
        var f := DecodeFilter(p.children[0]);
        match f case Malformed => Malformed case Unsupported => Unsupported case Ok(c) => Ok(Not(c))
    else if p.tag == 3 || p.tag == 5 || p.tag == 6 || p.tag == 8 then
      var ava := DecodeAVA(p);
      if !ava.Ok? then Malformed
      else
        var (a, v) := ava.value;
        Ok(if p.tag == 3 then Equality(a, v) else if p.tag == 5 then GreaterOrEqual(a, v)
           else if p.tag == 6 then LessOrEqual(a, v) else Approx(a, v))
    else if p.tag == 7 then
      var a := ContextString(p, 7);
      if a.Ok? && a.value != "" then Ok(Present(a.value)) else Malformed
    else if p.tag == 4 then DecodeSubstrings(p)
    else if p.tag == 9 then Unsupported
    else Malformed
  }

  function DecodeFilters(ps: seq<Packet>): Result<seq<Filter>>
    decreases ps
  {
    if ps == [] then Ok([])
    else
      var f := DecodeFilter(ps[0]);
      match f case Malformed => Malformed case Unsupported => Unsupported
      case Ok(g) =>
        var fs := DecodeFilters(ps[1..]);
        if fs.Ok? then Ok([g] + fs.value) else fs
  }

  /** Every leaf names an attribute. */
  predicate Named(f: Filter)
    decreases f
  {
    match f
    case And(fs) => forall i :: 0 <= i < |fs| ==> Named(fs[i])
    case Or(fs) => forall i :: 0 <= i < |fs| ==> Named(fs[i])
    case Not(g) => Named(g)
    case _ => f.attr != ""
  }

  /** Every substring leaf has a run, and no leaf lies deeper than the limit allows. */
  predicate Encodable(f: Filter, depth: nat)
    decreases f
  {
    && depth <= MAX_FILTER_DEPTH
    && match f
       case And(fs) => forall i :: 0 <= i < |fs| ==> Encodable(fs[i], depth + 1)
       case Or(fs) => forall i :: 0 <= i < |fs| ==> Encodable(fs[i], depth + 1)
       case Not(g) => Encodable(g, depth + 1)
       case Substrings(_, initial, any, final) => initial.Some? || any != [] || final.Some?
       case _ => true
  }

  // ---------------------------------------------------------------------------
  // Filters survive
  // ---------------------------------------------------------------------------

  lemma {:induction false} TakeRuns(c: Choices, ss: seq<string>, rest: seq<Packet>)
    ensures TakeChoices(c, Runs(1, ss) + rest) == TakeChoices(c.(any := c.any + ss), rest)
    decreases ss
  {
    if ss == [] {
      assert Runs(1, ss) + rest == rest && c.any + ss == c.any;
    } else {
      var ps := Runs(1, ss) + rest;
      assert ps[0] == Run(1, ss[0]) && ps[1..] == Runs(1, ss[1..]) + rest;
      TakeRuns(c.(any := c.any + [ss[0]]), ss[1..], rest);
      assert c.any + [ss[0]] + ss[1..] == c.any + ss;
    }
  }

  lemma TakeRunIf(c: Choices, tag: nat, s: Option<string>, rest: seq<Packet>)
    requires (tag == 0 && c.initial.None?) || (tag == 2 && c.final.None?)
    ensures TakeChoices(c, RunIf(tag, s) + rest)
              == TakeChoices(if tag == 0 then c.(initial := s) else c.(final := s), rest)
  {
    if s.Some? {
      assert (RunIf(tag, s) + rest)[1..] == rest;
    } else {
      assert RunIf(tag, s) + rest == rest;
    }
  }

  lemma SubstringsRoundTrip(f: Filter)
    requires f.Substrings? && EncodeSubstrings(f).Some?
    ensures DecodeSubstrings(EncodeSubstrings(f).value) == if f.attr != "" then Ok(f) else Malformed
  {
    var a, b, d := RunIf(0, f.initial), Runs(1, f.any), RunIf(2, f.final);
    ConcatAssoc(a, b, d);
    var c0 := Choices(None, [], None);
    TakeRunIf(c0, 0, f.initial, b + d);
    var c1 := c0.(initial := f.initial);
    TakeRuns(c1, f.any, d);
    var c2 := c1.(any := c1.any + f.any);
    assert c2.any == f.any;
    TakeRunIf(c2, 2, f.final, []);
    assert d + [] == d;
    if f.initial.None? && f.final.None? { assert b[0] == Run(1, f.any[0]); }
  }

  /** A filter that can be encoded is read back as itself exactly when every leaf names an attribute. */
  lemma {:induction false} FilterRoundTrip(f: Filter, depth: nat)
    requires EncodeFilter(f, depth).Some?
    ensures DecodeFilter(EncodeFilter(f, depth).value) == if Named(f) then Ok(f) else Malformed
    decreases f
  {
    hide EncodeSubstrings, DecodeSubstrings;
    match f
    case And(fs) => FiltersRoundTrip(fs, depth + 1);
    case Or(fs) => FiltersRoundTrip(fs, depth + 1);
    case Not(g) => FilterRoundTrip(g, depth + 1);
    case Substrings(_, _, _, _) => SubstringsRoundTrip(f); SubstringsTag(f);
    case _ =>
  }

  lemma SubstringsTag(f: Filter)
    requires f.Substrings? && EncodeSubstrings(f).Some?
    ensures EncodeSubstrings(f).value.class_ == Context && EncodeSubstrings(f).value.tag == 4
  {
  }

  lemma {:induction false} FiltersRoundTrip(fs: seq<Filter>, depth: nat)
    requires EncodeFilters(fs, depth).Some?
    ensures DecodeFilters(EncodeFilters(fs, depth).value) ==
            if forall i :: 0 <= i < |fs| ==> Named(fs[i]) then Ok(fs) else Malformed
    decreases fs
  {
    hide Named;
    if fs != [] {
      FilterRoundTrip(fs[0], depth);
      FiltersRoundTrip(fs[1..], depth);
      var ps := EncodeFilters(fs, depth).value;
      assert ps[1..] == EncodeFilters(fs[1..], depth).value;
      assert fs == [fs[0]] + fs[1..];
      assert (forall i :: 0 <= i < |fs| ==> Named(fs[i])) <==>
          Named(fs[0]) && forall i :: 0 <= i < |fs[1..]| ==> Named(fs[1..][i]);
    }
  }

  lemma {:induction false} EncodableExactly(f: Filter, depth: nat)
    ensures EncodeFilter(f, depth).Some? <==> Encodable(f, depth)
    decreases f
  {
    match f
    case And(fs) => EncodableAll(fs, depth + 1);
    case Or(fs) => EncodableAll(fs, depth + 1);
    case Not(g) => EncodableExactly(g, depth + 1);
    case _ =>
  }

  lemma {:induction false} EncodableAll(fs: seq<Filter>, depth: nat)
    ensures EncodeFilters(fs, depth).Some? <==> forall i :: 0 <= i < |fs| ==> Encodable(fs[i], depth)
    decreases fs
  {
    hide Encodable;
    if fs != [] {
      EncodableExactly(fs[0], depth);
      EncodableAll(fs[1..], depth);
      assert (forall i :: 0 <= i < |fs| ==> Encodable(fs[i], depth)) <==>
             Encodable(fs[0], depth) && forall i :: 0 <= i < |fs[1..]| ==> Encodable(fs[1..][i], depth);
    }
  }

  /** How deep a filter nests: one for a leaf. */
  predicate WithinDepth(f: Filter, depth: nat)
    decreases f
  {
    && depth <= MAX_FILTER_DEPTH
    && match f
       case And(fs) => forall i :: 0 <= i < |fs| ==> WithinDepth(fs[i], depth + 1)
       case Or(fs) => forall i :: 0 <= i < |fs| ==> WithinDepth(fs[i], depth + 1)
       case Not(g) => WithinDepth(g, depth + 1)
       case _ => true
  }

  lemma {:induction false} SomeRunTaken(c: Choices, ps: seq<Packet>)
    requires TakeChoices(c, ps).Ok?
    ensures var d := TakeChoices(c, ps).value;
      (c.initial.Some? ==> d.initial.Some?) && (c.final.Some? ==> d.final.Some?) && |d.any| >= |c.any|
      && (ps != [] ==> d.initial.Some? || d.any != [] || d.final.Some?)
    decreases ps
  {
    if ps != [] {
      SomeRunTaken(TakeChoice(c, ps[0]).value, ps[1..]);
    }
  }

  /** Whatever the decoder accepts names its attributes, and is encodable again up to the depth limit. */
  lemma {:induction false} DecodedFilter(p: Packet, depth: nat)
    requires DecodeFilter(p).Ok?
    ensures Named(DecodeFilter(p).value)
    ensures Encodable(DecodeFilter(p).value, depth) <==> WithinDepth(DecodeFilter(p).value, depth)
    decreases p
  {
    if p.tag == 0 || p.tag == 1 {
      DecodedFilters(p.children, depth + 1);
    } else if p.tag == 2 {
      DecodedFilter(p.children[0], depth + 1);
    } else if p.tag == 4 {
      SomeRunTaken(Choices(None, [], None), p.children[1].children);
    }
  }

  lemma {:induction false} DecodedFilters(ps: seq<Packet>, depth: nat)
    requires DecodeFilters(ps).Ok?
    ensures forall i :: 0 <= i < |DecodeFilters(ps).value| ==> Named(DecodeFilters(ps).value[i])
    ensures forall i :: 0 <= i < |DecodeFilters(ps).value| ==>
              (Encodable(DecodeFilters(ps).value[i], depth) <==> WithinDepth(DecodeFilters(ps).value[i], depth))
    decreases ps
  {
    hide Named, Encodable, WithinDepth;
    if ps != [] {
      DecodedFilter(ps[0], depth);
      DecodedFilters(ps[1..], depth);
    }
  }

  /** The decoder's loop over the runs, with its two flags. */
  method DecodeSubstringFilter(p: Packet) returns (r: Result<Filter>)
    ensures r == DecodeSubstrings(p)
  {
    if !p.Constructed? || |p.children| != 2 {
      return Malformed;
    }
    var attr := OctetString(p.children[0]);
    if !attr.Ok? || attr.value == "" {
      return Malformed;
    }
    var list := p.children[1];
    if !IsSequence(list) || |list.children| == 0 {
      return Malformed;
    }
    var initial: Option<string>, any: seq<string>, final: Option<string> := None, [], None;
    var seenInitial, seenFinal := false, false;
    assert list.children[0..] == list.children;
    for i := 0 to |list.children|
      invariant seenInitial == initial.Some? && seenFinal == final.Some?
      invariant TakeChoices(Choices(initial, any, final), list.children[i..])
                  == TakeChoices(Choices(None, [], None), list.children)
    {
      var ch := list.children[i];
      assert list.children[i..][0] == ch && list.children[i..][1..] == list.children[i + 1..];
      if ch.class_ != Context || !ch.Primitive? {
        return Malformed;
      }
      if ch.tag == 0 {
        if seenInitial {
          return Malformed;
        }
        seenInitial := true;
        initial := Some(ch.data);
      } else if ch.tag == 1 {
        any := any + [ch.data];
      } else if ch.tag == 2 {
        if seenFinal {
          return Malformed;
        }
        seenFinal := true;
        final := Some(ch.data);
      } else {
        return Malformed;
      }
    }
    r := Ok(Substrings(attr.value, initial, any, final));
  }

  // ---------------------------------------------------------------------------
  // Beyond the depth limit
  // ---------------------------------------------------------------------------

  function Nots(n: nat): Filter { if n == 0 then Present("a") else Not(Nots(n - 1)) }

  function NotPackets(n: nat): Packet {
    if n == 0 then Primitive(Context, 7, "a") else Constructed(Context, 2, [NotPackets(n - 1)])
  }

  lemma {:induction false} NotsDecoded(n: nat)
    ensures DecodeFilter(NotPackets(n)) == Ok(Nots(n))
  {
    if n > 0 { NotsDecoded(n - 1); }
  }

  /** Exactly 256 levels of nesting can be written. */
  lemma {:induction false} NotsEncodable(n: nat, depth: nat)
    ensures Encodable(Nots(n), depth) <==> depth + n <= 256
    decreases n
  {
    if n > 0 { NotsEncodable(n - 1, depth + 1); }
  }

  /** A filter one level too deep is read, and cannot be written. */
  lemma DeepFilterIsOnlyReadable() returns (p: Packet)
    ensures DecodeFilter(p).Ok? && EncodeFilter(DecodeFilter(p).value, 0).None?
  {
    p := NotPackets(MAX_FILTER_DEPTH + 1);
    NotsDecoded(MAX_FILTER_DEPTH + 1);
    NotsEncodable(MAX_FILTER_DEPTH + 1, 0);
    EncodableExactly(Nots(MAX_FILTER_DEPTH + 1), 0);
  }
}
