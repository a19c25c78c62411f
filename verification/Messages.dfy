// Request messages with their controls (section 4 of RFC 4511), over the packet codec.
module Messages {
  import opened Text
  import opened Codec

  datatype Attribute = Attribute(name: string, values: seq<string>)

  datatype ModifyChange = ModifyChange(op: int, attr: Attribute)

  /** A control; an empty value stands for an absent one. */
  datatype Control = Control(oid: string, critical: bool, value: string)

  /** The request operations. An empty new superior or extended value stands for an absent one. */
  datatype Operation =
    | Bind(version: int, name: string, password: string)
    | Unbind
    | Search(base: string, scope: int, deref: int, sizeLimit: int, timeLimit: int, typesOnly: bool, filter: Filter,
        attributes: seq<string>)
    | Modify(dn: string, changes: seq<ModifyChange>)
    | Add(dn: string, attrs: seq<Attribute>)
    | Delete(dn: string)
    | ModifyDN(dn: string, newRdn: string, deleteOldRdn: bool, newSuperior: string)
    | Compare(dn: string, attr: string, value: string)
    | Abandon(id: int)
    | Extended(name: string, value: string)

  datatype Message = Message(id: int, op: Operation, controls: seq<Control>)

  // ---------------------------------------------------------------------------
  // Lists
  // ---------------------------------------------------------------------------

  function StringPackets(ss: seq<string>): (r: seq<Packet>) {
    seq(|ss|, i requires 0 <= i < |ss| => StringPacket(ss[i]))
  }

  function OctetStrings(ps: seq<Packet>): Result<seq<string>> {
    if ps == [] then Ok([])
    else
      var s := OctetString(ps[0]);
      if !s.Ok? then Malformed
      else
        var rest := OctetStrings(ps[1..]);
        if rest.Ok? then Ok([s.value] + rest.value) else Malformed
  }

  lemma {:induction false} StringsRoundTrip(ss: seq<string>)
    ensures OctetStrings(StringPackets(ss)) == Ok(ss)
  {
    if ss != [] {
      StringsRoundTrip(ss[1..]);
      assert StringPackets(ss)[1..] == StringPackets(ss[1..]) && ss == [ss[0]] + ss[1..];
    }
  }

  // ---------------------------------------------------------------------------
  // Attributes and changes
  // ---------------------------------------------------------------------------

  function EncodeAttribute(a: Attribute): Option<Packet> {
    if a.name == "" then None
    else Some(Sequence([StringPacket(a.name), Constructed(Universal, TAG_SET, StringPackets(a.values))]))
  }

  function DecodeAttribute(p: Packet): Result<Attribute> {
    if !IsSequence(p) || |p.children| != 2 then Malformed
    else
      var name, vals := OctetString(p.children[0]), p.children[1];
      if !name.Ok? || name.value == "" then Malformed
      else if !vals.Constructed? || vals.class_ != Universal || vals.tag != TAG_SET then Malformed
      else
        var vs := OctetStrings(vals.children);
        if vs.Ok? then Ok(Attribute(name.value, vs.value)) else Malformed
  }

  lemma AttributeRoundTrip(a: Attribute)
    ensures EncodeAttribute(a).Some? <==> a.name != ""
    ensures a.name != "" ==> DecodeAttribute(EncodeAttribute(a).value) == Ok(a)
  {
    StringsRoundTrip(a.values);
  }

  function EncodeAttributes(as_: seq<Attribute>): Option<seq<Packet>> {
    if as_ == [] then Some([])
    else
      var p, ps := EncodeAttribute(as_[0]), EncodeAttributes(as_[1..]);
      if p.Some? && ps.Some? then Some([p.value] + ps.value) else None
  }

  function DecodeAttributes(ps: seq<Packet>): Result<seq<Attribute>> {
    if ps == [] then Ok([])
    else
      var a, rest := DecodeAttribute(ps[0]), DecodeAttributes(ps[1..]);
      if a.Ok? && rest.Ok? then Ok([a.value] + rest.value) else Malformed
  }

  lemma {:induction false} AttributesRoundTrip(as_: seq<Attribute>)
    requires EncodeAttributes(as_).Some?
    ensures DecodeAttributes(EncodeAttributes(as_).value) == Ok(as_) && |EncodeAttributes(as_).value| == |as_|
  {
    hide EncodeAttribute, DecodeAttribute;
    if as_ != [] {
      AttributeRoundTrip(as_[0]);
      AttributesRoundTrip(as_[1..]);
      assert EncodeAttributes(as_).value[1..] == EncodeAttributes(as_[1..]).value && as_ == [as_[0]] + as_[1..];
    }
  }

  lemma {:induction false} AttributesEncodable(as_: seq<Attribute>)
    ensures EncodeAttributes(as_).Some? <==> forall i :: 0 <= i < |as_| ==> as_[i].name != ""
  {
    if as_ != [] {
      AttributesEncodable(as_[1..]);
      assert as_ == [as_[0]] + as_[1..];
    }
  }

  function EncodeChange(ch: ModifyChange): Option<Packet> {
    if ch.op < 0 || ch.op > 2 then None
    else
      var a := EncodeAttribute(ch.attr);
      if a.None? then None else Some(Sequence([NumberPacket(TAG_ENUMERATED, ch.op), a.value]))
  }

  function DecodeChange(p: Packet): Result<ModifyChange> {
    if !IsSequence(p) || |p.children| != 2 then Malformed
    else
      var op, a := Number(p.children[0], TAG_ENUMERATED, 0, 2), DecodeAttribute(p.children[1]);
      if op.Ok? && a.Ok? then Ok(ModifyChange(op.value, a.value)) else Malformed
  }

  function EncodeChanges(cs: seq<ModifyChange>): Option<seq<Packet>> {
    if cs == [] then Some([])
    else
      var p, ps := EncodeChange(cs[0]), EncodeChanges(cs[1..]);
      if p.Some? && ps.Some? then Some([p.value] + ps.value) else None
  }

  function DecodeChanges(ps: seq<Packet>): Result<seq<ModifyChange>> {
    if ps == [] then Ok([])
    else
      var c, rest := DecodeChange(ps[0]), DecodeChanges(ps[1..]);
      if c.Ok? && rest.Ok? then Ok([c.value] + rest.value) else Malformed
  }

  lemma ChangeRoundTrip(ch: ModifyChange)
    requires EncodeChange(ch).Some?
    ensures DecodeChange(EncodeChange(ch).value) == Ok(ch)
  {
    hide EncodeAttribute, DecodeAttribute;
    AttributeRoundTrip(ch.attr);
    NumberRoundTrip(TAG_ENUMERATED, ch.op, 0, 2);
  }

  lemma {:induction false} ChangesRoundTrip(cs: seq<ModifyChange>)
    requires EncodeChanges(cs).Some?
    ensures DecodeChanges(EncodeChanges(cs).value) == Ok(cs) && |EncodeChanges(cs).value| == |cs|
  {
    hide EncodeChange, DecodeChange;
    if cs != [] {
      ChangeRoundTrip(cs[0]);
      ChangesRoundTrip(cs[1..]);
      assert EncodeChanges(cs).value[1..] == EncodeChanges(cs[1..]).value && cs == [cs[0]] + cs[1..];
    }
  }

  lemma {:induction false} ChangesEncodable(cs: seq<ModifyChange>)
    ensures EncodeChanges(cs).Some? <==> forall i :: 0 <= i < |cs| ==> 0 <= cs[i].op <= 2 && cs[i].attr.name != ""
  {
    hide IntOctets;
    if cs != [] {
      ChangesEncodable(cs[1..]);
      assert cs == [cs[0]] + cs[1..];
    }
  }

  // ---------------------------------------------------------------------------
  // Controls
  // ---------------------------------------------------------------------------

  /** Criticality is written only when set, a value only when there is one. */
  function EncodeControl(c: Control): Option<Packet> {
    if c.oid == "" then None
    else Some(Sequence([StringPacket(c.oid)] + (if c.critical then [BoolPacket(true)] else [])
                       + (if c.value != "" then [StringPacket(c.value)] else [])))
  }

  /** The optional fields in whatever order they come; the last of a kind wins, and an empty value counts as none. */
  function TakeFields(c: Control, ps: seq<Packet>): Result<Control>
    decreases ps
  {
    if ps == [] then Ok(c)
    else if ps[0].class_ == Universal && ps[0].tag == TAG_BOOLEAN then
      var b := Boolean(ps[0]);
      if b.Ok? then TakeFields(c.(critical := b.value), ps[1..]) else Malformed
    else if ps[0].class_ == Universal && ps[0].tag == TAG_OCTETS then
      var v := OctetString(ps[0]);
      if !v.Ok? then Malformed
      else TakeFields(if v.value != "" then c.(value := v.value) else c, ps[1..])
    else Malformed
  }

  function DecodeControl(p: Packet): Result<Control> {
    if !IsSequence(p) || |p.children| < 1 || |p.children| > 3 then Malformed
    else
      var oid := OctetString(p.children[0]);
      if !oid.Ok? || oid.value == "" then Malformed
      else TakeFields(Control(oid.value, false, ""), p.children[1..])
  }

  lemma ControlRoundTrip(c: Control)
    requires EncodeControl(c).Some?
    ensures DecodeControl(EncodeControl(c).value) == Ok(c)
  {
    var crit := if c.critical then [BoolPacket(true)] else [];
    var val := if c.value != "" then [StringPacket(c.value)] else [];
    var ps := EncodeControl(c).value.children;
    assert ps == [StringPacket(c.oid)] + (crit + val);
    assert ps[1..] == crit + val;
    var c0 := Control(c.oid, false, "");
    var c1 := c0.(critical := c.critical);
    if c.critical {
      assert (crit + val)[0] == BoolPacket(true) && (crit + val)[1..] == val;
    } else {
      assert crit + val == val;
    }
    assert TakeFields(c0, crit + val) == TakeFields(c1, val);
    if c.value != "" {
      assert val[0] == StringPacket(c.value) && val[1..] == [];
      assert TakeFields(c1, val) == TakeFields(c1.(value := c.value), []);
    }
  }

  function EncodeControls(cs: seq<Control>): Option<seq<Packet>> {
    if cs == [] then Some([])
    else
      var p, ps := EncodeControl(cs[0]), EncodeControls(cs[1..]);
      if p.Some? && ps.Some? then Some([p.value] + ps.value) else None
  }

  function DecodeControls(ps: seq<Packet>): Result<seq<Control>> {
    if ps == [] then Ok([])
    else
      var c, rest := DecodeControl(ps[0]), DecodeControls(ps[1..]);
      if c.Ok? && rest.Ok? then Ok([c.value] + rest.value) else Malformed
  }

  lemma {:induction false} ControlsRoundTrip(cs: seq<Control>)
    requires EncodeControls(cs).Some?
    ensures DecodeControls(EncodeControls(cs).value) == Ok(cs)
  {
    hide EncodeControl, DecodeControl;
    if cs != [] {
      ControlRoundTrip(cs[0]);
      ControlsRoundTrip(cs[1..]);
      assert EncodeControls(cs).value[1..] == EncodeControls(cs[1..]).value && cs == [cs[0]] + cs[1..];
    }
  }

  lemma {:induction false} ControlsEncodable(cs: seq<Control>)
    ensures EncodeControls(cs).Some? <==> forall i :: 0 <= i < |cs| ==> cs[i].oid != ""
  {
    if cs != [] {
      ControlsEncodable(cs[1..]);
      assert cs == [cs[0]] + cs[1..];
    }
  }

  // ---------------------------------------------------------------------------
  // Operations
  // ---------------------------------------------------------------------------

  function EncodeSearch(op: Operation): Option<Packet>
    requires op.Search?
  {
    if !(0 <= op.scope <= 3 && 0 <= op.deref <= 3 && 0 <= op.sizeLimit <= MAX_INT32 && 0 <= op.timeLimit <= MAX_INT32)
        then None
    else
      var f := EncodeFilter(op.filter, 0);
      if f.None? then None
      else
        Some(Constructed(Application, 3, [
          StringPacket(op.base), NumberPacket(TAG_ENUMERATED, op.scope), NumberPacket(TAG_ENUMERATED, op.deref),
          NumberPacket(TAG_INTEGER, op.sizeLimit), NumberPacket(TAG_INTEGER, op.timeLimit), BoolPacket(op.typesOnly),
          f.value, Sequence(StringPackets(op.attributes))]))
  }

  function DecodeSearch(p: Packet): Result<Operation> {
    if !p.Constructed? || |p.children| != 8 then Malformed
    else
      var c := p.children;
      var base, scope, deref := OctetString(c[0]), Number(c[1], TAG_ENUMERATED, 0, 3),
          Number(c[2], TAG_ENUMERATED, 0, 3);
      var size, time := Number(c[3], TAG_INTEGER, 0, MAX_INT32), Number(c[4], TAG_INTEGER, 0, MAX_INT32);
      var typesOnly, f := Boolean(c[5]), DecodeFilter(c[6]);
      if !base.Ok? || !scope.Ok? || !deref.Ok? || !size.Ok? || !time.Ok? || !typesOnly.Ok? then Malformed
      else match f case Malformed => Malformed case Unsupported => Unsupported
        case Ok(filter) =>
          if !IsSequence(c[7]) then Malformed
          else
            var attrs := OctetStrings(c[7].children);
            if !attrs.Ok? then Malformed
            else Ok(Search(base.value, scope.value, deref.value, size.value, time.value, typesOnly.value, filter,
                attrs.value))
  }

  function EncodeOp(op: Operation): Option<Packet> {
    match op
    case Bind(version, name, password) =>
      if version < 1 || version > 127 then None
      else Some(Constructed(Application, 0,
          [NumberPacket(TAG_INTEGER, version), StringPacket(name), Primitive(Context, 0, password)]))
    case Unbind => Some(Primitive(Application, 2, ""))
    case Search(_, _, _, _, _, _, _, _) => EncodeSearch(op)
    case Modify(dn, changes) =>
      var cs := EncodeChanges(changes);
      if changes == []
          || cs.None? then None else Some(Constructed(Application, 6, [StringPacket(dn), Sequence(cs.value)]))
    case Add(dn, attrs) =>
      var ps := EncodeAttributes(attrs);
      if attrs == []
          || ps.None? then None else Some(Constructed(Application, 8, [StringPacket(dn), Sequence(ps.value)]))
    case Delete(dn) => Some(Primitive(Application, 10, dn))
    case ModifyDN(dn, newRdn, deleteOldRdn, newSuperior) =>
      Some(Constructed(Application, 12, [StringPacket(dn), StringPacket(newRdn), BoolPacket(deleteOldRdn)]
        + if newSuperior != "" then [Primitive(Context, 0, newSuperior)] else []))
    case Compare(dn, attr,
        value) => Some(Constructed(Application, 14, [StringPacket(dn), EncodeAVA(attr, value, TAG_SEQUENCE)]))
    case Abandon(id) => if id < 0 || id > MAX_INT32 then None else Some(Primitive(Application, 16, IntOctets(id)))
    case Extended(name, value) =>
      if name == "" then None
      else Some(Constructed(Application, 23,
          [Primitive(Context, 0, name)] + if value != "" then [Primitive(Context, 1, value)] else []))
  }

  function DecodeBind(p: Packet): Result<Operation> {
    if !p.Constructed? || |p.children| != 3 then Malformed
    else
      var version, name, auth := Number(p.children[0], TAG_INTEGER, 1, 127), OctetString(p.children[1]), p.children[2];
      if !version.Ok? || !name.Ok? || auth.class_ != Context then Malformed
      else if auth.tag == 3 then Unsupported
      else
        var password := ContextString(auth, 0);
        if password.Ok? then Ok(Bind(version.value, name.value, password.value)) else Malformed
  }

  function DecodeModify(p: Packet): Result<Operation> {
    if !p.Constructed? || |p.children| != 2 then Malformed
    else
      var dn, list := OctetString(p.children[0]), p.children[1];
      if !dn.Ok? || !IsSequence(list) || list.children == [] then Malformed
      else
        var cs := DecodeChanges(list.children);
        if cs.Ok? then Ok(Modify(dn.value, cs.value)) else Malformed
  }

  function DecodeAdd(p: Packet): Result<Operation> {
    if !p.Constructed? || |p.children| != 2 then Malformed
    else
      var dn, list := OctetString(p.children[0]), p.children[1];
      if !dn.Ok? || !IsSequence(list) || |list.children| < 1 then Malformed
      else
        var as_ := DecodeAttributes(list.children);
        if as_.Ok? then Ok(Add(dn.value, as_.value)) else Malformed
  }

  function DecodeModifyDN(p: Packet): Result<Operation> {
    if !p.Constructed? || (|p.children| != 3 && |p.children| != 4) then Malformed
    else
      var dn, rdn, del := OctetString(p.children[0]), OctetString(p.children[1]), Boolean(p.children[2]);
      var sup := if |p.children| == 4 then ContextString(p.children[3], 0) else Ok("");
      if dn.Ok? && rdn.Ok? && del.Ok?
          && sup.Ok? then Ok(ModifyDN(dn.value, rdn.value, del.value, sup.value)) else Malformed
  }

  function DecodeCompare(p: Packet): Result<Operation> {
    if !p.Constructed? || |p.children| != 2 then Malformed
    else
      var dn, ava := OctetString(p.children[0]), DecodeAVA(p.children[1]);
      if dn.Ok? && ava.Ok? then Ok(Compare(dn.value, ava.value.0, ava.value.1)) else Malformed
  }

  function DecodeAbandon(p: Packet): Result<Operation> {
    if !p.Primitive? then Malformed
    else
      var id := ParseInt(p.data);
      if id.None? || id.value < 0 || id.value > MAX_INT32 then Malformed else Ok(Abandon(id.value))
  }

  function DecodeExtended(p: Packet): Result<Operation> {
    if !p.Constructed? || |p.children| < 1 || |p.children| > 2 then Malformed
    else
      var name := ContextString(p.children[0], 0);
      var value := if |p.children| == 2 then ContextString(p.children[1], 1) else Ok("");
      if name.Ok? && value.Ok? then Ok(Extended(name.value, value.value)) else Malformed
  }

  /** Tags of responses, and of operations outside the protocol subset, are not modelled as operations. */
  function DecodeOp(p: Packet): Result<Operation> {
    match p.tag
    case 0 => DecodeBind(p)
    case 2 => if p.Primitive? && p.data == "" then Ok(Unbind) else Malformed
    case 3 => DecodeSearch(p)
    case 6 => DecodeModify(p)
    case 8 => DecodeAdd(p)
    case 10 => if p.Primitive? then Ok(Delete(p.data)) else Malformed
    case 12 => DecodeModifyDN(p)
    case 14 => DecodeCompare(p)
    case 16 => DecodeAbandon(p)
    case 23 => DecodeExtended(p)
    case _ => Unsupported
  }

  function EncodeMessage(m: Message): Option<Packet> {
    if m.id < 0 || m.id > MAX_INT32 then None
    else
      var op, cs := EncodeOp(m.op), EncodeControls(m.controls);
      if op.None? || (m.controls != [] && cs.None?) then None
      else
        Some(Sequence([NumberPacket(TAG_INTEGER, m.id), op.value]
          + if m.controls != [] then [Constructed(Context, 0, cs.value)] else []))
  }

  function DecodeMessage(p: Packet): Result<Message> {
    if !IsSequence(p) || |p.children| < 2 || |p.children| > 3 then Malformed
    else
      var id := Number(p.children[0], TAG_INTEGER, 0, MAX_INT32);
      if !id.Ok? || p.children[1].class_ != Application then Malformed
      else
        var op := DecodeOp(p.children[1]);
        match op case Malformed => Malformed case Unsupported => Unsupported
        case Ok(o) =>
          if |p.children| == 2 then Ok(Message(id.value, o, []))
          else if !p.children[2].Constructed? || p.children[2].class_ != Context
              || p.children[2].tag != 0 then Malformed
          else
            var cs := DecodeControls(p.children[2].children);
            if cs.Ok? then Ok(Message(id.value, o, cs.value)) else Malformed
  }

  // ---------------------------------------------------------------------------
  // Messages survive
  // ---------------------------------------------------------------------------

  /** The attribute descriptions the encoder lets through empty and the decoder refuses. */
  predicate NamesAttributes(op: Operation) {
    match op
    case Search(_, _, _, _, _, _, filter, _) => Named(filter)
    case Compare(_, attr, _) => attr != ""
    case _ => true
  }

  lemma SearchRoundTrip(op: Operation)
    requires op.Search? && EncodeSearch(op).Some?
    ensures DecodeSearch(EncodeSearch(op).value) == if NamesAttributes(op) then Ok(op) else Malformed
  {
    hide EncodeFilter, DecodeFilter, StringPackets, OctetStrings, Named, Number, NumberPacket;
    FilterRoundTrip(op.filter, 0);
    StringsRoundTrip(op.attributes);
    NumberRoundTrip(TAG_ENUMERATED, op.scope, 0, 3);
    NumberRoundTrip(TAG_ENUMERATED, op.deref, 0, 3);
    NumberRoundTrip(TAG_INTEGER, op.sizeLimit, 0, MAX_INT32);
    NumberRoundTrip(TAG_INTEGER, op.timeLimit, 0, MAX_INT32);
  }

  lemma OpRoundTrip(op: Operation)
    requires EncodeOp(op).Some?
    ensures EncodeOp(op).value.class_ == Application
    ensures DecodeOp(EncodeOp(op).value) == if NamesAttributes(op) then Ok(op) else Malformed
  {
    hide EncodeSearch, DecodeSearch, EncodeChanges, DecodeChanges, EncodeAttributes, DecodeAttributes, IntOctets,
        ParseInt, Named;
    match op
    case Bind(version, _, _) => NumberRoundTrip(TAG_INTEGER, version, 1, 127);
    case Search(_, _, _, _, _, _, _, _) =>
      SearchRoundTrip(op);
      SearchTag(op);
    case Modify(_, changes) => ChangesRoundTrip(changes);
    case Add(_, attrs) => AttributesRoundTrip(attrs);
    case Abandon(id) => IntRoundTrip(id);
    case _ =>
  }

  lemma SearchTag(op: Operation)
    requires op.Search? && EncodeSearch(op).Some?
    ensures EncodeSearch(op).value.class_ == Application && EncodeSearch(op).value.tag == 3
  {
  }

  /**
   * A request message that can be encoded is read back as itself exactly when its attribute
   * descriptions are not empty.
   */
  lemma MessageRoundTrip(m: Message)
    requires EncodeMessage(m).Some?
    ensures DecodeMessage(EncodeMessage(m).value) == if NamesAttributes(m.op) then Ok(m) else Malformed
  {
    hide EncodeOp, DecodeOp, EncodeControls, DecodeControls, Number, NumberPacket, NamesAttributes;
    NumberRoundTrip(TAG_INTEGER, m.id, 0, MAX_INT32);
    OpRoundTrip(m.op);
    if m.controls != [] { ControlsRoundTrip(m.controls); }
  }

  /** What the encoder demands. */
  predicate EncodableOp(op: Operation) {
    match op
    case Bind(version, _, _) => 1 <= version <= 127
    case Search(_, scope, deref, size, time, _, filter, _) =>
      0 <= scope <= 3 && 0 <= deref <= 3 && 0 <= size <= MAX_INT32 && 0 <= time <= MAX_INT32 && Encodable(filter, 0)
    case Modify(_, changes) => changes != [] && forall i :: 0 <= i < |changes| ==>
        0 <= changes[i].op <= 2 && changes[i].attr.name != ""
    case Add(_, attrs) => attrs != [] && forall i :: 0 <= i < |attrs| ==> attrs[i].name != ""
    case Abandon(id) => 0 <= id <= MAX_INT32
    case Extended(name, _) => name != ""
    case _ => true
  }

  lemma MessageEncodable(m: Message)
    ensures EncodeMessage(m).Some? <==>
              0 <= m.id <= MAX_INT32 && EncodableOp(m.op) && forall i :: 0 <= i < |m.controls| ==>
                  m.controls[i].oid != ""
  {
    hide EncodeControls, EncodeChanges, EncodeAttributes, EncodeFilter, IntOctets, Encodable;
    ControlsEncodable(m.controls);
    match m.op
    case Search(_, _, _, _, _, _, filter, _) => EncodableExactly(filter, 0);
    case Modify(_, changes) => ChangesEncodable(changes);
    case Add(_, attrs) => AttributesEncodable(attrs);
    case _ =>
  }

  // ---------------------------------------------------------------------------
  // What the decoder accepts can be written again
  // ---------------------------------------------------------------------------

  lemma {:induction false} DecodedAttributes(ps: seq<Packet>)
    requires DecodeAttributes(ps).Ok?
    ensures |DecodeAttributes(ps).value| == |ps|
    ensures forall i :: 0 <= i < |ps| ==> DecodeAttributes(ps).value[i].name != ""
  {
    if ps != [] {
      DecodedAttributes(ps[1..]);
    }
  }

  lemma {:induction false} DecodedChanges(ps: seq<Packet>)
    requires DecodeChanges(ps).Ok?
    ensures |DecodeChanges(ps).value| == |ps|
    ensures forall i :: 0 <= i < |ps| ==>
              0 <= DecodeChanges(ps).value[i].op <= 2 && DecodeChanges(ps).value[i].attr.name != ""
  {
    hide ParseInt;
    if ps != [] {
      DecodedChanges(ps[1..]);
    }
  }

  lemma {:induction false} TakenFields(c: Control, ps: seq<Packet>)
    requires TakeFields(c, ps).Ok?
    ensures TakeFields(c, ps).value.oid == c.oid
    decreases ps
  {
    if ps != [] {
      if ps[0].tag == TAG_BOOLEAN {
        TakenFields(c.(critical := Boolean(ps[0]).value), ps[1..]);
      } else {
        var v := OctetString(ps[0]).value;
        TakenFields(if v != "" then c.(value := v) else c, ps[1..]);
      }
    }
  }

  lemma {:induction false} DecodedControls(ps: seq<Packet>)
    requires DecodeControls(ps).Ok?
    ensures forall i :: 0 <= i < |DecodeControls(ps).value| ==> DecodeControls(ps).value[i].oid != ""
  {
    hide TakeFields;
    if ps != [] {
      DecodedControls(ps[1..]);
      var c := Control(OctetString(ps[0].children[0]).value, false, "");
      TakenFields(c, ps[0].children[1..]);
    }
  }

  /**
   * The two things the decoder accepts and the encoder refuses: an unnamed extended request,
   * and a filter beyond the depth limit.
   */
  predicate OnlyReadable(op: Operation) {
    (op.Extended? && op.name == "") || (op.Search? && !WithinDepth(op.filter, 0))
  }

  lemma DecodedOp(p: Packet)
    requires DecodeOp(p).Ok?
    ensures NamesAttributes(DecodeOp(p).value)
    ensures EncodableOp(DecodeOp(p).value) <==> !OnlyReadable(DecodeOp(p).value)
  {
    hide DecodeFilter, DecodeChanges, DecodeAttributes, ParseInt, Named, Encodable, WithinDepth, OctetStrings;
    if p.tag == 3 {
      DecodedFilter(p.children[6], 0);
    } else if p.tag == 6 {
      DecodedChanges(p.children[1].children);
    } else if p.tag == 8 {
      DecodedAttributes(p.children[1].children);
    }
  }

  /** Reading, writing and reading again gives the same message, but for what only the reader accepts. */
  lemma DecodedMessage(p: Packet)
    requires DecodeMessage(p).Ok?
    ensures var m := DecodeMessage(p).value;
      && (EncodeMessage(m).Some? <==> !OnlyReadable(m.op))
      && (EncodeMessage(m).Some? ==> DecodeMessage(EncodeMessage(m).value) == Ok(m))
  {
    hide DecodeOp, EncodeOp, DecodeControls, EncodeControls, NamesAttributes, EncodableOp, OnlyReadable, ParseInt,
        IntOctets;
    var m := DecodeMessage(p).value;
    DecodedOp(p.children[1]);
    if |p.children| == 3 { DecodedControls(p.children[2].children); }
    MessageEncodable(m);
    if EncodeMessage(m).Some? { MessageRoundTrip(m); }
  }

  // ---------------------------------------------------------------------------
  // Where the two disagree
  // ---------------------------------------------------------------------------

  /** A compare request without an attribute is written, and refused when it is read. */
  lemma UnnamedCompareIsRefused() returns (m: Message)
    ensures EncodeMessage(m).Some? && DecodeMessage(EncodeMessage(m).value) == Malformed
  {
    m := Message(1, Compare("", "", ""), []);
    MessageEncodable(m);
    MessageRoundTrip(m);
  }

  /** An extended request without a name is read, and cannot be written. */
  lemma UnnamedExtendedIsOnlyReadable() returns (p: Packet)
    ensures DecodeMessage(p).Ok? && EncodeMessage(DecodeMessage(p).value).None?
  {
    var op := Constructed(Application, 23, [Primitive(Context, 0, "")]);
    p := Sequence([NumberPacket(TAG_INTEGER, 1), op]);
    NumberRoundTrip(TAG_INTEGER, 1, 0, MAX_INT32);
    hide Number, NumberPacket, IntOctets, ParseInt;
    assert DecodeExtended(op) == Ok(Extended("", ""));
    assert DecodeMessage(p) == Ok(Message(1, Extended("", ""), []));
    MessageEncodable(DecodeMessage(p).value);
  }
}
