// The structural pre-scan of a message: an iterative pass with an explicit stack, against
// the recursive grammar of definite-length BER elements.
module Ber {
  import opened Text

  type Octet = x: int | 0 <= x < 256

  // ---------------------------------------------------------------------------
  // The grammar (section 8.1 of ITU-T X.690, restricted by section 5.1 of RFC 4511)
  // ---------------------------------------------------------------------------

  /** What the header octets of one element say: where its contents start, how long they are, and their form. */
  datatype Header = Header(start: nat, length: nat, constructed: bool)

  /** The first octet from off on without a continuation bit. */
  function LastTagOctet(buf: seq<Octet>, off: nat, end: nat): (p: nat)
    requires off <= end <= |buf|
    ensures off <= p <= end
    ensures forall j :: off <= j < p ==> buf[j] >= 128
    ensures p < end ==> buf[p] < 128
    decreases end - off
  {
    if off == end || buf[off] < 128 then off else LastTagOctet(buf, off + 1, end)
  }

  /**
   * Behind the identifier octets. A high tag has at most nine octets and no leading zero;
   * end-of-content is no element.
   */
  function AfterTag(buf: seq<Octet>, off: nat, end: nat): (r: Option<nat>)
    requires off <= end <= |buf|
    ensures r.Some? ==> off < r.value <= end
  {
    if off == end || buf[off] == 0 then None
    else if buf[off] % 32 != 31 then Some(off + 1)
    else
      var p := LastTagOctet(buf, off + 1, end);
      if p == end || p - off > 9 || buf[off + 1] % 128 == 0 then None else Some(p + 1)
  }

  function BigEndian(s: seq<Octet>): nat {
    if s == [] then 0 else BigEndian(s[..|s| - 1]) * 256 + s[|s| - 1]
  }

  /** The length octets: short form, or long form of one to eight octets; no indefinite form. */
  function LengthAt(buf: seq<Octet>, off: nat, end: nat): (r: Option<(nat, nat)>)
    requires off <= end <= |buf|
    ensures r.Some? ==> off < r.value.0 <= end
  {
    if off == end || buf[off] == 128 then None
    else if buf[off] < 128 then Some((off + 1, buf[off]))
    else
      var n := buf[off] - 128;
      if n > 8 || off + 1 + n > end then None else Some((off + 1 + n, BigEndian(buf[off + 1..off + 1 + n])))
  }

  function HeaderAt(buf: seq<Octet>, off: nat, end: nat): (r: Option<Header>)
    requires off <= end <= |buf|
    ensures r.Some? ==> off < r.value.start <= end
  {
    var tag := AfterTag(buf, off, end);
    if tag.None? then None
    else
      var len := LengthAt(buf, tag.value, end);
      if len.None? then None else Some(Header(len.value.0, len.value.1, buf[off] / 32 % 2 == 1))
  }

  /** How many elements the octets from off to end hold when they are a series of elements nested at most depth deep. */
  function Elements(buf: seq<Octet>, off: nat, end: nat, depth: nat): Option<nat>
    requires off <= end <= |buf|
    decreases end - off, 0
  {
    if off == end then Some(0)
    else
      var h := HeaderAt(buf, off, end);
      if h.None? || h.value.start + h.value.length > end then None
      else
        var stop := h.value.start + h.value.length;
        Plus(Plus(Some(1), Contents(buf, h.value, depth)), Elements(buf, stop, end, depth))
  }

  /** The elements inside an element: none in a primitive one. */
  function Contents(buf: seq<Octet>, h: Header, depth: nat): Option<nat>
    requires h.start + h.length <= |buf|
    decreases h.length, 1
  {
    if !h.constructed then Some(0)
    else if depth == 0 then None
    else Elements(buf, h.start, h.start + h.length, depth - 1)
  }

  function Plus(a: Option<nat>, b: Option<nat>): Option<nat> {
    if a.Some? && b.Some? then Some(a.value + b.value) else None
  }

  /** buf is one element, within both budgets. */
  predicate IsElement(buf: seq<Octet>, maxDepth: nat, maxElements: nat) {
    var h := HeaderAt(buf, 0, |buf|);
    && h.Some? && h.value.start + h.value.length == |buf|
    && Contents(buf, h.value, maxDepth).Some?
    && 1 + Contents(buf, h.value, maxDepth).value <= maxElements
  }

  // ---------------------------------------------------------------------------
  // Reading a header beyond the enclosing element makes no difference
  // ---------------------------------------------------------------------------

  lemma {:induction false} LastTagOctetWithin(buf: seq<Octet>, off: nat, end: nat)
    requires off <= end <= |buf|
    ensures LastTagOctet(buf, off, end) == if LastTagOctet(buf, off, |buf|) < end then LastTagOctet(buf, off, |buf|)
              else end
    decreases end - off
  {
    if off < end && buf[off] >= 128 {
      LastTagOctetWithin(buf, off + 1, end);
    }
  }

  lemma AfterTagWithin(buf: seq<Octet>, off: nat, end: nat)
    requires off < end <= |buf|
    ensures AfterTag(buf, off, end) ==
            if AfterTag(buf, off, |buf|).Some?
                && AfterTag(buf, off, |buf|).value <= end then AfterTag(buf, off, |buf|) else None
  {
    LastTagOctetWithin(buf, off + 1, end);
    hide LastTagOctet;
  }

  lemma LengthWithin(buf: seq<Octet>, off: nat, end: nat)
    requires off <= end <= |buf|
    ensures LengthAt(buf, off, end) ==
            if LengthAt(buf, off, |buf|).Some?
                && LengthAt(buf, off, |buf|).value.0 <= end then LengthAt(buf, off, |buf|) else None
  {
    hide BigEndian;
  }

  /** A header found in the whole buffer is the header inside end as soon as it ends there. */
  lemma HeaderWithin(buf: seq<Octet>, off: nat, end: nat)
    requires off < end <= |buf|
    ensures HeaderAt(buf, off, end).Some? ==> HeaderAt(buf, off, |buf|) == HeaderAt(buf, off, end)
    ensures HeaderAt(buf, off, |buf|).Some? && HeaderAt(buf, off, |buf|).value.start <= end ==>
              HeaderAt(buf, off, end) == HeaderAt(buf, off, |buf|)
  {
    hide AfterTag, LengthAt;
    AfterTagWithin(buf, off, end);
    var tag := AfterTag(buf, off, |buf|);
    if tag.Some? && tag.value <= end {
      LengthWithin(buf, tag.value, end);
    }
  }

  // ---------------------------------------------------------------------------
  // The scan
  // ---------------------------------------------------------------------------

  /** What is still to be read below the open elements, innermost last. */
  function Remaining(buf: seq<Octet>, off: nat, stack: seq<nat>, maxDepth: nat): Option<nat>
    requires StackFits(buf, off, stack, maxDepth)
    decreases |stack|
  {
    if stack == [] then if off == |buf| then Some(0) else None
    else
      var k := |stack| - 1;
      Plus(Elements(buf, off, stack[k], maxDepth - |stack|), Remaining(buf, stack[k], stack[..k], maxDepth))
  }

  /** The ends of the open elements enclose one another and the position. */
  predicate StackFits(buf: seq<Octet>, off: nat, stack: seq<nat>, maxDepth: nat) {
    && off <= |buf| && |stack| <= maxDepth
    && (forall i :: 0 <= i < |stack| ==> off <= stack[i] <= |buf|)
    && forall i, j :: 0 <= i < j < |stack| ==> stack[j] <= stack[i]
  }

  /** Whether the rest of the scan will succeed. */
  predicate Accepts(buf: seq<Octet>, off: nat, stack: seq<nat>, elements: nat, maxDepth: nat, maxElements: nat)
    requires StackFits(buf, off, stack, maxDepth)
  {
    var rest := Remaining(buf, off, stack, maxDepth);
    rest.Some? && elements + rest.value <= maxElements
  }

  lemma PopStep(buf: seq<Octet>, off: nat, stack: seq<nat>, maxDepth: nat)
    requires StackFits(buf, off, stack, maxDepth) && stack != [] && off == stack[|stack| - 1]
    ensures StackFits(buf, off, stack[..|stack| - 1], maxDepth)
    ensures Remaining(buf, off, stack, maxDepth) == Remaining(buf, off, stack[..|stack| - 1], maxDepth)
  {
  }

  /** One more element of a series. */
  lemma NextElement(buf: seq<Octet>, off: nat, end: nat, depth: nat)
    requires off < end <= |buf|
    ensures var h := HeaderAt(buf, off, |buf|);
      Elements(buf, off, end, depth) ==
        if h.None? || h.value.start + h.value.length > end then None
        else Plus(Plus(Some(1), Contents(buf, h.value, depth)),
            Elements(buf, h.value.start + h.value.length, end, depth))
  {
    hide HeaderAt, Contents;
    HeaderWithin(buf, off, end);
  }

  lemma StackLast(buf: seq<Octet>, off: nat, stack: seq<nat>, maxDepth: nat)
    requires StackFits(buf, off, stack, maxDepth) && stack != []
    ensures var k := |stack| - 1;
      && off <= stack[k] <= |buf| && StackFits(buf, stack[k], stack[..k], maxDepth) && |stack| <= maxDepth
      && Remaining(buf, off, stack, maxDepth) ==
         Plus(Elements(buf, off, stack[k], maxDepth - |stack|), Remaining(buf, stack[k], stack[..k], maxDepth))
  {
    hide Elements;
  }

  lemma Advance(buf: seq<Octet>, off: nat, next: nat, stack: seq<nat>, maxDepth: nat)
    requires StackFits(buf, off, stack, maxDepth) && stack != [] && off <= next <= stack[|stack| - 1]
    ensures StackFits(buf, next, stack, maxDepth)
  {
  }

  lemma PrimitiveStep(buf: seq<Octet>, off: nat, stack: seq<nat>, maxDepth: nat, h: Header)
    requires StackFits(buf, off, stack, maxDepth) && stack != [] && off < stack[|stack| - 1]
    requires HeaderAt(buf, off, |buf|) == Some(h) && !h.constructed && h.start + h.length <= stack[|stack| - 1]
    ensures StackFits(buf, h.start + h.length, stack, maxDepth)
    ensures Remaining(buf, off, stack, maxDepth) == Plus(Some(1), Remaining(buf, h.start + h.length, stack, maxDepth))
  {
    hide HeaderAt, Elements, StackFits, Remaining;
    StackLast(buf, off, stack, maxDepth);
    Advance(buf, off, h.start + h.length, stack, maxDepth);
    StackLast(buf, h.start + h.length, stack, maxDepth);
    NextElement(buf, off, stack[|stack| - 1], maxDepth - |stack|);
  }

  lemma ConstructedStep(buf: seq<Octet>, off: nat, stack: seq<nat>, maxDepth: nat, h: Header)
    requires StackFits(buf, off, stack, maxDepth) && stack != [] && off < stack[|stack| - 1] && |stack| < maxDepth
    requires HeaderAt(buf, off, |buf|) == Some(h) && h.constructed && h.start + h.length <= stack[|stack| - 1]
    ensures StackFits(buf, h.start, stack + [h.start + h.length], maxDepth)
    ensures Remaining(buf, off, stack, maxDepth)
              == Plus(Some(1), Remaining(buf, h.start, stack + [h.start + h.length], maxDepth))
  {
    hide HeaderAt, Elements, StackFits, Remaining;
    var stop := h.start + h.length;
    StackLast(buf, off, stack, maxDepth);
    Advance(buf, off, stop, stack, maxDepth);
    StackLast(buf, stop, stack, maxDepth);
    NextElement(buf, off, stack[|stack| - 1], maxDepth - |stack|);
    PushedRemaining(buf, h.start, stop, stack, maxDepth);
  }

  lemma PushedRemaining(buf: seq<Octet>, off: nat, stop: nat, stack: seq<nat>, maxDepth: nat)
    requires StackFits(buf, stop, stack, maxDepth) && off <= stop && |stack| < maxDepth
    ensures StackFits(buf, off, stack + [stop], maxDepth)
    ensures Remaining(buf, off, stack + [stop], maxDepth) ==
            Plus(Elements(buf, off, stop, maxDepth - |stack| - 1), Remaining(buf, stop, stack, maxDepth))
  {
    hide Elements;
    assert (stack + [stop])[..|stack|] == stack;
  }

  /** An element that does not fit its enclosing one, or nests too deep, leaves nothing acceptable. */
  lemma StuckStep(buf: seq<Octet>, off: nat, stack: seq<nat>, maxDepth: nat)
    requires StackFits(buf, off, stack, maxDepth) && stack != [] && off < stack[|stack| - 1]
    requires var h := HeaderAt(buf, off, |buf|);
      h.None? || h.value.start + h.value.length > stack[|stack| - 1] || (h.value.constructed && |stack| == maxDepth)
    ensures Remaining(buf, off, stack, maxDepth).None?
  {
    hide HeaderAt, Elements, StackFits, Remaining;
    StackLast(buf, off, stack, maxDepth);
    NextElement(buf, off, stack[|stack| - 1], maxDepth - |stack|);
  }

  /** The first element, read with an empty stack. */
  lemma FirstStep(buf: seq<Octet>, maxDepth: nat, maxElements: nat)
    requires buf != []
    ensures var h := HeaderAt(buf, 0, |buf|);
      IsElement(buf, maxDepth, maxElements) <==>
        && h.Some? && h.value.start + h.value.length <= |buf|
        && (if h.value.constructed
            then maxDepth > 0 && StackFits(buf, h.value.start, [h.value.start + h.value.length], maxDepth)
                 && Accepts(buf, h.value.start, [h.value.start + h.value.length], 1, maxDepth, maxElements)
            else StackFits(buf, h.value.start + h.value.length, [], maxDepth)
                 && Accepts(buf, h.value.start + h.value.length, [], 1, maxDepth, maxElements))
  {
    hide HeaderAt, Elements;
    var h := HeaderAt(buf, 0, |buf|);
    if h.Some? && h.value.start + h.value.length <= |buf| && h.value.constructed && maxDepth > 0 {
      PushedRemaining(buf, h.value.start, h.value.start + h.value.length, [], maxDepth);
      assert [] + [h.value.start + h.value.length] == [h.value.start + h.value.length];
    }
  }

  ghost function ParentEnd(buf: seq<Octet>, stack: seq<nat>): nat {
    if stack == [] then |buf| else stack[|stack| - 1]
  }

  /** The element at off breaks a rule of the scan. */
  ghost predicate Stuck(buf: seq<Octet>, off: nat, stack: seq<nat>, elements: nat, maxDepth: nat, maxElements: nat)
    requires off <= |buf|
  {
    var h := HeaderAt(buf, off, |buf|);
    h.None? || h.value.start + h.value.length > ParentEnd(buf, stack) || elements == maxElements
    || (h.value.constructed && |stack| == maxDepth)
  }

  /** Between elements: the scan has not begun, or elements are open. */
  ghost predicate Between(buf: seq<Octet>, off: nat, stack: seq<nat>, elements: nat, maxDepth: nat, maxElements: nat) {
    && StackFits(buf, off, stack, maxDepth) && off < |buf|
    && (if elements == 0 then off == 0 && stack == []
        else stack != [] && off < stack[|stack| - 1]
             && (IsElement(buf, maxDepth, maxElements) <==> Accepts(buf, off, stack, elements, maxDepth, maxElements)))
  }

  lemma StuckRejects(buf: seq<Octet>, off: nat, stack: seq<nat>, elements: nat, maxDepth: nat, maxElements: nat)
    requires Between(buf, off, stack, elements, maxDepth, maxElements)
    requires Stuck(buf, off, stack, elements, maxDepth, maxElements)
    ensures !IsElement(buf, maxDepth, maxElements)
  {
    hide HeaderAt, Elements, StackFits, Remaining;
    if elements > 0 {
      var h := HeaderAt(buf, off, |buf|);
      if h.None? || h.value.start + h.value.length > stack[|stack| - 1]
          || (h.value.constructed && |stack| == maxDepth) {
        StuckFits(buf, off, stack, maxDepth);
        StuckStep(buf, off, stack, maxDepth);
      } else {
        TakenStep(buf, off, stack, maxDepth);
      }
    }
  }

  lemma StuckFits(buf: seq<Octet>, off: nat, stack: seq<nat>, maxDepth: nat)
    requires StackFits(buf, off, stack, maxDepth)
    ensures |stack| <= maxDepth
  {
  }

  /** Whatever form the next element has, one element less remains behind its header. */
  lemma TakenStep(buf: seq<Octet>, off: nat, stack: seq<nat>, maxDepth: nat)
    requires StackFits(buf, off, stack, maxDepth) && stack != [] && off < stack[|stack| - 1] && off <= |buf|
    requires var h := HeaderAt(buf, off, |buf|);
      h.Some? && h.value.start + h.value.length <= stack[|stack| - 1] && !(h.value.constructed && |stack| == maxDepth)
    ensures var h := HeaderAt(buf, off, |buf|).value;
      var off' := if h.constructed then h.start else h.start + h.length;
      var stack' := if h.constructed then stack + [h.start + h.length] else stack;
      StackFits(buf, off', stack', maxDepth)
          && Remaining(buf, off, stack, maxDepth) == Plus(Some(1), Remaining(buf, off', stack', maxDepth))
  {
    hide HeaderAt, Elements, StackFits, Remaining;
    var h := HeaderAt(buf, off, |buf|).value;
    StuckFits(buf, off, stack, maxDepth);
    if h.constructed {
      ConstructedStep(buf, off, stack, maxDepth, h);
    } else {
      PrimitiveStep(buf, off, stack, maxDepth, h);
    }
  }

  lemma NextState(buf: seq<Octet>, off: nat, stack: seq<nat>, elements: nat, maxDepth: nat, maxElements: nat,
      off': nat, stack': seq<nat>)
    requires Between(buf, off, stack, elements, maxDepth, maxElements)
    requires !Stuck(buf, off, stack, elements, maxDepth, maxElements)
    requires var h := HeaderAt(buf, off, |buf|).value;
      off' == (if h.constructed then h.start else h.start + h.length)
      && stack' == if h.constructed then stack + [h.start + h.length] else stack
    ensures StackFits(buf, off', stack', maxDepth)
    ensures IsElement(buf, maxDepth, maxElements) <==> Accepts(buf, off', stack', elements + 1, maxDepth, maxElements)
  {
    hide HeaderAt, Elements, StackFits, Remaining, IsElement;
    if elements == 0 {
      FirstStep(buf, maxDepth, maxElements);
      FirstFits(buf, HeaderAt(buf, 0, |buf|).value, maxDepth);
      assert HeaderAt(buf, off, |buf|).value.constructed ==>
          stack' == [HeaderAt(buf, 0, |buf|).value.start + HeaderAt(buf, 0, |buf|).value.length];
    } else {
      TakenStep(buf, off, stack, maxDepth);
    }
  }

  lemma FirstFits(buf: seq<Octet>, h: Header, maxDepth: nat)
    requires h.start + h.length <= |buf|
    ensures maxDepth > 0 ==> StackFits(buf, h.start, [h.start + h.length], maxDepth)
    ensures StackFits(buf, h.start + h.length, [], maxDepth)
  {
  }

  /** The identifier octets at off, and where they end. */
  method ReadTag(buf: seq<Octet>, off0: nat) returns (ok: bool, off: nat)
    requires off0 < |buf|
    ensures ok <==> AfterTag(buf, off0, |buf|).Some?
    ensures ok ==> AfterTag(buf, off0, |buf|) == Some(off)
  {
    var b := buf[off0];
    off := off0 + 1;
    var class_, constructed := b / 64, b / 32 % 2 == 1;
    var tag: nat := b % 32;
    if tag == 31 {
      tag := 0;
      var i := 0;
      while true
        invariant 0 <= i <= 9 && off == off0 + 1 + i <= |buf| && (tag == 0 <==> i == 0)
        invariant i > 0 ==> buf[off0 + 1] % 128 != 0
        invariant LastTagOctet(buf, off0 + 1, |buf|) == LastTagOctet(buf, off, |buf|)
        decreases 9 - i
      {
        if i >= 9 {
          return false, off;
        }
        if off >= |buf| {
          return false, off;
        }
        var tb := buf[off];
        off := off + 1;
        tag := tag * 128 + tb % 128;
        if i == 0 && tag == 0 {
          return false, off;
        }
        if tb < 128 {
          break;
        }
        i := i + 1;
      }
    }
    ok := !(class_ == 0 && !constructed && tag == 0);
  }

  /** The length octets at off, where they end, and the length they give. */
  method ReadLength(buf: seq<Octet>, off0: nat) returns (ok: bool, off: nat, length: nat)
    requires off0 <= |buf|
    ensures ok ==> LengthAt(buf, off0, |buf|) == Some((off, length))
    ensures !ok && LengthAt(buf, off0, |buf|).Some? ==> LengthAt(buf, off0, |buf|).value.1 > |buf|
  {
    off, length := off0, 0;
    if off >= |buf| {
      return false, off, 0;
    }
    var lb := buf[off];
    off := off + 1;
    if lb == 128 || lb == 255 {
      return false, off, 0;
    } else if lb < 128 {
      length := lb;
      return true, off, length;
    }
    var n := lb - 128;
    if n > 8 {
      return false, off, 0;
    }
    if off + n > |buf| {
      return false, off, 0;
    }
    for i := 0 to n
      invariant length == BigEndian(buf[off..off + i])
    {
      assert buf[off..off + i + 1][..i] == buf[off..off + i];
      length := length * 256 + buf[off + i];
    }
    off := off + n;
    ok := length <= |buf|;
  }

  /**
   * The scan succeeds exactly on one element within both budgets. It never reads out of
   * bounds and always ends.
   */
  method ScanTLVs(buf: seq<Octet>, maxDepth: nat, maxElements: nat) returns (ok: bool)
    ensures ok <==> buf == [] || IsElement(buf, maxDepth, maxElements)
  {
    hide Elements, IsElement, Remaining, StackFits, AfterTag, LengthAt, Accepts;
    var stack: seq<nat> := [];
    var elements, off := 0, 0;
    StackStarts(buf, maxDepth);
    while true
      invariant StackFits(buf, off, stack, maxDepth) && elements <= maxElements
      invariant elements == 0 ==> off == 0 && stack == []
      invariant elements > 0 ==>
                  buf != [] && (IsElement(buf, maxDepth, maxElements) <==>
                      Accepts(buf, off, stack, elements, maxDepth, maxElements))
      decreases |buf| - off
    {
      while |stack| > 0 && off == stack[|stack| - 1]
        invariant StackFits(buf, off, stack, maxDepth)
        invariant elements == 0 ==> stack == []
        invariant elements > 0 ==>
                    (IsElement(buf, maxDepth, maxElements) <==>
                        Accepts(buf, off, stack, elements, maxDepth, maxElements))
      {
        PopStep(buf, off, stack, maxDepth);
        PopAccepts(buf, off, stack, elements, maxDepth, maxElements);
        stack := stack[..|stack| - 1];
      }
      Settled(buf, off, stack, elements, maxDepth, maxElements);
      if off == |buf| {
        return |stack| == 0;
      }
      if |stack| == 0 && elements > 0 {
        return false;
      }
      assert Between(buf, off, stack, elements, maxDepth, maxElements);
      if Stuck(buf, off, stack, elements, maxDepth, maxElements) {
        StuckRejects(buf, off, stack, elements, maxDepth, maxElements);
      }
      var tagOk, afterTag := ReadTag(buf, off);
      if !tagOk {
        return false;
      }
      var constructed := buf[off] / 32 % 2 == 1;
      var lengthOk, start, length := ReadLength(buf, afterTag);
      if !lengthOk {
        return false;
      }
      var parentEnd := if |stack| > 0 then stack[|stack| - 1] else |buf|;
      var end := start + length;
      if end > parentEnd {
        return false;
      }
      elements := elements + 1;
      if elements > maxElements {
        return false;
      }
      if constructed && |stack| + 1 > maxDepth {
        return false;
      }
      NextState(buf, off, stack, elements - 1, maxDepth, maxElements, if constructed then start else end,
          if constructed then stack + [end] else stack);
      if constructed {
        stack := stack + [end];
        off := start;
      } else {
        off := end;
      }
    }
  }

  lemma PopAccepts(buf: seq<Octet>, off: nat, stack: seq<nat>, elements: nat, maxDepth: nat, maxElements: nat)
    requires StackFits(buf, off, stack, maxDepth) && stack != [] && off == stack[|stack| - 1]
    ensures StackFits(buf, off, stack[..|stack| - 1], maxDepth)
    ensures Accepts(buf, off, stack, elements, maxDepth, maxElements) <==>
              Accepts(buf, off, stack[..|stack| - 1], elements, maxDepth, maxElements)
  {
    PopStep(buf, off, stack, maxDepth);
  }

  lemma StackStarts(buf: seq<Octet>, maxDepth: nat)
    ensures StackFits(buf, 0, [], maxDepth)
  {
  }

  /** With every finished element popped, the end of the buffer and an empty stack decide. */
  lemma Settled(buf: seq<Octet>, off: nat, stack: seq<nat>, elements: nat, maxDepth: nat, maxElements: nat)
    requires StackFits(buf, off, stack, maxDepth) && (stack != [] ==> off != stack[|stack| - 1])
    ensures off <= |buf| && |stack| <= maxDepth && (off == |buf| ==> stack == [])
    ensures stack == [] && elements <= maxElements ==>
              (Accepts(buf, off, stack, elements, maxDepth, maxElements) <==> off == |buf|)
    ensures stack != [] ==> off < stack[|stack| - 1] <= |buf|
  {
  }
}
