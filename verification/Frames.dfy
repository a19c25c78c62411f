// Reading messages from a stream: one SEQUENCE at a time, its length checked before its
// contents are read, and the structural scan behind it.
module Frames {
  import opened Text
  import opened Ber

  const SEQUENCE: Octet := 0x30
  const MAX_HEADER := 10

  datatype Failure = Closed | Truncated | Malformed | TooLarge
  datatype Framed = Frame(octets: seq<Octet>) | Failed(failure: Failure)

  /** f is one whole SEQUENCE of at most max octets: its length octets say where it ends. */
  predicate IsFrame(f: seq<Octet>, max: nat) {
    && 2 <= |f| <= max && f[0] == SEQUENCE
    && LengthAt(f, 1, |f|).Some? && LengthAt(f, 1, |f|).value.0 + LengthAt(f, 1, |f|).value.1 == |f|
  }

  /** What a reader makes of the octets still to come. */
  function FirstFrame(s: seq<Octet>, max: nat): Framed {
    if s == [] then Failed(Closed)
    else if |s| == 1 then Failed(Truncated)
    else if s[0] != SEQUENCE || s[1] == 128 || s[1] > 128 + 8 then Failed(Malformed)
    else if LengthAt(s, 1, |s|).None? then Failed(Truncated)
    else
      var total := LengthAt(s, 1, |s|).value.0 + LengthAt(s, 1, |s|).value.1;
      if total > max then Failed(TooLarge)
      else if total > |s| then Failed(Truncated)
      else Frame(s[..total])
  }

  /** The length octets of a prefix that holds them are those of the whole. */
  lemma SameLength(f: seq<Octet>, s: seq<Octet>)
    requires 2 <= |f| <= |s| && f == s[..|f|]
    ensures LengthAt(f, 1, |f|).Some? ==> LengthAt(s, 1, |s|) == LengthAt(f, 1, |f|)
    ensures LengthAt(s, 1, |s|).Some? && LengthAt(s, 1, |s|).value.0 <= |f| ==>
              LengthAt(f, 1, |f|) == LengthAt(s, 1, |s|)
  {
    if f[1] > 128 && 2 + (f[1] - 128) <= |f| {
      var n := f[1] - 128;
      assert f[2..2 + n] == s[2..2 + n];
    }
  }

  /** A frame is read exactly when the stream begins with it; so no frame begins another one. */
  lemma FrameExactly(s: seq<Octet>, max: nat, f: seq<Octet>)
    ensures FirstFrame(s, max) == Frame(f) <==> f <= s && IsFrame(f, max)
  {
    if f <= s && IsFrame(f, max) {
      assert f == s[..|f|];
      SameLength(f, s);
    }
    if FirstFrame(s, max) == Frame(f) {
      assert f == s[..|f|];
      SameLength(f, s);
    }
  }

  // ---------------------------------------------------------------------------
  // Messages
  // ---------------------------------------------------------------------------

  datatype Limits = Limits(maxBytes: nat, maxDepth: nat, maxElements: nat)

  /** A SEQUENCE within all three limits. */
  predicate IsMessage(f: seq<Octet>, l: Limits) {
    f != [] && f[0] == SEQUENCE && |f| <= l.maxBytes && IsElement(f, l.maxDepth, l.maxElements)
  }

  /** A frame whose structure the scan refuses is malformed. */
  function FirstMessage(s: seq<Octet>, l: Limits): Framed {
    var r := FirstFrame(s, l.maxBytes);
    if r.Frame? && !IsElement(r.octets, l.maxDepth, l.maxElements) then Failed(Malformed) else r
  }

  lemma MessageIsFrame(f: seq<Octet>, l: Limits)
    requires IsMessage(f, l)
    ensures IsFrame(f, l.maxBytes)
  {
    hide Contents, LengthAt;
    assert AfterTag(f, 0, |f|) == Some(1);
  }

  /** A message is received exactly when the stream begins with it. */
  lemma MessageExactly(s: seq<Octet>, l: Limits, f: seq<Octet>)
    ensures FirstMessage(s, l) == Frame(f) <==> f <= s && IsMessage(f, l)
  {
    hide IsElement, FirstFrame, IsFrame;
    FrameExactly(s, l.maxBytes, f);
    if IsMessage(f, l) { MessageIsFrame(f, l); }
    FrameStart(f, l.maxBytes);
  }

  lemma FrameStart(f: seq<Octet>, max: nat)
    ensures IsFrame(f, max) ==> f != [] && f[0] == SEQUENCE && |f| <= max
  {
  }

  /** The messages a connection receives before its read loop ends. */
  function Messages(s: seq<Octet>, l: Limits): seq<seq<Octet>>
    decreases |s|
  {
    MessageExactly(s, l, if FirstMessage(s, l).Frame? then FirstMessage(s, l).octets else []);
    match FirstMessage(s, l)
    case Failed(_) => []
    case Frame(f) => [f] + Messages(s[|f|..], l)
  }

  function Concat(fs: seq<seq<Octet>>): seq<Octet> {
    if fs == [] then [] else fs[0] + Concat(fs[1..])
  }

  /** Messages written back to back are received as they are, in order, before whatever follows. */
  lemma {:induction false} MessagesReceived(fs: seq<seq<Octet>>, rest: seq<Octet>, l: Limits)
    requires forall i :: 0 <= i < |fs| ==> IsMessage(fs[i], l)
    ensures Messages(Concat(fs) + rest, l) == fs + Messages(rest, l)
    decreases fs
  {
    hide IsMessage, FirstMessage;
    var s := Concat(fs) + rest;
    if fs == [] {
      assert s == rest;
    } else {
      var tail := Concat(fs[1..]) + rest;
      assert s == fs[0] + tail && s[|fs[0]|..] == tail;
      MessageExactly(s, l, fs[0]);
      MessagesReceived(fs[1..], rest, l);
      assert fs == [fs[0]] + fs[1..];
    }
  }

  /** And nothing is received that was not sent: the messages are consecutive pieces of the stream. */
  lemma {:induction false} MessagesAreSent(s: seq<Octet>, l: Limits)
    ensures Concat(Messages(s, l)) <= s
    ensures forall i :: 0 <= i < |Messages(s, l)| ==> IsMessage(Messages(s, l)[i], l)
    ensures FirstMessage(s[|Concat(Messages(s, l))|..], l).Failed?
    decreases |s|
  {
    hide IsMessage, FirstMessage;
    if FirstMessage(s, l).Frame? {
      var f := FirstMessage(s, l).octets;
      MessageExactly(s, l, f);
      NotEmpty(f, l);
      var tail := s[|f|..];
      MessagesAreSent(tail, l);
      var ms := Messages(tail, l);
      assert Messages(s, l) == [f] + ms && ([f] + ms)[1..] == ms;
      assert s == f + tail && s[|f + Concat(ms)|..] == tail[|Concat(ms)|..];
    } else {
      assert s[0..] == s;
    }
  }

  lemma NotEmpty(f: seq<Octet>, l: Limits)
    ensures IsMessage(f, l) ==> f != []
  {
  }

  // ---------------------------------------------------------------------------
  // The reader
  // ---------------------------------------------------------------------------

  /** A readable header at the start of s, and the length of the contents behind it. */
  ghost predicate Announces(s: seq<Octet>, header: seq<Octet>, length: nat) {
    && 2 <= |header| <= |s| && header == s[..|header|]
    && s[0] == SEQUENCE && s[1] != 128 && s[1] <= 128 + 8
    && LengthAt(s, 1, |s|) == Some((|header|, length))
  }

  method ContentLength(octets: seq<Octet>) returns (length: nat)
    ensures length == BigEndian(octets)
  {
    length := 0;
    assert octets[..|octets|] == octets;
    for i := 0 to |octets|
      invariant length == BigEndian(octets[..i])
    {
      assert octets[..i + 1][..i] == octets[..i];
      length := length * 256 + octets[i];
    }
  }

  /** A stream of octets that ends after data, and a codec with its limits. */
  class Reader {
    const data: seq<Octet>
    const limits: Limits
    var pos: nat

    ghost predicate Valid()
      reads this
    {
      pos <= |data|
    }

    constructor (data: seq<Octet>, limits: Limits)
      ensures Valid() && pos == 0 && this.data == data && this.limits == limits
    {
      this.data, this.limits, pos := data, limits, 0;
    }

    /** Fills buf from lo to hi as far as the stream goes; n octets were read. */
    method ReadFull(buf: array<Octet>, lo: nat, hi: nat) returns (n: nat)
      requires Valid() && lo <= hi <= buf.Length
      modifies this, buf
      ensures Valid() && pos == old(pos) + n && n == if |data| - old(pos) < hi - lo then |data| - old(pos) else hi - lo
      ensures buf[..lo] == old(buf[..lo]) && buf[lo..lo + n] == data[old(pos)..pos]
    {
      n := 0;
      while n < hi - lo && pos < |data|
        invariant Valid() && n <= hi - lo && pos == old(pos) + n
        invariant buf[..lo] == old(buf[..lo]) && buf[lo..lo + n] == data[old(pos)..pos]
      {
        buf[lo + n] := data[pos];
        n, pos := n + 1, pos + 1;
      }
    }

    /** The header of a message: its octets, and how many octets of contents it announces. */
    method ReadHeader() returns (failure: Option<Failure>, header: seq<Octet>, length: nat)
      requires Valid()
      modifies this
      ensures Valid() && pos <= old(pos) + MAX_HEADER
      ensures failure.Some? ==> FirstFrame(data[old(pos)..], limits.maxBytes) == Failed(failure.value)
      ensures failure.None? ==> Announces(data[old(pos)..], header, length) && pos == old(pos) + |header|
    {
      ghost var s := data[pos..];
      var hdr := new Octet[MAX_HEADER](_ => 0);
      var n := ReadFull(hdr, 0, 2);
      if n < 2 {
        return Some(if n == 0 then Closed else Truncated), [], 0;
      }
      assert hdr[..2] == hdr[0..2] == s[..2];
      assert hdr[0] == s[0] && hdr[1] == s[1];
      if hdr[0] != SEQUENCE || hdr[1] == 128 || hdr[1] == 255 {
        return Some(Malformed), [], 0;
      }
      if hdr[1] < 128 {
        return None, hdr[..2], hdr[1];
      }
      var k := hdr[1] - 128;
      if k > 8 {
        return Some(Malformed), [], 0;
      }
      n := ReadFull(hdr, 2, 2 + k);
      if n < k {
        return Some(Truncated), [], 0;
      }
      assert hdr[2..2 + k] == s[2..2 + k];
      assert hdr[..2 + k] == hdr[..2] + hdr[2..2 + k] == s[..2 + k];
      length := ContentLength(hdr[2..2 + k]);
      return None, hdr[..2 + k], length;
    }

    /** Exactly one SEQUENCE. The limit is checked before anything behind the header is read. */
    method ReadFrame() returns (r: Framed)
      requires Valid()
      modifies this
      ensures Valid() && r == FirstFrame(data[old(pos)..], limits.maxBytes)
      ensures r.Frame? ==> pos == old(pos) + |r.octets|
      ensures r == Failed(TooLarge) || r == Failed(Malformed) ==> pos <= old(pos) + MAX_HEADER
    {
      hide LengthAt;
      ghost var s := data[pos..];
      var failure, header, length := ReadHeader();
      if failure.Some? {
        return Failed(failure.value);
      }
      var start := |header|;
      if start + length > limits.maxBytes {
        return Failed(TooLarge);
      }
      var buf := new Octet[start + length](i requires 0 <= i < start + length => if i < start then header[i] else 0);
      assert buf[..start] == header;
      var n := ReadFull(buf, start, start + length);
      if n < length {
        return Failed(Truncated);
      }
      assert buf[..] == buf[..start] + buf[start..start + length] == s[..start + length];
      r := Frame(buf[..]);
    }

    method ReadMessage() returns (r: Framed)
      requires Valid()
      modifies this
      ensures Valid() && r == FirstMessage(data[old(pos)..], limits)
      ensures r.Frame? ==> pos == old(pos) + |r.octets|
    {
      hide FirstFrame, IsElement;
      r := ReadFrame();
      if r.Frame? {
        FrameExactly(data[old(pos)..], limits.maxBytes, r.octets);
        FrameStart(r.octets, limits.maxBytes);
        var ok := ScanTLVs(r.octets, limits.maxDepth, limits.maxElements);
        if !ok {
          r := Failed(Malformed);
        }
      }
    }

    /** The read loop: messages until the first failure, which closes the connection. */
    method ReadAll() returns (ms: seq<seq<Octet>>, failure: Failure)
      requires Valid()
      modifies this
      ensures ms == Messages(data[old(pos)..], limits) && old(pos) + |Concat(ms)| <= |data|
      ensures FirstMessage(data[old(pos) + |Concat(ms)|..], limits) == Failed(failure)
    {
      hide FirstMessage, IsMessage;
      ms := [];
      ghost var s := data[pos..];
      var r := Frame([]);
      while true
        invariant Valid() && ms + Messages(data[pos..], limits) == Messages(s, limits)
        invariant pos == old(pos) + |Concat(ms)|
        decreases |data| - pos
      {
        ghost var rest := data[pos..];
        r := ReadMessage();
        if r.Failed? {
          return ms, r.failure;
        }
        MessageExactly(rest, limits, r.octets);
        NotEmpty(r.octets, limits);
        assert rest[|r.octets|..] == data[pos..];
        ConcatSnoc(ms, r.octets);
        assert ms + ([r.octets] + Messages(data[pos..], limits)) == (ms + [r.octets]) + Messages(data[pos..], limits);
        ms := ms + [r.octets];
      }
    }
  }

  lemma {:induction false} ConcatSnoc(fs: seq<seq<Octet>>, f: seq<Octet>)
    ensures Concat(fs + [f]) == Concat(fs) + f
  {
    if fs == [] {
      assert fs + [f] == [f] && Concat([f][1..]) == [];
    } else {
      ConcatSnoc(fs[1..], f);
      assert (fs + [f])[1..] == fs[1..] + [f];
    }
  }
}
