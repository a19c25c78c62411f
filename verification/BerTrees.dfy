// Elements as trees, and their octets written out by division and remainder: what the scan
// and the framing read is compared with what is written.
module BerTrees {
  import opened Text
  import opened Ber
  import opened Frames

  // ---------------------------------------------------------------------------
  // Numbers
  // ---------------------------------------------------------------------------

  function Power(base: nat, k: nat): nat { if k == 0 then 1 else base * Power(base, k - 1) }

  /** n in k octets, most significant first. */
  function Octets(n: nat, k: nat): (s: seq<Octet>)
    ensures |s| == k
  {
    if k == 0 then [] else Octets(n / 256, k - 1) + [n % 256]
  }

  /** n in groups of seven bits, most significant first, without leading zeros. */
  function Groups(n: nat): (s: seq<nat>)
    ensures s != [] && forall i :: 0 <= i < |s| ==> s[i] < 128
  {
    if n < 128 then [n] else Groups(n / 128) + [n % 128]
  }

  lemma {:induction false} OctetsValue(n: nat, k: nat)
    requires n < Power(256, k)
    ensures BigEndian(Octets(n, k)) == n
  {
    if k > 0 {
      OctetsValue(n / 256, k - 1);
      assert Octets(n, k)[..k - 1] == Octets(n / 256, k - 1);
    }
  }

  lemma {:induction false} ValueOctets(s: seq<Octet>)
    ensures BigEndian(s) < Power(256, |s|) && Octets(BigEndian(s), |s|) == s
  {
    if s != [] { ValueOctets(s[..|s| - 1]); }
  }

  lemma {:induction false} GroupsLead(n: nat)
    ensures Groups(n)[0] == 0 <==> n == 0
  {
    if n >= 128 { GroupsLead(n / 128); }
  }

  /** Any groups without a leading zero are those of a number. */
  lemma {:induction false} GroupsOf(s: seq<nat>) returns (n: nat)
    requires s != [] && s[0] != 0 && forall i :: 0 <= i < |s| ==> s[i] < 128
    ensures Groups(n) == s && n > 0
  {
    if |s| == 1 {
      n := s[0];
    } else {
      var m := GroupsOf(s[..|s| - 1]);
      n := m * 128 + s[|s| - 1];
      assert n / 128 == m && n % 128 == s[|s| - 1];
    }
  }

  // ---------------------------------------------------------------------------
  // Trees (section 8.1 of ITU-T X.690)
  // ---------------------------------------------------------------------------

  /** A tag in one octet, or in the form for high numbers. */
  datatype Tag = Low(number: nat) | High(number: nat)

  /** An element; width is how many octets give its length behind the first one, none in the short form. */
  datatype Tree =
    | Leaf(class_: nat, tag: Tag, width: nat, octets: seq<Octet>)
    | Node(class_: nat, tag: Tag, width: nat, children: seq<Tree>)

  /** Seven bits an octet, the top bit set on all but the last. */
  function TagOctets(groups: seq<nat>): (s: seq<Octet>)
    requires forall i :: 0 <= i < |groups| ==> groups[i] < 128
    ensures |s| == |groups|
  {
    seq(|groups|, i requires 0 <= i < |groups| => if i + 1 < |groups| then groups[i] + 128 else groups[i])
  }

  predicate ValidTag(class_: nat, tag: Tag, constructed: bool) {
    && class_ < 4
    && match tag
       case Low(n) => n < 31 && !(class_ == 0 && n == 0 && !constructed)
       case High(n) => n > 0 && |Groups(n)| <= 9
  }

  function Identifier(class_: nat, tag: Tag, constructed: bool): (s: seq<Octet>)
    requires ValidTag(class_, tag, constructed)
    ensures |s| == match tag case Low(_) => 1 case High(n) => 1 + |Groups(n)|
  {
    var form := if constructed then 32 else 0;
    match tag
    case Low(n) => [class_ * 64 + form + n]
    case High(n) => [class_ * 64 + form + 31] + TagOctets(Groups(n))
  }

  predicate ValidLength(width: nat, n: nat) {
    if width == 0 then n < 128 else width <= 8 && n < Power(256, width)
  }

  function Length(width: nat, n: nat): (s: seq<Octet>)
    requires ValidLength(width, n)
    ensures |s| == 1 + width
  {
    if width == 0 then [n] else [128 + width] + Octets(n, width)
  }

  /** How many octets an element takes. */
  function Size(t: Tree): nat
    decreases t
  {
    (match t.tag case Low(_) => 1 case High(n) => 1 + |Groups(n)|) + 1 + t.width
    + match t case Leaf(_, _, _, octets) => |octets| case Node(_, _, _, ts) => SizeAll(ts)
  }

  function SizeAll(ts: seq<Tree>): nat
    decreases ts
  {
    if ts == [] then 0 else Size(ts[0]) + SizeAll(ts[1..])
  }

  predicate Valid(t: Tree)
    decreases t
  {
    && ValidTag(t.class_, t.tag, t.Node?)
    && match t
       case Leaf(_, _, width, octets) => ValidLength(width, |octets|)
       case Node(_, _, width, ts) => ValidAll(ts) && ValidLength(width, SizeAll(ts))
  }

  predicate ValidAll(ts: seq<Tree>)
    decreases ts
  {
    ts == [] || (Valid(ts[0]) && ValidAll(ts[1..]))
  }

  function Encode(t: Tree): (s: seq<Octet>)
    requires Valid(t)
    ensures |s| == Size(t) >= 2
    decreases t
  {
    match t
    case Leaf(class_, tag, width, octets) =>
      Identifier(class_, tag, false) + Length(width, |octets|) + octets
    case Node(class_, tag, width, ts) =>
      Identifier(class_, tag, true) + Length(width, SizeAll(ts)) + EncodeAll(ts)
  }

  function EncodeAll(ts: seq<Tree>): (s: seq<Octet>)
    requires ValidAll(ts)
    ensures |s| == SizeAll(ts)
    decreases ts
  {
    if ts == [] then [] else Encode(ts[0]) + EncodeAll(ts[1..])
  }

  /** How many elements there are, the element itself included. */
  function Count(t: Tree): nat
    decreases t
  {
    match t case Leaf(_, _, _, _) => 1 case Node(_, _, _, ts) => 1 + CountAll(ts)
  }

  function CountAll(ts: seq<Tree>): nat
    decreases ts
  {
    if ts == [] then 0 else Count(ts[0]) + CountAll(ts[1..])
  }

  /** Every path holds at most depth constructed elements. */
  predicate Within(t: Tree, depth: nat)
    decreases t
  {
    match t case Leaf(_, _, _, _) => true case Node(_, _, _, ts) => depth > 0 && WithinAll(ts, depth - 1)
  }

  predicate WithinAll(ts: seq<Tree>, depth: nat)
    decreases ts
  {
    ts == [] || (Within(ts[0], depth) && WithinAll(ts[1..], depth))
  }

  // ---------------------------------------------------------------------------
  // What is written is read
  // ---------------------------------------------------------------------------

  lemma {:induction false} LastOf(buf: seq<Octet>, off: nat, end: nat, last: nat)
    requires off <= last < end <= |buf| && buf[last] < 128 && forall j :: off <= j < last ==> buf[j] >= 128
    ensures LastTagOctet(buf, off, end) == last
    decreases last - off
  {
    if off < last { LastOf(buf, off + 1, end, last); }
  }

  lemma TagRead(buf: seq<Octet>, off: nat, end: nat, class_: nat, tag: Tag, constructed: bool)
    requires ValidTag(class_, tag, constructed)
    requires var id := Identifier(class_, tag, constructed); off + |id| <= end <= |buf| && buf[off..off + |id|] == id
    ensures AfterTag(buf, off, end) == Some(off + |Identifier(class_, tag, constructed)|)
    ensures buf[off] / 32 % 2 == 1 <==> constructed
  {
    var id := Identifier(class_, tag, constructed);
    var low: nat := if tag.High? then 31 else tag.number;
    assert buf[off] == id[0] == class_ * 64 + (if constructed then 32 else 0) + low;
    FirstOctet(class_, constructed, low);
    if tag.High? {
      hide Groups;
      assert buf[off + 1..off + |id|] == id[1..] == TagOctets(Groups(tag.number));
      GroupsRead(buf, off + 1, end, tag.number);
    }
  }

  lemma FirstOctet(class_: nat, constructed: bool, low: nat)
    requires class_ < 4 && low < 32
    ensures var b := class_ * 64 + (if constructed then 32 else 0) + low;
      b % 32 == low && (b / 32 % 2 == 1 <==> constructed) && b / 64 == class_
      && (b == 0 <==> class_ == 0 && !constructed && low == 0)
  {
  }

  lemma GroupsRead(buf: seq<Octet>, off: nat, end: nat, n: nat)
    requires off + |Groups(n)| <= end <= |buf| && buf[off..off + |Groups(n)|] == TagOctets(Groups(n)) && n > 0
    ensures LastTagOctet(buf, off, end) == off + |Groups(n)| - 1 && buf[off] % 128 != 0
  {
    GroupsLead(n);
    var gs := Groups(n);
    hide Groups, LastTagOctet;
    forall j | off <= j < off + |gs| ensures buf[j] == TagOctets(gs)[j - off] {
      assert buf[off..off + |gs|][j - off] == buf[j];
    }
    LastOf(buf, off, end, off + |gs| - 1);
  }

  lemma SliceOf<T>(s: seq<T>, a: nat, b: nat, x: seq<T>, y: seq<T>)
    requires a <= b <= |s| && s[a..b] == x + y
    ensures a + |x| <= b && s[a..a + |x|] == x && s[a + |x|..b] == y
  {
    assert s[a..a + |x|] == s[a..b][..|x|] && s[a + |x|..b] == s[a..b][|x|..];
  }

  lemma LengthRead(buf: seq<Octet>, off: nat, end: nat, width: nat, n: nat)
    requires ValidLength(width, n) && off + 1 + width <= end <= |buf| && buf[off..off + 1 + width] == Length(width, n)
    ensures LengthAt(buf, off, end) == Some((off + 1 + width, n))
  {
    assert buf[off] == Length(width, n)[0];
    if width > 0 {
      OctetsAre(buf, off, width, n);
      hide Octets, Power, BigEndian, Length;
      OctetsValue(n, width);
    }
  }

  lemma OctetsAre(buf: seq<Octet>, off: nat, width: nat, n: nat)
    requires 0 < width && ValidLength(width, n) && off + 1 + width <= |buf|
    requires buf[off..off + 1 + width] == Length(width, n)
    ensures buf[off + 1..off + 1 + width] == Octets(n, width)
  {
    hide Octets, Power;
    SliceOf(buf, off, off + 1 + width, [128 + width], Octets(n, width));
  }

  /** The header octets of a written element. */
  lemma HeaderRead(buf: seq<Octet>, off: nat, end: nat, class_: nat, tag: Tag, constructed: bool, width: nat, n: nat)
    requires ValidTag(class_, tag, constructed) && ValidLength(width, n)
    requires var h := Identifier(class_, tag, constructed) + Length(width, n);
      off + |h| <= end <= |buf| && buf[off..off + |h|] == h
    ensures HeaderAt(buf, off, end)
              == Some(Header(off + |Identifier(class_, tag, constructed)| + 1 + width, n, constructed))
  {
    hide Identifier, Length, ValidTag, ValidLength, AfterTag, LengthAt;
    var id, l := Identifier(class_, tag, constructed), Length(width, n);
    assert buf[off..off + |id|] == (id + l)[..|id|] == id;
    assert buf[off + |id|..off + |id| + |l|] == (id + l)[|id|..] == l;
    TagRead(buf, off, end, class_, tag, constructed);
    LengthRead(buf, off + |id|, end, width, n);
  }

  lemma ElementsCons(buf: seq<Octet>, off: nat, end: nat, depth: nat)
    requires off < end <= |buf|
    ensures var h := HeaderAt(buf, off, end);
      Elements(buf, off, end, depth) ==
        if h.None? || h.value.start + h.value.length > end then None
        else Plus(Plus(Some(1), Contents(buf, h.value, depth)),
            Elements(buf, h.value.start + h.value.length, end, depth))
  {
    hide HeaderAt, Contents;
  }

  lemma TreesCons(t: Tree, ts: seq<Tree>, depth: nat)
    requires Valid(t) && ValidAll(ts)
    ensures ValidAll([t] + ts) && EncodeAll([t] + ts) == Encode(t) + EncodeAll(ts)
    ensures CountAll([t] + ts) == Count(t) + CountAll(ts)
    ensures WithinAll([t] + ts, depth) <==> Within(t, depth) && WithinAll(ts, depth)
  {
    hide Valid, Encode, Count, Within;
    assert ([t] + ts)[1..] == ts;
  }

  /** A series of written elements is read as one, and counted, exactly within the depth. */
  lemma {:induction false} ElementsRead(buf: seq<Octet>, off: nat, end: nat, ts: seq<Tree>, depth: nat)
    requires off <= end <= |buf| && ValidAll(ts) && buf[off..end] == EncodeAll(ts)
    ensures Elements(buf, off, end, depth) == if WithinAll(ts, depth) then Some(CountAll(ts)) else None
    decreases ts
  {
    hide HeaderAt, Contents, Within, Size, Valid, Encode, Elements, ValidAll, EncodeAll, CountAll, WithinAll, Count,
        SizeAll;
    if ts == [] {
      NoTrees(buf, off, depth);
    } else {
      FirstTree(ts);
      var t, rest := ts[0], ts[1..];
      TreesCons(t, rest, depth);
      var stop := off + |Encode(t)|;
      SliceOf(buf, off, end, Encode(t), EncodeAll(rest));
      ElementRead(buf, off, stop, end, t, depth);
      ElementsRead(buf, stop, end, rest, depth);
      ElementsCons(buf, off, end, depth);
    }
  }

  lemma SliceSplits<T>(s: seq<T>, a: nat, b: nat, c: nat)
    requires a <= b <= c <= |s|
    ensures s[a..c] == s[a..b] + s[b..c]
  {
  }

  lemma FirstTree(ts: seq<Tree>)
    requires ts != [] && ValidAll(ts)
    ensures Valid(ts[0]) && ValidAll(ts[1..]) && ts == [ts[0]] + ts[1..]
  {
  }

  /** The first element of what lies between off and end. */
  lemma {:induction false} ElementRead(buf: seq<Octet>, off: nat, stop: nat, end: nat, t: Tree, depth: nat)
    requires off <= stop <= end <= |buf| && Valid(t) && buf[off..stop] == Encode(t)
    ensures var h := HeaderAt(buf, off, end);
      && off < end && h.Some? && h.value.start + h.value.length == stop
      && Contents(buf, h.value, depth) == if Within(t, depth) then Some(Count(t) - 1) else None
    decreases t
  {
    hide HeaderAt, Identifier, Length, ValidTag, ValidLength;
    var n := match t case Leaf(_, _, _, octets) => |octets| case Node(_, _, _, ts) => SizeAll(ts);
    var h := Identifier(t.class_, t.tag, t.Node?) + Length(t.width, n);
    var contents := if t.Leaf? then t.octets else EncodeAll(t.children);
    assert Encode(t) == h + contents;
    SliceOf(buf, off, stop, h, contents);
    HeaderRead(buf, off, end, t.class_, t.tag, t.Node?, t.width, n);
    if t.Node? && depth > 0 {
      ElementsRead(buf, off + |h|, stop, t.children, depth - 1);
    }
  }

  // ---------------------------------------------------------------------------
  // What is read was written
  // ---------------------------------------------------------------------------

  lemma TagIs(buf: seq<Octet>, off: nat, end: nat) returns (class_: nat, tag: Tag)
    requires off <= end <= |buf| && AfterTag(buf, off, end).Some?
    ensures ValidTag(class_, tag, buf[off] / 32 % 2 == 1)
    ensures Identifier(class_, tag, buf[off] / 32 % 2 == 1) == buf[off..AfterTag(buf, off, end).value]
  {
    var b := buf[off];
    class_ := b / 64;
    if b % 32 != 31 {
      tag := Low(b % 32);
    } else {
      var p := LastTagOctet(buf, off + 1, end);
      var n := GroupsAre(buf, off + 1, p + 1);
      tag := High(n);
      hide Groups, TagOctets, LastTagOctet;
      assert buf[off..p + 1] == [b] + buf[off + 1..p + 1];
    }
  }

  lemma GroupsAre(buf: seq<Octet>, lo: nat, hi: nat) returns (n: nat)
    requires lo < hi <= |buf| && buf[lo] % 128 != 0 && buf[hi - 1] < 128
    requires forall j :: lo <= j < hi - 1 ==> buf[j] >= 128
    ensures n > 0 && |Groups(n)| == hi - lo && TagOctets(Groups(n)) == buf[lo..hi]
  {
    var gs: seq<nat> := seq(hi - lo, i requires 0 <= i < hi - lo => buf[lo + i] as int % 128);
    n := GroupsOf(gs);
    hide Groups;
    var s := TagOctets(gs);
    forall i | 0 <= i < hi - lo ensures s[i] == buf[lo + i] {
      TopBit(buf[lo + i]);
    }
    assert s == buf[lo..hi];
  }

  lemma TopBit(x: Octet)
    ensures x >= 128 ==> x % 128 + 128 == x
    ensures x < 128 ==> x % 128 == x
  {
  }

  lemma LengthIs(buf: seq<Octet>, off: nat, end: nat) returns (width: nat)
    requires off <= end <= |buf| && LengthAt(buf, off, end).Some?
    ensures var (q, n) := LengthAt(buf, off, end).value; ValidLength(width, n) && Length(width, n) == buf[off..q]
  {
    width := if buf[off] < 128 then 0 else buf[off] - 128;
    if width == 0 {
      assert buf[off..off + 1] == [buf[off]];
    } else {
      hide Length, ValidLength, BigEndian;
      LongLength(buf, off, width);
    }
  }

  lemma LongLength(buf: seq<Octet>, off: nat, width: nat)
    requires 0 < width <= 8 && off + 1 + width <= |buf| && buf[off] == 128 + width
    ensures var n := BigEndian(buf[off + 1..off + 1 + width]);
      ValidLength(width, n) && Length(width, n) == buf[off..off + 1 + width]
  {
    hide Octets, Power, BigEndian;
    var s := buf[off + 1..off + 1 + width];
    ValueOctets(s);
    assert |s| == width;
    assert buf[off..off + 1 + width] == [buf[off]] + s;
  }

  /** Every series of elements that the grammar accepts was written from trees. */
  lemma {:induction false} TreesOf(buf: seq<Octet>, off: nat, end: nat, depth: nat) returns (ts: seq<Tree>)
    requires off <= end <= |buf| && Elements(buf, off, end, depth).Some?
    ensures ValidAll(ts) && EncodeAll(ts) == buf[off..end]
    ensures WithinAll(ts, depth) && CountAll(ts) == Elements(buf, off, end, depth).value
    decreases end - off, 1
  {
    hide HeaderAt, Contents, Within, Valid, Encode, Elements, ValidAll, EncodeAll, CountAll, WithinAll, Count, Size,
        SizeAll;
    if off == end {
      ts := [];
      NoTrees(buf, off, depth);
    } else {
      ElementsCons(buf, off, end, depth);
      var h := HeaderAt(buf, off, end).value;
      var stop := h.start + h.length;
      var t := TreeOf(buf, off, end, depth);
      var rest := TreesOf(buf, stop, end, depth);
      ts := [t] + rest;
      TreesCons(t, rest, depth);
      SliceSplits(buf, off, stop, end);
    }
  }

  lemma NoTrees(buf: seq<Octet>, off: nat, depth: nat)
    requires off <= |buf|
    ensures ValidAll([]) && EncodeAll([]) == buf[off..off] && WithinAll([], depth) && CountAll([]) == 0
    ensures Elements(buf, off, off, depth) == Some(0)
  {
  }

  lemma {:induction false} TreeOf(buf: seq<Octet>, off: nat, end: nat, depth: nat) returns (t: Tree)
    requires off <= end <= |buf|
    requires var h := HeaderAt(buf, off, end);
      h.Some? && h.value.start + h.value.length <= end && Contents(buf, h.value, depth).Some?
    ensures var h := HeaderAt(buf, off, end).value;
      && Valid(t) && Encode(t) == buf[off..h.start + h.length]
      && Within(t, depth) && Count(t) == 1 + Contents(buf, h, depth).value
    decreases end - off, 0
  {
    hide AfterTag, LengthAt, Identifier, Length, ValidTag, ValidLength;
    var h := HeaderAt(buf, off, end).value;
    var q := AfterTag(buf, off, end).value;
    var class_, tag := TagIs(buf, off, end);
    var width := LengthIs(buf, q, end);
    var stop := h.start + h.length;
    assert buf[off..stop] == buf[off..q] + buf[q..h.start] + buf[h.start..stop];
    if h.constructed {
      var ts := TreesOf(buf, h.start, stop, depth - 1);
      t := Node(class_, tag, width, ts);
    } else {
      t := Leaf(class_, tag, width, buf[h.start..stop]);
    }
  }

  /**
   * The octets that the scan accepts are exactly those written from some tree within both
   * budgets.
   */
  lemma ElementExactly(buf: seq<Octet>, maxDepth: nat, maxElements: nat)
    ensures IsElement(buf, maxDepth, maxElements) <==>
              exists t :: Valid(t) && Encode(t) == buf && Within(t, maxDepth) && Count(t) <= maxElements
  {
    hide HeaderAt, Contents, Encode, Valid, Within;
    if IsElement(buf, maxDepth, maxElements) {
      var t := TreeOf(buf, 0, |buf|, maxDepth);
      assert buf[0..|buf|] == buf;
    }
    if t :| Valid(t) && Encode(t) == buf && Within(t, maxDepth) && Count(t) <= maxElements {
      assert buf[0..|buf|] == buf;
      ElementRead(buf, 0, |buf|, |buf|, t, maxDepth);
    }
  }

  // ---------------------------------------------------------------------------
  // Frames
  // ---------------------------------------------------------------------------

  /** A SEQUENCE with its length written out in the short form, or in width octets. */
  function FrameOf(width: nat, contents: seq<Octet>): seq<Octet>
    requires ValidLength(width, |contents|)
  {
    [0x30] + Length(width, |contents|) + contents
  }

  /** A frame is a SEQUENCE with its length in front, of any size up to the limit. */
  lemma FrameIsWritten(f: seq<Octet>, max: nat)
    ensures IsFrame(f, max) <==>
              |f| <= max && exists width, contents :: ValidLength(width, |contents|) && f == FrameOf(width, contents)
  {
    hide LengthAt, Length, ValidLength;
    if IsFrame(f, max) {
      var width := LengthIs(f, 1, |f|);
      var q := LengthAt(f, 1, |f|).value.0;
      assert f == [0x30] + f[1..q] + f[q..] && |f[q..]| == LengthAt(f, 1, |f|).value.1;
      assert f == FrameOf(width, f[q..]);
    }
    if |f| <= max {
      if width, contents :| ValidLength(width, |contents|) && f == FrameOf(width, contents) {
        assert f[1..1 + 1 + width] == Length(width, |contents|);
        LengthRead(f, 1, |f|, width, |contents|);
      }
    }
  }

  /** It is read whole from every stream that begins with it, whatever follows. */
  lemma FrameIsRead(width: nat, contents: seq<Octet>, rest: seq<Octet>, max: nat)
    requires ValidLength(width, |contents|) && |FrameOf(width, contents)| <= max
    ensures |FrameOf(width, contents)| == 2 + width + |contents|
    ensures FirstFrame(FrameOf(width, contents) + rest, max) == Frame(FrameOf(width, contents))
  {
    hide IsFrame, FirstFrame, Length, ValidLength;
    FrameIsWritten(FrameOf(width, contents), max);
    FrameExactly(FrameOf(width, contents) + rest, max, FrameOf(width, contents));
  }

  /** The stream begins with a header that announces n octets of contents. */
  ghost predicate Announced(s: seq<Octet>, width: nat, n: nat) {
    ValidLength(width, n) && [0x30] + Length(width, n) <= s
  }

  /** When a readable header is there at all, it is announced; and it is the only one. */
  lemma HeaderIsAnnounced(s: seq<Octet>, width: nat, n: nat)
    ensures Announced(s, width, n) <==>
              && |s| >= 2 && s[0] == 0x30 && LengthAt(s, 1, |s|) == Some((2 + width, n))
  {
    hide LengthAt, Length, ValidLength;
    if Announced(s, width, n) {
      assert s[1..1 + 1 + width] == s[..2 + width][1..] == Length(width, n);
      LengthRead(s, 1, |s|, width, n);
    }
    if |s| >= 2 && s[0] == 0x30 && LengthAt(s, 1, |s|) == Some((2 + width, n)) {
      var w := LengthIs(s, 1, |s|);
      assert s[..2 + width] == [0x30] + s[1..2 + width];
    }
  }

  /** What a reader answers, by what the stream begins with. */
  lemma AnswersExactly(s: seq<Octet>, max: nat)
    ensures FirstFrame(s, max) == Failed(Closed) <==> s == []
    ensures FirstFrame(s, max) == Failed(TooLarge) <==>
              exists width: nat, n: nat :: Announced(s, width, n) && 2 + width + n > max
    ensures FirstFrame(s, max).Frame? <==>
              exists width: nat, n: nat :: Announced(s, width, n) && 2 + width + n <= max && 2 + width + n <= |s|
    ensures FirstFrame(s, max) == Failed(Malformed) <==>
              |s| >= 2 && !exists f: seq<Octet> :: s[..2] <= f && IsFrame(f, |f|)
  {
    hide LengthAt;
    if |s| >= 2 && s[0] == 0x30 && LengthAt(s, 1, |s|).Some? {
      var (q, n) := LengthAt(s, 1, |s|).value;
      LengthEnds(s);
      HeaderIsAnnounced(s, q - 2, n);
    }
    forall width: nat, n: nat | Announced(s, width, n) ensures |s| >= 2 && LengthAt(s, 1, |s|) == Some((2 + width, n)) {
      HeaderIsAnnounced(s, width, n);
      LengthEnds(s);
    }
    if |s| >= 2 {
      if s[0] == 0x30 && s[1] != 128 && s[1] <= 128 + 8 {
        var f := CompleteFrame(s[1]);
        assert s[..2] <= f;
      }
      forall f: seq<Octet> | s[..2] <= f && IsFrame(f, |f|) ensures s[0] == 0x30 && s[1] != 128 && s[1] <= 128 + 8 {
        assert f[0] == s[0] && f[1] == s[1];
        LengthEnds(f);
      }
    }
  }

  lemma LengthEnds(s: seq<Octet>)
    requires |s| >= 2
    ensures LengthAt(s, 1, |s|).Some? ==> LengthAt(s, 1, |s|).value.0 >= 2 && s[1] != 128 && s[1] <= 128 + 8
    ensures s[1] < 128 ==> LengthAt(s, 1, |s|).Some?
  {
  }

  /** Some frame goes on behind every readable first length octet. */
  lemma CompleteFrame(b: Octet) returns (f: seq<Octet>)
    requires b != 128 && b <= 128 + 8
    ensures |f| >= 2 && f[..2] == [0x30, b] && IsFrame(f, |f|)
  {
    if b < 128 {
      f := FrameOf(0, seq(b, i => 0));
      FrameIsWritten(f, |f|);
    } else {
      var width: nat := b - 128;
      NothingFits(width);
      f := FrameOf(width, []);
      FrameIsWritten(f, |f|);
      assert Length(width, 0)[0] == b;
    }
  }

  lemma {:induction false} NothingFits(width: nat)
    ensures Power(256, width) > 0
  {
    if width > 0 { NothingFits(width - 1); }
  }

  /** The messages that are received are exactly the written SEQUENCE trees within all three limits. */
  lemma MessageIsWritten(f: seq<Octet>, l: Limits)
    ensures IsMessage(f, l) <==>
              |f| <= l.maxBytes && exists width, ts ::
                  var t := Node(0, Low(16), width, ts);
                  Valid(t) && Encode(t) == f && Within(t, l.maxDepth) && Count(t) <= l.maxElements
  {
    hide IsElement, Within, Count, EncodeAll, ValidAll;
    ElementExactly(f, l.maxDepth, l.maxElements);
    if IsMessage(f, l) {
      var t :| Valid(t) && Encode(t) == f && Within(t, l.maxDepth) && Count(t) <= l.maxElements;
      StartsWith(t);
      assert t == Node(0, Low(16), t.width, t.children);
    }
    if |f| <= l.maxBytes {
      if width, ts :| var t := Node(0, Low(16), width, ts);
          Valid(t) && Encode(t) == f && Within(t, l.maxDepth) && Count(t) <= l.maxElements {
        StartsWith(Node(0, Low(16), width, ts));
      }
    }
  }

  /** The first octet of an element tells its class, its form, and a low tag. */
  lemma StartsWith(t: Tree)
    requires Valid(t)
    ensures Encode(t)[0] == t.class_ * 64 + (if t.Node? then 32 else 0) + if t.tag.Low? then t.tag.number else 31
    ensures Encode(t)[0] == 0x30 <==> t.Node? && t.class_ == 0 && t.tag == Low(16)
  {
    hide Length, ValidLength, EncodeAll;
  }
}
