// Distinguished names by their spellings: a text is parsed as a name exactly when it is one
// of the ways to write that name.
module DnSpellings {
  import opened Text
  import opened DnSyntax

  // ---------------------------------------------------------------------------
  // Values
  // ---------------------------------------------------------------------------

  /** How one byte of a value may be written: as it is, behind a backslash, or in hexadecimal. */
  ghost predicate Piece_(p: string, c: char) {
    || (p == [c] && c != '\\')
    || (p == ['\\', c] && c in " ,+\"\\<>;=#")
    || (|p| == 3 && p[0] == '\\' && HexPair(p[1], p[2], c))
  }

  /** q is some spelling of v. */
  ghost predicate Spelt(q: string, v: string)
    decreases v
  {
    if v == "" then q == ""
    else exists n: nat :: n <= |q| && Piece_(q[..n], v[0]) && Spelt(q[n..], v[1..])
  }

  lemma NoHexEscape(c: char)
    ensures c in " ,+\"\\<>;=#" ==> !IsHex(c) && EscapableChar(c)
    ensures EscapableChar(c) ==> c in " ,+\"\\<>;=#"
  {
  }

  lemma PieceRead(p: string, c: char, rest: string)
    requires Piece_(p, c)
    ensures p != "" && Unescape(p + rest) == Prepend(c, Unescape(rest))
  {
    hide HexPair, HexVal, EscapableChar;
    var s := p + rest;
    assert s[|p|..] == rest && forall i :: 0 <= i < |p| ==> s[i] == p[i];
    NoHexEscape(c);
    if |p| == 3 { HexPairIs(p[1], p[2], c); }
  }

  /** One step of unescaping. */
  lemma FirstPiece(s: string) returns (n: nat, c: char)
    requires s != "" && Unescape(s).Some?
    ensures 0 < n <= |s| && Piece_(s[..n], c) && Unescape(s) == Prepend(c, Unescape(s[n..])) && Unescape(s[n..]).Some?
  {
    hide HexPair, HexVal, EscapableChar;
    n, c := Token(s).value.0, Token(s).value.1;
    NoHexEscape(c);
    if n == 3 {
      HexPairIs(s[1], s[2], c);
      assert s[..3][1] == s[1] && s[..3][2] == s[2];
    }
  }

  /** Unescaping reads exactly the spellings of a value. */
  lemma {:induction false} UnescapeExactly(q: string, v: string)
    ensures Unescape(q) == Some(v) <==> Spelt(q, v)
    decreases |q|, 1
  {
    hide Piece_;
    if Unescape(q) == Some(v) && q != "" {
      var n, c := FirstPiece(q);
      hide Unescape;
      UnescapeExactly(q[n..], v[1..]);
      assert v[0] == c && Spelt(q[n..], v[1..]);
    }
    if Spelt(q, v) { SpeltRead(q, v); }
  }

  lemma {:induction false} SpeltRead(q: string, v: string)
    requires Spelt(q, v)
    ensures Unescape(q) == Some(v)
    decreases v
  {
    hide Piece_, Token;
    if v != "" {
      hide Unescape;
      var n: nat :| n <= |q| && Piece_(q[..n], v[0]) && Spelt(q[n..], v[1..]);
      SpeltRead(q[n..], v[1..]);
      PieceRead(q[..n], v[0], q[n..]);
      assert q == q[..n] + q[n..] && v == [v[0]] + v[1..];
    }
  }

  // ---------------------------------------------------------------------------
  // Values inside an RDN
  // ---------------------------------------------------------------------------

  /** A spelling that stays inside its RDN: no bare comma or plus sign, and no bare blank at the end. */
  ghost predicate SpeltIn(q: string, v: string)
    decreases v
  {
    if v == "" then q == ""
    else exists n: nat :: n <= |q| && Piece_(q[..n], v[0]) && StaysIn(n, v) && SpeltIn(q[n..], v[1..])
  }

  /** The first byte of v, bare when n is one. */
  predicate StaysIn(n: nat, v: string)
    requires v != ""
  {
    n == 1 ==> v[0] !in ",+" && (|v| == 1 ==> v[0] !in " \t")
  }

  /** A blank at the end is escaped. */
  predicate EndHolds(q: string) {
    q != "" && IsBlank(q[|q| - 1]) ==> TrailingSlashes(q[..|q| - 1]) % 2 == 1
  }

  lemma PieceSlashes(p: string, c: char)
    requires Piece_(p, c)
    ensures p != "" && TrailingSlashes(p) % 2 == 0
  {
    hide HexPair, TrailingSlashes;
    NoSlashes();
    if |p| == 1 {
      TrailingSnoc("", c);
      assert p == "" + [c];
    } else {
      TrailingSnoc("", '\\');
      assert p[..1] == "" + ['\\'];
      TrailingSnoc(p[..1], p[1]);
      assert p[..2] == p[..1] + [p[1]];
      if |p| == 3 {
        HexIsPlain(p[1], p[2], c);
        TrailingSnoc(p[..2], p[2]);
        assert p == p[..2] + [p[2]];
      } else {
        assert p[..2] == p;
      }
    }
  }

  lemma HexIsPlain(a: char, b: char, c: char)
    requires HexPair(a, b, c)
    ensures a != '\\' && b != '\\' && a != ',' && b != ',' && a != '+' && b != '+' && !IsBlank(b)
  {
    HexPairIs(a, b, c);
  }

  /** A piece in front does not change which characters are escaped behind it. */
  lemma {:induction false} PieceParity(p: string, c: char, x: string)
    requires Piece_(p, c)
    ensures TrailingSlashes(p + x) % 2 == TrailingSlashes(x) % 2
  {
    hide Piece_, TrailingSlashes;
    if x == "" {
      assert p + x == p;
      NoSlashes();
      PieceSlashes(p, c);
    } else {
      var y, e := x[..|x| - 1], x[|x| - 1];
      PieceParity(p, c, y);
      TrailingSnoc(y, e);
      TrailingSnoc(p + y, e);
      assert x == y + [e] && p + x == (p + y) + [e];
    }
  }

  lemma {:induction false} SpeltSlashes(q: string, v: string)
    requires Spelt(q, v)
    ensures TrailingSlashes(q) % 2 == 0
    decreases v
  {
    hide Piece_, TrailingSlashes;
    if v == "" {
      NoSlashes();
    } else {
      var n: nat :| n <= |q| && Piece_(q[..n], v[0]) && Spelt(q[n..], v[1..]);
      SpeltSlashes(q[n..], v[1..]);
      PieceParity(q[..n], v[0], q[n..]);
      assert q == q[..n] + q[n..];
    }
  }

  lemma NoSlashes()
    ensures TrailingSlashes("") == 0
  {
  }

  /** The end of a text is that of what follows its first piece, or of the piece. */
  lemma EndBehind(q: string, n: nat, c: char)
    requires 0 < n <= |q| && Piece_(q[..n], c)
    ensures n < |q| ==> (EndHolds(q) <==> EndHolds(q[n..]))
    ensures n == |q| ==> (EndHolds(q) <==> !(n == 1 && IsBlank(c)))
  {
    if n < |q| {
      var x := q[n..][..|q| - n - 1];
      assert q[..|q| - 1] == q[..n] + x && q[n..][..|q[n..]| - 1] == x;
      hide Piece_, TrailingSlashes;
      PieceParity(q[..n], c, x);
    } else {
      assert q[..n] == q;
      PieceEnd(q, c);
    }
  }

  lemma PieceEnd(q: string, c: char)
    requires Piece_(q, c)
    ensures EndHolds(q) <==> !(|q| == 1 && IsBlank(c))
  {
    hide HexPair, TrailingSlashes;
    NoSlashes();
    if |q| == 1 {
      assert q[..0] == "";
    } else if |q| == 2 {
      TrailingSnoc("", '\\');
      assert q[..1] == "" + ['\\'];
    } else {
      HexIsPlain(q[1], q[2], c);
    }
  }

  /** The next separator is behind the first piece, unless that is a bare one. */
  lemma IndexBehind(q: string, n: nat, c: char, sep: char)
    requires 0 < n <= |q| && Piece_(q[..n], c) && (sep == ',' || sep == '+')
    ensures FirstUnescaped(q, sep) == if n == 1 && c == sep then 0 else n + FirstUnescaped(q[n..], sep)
    ensures Clean(q, sep) <==> !(n == 1 && c == sep) && Clean(q[n..], sep)
  {
    hide HexPair;
    assert forall i :: 0 <= i < n ==> q[..n][i] == q[i];
    if n == 3 {
      HexIsPlain(q[1], q[2], c);
      assert q[2..][1..] == q[3..];
    }
  }

  /** Of the spellings, exactly those stay inside that have no bare separator and no bare blank at the end. */
  lemma {:induction false} SpeltInExactly(q: string, v: string)
    ensures SpeltIn(q, v) <==>
              && Spelt(q, v) && EndHolds(q)
              && FirstUnescaped(q, ',') >= |q| && FirstUnescaped(q, '+') >= |q|
    ensures SpeltIn(q, v) ==> Clean(q, ',') && Clean(q, '+')
    decreases v
  {
    hide Piece_, EndHolds, FirstUnescaped, Clean;
    if v == "" {
      NothingIn();
    } else {
      forall n: nat | n <= |q| && Piece_(q[..n], v[0])
        ensures StaysIn(n, v) && SpeltIn(q[n..], v[1..]) <==>
                  && Spelt(q[n..], v[1..]) && EndHolds(q)
                  && FirstUnescaped(q, ',') >= |q| && FirstUnescaped(q, '+') >= |q|
        ensures StaysIn(n, v) && SpeltIn(q[n..], v[1..]) ==> Clean(q, ',') && Clean(q, '+')
      {
        PieceSlashes(q[..n], v[0]);
        SpeltInExactly(q[n..], v[1..]);
        EndBehind(q, n, v[0]);
        IndexBehind(q, n, v[0], ',');
        IndexBehind(q, n, v[0], '+');
        LastPiece(q[n..], v[1..]);
        NothingIn();
        assert v[0] in " \t" <==> IsBlank(v[0]);
        assert v[0] in ",+" <==> v[0] == ',' || v[0] == '+';
      }
    }
  }

  lemma NothingIn()
    ensures EndHolds("") && Clean("", ',') && Clean("", '+')
    ensures FirstUnescaped("", ',') == 0 && FirstUnescaped("", '+') == 0
  {
  }

  lemma LastPiece(q: string, v: string)
    ensures Spelt(q, v) ==> (q == "" <==> v == "")
  {
    if Spelt(q, v) && v != "" {
      var n: nat :| n <= |q| && Piece_(q[..n], v[0]) && Spelt(q[n..], v[1..]);
      PieceSlashes(q[..n], v[0]);
    }
  }

  // ---------------------------------------------------------------------------
  // RDNs
  // ---------------------------------------------------------------------------

  predicate Spaces(w: string) { forall i :: 0 <= i < |w| ==> IsSpace(w[i]) }

  predicate BlanksOnly(w: string) { forall i :: 0 <= i < |w| ==> w[i] in " \t" }

  /** What stands before the equals sign: the type in any case, with white space around it. */
  predicate NameText(name: string, w1: string, a: string, w2: string) {
    name == w1 + (a + w2) && Spaces(w1) && Spaces(w2) && ValidAttr(Lower(a))
  }

  /** Blanks, the type, an equals sign, a spelling of the value, and blanks. */
  ghost predicate SpellsBy(raw: string, r: Rdn, w1: string, a: string, w2: string, q: string, t: string) {
    && raw == (w1 + (a + w2)) + (['='] + (q + t))
    && NameText(w1 + (a + w2), w1, a, w2) && Lower(a) == r.attr
    && SpeltIn(q, r.value) && ValidUtf8(r.value) && BlanksOnly(t)
  }

  /** raw is some way to write r. */
  ghost predicate SpellsRdn(raw: string, r: Rdn) {
    exists w1: string, a: string, w2: string, q: string, t: string :: SpellsBy(raw, r, w1, a, w2, q, t)
  }

  /** s is some way to write d: its RDNs with commas between them, leaf first, no null character anywhere. */
  ghost predicate SpellsDN(s: string, d: DN)
    decreases d
  {
    if d == [] then false
    else if |d| == 1 then SpellsRdn(s, d[0])
    else exists n: nat :: n < |s| && s[n] == ',' && SpellsRdn(s[..n], d[0]) && SpellsDN(s[n + 1..], d[1..])
  }

  lemma {:induction false} EndIsFixed(s: string)
    ensures EndHolds(s) <==> TrimRight(s) == s
    ensures EndHolds(TrimRight(s))
    decreases |s|
  {
    if s != "" && IsBlank(s[|s| - 1]) && TrailingSlashes(s[..|s| - 1]) % 2 == 0 {
      EndIsFixed(s[..|s| - 1]);
      ShorterTrim(s[..|s| - 1]);
    }
  }

  lemma {:induction false} ShorterTrim(s: string)
    ensures |TrimRight(s)| <= |s|
    decreases |s|
  {
    if s != "" && IsBlank(s[|s| - 1]) && TrailingSlashes(s[..|s| - 1]) % 2 == 0 { ShorterTrim(s[..|s| - 1]); }
  }

  /** Blanks behind text that ends in no open escape are trimmed. */
  lemma {:induction false} TrimBlanks(x: string, t: string)
    requires EndHolds(x) && TrailingSlashes(x) % 2 == 0 && BlanksOnly(t)
    ensures TrimRight(x + t) == x
    decreases |t|
  {
    if t == "" {
      assert x + t == x;
      EndIsFixed(x);
    } else {
      var t', c := t[..|t| - 1], t[|t| - 1];
      var s := x + t;
      assert s[..|s| - 1] == x + t' && s[|s| - 1] == c;
      BlankEven(x, t');
      assert IsBlank(c);
      TrimBlanks(x, t');
    }
  }

  lemma BlankEven(x: string, t: string)
    requires TrailingSlashes(x) % 2 == 0 && BlanksOnly(t)
    ensures TrailingSlashes(x + t) % 2 == 0
  {
    if t == "" {
      assert x + t == x;
    } else {
      TrailingSnoc(x + t[..|t| - 1], t[|t| - 1]);
      assert x + t == (x + t[..|t| - 1]) + [t[|t| - 1]];
    }
  }

  /** The left trim takes only white space in front. */
  lemma {:induction false} TrimLeftWithin(w: string, rest: string) returns (k: nat)
    requires Spaces(w) && rest != "" && !IsBlank(rest[0])
    ensures k <= |w| && TrimLeft(w + rest) == w[k..] + rest
    decreases w
  {
    var s := w + rest;
    if w == "" {
      k := 0;
      assert s == rest && w[0..] + rest == rest;
    } else if IsBlank(w[0]) {
      assert s[1..] == w[1..] + rest;
      var l := TrimLeftWithin(w[1..], rest);
      k := l + 1;
      assert w[1..][l..] == w[k..];
    } else {
      k := 0;
      assert w[0..] == w;
    }
  }

  lemma {:induction false} TrimLeftRemoves(s: string) returns (k: nat)
    ensures k <= |s| && TrimLeft(s) == s[k..] && BlanksOnly(s[..k])
    decreases |s|
  {
    if s != "" && IsBlank(s[0]) {
      var l := TrimLeftRemoves(s[1..]);
      k := l + 1;
      assert s[1..][l..] == s[k..] && s[..k] == [s[0]] + s[1..][..l];
    } else {
      k := 0;
      assert s[0..] == s;
    }
  }

  lemma {:induction false} SpacesLeft(w: string, rest: string)
    requires Spaces(w) && rest != "" && !IsSpace(rest[0])
    ensures TrimSpaceLeft(w + rest) == rest
    decreases w
  {
    if w == "" {
      assert w + rest == rest;
    } else {
      assert (w + rest)[1..] == w[1..] + rest;
      SpacesLeft(w[1..], rest);
    }
  }

  lemma {:induction false} SpacesRight(x: string, w: string)
    requires Spaces(w) && x != "" && !IsSpace(x[|x| - 1])
    ensures TrimSpaceRight(x + w) == x
    decreases |w|
  {
    if w == "" {
      assert x + w == x;
    } else {
      var s := x + w;
      assert s[..|s| - 1] == x + w[..|w| - 1];
      SpacesRight(x, w[..|w| - 1]);
    }
  }

  lemma {:induction false} SpacesAround(s: string) returns (w1: string, w2: string)
    ensures s == w1 + (TrimSpace(s) + w2) && Spaces(w1) && Spaces(w2)
  {
    var k := LeftSpaces(s);
    hide TrimSpaceLeft, TrimSpaceRight, Spaces;
    var l := RightSpaces(s[k..]);
    w1, w2 := s[..k], s[k..][l..];
    assert s == s[..k] + s[k..] && s[k..] == s[k..][..l] + s[k..][l..];
  }

  lemma {:induction false} LeftSpaces(s: string) returns (k: nat)
    ensures k <= |s| && TrimSpaceLeft(s) == s[k..] && Spaces(s[..k])
    decreases |s|
  {
    if s != "" && IsSpace(s[0]) {
      var l := LeftSpaces(s[1..]);
      k := l + 1;
      assert s[1..][l..] == s[k..] && s[..k] == [s[0]] + s[1..][..l];
    } else {
      k := 0;
      assert s[0..] == s;
    }
  }

  lemma {:induction false} RightSpaces(s: string) returns (l: nat)
    ensures l <= |s| && TrimSpaceRight(s) == s[..l] && Spaces(s[l..])
    decreases |s|
  {
    if s != "" && IsSpace(s[|s| - 1]) {
      var s' := s[..|s| - 1];
      l := RightSpaces(s');
      assert s'[..l] == s[..l] && s[l..] == s'[l..] + [s[|s| - 1]];
    } else {
      l := |s|;
      assert s[..l] == s;
    }
  }

  /** A type's letters, in any case. */
  lemma TypeChars(a: string)
    requires ValidAttr(Lower(a))
    ensures a != "" && forall i :: 0 <= i < |a| ==> IsLetter(a[i]) || IsDigit(a[i]) || a[i] == '-' || a[i] == '.'
  {
    AttrChars(Lower(a));
    forall i | 0 <= i < |a| ensures IsLetter(a[i]) || IsDigit(a[i]) || a[i] == '-' || a[i] == '.' {
      assert Lower(a)[i] == LowerChar(a[i]);
    }
  }

  lemma NameFacts(name: string, w1: string, a: string, w2: string)
    requires NameText(name, w1, a, w2)
    ensures TrimSpace(name) == a && name != "" && a != "" && Clean(name, '=') && Clean(name, ',') && !IsSpace(a[0])
  {
    TypeChars(a);
    SpacesLeft(w1, a + w2);
    SpacesRight(a, w2);
    PlainClean(name, '=');
    PlainClean(name, ',');
  }

  /** What is left of a spelled RDN once it is trimmed. */
  lemma TrimmedRdn(w1: string, a: string, w2: string, q: string, v: string, t: string) returns (k: nat)
    requires NameText(w1 + (a + w2), w1, a, w2) && SpeltIn(q, v) && BlanksOnly(t)
    ensures k <= |w1|
    ensures Trim((w1 + (a + w2)) + (['='] + (q + t))) == (w1[k..] + (a + w2)) + (['='] + q)
  {
    hide SpeltIn, EndHolds, Spelt, TrimRight, TrimLeft, FirstUnescaped, Clean, TrailingSlashes, ValidAttr;
    SpeltInExactly(q, v);
    SpeltSlashes(q, v);
    NameFacts(w1 + (a + w2), w1, a, w2);
    var rest := (a + w2) + (['='] + (q + t));
    assert (w1 + (a + w2)) + (['='] + (q + t)) == w1 + rest && rest[0] == a[0];
    SpaceIsBlank(a[0]);
    k := TrimLeftWithin(w1, rest);
    var name := w1[k..] + (a + w2);
    var x := name + (['='] + q);
    assert w1[k..] + rest == x + t;
    EndOfRdn(name, q);
    TrimBlanks(x, t);
  }

  lemma SpaceIsBlank(c: char)
    ensures IsBlank(c) ==> IsSpace(c)
  {
  }

  lemma EndOfRdn(name: string, q: string)
    ensures EndHolds(name + (['='] + q)) <==> EndHolds(q)
    ensures TrailingSlashes(name + (['='] + q)) == TrailingSlashes(q)
  {
    var x := name + (['='] + q);
    TrailingBehind(name, '=', q);
    if q != "" {
      TrailingBehind(name, '=', q[..|q| - 1]);
      assert x[..|x| - 1] == name + (['='] + q[..|q| - 1]);
    }
  }

  lemma RdnSpelled(raw: string, r: Rdn)
    requires SpellsRdn(raw, r)
    ensures ParseRdn(raw) == Some(r) && Clean(raw, ',')
  {
    var w1: string, a: string, w2: string, q: string, t: string :| SpellsBy(raw, r, w1, a, w2, q, t);
    hide SpeltIn, EndHolds, Spelt, Trim, FirstUnescaped, Clean, ValidAttr, TrimSpace, Spaces;
    var k := TrimmedRdn(w1, a, w2, q, r.value, t);
    var name := w1[k..] + (a + w2);
    SuffixSpaces(w1, k);
    NameFacts(name, w1[k..], a, w2);
    NameFacts(w1 + (a + w2), w1, a, w2);
    CleanIndex(name, ['='] + q, '=');
    EqualsFirst(q);
    ParseRdnAt(raw, name, q);
    SpeltInExactly(q, r.value);
    UnescapeExactly(q, r.value);
    BlanksClean(t);
    EqualsClean();
    CleanAppend(q, t, ',');
    CleanAppend(['='], q + t, ',');
    CleanAppend(w1 + (a + w2), ['='] + (q + t), ',');
  }

  lemma SuffixSpaces(w: string, k: nat)
    requires Spaces(w) && k <= |w|
    ensures Spaces(w[k..])
  {
  }

  lemma EqualsFirst(q: string)
    ensures FirstUnescaped(['='] + q, '=') == 0
  {
  }

  lemma EqualsClean()
    ensures Clean(['='], ',')
  {
    assert ['='][1..] == "";
  }

  lemma {:induction false} BlanksClean(t: string)
    requires BlanksOnly(t)
    ensures Clean(t, ',')
  {
    PlainClean(t, ',');
  }

  lemma RdnSpells(raw: string)
    requires ParseRdn(raw).Some? && FirstUnescaped(raw, ',') >= |raw|
    ensures SpellsRdn(raw, ParseRdn(raw).value)
  {
    hide SpeltIn, EndHolds, Spelt, Trim, FirstUnescaped, Clean, TrimSpace, Spaces, Unescape, ValidUtf8, ValidAttr,
        BlanksOnly, ParseRdn, Lower;
    var r := ParseRdn(raw).value;
    var name, q := ParsedParts(raw);
    var lead, t := Untrimmed(raw);
    var w1', w2 := SpacesAround(name);
    var a := TrimSpace(name);
    var w1 := lead + w1';
    SpacesConcat(lead, w1');
    Regrouped(lead, w1', a, w2, q, t);
    var before := w1 + (a + w2);
    NameFacts(before, w1, a, w2);
    EndOfRdn(name, q);
    NoComma(before, q, t);
    UnescapeExactly(q, r.value);
    SpeltInExactly(q, r.value);
    assert raw == before + (['='] + (q + t));
    assert SpellsBy(raw, r, w1, a, w2, q, t);
  }

  lemma ParsedParts(raw: string) returns (name: string, q: string)
    requires ParseRdn(raw).Some?
    ensures Trim(raw) == name + (['='] + q) && FirstUnescaped(q, '+') >= |q|
    ensures var r := ParseRdn(raw).value;
      && ValidAttr(r.attr) && r.attr == Lower(TrimSpace(name))
      && Unescape(q) == Some(r.value) && ValidUtf8(r.value)
  {
    hide Trim, FirstUnescaped, ValidAttr, TrimSpace, Unescape, ValidUtf8;
    var p := Trim(raw);
    var eq := FirstUnescaped(p, '=');
    name, q := p[..eq], p[eq + 1..];
    SeparatorThere(p, '=');
  }

  lemma Regrouped(lead: string, w1: string, a: string, w2: string, q: string, t: string)
    ensures lead + (((w1 + (a + w2)) + (['='] + q)) + t) == ((lead + w1) + (a + w2)) + (['='] + (q + t))
  {
  }

  /** What trimming takes off on either side. */
  lemma Untrimmed(raw: string) returns (lead: string, t: string)
    ensures raw == lead + (Trim(raw) + t) && Spaces(lead) && BlanksOnly(t) && EndHolds(Trim(raw))
  {
    var k := TrimLeftRemoves(raw);
    hide EndHolds, TrimRight, TrimLeft;
    t := TrimRightRemoves(raw[k..]);
    lead := raw[..k];
    BlankOnly(t);
    BlankSpaces(lead);
    EndIsFixed(raw[k..]);
    assert raw == raw[..k] + raw[k..];
  }

  lemma SeparatorThere(s: string, sep: char)
    ensures sep != '\\' && FirstUnescaped(s, sep) < |s| ==> s[FirstUnescaped(s, sep)] == sep
  {
  }

  lemma BlankOnly(t: string)
    requires forall i :: 0 <= i < |t| ==> IsBlank(t[i])
    ensures BlanksOnly(t)
  {
  }

  lemma BlankSpaces(t: string)
    requires BlanksOnly(t)
    ensures Spaces(t)
  {
  }

  lemma SpacesConcat(a: string, b: string)
    requires Spaces(a) && Spaces(b)
    ensures Spaces(a + b)
  {
  }

  lemma NoComma(name: string, q: string, t: string)
    requires Clean(name, ',')
    requires var raw := name + (['='] + (q + t)); FirstUnescaped(raw, ',') >= |raw|
    ensures FirstUnescaped(q, ',') >= |q|
  {
    CleanIndex(name, ['='] + (q + t), ',');
    assert (['='] + (q + t))[1..] == q + t;
    if FirstUnescaped(q, ',') < |q| { PrefixIndex(q, t, ','); }
  }

  // ---------------------------------------------------------------------------
  // Names
  // ---------------------------------------------------------------------------

  lemma {:induction false} PartEnds(s: string, sep: char)
    requires sep != '\\' && FirstUnescaped(s, sep) < |s|
    ensures var k := FirstUnescaped(s, sep); FirstUnescaped(s[..k], sep) >= k
  {
    var k := FirstUnescaped(s, sep);
    if s[0] == '\\' {
      PartEnds(s[2..], sep);
      assert s[..k][2..] == s[2..][..k - 2];
    } else if s[0] != sep {
      PartEnds(s[1..], sep);
      assert s[..k][1..] == s[1..][..k - 1];
    }
  }

  /** A text without null characters is parsed as a name exactly when it is one of the ways to write it. */
  lemma {:induction false} PartsExactly(s: string, d: DN)
    ensures ParseParts(Split(s, ',')) == Some(d) <==> SpellsDN(s, d)
    decreases |s|
  {
    hide ParseRdn, SpellsRdn, Clean;
    var k := FirstUnescaped(s, ',');
    if k >= |s| {
      hide FirstUnescaped;
      LastPart(s, d);
    } else {
      PartEnds(s, ',');
      var a, b := s[..k], s[k + 1..];
      SeparatorThere(s, ',');
      hide FirstUnescaped;
      assert ([a] + Split(b, ','))[1..] == Split(b, ',');
      if ParseParts(Split(s, ',')) == Some(d) {
        RdnSpells(a);
        var rs := ParseParts(Split(b, ',')).value;
        assert d == [ParseRdn(a).value] + rs && d[1..] == rs;
        NoneIsEmpty(b);
        PartsExactly(b, d[1..]);
        assert s[k] == ',' && SpellsRdn(s[..k], d[0]) && SpellsDN(s[k + 1..], d[1..]);
      }
      if SpellsDN(s, d) {
        FirstPart(s, d);
        PartsExactly(b, d[1..]);
        assert d == [d[0]] + d[1..];
      }
    }
  }

  /** Some part comes of every text. */
  lemma NoneIsEmpty(s: string)
    ensures ParseParts(Split(s, ',')) != Some([])
  {
  }

  lemma CommaFound(s: string, n: nat)
    requires n < |s| && s[n] == ',' && Clean(s[..n], ',')
    ensures FirstUnescaped(s, ',') == n
  {
    CleanIndex(s[..n], s[n..], ',');
    assert s == s[..n] + s[n..] && FirstUnescaped(s[n..], ',') == 0;
  }

  lemma LastPart(s: string, d: DN)
    requires FirstUnescaped(s, ',') >= |s|
    ensures ParseParts(Split(s, ',')) == Some(d) <==> SpellsDN(s, d)
  {
    hide ParseRdn, SpellsRdn, Clean;
    assert Split(s, ',') == [s] && [s][1..] == [];
    hide FirstUnescaped, Split;
    if ParseRdn(s).Some? { RdnSpells(s); }
    if SpellsDN(s, d) {
      if |d| == 1 {
        RdnSpelled(s, d[0]);
        assert d == [d[0]] + [];
      } else {
        var n: nat :| n < |s| && s[n] == ',' && SpellsRdn(s[..n], d[0]) && SpellsDN(s[n + 1..], d[1..]);
        RdnSpelled(s[..n], d[0]);
        CommaFound(s, n);
      }
    }
  }

  /** The first RDN ends at the first bare comma. */
  lemma FirstPart(s: string, d: DN)
    requires SpellsDN(s, d) && FirstUnescaped(s, ',') < |s|
    ensures var k := FirstUnescaped(s, ',');
      |d| > 1 && ParseRdn(s[..k]) == Some(d[0]) && SpellsDN(s[k + 1..], d[1..])
  {
    hide ParseRdn, SpellsRdn, Clean, FirstUnescaped;
    if |d| == 1 {
      RdnSpelled(s, d[0]);
      CleanIndex(s, "", ',');
    } else {
      var n: nat :| n < |s| && s[n] == ',' && SpellsRdn(s[..n], d[0]) && SpellsDN(s[n + 1..], d[1..]);
      RdnSpelled(s[..n], d[0]);
      CommaFound(s, n);
    }
  }

  /** Parsing yields a name exactly from the ways to write it. */
  lemma ParseExactly(s: string, d: DN)
    ensures ParseDN(s) == Some(d) <==> '\0' !in s && SpellsDN(s, d)
  {
    hide ParseParts, SpellsDN;
    PartsExactly(s, d);
    if s == "" { NothingSpells(d); }
  }

  lemma NothingSpells(d: DN)
    ensures !SpellsDN("", d)
  {
  }

  // ---------------------------------------------------------------------------
  // Types
  // ---------------------------------------------------------------------------

  predicate Digits(s: string) { s != "" && forall i :: 0 <= i < |s| ==> IsDigit(s[i]) }

  function Dotted(nodes: seq<string>): string
    requires nodes != []
  {
    if |nodes| == 1 then nodes[0] else nodes[0] + (['.'] + Dotted(nodes[1..]))
  }

  /** Two numbers or more with dots between them. */
  ghost predicate Numeric(s: string) {
    exists nodes: seq<string> :: |nodes| >= 2 && s == Dotted(nodes) && forall i :: 0 <= i < |nodes| ==> Digits(nodes[i])
  }

  /** A letter, then letters, digits and hyphens. */
  predicate Descriptor(s: string) {
    s != "" && IsLetter(s[0]) && forall i :: 0 <= i < |s| ==> IsLetter(s[i]) || IsDigit(s[i]) || s[i] == '-'
  }

  /** White space is the six characters of ASCII. */
  lemma SpaceTable(c: char)
    ensures IsSpace(c) <==> c as int in {9, 10, 11, 12, 13, 32}
  {
  }

  /** Digits and dots, no dot at either end and none behind another. */
  predicate DotsInside(s: string) {
    && s != "" && (forall i :: 0 <= i < |s| ==> IsDigit(s[i]) || s[i] == '.')
    && IsDigit(s[0]) && s[|s| - 1] != '.' && forall i :: 0 <= i < |s| - 1 && s[i] == '.' ==> s[i + 1] != '.'
  }

  lemma {:induction false} NodesOf(s: string) returns (nodes: seq<string>)
    requires DotsInside(s)
    ensures nodes != [] && s == Dotted(nodes) && (forall i :: 0 <= i < |nodes| ==> Digits(nodes[i]))
    ensures '.' in s <==> |nodes| >= 2
    decreases |s|
  {
    if |s| == 1 {
      nodes := [s];
    } else if s[1] == '.' {
      var more := NodesOf(s[2..]);
      nodes := [[s[0]]] + more;
      assert nodes[1..] == more && s == [s[0]] + (['.'] + s[2..]);
    } else {
      var more := NodesOf(s[1..]);
      nodes := more[0 := [s[0]] + more[0]];
      assert nodes[1..] == more[1..] && s == [s[0]] + s[1..];
      if |more| > 1 { ConcatAssoc([s[0]], more[0], ['.'] + Dotted(more[1..])); }
    }
  }

  lemma DigitsInside(n: string)
    requires Digits(n)
    ensures DotsInside(n) && '.' !in n
  {
  }

  lemma DotBetween(n: string, r: string)
    requires Digits(n) && DotsInside(r)
    ensures DotsInside(n + (['.'] + r))
  {
    var s := n + (['.'] + r);
    forall i | 0 <= i < |s|
      ensures IsDigit(s[i]) || s[i] == '.'
      ensures i < |s| - 1 && s[i] == '.' ==> s[i + 1] != '.'
    {
      if i > |n| {
        assert s[i] == r[i - |n| - 1];
        if i < |s| - 1 { assert s[i + 1] == r[i - |n|]; }
      }
    }
    assert s[|s| - 1] == r[|r| - 1];
  }

  lemma {:induction false} DottedInside(nodes: seq<string>)
    requires nodes != [] && forall i :: 0 <= i < |nodes| ==> Digits(nodes[i])
    ensures DotsInside(Dotted(nodes)) && ('.' in Dotted(nodes) <==> |nodes| >= 2)
  {
    hide Digits, DotsInside;
    if |nodes| > 1 {
      DottedInside(nodes[1..]);
      DotBetween(nodes[0], Dotted(nodes[1..]));
    } else {
      DigitsInside(nodes[0]);
    }
  }

  lemma NumericExactly(s: string)
    ensures Numeric(s) <==> DotsInside(s) && '.' in s
  {
    hide Digits, DotsInside, Dotted;
    if DotsInside(s) && '.' in s {
      var nodes := NodesOf(s);
    }
    if Numeric(s) {
      var nodes: seq<string> :| |nodes| >= 2 && s == Dotted(nodes) && forall i :: 0 <= i < |nodes| ==> Digits(nodes[i]);
      DottedInside(nodes);
    }
  }

  /** A valid attribute type is a descriptor or a numeric OID, and nothing else. */
  lemma TypeExactly(s: string)
    ensures ValidAttr(s) <==> Descriptor(s) || Numeric(s)
  {
    NumericExactly(s);
    hide Numeric;
    LettersAreNoDigits();
  }

  lemma LettersAreNoDigits()
    ensures forall c: char :: IsLetter(c) ==> !IsDigit(c) && c != '.'
  {
  }
}
