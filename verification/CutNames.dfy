// What a printed DN is read as when its text was cut at a '#', or ends in blanks that
// reading trims away: always as some DN.
module CutNames {
  import opened Text
  import opened DnSyntax
  import opened Names
  import opened Entries

  /** A prefix of well-formed text that stops in front of a one-byte character is well-formed. */
  lemma {:induction false} Utf8Prefix(s: string, k: nat)
    requires ValidUtf8(s) && k <= |s| && (k < |s| ==> s[k] as int < 0x80)
    ensures ValidUtf8(s[..k])
  {
    if k > 0 {
      Utf8Head(s);
      HeadLength(s);
      var n := RuneLength(s[0]);
      hide ValidUtf8, RuneLength;
      assert n <= k || n == 1;
      Utf8Prefix(s[n..], k - n);
      Utf8Cons(s[..n], s[n..][..k - n]);
      assert s[..k] == s[..n] + s[n..][..k - n];
    }
  }

  lemma {:induction false} UnescapeUpTo(v: string, k: nat)
    requires k <= |v| && '\0' !in v
    ensures Unescape(EscapeUpTo(v, k)) == Some(v[..k])
  {
    hide Unescape, Piece, EscapableChar;
    if k > 0 {
      UnescapeUpTo(v, k - 1);
      PieceShape(v, k - 1);
      UnescapePiece(v[k - 1], Piece(v, k - 1));
      UnescapeAppend(EscapeUpTo(v, k - 1), Piece(v, k - 1));
      assert v[..k] == v[..k - 1] + [v[k - 1]];
    } else {
      UnescapeNone();
      assert v[..0] == "" && EscapeUpTo(v, 0) == "";
    }
  }

  lemma UnescapeNone()
    ensures Unescape("") == Some("")
  {
  }

  lemma UnescapePiece(c: char, p: string)
    requires (p == [c] && c != '\\') || (p == ['\\', c] && EscapableChar(c))
    ensures Unescape(p) == Some([c])
  {
    PieceToken(c, p, "");
    assert p + "" == p && [c] + "" == [c];
  }

  /** Trimming a partly escaped value drops blanks that are not escaped, and leaves no tab at the end. */
  lemma {:induction false} TrimEscaped(a: string, v: string, k: nat) returns (j: nat)
    requires k <= |v| && '\0' !in v
    ensures j <= k && TrimRight(a + (['='] + EscapeUpTo(v, k))) == a + (['='] + EscapeUpTo(v, j))
    ensures (j == 0 || v[j - 1] != TAB) && (j < k ==> IsBlank(v[j]))
  {
    hide Piece, EscapableChar, TrimRight, TrailingSlashes;
    j := k;
    if k == 0 {
      TrimStep(a, '=');
      assert a + (['='] + "") == a + ['='];
    } else {
      var q, c, p := EscapeUpTo(v, k - 1), v[k - 1], Piece(v, k - 1);
      PieceShape(v, k - 1);
      EscapeSlashesEven(v, k - 1);
      assert EscapeUpTo(v, k) == q + p;
      if p == [c] {
        TrimPiece(a, q, c);
        if IsBlank(c) {
          j := TrimEscaped(a, v, k - 1);
        }
      } else {
        TrimPair(a, q, c);
      }
    }
  }

  lemma TrimPiece(a: string, q: string, c: char)
    requires TrailingSlashes(q) % 2 == 0
    ensures TrimRight(a + (['='] + (q + [c]))) ==
            if IsBlank(c) then TrimRight(a + (['='] + q)) else a + (['='] + (q + [c]))
  {
    hide TrimRight, TrailingSlashes;
    TrailingBehind(a, '=', q);
    TrimStep(a + (['='] + q), c);
    assert a + (['='] + (q + [c])) == a + (['='] + q) + [c];
  }

  lemma TrimPair(a: string, q: string, c: char)
    requires TrailingSlashes(q) % 2 == 0
    ensures TrimRight(a + (['='] + (q + ['\\', c]))) == a + (['='] + (q + ['\\', c]))
  {
    hide TrimRight;
    TrailingSnoc(q, '\\');
    TrailingBehind(a, '=', q + ['\\']);
    hide TrailingSlashes;
    TrimStep(a + (['='] + (q + ['\\'])), c);
    assert a + (['='] + (q + ['\\', c])) == a + (['='] + (q + ['\\'])) + [c];
  }

  /** The text of an RDN whose value was cut in front of a one-byte character. */
  function CutText(r: Rdn, k: nat): string
    requires k <= |r.value|
  {
    r.attr + (['='] + EscapeUpTo(r.value, k))
  }

  lemma CutRdn(r: Rdn, k: nat)
    requires WellFormedRdn(r) && k <= |r.value| && (k < |r.value| ==> r.value[k] as int < 0x80)
    ensures ParseRdn(CutText(r, k)).Some? && !EndsInTab(ParseRdn(CutText(r, k)).value.value)
  {
    hide EscapeUpTo, EndsInTab, WellFormedRdn, TrimRight, ParsePair, Trim, FirstUnescaped;
    var j := TrimCut(r, k);
    EqualsAt(r, j);
    ParseRdnAt(CutText(r, k), r.attr, EscapeUpTo(r.value, j));
    CutPair(r, j);
  }

  lemma TrimCut(r: Rdn, k: nat) returns (j: nat)
    requires WellFormedRdn(r) && k <= |r.value| && (k < |r.value| ==> r.value[k] as int < 0x80)
    ensures j <= k && Trim(CutText(r, k)) == CutText(r, j) && (j < |r.value| ==> r.value[j] as int < 0x80)
    ensures (j == 0 || r.value[j - 1] != TAB) && r.attr != ""
  {
    hide EscapeUpTo, ValidUtf8, TrimRight;
    var t := CutText(r, k);
    AttrChars(r.attr);
    assert t[0] == r.attr[0] && TrimLeft(t) == t;
    j := TrimEscaped(r.attr, r.value, k);
  }

  lemma EqualsAt(r: Rdn, j: nat)
    requires WellFormedRdn(r) && j <= |r.value|
    ensures FirstUnescaped(CutText(r, j), '=') == |r.attr|
  {
    hide EscapeUpTo, ValidUtf8, Clean;
    AttrChars(r.attr);
    var rest := EscapeUpTo(r.value, j);
    CleanIndex(r.attr, ['='] + rest, '=');
    assert FirstUnescaped(['='] + rest, '=') == 0;
  }

  lemma CutPair(r: Rdn, j: nat)
    requires WellFormedRdn(r) && j <= |r.value| && (j < |r.value| ==> r.value[j] as int < 0x80)
    requires j == 0 || r.value[j - 1] != TAB
    ensures var p := ParsePair(r.attr, EscapeUpTo(r.value, j)); p.Some? && !EndsInTab(p.value.value)
  {
    hide EscapeUpTo, ValidUtf8, Unescape, TrimSpace, Clean, ParsePair, ValidAttr, FirstUnescaped;
    NameTrimmed(r);
    Utf8Prefix(r.value, j);
    UnescapeUpTo(r.value, j);
    var rest := EscapeUpTo(r.value, j);
    EscapeClean(r.value, j, '+');
    CleanIndex(rest, "", '+');
    assert rest + "" == rest;
    PairIs(r.attr, rest, r.value[..j]);
  }

  lemma NameTrimmed(r: Rdn)
    requires WellFormedRdn(r)
    ensures Lower(TrimSpace(r.attr)) == r.attr
  {
    hide ValidUtf8, TrimSpace;
    AttrChars(r.attr);
    TrimSpaceNone(r.attr);
  }

  lemma PairIs(name: string, rest: string, v: string)
    requires ValidAttr(name) && Lower(TrimSpace(name)) == name && FirstUnescaped(rest, '+') >= |rest|
    requires Unescape(rest) == Some(v) && ValidUtf8(v)
    ensures ParsePair(name, rest) == Some(Rdn(name, v))
  {
    hide ValidAttr, TrimSpace, FirstUnescaped, Unescape, ValidUtf8, Lower;
  }

  lemma TrimStep(s: string, c: char)
    ensures TrimRight(s + [c]) == if IsBlank(c) && TrailingSlashes(s) % 2 == 0 then TrimRight(s) else s + [c]
  {
    assert (s + [c])[..|s|] == s;
  }

  /** Where the first '#' shows in an escaped value. */
  lemma {:induction false} FirstHash(v: string, i: nat) returns (k: nat)
    requires i <= |v| && '\0' !in v
    ensures i <= k <= |v| && (k < |v| ==> v[k] == '#')
    ensures var e := EscapeFrom(v, i); EscapeUpTo(v, i) + e[..FirstUnescaped(e, '#')] == EscapeUpTo(v, k)
    decreases |v| - i
  {
    hide Piece, FirstUnescaped, Clean;
    k := i;
    if i < |v| {
      var p, rest := Piece(v, i), EscapeFrom(v, i + 1);
      if v[i] == '#' && i >= 1 {
        HashPiece(v, i, rest);
      } else {
        k := FirstHash(v, i + 1);
        assert v[i] in v;
        PieceHashClean(v, i);
        CleanIndex(p, rest, '#');
        var n := FirstUnescaped(rest, '#');
        assert (p + rest)[..|p| + n] == p + rest[..n];
        ConcatAssoc(EscapeUpTo(v, i), p, rest[..n]);
      }
    }
  }

  lemma HashPiece(v: string, i: nat, rest: string)
    requires 1 <= i < |v| && v[i] == '#'
    ensures FirstUnescaped(Piece(v, i) + rest, '#') == 0
  {
  }

  lemma PieceHashClean(v: string, i: nat)
    requires i < |v| && v[i] != '\0' && (v[i] == '#' ==> i == 0)
    ensures Clean(Piece(v, i), '#')
  {
    var p := Piece(v, i);
    assert |p| == 2 ==> p[2..] == "";
    assert |p| == 1 ==> p[1..] == "";
  }

  /** An RDN's text up to its first unescaped '#'. */
  lemma RdnCut(r: Rdn) returns (k: nat)
    requires WellFormedRdn(r)
    ensures k <= |r.value| && (k < |r.value| ==> r.value[k] == '#')
    ensures RdnText(r)[..FirstUnescaped(RdnText(r), '#')] == CutText(r, k)
  {
    hide EscapeFrom, Clean, FirstUnescaped, ValidAttr, ValidUtf8, Piece, Escape;
    k := FirstHash(r.value, 0);
    EscapeIsFrom(r.value);
    AttrClean(r.attr);
    var a, e := r.attr + ['='], EscapeFrom(r.value, 0);
    CleanIndex(a, e, '#');
    var n := FirstUnescaped(e, '#');
    assert "" + e[..n] == e[..n] && EscapeUpTo(r.value, 0) == "";
    ConcatAssoc(r.attr, ['='], e);
    TakeBehind(a, e, n);
    ConcatAssoc(r.attr, ['='], e[..n]);
  }

  lemma TakeBehind(a: string, b: string, n: nat)
    requires n <= |b|
    ensures (a + b)[..|a| + n] == a + b[..n]
  {
  }

  lemma EscapeIsFrom(v: string)
    ensures Escape(v) == EscapeFrom(v, 0)
  {
    EscapeSplits(v, 0);
    assert "" + EscapeFrom(v, 0) == EscapeFrom(v, 0);
  }

  lemma AttrClean(attr: string)
    requires ValidAttr(attr)
    ensures Clean(attr + ['='], '#')
  {
    AttrChars(attr);
    hide ValidAttr;
    var t := attr + ['='];
    forall i | 0 <= i < |t| ensures t[i] != '\\' && t[i] != '#' {
      if i < |attr| { assert t[i] == attr[i]; }
    }
    PlainClean(t, '#');
  }

  /** Text that is read as some DN without a tab at the end of a value. */
  predicate Reads(s: string) { ParseParts(Split(s, ',')).Some? && TabFree(ParseParts(Split(s, ',')).value) }

  lemma ReadsOne(a: string)
    requires Clean(a, ',') && ParseRdn(a).Some? && !EndsInTab(ParseRdn(a).value.value)
    ensures Reads(a)
  {
    hide ParseRdn, EndsInTab;
    CleanIndex(a, "", ',');
    assert a + "" == a;
    assert Split(a, ',') == [a] && [a][1..] == [];
    assert ParseParts([]) == Some([]);
  }

  lemma ReadsMore(a: string, rest: string)
    requires Clean(a, ',') && ParseRdn(a).Some? && !EndsInTab(ParseRdn(a).value.value) && Reads(rest)
    ensures Reads(a + ([','] + rest))
  {
    hide ParseRdn, Clean, EndsInTab, TabFree;
    SplitAfter(a, rest, ',');
    hide Split;
    assert ([a] + Split(rest, ','))[1..] == Split(rest, ',');
    TabFreeCons(ParseRdn(a).value, ParseParts(Split(rest, ',')).value);
  }

  lemma TabFreeCons(r: Rdn, d: DN)
    requires !EndsInTab(r.value) && TabFree(d)
    ensures TabFree([r] + d)
  {
  }

  lemma CutClean(r: Rdn, k: nat)
    requires WellFormedRdn(r) && k <= |r.value|
    ensures Clean(CutText(r, k), ',')
  {
    AttrChars(r.attr);
    EscapeClean(r.value, k, ',');
    PlainClean(r.attr, ',');
    assert Clean(['='], ',');
    hide EscapeUpTo, ValidAttr, ValidUtf8;
    CleanAppend(['='], EscapeUpTo(r.value, k), ',');
    CleanAppend(r.attr, ['='] + EscapeUpTo(r.value, k), ',');
  }

  lemma WholeRdn(r: Rdn)
    ensures CutText(r, |r.value|) == RdnText(r)
  {
  }

  /** A printed DN is read as some DN, and so is its text up to the first '#'. */
  lemma {:induction false} PrintedReads(d: DN, cut: bool)
    requires WellFormed(d) && d != []
    ensures var s := String(d); Reads(if cut then s[..FirstUnescaped(s, '#')] else s)
  {
    hide FirstUnescaped, RdnText, WellFormedRdn, Reads, CutText;
    var r := d[0];
    var a := RdnText(r);
    assert Texts(d)[1..] == Texts(d[1..]) && Texts(d)[0] == a;
    RdnReads(r, cut);
    if |d| == 1 {
      assert String(d) == a;
    } else {
      var rest := String(d[1..]);
      PrintedReads(d[1..], cut);
      assert String(d) == a + ([','] + rest);
      if !cut {
        ReadsBehind(r, rest);
      } else if FirstUnescaped(a, '#') < |a| {
        PrefixIndex(a, [','] + rest, '#');
        assert (a + ([','] + rest))[..FirstUnescaped(a, '#')] == a[..FirstUnescaped(a, '#')];
      } else {
        var n := FirstUnescaped(rest, '#');
        BehindClean(r, rest);
        assert (a + ([','] + rest))[..|a| + 1 + n] == a + ([','] + rest[..n]);
        ReadsBehind(r, rest[..n]);
      }
    }
  }

  lemma RdnReads(r: Rdn, cut: bool)
    requires WellFormedRdn(r)
    ensures Reads(if cut then RdnText(r)[..FirstUnescaped(RdnText(r), '#')] else RdnText(r))
  {
    hide FirstUnescaped, RdnText, WellFormedRdn, Clean, Reads, ParseRdn, CutText, EndsInTab;
    WholeRdn(r);
    var k := |r.value|;
    if cut { k := RdnCut(r); }
    CutRdn(r, k);
    CutClean(r, k);
    ReadsOne(CutText(r, k));
  }

  lemma ReadsBehind(r: Rdn, rest: string)
    requires WellFormedRdn(r) && Reads(rest)
    ensures Reads(RdnText(r) + ([','] + rest))
  {
    hide FirstUnescaped, RdnText, WellFormedRdn, Clean, Reads, ParseRdn, CutText, EndsInTab;
    WholeRdn(r);
    CutRdn(r, |r.value|);
    CutClean(r, |r.value|);
    ReadsMore(RdnText(r), rest);
  }

  lemma BehindClean(r: Rdn, rest: string)
    requires WellFormedRdn(r) && FirstUnescaped(RdnText(r), '#') >= |RdnText(r)|
    ensures FirstUnescaped(RdnText(r) + ([','] + rest), '#') == |RdnText(r)| + 1 + FirstUnescaped(rest, '#')
  {
    RdnTextClean(r);
    hide RdnText, WellFormedRdn;
    CleanElsewhere(RdnText(r), ',', '#');
    CleanIndex(RdnText(r), [','] + rest, '#');
    assert ([','] + rest)[1..] == rest;
  }

  lemma {:induction false} CleanElsewhere(s: string, a: char, b: char)
    requires Clean(s, a) && FirstUnescaped(s, b) >= |s|
    ensures Clean(s, b)
  {
    if s != "" {
      if s[0] == '\\' { CleanElsewhere(s[2..], a, b); } else { CleanElsewhere(s[1..], a, b); }
    }
  }

  /** Whatever a DN is, its text as a member value, with any bit-string suffix, names something. */
  lemma PrintedNames(d: DN, unique: bool, tail: string)
    requires WellFormed(d) && d != [] && (tail == "" || (unique && tail[0] == '#'))
    ensures NameOf(String(d) + tail, unique).Some?
  {
    hide String, FirstUnescaped, Clean, Reads, ParseDN, Canonical, StripSuffix, Canon;
    var s := String(d);
    PrintedReads(d, unique);
    StringNoNul(d);
    var t := if unique then s[..FirstUnescaped(s, '#')] else s;
    TextCut(d, unique, tail);
    assert '\0' !in t;
    ReadsParsed(t);
    ParsedAs(s + tail, unique, t);
  }

  lemma ParsedAs(v: string, unique: bool, t: string)
    requires t == if unique then StripSuffix(v) else v
    requires ParseDN(t).Some? && TabFree(ParseDN(t).value)
    ensures NameOf(v, unique).Some?
  {
    hide ParseDN, StripSuffix, TabFree, WellFormed, Canonical;
  }

  lemma ReadsParsed(t: string)
    requires Reads(t) && '\0' !in t
    ensures ParseDN(t).Some? && TabFree(ParseDN(t).value)
  {
    hide Split, ParseParts, TabFree;
    if t == "" { EmptyReadsNot(); }
  }

  lemma TextCut(d: DN, unique: bool, tail: string)
    requires WellFormed(d) && (tail == "" || (unique && tail[0] == '#'))
    ensures var s, v := String(d), String(d) + tail;
      (if unique then StripSuffix(v) else v) == if unique then s[..FirstUnescaped(s, '#')] else s
  {
    hide String, FirstUnescaped, Clean, StripSuffix, WellFormed;
    var s := String(d);
    assert s + "" == s;
    if unique {
      if FirstUnescaped(s, '#') >= |s| { PrintedClean(d); }
      TailCut(s, tail);
    }
  }

  /** A printed DN in which no '#' shows leaves nothing dangling. */
  lemma {:induction false} PrintedClean(d: DN)
    requires WellFormed(d) && FirstUnescaped(String(d), '#') >= |String(d)|
    ensures Clean(String(d), '#')
  {
    hide FirstUnescaped, RdnText, WellFormedRdn, Clean;
    if d == [] {
      NothingIsClean('#');
    } else {
      var a := RdnText(d[0]);
      assert Texts(d)[1..] == Texts(d[1..]) && Texts(d)[0] == a;
      if |d| == 1 {
        RdnClean(d[0]);
      } else {
        var rest := String(d[1..]);
        assert String(d) == a + ([','] + rest);
        if FirstUnescaped(a, '#') < |a| { PrefixIndex(a, [','] + rest, '#'); }
        RdnClean(d[0]);
        BehindClean(d[0], rest);
        PrintedClean(d[1..]);
        CommaClean(rest);
        CleanAppend(a, [','] + rest, '#');
      }
    }
  }

  lemma NothingIsClean(sep: char)
    ensures Clean("", sep)
  {
  }

  lemma CommaClean(s: string)
    requires Clean(s, '#')
    ensures Clean([','] + s, '#')
  {
    assert ([','] + s)[1..] == s;
  }

  lemma RdnClean(r: Rdn)
    requires WellFormedRdn(r) && FirstUnescaped(RdnText(r), '#') >= |RdnText(r)|
    ensures Clean(RdnText(r), '#')
  {
    RdnTextClean(r);
    CleanElsewhere(RdnText(r), ',', '#');
  }

  lemma EmptyReadsNot()
    ensures !Reads("")
  {
    assert Split("", ',') == [""];
    assert Trim("") == "" && FirstUnescaped("", '=') == 0;
  }

  /** The bit-string suffix is cut off together with what is behind the first '#'. */
  lemma TailCut(s: string, tail: string)
    requires tail == "" || tail[0] == '#'
    requires FirstUnescaped(s, '#') < |s| || Clean(s, '#')
    ensures StripSuffix(s + tail) == s[..FirstUnescaped(s, '#')]
  {
    hide FirstUnescaped, Clean;
    var k := FirstUnescaped(s, '#');
    if k < |s| {
      PrefixIndex(s, tail, '#');
      assert (s + tail)[..k] == s[..k];
    } else if tail == "" {
      assert s + tail == s;
    } else {
      CleanIndex(s, tail, '#');
      TagStart(tail);
      assert (s + tail)[..|s|] == s;
    }
  }
}
