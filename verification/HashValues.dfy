// Which names a uniqueMember value can hold: the exact condition under which the referential
// integrity plugin's rewritten values are read back.
module HashValues {
  import opened Text
  import opened DnSyntax
  import opened Names
  import opened Entries
  import opened CutNames
  import opened RefInt

  // ---------------------------------------------------------------------------
  // Counting tokens
  // ---------------------------------------------------------------------------

  /** How many units a text consists of, an escaped character counting once with its backslash. */
  function Units(s: string): nat {
    if s == "" then 0 else if s[0] == '\\' && |s| >= 2 then 1 + Units(s[2..]) else 1 + Units(s[1..])
  }

  lemma {:induction false} UnitsPositive(s: string)
    ensures s != "" ==> Units(s) > 0
  {
  }

  /** Text behind something that does not end in the middle of an escape adds its units. */
  lemma {:induction false} UnitsConcat(a: string, b: string, sep: char)
    requires Clean(a, sep)
    ensures Units(a + b) == Units(a) + Units(b)
  {
    if a == "" {
      assert a + b == b;
    } else if a[0] == '\\' {
      UnitsConcat(a[2..], b, sep);
      assert (a + b)[2..] == a[2..] + b && (a + b)[0] == a[0];
    } else {
      UnitsConcat(a[1..], b, sep);
      assert (a + b)[1..] == a[1..] + b && (a + b)[0] == a[0];
    }
  }

  lemma {:induction false} CleanBefore(s: string, sep: char)
    requires sep != '\\' && FirstUnescaped(s, sep) < |s|
    ensures Clean(s[..FirstUnescaped(s, sep)], sep)
  {
    var k := FirstUnescaped(s, sep);
    if s[0] == '\\' {
      CleanBefore(s[2..], sep);
      assert s[..k][2..] == s[2..][..k - 2];
    } else if s[0] != sep {
      CleanBefore(s[1..], sep);
      assert s[..k][1..] == s[1..][..k - 1];
    }
  }

  /** Cutting at an unescaped separator splits the units. */
  lemma UnitsCut(s: string, sep: char)
    requires sep != '\\'
    ensures var k := FirstUnescaped(s, sep); k <= |s| && Units(s) == Units(s[..k]) + Units(s[k..])
  {
    hide Units, FirstUnescaped, Clean;
    var k := FirstUnescaped(s, sep);
    assert s == s[..k] + s[k..];
    if k < |s| {
      CleanBefore(s, sep);
      UnitsConcat(s[..k], s[k..], sep);
    } else {
      assert s[..k] == s && s[k..] == "";
      NoUnits();
    }
  }

  lemma UnitsAtSeparator(s: string, sep: char)
    requires sep != '\\' && FirstUnescaped(s, sep) < |s|
    ensures var k := FirstUnescaped(s, sep); Units(s) == Units(s[..k]) + 1 + Units(s[k + 1..])
  {
    var k := FirstUnescaped(s, sep);
    UnitsCut(s, sep);
    assert s[k..][0] == sep && s[k..][1..] == s[k + 1..];
  }

  lemma {:induction false} UnitsPlain(s: string)
    requires '\\' !in s
    ensures Units(s) == |s|
  {
    if s != "" {
      assert s[0] in s && forall c :: c in s[1..] ==> c in s;
      UnitsPlain(s[1..]);
    }
  }

  /** A value is no longer than the units it was unescaped from. */
  lemma {:induction false} UnescapeShrinks(s: string)
    ensures Unescape(s).Some? ==> |Unescape(s).value| <= Units(s)
  {
    if s != "" && Token(s).Some? {
      var (n, c) := Token(s).value;
      UnescapeShrinks(s[n..]);
      if n == 3 {
        UnitsSkip(s);
      }
    }
  }

  lemma UnitsSkip(s: string)
    requires |s| >= 3 && s[0] == '\\' && s[2] != '\\'
    ensures Units(s) == 2 + Units(s[3..])
  {
    var t := s[2..];
    assert t[1..] == s[3..];
  }

  lemma {:induction false} UnitsPrefix(s: string)
    requires s != ""
    ensures Units(s[..|s| - 1]) <= Units(s)
  {
    var p := s[..|s| - 1];
    if s[0] == '\\' && |s| >= 3 {
      UnitsPrefix(s[2..]);
      assert p[2..] == s[2..][..|s[2..]| - 1];
    } else if s[0] == '\\' && |s| == 2 {
      assert p == ['\\'] && p[1..] == "";
    } else if |s| > 1 {
      UnitsPrefix(s[1..]);
      assert p[1..] == s[1..][..|s[1..]| - 1];
    }
  }

  lemma {:induction false} TrimLeftUnits(s: string)
    ensures Units(TrimLeft(s)) <= Units(s)
  {
    if s != "" && IsBlank(s[0]) { TrimLeftUnits(s[1..]); }
  }

  lemma {:induction false} TrimRightUnits(s: string)
    ensures Units(TrimRight(s)) <= Units(s)
  {
    if s != "" && TrimRight(s) != s {
      UnitsPrefix(s);
      TrimRightUnits(s[..|s| - 1]);
    }
  }

  lemma {:induction false} TrimSpaceKeeps(s: string)
    ensures |TrimSpaceLeft(s)| <= |s| && (forall c :: c in s && !IsSpace(c) ==> c in TrimSpaceLeft(s))
    ensures |TrimSpaceRight(s)| <= |s| && (forall c :: c in s && !IsSpace(c) ==> c in TrimSpaceRight(s))
  {
    if s != "" {
      if IsSpace(s[0]) {
        TrimSpaceKeeps(s[1..]);
        assert s == [s[0]] + s[1..];
      }
      if IsSpace(s[|s| - 1]) {
        TrimSpaceKeeps(s[..|s| - 1]);
        assert s == s[..|s| - 1] + [s[|s| - 1]];
      }
    }
  }

  /** An attribute's text holds no backslash, so neither does the raw text it was trimmed from. */
  lemma AttrUnits(name: string)
    requires ValidAttr(Lower(TrimSpace(name)))
    ensures |Lower(TrimSpace(name))| <= Units(name)
  {
    var t := TrimSpace(name);
    AttrChars(Lower(t));
    assert forall i :: 0 <= i < |t| ==> Lower(t)[i] == LowerChar(t[i]);
    assert '\\' !in t;
    TrimSpaceKeeps(name);
    TrimSpaceKeeps(TrimSpaceLeft(name));
    UnitsPlain(name);
  }

  // ---------------------------------------------------------------------------
  // Names and their texts
  // ---------------------------------------------------------------------------

  function RdnSize(r: Rdn): nat { |r.attr| + 1 + |r.value| }

  /** The units of a printed name. */
  function Size(d: DN): nat {
    if d == [] then 0 else if |d| == 1 then RdnSize(d[0]) else RdnSize(d[0]) + 1 + Size(d[1..])
  }

  lemma RdnFits(raw: string)
    requires ParseRdn(raw).Some?
    ensures RdnSize(ParseRdn(raw).value) <= Units(raw)
  {
    hide Unescape, ValidUtf8, ValidAttr, TrimSpace, Units, TrimLeft, TrimRight;
    TrimLeftUnits(raw);
    TrimRightUnits(TrimLeft(raw));
    var p := Trim(raw);
    var eq := FirstUnescaped(p, '=');
    UnitsAtSeparator(p, '=');
    AttrUnits(p[..eq]);
    UnescapeShrinks(p[eq + 1..]);
  }

  function UnitsOf(parts: seq<string>): nat {
    if parts == [] then 0 else if |parts| == 1 then Units(parts[0]) else Units(parts[0]) + 1 + UnitsOf(parts[1..])
  }

  lemma UnitsOfCons(p: string, parts: seq<string>)
    requires parts != []
    ensures UnitsOf([p] + parts) == Units(p) + 1 + UnitsOf(parts)
  {
    assert ([p] + parts)[1..] == parts;
  }

  lemma UnitsOfOne(p: string)
    ensures UnitsOf([p]) == Units(p)
  {
  }

  lemma {:induction false} SplitUnits(s: string)
    ensures UnitsOf(Split(s, ',')) == Units(s)
    decreases |s|
  {
    hide Units, FirstUnescaped, UnitsOf;
    var k := FirstUnescaped(s, ',');
    if k < |s| {
      UnitsAtSeparator(s, ',');
      SplitUnits(s[k + 1..]);
      UnitsOfCons(s[..k], Split(s[k + 1..], ','));
    } else {
      UnitsOfOne(s);
    }
  }

  lemma {:induction false} PartsFit(parts: seq<string>)
    requires ParseParts(parts).Some?
    ensures |ParseParts(parts).value| == |parts| && Size(ParseParts(parts).value) <= UnitsOf(parts)
  {
    hide ParseRdn, RdnSize, Units;
    if parts != [] {
      RdnFits(parts[0]);
      PartsFit(parts[1..]);
      var d := ParseParts(parts).value;
      assert d[1..] == ParseParts(parts[1..]).value;
    }
  }

  /** A parsed name is no larger than its text. */
  lemma ParsedFits(s: string)
    requires ParseDN(s).Some?
    ensures Size(ParseDN(s).value) <= Units(s)
  {
    hide ParseParts, Split, Units;
    SplitUnits(s);
    PartsFit(Split(s, ','));
  }

  lemma {:induction false} FoldSize(d: DN)
    ensures Size(Fold(d)) == Size(d)
  {
    if d != [] {
      FoldSize(d[1..]);
      assert Fold(d)[1..] == Fold(d[1..]);
    }
  }

  lemma PieceUnits(v: string, i: nat)
    requires i < |v| && v[i] != '\0'
    ensures Units(Piece(v, i)) == 1
  {
    var p := Piece(v, i);
    assert |p| == 2 ==> p[2..] == "";
    assert |p| == 1 ==> p[1..] == "";
  }

  lemma {:induction false} EscapeUnits(v: string, k: nat)
    requires k <= |v| && '\0' !in v
    ensures Units(EscapeUpTo(v, k)) == k
  {
    hide Piece, Units;
    if k > 0 {
      EscapeUnits(v, k - 1);
      EscapeClean(v, k - 1, ',');
      UnitsConcat(EscapeUpTo(v, k - 1), Piece(v, k - 1), ',');
      assert v[k - 1] in v;
      PieceUnits(v, k - 1);
    } else {
      NoUnits();
    }
  }

  lemma NoUnits()
    ensures Units("") == 0
  {
  }

  /** A printed name has exactly its size in units. */
  lemma {:induction false} StringUnits(d: DN)
    requires WellFormed(d)
    ensures Units(String(d)) == Size(d)
  {
    if d != [] {
      RdnUnits(d[0]);
      RdnTextClean(d[0]);
      StringUnits(d[1..]);
      assert Texts(d)[1..] == Texts(d[1..]) && Texts(d)[0] == RdnText(d[0]);
      hide RdnText, WellFormedRdn, Clean;
      if |d| > 1 {
        UnitsConcat(RdnText(d[0]), [','] + String(d[1..]), ',');
        assert ([','] + String(d[1..]))[1..] == String(d[1..]);
      }
    }
  }

  lemma RdnUnits(r: Rdn)
    requires WellFormedRdn(r)
    ensures Units(RdnText(r)) == RdnSize(r)
  {
    AttrChars(r.attr);
    hide ValidAttr, ValidUtf8;
    UnitsConcat(r.attr, ['='] + Escape(r.value), ',');
    assert '\\' !in r.attr;
    UnitsPlain(r.attr);
    EscapeUnits(r.value, |r.value|);
    assert (['='] + Escape(r.value))[1..] == Escape(r.value);
  }

  // ---------------------------------------------------------------------------
  // Where a '#' shows
  // ---------------------------------------------------------------------------

  /** A '#' behind the first byte of a value stays unescaped. */
  lemma {:induction false} HashShows(v: string, i: nat, j: nat)
    requires i <= j < |v| && j >= 1 && v[j] == '#' && '\0' !in v
    ensures FirstUnescaped(EscapeFrom(v, i), '#') < |EscapeFrom(v, i)|
    decreases |v| - i
  {
    var p, rest := Piece(v, i), EscapeFrom(v, i + 1);
    if v[i] == '#' && i >= 1 {
      assert p == ['#'] && (p + rest)[0] == '#';
    } else {
      HashShows(v, i + 1, j);
      assert v[i] in v;
      PieceHashClean(v, i);
      CleanIndex(p, rest, '#');
    }
  }

  lemma RdnHashShows(r: Rdn, j: nat)
    requires WellFormedRdn(r) && 1 <= j < |r.value| && r.value[j] == '#'
    ensures FirstUnescaped(RdnText(r), '#') < |RdnText(r)|
  {
    hide ValidAttr, ValidUtf8, FirstUnescaped, Clean, Escape, EscapeFrom;
    EscapeIsFrom(r.value);
    HashShows(r.value, 0, j);
    AttrClean(r.attr);
    ConcatAssoc(r.attr, ['='], Escape(r.value));
    CleanIndex(r.attr + ['='], Escape(r.value), '#');
  }

  lemma {:induction false} KeyHashShows(d: DN, i: nat, j: nat)
    requires WellFormed(d) && i < |d| && 1 <= j < |d[i].value| && d[i].value[j] == '#'
    ensures FirstUnescaped(String(d), '#') < |String(d)|
  {
    hide FirstUnescaped, RdnText, WellFormedRdn, Clean;
    var a := RdnText(d[0]);
    assert Texts(d)[1..] == Texts(d[1..]) && Texts(d)[0] == a;
    var b := if |d| == 1 then "" else [','] + String(d[1..]);
    assert String(d) == a + b;
    if FirstUnescaped(a, '#') < |a| {
      PrefixIndex(a, b, '#');
    } else {
      if i == 0 { RdnHashShows(d[0], j); }
      KeyHashShows(d[1..], i - 1, j);
      RdnClean(d[0]);
      CleanIndex(a, b, '#');
      CommaFirst(String(d[1..]));
    }
  }

  lemma CommaFirst(s: string)
    ensures FirstUnescaped([','] + s, '#') == 1 + FirstUnescaped(s, '#')
  {
    assert ([','] + s)[1..] == s;
  }

  // ---------------------------------------------------------------------------
  // The exact condition
  // ---------------------------------------------------------------------------

  /** A DN written as a uniqueMember value, with any bit-string suffix, is read back exactly when it is hash-safe. */
  lemma TaggedExactly(d: DN, tail: string)
    requires d != [] && WellFormed(d) && TabFree(d) && (tail == "" || tail[0] == '#')
    ensures NameOf(String(d) + tail, true) == Canon(d) <==> HashSafe(d)
  {
    if HashSafe(d) {
      NameOfTagged(d, tail);
    } else {
      var i, j :| 0 <= i < |d| && 1 <= j < |d[i].value| && d[i].value[j] == '#';
      KeyHashShows(d, i, j);
      CutLosesName(d, tail);
    }
  }

  lemma CutLosesName(n: DN, tail: string)
    requires n != [] && WellFormed(n) && TabFree(n)
    requires FirstUnescaped(String(n), '#') < |String(n)|
    ensures NameOf(String(n) + tail, true) != Canon(n)
  {
    hide ParseDN, String, Fold, WellFormed, TabFree, Canonical, Units, Size;
    var s := String(n);
    var k := FirstUnescaped(s, '#');
    PrefixIndex(s, tail, '#');
    assert (s + tail)[..k] == s[..k];
    var cut := s[..k];
    UnitsCut(s, '#');
    UnitsPositive(s[k..]);
    StringUnits(n);
    FoldSize(n);
    var d := ParseDN(cut);
    if d.Some? {
      ParsedFits(cut);
      FoldSize(d.value);
    }
  }

  /**
   * A rewritten value names the new place of what it named exactly when its new DN has no
   * value that ends in a tab and, in a uniqueMember value, is hash-safe.
   */
  lemma FollowsExactly(v: string, unique: bool, from: Name, to: Name)
    requires from != [] && to != []
    ensures NamesNewPlace(v, unique, from, to) <==> SafeValue(v, unique, from, to)
  {
    hide ParsedDN, HashSafe, StripSuffix, Canonical, String, Moved, RebaseDN, Rebase, TabFree, WellFormed;
    var d, nd := ParsedDN(v, unique), NewDN(v, unique, from, to);
    if SafeValue(v, unique, from, to) {
      FollowsName(v, unique, from, to);
    } else {
      SuffixTail(v);
      var tail := if unique then v[|StripSuffix(v)|..] else "";
      KeptLead(d.value, from, to);
      assert NewText(v, unique, from, to) == String(nd.value) + tail by {
        assert String(nd.value) + "" == String(nd.value);
      }
      if TabFree(d.value) {
        RebaseSpelling(d.value, from, to);
        MovedIs(Canon(d.value).value, from, to);
        TaggedExactly(nd.value, tail);
      } else {
        PrintedNames(nd.value, unique, tail);
      }
    }
  }

  /** All of an entry's member values follow a move exactly when the entry is safe to redirect. */
  lemma RedirectExactly(e: Entry, from: Name, to: Name)
    requires from != [] && to != []
    ensures SafeToRedirect(e, from, to) <==>
              && (forall v :: v in Values(e, "member") ==> NamesNewPlace(v, false, from, to))
              && forall v :: v in Values(e, "uniqueMember") ==> NamesNewPlace(v, true, from, to)
  {
    hide NamesNewPlace, SafeValue, ValuesOf;
    forall v, unique ensures NamesNewPlace(v, unique, from, to) <==> SafeValue(v, unique, from, to) {
      FollowsExactly(v, unique, from, to);
    }
  }
}
