// The distinguished-name text form of internal/config/dn.go: escaping, splitting,
// trimming and parsing, and what parsing and printing do to each other.
module DnSyntax {
  import opened Text

  datatype Rdn = Rdn(attr: string, value: string)
  type DN = seq<Rdn>

  const TAB := '\t'

  // ---------------------------------------------------------------------------
  // Definitions
  // ---------------------------------------------------------------------------

  predicate NeedsEscape(c: char) {
    c == '\\' || c == ',' || c == '+' || c == '"' || c == ';' || c == '<' || c == '>'
  }

  /** What the byte at position i of v is written as. */
  function Piece(v: string, i: nat): string
    requires i < |v|
  {
    var c := v[i];
    if c == '\0' then "\\00"
    else if NeedsEscape(c) then ['\\', c]
    else if c == ' ' && (i == 0 || i + 1 == |v|) then "\\ "
    else if c == '#' && i == 0 then "\\#"
    else [c]
  }

  /** The escaped form of the first k bytes of v. */
  function EscapeUpTo(v: string, k: nat): string
    requires k <= |v|
  {
    if k == 0 then "" else EscapeUpTo(v, k - 1) + Piece(v, k - 1)
  }

  function Escape(v: string): string { EscapeUpTo(v, |v|) }

  /** Index of the first sep that is not behind a backslash; |s| when there is none. */
  function FirstUnescaped(s: string, sep: char): (k: nat)
    ensures k <= |s|
    ensures k < |s| ==> s[k] == sep || sep == '\\'
  {
    if s == "" then 0
    else if s[0] == '\\' then (if |s| == 1 then 1 else 2 + FirstUnescaped(s[2..], sep))
    else if s[0] == sep then 0
    else 1 + FirstUnescaped(s[1..], sep)
  }

  function Split(s: string, sep: char): (parts: seq<string>)
    ensures |parts| > 0
  {
    var k := FirstUnescaped(s, sep);
    if k >= |s| then [s] else [s[..k]] + Split(s[k + 1..], sep)
  }

  function Join(parts: seq<string>): string {
    if parts == [] then "" else if |parts| == 1 then parts[0] else parts[0] + ([','] + Join(parts[1..]))
  }

  predicate EscapableChar(c: char) { c in " ,+\"\\<>;=#" }

  /** The first byte an escaped text stands for and how much text it takes; None is a bad escape. */
  function Token(s: string): (r: Option<(nat, char)>)
    requires s != ""
    ensures r.Some? ==> 0 < r.value.0 <= |s|
  {
    if s[0] != '\\' then Some((1, s[0]))
    else if |s| == 1 then None
    else if |s| >= 3 && IsHex(s[1]) && IsHex(s[2]) then
      var b := HexVal(s[1]).value * 16 + HexVal(s[2]).value;
      if b == 0 then None else Some((3, b as char))
    else if EscapableChar(s[1]) then Some((2, s[1]))
    else None
  }

  /** Resolves escapes; None is a dangling, unknown or NUL escape. */
  function Unescape(s: string): Option<string> {
    if s == "" then Some("")
    else match Token(s)
      case None => None
      case Some((n, c)) => Prepend(c, Unescape(s[n..]))
  }

  function Prepend(c: char, r: Option<string>): Option<string> {
    match r case None => None case Some(t) => Some([c] + t)
  }

  predicate IsBlank(c: char) { c == ' ' || c == TAB }

  function TrimLeft(s: string): string {
    if s != "" && IsBlank(s[0]) then TrimLeft(s[1..]) else s
  }

  /** How many backslashes s ends with. */
  function TrailingSlashes(s: string): nat {
    if s != "" && s[|s| - 1] == '\\' then 1 + TrailingSlashes(s[..|s| - 1]) else 0
  }

  /** Drops trailing blanks, stopping at one that is escaped. */
  function TrimRight(s: string): string {
    if s != "" && IsBlank(s[|s| - 1]) && TrailingSlashes(s[..|s| - 1]) % 2 == 0
    then TrimRight(s[..|s| - 1]) else s
  }

  function Trim(s: string): string { TrimRight(TrimLeft(s)) }

  predicate IsSpace(c: char) { 9 <= c as int <= 13 || c == ' ' }

  function TrimSpaceLeft(s: string): string {
    if s != "" && IsSpace(s[0]) then TrimSpaceLeft(s[1..]) else s
  }

  function TrimSpaceRight(s: string): string {
    if s != "" && IsSpace(s[|s| - 1]) then TrimSpaceRight(s[..|s| - 1]) else s
  }

  function TrimSpace(s: string): string { TrimSpaceRight(TrimSpaceLeft(s)) }

  /** A descriptor (letter, then letters, digits and hyphens) or a dotted numeric OID. */
  predicate ValidAttr(s: string) {
    s != "" &&
    if IsDigit(s[0]) then
      && (forall i :: 0 <= i < |s| ==> IsDigit(s[i]) || s[i] == '.')
      && '.' in s && s[|s| - 1] != '.'
      && (forall i :: 0 <= i < |s| - 1 && s[i] == '.' ==> s[i + 1] != '.')
    else
      forall i :: 0 <= i < |s| ==> IsLetter(s[i]) || (i > 0 && (IsDigit(s[i]) || s[i] == '-'))
  }

  /** The RDN written as name '=' rest, both still unprocessed. */
  function ParsePair(name: string, rest: string): Option<Rdn> {
    var attr := Lower(TrimSpace(name));
    if !ValidAttr(attr) || FirstUnescaped(rest, '+') < |rest| then None
    else
      var v := Unescape(rest);
      if v.Some? && ValidUtf8(v.value) then Some(Rdn(attr, v.value)) else None
  }

  function ParseRdn(raw: string): Option<Rdn> {
    var p := Trim(raw);
    var eq := FirstUnescaped(p, '=');
    if eq == 0 || eq == |p| then None else ParsePair(p[..eq], p[eq + 1..])
  }

  function ParseParts(parts: seq<string>): Option<DN> {
    if parts == [] then Some([])
    else
      var r := ParseRdn(parts[0]);
      var rs := ParseParts(parts[1..]);
      if r.Some? && rs.Some? then Some([r.value] + rs.value) else None
  }

  function ParseDN(s: string): Option<DN> {
    if s == "" || '\0' in s then None else ParseParts(Split(s, ','))
  }

  function RdnText(r: Rdn): string { r.attr + (['='] + Escape(r.value)) }

  function Texts(d: DN): seq<string> { seq(|d|, i requires 0 <= i < |d| => RdnText(d[i])) }

  /** The printed form of a DN, leaf first. */
  function String(d: DN): string { Join(Texts(d)) }

  function FoldRdn(r: Rdn): Rdn { Rdn(r.attr, Lower(r.value)) }

  function Fold(d: DN): (f: DN)
    ensures |f| == |d|
  {
    seq(|d|, i requires 0 <= i < |d| => FoldRdn(d[i]))
  }

  /** The lowercase map key of a DN. */
  function FoldedKey(d: DN): string { String(Fold(d)) }

  /** An RDN as parsing produces it. */
  predicate WellFormedRdn(r: Rdn) {
    ValidAttr(r.attr) && Lower(r.attr) == r.attr && '\0' !in r.value && ValidUtf8(r.value)
  }

  predicate WellFormed(d: DN) { forall i :: 0 <= i < |d| ==> WellFormedRdn(d[i]) }

  predicate EndsInTab(v: string) { v != "" && v[|v| - 1] == TAB }

  predicate TabFree(d: DN) { forall i :: 0 <= i < |d| ==> !EndsInTab(d[i].value) }

  // ---------------------------------------------------------------------------
  // Escaping and unescaping
  // ---------------------------------------------------------------------------

  /** The escaped form of v from position i on. */
  function EscapeFrom(v: string, i: nat): string
    requires i <= |v|
    decreases |v| - i
  {
    if i == |v| then "" else Piece(v, i) + EscapeFrom(v, i + 1)
  }

  lemma {:induction false} EscapeSplits(v: string, i: nat)
    requires i <= |v|
    ensures Escape(v) == EscapeUpTo(v, i) + EscapeFrom(v, i)
    decreases |v| - i
  {
    hide Piece;
    if i < |v| {
      EscapeSplits(v, i + 1);
      assert EscapeUpTo(v, i + 1) == EscapeUpTo(v, i) + Piece(v, i);
      assert EscapeFrom(v, i) == Piece(v, i) + EscapeFrom(v, i + 1);
      hide EscapeUpTo, EscapeFrom, Escape;
      ConcatAssoc(EscapeUpTo(v, i), Piece(v, i), EscapeFrom(v, i + 1));
    } else {
      assert Escape(v) + "" == Escape(v);
    }
  }

  lemma {:induction false} UnescapeEscapeFrom(v: string, i: nat)
    requires i <= |v| && '\0' !in v
    ensures Unescape(EscapeFrom(v, i)) == Some(v[i..])
    decreases |v| - i
  {
    if i < |v| {
      UnescapeEscapeFrom(v, i + 1);
      PieceShape(v, i);
      hide Piece, Unescape, EscapableChar;
      PieceToken(v[i], Piece(v, i), EscapeFrom(v, i + 1));
      assert v[i..] == [v[i]] + v[i + 1..];
    } else {
      assert v[i..] == "";
    }
  }

  lemma PieceToken(c: char, p: string, t: string)
    requires (p == [c] && c != '\\') || (p == ['\\', c] && EscapableChar(c))
    ensures Unescape(p + t) == Prepend(c, Unescape(t))
  {
    if p == [c] {
      assert (p + t)[1..] == t;
    } else {
      assert (p + t)[2..] == t && (p + t)[1] == c;
      assert !IsHex(c);
    }
  }

  /** Unescaping undoes escaping, for every value a DN can hold. */
  lemma UnescapeEscape(v: string)
    requires '\0' !in v
    ensures Unescape(Escape(v)) == Some(v)
  {
    EscapeSplits(v, 0);
    UnescapeEscapeFrom(v, 0);
    assert v[0..] == v && "" + EscapeFrom(v, 0) == EscapeFrom(v, 0);
  }

  /** Text that unescapes on its own unescapes the same way in front of more text. */
  lemma TokenAppend(q: string, r: string)
    requires q != "" && Token(q).Some?
    ensures Token(q + r) == Token(q)
  {
    var t := q + r;
    assert t[0] == q[0];
    if q[0] == '\\' {
      assert t[1] == q[1];
      if |q| >= 3 {
        assert t[2] == q[2];
      }
      if EscapableChar(q[1]) {
        assert !IsHex(q[1]);
      }
    }
  }

  lemma UnescapeFirst(s: string)
    requires s != "" && Token(s).Some?
    ensures Unescape(s) == Prepend(Token(s).value.1, Unescape(s[Token(s).value.0..]))
  {
  }

  lemma {:induction false} UnescapeAppend(q: string, r: string)
    requires Unescape(q).Some? && Unescape(r).Some?
    ensures Unescape(q + r) == Some(Unescape(q).value + Unescape(r).value)
  {
    if q == "" {
      assert q + r == r && "" + Unescape(r).value == Unescape(r).value;
    } else {
      var (n, c) := Token(q).value;
      TokenAppend(q, r);
      UnescapeFirst(q);
      UnescapeFirst(q + r);
      hide Token, Unescape;
      UnescapeAppend(q[n..], r);
      assert (q + r)[n..] == q[n..] + r;
      ConcatAssoc([c], Unescape(q[n..]).value, Unescape(r).value);
    }
  }

  // ---------------------------------------------------------------------------
  // Separators
  // ---------------------------------------------------------------------------

  /** No unescaped sep, and no backslash left dangling. */
  predicate Clean(s: string, sep: char) {
    if s == "" then true
    else if s[0] == '\\' then |s| >= 2 && Clean(s[2..], sep)
    else s[0] != sep && Clean(s[1..], sep)
  }

  lemma {:induction false} CleanAppend(a: string, b: string, sep: char)
    requires Clean(a, sep) && Clean(b, sep)
    ensures Clean(a + b, sep)
  {
    if a == "" {
      assert a + b == b;
    } else {
      var n := if a[0] == '\\' then 2 else 1;
      CleanAppend(a[n..], b, sep);
      assert (a + b)[n..] == a[n..] + b;
    }
  }

  lemma {:induction false} CleanIndex(a: string, b: string, sep: char)
    requires sep != '\\' && Clean(a, sep)
    ensures FirstUnescaped(a, sep) == |a|
    ensures FirstUnescaped(a + b, sep) == |a| + FirstUnescaped(b, sep)
  {
    if a == "" {
      assert a + b == b;
    } else {
      var n := if a[0] == '\\' then 2 else 1;
      CleanIndex(a[n..], b, sep);
      assert (a + b)[n..] == a[n..] + b;
    }
  }

  lemma {:induction false} EscapeClean(v: string, k: nat, sep: char)
    requires k <= |v| && (sep == ',' || sep == '+')
    ensures Clean(EscapeUpTo(v, k), sep)
  {
    if k > 0 {
      EscapeClean(v, k - 1, sep);
      var p := Piece(v, k - 1);
      assert Clean(p, sep) by {
        if p[0] == '\\' {
          assert |p| == 2 ==> p[2..] == "";
          assert |p| == 3 ==> p[2..] == "0" && Clean("0", sep);
        } else {
          assert p[1..] == "";
        }
      }
      CleanAppend(EscapeUpTo(v, k - 1), p, sep);
    }
  }

  lemma {:induction false} PlainClean(s: string, sep: char)
    requires forall i :: 0 <= i < |s| ==> s[i] != '\\' && s[i] != sep
    ensures Clean(s, sep)
  {
    if s != "" {
      PlainClean(s[1..], sep);
    }
  }

  lemma AttrChars(attr: string)
    requires ValidAttr(attr)
    ensures forall i :: 0 <= i < |attr| ==> IsLetter(attr[i]) || IsDigit(attr[i]) || attr[i] == '-' || attr[i] == '.'
    ensures Clean(attr, ',') && Clean(attr, '=')
  {
    PlainClean(attr, ',');
    PlainClean(attr, '=');
  }

  lemma RdnTextClean(r: Rdn)
    requires ValidAttr(r.attr)
    ensures Clean(RdnText(r), ',')
    ensures FirstUnescaped(RdnText(r), '=') == |r.attr|
  {
    AttrChars(r.attr);
    EscapeClean(r.value, |r.value|, ',');
    assert Clean(['='], ',');
    var t := ['='] + Escape(r.value);
    assert FirstUnescaped(t, '=') == 0;
    hide Escape, ValidAttr;
    CleanAppend(['='], Escape(r.value), ',');
    CleanAppend(r.attr, t, ',');
    CleanIndex(r.attr, t, '=');
  }

  lemma SplitAfter(a: string, t: string, sep: char)
    requires sep != '\\' && Clean(a, sep)
    ensures Split(a + ([sep] + t), sep) == [a] + Split(t, sep)
  {
    var u := [sep] + t;
    CleanIndex(a, u, sep);
    assert u[0] == sep;
    hide Clean, FirstUnescaped;
    Around(a, sep, t);
  }

  lemma {:induction false} SplitJoin(parts: seq<string>)
    requires parts != [] && forall i :: 0 <= i < |parts| ==> Clean(parts[i], ',')
    ensures Split(Join(parts), ',') == parts
  {
    if |parts| == 1 {
      CleanIndex(parts[0], "", ',');
      assert parts == [parts[0]];
    } else {
      hide Clean, Split, FirstUnescaped;
      SplitJoin(parts[1..]);
      assert parts == [parts[0]] + parts[1..];
      SplitAfter(parts[0], Join(parts[1..]), ',');
    }
  }

  // ---------------------------------------------------------------------------
  // Trimming
  // ---------------------------------------------------------------------------

  lemma TrailingSnoc(q: string, c: char)
    ensures TrailingSlashes(q + [c]) == if c == '\\' then 1 + TrailingSlashes(q) else 0
  {
    assert (q + [c])[..|q|] == q;
  }

  /** A byte of a value is written as itself or behind one backslash. */
  lemma PieceShape(v: string, i: nat)
    requires i < |v| && '\0' !in v
    ensures Piece(v, i) == [v[i]] || Piece(v, i) == ['\\', v[i]]
    ensures v[i] == '\\' ==> Piece(v, i) == ['\\', v[i]]
    ensures v[i] == ' ' && i + 1 == |v| ==> Piece(v, i) == ['\\', v[i]]
    ensures v[i] == TAB ==> Piece(v, i) == [v[i]]
    ensures Piece(v, i) != [v[i]] ==> EscapableChar(v[i])
  {
    assert v[i] in v;
  }

  lemma TrailingPiece(q: string, c: char, p: string)
    requires (p == [c] && c != '\\') || p == ['\\', c]
    ensures TrailingSlashes(q + p) % 2 == TrailingSlashes(q) % 2 || TrailingSlashes(q + p) == 0
  {
    TrailingSnoc(q, c);
    TrailingSnoc(q, '\\');
    TrailingSnoc(q + ['\\'], c);
    hide TrailingSlashes;
    ConcatAssoc(q, ['\\'], [c]);
    assert ['\\'] + [c] == ['\\', c];
  }

  lemma {:induction false} EscapeSlashesEven(v: string, k: nat)
    requires k <= |v| && '\0' !in v
    ensures TrailingSlashes(EscapeUpTo(v, k)) % 2 == 0
  {
    if k > 0 {
      EscapeSlashesEven(v, k - 1);
      PieceShape(v, k - 1);
      var q, c := EscapeUpTo(v, k - 1), v[k - 1];
      assert EscapeUpTo(v, k) == q + Piece(v, k - 1);
      hide EscapeUpTo, Piece;
      TrailingPiece(q, c, Piece(v, k - 1));
    }
  }

  /** Slashes are counted only back to the '=' of an RDN. */
  lemma {:induction false} TrailingBehind(a: string, c: char, b: string)
    requires c != '\\'
    ensures TrailingSlashes(a + ([c] + b)) == TrailingSlashes(b)
  {
    if b == "" {
      TrailingSnoc(a, c);
      assert [c] + b == [c];
    } else {
      var b', e := b[..|b| - 1], b[|b| - 1];
      TrailingBehind(a, c, b');
      assert b == b' + [e];
      hide TrailingSlashes;
      assert a + ([c] + b) == a + ([c] + b') + [e];
      TrailingSnoc(a + ([c] + b'), e);
      TrailingSnoc(b', e);
    }
  }

  lemma TrimRdnText(r: Rdn)
    requires WellFormedRdn(r)
    ensures !EndsInTab(r.value) ==> Trim(RdnText(r)) == RdnText(r)
    ensures EndsInTab(r.value) ==> Trim(RdnText(r)) == TrimRight(RdnText(r)[..|RdnText(r)| - 1])
  {
    var t := RdnText(r);
    AttrChars(r.attr);
    assert t[0] == r.attr[0];
    assert TrimLeft(t) == t;
    var u, c := RdnTextEnd(r);
    assert t[..|t| - 1] == u;
  }

  /** What the escaped form of a non-empty value ends in: a blank is escaped unless it is a tab. */
  lemma EscapeEnd(v: string) returns (e: string, c: char)
    requires v != "" && '\0' !in v
    ensures Escape(v) == e + [c] && c == v[|v| - 1]
    ensures c == ' ' ==> TrailingSlashes(e) % 2 == 1
    ensures c == TAB ==> TrailingSlashes(e) % 2 == 0
  {
    var k := |v| - 1;
    var q := EscapeUpTo(v, k);
    c := v[k];
    PieceShape(v, k);
    EscapeSlashesEven(v, k);
    TrailingSnoc(q, '\\');
    hide TrailingSlashes, Piece, EscapableChar;
    assert Escape(v) == q + Piece(v, k);
    if Piece(v, k) == [c] {
      e := q;
    } else {
      e := q + ['\\'];
      assert q + ['\\', c] == e + [c];
    }
  }

  /** The same for the text of a whole RDN. */
  lemma RdnTextEnd(r: Rdn) returns (t: string, c: char)
    requires WellFormedRdn(r)
    ensures RdnText(r) == t + [c]
    ensures EndsInTab(r.value) <==> c == TAB
    ensures c == ' ' ==> TrailingSlashes(t) % 2 == 1
    ensures c == TAB ==> TrailingSlashes(t) % 2 == 0
  {
    if r.value == "" {
      t, c := r.attr, '=';
      assert RdnText(r) == r.attr + ['='];
    } else {
      var e, d := EscapeEnd(r.value);
      TrailingBehind(r.attr, '=', e);
      hide TrailingSlashes, Escape;
      t, c := r.attr + (['='] + e), d;
      assert RdnText(r) == t + [c];
    }
  }

  /** TrimRight only ever removes a run of blanks from the end. */
  lemma {:induction false} TrimRightRemoves(s: string) returns (blanks: string)
    ensures s == TrimRight(s) + blanks
    ensures forall i :: 0 <= i < |blanks| ==> IsBlank(blanks[i])
  {
    if s != "" && IsBlank(s[|s| - 1]) && TrailingSlashes(s[..|s| - 1]) % 2 == 0 {
      var b := TrimRightRemoves(s[..|s| - 1]);
      blanks := b + [s[|s| - 1]];
      assert s == s[..|s| - 1] + [s[|s| - 1]];
    } else {
      blanks := "";
    }
  }

  lemma {:induction false} UnescapePlain(s: string)
    requires forall i :: 0 <= i < |s| ==> s[i] != '\\'
    ensures Unescape(s) == Some(s)
  {
    if s != "" {
      UnescapePlain(s[1..]);
      assert s == [s[0]] + s[1..];
    }
  }

  lemma {:induction false} TrimSpaceNone(s: string)
    requires forall i :: 0 <= i < |s| ==> !IsSpace(s[i])
    ensures TrimSpace(s) == s
  {
  }

  // ---------------------------------------------------------------------------
  // Parsing what was printed
  // ---------------------------------------------------------------------------

  lemma ParseRdnAt(raw: string, name: string, rest: string)
    requires Trim(raw) == name + (['='] + rest) && FirstUnescaped(Trim(raw), '=') == |name|
    requires name != ""
    ensures ParseRdn(raw) == ParsePair(name, rest)
  {
    hide Trim, FirstUnescaped, ParsePair;
    Around(name, '=', rest);
  }

  /** One RDN is read back exactly when its value does not end in a tab. */
  lemma ParseRdnText(r: Rdn)
    requires WellFormedRdn(r)
    ensures ParseRdn(RdnText(r)) == Some(r) <==> !EndsInTab(r.value)
  {
    if EndsInTab(r.value) {
      TabEndIsLost(r);
    } else {
      TrimRdnText(r);
      RdnTextClean(r);
      ParsePairText(r);
      hide Trim, FirstUnescaped, Escape, ParsePair;
      ParseRdnAt(RdnText(r), r.attr, Escape(r.value));
    }
  }

  lemma ParsePairText(r: Rdn)
    requires WellFormedRdn(r)
    ensures ParsePair(r.attr, Escape(r.value)) == Some(r)
  {
    AttrChars(r.attr);
    TrimSpaceNone(r.attr);
    UnescapeEscape(r.value);
    EscapeClean(r.value, |r.value|, '+');
    CleanIndex(Escape(r.value), "", '+');
    hide ValidAttr, TrimSpace, Unescape, ValidUtf8, Escape, Clean, FirstUnescaped;
  }

  lemma ParsedValue(raw: string)
    requires ParseRdn(raw).Some?
    ensures var p := Trim(raw); var eq := FirstUnescaped(p, '=');
      eq < |p| && Unescape(p[eq + 1..]) == Some(ParseRdn(raw).value.value)
  {
  }

  /** Trimming an RDN whose value ends in a tab cuts off that tab and the blanks before it. */
  lemma TabEndTrimmed(r: Rdn) returns (cut: string)
    requires WellFormedRdn(r) && EndsInTab(r.value)
    ensures RdnText(r) == Trim(RdnText(r)) + cut
    ensures cut != "" && forall i :: 0 <= i < |cut| ==> IsBlank(cut[i])
  {
    var u, c := RdnTextEnd(r);
    TrimRdnText(r);
    var b := TrimRightRemoves(u);
    hide Trim, TrimRight, RdnText, WellFormedRdn, TrailingSlashes;
    assert (u + [c])[..|u|] == u;
    cut := b + [TAB];
    ConcatAssoc(TrimRight(u), b, [TAB]);
  }

  lemma TabEndIsLost(r: Rdn)
    requires WellFormedRdn(r) && EndsInTab(r.value)
    ensures ParseRdn(RdnText(r)) != Some(r)
  {
    var t := RdnText(r);
    var cut := TabEndTrimmed(r);
    if ParseRdn(t) == Some(r) {
      ParsedValue(t);
      SplitOffBlanks(r, Trim(t), cut);
    }
  }

  lemma EscapeSplitsOff(r: Rdn, p: string, cut: string)
    requires WellFormedRdn(r) && RdnText(r) == p + cut
    requires FirstUnescaped(p, '=') < |p|
    ensures Escape(r.value) == p[FirstUnescaped(p, '=') + 1..] + cut
  {
    RdnTextClean(r);
    PrefixIndex(p, cut, '=');
    hide Escape, FirstUnescaped, Clean, WellFormedRdn;
    Around(r.attr, '=', Escape(r.value));
    TailOfConcat(p, cut, |r.attr| + 1);
  }

  lemma TailOfConcat(a: string, b: string, k: nat)
    requires k <= |a|
    ensures (a + b)[k..] == a[k..] + b
  {
  }

  lemma SplitOffBlanks(r: Rdn, p: string, cut: string)
    requires WellFormedRdn(r) && RdnText(r) == p + cut && cut != ""
    requires forall i :: 0 <= i < |cut| ==> IsBlank(cut[i])
    requires var eq := FirstUnescaped(p, '='); eq < |p| && Unescape(p[eq + 1..]).Some?
    ensures Unescape(p[FirstUnescaped(p, '=') + 1..]) != Some(r.value)
  {
    EscapeSplitsOff(r, p, cut);
    UnescapeEscape(r.value);
    UnescapePlain(cut);
    LongerAfterAppend(p[FirstUnescaped(p, '=') + 1..], cut);
  }

  lemma LongerAfterAppend(q: string, cut: string)
    requires Unescape(q).Some? && Unescape(cut) == Some(cut) && cut != ""
    ensures Unescape(q + cut) != Unescape(q)
  {
    UnescapeAppend(q, cut);
    hide Unescape;
    assert |Unescape(q).value + cut| > |Unescape(q).value|;
  }

  lemma {:induction false} PrefixIndex(a: string, b: string, sep: char)
    requires sep != '\\' && FirstUnescaped(a, sep) < |a|
    ensures FirstUnescaped(a + b, sep) == FirstUnescaped(a, sep)
  {
    if a[0] == '\\' {
      PrefixIndex(a[2..], b, sep);
      assert (a + b)[2..] == a[2..] + b;
    } else if a[0] != sep {
      PrefixIndex(a[1..], b, sep);
      assert (a + b)[1..] == a[1..] + b;
    }
  }

  lemma {:induction false} ParseTexts(d: DN)
    requires WellFormed(d)
    ensures ParseParts(Texts(d)) == Some(d) <==> TabFree(d)
  {
    if d != [] {
      ParseTexts(d[1..]);
      ParseRdnText(d[0]);
      TextsStep(d);
    }
  }

  lemma TextsStep(d: DN)
    requires d != []
    ensures Texts(d) == [RdnText(d[0])] + Texts(d[1..])
    ensures ParseParts(Texts(d)) == Some(d) <==>
              ParseRdn(RdnText(d[0])) == Some(d[0]) && ParseParts(Texts(d[1..])) == Some(d[1..])
    ensures TabFree(d) <==> !EndsInTab(d[0].value) && TabFree(d[1..])
  {
    hide ParseRdn, RdnText;
    assert Texts(d)[1..] == Texts(d[1..]) && Texts(d)[0] == RdnText(d[0]);
    assert d == [d[0]] + d[1..];
    assert TabFree(d) ==> forall i :: 0 <= i < |d[1..]| ==> !EndsInTab(d[1..][i].value);
    if ParseParts(Texts(d)) == Some(d) {
      var r, rs := ParseRdn(RdnText(d[0])), ParseParts(Texts(d[1..]));
      assert d[0] == r.value && d[1..] == rs.value;
    }
  }

  lemma SplitString(d: DN)
    requires WellFormed(d) && d != []
    ensures Split(String(d), ',') == Texts(d)
  {
    forall i | 0 <= i < |d| ensures Clean(Texts(d)[i], ',') {
      RdnTextClean(d[i]);
    }
    SplitJoin(Texts(d));
  }

  lemma {:induction false} EscapeNoNul(v: string, k: nat)
    requires k <= |v| && '\0' !in v
    ensures '\0' !in EscapeUpTo(v, k)
  {
    if k > 0 {
      EscapeNoNul(v, k - 1);
      assert v[k - 1] in v;
    }
  }

  lemma {:induction false} StringNoNul(d: DN)
    requires WellFormed(d)
    ensures '\0' !in String(d)
  {
    if d != [] {
      AttrChars(d[0].attr);
      EscapeNoNul(d[0].value, |d[0].value|);
      StringNoNul(d[1..]);
      assert Texts(d)[1..] == Texts(d[1..]);
      assert '\0' !in RdnText(d[0]);
    }
  }

  lemma StringNonEmpty(d: DN)
    requires WellFormed(d) && d != []
    ensures String(d) != ""
  {
    assert '=' in RdnText(d[0]);
    assert Texts(d)[0] == RdnText(d[0]);
  }

  /** Parsing the printed form of a DN gives the DN back exactly when no value ends in a tab. */
  lemma ParsePrintedDN(d: DN)
    requires WellFormed(d) && d != []
    ensures ParseDN(String(d)) == Some(d) <==> TabFree(d)
  {
    StringNonEmpty(d);
    StringNoNul(d);
    SplitString(d);
    ParseTexts(d);
  }

  // ---------------------------------------------------------------------------
  // Folded keys
  // ---------------------------------------------------------------------------

  lemma FoldWellFormed(d: DN)
    requires WellFormed(d)
    ensures WellFormed(Fold(d))
  {
    forall i | 0 <= i < |d| ensures WellFormedRdn(Fold(d)[i]) {
      LowerKeepsUtf8(d[i].value);
      assert forall c: char :: LowerChar(c) == '\0' ==> c == '\0';
    }
  }

  lemma RdnTextInjective(a: Rdn, b: Rdn)
    requires WellFormedRdn(a) && WellFormedRdn(b) && RdnText(a) == RdnText(b)
    ensures a == b
  {
    RdnTextClean(a);
    RdnTextClean(b);
    Around(a.attr, '=', Escape(a.value));
    Around(b.attr, '=', Escape(b.value));
    UnescapeEscape(a.value);
    UnescapeEscape(b.value);
  }

  /** The printed form determines the DN. */
  lemma StringInjective(a: DN, b: DN)
    requires WellFormed(a) && WellFormed(b) && String(a) == String(b)
    ensures a == b
  {
    if a == [] || b == [] {
      if a != [] { StringNonEmpty(a); }
      if b != [] { StringNonEmpty(b); }
    } else {
      SplitString(a);
      SplitString(b);
      assert |a| == |Texts(a)| == |Texts(b)| == |b|;
      forall i | 0 <= i < |a| ensures a[i] == b[i] {
        assert Texts(a)[i] == Texts(b)[i];
        RdnTextInjective(a[i], b[i]);
      }
    }
  }

  /** Two DNs share a key exactly when they agree, RDN by RDN, on attribute and lowercased value. */
  lemma FoldedKeyIdentity(a: DN, b: DN)
    requires WellFormed(a) && WellFormed(b)
    ensures FoldedKey(a) == FoldedKey(b) <==>
              |a| == |b| && forall i :: 0 <= i < |a| ==>
                  a[i].attr == b[i].attr && Lower(a[i].value) == Lower(b[i].value)
  {
    FoldWellFormed(a);
    FoldWellFormed(b);
    if FoldedKey(a) == FoldedKey(b) {
      StringInjective(Fold(a), Fold(b));
      forall i | 0 <= i < |a| ensures FoldRdn(a[i]) == FoldRdn(b[i]) {
        assert Fold(a)[i] == Fold(b)[i];
      }
    }
    if |a| == |b| && forall i :: 0 <= i < |a| ==> a[i].attr == b[i].attr && Lower(a[i].value) == Lower(b[i].value) {
      assert Fold(a) == Fold(b);
    }
  }

  // ---------------------------------------------------------------------------
  // Parsing always yields a well-formed DN
  // ---------------------------------------------------------------------------

  lemma {:induction false} UnescapeNoNul(s: string)
    requires '\0' !in s && Unescape(s).Some?
    ensures '\0' !in Unescape(s).value
  {
    if s != "" {
      var (n, c) := Token(s).value;
      assert forall c :: c in s[n..] ==> c in s;
      UnescapeNoNul(s[n..]);
      assert s[0] in s && (n > 1 ==> s[1] in s);
    }
  }

  lemma {:induction false} SplitMembers(s: string, sep: char)
    ensures forall p, c :: p in Split(s, sep) && c in p ==> c in s
  {
    var k := FirstUnescaped(s, sep);
    if k < |s| {
      SplitMembers(s[k + 1..], sep);
    }
  }

  lemma {:induction false} TrimMembers(s: string)
    ensures forall c :: c in Trim(s) ==> c in s
  {
    var l := TrimLeft(s);
    TrimLeftSuffix(s);
    var b := TrimRightRemoves(l);
    assert forall c :: c in TrimRight(l) ==> c in TrimRight(l) + b;
  }

  lemma {:induction false} TrimLeftSuffix(s: string)
    ensures forall c :: c in TrimLeft(s) ==> c in s
  {
    if s != "" && IsBlank(s[0]) {
      TrimLeftSuffix(s[1..]);
    }
  }

  lemma ParseRdnWellFormed(raw: string)
    requires '\0' !in raw && ParseRdn(raw).Some?
    ensures WellFormedRdn(ParseRdn(raw).value)
  {
    TrimMembers(raw);
    var p := Trim(raw);
    var eq := FirstUnescaped(p, '=');
    assert forall c :: c in p[eq + 1..] ==> c in p;
    UnescapeNoNul(p[eq + 1..]);
    LowerIdempotent(TrimSpace(p[..eq]));
  }

  lemma {:induction false} ParsePartsWellFormed(parts: seq<string>)
    requires (forall p :: p in parts ==> '\0' !in p) && ParseParts(parts).Some?
    ensures WellFormed(ParseParts(parts).value) && |ParseParts(parts).value| == |parts|
  {
    if parts != [] {
      ParseRdnWellFormed(parts[0]);
      ParsePartsWellFormed(parts[1..]);
    }
  }

  lemma ParsedIsWellFormed(s: string)
    requires ParseDN(s).Some?
    ensures WellFormed(ParseDN(s).value) && ParseDN(s).value != []
  {
    SplitMembers(s, ',');
    ParsePartsWellFormed(Split(s, ','));
  }

  // ---------------------------------------------------------------------------
  // The parent DN by re-parsing
  // ---------------------------------------------------------------------------

  /** What parentDN re-parses: the printed form after its first unescaped comma. */
  function ReparsedParent(d: DN): Option<DN> {
    var s := String(d);
    var k := FirstUnescaped(s, ',');
    if k >= |s| then None else ParseDN(s[k + 1..])
  }

  lemma StringTail(d: DN)
    requires WellFormed(d) && |d| >= 2
    ensures String(d) == RdnText(d[0]) + ([','] + String(d[1..]))
    ensures FirstUnescaped(String(d), ',') == |RdnText(d[0])|
  {
    var h, t := RdnText(d[0]), String(d[1..]);
    RdnTextClean(d[0]);
    assert Texts(d)[1..] == Texts(d[1..]) && Texts(d)[0] == h;
    assert ([','] + t)[0] == ',';
    CleanIndex(h, [','] + t, ',');
  }

  lemma ReparsedAt(d: DN, head: string, tail: string)
    requires String(d) == head + ([','] + tail) && FirstUnescaped(String(d), ',') == |head|
    ensures ReparsedParent(d) == ParseDN(tail)
  {
    hide String, FirstUnescaped, ParseDN;
    Around(head, ',', tail);
  }

  /** Re-parsing behind the first unescaped comma drops exactly the leaf RDN. */
  lemma ReparsedParentDropsLeaf(d: DN)
    requires WellFormed(d) && d != []
    ensures |d| == 1 ==> ReparsedParent(d) == None
    ensures |d| >= 2 ==> (ReparsedParent(d) == Some(d[1..]) <==> TabFree(d[1..]))
  {
    if |d| == 1 {
      RdnTextClean(d[0]);
      CleanIndex(RdnText(d[0]), "", ',');
    } else {
      StringTail(d);
      ReparsedAt(d, RdnText(d[0]), String(d[1..]));
      hide String, RdnText, FirstUnescaped, ParseDN, ReparsedParent;
      ParsePrintedDN(d[1..]);
    }
  }

  // ---------------------------------------------------------------------------
  // The loops
  // ---------------------------------------------------------------------------

  /** FirstUnescaped of the rest of a scan that may have just passed a backslash. */
  function Resume(s: string, sep: char, esc: bool): nat {
    if esc && s != "" then 1 + FirstUnescaped(s[1..], sep) else FirstUnescaped(s, sep)
  }

  lemma ResumeStep(s: string, sep: char, esc: bool)
    requires s != "" && sep != '\\'
    ensures esc ==> Resume(s, sep, esc) == 1 + Resume(s[1..], sep, false)
    ensures !esc && s[0] == '\\' ==> Resume(s, sep, esc) == 1 + Resume(s[1..], sep, true)
    ensures !esc && s[0] == sep ==> Resume(s, sep, esc) == 0
    ensures !esc && s[0] != '\\' && s[0] != sep ==> Resume(s, sep, esc) == 1 + Resume(s[1..], sep, false)
  {
    if |s| > 1 {
      assert s[2..] == s[1..][1..];
    }
  }

  /** ResumeStep at position i of a longer text. */
  lemma ScanStep(s: string, sep: char, i: nat, esc: bool)
    requires i < |s| && sep != '\\'
    ensures esc ==> Resume(s[i..], sep, esc) == 1 + Resume(s[i + 1..], sep, false)
    ensures !esc && s[i] == '\\' ==> Resume(s[i..], sep, esc) == 1 + Resume(s[i + 1..], sep, true)
    ensures !esc && s[i] == sep ==> Resume(s[i..], sep, esc) == 0
    ensures !esc && s[i] != '\\' && s[i] != sep ==> Resume(s[i..], sep, esc) == 1 + Resume(s[i + 1..], sep, false)
    ensures Resume(s[i + 1..], sep, false) == FirstUnescaped(s[i + 1..], sep)
  {
    ResumeStep(s[i..], sep, esc);
    assert s[i..][1..] == s[i + 1..];
  }

  method IndexUnescaped(s: string, sep: char) returns (k: int)
    requires sep != '\\'
    ensures k == if FirstUnescaped(s, sep) < |s| then FirstUnescaped(s, sep) else -1
  {
    var esc := false;
    assert s[0..] == s;
    for i := 0 to |s|
      invariant FirstUnescaped(s, sep) == i + Resume(s[i..], sep, esc)
    {
      ResumeStep(s[i..], sep, esc);
      assert s[i..][1..] == s[i + 1..];
      if esc {
        esc := false;
        continue;
      }
      if s[i] == '\\' {
        esc := true;
        continue;
      }
      if s[i] == sep {
        return i;
      }
    }
    k := -1;
  }

  lemma SplitAt(s: string, sep: char, start: nat, i: nat, parts: seq<string>)
    requires start <= i < |s| && FirstUnescaped(s[start..], sep) == i - start
    ensures parts + Split(s[start..], sep) == parts + [s[start..i]] + Split(s[i + 1..], sep)
  {
    hide FirstUnescaped;
    var u := s[start..];
    assert Split(u, sep) == [u[..i - start]] + Split(u[i - start + 1..], sep);
    hide Split;
    assert u[..i - start] == s[start..i] && u[i - start + 1..] == s[i + 1..];
    ConcatAssoc(parts, [s[start..i]], Split(s[i + 1..], sep));
  }

  lemma ResumeEnd(sep: char, esc: bool)
    ensures Resume("", sep, esc) == 0
  {
  }

  lemma SplitEnd(s: string, sep: char, start: nat)
    requires start <= |s| && FirstUnescaped(s[start..], sep) == |s| - start
    ensures Split(s[start..], sep) == [s[start..]]
  {
  }

  method SplitUnescaped(s: string, sep: char) returns (parts: seq<string>)
    requires sep != '\\'
    ensures parts == Split(s, sep)
  {
    parts := [];
    var start := 0;
    var esc := false;
    assert s[0..] == s && [] + Split(s, sep) == Split(s, sep);
    assert FirstUnescaped(s[0..], sep) == Resume(s[0..], sep, false);
    hide Split, FirstUnescaped, Resume;
    for i := 0 to |s|
      invariant 0 <= start <= i
      invariant FirstUnescaped(s[start..], sep) == i - start + Resume(s[i..], sep, esc)
      invariant parts + Split(s[start..], sep) == Split(s, sep)
    {
      ScanStep(s, sep, i, esc);
      if esc {
        esc := false;
        continue;
      }
      if s[i] == '\\' {
        esc := true;
        continue;
      }
      if s[i] == sep {
        SplitAt(s, sep, start, i, parts);
        parts := parts + [s[start..i]];
        start := i + 1;
      }
    }
    assert s[|s|..] == "";
    ResumeEnd(sep, esc);
    SplitEnd(s, sep, start);
    parts := parts + [s[start..]];
  }

  method EscapeAttributeValue(v: string) returns (r: string)
    ensures r == Escape(v)
    ensures '\0' !in v ==> Unescape(r) == Some(v)
  {
    r := "";
    for i := 0 to |v|
      invariant r == EscapeUpTo(v, i)
    {
      var c := v[i];
      if c == '\0' {
        r := r + "\\00";
      } else if NeedsEscape(c) {
        r := r + ['\\', c];
      } else if c == ' ' && (i == 0 || i + 1 == |v|) {
        r := r + "\\ ";
      } else if c == '#' && i == 0 {
        r := r + "\\#";
      } else {
        r := r + [c];
      }
    }
    if '\0' !in v {
      UnescapeEscape(v);
    }
  }

  function AppendTo(b: string, r: Option<string>): Option<string> {
    match r case None => None case Some(t) => Some(b + t)
  }

  lemma UnescapeAt(s: string, i: nat, b: string)
    requires i < |s|
    ensures Token(s[i..]).None? ==> AppendTo(b, Unescape(s[i..])) == None
    ensures Token(s[i..]).Some? ==> var (n, c) := Token(s[i..]).value;
              AppendTo(b, Unescape(s[i..])) == AppendTo(b + [c], Unescape(s[i + n..]))
  {
    if Token(s[i..]).Some? {
      var (n, c) := Token(s[i..]).value;
      UnescapeFirst(s[i..]);
      assert s[i..][n..] == s[i + n..];
      hide Token, Unescape;
      if Unescape(s[i + n..]).Some? {
        ConcatAssoc(b, [c], Unescape(s[i + n..]).value);
      }
    }
  }

  lemma TokenAt(s: string, i: nat)
    requires i < |s|
    ensures Token(s[i..]) ==
            if s[i] != '\\' then Some((1, s[i]))
            else if i + 1 >= |s| then None
            else if i + 2 < |s| && IsHex(s[i + 1]) && IsHex(s[i + 2]) then
              var v := HexVal(s[i + 1]).value * 16 + HexVal(s[i + 2]).value;
              if v == 0 then None else Some((3, v as char))
            else if EscapableChar(s[i + 1]) then Some((2, s[i + 1]))
            else None
  {
  }

  lemma AppendNothing(r: Option<string>)
    ensures AppendTo("", r) == r && AppendTo("", None) == None
  {
    if r.Some? { assert "" + r.value == r.value; }
  }

  lemma UnescapeDone(b: string)
    ensures AppendTo(b, Unescape("")) == Some(b)
  {
    assert b + "" == b;
  }

  method UnescapeValue(s: string) returns (r: Option<string>)
    ensures r == if Unescape(s).Some? && ValidUtf8(Unescape(s).value) then Unescape(s) else None
  {
    hide Token, Unescape, ValidUtf8, AppendTo, HexVal, EscapableChar;
    var b := "";
    var i := 0;
    assert s[0..] == s;
    AppendNothing(Unescape(s));
    while i < |s|
      invariant 0 <= i <= |s|
      invariant Unescape(s) == AppendTo(b, Unescape(s[i..]))
    {
      UnescapeAt(s, i, b);
      TokenAt(s, i);
      if s[i] != '\\' {
        b := b + [s[i]];
        i := i + 1;
        continue;
      }
      if i + 1 >= |s| {
        return None;
      }
      if i + 2 < |s| && IsHex(s[i + 1]) && IsHex(s[i + 2]) {
        var v := HexVal(s[i + 1]).value * 16 + HexVal(s[i + 2]).value;
        if v == 0 {
          return None;
        }
        b := b + [v as char];
        i := i + 3;
        continue;
      }
      if !EscapableChar(s[i + 1]) {
        return None;
      }
      b := b + [s[i + 1]];
      i := i + 2;
    }
    assert s[i..] == "";
    UnescapeDone(b);
    if !ValidUtf8(b) {
      return None;
    }
    r := Some(b);
  }

  method TrimRDNWhitespace(s0: string) returns (s: string)
    ensures s == Trim(s0)
  {
    s := s0;
    while s != "" && IsBlank(s[0])
      invariant TrimLeft(s) == TrimLeft(s0)
      decreases |s|
    {
      s := s[1..];
    }
    while |s| > 0 && IsBlank(s[|s| - 1])
      invariant TrimRight(s) == Trim(s0)
      decreases |s|
    {
      var escapes := 0;
      var i := |s| - 2;
      while i >= 0 && s[i] == '\\'
        invariant -1 <= i <= |s| - 2 && 0 <= escapes
        invariant TrailingSlashes(s[..|s| - 1]) == escapes + TrailingSlashes(s[..i + 1])
      {
        assert s[..i + 1][..i] == s[..i];
        escapes := escapes + 1;
        i := i - 1;
      }
      if escapes % 2 == 1 {
        break;
      }
      s := s[..|s| - 1];
    }
  }

  /** One round of the parse loop: trim, find the '=', check the attribute, unescape the value. */
  method ParseOne(raw: string) returns (r: Option<Rdn>)
    ensures r == ParseRdn(raw)
  {
    var p := TrimRDNWhitespace(raw);
    var eq := IndexUnescaped(p, '=');
    if eq <= 0 {
      return None;
    }
    var attr := Lower(TrimSpace(p[..eq]));
    if !ValidAttr(attr) {
      return None;
    }
    var plus := IndexUnescaped(p[eq + 1..], '+');
    if plus >= 0 {
      return None;
    }
    var v := UnescapeValue(p[eq + 1..]);
    if v.None? {
      return None;
    }
    r := Some(Rdn(attr, v.value));
  }

  lemma ParsePartsAt(parts: seq<string>, i: nat)
    requires i < |parts|
    ensures ParseParts(parts[i..]) ==
            if ParseRdn(parts[i]).Some? && ParseParts(parts[i + 1..]).Some?
            then Some([ParseRdn(parts[i]).value] + ParseParts(parts[i + 1..]).value) else None
  {
    assert parts[i..][1..] == parts[i + 1..] && parts[i..][0] == parts[i];
  }

  /** ParseDN as the repository runs it: split, then one RDN at a time. */
  method Parse(s: string) returns (r: Option<DN>)
    ensures r == ParseDN(s)
    ensures r.Some? ==> WellFormed(r.value) && r.value != []
  {
    if s == "" || '\0' in s {
      return None;
    }
    var parts := SplitUnescaped(s, ',');
    if ParseDN(s).Some? {
      ParsedIsWellFormed(s);
    }
    hide ParseRdn, WellFormedRdn, Split;
    var out: DN := [];
    assert parts[0..] == parts && (ParseParts(parts).Some? ==> [] + ParseParts(parts).value == ParseParts(parts).value);
    for i := 0 to |parts|
      invariant ParseParts(parts) == match ParseParts(parts[i..]) case None => None case Some(t) => Some(out + t)
    {
      ParsePartsAt(parts, i);
      hide ParseParts;
      var one := ParseOne(parts[i]);
      if one.None? {
        return None;
      }
      ghost var tail := ParseParts(parts[i + 1..]);
      assert tail.Some? ==> out + ([one.value] + tail.value) == out + [one.value] + tail.value;
      out := out + [one.value];
    }
    assert parts[|parts|..] == [] && out + [] == out;
    r := Some(out);
  }
}
