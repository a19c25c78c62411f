// Access control instructions by their grammar: every instruction, allow or deny, survives
// being written and read; and a text is read as an instruction exactly when the grammar
// derives it.
module AciGrammar {
  import opened Text
  import opened DnSyntax
  import opened Acis
  import opened AciRoundTrip
  import DnSpellings

  // ---------------------------------------------------------------------------
  // Writing any instruction
  // ---------------------------------------------------------------------------

  function AttrClauseText(mode: AttrMode, attrs: seq<string>): string {
    match mode
    case NoAttrs => ""
    case AllAttrs => "(targetattr=\"*\")"
    case AllowList => "(targetattr=\"" + (JoinBars(attrs) + "\")")
    case DenyList => "(targetattr!=\"" + (JoinBars(attrs) + "\")")
  }

  function Written(p: ParsedACI): string {
    "(target=\"ldap:///"
    + (AciEscape(String(p.target)) + ("\")" + (AttrClauseText(p.mode, p.attrs) + ("(version 3.0; acl \""
        + (AciEscape(p.id) + ((if p.deny then "\"; deny (" else "\"; allow (")
          + (Join(PermWords(p.perms)) + (") " + (WhoText(p.subject) + ";)")))))))))
  }

  predicate AttrsInLimits(sc: Schema, mode: AttrMode, attrs: seq<string>) {
    match mode
    case NoAttrs => attrs == []
    case AllAttrs => attrs == []
    case AllowList => 0 < |attrs| <= MAX_ATTRS && "*" !in attrs && forall i :: 0 <= i < |attrs| ==>
        AcceptedAttr(sc, attrs[i])
    case DenyList => 0 < |attrs| <= MAX_ATTRS && forall i :: 0 <= i < |attrs| ==> AcceptedAttr(sc, attrs[i])
  }

  predicate Writable(sc: Schema, p: ParsedACI) {
    && ValidId(p.id) && ValidUtf8(p.id)
    && WellFormed(p.target) && p.target != []
    && AttrsInLimits(sc, p.mode, p.attrs)
    && 0 < |p.perms| <= MAX_PERMS
    && (HasDN(p.subject) ==> WellFormed(p.subject.dn) && p.subject.dn != [])
    && |Written(p)| <= MAX_TEXT
  }

  function ClauseTokens(mode: AttrMode, attrs: seq<string>): seq<Token> {
    match mode
    case NoAttrs => []
    case AllAttrs => AttrTokens("*", false)
    case AllowList => AttrTokens(JoinBars(attrs), false)
    case DenyList => AttrTokens(JoinBars(attrs), true)
  }

  lemma AcceptedListable(sc: Schema, attrs: seq<string>)
    requires forall i :: 0 <= i < |attrs| ==> AcceptedAttr(sc, attrs[i])
    ensures forall i :: 0 <= i < |attrs| ==> Listable(attrs[i])
  {
    forall i | 0 <= i < |attrs| ensures Listable(attrs[i]) {
      if attrs[i] != "*" { NameFacts(attrs[i]); }
    }
  }

  lemma ThenNothing(r: Option<seq<Token>>)
    ensures Then([], r) == r
  {
    if r.Some? { assert [] + r.value == r.value; }
  }

  lemma LexClause(sc: Schema, mode: AttrMode, attrs: seq<string>, rest: string)
    requires AttrsInLimits(sc, mode, attrs)
    ensures Lex(AttrClauseText(mode, attrs) + rest) == Then(ClauseTokens(mode, attrs), Lex(rest))
  {
    if mode == NoAttrs {
      ThenNothing(Lex(rest));
      assert "" + rest == rest;
    } else if mode == AllAttrs {
      hide Lex, Plain, AttrTokens, Then;
      PlainStar();
      LexAttrs("*", false, rest);
      StarLiteral(rest);
    } else {
      hide Lex, Plain, AttrTokens, Then, AttrList, JoinBars, AcceptedAttr, Listable;
      AcceptedListable(sc, attrs);
      ListRead(sc, attrs, mode == DenyList);
      LexAttrs(JoinBars(attrs), mode == DenyList, rest);
      AttrAssoc(JoinBars(attrs), rest);
    }
  }

  function BodyIn(p: ParsedACI): Body { Body(p.id, p.deny, p.perms, p.subject) }

  lemma ValidIdHasNoReturn(id: string)
    requires ValidId(id)
    ensures '\r' !in id
  {
  }

  lemma LexWritten(sc: Schema, p: ParsedACI)
    requires Writable(sc, p)
    ensures Lex(Written(p)) ==
            Some(TargetTokens(p.target) + (ClauseTokens(p.mode, p.attrs) + BodyTokens(BodyIn(p))))
  {
    hide Lex, String, WellFormed, AttrClauseText, ClauseTokens, BodyTokens, AttrsInLimits, WhoText, AciEscape, ValidId,
        BodyRest, ValidUtf8, Quotes;
    var body := "(version 3.0; acl \"" + (AciEscape(p.id) + BodyRest(BodyIn(p)));
    ValidIdHasNoReturn(p.id);
    EscapedQuotes(p.id);
    LexBody(AciEscape(p.id), BodyIn(p));
    RestIs(p);
    LexClause(sc, p.mode, p.attrs, body);
    StringUtf8(p.target);
    LexTarget(String(p.target), AttrClauseText(p.mode, p.attrs) + body);
  }

  lemma RestIs(p: ParsedACI)
    ensures BodyRest(BodyIn(p)) ==
            (if p.deny then "\"; deny (" else "\"; allow (")
            + (Join(PermWords(p.perms)) + (") " + (WhoText(p.subject) + ";)")))
  {
  }

  lemma ClauseRead(sc: Schema, mode: AttrMode, attrs: seq<string>, rest: seq<Token>, q: Partial)
    requires AttrsInLimits(sc, mode, attrs) && mode != NoAttrs && q.attrs.None?
    ensures Clause(sc, ClauseTokens(mode, attrs) + rest, q) == Some((q.(attrs := Some((mode, attrs))), rest))
  {
    hide AttrList, JoinBars, Lower, AcceptedAttr, Listable;
    ClauseNames();
    var v := if mode == AllAttrs then "*" else JoinBars(attrs);
    var negate := mode == DenyList;
    if mode == AllAttrs {
      StarList(sc);
    } else {
      AcceptedListable(sc, attrs);
      ListRead(sc, attrs, negate);
    }
    ClauseTail(v, negate, rest);
    var ts := ClauseTokens(mode, attrs) + rest;
    assert ts[2..] == AttrTokens(v, negate)[2..] + rest && ts[0] == LParen && ts[1] == Word("targetattr");
  }

  /** What the clauses of a written instruction fill in. */
  lemma WrittenRead(sc: Schema, p: ParsedACI)
    requires Writable(sc, p)
    ensures var t := ParseDN(Unix(String(p.target)));
      Clauses(sc, TargetTokens(p.target) + (ClauseTokens(p.mode, p.attrs) + BodyTokens(BodyIn(p))),
        Partial(None, None, None)) ==
      if t.Some? && ReadSubject(p.subject).Some?
      then Some(Partial(t, if p.mode == NoAttrs then None else Some((p.mode, p.attrs)), Some(BodyRead(BodyIn(p)))))
      else None
  {
    hide Clause, ParseDN, ReadSubject, AttrsInLimits, ValidId, WellFormed, Unix, String, TargetTokens, ClauseTokens,
        BodyTokens, Written, ValidUtf8;
    var q0 := Partial(None, None, None);
    var b := BodyIn(p);
    var us := ClauseTokens(p.mode, p.attrs) + BodyTokens(b);
    TargetStep(sc, p.target, us, q0);
    var t := ParseDN(Unix(String(p.target)));
    if t.Some? {
      var q1 := q0.(target := t);
      var q2 := if p.mode == NoAttrs then q1 else q1.(attrs := Some((p.mode, p.attrs)));
      BodyStep(sc, b, q2);
      if ReadSubject(p.subject).Some? {
        var q3 := q2.(body := Some(BodyRead(b)));
        assert Clauses(sc, [], q3) == Some(q3);
        assert Clauses(sc, BodyTokens(b), q2) == Some(q3);
      }
      if p.mode == NoAttrs {
        NoTokens(p.attrs);
        assert us == BodyTokens(b);
      } else {
        ClauseRead(sc, p.mode, p.attrs, BodyTokens(b), q1);
        SomeTokens(p.mode, p.attrs);
        assert Clauses(sc, us, q1) == Clauses(sc, BodyTokens(b), q2);
      }
    }
  }

  lemma NoTokens(attrs: seq<string>)
    ensures ClauseTokens(NoAttrs, attrs) == []
  {
  }

  lemma SomeTokens(mode: AttrMode, attrs: seq<string>)
    ensures mode != NoAttrs ==> ClauseTokens(mode, attrs) != []
  {
  }

  /**
   * Every instruction within the limits, allow or deny, with or without an attribute clause,
   * is read back as itself, exactly when its DNs survive.
   */
  lemma WrittenRoundTrip(sc: Schema, p: ParsedACI)
    requires Writable(sc, p)
    ensures ParseAci(sc, Written(p)) == Some(p) <==>
              Survives(p.target) && (HasDN(p.subject) ==> Survives(p.subject.dn))
  {
    hide Lex, Clauses, Survives, ParseDN, String, Unix, AttrsInLimits, ValidId, WellFormed, TargetTokens, ClauseTokens,
        BodyTokens, Written, ValidUtf8;
    WrittenRead(sc, p);
    LexWritten(sc, p);
    NotEmpty(p);
    Unlisted(sc, p.mode, p.attrs);
    DnRoundTrip(p.target);
    if HasDN(p.subject) { DnRoundTrip(p.subject.dn); }
  }

  lemma NotEmpty(p: ParsedACI)
    ensures Written(p) != ""
  {
  }

  lemma Unlisted(sc: Schema, mode: AttrMode, attrs: seq<string>)
    requires AttrsInLimits(sc, mode, attrs)
    ensures mode == NoAttrs || mode == AllAttrs ==> attrs == []
  {
  }

  // ---------------------------------------------------------------------------
  // Quoted strings and tokens
  // ---------------------------------------------------------------------------

  /** How one character of a quoted string may be written: as it is, behind a backslash, or in hexadecimal. */
  ghost predicate PieceOf(p: string, c: char) {
    || (p == [c] && c != '"' && c != '\\')
    || (p == ['\\', c] && (c == '"' || c == '\\'))
    || (|p| == 3 && p[0] == '\\' && HexPair(p[1], p[2], c))
  }

  /** q is some spelling of v between quotes. */
  ghost predicate Spelling(q: string, v: string)
    decreases v
  {
    if v == "" then q == ""
    else exists n: nat :: n <= |q| && PieceOf(q[..n], v[0]) && Spelling(q[n..], v[1..])
  }

  lemma PieceRead(p: string, c: char, rest: string)
    requires PieceOf(p, c)
    ensures Unquote(p + rest) == Cons(c, Unquote(rest)) && p != "" && p[0] != '"'
  {
    hide HexPair, HexVal;
    var s := p + rest;
    assert s[|p|..] == rest && forall i :: 0 <= i < |p| ==> s[i] == p[i];
    if |p| == 3 {
      HexPairIs(p[1], p[2], c);
      NotQuoted(p[1]);
    }
  }

  lemma NotQuoted(c: char)
    requires IsHex(c)
    ensures c != '\\' && c != '"'
  {
  }

  /** One step of unquoting: the closing quote, or a piece. */
  lemma FirstPiece(s: string) returns (n: nat)
    requires Unquote(s).Some? && s[0] != '"'
    ensures n <= |s| && Unquote(s[n..]).Some? && Unquote(s).value.0 != ""
    ensures PieceOf(s[..n], Unquote(s).value.0[0])
    ensures Unquote(s) == Cons(Unquote(s).value.0[0], Unquote(s[n..]))
  {
    hide HexPair, HexVal;
    if s[0] != '\\' {
      n := 1;
    } else if s[1] == '\\' || s[1] == '"' {
      n := 2;
    } else {
      n := 3;
      HexPairIs(s[1], s[2], Unquote(s).value.0[0]);
      assert s[..3][1] == s[1] && s[..3][2] == s[2];
    }
  }

  lemma {:induction false} SpellingRead(q: string, v: string, rest: string)
    requires Spelling(q, v)
    ensures Unquote(q + (['"'] + rest)) == Some((v, rest))
    decreases v
  {
    hide PieceOf;
    var t := ['"'] + rest;
    if v == "" {
      assert q + t == t && t[1..] == rest;
    } else {
      hide Unquote;
      var n: nat :| n <= |q| && PieceOf(q[..n], v[0]) && Spelling(q[n..], v[1..]);
      SpellingRead(q[n..], v[1..], rest);
      assert q + t == q[..n] + (q[n..] + t);
      PieceRead(q[..n], v[0], q[n..] + t);
      assert v == [v[0]] + v[1..];
    }
  }

  /** Unquoting reads nothing but spellings. */
  lemma {:induction false} SpellingOf(s: string) returns (q: string)
    requires Unquote(s).Some?
    ensures s == q + (['"'] + Unquote(s).value.1) && Spelling(q, Unquote(s).value.0)
    decreases |s|
  {
    if s[0] == '"' {
      q := "";
      assert s == [s[0]] + s[1..] && "" + s == s;
    } else {
      var n := FirstPiece(s);
      NotNothing(s[..n], Unquote(s).value.0[0]);
      hide Unquote, PieceOf;
      var t := SpellingOf(s[n..]);
      q := s[..n] + t;
      assert q[..n] == s[..n] && q[n..] == t;
      assert s == s[..n] + s[n..];
      ConcatAssoc(s[..n], t, ['"'] + Unquote(s[n..]).value.1);
    }
  }

  lemma NotNothing(p: string, c: char)
    requires PieceOf(p, c)
    ensures p != ""
  {
  }

  // ---------------------------------------------------------------------------
  // Tokens
  // ---------------------------------------------------------------------------

  predicate White(c: char) { c in " \t\r\n" }

  predicate Stops(c: char) { c in " \t\r\n();,=!\"" }

  lemma StopsIs(c: char)
    ensures White(c) <==> IsAciSpace(c)
    ensures Stops(c) <==> IsDelim(c)
    ensures Punctuation(c).Some? || c == '"' ==> !White(c) && Stops(c)
  {
  }

  /** How a token is written. */
  ghost predicate TokenText(t: Token, s: string) {
    match t
    case LParen => s == "(" case RParen => s == ")" case Semi => s == ";"
    case Comma => s == "," case Equals => s == "=" case Bang => s == "!"
    case Word(w) => s == w && w != "" && forall i :: 0 <= i < |w| ==> !Stops(w[i])
    case QString(v) => ValidUtf8(v) && exists q :: s == ['"'] + (q + ['"']) && Spelling(q, v)
  }

  /** k characters of white space come first. */
  ghost predicate Gap(s: string, k: nat) { k <= |s| && forall i :: 0 <= i < k ==> White(s[i]) }

  /** A word goes on until something ends it. */
  ghost predicate Ended(t: Token, s: string, n: nat) { t.Word? ==> n >= |s| || Stops(s[n]) }

  /** s is ts written one after the other, with white space wherever it likes. */
  ghost predicate Spells(s: string, ts: seq<Token>)
    decreases ts
  {
    if ts == [] then Gap(s, |s|)
    else exists k: nat, n: nat ::
        Gap(s, k) && k <= n <= |s| && TokenText(ts[0], s[k..n]) && Ended(ts[0], s, n) && Spells(s[n..], ts[1..])
  }

  lemma {:induction false} LexSkip(s: string, k: nat)
    requires Gap(s, k)
    ensures Lex(s) == Lex(s[k..])
  {
    if k == 0 {
      assert s[0..] == s;
    } else {
      StopsIs(s[0]);
      LexSkip(s[1..], k - 1);
      assert s[1..][k - 1..] == s[k..];
    }
  }

  lemma {:induction false} WordEnds(s: string, n: nat)
    requires n <= |s| && (forall i :: 0 <= i < n ==> !Stops(s[i])) && (n == |s| || Stops(s[n]))
    ensures WordLength(s) == n
  {
    hide Stops, IsDelim;
    if s != "" { StopsIs(s[0]); }
    if n > 0 { WordEnds(s[1..], n - 1); }
  }

  lemma {:induction false} WordIs(s: string)
    ensures forall i :: 0 <= i < WordLength(s) ==> !Stops(s[i])
    ensures WordLength(s) == |s| || Stops(s[WordLength(s)])
  {
    hide Stops, IsDelim;
    if s != "" {
      StopsIs(s[0]);
      if !IsDelim(s[0]) { WordIs(s[1..]); }
    }
  }

  lemma WordFirst(w: string, s: string)
    requires w != "" && |w| <= |s| && s[..|w|] == w && (forall i :: 0 <= i < |w| ==> !Stops(w[i]))
    requires |w| == |s| || Stops(s[|w|])
    ensures Lex(s) == Then([Word(w)], Lex(s[|w|..]))
  {
    hide Stops, IsDelim, IsAciSpace, Punctuation, QuotedAt;
    assert forall i :: 0 <= i < |w| ==> s[i] == w[i];
    WordEnds(s, |w|);
    StopsIs(s[0]);
    assert s[0] == w[0];
    SpaceStops(s[0]);
  }

  lemma SpaceStops(c: char)
    ensures White(c) ==> Stops(c)
  {
  }

  lemma QuotedFirst(q: string, v: string, rest: string)
    requires Spelling(q, v) && ValidUtf8(v)
    ensures Lex(['"'] + (q + (['"'] + rest))) == Then([QString(v)], Lex(rest))
  {
    hide Lex, Unquote, Spelling, ValidUtf8;
    SpellingRead(q, v, rest);
    LexQuoted(q, v, rest);
  }

  lemma PunctuationText(t: Token, c: char)
    ensures Punctuation(c) == Some(t) <==> !t.Word? && !t.QString? && TokenText(t, [c])
  {
  }

  lemma PunctuationOne(t: Token, s: string)
    requires !t.Word? && !t.QString? && TokenText(t, s)
    ensures |s| == 1
  {
  }

  /** A token in front is lexed first. */
  lemma TokenRead(t: Token, s: string, n: nat)
    requires n <= |s| && TokenText(t, s[..n]) && Ended(t, s, n)
    ensures Lex(s) == Then([t], Lex(s[n..]))
  {
    var a, rest := s[..n], s[n..];
    assert s == a + rest;
    if t.Word? {
      hide Lex, Stops;
      WordFirst(t.text, s);
    } else if t.QString? {
      var q :| a == ['"'] + (q + ['"']) && Spelling(q, t.text);
      hide Lex, Spelling, ValidUtf8;
      QuotedFirst(q, t.text, rest);
      ConcatAssoc(q, ['"'], rest);
      ConcatAssoc(['"'], q + ['"'], rest);
    } else {
      hide Lex, TokenText, Punctuation;
      PunctuationOne(t, a);
      assert a == [a[0]];
      PunctuationText(t, a[0]);
      LexPunctuation(a[0], rest);
    }
  }

  /** What the lexer takes first is a token in front. */
  lemma FirstToken(s: string) returns (t: Token, n: nat)
    requires s != "" && !White(s[0]) && Lex(s).Some?
    ensures 0 < n <= |s| && TokenText(t, s[..n]) && Ended(t, s, n)
    ensures Lex(s) == Then([t], Lex(s[n..]))
  {
    StopsIs(s[0]);
    if Punctuation(s[0]).Some? {
      t, n := Punctuation(s[0]).value, 1;
      assert s[..1] == [s[0]];
      PunctuationText(t, s[0]);
    } else if s[0] == '"' {
      t, n := FirstQuoted(s);
    } else {
      n := WordLength(s);
      t := Word(s[..n]);
      WordIs(s);
    }
  }

  lemma FirstQuoted(s: string) returns (t: Token, n: nat)
    requires s != "" && s[0] == '"' && Lex(s).Some?
    ensures 0 < n <= |s| && TokenText(t, s[..n]) && t.QString? && Lex(s) == Then([t], Lex(s[n..]))
  {
    hide Unquote, Spelling, ValidUtf8;
    var r := Unquote(s[1..]).value;
    t, n := QString(r.0), |s| - |r.1|;
    var q := SpellingOf(s[1..]);
    QuoteParts(s, q, r.1);
  }

  lemma QuoteParts(s: string, q: string, rest: string)
    requires s != "" && s[0] == '"' && s[1..] == q + (['"'] + rest)
    ensures |rest| < |s| && s[..|s| - |rest|] == ['"'] + (q + ['"']) && s[|s| - |rest|..] == rest
  {
    ConcatAssoc(q, ['"'], rest);
    assert s == ['"'] + (q + ['"']) + rest;
  }

  function Blanks(s: string): (k: nat)
    ensures k <= |s| && (forall i :: 0 <= i < k ==> White(s[i])) && (k < |s| ==> !White(s[k]))
  {
    if s == "" || !White(s[0]) then 0 else 1 + Blanks(s[1..])
  }

  /** Whatever the lexer accepts spells its tokens. */
  lemma {:induction false} LexSpells(s: string)
    requires Lex(s).Some?
    ensures Spells(s, Lex(s).value)
    decreases |s|
  {
    var k := Blanks(s);
    LexSkip(s, k);
    var u := s[k..];
    if u == "" {
      assert Gap(s, |s|);
    } else {
      assert u[0] == s[k];
      var t, n := FirstToken(u);
      hide Lex, TokenText, White, Stops;
      LexSpells(u[n..]);
      assert u[..n] == s[k..k + n] && u[n..] == s[k + n..] && Gap(s, k);
      assert Ended(t, s, k + n);
      var ts := Lex(s).value;
      assert ts[0] == t && ts[1..] == Lex(u[n..]).value;
    }
  }

  lemma {:induction false} SpelledRead(s: string, ts: seq<Token>)
    requires Spells(s, ts)
    ensures Lex(s) == Some(ts)
    decreases ts
  {
    hide TokenText, White, Stops, Lex;
    if ts == [] {
      LexSkip(s, |s|);
      assert s[|s|..] == "";
      LexEmpty();
    } else {
      var k: nat, n: nat :|
        Gap(s, k) && k <= n <= |s| && TokenText(ts[0], s[k..n]) && Ended(ts[0], s, n) && Spells(s[n..], ts[1..]);
      LexSkip(s, k);
      var u := s[k..];
      assert u[..n - k] == s[k..n] && u[n - k..] == s[n..];
      TokenRead(ts[0], u, n - k);
      SpelledRead(s[n..], ts[1..]);
      assert ts == [ts[0]] + ts[1..];
    }
  }

  /** The lexer yields exactly the tokens that the text spells. */
  lemma LexExactly(s: string, ts: seq<Token>)
    ensures Lex(s) == Some(ts) <==> Spells(s, ts)
  {
    hide Lex, Spells;
    if Lex(s) == Some(ts) { LexSpells(s); }
    if Spells(s, ts) { SpelledRead(s, ts); }
  }

  // ---------------------------------------------------------------------------
  // Clauses
  // ---------------------------------------------------------------------------

  predicate Keyword(t: Token, w: string) { t.Word? && EqualFold(t.text, w) }

  /** An ldap URL without a host, and what follows. */
  predicate IsUrl(t: Token) { t.QString? && |t.text| >= 8 && EqualFold(t.text[..8], "ldap:///") }

  ghost predicate TargetForm(ts: seq<Token>, d: DN) {
    && |ts| == 5 && ts[0] == LParen && Keyword(ts[1], "target") && ts[2] == Equals && IsUrl(ts[3])
    && ParseDN(ts[3].text[8..]) == Some(d) && ts[4] == RParen
  }

  predicate DoubleBar(v: string, i: nat) { i + 1 < |v| && v[i] == '|' && v[i + 1] == '|' }

  /** v is the parts with double bars between them, each part ending where the first double bar begins. */
  ghost predicate BarList(v: string, parts: seq<string>)
    decreases parts
  {
    if parts == [] then false
    else if |parts| == 1 then v == parts[0] && forall i: nat :: !DoubleBar(v, i)
    else
      var n := |parts[0]|;
      && DoubleBar(v, n) && v[..n] == parts[0] && (forall i: nat :: i < n ==> !DoubleBar(v, i))
      && BarList(v[n + 2..], parts[1..])
  }

  /** A star, a descriptor with options, or a numeric OID with options; except for the star, of the schema. */
  ghost predicate Listed(sc: Schema, a: string) {
    a == "*" || (sc.known(a) && (DescriptorText(a) || OidText(a)))
  }

  predicate DescriptorText(a: string) {
    a != "" && IsLetter(a[0]) && forall i :: 0 <= i < |a| ==> IsLetter(a[i]) || IsDigit(a[i]) || a[i] in "-;"
  }

  ghost predicate OidText(a: string) {
    exists n: nat :: n <= |a| && DnSpellings.Numeric(a[..n]) && (n < |a| ==> a[n] == ';')
        && forall i :: n <= i < |a| ==> IsLetter(a[i]) || IsDigit(a[i]) || a[i] in "-;"
  }

  lemma ListedExactly(sc: Schema, a: string)
    ensures Listed(sc, a) <==> AcceptedAttr(sc, a)
  {
    OidExactly(a);
    hide OidText, AttrOid;
  }

  lemma OidExactly(a: string)
    ensures OidText(a) <==> AttrOid(a)
  {
    if AttrOid(a) {
      var n := CutAt(a);
      DnSpellings.TypeExactly(a[..n]);
      assert a[..n][0] == a[0];
      assert DnSpellings.Numeric(a[..n]);
    }
    if OidText(a) {
      var n: nat :| n <= |a| && DnSpellings.Numeric(a[..n]) && (n < |a| ==> a[n] == ';')
        && forall i :: n <= i < |a| ==> IsLetter(a[i]) || IsDigit(a[i]) || a[i] in "-;";
      DnSpellings.NumericExactly(a[..n]);
      DnSpellings.TypeExactly(a[..n]);
      FirstSemicolon(a, n);
      assert a[..n][0] == a[0];
    }
  }

  lemma FirstSemicolon(a: string, n: nat)
    requires n <= |a| && DnSpellings.DotsInside(a[..n]) && (n < |a| ==> a[n] == ';')
    ensures CutAt(a) == n
  {
    forall i | 0 <= i < n ensures a[i] != ';' { assert a[..n][i] == a[i]; }
  }

  /** One to 128 characters, no control character among them. */
  predicate IdForm(id: string) {
    1 <= |id| <= 128 && forall i :: 0 <= i < |id| ==> id[i] as int >= 32 && id[i] as int != 127
  }

  lemma IdExactly(id: string)
    ensures IdForm(id) <==> ValidId(id)
  {
  }

  /** The word for a permission. */
  function PermName(p: Permission): string {
    match p
    case Read => "read" case Search => "search" case Compare => "compare" case Add => "add"
    case Delete => "delete" case Write => "write" case ModDN => "moddn"
  }

  lemma PermNames(p: Permission)
    ensures PermName(p) == PermWord(p)
  {
  }

  /**
   * A list of parts: not too many, each accepted once trimmed; a star in a positive list
   * stands for all, otherwise the names are as listed.
   */
  ghost predicate PartsForm(sc: Schema, negate: bool, parts: seq<string>, mode: AttrMode, names: seq<string>) {
    && |parts| <= 64
    && (forall i :: 0 <= i < |parts| ==> Listed(sc, TrimSpace(parts[i])))
    && (if !negate && exists i :: 0 <= i < |parts| && TrimSpace(parts[i]) == "*" then mode == AllAttrs && names == []
        else mode == (if negate then DenyList else AllowList) && |names| == |parts|
             && forall i :: 0 <= i < |parts| ==> names[i] == TrimSpace(parts[i]))
  }

  ghost predicate ListForm(sc: Schema, negate: bool, v: string, mode: AttrMode, names: seq<string>) {
    exists parts: seq<string> :: BarList(v, parts) && PartsForm(sc, negate, parts, mode, names)
  }

  ghost predicate AttrForm(sc: Schema, ts: seq<Token>, mode: AttrMode, names: seq<string>) {
    exists negate: bool, v: string ::
      && ListForm(sc, negate, v, mode, names)
      && |ts| == (if negate then 6 else 5) && Keyword(ts[1], "targetattr")
      && ts == [LParen, ts[1]] + (if negate then [Bang] else []) + [Equals, QString(v), RParen]
  }

  ghost predicate SubjectForm(ts: seq<Token>, s: Subject) {
    && |ts| == 3 && ts[1] == Equals && IsUrl(ts[2])
    && var rest := ts[2].text[8..];
      match s
      case AllUsers => Keyword(ts[0], "userdn") && EqualFold(rest, "all")
      case Anyone => Keyword(ts[0], "userdn") && EqualFold(rest, "anyone")
      case Self => Keyword(ts[0], "userdn") && EqualFold(rest, "self")
      case UserDN(d) => Keyword(ts[0], "userdn") && ParseDN(rest) == Some(d)
      case GroupDN(d) => Keyword(ts[0], "groupdn") && ParseDN(rest) == Some(d)
  }

  /** The permissions with commas between them, words in any case. */
  ghost predicate PermsForm(ts: seq<Token>, perms: seq<Permission>) {
    && perms != [] && |ts| == 2 * |perms| - 1
    && (forall i :: 0 <= i < |perms| ==> Keyword(ts[2 * i], PermName(perms[i])))
    && forall i :: 0 <= i < |perms| - 1 ==> ts[2 * i + 1] == Comma
  }

  ghost predicate BodyForm(ts: seq<Token>, b: Body) {
    && |ts| >= 15 && ts[0] == LParen && Keyword(ts[1], "version") && ts[2] == Word("3.0") && ts[3] == Semi
    && Keyword(ts[4], "acl") && ts[5] == QString(b.id) && IdForm(b.id) && ts[6] == Semi
    && Keyword(ts[7], if b.deny then "deny" else "allow") && ts[8] == LParen
    && var k := |ts| - 6;
       && PermsForm(ts[9..k], b.perms) && |b.perms| <= 16 && ts[k] == RParen
       && SubjectForm(ts[k + 1..k + 4], b.subject) && ts[k + 4] == Semi && ts[k + 5] == RParen
  }

  /** The clause adds to what is filled in, in a place that was empty. */
  ghost predicate Adds(sc: Schema, ts: seq<Token>, p: Partial, q: Partial) {
    || (p.target.None? && q.target.Some? && q == p.(target := q.target) && TargetForm(ts, q.target.value))
    || (p.attrs.None? && q.attrs.Some? && q == p.(attrs := q.attrs)
        && AttrForm(sc, ts, q.attrs.value.0, q.attrs.value.1))
    || (p.body.None? && q.body.Some? && q == p.(body := q.body) && BodyForm(ts, q.body.value))
  }

  /** ts is a series of clauses that fill in p one after the other. */
  ghost predicate Derives(sc: Schema, ts: seq<Token>, p: Partial, q: Partial)
    decreases |ts|
  {
    if ts == [] then p == q
    else exists n: nat, p' :: 0 < n <= |ts| && Adds(sc, ts[..n], p, p') && Derives(sc, ts[n..], p', q)
  }

  // Permissions and subjects.

  lemma PermIs(w: string, p: Permission)
    ensures PermOf(Lower(w)) == Some(p) <==> EqualFold(w, PermWord(p))
  {
    PermWordPlain(Read);
    PermWordPlain(Search);
    PermWordPlain(Compare);
    PermWordPlain(Permission.Add);
    PermWordPlain(Delete);
    PermWordPlain(Write);
    PermWordPlain(ModDN);
    PermWordPlain(p);
    hide Lower;
  }

  lemma {:induction false} PermsRead(ts: seq<Token>, perms: seq<Permission>, acc: seq<Permission>, rest: seq<Token>)
    requires PermsForm(ts, perms) && |acc| + |perms| <= MAX_PERMS
    ensures PermList(ts + ([RParen] + rest), acc) == Some((acc + perms, rest))
    decreases perms
  {
    hide Lower, PermWord, PermOf, PermName;
    var us := ts + ([RParen] + rest);
    PermNames(perms[0]);
    assert us[0] == ts[2 * 0] && Keyword(ts[2 * 0], PermName(perms[0]));
    PermIs(us[0].text, perms[0]);
    if |perms| == 1 {
      assert us[1] == RParen && us[2..] == rest && acc + [perms[0]] == acc + perms;
    } else {
      assert us[1] == ts[2 * 0 + 1] == Comma;
      assert us[2..] == ts[2..] + ([RParen] + rest);
      forall i | 0 <= i < |perms| - 1 ensures Keyword(ts[2..][2 * i], PermName(perms[1..][i])) {
        assert ts[2..][2 * i] == ts[2 * (i + 1)];
      }
      forall i | 0 <= i < |perms| - 2 ensures ts[2..][2 * i + 1] == Comma {
        assert ts[2..][2 * i + 1] == ts[2 * (i + 1) + 1];
      }
      PermsRead(ts[2..], perms[1..], acc + [perms[0]], rest);
      assert acc + [perms[0]] + perms[1..] == acc + perms;
    }
  }

  lemma {:induction false} PermsFound(ts: seq<Token>, acc: seq<Permission>) returns (k: nat, perms: seq<Permission>)
    requires PermList(ts, acc).Some?
    ensures PermList(ts, acc).value.0 == acc + perms && |acc| + |perms| <= MAX_PERMS
    ensures k < |ts| && PermsForm(ts[..k], perms) && ts[k] == RParen && ts[k + 1..] == PermList(ts, acc).value.1
    decreases ts
  {
    hide Lower, PermWord, PermOf, PermName;
    var p := PermOf(Lower(ts[0].text)).value;
    PermIs(ts[0].text, p);
    PermNames(p);
    if ts[1] == Comma {
      var l, ps := PermsFound(ts[2..], acc + [p]);
      k, perms := l + 2, [p] + ps;
      assert acc + [p] + ps == acc + perms;
      assert ts[..k][2..] == ts[2..][..l] && ts[2..][l] == ts[k] && ts[2..][l + 1..] == ts[k + 1..];
      forall i | 0 <= i < |perms| ensures Keyword(ts[..k][2 * i], PermName(perms[i])) {
        if i > 0 { assert ts[2..][..l][2 * (i - 1)] == ts[..k][2 * i]; }
      }
      forall i | 0 <= i < |perms| - 1 ensures ts[..k][2 * i + 1] == Comma {
        if i > 0 { assert ts[2..][..l][2 * (i - 1) + 1] == ts[..k][2 * i + 1]; }
      }
    } else {
      k, perms := 1, [p];
    }
  }

  lemma NoKeywordParses(s: string)
    requires EqualFold(s, "all") || EqualFold(s, "anyone") || EqualFold(s, "self") || s == ""
    ensures ParseDN(s) == None
  {
    if s != "" {
      assert forall i :: 0 <= i < |s| ==> LowerChar(s[i]) == Lower(s)[i];
      KeywordLetters(s);
      NoEquals(s);
    }
  }

  lemma KeywordLetters(s: string)
    requires EqualFold(s, "all") || EqualFold(s, "anyone") || EqualFold(s, "self")
    ensures forall i :: 0 <= i < |s| ==> IsLetter(s[i])
  {
    var w := if EqualFold(s, "all") then "all" else if EqualFold(s, "anyone") then "anyone" else "self";
    forall i | 0 <= i < |s| ensures IsLetter(s[i]) {
      assert Lower(s)[i] == Lower(w)[i] == w[i];
    }
  }

  lemma NoEquals(s: string)
    requires s != "" && forall i :: 0 <= i < |s| ==> IsLetter(s[i])
    ensures ParseDN(s) == None
  {
    PlainClean(s, ',');
    PlainClean(s, '=');
    CleanIndex(s, "", ',');
    CleanIndex(s, "", '=');
    assert TrimLeft(s) == s && TrimRight(s) == s;
    assert Split(s, ',') == [s];
    assert ParseRdn(s) == None;
  }

  lemma SubjectRead(ts: seq<Token>, s: Subject, rest: seq<Token>)
    ensures SubjectForm(ts, s) ==> SubjectClause(ts + rest) == Some((s, rest))
  {
    hide ParseDN, Lower;
    LowerKeys();
    KeywordsDiffer();
    if SubjectForm(ts, s) {
      var us := ts + rest;
      assert us[0] == ts[0] && us[1] == ts[1] && us[2] == ts[2] && us[3..] == rest;
      var u := ts[2].text[8..];
      if EqualFold(u, "all") || EqualFold(u, "anyone") || EqualFold(u, "self") || u == "" { NoKeywordParses(u); }
    }
  }

  lemma SubjectFound(ts: seq<Token>)
    requires SubjectClause(ts).Some?
    ensures SubjectForm(ts[..3], SubjectClause(ts).value.0) && ts[3..] == SubjectClause(ts).value.1 && |ts| >= 3
  {
    hide ParseDN, Lower;
    LowerKeys();
    KeywordsDiffer();
  }

  // The three clauses.

  lemma WordIsKeyword(t: Token, w: string)
    requires Lower(w) == w
    ensures Keyword(t, w) <==> t.Word? && Lower(t.text) == w
  {
  }

  lemma BodyWordsFold()
    ensures Lower("version") == "version" && Lower("acl") == "acl" && Lower("allow") == "allow"
    ensures Lower("deny") == "deny" && Lower("target") == "target" && Lower("targetattr") == "targetattr"
    ensures "allow" != "deny" && "target" != "targetattr" && "target" != "version" && "targetattr" != "version"
  {
  }

  lemma BodyFormRead(ts: seq<Token>, b: Body, rest: seq<Token>)
    requires BodyForm(ts, b)
    ensures BodyClause(ts[2..] + rest) == Some((b, rest))
  {
    IdExactly(b.id);
    hide Lower, PermsForm, PermList, SubjectForm, SubjectClause, ValidId, IdForm;
    BodyWordsFold();
    var k := |ts| - 6;
    var us := ts[2..] + rest;
    var tail := ts[k + 1..k + 4] + ([Semi, RParen] + rest);
    BodyTail(ts, rest);
    PermsRead(ts[9..k], b.perms, [], tail);
    SubjectRead(ts[k + 1..k + 4], b.subject, [Semi, RParen] + rest);
    assert [] + b.perms == b.perms;
    assert ([Semi, RParen] + rest)[2..] == rest;
  }

  lemma BodyTail(ts: seq<Token>, rest: seq<Token>)
    requires |ts| >= 15
    requires var k := |ts| - 6; ts[k] == RParen && ts[k + 4] == Semi && ts[k + 5] == RParen
    ensures var k := |ts| - 6;
      (ts[2..] + rest)[7..] == ts[9..k] + ([RParen] + (ts[k + 1..k + 4] + ([Semi, RParen] + rest)))
  {
  }

  lemma BodyFormFound(ts: seq<Token>) returns (n: nat)
    requires |ts| >= 2 && ts[0] == LParen && Keyword(ts[1], "version") && BodyClause(ts[2..]).Some?
    ensures n <= |ts| && BodyForm(ts[..n], BodyClause(ts[2..]).value.0) && ts[n..] == BodyClause(ts[2..]).value.1
  {
    var us := ts[2..];
    var b := BodyClause(us).value.0;
    var k, perms := PermsOfBody(us);
    BodySlices(ts, k);
    IdExactly(b.id);
    BodyWordsFold();
    n := k + 15;
    hide Lower, PermsForm, SubjectForm, ValidId, IdForm, BodyClause;
  }

  /** Where the permissions of a body end, and what lies around them. */
  lemma PermsOfBody(us: seq<Token>) returns (k: nat, perms: seq<Permission>)
    requires BodyClause(us).Some?
    ensures var b := BodyClause(us).value.0;
      && |us| >= k + 13 && us[0] == Word("3.0") && us[1] == Semi && us[2].Word? && EqualFold(us[2].text, "acl")
      && us[3] == QString(b.id) && ValidId(b.id) && us[4] == Semi && us[5].Word? && us[6] == LParen
      && (Lower(us[5].text) == if b.deny then "deny" else "allow")
      && PermsForm(us[7..7 + k], b.perms) && |b.perms| <= MAX_PERMS && us[7 + k] == RParen
      && SubjectForm(us[8 + k..11 + k], b.subject) && us[11 + k] == Semi && us[12 + k] == RParen
      && us[13 + k..] == BodyClause(us).value.1
  {
    hide Lower, PermsForm, PermList, SubjectForm, SubjectClause, ValidId;
    k, perms := PermsFound(us[7..], []);
    assert [] + perms == perms;
    var rest := us[7..][k + 1..];
    SubjectFound(rest);
    TailSlices(us, k);
  }

  lemma TailSlices(us: seq<Token>, k: nat)
    requires |us| >= 8 + k
    ensures us[7..][..k] == us[7..7 + k] && us[7..][k] == us[7 + k] && us[7..][k + 1..] == us[8 + k..]
    ensures |us| >= 11 + k ==> us[8 + k..][..3] == us[8 + k..11 + k] && us[8 + k..][3..] == us[11 + k..]
    ensures |us| >= 13 + k ==> us[11 + k..][2..] == us[13 + k..]
  {
  }

  lemma BodySlices(ts: seq<Token>, k: nat)
    requires |ts| >= k + 15
    ensures var us, c := ts[2..], ts[..k + 15];
      && (forall i :: 0 <= i < k + 13 ==> us[i] == c[i + 2]) && us[13 + k..] == ts[k + 15..]
      && us[7..7 + k] == c[9..9 + k] && us[8 + k..11 + k] == c[10 + k..13 + k]
  {
  }

  lemma TargetFormRead(ts: seq<Token>, d: DN, rest: seq<Token>)
    requires TargetForm(ts, d)
    ensures TargetClause(ts[2..] + rest) == Some((d, rest))
  {
    hide ParseDN, Lower;
    var us := ts[2..] + rest;
    assert us[3..] == rest && us[0] == ts[2] && us[1] == ts[3] && us[2] == ts[4];
  }

  lemma TargetFormFound(ts: seq<Token>)
    requires |ts| >= 2 && ts[0] == LParen && Keyword(ts[1], "target") && TargetClause(ts[2..]).Some?
    ensures |ts| >= 5 && TargetForm(ts[..5], TargetClause(ts[2..]).value.0) && ts[5..] == TargetClause(ts[2..]).value.1
  {
    hide ParseDN, Lower;
    assert ts[2..][3..] == ts[5..];
  }

  lemma BarShift(v: string, i: nat)
    requires v != "" && i > 0
    ensures DoubleBar(v, i) <==> DoubleBar(v[1..], i - 1)
  {
  }

  lemma {:induction false} BarsFound(v: string)
    ensures BarList(v, SplitBars(v))
    decreases |v|
  {
    if v != "" {
      if DoubleBar(v, 0) {
        BarsFound(v[2..]);
        var parts := SplitBars(v);
        assert parts[0] == "" && parts[1..] == SplitBars(v[2..]);
      } else {
        BarsFound(v[1..]);
        MoreInFront(v, SplitBars(v[1..]));
      }
    }
  }

  /** One more character in front belongs to the first part. */
  lemma MoreInFront(v: string, ps: seq<string>)
    requires v != "" && !DoubleBar(v, 0) && BarList(v[1..], ps)
    ensures BarList(v, [[v[0]] + ps[0]] + ps[1..])
  {
    var parts := [[v[0]] + ps[0]] + ps[1..];
    var n := |ps[0]|;
    forall i: nat | i > 0 ensures DoubleBar(v, i) <==> DoubleBar(v[1..], i - 1) { BarShift(v, i); }
    if |ps| == 1 {
      assert [v[0]] + v[1..] == v && ps[1..] == [];
      assert parts == [v];
    } else {
      BarShift(v, n + 1);
      FrontSlices(v, n);
      assert parts[1..] == ps[1..] && |parts[0]| == n + 1;
      hide DoubleBar;
    }
  }

  lemma FrontSlices(v: string, n: nat)
    requires n + 3 <= |v|
    ensures v[1..][n + 2..] == v[n + 3..] && v[..n + 1] == [v[0]] + v[1..][..n]
  {
  }

  lemma {:induction false} BarsOnly(v: string, parts: seq<string>)
    requires BarList(v, parts)
    ensures parts == SplitBars(v)
    decreases |v|
  {
    hide DoubleBar;
    if |parts| == 1 {
      assert parts == [v];
      NoBars(v);
    } else {
      BarWithin(v, |parts[0]|);
      BarsOnly(v[|parts[0]| + 2..], parts[1..]);
      BarsAt(v, |parts[0]|);
      assert parts == [parts[0]] + parts[1..];
    }
  }

  lemma BarWithin(v: string, n: nat)
    requires DoubleBar(v, n)
    ensures n + 2 <= |v|
  {
  }

  lemma {:induction false} NoBars(v: string)
    requires forall i: nat :: !DoubleBar(v, i)
    ensures SplitBars(v) == [v]
  {
    if v != "" {
      assert !DoubleBar(v, 0);
      forall i: nat ensures !DoubleBar(v[1..], i) { BarShift(v, i + 1); }
      NoBars(v[1..]);
      assert [v[0]] + v[1..] == v;
    }
  }

  lemma {:induction false} BarsAt(v: string, n: nat)
    requires DoubleBar(v, n) && forall i: nat :: i < n ==> !DoubleBar(v, i)
    ensures SplitBars(v) == [v[..n]] + SplitBars(v[n + 2..])
    decreases n
  {
    if n == 0 {
      assert v[..0] == "";
    } else {
      var u := v[1..];
      assert !DoubleBar(v, 0);
      BarShift(v, n);
      forall i: nat | i < n - 1 ensures !DoubleBar(u, i) { BarShift(v, i + 1); }
      BarsAt(u, n - 1);
      FrontSlices(v, n - 1);
      var rest := SplitBars(v[n + 2..]);
      assert ([u[..n - 1]] + rest)[1..] == rest && u[n - 1 + 2..] == v[n + 2..];
    }
  }

  lemma ListExactly(sc: Schema, negate: bool, v: string, mode: AttrMode, names: seq<string>)
    ensures ListForm(sc, negate, v, mode, names) <==> AttrList(sc, negate, v) == Some((mode, names))
  {
    hide AcceptedAttr, Listed, SplitBars, BarList, TrimSpace;
    var parts := SplitBars(v);
    BarsFound(v);
    ListOf(sc, negate, v, parts, mode, names);
    forall ps | BarList(v, ps) ensures ps == parts { BarsOnly(v, ps); }
  }

  lemma ListOf(sc: Schema, negate: bool, v: string, parts: seq<string>, mode: AttrMode, names: seq<string>)
    requires parts == SplitBars(v)
    ensures PartsForm(sc, negate, parts, mode, names) <==> AttrList(sc, negate, v) == Some((mode, names))
  {
    forall a ensures Listed(sc, a) <==> AcceptedAttr(sc, a) { ListedExactly(sc, a); }
    hide AcceptedAttr, Listed, SplitBars, TrimSpace;
    var ns := Trimmed(parts);
    assert forall i :: 0 <= i < |parts| ==> ns[i] == TrimSpace(parts[i]);
    assert "*" in ns <==> exists i :: 0 <= i < |parts| && TrimSpace(parts[i]) == "*" by {
      if "*" in ns {
        var i :| 0 <= i < |ns| && ns[i] == "*";
        assert TrimSpace(parts[i]) == "*";
      }
      if i :| 0 <= i < |parts| && TrimSpace(parts[i]) == "*" { assert ns[i] == "*"; }
    }
    if |names| == |parts| && forall i :: 0 <= i < |parts| ==> names[i] == TrimSpace(parts[i]) {
      assert names == ns;
    }
  }

  lemma AttrFormRead(sc: Schema, ts: seq<Token>, mode: AttrMode, names: seq<string>, rest: seq<Token>)
    requires AttrForm(sc, ts, mode, names)
    ensures |ts| >= 5 && ts[0] == LParen && Keyword(ts[1], "targetattr")
    ensures AttrClause(sc, ts[2..] + rest) == Some(((mode, names), rest))
  {
    hide AttrList, ListForm, Lower;
    var negate: bool, v: string :|
      && ListForm(sc, negate, v, mode, names)
      && |ts| == (if negate then 6 else 5) && Keyword(ts[1], "targetattr")
      && ts == [LParen, ts[1]] + (if negate then [Bang] else []) + [Equals, QString(v), RParen];
    ListExactly(sc, negate, v, mode, names);
    var us := ts[2..] + rest;
    if negate {
      assert us == [Bang, Equals, QString(v), RParen] + rest;
      assert us[1..][3..] == rest;
    } else {
      assert us == [Equals, QString(v), RParen] + rest;
      assert us[3..] == rest;
    }
  }

  lemma AttrFormFound(sc: Schema, ts: seq<Token>) returns (n: nat)
    requires |ts| >= 2 && ts[0] == LParen && Keyword(ts[1], "targetattr") && AttrClause(sc, ts[2..]).Some?
    ensures var r := AttrClause(sc, ts[2..]).value;
      n <= |ts| && AttrForm(sc, ts[..n], r.0.0, r.0.1) && ts[n..] == r.1
  {
    hide AttrList, ListForm, Lower;
    var us := ts[2..];
    var negate := us != [] && us[0] == Bang;
    n := if negate then 6 else 5;
    var v := ts[n - 2].text;
    var r := AttrClause(sc, us).value;
    ListExactly(sc, negate, v, r.0.0, r.0.1);
    assert ts[..n] == [LParen, ts[1]] + (if negate then [Bang] else []) + [Equals, QString(v), RParen];
    assert ts[n..] == (if negate then us[1..] else us)[3..];
  }

  // ---------------------------------------------------------------------------
  // Instructions
  // ---------------------------------------------------------------------------

  lemma ClauseAdds(sc: Schema, ts: seq<Token>, p: Partial, q: Partial, rest: seq<Token>)
    requires Adds(sc, ts, p, q)
    ensures Clause(sc, ts + rest, p) == Some((q, rest)) && ts != []
  {
    hide TargetForm, AttrForm, BodyForm, TargetClause, AttrClause, BodyClause, Lower;
    BodyWordsFold();
    var us := ts + rest;
    if p.target.None? && q.target.Some? && q == p.(target := q.target) && TargetForm(ts, q.target.value) {
      TargetFormRead(ts, q.target.value, rest);
      TargetStart(ts, q.target.value);
      assert us[2..] == ts[2..] + rest && us[0] == ts[0] && us[1] == ts[1];
    } else if p.attrs.None? && q.attrs.Some? && q == p.(attrs := q.attrs)
        && AttrForm(sc, ts, q.attrs.value.0, q.attrs.value.1) {
      AttrFormRead(sc, ts, q.attrs.value.0, q.attrs.value.1, rest);
      assert us[2..] == ts[2..] + rest && us[0] == ts[0] && us[1] == ts[1];
    } else {
      BodyFormRead(ts, q.body.value, rest);
      BodyStart(ts, q.body.value);
      assert us[2..] == ts[2..] + rest && us[0] == ts[0] && us[1] == ts[1];
    }
  }

  lemma TargetStart(ts: seq<Token>, d: DN)
    requires TargetForm(ts, d)
    ensures |ts| >= 2 && ts[0] == LParen && Keyword(ts[1], "target")
  {
  }

  lemma BodyStart(ts: seq<Token>, b: Body)
    requires BodyForm(ts, b)
    ensures |ts| >= 2 && ts[0] == LParen && Keyword(ts[1], "version")
  {
  }

  lemma AddsClause(sc: Schema, ts: seq<Token>, p: Partial) returns (n: nat)
    requires Clause(sc, ts, p).Some?
    ensures 0 < n <= |ts| && Adds(sc, ts[..n], p, Clause(sc, ts, p).value.0) && ts[n..] == Clause(sc, ts, p).value.1
  {
    hide TargetForm, AttrForm, BodyForm, TargetClause, AttrClause, BodyClause, Lower;
    BodyWordsFold();
    if Keyword(ts[1], "target") {
      TargetFormFound(ts);
      n := 5;
    } else if Keyword(ts[1], "targetattr") {
      n := AttrFormFound(sc, ts);
    } else {
      n := BodyFormFound(ts);
    }
  }

  lemma {:induction false} ClausesExactly(sc: Schema, ts: seq<Token>, p: Partial, q: Partial)
    ensures Clauses(sc, ts, p) == Some(q) <==> Derives(sc, ts, p, q)
    decreases |ts|
  {
    hide Clause, Adds;
    if ts != [] {
      if Clauses(sc, ts, p) == Some(q) {
        var n := AddsClause(sc, ts, p);
        var p' := Clause(sc, ts, p).value.0;
        ClausesExactly(sc, ts[n..], p', q);
        assert Adds(sc, ts[..n], p, p') && Derives(sc, ts[n..], p', q);
      }
      if Derives(sc, ts, p, q) {
        var n: nat, p' :| 0 < n <= |ts| && Adds(sc, ts[..n], p, p') && Derives(sc, ts[n..], p', q);
        ClauseAdds(sc, ts[..n], p, p', ts[n..]);
        assert ts == ts[..n] + ts[n..];
        ClausesExactly(sc, ts[n..], p', q);
      }
    }
  }

  lemma Finished(q: Partial, r: ParsedACI)
    requires q.target == Some(r.target) && q.body == Some(Body(r.id, r.deny, r.perms, r.subject))
    requires if q.attrs.Some? then q.attrs == Some((r.mode, r.attrs)) else r.mode == NoAttrs && r.attrs == []
    ensures Finish(q) == Some(r)
  {
  }

  /**
   * The tokens are clauses in any order, each kind once, of which target and body are there;
   * without an attribute clause no attribute is targeted.
   */
  ghost predicate Instruction(sc: Schema, ts: seq<Token>, r: ParsedACI) {
    exists attrs ::
      && Derives(sc, ts, Partial(None, None, None),
          Partial(Some(r.target), attrs, Some(Body(r.id, r.deny, r.perms, r.subject))))
      && if attrs.Some? then attrs == Some((r.mode, r.attrs)) else r.mode == NoAttrs && r.attrs == []
  }

  lemma InstructionExactly(sc: Schema, ts: seq<Token>, r: ParsedACI)
    ensures Instruction(sc, ts, r) <==>
              var q := Clauses(sc, ts, Partial(None, None, None)); q.Some? && Finish(q.value) == Some(r)
  {
    hide Clauses, Derives, Finish;
    var p0 := Partial(None, None, None);
    var q := Clauses(sc, ts, p0);
    if q.Some? && Finish(q.value) == Some(r) {
      ClausesExactly(sc, ts, p0, q.value);
      FinishedOnly(q.value, r);
      assert q.value == Partial(Some(r.target), q.value.attrs, Some(Body(r.id, r.deny, r.perms, r.subject)));
    }
    if Instruction(sc, ts, r) {
      var attrs :|
        && Derives(sc, ts, p0, Partial(Some(r.target), attrs, Some(Body(r.id, r.deny, r.perms, r.subject))))
        && if attrs.Some? then attrs == Some((r.mode, r.attrs)) else r.mode == NoAttrs && r.attrs == [];
      var q' := Partial(Some(r.target), attrs, Some(Body(r.id, r.deny, r.perms, r.subject)));
      ClausesExactly(sc, ts, p0, q');
      Finished(q', r);
      assert q == Some(q');
    }
  }

  lemma FinishedOnly(q: Partial, r: ParsedACI)
    requires Finish(q) == Some(r)
    ensures q.target == Some(r.target) && q.body == Some(Body(r.id, r.deny, r.perms, r.subject))
    ensures if q.attrs.Some? then q.attrs == Some((r.mode, r.attrs)) else r.mode == NoAttrs && r.attrs == []
  {
    if q.attrs.Some? { assert q.attrs.value == (q.attrs.value.0, q.attrs.value.1); }
    assert q.body.value == Body(q.body.value.id, q.body.value.deny, q.body.value.perms, q.body.value.subject);
  }

  /** A text is read as an instruction exactly when it is not too long and spells the tokens of that instruction. */
  lemma ParseExactly(sc: Schema, text: string, r: ParsedACI)
    ensures ParseAci(sc, text) == Some(r) <==>
              0 < |text| <= 65536 && exists ts :: Spells(text, ts) && Instruction(sc, ts, r)
  {
    hide Lex, Clauses, Spells, Instruction, Finish;
    if ParseAci(sc, text) == Some(r) {
      var ts := Lex(text).value;
      LexExactly(text, ts);
      InstructionExactly(sc, ts, r);
    }
    if 0 < |text| <= MAX_TEXT && exists ts :: Spells(text, ts) && Instruction(sc, ts, r) {
      var ts :| Spells(text, ts) && Instruction(sc, ts, r);
      LexExactly(text, ts);
      InstructionExactly(sc, ts, r);
    }
  }
}
