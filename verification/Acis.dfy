// Access control instructions as text: the compiler's printer, and the lexer and parser
// that read its output back.
module Acis {
  import opened Text
  import opened DnSyntax

  datatype Permission = Read | Search | Compare | Add | Delete | Write | ModDN

  function PermWord(p: Permission): string {
    match p
    case Read => "read" case Search => "search" case Compare => "compare"
    case Add => "add" case Delete => "delete" case Write => "write" case ModDN => "moddn"
  }

  function PermOf(word: string): Option<Permission> {
    if word == "read" then Some(Read) else if word == "search" then Some(Search)
    else if word == "compare" then Some(Compare) else if word == "add" then Some(Add)
    else if word == "delete" then Some(Delete) else if word == "write" then Some(Write)
    else if word == "moddn" then Some(ModDN) else None
  }

  datatype Subject = UserDN(dn: DN) | GroupDN(dn: DN) | Anyone | AllUsers | Self

  // ---------------------------------------------------------------------------
  // Printing
  // ---------------------------------------------------------------------------

  function EscapedChar(c: char): string {
    if c == '\\' then "\\\\"
    else if c == '"' then "\\\""
    else if c == '(' then "\\28"
    else if c == ')' then "\\29"
    else if c == '\n' || c == '\r' then "\\0a"
    else [c]
  }

  function AciEscape(s: string): string { if s == "" then "" else EscapedChar(s[0]) + AciEscape(s[1..]) }

  /** The compiler's record of one instruction, attribute lists and bind rule already in text form. */
  datatype Builder = Builder(name: string, target: string, perms: seq<string>, allow: string, deny: string, who: string)

  function AttrText(b: Builder): string {
    if b.deny != "" then "(targetattr!=\"" + (b.deny + "\")")
    else if b.allow != "" && b.allow != "*" then "(targetattr=\"" + (b.allow + "\")")
    else "(targetattr=\"*\")"
  }

  function Print(b: Builder): string {
    "(target=\"ldap:///"
        + (AciEscape(b.target) + ("\")" + (AttrText(b) + ("(version 3.0; acl \"" + (b.name + ("\"; allow ("
      + (Join(b.perms) + (") " + (b.who + ";)")))))))))
  }

  function WhoText(s: Subject): string {
    match s
    case UserDN(d) => "userdn=\"ldap:///" + (AciEscape(String(d)) + "\"")
    case GroupDN(d) => "groupdn=\"ldap:///" + (AciEscape(String(d)) + "\"")
    case Anyone => "userdn=\"ldap:///anyone\""
    case AllUsers => "userdn=\"ldap:///all\""
    case Self => "userdn=\"ldap:///self\""
  }

  function JoinBars(names: seq<string>): string {
    if names == [] then "" else if |names| == 1 then names[0] else names[0] + (" || " + JoinBars(names[1..]))
  }

  // ---------------------------------------------------------------------------
  // Lexing
  // ---------------------------------------------------------------------------

  datatype Token = LParen | RParen | Semi | Comma | Equals | Bang | Word(text: string) | QString(text: string)

  predicate IsAciSpace(c: char) { c == ' ' || c == '\t' || c == '\r' || c == '\n' }

  predicate IsDelim(c: char) { IsAciSpace(c) || c in "();,=!\"" }

  function Cons(c: char, r: Option<(string, string)>): Option<(string, string)> {
    if r.None? then None else Some(([c] + r.value.0, r.value.1))
  }

  /** A quoted string behind its opening quote: its value, and what follows the closing quote. */
  function Unquote(s: string): (r: Option<(string, string)>)
    ensures r.Some? ==> |r.value.1| < |s|
  {
    if s == "" then None
    else if s[0] == '"' then Some(("", s[1..]))
    else if s[0] != '\\' then Cons(s[0], Unquote(s[1..]))
    else if |s| == 1 then None
    else if s[1] == '\\' || s[1] == '"' then Cons(s[1], Unquote(s[2..]))
    else if |s| < 3 || !IsHex(s[1]) || !IsHex(s[2]) then None
    else
      var v := HexVal(s[1]).value * 16 + HexVal(s[2]).value;
      if v == 0 then None else Cons(v as char, Unquote(s[3..]))
  }

  function QuotedAt(s: string): (r: Option<(string, string)>)
    ensures r.Some? ==> |r.value.1| < |s|
  {
    var r := Unquote(s);
    if r.Some? && ValidUtf8(r.value.0) then r else None
  }

  function WordLength(s: string): (n: nat)
    ensures n <= |s|
    ensures s != "" && !IsDelim(s[0]) ==> n > 0
  {
    if s == "" || IsDelim(s[0]) then 0 else 1 + WordLength(s[1..])
  }

  function Punctuation(c: char): Option<Token> {
    match c
    case '(' => Some(LParen) case ')' => Some(RParen) case ';' => Some(Semi)
    case ',' => Some(Comma) case '=' => Some(Equals) case '!' => Some(Bang)
    case _ => None
  }

  function Then(ts: seq<Token>, r: Option<seq<Token>>): Option<seq<Token>> {
    if r.None? then None else Some(ts + r.value)
  }

  function Lex(s: string): Option<seq<Token>>
    decreases |s|
  {
    if s == "" then Some([])
    else if IsAciSpace(s[0]) then Lex(s[1..])
    else if Punctuation(s[0]).Some? then Then([Punctuation(s[0]).value], Lex(s[1..]))
    else if s[0] == '"' then
      var q := QuotedAt(s[1..]);
      if q.None? then None else Then([QString(q.value.0)], Lex(q.value.1))
    else
      var n := WordLength(s);
      Then([Word(s[..n])], Lex(s[n..]))
  }

  // ---------------------------------------------------------------------------
  // Parsing
  // ---------------------------------------------------------------------------

  datatype AttrMode = AllAttrs | AllowList | DenyList | NoAttrs

  datatype ParsedACI = ParsedACI(
    id: string, target: DN, mode: AttrMode, attrs: seq<string>, deny: bool, perms: seq<Permission>, subject: Subject)

  /** Which attribute names the pinned schema defines. */
  datatype Schema = Schema(known: string -> bool)

  const MAX_TEXT: nat := 65536
  const MAX_PERMS: nat := 16
  const MAX_ATTRS: nat := 64
  const MAX_ID: nat := 128

  /** The text behind an "ldap:///" prefix of any case. */
  function LdapRest(v: string): Option<string> {
    if |v| < 8 || !EqualFold(v[..8], "ldap:///") then None else Some(v[8..])
  }

  function SplitBars(s: string): (parts: seq<string>)
    ensures |parts| > 0
  {
    if s == "" then [""]
    else if |s| >= 2 && s[0] == '|' && s[1] == '|' then [""] + SplitBars(s[2..])
    else
      var parts := SplitBars(s[1..]);
      [[s[0]] + parts[0]] + parts[1..]
  }

  predicate AttrName(a: string) {
    a == "*" || (a != "" && IsLetter(a[0]) && forall i :: 0 <= i < |a| ==>
        IsLetter(a[i]) || IsDigit(a[i]) || a[i] == '-' || a[i] == ';')
  }

  /** Where the options of a name begin: at the first semicolon. */
  function CutAt(s: string): (n: nat)
    ensures n <= |s| && (n < |s| ==> s[n] == ';') && forall i :: 0 <= i < n ==> s[i] != ';'
  {
    if s == "" || s[0] == ';' then 0 else 1 + CutAt(s[1..])
  }

  /** A numeric OID, with options or without. */
  predicate AttrOid(a: string) {
    var n := CutAt(a);
    n > 0 && IsDigit(a[0]) && ValidAttr(a[..n]) && forall i :: n <= i < |a| ==>
      IsLetter(a[i]) || IsDigit(a[i]) || a[i] == '-' || a[i] == ';'
  }

  predicate AcceptedAttr(sc: Schema, a: string) { a == "*" || ((AttrName(a) || AttrOid(a)) && sc.known(a)) }

  function Trimmed(parts: seq<string>): (r: seq<string>)
    ensures |r| == |parts|
  {
    seq(|parts|, i requires 0 <= i < |parts| => TrimSpace(parts[i]))
  }

  /** The value of a targetattr clause. A star in a positive list means every attribute. */
  function AttrList(sc: Schema, negate: bool, v: string): Option<(AttrMode, seq<string>)> {
    var names := Trimmed(SplitBars(v));
    if |names| > MAX_ATTRS || exists i :: 0 <= i < |names| && !AcceptedAttr(sc, names[i]) then None
    else if "*" in names && !negate then Some((AllAttrs, []))
    else Some((if negate then DenyList else AllowList, names))
  }

  /** What the clauses read so far have filled in. */
  datatype Partial = Partial(target: Option<DN>, attrs: Option<(AttrMode, seq<string>)>, body: Option<Body>)
  datatype Body = Body(id: string, deny: bool, perms: seq<Permission>, subject: Subject)

  function TargetClause(ts: seq<Token>): (r: Option<(DN, seq<Token>)>)
    ensures r.Some? ==> |r.value.1| < |ts|
  {
    if |ts| < 3 || ts[0] != Equals || !ts[1].QString? || ts[2] != RParen then None
    else
      var rest := LdapRest(ts[1].text);
      if rest.None? then None
      else
        var d := ParseDN(rest.value);
        if d.None? then None else Some((d.value, ts[3..]))
  }

  function AttrClause(sc: Schema, ts: seq<Token>): (r: Option<((AttrMode, seq<string>), seq<Token>)>)
    ensures r.Some? ==> |r.value.1| < |ts|
  {
    var negate := ts != [] && ts[0] == Bang;
    var us := if negate then ts[1..] else ts;
    if |us| < 3 || us[0] != Equals || !us[1].QString? || us[2] != RParen then None
    else
      var l := AttrList(sc, negate, us[1].text);
      if l.None? then None else Some((l.value, us[3..]))
  }

  /** One permission and, behind commas, more of them, up to the closing parenthesis. */
  function PermList(ts: seq<Token>, acc: seq<Permission>): (r: Option<(seq<Permission>, seq<Token>)>)
    ensures r.Some? ==> |r.value.1| < |ts|
    decreases ts
  {
    if ts == [] || !ts[0].Word? then None
    else
      var p := PermOf(Lower(ts[0].text));
      if p.None? || |acc| + 1 > MAX_PERMS || |ts| < 2 then None
      else if ts[1] == Comma then PermList(ts[2..], acc + [p.value])
      else if ts[1] == RParen then Some((acc + [p.value], ts[2..]))
      else None
  }

  function SubjectOf(group: bool, rest: string): Option<Subject> {
    if rest == "" then None
    else if !group && Lower(rest) == "all" then Some(AllUsers)
    else if !group && Lower(rest) == "anyone" then Some(Anyone)
    else if !group && Lower(rest) == "self" then Some(Self)
    else
      var d := ParseDN(rest);
      if d.None? then None else Some(if group then GroupDN(d.value) else UserDN(d.value))
  }

  function SubjectClause(ts: seq<Token>): (r: Option<(Subject, seq<Token>)>)
    ensures r.Some? ==> |r.value.1| < |ts|
  {
    if |ts| < 3 || !ts[0].Word? || ts[1] != Equals || !ts[2].QString? then None
    else
      var kw, rest := Lower(ts[0].text), LdapRest(ts[2].text);
      if (kw != "userdn" && kw != "groupdn") || rest.None? then None
      else
        var s := SubjectOf(kw == "groupdn", rest.value);
        if s.None? then None else Some((s.value, ts[3..]))
  }

  predicate ValidId(id: string) {
    id != "" && |id| <= MAX_ID && forall i :: 0 <= i < |id| ==> id[i] as int >= 0x20 && id[i] as int != 0x7f
  }

  function BodyClause(ts: seq<Token>): (r: Option<(Body, seq<Token>)>)
    ensures r.Some? ==> |r.value.1| < |ts|
  {
    if |ts| < 7 || ts[0] != Word("3.0") || ts[1] != Semi || !ts[2].Word? || !EqualFold(ts[2].text, "acl") then None
    else if !ts[3].QString? || !ValidId(ts[3].text) || ts[4] != Semi || !ts[5].Word? || ts[6] != LParen then None
    else if Lower(ts[5].text) != "allow" && Lower(ts[5].text) != "deny" then None
    else
      var perms := PermList(ts[7..], []);
      if perms.None? then None
      else
        var subject := SubjectClause(perms.value.1);
        if subject.None? then None
        else
          var rest := subject.value.1;
          if |rest| < 2 || rest[0] != Semi || rest[1] != RParen then None
          else Some((Body(ts[3].text, Lower(ts[5].text) == "deny", perms.value.0, subject.value.0), rest[2..]))
  }

  /** One clause, of a kind not seen before. */
  function Clause(sc: Schema, ts: seq<Token>, p: Partial): (r: Option<(Partial, seq<Token>)>)
    ensures r.Some? ==> |r.value.1| < |ts|
  {
    if |ts| < 2 || ts[0] != LParen || !ts[1].Word? then None
    else
      var kw := Lower(ts[1].text);
      if kw == "target" && p.target.None? then
        var c := TargetClause(ts[2..]);
        if c.None? then None else Some((p.(target := Some(c.value.0)), c.value.1))
      else if kw == "targetattr" && p.attrs.None? then
        var c := AttrClause(sc, ts[2..]);
        if c.None? then None else Some((p.(attrs := Some(c.value.0)), c.value.1))
      else if kw == "version" && p.body.None? then
        var c := BodyClause(ts[2..]);
        if c.None? then None else Some((p.(body := Some(c.value.0)), c.value.1))
      else None
  }

  function Clauses(sc: Schema, ts: seq<Token>, p: Partial): Option<Partial>
    decreases |ts|
  {
    if ts == [] then Some(p)
    else
      var c := Clause(sc, ts, p);
      if c.None? then None else Clauses(sc, c.value.1, c.value.0)
  }

  /** Target and bind rule are mandatory; without a targetattr clause no attribute is targeted. */
  function Finish(p: Partial): Option<ParsedACI> {
    if p.target.None? || p.body.None? then None
    else
      var (mode, names) := if p.attrs.Some? then p.attrs.value else (NoAttrs, []);
      var b := p.body.value;
      Some(ParsedACI(b.id, p.target.value, mode, names, b.deny, b.perms, b.subject))
  }

  function ParseAci(sc: Schema, text: string): Option<ParsedACI> {
    if text == "" || |text| > MAX_TEXT then None
    else
      var ts := Lex(text);
      if ts.None? then None
      else
        var p := Clauses(sc, ts.value, Partial(None, None, None));
        if p.None? then None else Finish(p.value)
  }

  // ---------------------------------------------------------------------------
  // Lexing what was printed
  // ---------------------------------------------------------------------------

  /** Escaping does not tell a carriage return from a line feed. */
  function Unix(s: string): (r: string)
    ensures |r| == |s|
    ensures forall i :: 0 <= i < |s| ==> r[i] == if s[i] == '\r' then '\n' else s[i]
  {
    seq(|s|, i requires 0 <= i < |s| => if s[i] == '\r' then '\n' else s[i])
  }

  lemma {:induction false} UnquoteEscaped(v: string, rest: string)
    ensures Unquote(AciEscape(v) + (['"'] + rest)) == Some((Unix(v), rest))
  {
    if v == "" {
      assert AciEscape(v) + (['"'] + rest) == ['"'] + rest && (['"'] + rest)[1..] == rest;
    } else {
      var tail := AciEscape(v[1..]) + (['"'] + rest);
      UnquoteEscaped(v[1..], rest);
      ConcatAssoc(EscapedChar(v[0]), AciEscape(v[1..]), ['"'] + rest);
      UnquoteStep(v[0], tail);
      assert AciEscape(v) == EscapedChar(v[0]) + AciEscape(v[1..]);
      hide Unquote, AciEscape, EscapedChar;
      assert Unix(v) == [if v[0] == '\r' then '\n' else v[0]] + Unix(v[1..]);
    }
  }

  lemma UnquoteStep(c: char, tail: string)
    ensures Unquote(EscapedChar(c) + tail) == Cons(if c == '\r' then '\n' else c, Unquote(tail))
  {
    var e := EscapedChar(c);
    var s := e + tail;
    assert s[|e|..] == tail;
    assert forall i :: 0 <= i < |e| ==> s[i] == e[i];
    if |e| == 3 {
      HexEscape(c);
      hide HexVal;
    }
  }

  /** The characters written in hexadecimal. */
  lemma HexEscape(c: char)
    requires |EscapedChar(c)| == 3
    ensures var e, d := EscapedChar(c), if c == '\r' then '\n' else c;
      && e[0] == '\\' && IsHex(e[1]) && IsHex(e[2]) && e[1] != '\\' && e[1] != '"'
      && d as int == HexVal(e[1]).value * 16 + HexVal(e[2]).value && d != '\0'
  {
    assert HexVal('2') == Some(2) && HexVal('8') == Some(8) && HexVal('9') == Some(9);
    assert HexVal('0') == Some(0) && HexVal('a') == Some(10);
  }

  /** Text without quotes and backslashes stands for itself. */
  predicate Plain(s: string) { '"' !in s && '\\' !in s && ValidUtf8(s) }

  lemma {:induction false} UnquoteRaw(v: string, rest: string)
    requires '"' !in v && '\\' !in v
    ensures Unquote(v + (['"'] + rest)) == Some((v, rest))
  {
    if v == "" {
      assert v + (['"'] + rest) == ['"'] + rest && (['"'] + rest)[1..] == rest;
    } else {
      UnquoteRaw(v[1..], rest);
      assert (v + (['"'] + rest))[1..] == v[1..] + (['"'] + rest);
      assert v == [v[0]] + v[1..];
    }
  }

  lemma LexPunctuation(c: char, rest: string)
    requires Punctuation(c).Some?
    ensures Lex([c] + rest) == Then([Punctuation(c).value], Lex(rest))
  {
    assert ([c] + rest)[1..] == rest;
  }

  lemma LexSpace(rest: string)
    ensures Lex([' '] + rest) == Lex(rest)
  {
    assert ([' '] + rest)[1..] == rest;
  }

  lemma {:induction false} WordLengthIs(w: string, rest: string)
    requires forall i :: 0 <= i < |w| ==> !IsDelim(w[i])
    requires rest != "" && IsDelim(rest[0])
    ensures WordLength(w + rest) == |w|
  {
    if w == "" {
      assert w + rest == rest;
    } else {
      WordLengthIs(w[1..], rest);
      assert (w + rest)[1..] == w[1..] + rest;
    }
  }

  lemma LexWord(w: string, rest: string)
    requires w != "" && forall i :: 0 <= i < |w| ==> !IsDelim(w[i])
    requires rest != "" && IsDelim(rest[0])
    ensures Lex(w + rest) == Then([Word(w)], Lex(rest))
  {
    WordLengthIs(w, rest);
    assert (w + rest)[..|w|] == w && (w + rest)[|w|..] == rest && (w + rest)[0] == w[0];
  }

  lemma LexQuoted(t: string, v: string, rest: string)
    requires Unquote(t + (['"'] + rest)) == Some((v, rest)) && ValidUtf8(v)
    ensures Lex(['"'] + (t + (['"'] + rest))) == Then([QString(v)], Lex(rest))
  {
    var s := t + (['"'] + rest);
    assert (['"'] + s)[1..] == s;
  }

  lemma ThenThen(a: seq<Token>, b: seq<Token>, c: seq<Token>, r: Option<seq<Token>>)
    requires c == a + b
    ensures Then(a, Then(b, r)) == Then(c, r)
  {
    if r.Some? { ConcatAssoc(a, b, r.value); }
  }

  // ---------------------------------------------------------------------------
  // Text facts
  // ---------------------------------------------------------------------------

  lemma {:induction false} UnixKeepsUtf8(s: string)
    requires ValidUtf8(s)
    ensures ValidUtf8(Unix(s))
  {
    if s != "" {
      var c := s[0] as int;
      var n := if c < 0x80 then 1 else if c <= 0xDF then 2 else if c <= 0xEF then 3 else 4;
      UnixKeepsUtf8(s[n..]);
      assert Unix(s)[n..] == Unix(s[n..]);
    }
  }

  /** Escaping never splits a character. */
  lemma {:induction false} EscapeFromUtf8(v: string, i: nat)
    requires i <= |v| && ValidUtf8(v[i..])
    ensures ValidUtf8(EscapeFrom(v, i))
    decreases |v| - i
  {
    hide ValidUtf8, Piece, EscapeFrom;
    EscapeFromStep(v, i);
    if i < |v| {
      Utf8Head(v[i..]);
      HeadLength(v[i..]);
      var n := RuneLength(v[i]);
      assert v[i..][n..] == v[i + n..] && v[i..][..n] == v[i..i + n];
      EscapeFromUtf8(v, i + n);
      if v[i] as int < 0x80 {
        PieceAscii(v, i);
        AsciiUtf8(Piece(v, i));
        Utf8Append(Piece(v, i), EscapeFrom(v, i + 1));
      } else {
        assert forall k :: i <= k < i + n ==> v[k] == v[i..][k - i];
        RawPieces(v, i, n);
        Utf8Append(v[i..i + n], EscapeFrom(v, i + n));
      }
    } else {
      AsciiUtf8("");
    }
  }

  lemma EscapeFromStep(v: string, i: nat)
    requires i <= |v|
    ensures EscapeFrom(v, i) == if i == |v| then "" else Piece(v, i) + EscapeFrom(v, i + 1)
  {
  }

  lemma PieceAscii(v: string, i: nat)
    requires i < |v|
    ensures v[i] as int < 0x80 ==> forall k :: 0 <= k < |Piece(v, i)| ==> Piece(v, i)[k] as int < 0x80
    ensures v[i] as int >= 0x80 ==> Piece(v, i) == [v[i]]
  {
  }

  lemma {:induction false} RawPieces(v: string, i: nat, n: nat)
    requires i + n <= |v| && forall k :: i <= k < i + n ==> v[k] as int >= 0x80
    ensures EscapeFrom(v, i) == v[i..i + n] + EscapeFrom(v, i + n)
    decreases n
  {
    hide Piece, EscapeFrom;
    if n > 0 {
      EscapeFromStep(v, i);
      PieceAscii(v, i);
      RawPieces(v, i + 1, n - 1);
      ConcatAssoc([v[i]], v[i + 1..i + n], EscapeFrom(v, i + n));
      assert v[i..i + n] == [v[i]] + v[i + 1..i + n];
    } else {
      assert v[i..i + n] == "" && "" + EscapeFrom(v, i) == EscapeFrom(v, i);
    }
  }

  lemma {:induction false} StringUtf8(d: DN)
    requires WellFormed(d)
    ensures ValidUtf8(String(d))
  {
    hide ValidUtf8, RdnText;
    if d == [] {
      AsciiUtf8("");
    } else {
      RdnTextUtf8(d[0]);
      StringUtf8(d[1..]);
      assert Texts(d)[1..] == Texts(d[1..]) && Texts(d)[0] == RdnText(d[0]);
      AsciiUtf8([',']);
      Utf8Append([','], String(d[1..]));
      Utf8Append(RdnText(d[0]), [','] + String(d[1..]));
    }
  }

  lemma RdnTextUtf8(r: Rdn)
    requires WellFormedRdn(r)
    ensures ValidUtf8(RdnText(r))
  {
    hide ValidUtf8, Escape, EscapeFrom, EscapeUpTo, ValidAttr;
    AttrChars(r.attr);
    AsciiUtf8(r.attr);
    EscapeSplits(r.value, 0);
    assert r.value[0..] == r.value;
    EscapeUpToNone(r.value);
    EscapeFromUtf8(r.value, 0);
    AsciiUtf8(['=']);
    Utf8Append(['='], Escape(r.value));
    Utf8Append(r.attr, ['='] + Escape(r.value));
  }

  lemma EscapeUpToNone(v: string)
    ensures EscapeUpTo(v, 0) + EscapeFrom(v, 0) == EscapeFrom(v, 0)
  {
  }

  // ---------------------------------------------------------------------------
  // DNs inside an instruction
  // ---------------------------------------------------------------------------

  function UnixDN(d: DN): (r: DN)
    ensures |r| == |d|
  {
    seq(|d|, i requires 0 <= i < |d| => Rdn(d[i].attr, Unix(d[i].value)))
  }

  lemma UnixPiece(v: string, i: nat)
    requires i < |v|
    ensures Unix(Piece(v, i)) == Piece(Unix(v), i)
  {
  }

  lemma {:induction false} UnixEscape(v: string, k: nat)
    requires k <= |v|
    ensures Unix(EscapeUpTo(v, k)) == EscapeUpTo(Unix(v), k)
  {
    hide Piece, Unix;
    if k > 0 {
      UnixEscape(v, k - 1);
      UnixPiece(v, k - 1);
      UnixConcat(EscapeUpTo(v, k - 1), Piece(v, k - 1));
    } else {
      UnixNone();
    }
  }

  lemma UnixNone()
    ensures Unix("") == ""
  {
  }

  lemma UnixConcat(a: string, b: string)
    ensures Unix(a + b) == Unix(a) + Unix(b)
  {
  }

  lemma UnixSame(s: string)
    requires '\r' !in s
    ensures Unix(s) == s
  {
    assert forall i :: 0 <= i < |s| ==> s[i] in s;
  }

  lemma {:induction false} UnixString(d: DN)
    requires WellFormed(d)
    ensures Unix(String(d)) == String(UnixDN(d))
  {
    if d != [] {
      var r, r' := d[0], UnixDN(d)[0];
      AttrChars(r.attr);
      UnixSame(r.attr);
      UnixEscape(r.value, |r.value|);
      UnixConcat(r.attr, ['='] + Escape(r.value));
      UnixConcat(['='], Escape(r.value));
      assert Unix(RdnText(r)) == RdnText(r');
      UnixString(d[1..]);
      assert UnixDN(d)[1..] == UnixDN(d[1..]);
      hide RdnText, Unix;
      assert Texts(d)[1..] == Texts(d[1..]) && Texts(d)[0] == RdnText(r);
      assert Texts(UnixDN(d))[1..] == Texts(UnixDN(d[1..])) && Texts(UnixDN(d))[0] == RdnText(r');
      CommaUnix();
      UnixConcat(RdnText(r), [','] + String(d[1..]));
      UnixConcat([','], String(d[1..]));
    }
  }

  lemma CommaUnix()
    ensures Unix([',']) == [',']
  {
  }

  lemma UnixWellFormed(d: DN)
    requires WellFormed(d)
    ensures WellFormed(UnixDN(d)) && (TabFree(UnixDN(d)) <==> TabFree(d))
  {
    var e := UnixDN(d);
    forall i | 0 <= i < |d| ensures WellFormedRdn(e[i]) && (EndsInTab(e[i].value) <==> EndsInTab(d[i].value)) {
      UnixKeepsUtf8(d[i].value);
      assert forall k :: 0 <= k < |d[i].value| ==> d[i].value[k] in d[i].value;
    }
  }

  /** A DN comes through an instruction unchanged. */
  predicate Survives(d: DN) {
    TabFree(d) && forall i :: 0 <= i < |d| ==> '\r' !in d[i].value
  }

  /** What parsing a printed RDN can give: the RDN itself, or something shorter in place of one that ends in a tab. */
  lemma ReadRdn(r: Rdn)
    requires WellFormedRdn(r)
    ensures !EndsInTab(r.value) ==> ParseRdn(RdnText(r)) == Some(r)
    ensures EndsInTab(r.value) && ParseRdn(RdnText(r)).Some? ==> |ParseRdn(RdnText(r)).value.value| < |r.value|
  {
    ParseRdnText(r);
    var t := RdnText(r);
    if EndsInTab(r.value) && ParseRdn(t).Some? {
      var cut := TabEndTrimmed(r);
      ParsedValue(t);
      var p := Trim(t);
      EscapeSplitsOff(r, p, cut);
      UnescapeEscape(r.value);
      UnescapePlain(cut);
      UnescapeAppend(p[FirstUnescaped(p, '=') + 1..], cut);
    }
  }

  /** Parsing the printed form of e gives the equally shaped d exactly when e is d and no value ends in a tab. */
  lemma {:induction false} ReadTexts(e: DN, d: DN)
    requires WellFormed(e) && |e| == |d| && forall i :: 0 <= i < |e| ==> |e[i].value| == |d[i].value|
    ensures ParseParts(Texts(e)) == Some(d) <==> TabFree(e) && e == d
  {
    hide ParseRdn, RdnText, WellFormedRdn, EndsInTab;
    if e != [] {
      ReadTexts(e[1..], d[1..]);
      ReadRdn(e[0]);
      assert Texts(e)[1..] == Texts(e[1..]) && Texts(e)[0] == RdnText(e[0]);
      assert e == [e[0]] + e[1..] && d == [d[0]] + d[1..];
      assert TabFree(e) <==> !EndsInTab(e[0].value) && TabFree(e[1..]);
      var r, rs := ParseRdn(RdnText(e[0])), ParseParts(Texts(e[1..]));
      if ParseParts(Texts(e)) == Some(d) {
        assert d[0] == r.value && d[1..] == rs.value;
      }
    }
  }

  lemma DnRoundTrip(d: DN)
    requires WellFormed(d) && d != []
    ensures ParseDN(Unix(String(d))) == Some(d) <==> Survives(d)
  {
    UnixString(d);
    UnixWellFormed(d);
    var e := UnixDN(d);
    StringNonEmpty(e);
    StringNoNul(e);
    SplitString(e);
    ReadTexts(e, d);
    hide String, WellFormed;
    forall i | 0 <= i < |d| ensures Unix(d[i].value) == d[i].value <==> '\r' !in d[i].value {
      if '\r' !in d[i].value {
        UnixSame(d[i].value);
      } else {
        var k :| 0 <= k < |d[i].value| && d[i].value[k] == '\r';
        assert Unix(d[i].value)[k] == '\n';
      }
    }
    assert e == d <==> forall i :: 0 <= i < |d| ==> Unix(d[i].value) == d[i].value by {
      if e == d {
        forall i | 0 <= i < |d| ensures Unix(d[i].value) == d[i].value { assert e[i] == d[i]; }
      }
    }
  }

  // ---------------------------------------------------------------------------
  // The lexer and the clause loop as they run
  // ---------------------------------------------------------------------------

  /** What unquoting gives when the value read so far is b. */
  function Behind(b: string, r: Option<(string, string)>): Option<(string, string)> {
    if r.None? then None else Some((b + r.value.0, r.value.1))
  }

  lemma BehindCons(b: string, c: char, r: Option<(string, string)>)
    ensures Behind(b, Cons(c, r)) == Behind(b + [c], r)
  {
    if r.Some? { ConcatAssoc(b, [c], r.value.0); }
  }

  /** The escape at i: the character it stands for, and where it ends. */
  method EscapeAt(text: string, i: nat) returns (ok: bool, c: char, next: nat)
    requires i < |text| && text[i] == '\\'
    ensures ok ==> i < next <= |text| && Unquote(text[i..]) == Cons(c, Unquote(text[next..]))
    ensures !ok ==> Unquote(text[i..]).None?
  {
    hide ValidUtf8, Cons;
    var s := text[i..];
    c, next := 'x', i;
    if i + 1 >= |text| {
      return false, c, next;
    }
    var n := text[i + 1];
    assert s[1] == n && s[2..] == text[i + 2..];
    if n == '\\' || n == '"' {
      return true, n, i + 2;
    }
    var hi := HexVal(n);
    if hi.None? || i + 2 >= |text| {
      return false, c, next;
    }
    var lo := HexVal(text[i + 2]);
    assert s[2] == text[i + 2] && s[3..] == text[i + 3..];
    if lo.None? {
      return false, c, next;
    }
    var x := hi.value * 16 + lo.value;
    if x == 0 {
      return false, c, next;
    }
    return true, x as char, i + 3;
  }

  /** The quoted string that opens at start: its value and the position behind its closing quote. */
  method LexQString(text: string, start: nat) returns (ok: bool, v: string, next: nat)
    requires start < |text| && text[start] == '"'
    ensures ok <==> QuotedAt(text[start + 1..]).Some?
    ensures ok ==> start < next <= |text| && QuotedAt(text[start + 1..]) == Some((v, text[next..]))
  {
    hide ValidUtf8;
    var b := "";
    var i := start + 1;
    BehindNone(Unquote(text[i..]));
    while i < |text|
      invariant start < i <= |text|
      invariant Unquote(text[start + 1..]) == Behind(b, Unquote(text[i..]))
    {
      var c := text[i];
      var s := text[i..];
      assert s[0] == c && s[1..] == text[i + 1..];
      if c == '"' {
        assert b + "" == b;
        return ValidUtf8(b), b, i + 1;
      } else if c == '\\' {
        var escaped, x, after := EscapeAt(text, i);
        if !escaped {
          return false, "", i;
        }
        BehindCons(b, x, Unquote(text[after..]));
        b := b + [x];
        i := after;
      } else {
        BehindCons(b, c, Unquote(text[i + 1..]));
        b := b + [c];
        i := i + 1;
      }
    }
    assert text[i..] == "";
    ok, v, next := false, "", i;
  }

  lemma BehindNone(r: Option<(string, string)>)
    ensures Behind("", r) == r
  {
    if r.Some? { assert "" + r.value.0 == r.value.0; }
  }

  lemma ThenNone(r: Option<seq<Token>>)
    ensures Then([], r) == r
  {
    if r.Some? { assert [] + r.value == r.value; }
  }

  /** One more token in front of what the rest of the text gives. */
  lemma OneMore(text: string, toks: seq<Token>, t: Token, i: nat, j: nat)
    requires i < j <= |text| && Lex(text) == Then(toks, Lex(text[i..])) && Lex(text[i..]) == Then([t], Lex(text[j..]))
    ensures Lex(text) == Then(toks + [t], Lex(text[j..]))
  {
    hide Lex;
    ThenThen(toks, [t], toks + [t], Lex(text[j..]));
  }

  lemma WordAt(text: string, i: nat, j: nat)
    requires i <= j <= |text| && forall k :: i <= k < j ==> !IsDelim(text[k])
    requires j == |text| || IsDelim(text[j])
    ensures WordLength(text[i..]) == j - i
    decreases j - i
  {
    hide IsDelim;
    if i < j {
      assert text[i..][1..] == text[i + 1..];
      WordAt(text, i + 1, j);
    }
  }

  method LexText(text: string) returns (r: Option<seq<Token>>)
    ensures r == Lex(text)
  {
    hide Lex, QuotedAt, IsDelim, WordLength, Then;
    var toks: seq<Token> := [];
    var i := 0;
    ThenNone(Lex(text));
    assert text[0..] == text;
    while i < |text|
      invariant i <= |text| && Lex(text) == Then(toks, Lex(text[i..]))
    {
      var c := text[i];
      LexStep(text, i);
      if IsAciSpace(c) {
        i := i + 1;
        continue;
      }
      var p := Punctuation(c);
      if p.Some? {
        OneMore(text, toks, p.value, i, i + 1);
        toks := toks + [p.value];
        i := i + 1;
      } else if c == '"' {
        var ok, v, next := LexQString(text, i);
        if !ok {
          FailedThen(toks);
          return None;
        }
        OneMore(text, toks, QString(v), i, next);
        toks := toks + [QString(v)];
        i := next;
      } else {
        var j := i;
        while j < |text| && !IsDelim(text[j])
          invariant i <= j <= |text| && forall k :: i <= k < j ==> !IsDelim(text[k])
        {
          j := j + 1;
        }
        WordAt(text, i, j);
        NotADelimiter(c);
        assert text[i..][..j - i] == text[i..j] && text[i..][j - i..] == text[j..];
        OneMore(text, toks, Word(text[i..j]), i, j);
        toks := toks + [Word(text[i..j])];
        i := j;
      }
    }
    assert text[i..] == "";
    LexEnd(toks);
    r := Some(toks);
  }

  lemma NotADelimiter(c: char)
    requires !IsAciSpace(c) && Punctuation(c).None? && c != '"'
    ensures !IsDelim(c)
  {
  }

  lemma FailedThen(toks: seq<Token>)
    ensures Then(toks, None) == None
  {
  }

  lemma LexEnd(toks: seq<Token>)
    ensures Then(toks, Lex("")) == Some(toks)
  {
    assert toks + [] == toks;
  }

  /** What the lexer does at position i. */
  lemma LexStep(text: string, i: nat)
    requires i < |text|
    ensures var s, c := text[i..], text[i];
      && (IsAciSpace(c) ==> Lex(s) == Lex(text[i + 1..]))
      && (!IsAciSpace(c) && Punctuation(c).Some? ==> Lex(s) == Then([Punctuation(c).value], Lex(text[i + 1..])))
      && (c == '"' ==>
          var q := QuotedAt(text[i + 1..]); Lex(s) == if q.None? then None
              else Then([QString(q.value.0)], Lex(q.value.1)))
      && (!IsAciSpace(c) && Punctuation(c).None? && c != '"' ==>
            var n := WordLength(s); n <= |s| && Lex(s) == Then([Word(s[..n])], Lex(s[n..])))
  {
    hide QuotedAt, WordLength, Then;
    assert text[i..][1..] == text[i + 1..];
  }

  method ParseACIText(sc: Schema, text: string) returns (r: Option<ParsedACI>)
    ensures r == ParseAci(sc, text)
  {
    hide Lex, Clause;
    if text == "" || |text| > MAX_TEXT {
      return None;
    }
    var toks := LexText(text);
    if toks.None? {
      return None;
    }
    var rest := toks.value;
    var p := Partial(None, None, None);
    while |rest| > 0
      invariant Clauses(sc, rest, p) == Clauses(sc, toks.value, Partial(None, None, None))
      decreases |rest|
    {
      if p.target.Some? && p.attrs.Some? && p.body.Some? {
        NoFourthClause(sc, rest, p);
        return None;
      }
      var c := Clause(sc, rest, p);
      if c.None? {
        return None;
      }
      p, rest := c.value.0, c.value.1;
    }
    r := Finish(p);
  }

  lemma NoFourthClause(sc: Schema, ts: seq<Token>, p: Partial)
    requires ts != [] && p.target.Some? && p.attrs.Some? && p.body.Some?
    ensures Clauses(sc, ts, p).None?
  {
  }

  /** A carriage return in a DN comes back as a line feed. */
  lemma ReturnIsLost() returns (d: DN)
    ensures d == [Rdn("a", "\r")] && WellFormed(d) && TabFree(d) && ParseDN(Unix(String(d))) != Some(d)
  {
    d := [Rdn("a", "\r")];
    assert "\r"[1..] == "" && ValidUtf8("\r") && Lower("a") == "a";
    assert d[0].value[0] == '\r';
    DnRoundTrip(d);
  }
}
