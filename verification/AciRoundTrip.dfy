// The compiler's output, lexed and parsed: the instruction comes back as it went in.
module AciRoundTrip {
  import opened Text
  import opened DnSyntax
  import opened Acis

  datatype AttrSpec = Every | Allow(names: seq<string>) | Deny(names: seq<string>)

  /** An instruction before it is compiled. */
  datatype Acl = Acl(name: string, target: DN, attrs: AttrSpec, perms: seq<Permission>, subject: Subject)

  function PermWords(perms: seq<Permission>): (r: seq<string>)
    ensures |r| == |perms|
  {
    seq(|perms|, i requires 0 <= i < |perms| => PermWord(perms[i]))
  }

  function Compile(a: Acl): Builder {
    Builder(a.name, String(a.target), PermWords(a.perms),
            match a.attrs case Every => "*" case Allow(names) => JoinBars(names) case Deny(_) => "",
            match a.attrs case Deny(names) => JoinBars(names) case _ => "",
            WhoText(a.subject))
  }

  predicate ListedName(sc: Schema, n: string) { AcceptedAttr(sc, n) && n != "*" }

  predicate ListInLimits(sc: Schema, names: seq<string>) {
    0 < |names| <= MAX_ATTRS && forall i :: 0 <= i < |names| ==> ListedName(sc, names[i])
  }

  predicate HasDN(s: Subject) { s.UserDN? || s.GroupDN? }

  /** The instruction is within the parser's limits, and its unescaped parts need no escaping. */
  predicate InLimits(sc: Schema, a: Acl) {
    && ValidId(a.name) && Plain(a.name)
    && WellFormed(a.target) && a.target != []
    && (a.attrs.Every? || ListInLimits(sc, a.attrs.names))
    && 0 < |a.perms| <= MAX_PERMS
    && (HasDN(a.subject) ==> WellFormed(a.subject.dn) && a.subject.dn != [])
    && |Print(Compile(a))| <= MAX_TEXT
  }

  // ---------------------------------------------------------------------------
  // Lexing the clauses
  // ---------------------------------------------------------------------------

  /** A run of characters the lexer keeps together. */
  predicate IsWord(w: string) { w != "" && forall i :: 0 <= i < |w| ==> !IsDelim(w[i]) }

  lemma Keywords()
    ensures IsWord("target") && IsWord("targetattr") && IsWord("userdn") && IsWord("groupdn")
    ensures IsWord("version") && IsWord("3.0") && IsWord("acl") && IsWord("allow") && IsWord("deny")
  {
    BodyWords();
  }

  lemma BodyWords()
    ensures IsWord("version") && IsWord("3.0") && IsWord("acl") && IsWord("allow") && IsWord("deny")
  {
  }

  /** A word ends at punctuation, and at a space. */
  lemma LexWordThen(w: string, c: char, t: Token, rest: string)
    requires IsWord(w) && Punctuation(c) == Some(t)
    ensures Lex(w + ([c] + rest)) == Then([Word(w), t], Lex(rest))
  {
    LexWord(w, [c] + rest);
    LexPunctuation(c, rest);
    hide Lex, IsDelim, Punctuation;
    ThenThen([Word(w)], [t], [Word(w), t], Lex(rest));
  }

  lemma LexWordSpace(w: string, rest: string)
    requires IsWord(w)
    ensures Lex(w + ([' '] + rest)) == Then([Word(w)], Lex(rest))
  {
    LexWord(w, [' '] + rest);
    LexSpace(rest);
  }

  lemma LexOne(c: char, t: Token, rest: string)
    requires Punctuation(c) == Some(t)
    ensures Lex([c] + rest) == Then([t], Lex(rest))
  {
    LexPunctuation(c, rest);
  }

  lemma {:induction false} EscapeKeeps(p: string, v: string)
    requires forall i :: 0 <= i < |p| ==> EscapedChar(p[i]) == [p[i]]
    ensures AciEscape(p + v) == p + AciEscape(v)
  {
    if p == "" {
      assert p + v == v && p + AciEscape(v) == AciEscape(v);
    } else {
      EscapeKeeps(p[1..], v);
      assert (p + v)[1..] == p[1..] + v && (p + v)[0] == p[0];
      ConcatAssoc([p[0]], p[1..], AciEscape(v));
      assert p == [p[0]] + p[1..];
    }
  }

  /** "ldap:///dn" in quotes. */
  lemma LexUrl(v: string, rest: string)
    requires ValidUtf8(v)
    ensures Lex(['"'] + ("ldap:///" + (AciEscape(v) + (['"'] + rest))))
              == Then([QString("ldap:///" + Unix(v))], Lex(rest))
  {
    hide Lex, ValidUtf8, AciEscape, Unquote;
    var u := "ldap:///" + v;
    EscapeKeeps("ldap:///", v);
    UnquoteEscaped(u, rest);
    UnixConcat("ldap:///", v);
    UnixSame("ldap:///");
    AsciiUtf8("ldap:///");
    Utf8Append("ldap:///", v);
    UnixKeepsUtf8(u);
    ConcatAssoc("ldap:///", AciEscape(v), ['"'] + rest);
    LexQuoted(AciEscape(u), Unix(u), rest);
  }

  lemma TargetLiteral(x: string)
    ensures "(target=\"ldap:///" + x == ['('] + ("target" + (['='] + (['"'] + ("ldap:///" + x))))
  {
  }

  lemma CloseLiteral(x: string)
    ensures "\")" + x == ['"'] + ([')'] + x)
  {
  }

  lemma LexTarget(v: string, rest: string)
    requires ValidUtf8(v)
    ensures Lex("(target=\"ldap:///" + (AciEscape(v) + ("\")" + rest))) ==
            Then([LParen, Word("target"), Equals, QString("ldap:///" + Unix(v)), RParen], Lex(rest))
  {
    hide Lex, ValidUtf8, AciEscape, Then, IsWord, Unix;
    Keywords();
    CloseLiteral(rest);
    var x := AciEscape(v) + ("\")" + rest);
    TargetLiteral(x);
    LexOne('(', LParen, "target" + (['='] + (['"'] + ("ldap:///" + x))));
    LexWordThen("target", '=', Equals, ['"'] + ("ldap:///" + x));
    LexUrl(v, [')'] + rest);
    LexOne(')', RParen, rest);
    var r, q := Lex(rest), QString("ldap:///" + Unix(v));
    ThenThen([q], [RParen], [q, RParen], r);
    ThenThen([Word("target"), Equals], [q, RParen], [Word("target"), Equals, q, RParen], r);
    ThenThen([LParen], [Word("target"), Equals, q, RParen], [LParen, Word("target"), Equals, q, RParen], r);
  }

  lemma AttrLiteral(x: string)
    ensures "(targetattr=\"" + x == ['('] + ("targetattr" + (['='] + (['"'] + x)))
    ensures "(targetattr!=\"" + x == ['('] + ("targetattr" + (['!'] + (['='] + (['"'] + x))))
  {
  }

  lemma LexRaw(v: string, rest: string)
    requires Plain(v)
    ensures Lex(['"'] + (v + (['"'] + rest))) == Then([QString(v)], Lex(rest))
  {
    hide Lex, ValidUtf8;
    UnquoteRaw(v, rest);
    LexQuoted(v, v, rest);
  }

  function AttrTokens(v: string, negate: bool): seq<Token> {
    if negate then [LParen, Word("targetattr"), Bang, Equals, QString(v), RParen]
    else [LParen, Word("targetattr"), Equals, QString(v), RParen]
  }

  lemma LexAttrs(v: string, negate: bool, rest: string)
    requires Plain(v)
    ensures Lex((if negate then "(targetattr!=\"" else "(targetattr=\"") + (v + ("\")" + rest))) ==
            Then(AttrTokens(v, negate), Lex(rest))
  {
    hide Lex, ValidUtf8, Plain, Then, IsWord;
    Keywords();
    CloseLiteral(rest);
    var x := v + ("\")" + rest);
    AttrLiteral(x);
    LexRaw(v, [')'] + rest);
    LexOne(')', RParen, rest);
    var r, w, q := Lex(rest), Word("targetattr"), QString(v);
    ThenThen([q], [RParen], [q, RParen], r);
    if negate {
      LexOne('(', LParen, "targetattr" + (['!'] + (['='] + (['"'] + x))));
      LexWordThen("targetattr", '!', Bang, ['='] + (['"'] + x));
      LexOne('=', Equals, ['"'] + x);
      ThenThen([Equals], [q, RParen], [Equals, q, RParen], r);
      ThenThen([w, Bang], [Equals, q, RParen], [w, Bang, Equals, q, RParen], r);
      ThenThen([LParen], [w, Bang, Equals, q, RParen], AttrTokens(v, negate), r);
    } else {
      LexOne('(', LParen, "targetattr" + (['='] + (['"'] + x)));
      LexWordThen("targetattr", '=', Equals, ['"'] + x);
      ThenThen([w, Equals], [q, RParen], [w, Equals, q, RParen], r);
      ThenThen([LParen], [w, Equals, q, RParen], AttrTokens(v, negate), r);
    }
  }

  // The bind rule clause, part by part.

  function PermTokens(perms: seq<Permission>): seq<Token> {
    if perms == [] then []
    else if |perms| == 1 then [Word(PermWord(perms[0]))]
    else [Word(PermWord(perms[0])), Comma] + PermTokens(perms[1..])
  }

  lemma PermWordPlain(p: Permission)
    ensures IsWord(PermWord(p)) && Lower(PermWord(p)) == PermWord(p) && PermOf(PermWord(p)) == Some(p)
  {
  }

  lemma {:induction false} LexPerms(perms: seq<Permission>, rest: string)
    requires perms != []
    ensures Lex(Join(PermWords(perms)) + ([')'] + rest)) == Then(PermTokens(perms), Lex([')'] + rest))
  {
    hide Lex, PermWord, Then, IsWord;
    PermWordPlain(perms[0]);
    var w := PermWord(perms[0]);
    var ws := PermWords(perms);
    var r := Lex([')'] + rest);
    if |perms| == 1 {
      LexWordThen(w, ')', RParen, rest);
      LexOne(')', RParen, rest);
      ThenThen([Word(w)], [RParen], [Word(w), RParen], Lex(rest));
    } else {
      assert ws[1..] == PermWords(perms[1..]);
      var more := Join(PermWords(perms[1..])) + ([')'] + rest);
      LexPerms(perms[1..], rest);
      ConcatAssoc([','], Join(ws[1..]), [')'] + rest);
      ConcatAssoc(w, [','] + Join(ws[1..]), [')'] + rest);
      LexWordThen(w, ',', Comma, more);
      ThenThen([Word(w), Comma], PermTokens(perms[1..]), PermTokens(perms), r);
    }
  }

  /** The text of a bind rule's URL. */
  function UrlOf(s: Subject): string {
    match s
    case UserDN(d) => Unix(String(d))
    case GroupDN(d) => Unix(String(d))
    case Anyone => "anyone" case AllUsers => "all" case Self => "self"
  }

  function WhoTokens(s: Subject): seq<Token> {
    [Word(if s.GroupDN? then "groupdn" else "userdn"), Equals, QString("ldap:///" + UrlOf(s))]
  }

  lemma WhoLiteral(x: string)
    ensures "userdn=\"ldap:///" + x == "userdn" + (['='] + (['"'] + ("ldap:///" + x)))
    ensures "groupdn=\"ldap:///" + x == "groupdn" + (['='] + (['"'] + ("ldap:///" + x)))
    ensures "\"" + x == ['"'] + x
  {
  }

  lemma PlainEscape(p: string)
    requires forall i :: 0 <= i < |p| ==> EscapedChar(p[i]) == [p[i]]
    ensures AciEscape(p) == p
  {
    EscapeKeeps(p, "");
    assert p + "" == p && p + AciEscape("") == p;
  }

  lemma KeywordLiteral(x: string)
    ensures "userdn=\"ldap:///anyone\"" + x
              == "userdn" + (['='] + (['"'] + ("ldap:///" + (AciEscape("anyone") + (['"'] + x)))))
  {
    PlainEscape("anyone");
    hide AciEscape;
    KeywordParts("anyone", x);
    assert "userdn=\"ldap:///anyone\"" == "userdn=\"ldap:///" + ("anyone" + "\"");
  }

  lemma KeywordParts(w: string, x: string)
    ensures ("userdn=\"ldap:///" + (w + "\"")) + x
              == "userdn" + (['='] + (['"'] + ("ldap:///" + (w + (['"'] + x)))))
  {
    WhoLiteral(w + (['"'] + x));
    ConcatAssoc(w, "\"", x);
    ConcatAssoc("userdn=\"ldap:///", w + "\"", x);
  }

  lemma KeywordLiteralAll(x: string)
    ensures "userdn=\"ldap:///all\"" + x
              == "userdn" + (['='] + (['"'] + ("ldap:///" + (AciEscape("all") + (['"'] + x)))))
  {
    PlainEscape("all");
    hide AciEscape;
    KeywordParts("all", x);
    assert "userdn=\"ldap:///all\"" == "userdn=\"ldap:///" + ("all" + "\"");
  }

  lemma KeywordLiteralSelf(x: string)
    ensures "userdn=\"ldap:///self\"" + x
              == "userdn" + (['='] + (['"'] + ("ldap:///" + (AciEscape("self") + (['"'] + x)))))
  {
    PlainEscape("self");
    hide AciEscape;
    KeywordParts("self", x);
    assert "userdn=\"ldap:///self\"" == "userdn=\"ldap:///" + ("self" + "\"");
  }

  lemma LexWhoUrl(key: string, v: string, rest: string)
    requires ValidUtf8(v) && (key == "userdn" || key == "groupdn")
    ensures Lex(key + (['='] + (['"'] + ("ldap:///" + (AciEscape(v) + (['"'] + rest)))))) ==
            Then([Word(key), Equals, QString("ldap:///" + Unix(v))], Lex(rest))
  {
    hide Lex, ValidUtf8, AciEscape, Then, IsWord, Unix;
    Keywords();
    LexWordThen(key, '=', Equals, ['"'] + ("ldap:///" + (AciEscape(v) + (['"'] + rest))));
    LexUrl(v, rest);
    var q := QString("ldap:///" + Unix(v));
    ThenThen([Word(key), Equals], [q], [Word(key), Equals, q], Lex(rest));
  }

  lemma LexWho(s: Subject, rest: string)
    requires HasDN(s) ==> WellFormed(s.dn)
    ensures Lex(WhoText(s) + rest) == Then(WhoTokens(s), Lex(rest))
  {
    hide Lex, ValidUtf8, AciEscape, String, WellFormed, Then, Unix;
    if HasDN(s) {
      var v := String(s.dn);
      var key := if s.GroupDN? then "groupdn" else "userdn";
      StringUtf8(s.dn);
      LexWhoUrl(key, v, rest);
      var head := if s.GroupDN? then "groupdn=\"ldap:///" else "userdn=\"ldap:///";
      ConcatAssoc(AciEscape(v), "\"", rest);
      ConcatAssoc(head, AciEscape(v) + "\"", rest);
      WhoLiteral(rest);
      WhoLiteral(AciEscape(v) + (['"'] + rest));
    } else if s.Anyone? {
      KeywordLiteral(rest);
      AsciiUtf8("anyone");
      UnixSame("anyone");
      LexWhoUrl("userdn", "anyone", rest);
    } else if s.AllUsers? {
      KeywordLiteralAll(rest);
      AsciiUtf8("all");
      UnixSame("all");
      LexWhoUrl("userdn", "all", rest);
    } else {
      KeywordLiteralSelf(rest);
      AsciiUtf8("self");
      UnixSame("self");
      LexWhoUrl("userdn", "self", rest);
    }
  }

  lemma BodyLiterals(x: string)
    ensures "(version 3.0; acl \"" + x ==
            ['('] + ("version" + ([' '] + ("3.0" + ([';'] + ([' '] + ("acl" + ([' '] + (['"'] + x))))))))
    ensures "\"; allow (" + x == ['"'] + ([';'] + ([' '] + ("allow" + ([' '] + (['('] + x)))))
    ensures "\"; deny (" + x == ['"'] + ([';'] + ([' '] + ("deny" + ([' '] + (['('] + x)))))
    ensures ") " + x == [')'] + ([' '] + x)
    ensures ";)" == [';'] + ([')'] + "")
  {
  }

  lemma LexVersion(x: string)
    ensures Lex("(version 3.0; acl \"" + x)
              == Then([LParen, Word("version"), Word("3.0"), Semi, Word("acl")], Lex(['"'] + x))
  {
    hide Lex, Then, IsWord;
    Keywords();
    BodyLiterals(x);
    var a := ['"'] + x;
    var r := Lex(a);
    var c := "acl" + ([' '] + a);
    LexWordSpace("acl", a);
    LexSpace(c);
    LexWordThen("3.0", ';', Semi, [' '] + c);
    LexWordSpace("version", "3.0" + ([';'] + ([' '] + c)));
    LexOne('(', LParen, "version" + ([' '] + ("3.0" + ([';'] + ([' '] + c)))));
    ThenThen([Word("3.0"), Semi], [Word("acl")], [Word("3.0"), Semi, Word("acl")], r);
    ThenThen([Word("version")], [Word("3.0"), Semi, Word("acl")], [Word("version"), Word("3.0"), Semi, Word("acl")], r);
    ThenThen([LParen], [Word("version"), Word("3.0"), Semi, Word("acl")],
        [LParen, Word("version"), Word("3.0"), Semi, Word("acl")], r);
  }

  lemma LexAction(action: string, x: string)
    requires IsWord(action)
    ensures Lex([';'] + ([' '] + (action + ([' '] + (['('] + x))))) == Then([Semi, Word(action), LParen], Lex(x))
  {
    hide Lex, Then, IsWord;
    var r := Lex(x);
    LexOne('(', LParen, x);
    LexWordSpace(action, ['('] + x);
    LexSpace(action + ([' '] + (['('] + x)));
    LexOne(';', Semi, [' '] + (action + ([' '] + (['('] + x))));
    ThenThen([Word(action)], [LParen], [Word(action), LParen], r);
    ThenThen([Semi], [Word(action), LParen], [Semi, Word(action), LParen], r);
  }

  function Action(deny: bool): string { if deny then "deny" else "allow" }

  function BodyTokens(b: Body): seq<Token> {
    [LParen, Word("version"), Word("3.0"), Semi, Word("acl"), QString(b.id), Semi, Word(Action(b.deny)), LParen]
    + PermTokens(b.perms) + [RParen] + WhoTokens(b.subject) + [Semi, RParen]
  }

  /** q stands for id in quotes. */
  ghost predicate Quotes(q: string, id: string) {
    ValidUtf8(id) && forall rest :: Unquote(q + (['"'] + rest)) == Some((id, rest))
  }

  lemma PlainQuotes(v: string)
    requires Plain(v)
    ensures Quotes(v, v)
  {
    hide Unquote, ValidUtf8;
    forall rest ensures Unquote(v + (['"'] + rest)) == Some((v, rest)) {
      UnquoteRaw(v, rest);
    }
  }

  lemma EscapedQuotes(v: string)
    requires ValidUtf8(v) && '\r' !in v
    ensures Quotes(AciEscape(v), v)
  {
    hide Unquote, AciEscape, ValidUtf8;
    UnixSame(v);
    forall rest ensures Unquote(AciEscape(v) + (['"'] + rest)) == Some((v, rest)) {
      UnquoteEscaped(v, rest);
    }
  }

  lemma LexBodyEnd(s: Subject)
    requires HasDN(s) ==> WellFormed(s.dn)
    ensures Lex([')'] + ([' '] + (WhoText(s) + ";)"))) == Some([RParen] + WhoTokens(s) + [Semi, RParen])
  {
    hide Lex, WhoText, WhoTokens;
    BodyLiterals("");
    LexOne(')', RParen, "");
    LexOne(';', Semi, [')'] + "");
    LexEmpty();
    LexWho(s, ";)");
    BodyLiterals(WhoText(s) + ";)");
    LexSpace(WhoText(s) + ";)");
    LexOne(')', RParen, [' '] + (WhoText(s) + ";)"));
    assert [Semi] + ([RParen] + []) == [Semi, RParen];
    ConcatAssoc([RParen], WhoTokens(s), [Semi, RParen]);
  }

  lemma LexEmpty()
    ensures Lex("") == Some([])
  {
  }

  /** What follows the name in quotes. */
  function BodyRest(b: Body): string {
    (if b.deny then "\"; deny (" else "\"; allow (")
    + (Join(PermWords(b.perms)) + (") " + (WhoText(b.subject) + ";)")))
  }

  lemma LexBody(q: string, b: Body)
    requires Quotes(q, b.id) && b.perms != [] && (HasDN(b.subject) ==> WellFormed(b.subject.dn))
    ensures Lex("(version 3.0; acl \"" + (q + BodyRest(b))) == Some(BodyTokens(b))
  {
    hide Lex, WhoText, WhoTokens, Join, PermTokens, Unquote, ValidUtf8, IsWord;
    var e := WhoText(b.subject) + ";)";
    BodyLiterals(e);
    LexBodyEnd(b.subject);
    var p := Join(PermWords(b.perms)) + (") " + e);
    LexPerms(b.perms, [' '] + e);
    BodyLiterals(p);
    Keywords();
    var w := Word(Action(b.deny));
    LexAction(Action(b.deny), p);
    var s := [';'] + ([' '] + (Action(b.deny) + ([' '] + (['('] + p))));
    LexQuoted(q, b.id, s);
    LexVersion(q + (['"'] + s));
    var tail := [RParen] + WhoTokens(b.subject) + [Semi, RParen];
    var r := Some(PermTokens(b.perms) + tail);
    var mid := [QString(b.id), Semi, w, LParen];
    ThenThen([QString(b.id)], [Semi, w, LParen], mid, r);
    var head := [LParen, Word("version"), Word("3.0"), Semi, Word("acl"), QString(b.id), Semi, w, LParen];
    ThenThen([LParen, Word("version"), Word("3.0"), Semi, Word("acl")], mid, head, r);
    BodyJoined(b);
    hide BodyTokens;
  }

  lemma BodyJoined(b: Body)
    ensures BodyTokens(b) ==
            [LParen, Word("version"), Word("3.0"), Semi, Word("acl"), QString(b.id), Semi, Word(Action(b.deny)), LParen]
            + (PermTokens(b.perms) + ([RParen] + WhoTokens(b.subject) + [Semi, RParen]))
  {
    hide PermTokens, WhoTokens;
  }

  // ---------------------------------------------------------------------------
  // Attribute lists
  // ---------------------------------------------------------------------------

  predicate NoBar(s: string) { '|' !in s }

  lemma {:induction false} SplitBehind(n: string, t: string)
    requires NoBar(n)
    ensures SplitBars(n + t) == [n + SplitBars(t)[0]] + SplitBars(t)[1..]
  {
    if n == "" {
      assert n + t == t && n + SplitBars(t)[0] == SplitBars(t)[0];
    } else {
      SplitBehind(n[1..], t);
      assert (n + t)[1..] == n[1..] + t && (n + t)[0] == n[0];
      assert n == [n[0]] + n[1..];
      ConcatAssoc([n[0]], n[1..], SplitBars(t)[0]);
    }
  }

  lemma SplitSeparator(t: string)
    ensures SplitBars(" || " + t) == [" "] + ([" " + SplitBars(t)[0]] + SplitBars(t)[1..])
  {
    var s := " || " + t;
    assert s[1..][2..] == " " + t;
    SplitBehind(" ", t);
    assert s[0] == ' ' && s[1..][0] == '|' && s[1..][1] == '|';
    assert SplitBars(s[1..]) == [""] + SplitBars(" " + t);
    assert SplitBars(s) == [[' '] + ""] + SplitBars(" " + t);
    assert [' '] + "" == " ";
  }

  /** p is n with at most one space on either side. */
  predicate Padded(p: string, n: string) { p == n || p == " " + n || p == n + " " || p == " " + (n + " ") }

  predicate Solid(n: string) { n != "" && !IsSpace(n[0]) && !IsSpace(n[|n| - 1]) }

  lemma TrimPadded(p: string, n: string)
    requires Padded(p, n) && Solid(n)
    ensures TrimSpace(p) == n
  {
    var q := if p == n || p == " " + n then n else n + " ";
    assert TrimSpaceLeft(q) == q by { assert q[0] == n[0]; }
    if p == " " + q { assert p[1..] == q; }
    assert TrimSpaceLeft(p) == q;
    assert TrimSpaceRight(n) == n;
    if q != n {
      assert q[..|q| - 1] == n && q[|q| - 1] == ' ';
      assert TrimSpaceRight(q) == TrimSpaceRight(n);
    }
  }

  lemma {:induction false} SplitJoined(names: seq<string>)
    requires names != [] && forall i :: 0 <= i < |names| ==> NoBar(names[i])
    ensures var parts := SplitBars(JoinBars(names));
      && |parts| == |names|
      && (parts[0] == names[0] || parts[0] == names[0] + " ")
      && forall i :: 0 <= i < |names| ==> Padded(parts[i], names[i])
  {
    hide NoBar;
    var n := names[0];
    if |names| == 1 {
      SplitBehind(n, "");
      assert n + "" == n && SplitBars("") == [""];
    } else {
      var rest := JoinBars(names[1..]);
      SplitJoined(names[1..]);
      SplitSeparator(rest);
      SplitBehind(n, " || " + rest);
      var ps := SplitBars(rest);
      var parts := SplitBars(JoinBars(names));
      hide SplitBars, JoinBars, Padded;
      assert parts == [n + " "] + ([" " + ps[0]] + ps[1..]);
      MorePadded(names, ps, parts);
    }
  }

  lemma MorePadded(names: seq<string>, ps: seq<string>, parts: seq<string>)
    requires |names| > 1 && |ps| == |names| - 1 && parts == [names[0] + " "] + ([" " + ps[0]] + ps[1..])
    requires ps[0] == names[1] || ps[0] == names[1] + " "
    requires forall i :: 0 <= i < |ps| ==> Padded(ps[i], names[1..][i])
    ensures |parts| == |names| && forall i :: 0 <= i < |names| ==> Padded(parts[i], names[i])
  {
    forall i | 0 <= i < |names| ensures Padded(parts[i], names[i]) {
      if i > 1 {
        assert parts[i] == ps[i - 1] && names[i] == names[1..][i - 1] && Padded(ps[i - 1], names[1..][i - 1]);
      }
    }
  }

  /** Text that can stand in a list as it is. */
  predicate Listable(n: string) {
    NoBar(n) && Solid(n) && '"' !in n && '\\' !in n && forall i :: 0 <= i < |n| ==> n[i] as int < 0x80
  }

  lemma NameFacts(n: string)
    requires AttrName(n) || AttrOid(n)
    ensures Listable(n)
  {
    if AttrOid(n) {
      forall i | 0 <= i < |n| ensures IsLetter(n[i]) || IsDigit(n[i]) || n[i] in "-;." {
        if i < CutAt(n) { assert n[..CutAt(n)][i] == n[i]; }
      }
    }
  }

  lemma {:induction false} JoinedPlain(names: seq<string>)
    requires forall i :: 0 <= i < |names| ==> Listable(names[i])
    ensures '"' !in JoinBars(names) && '\\' !in JoinBars(names) && forall i :: 0 <= i < |JoinBars(names)| ==>
              JoinBars(names)[i] as int < 0x80
  {
    if names != [] {
      JoinedPlain(names[1..]);
      if |names| > 1 {
        var t := " || " + JoinBars(names[1..]);
        assert '"' !in t && '\\' !in t && forall i :: 0 <= i < |t| ==> t[i] as int < 0x80;
      }
    }
  }

  /**
   * A printed list is accepted exactly when it is short enough and every name in it is; a star
   * in a positive list stands for all attributes, and any other list is read name by name.
   */
  lemma ListRead(sc: Schema, names: seq<string>, negate: bool)
    requires names != [] && forall i :: 0 <= i < |names| ==> Listable(names[i])
    ensures Plain(JoinBars(names))
    ensures AttrList(sc, negate, JoinBars(names)) ==
            if |names| > MAX_ATTRS || exists i :: 0 <= i < |names| && !AcceptedAttr(sc, names[i]) then None
            else if "*" in names && !negate then Some((AllAttrs, []))
            else Some((if negate then DenyList else AllowList, names))
  {
    hide SplitBars, AttrName, NoBar, Padded, JoinBars, Solid, ValidUtf8, AcceptedAttr;
    JoinedPlain(names);
    AsciiUtf8(JoinBars(names));
    SplitJoined(names);
    var parts := SplitBars(JoinBars(names));
    forall i | 0 <= i < |names| ensures TrimSpace(parts[i]) == names[i] {
      TrimPadded(parts[i], names[i]);
    }
    assert Trimmed(parts) == names;
  }

  /** The list is read back name by name. */
  lemma ListRoundTrip(sc: Schema, names: seq<string>, negate: bool)
    requires ListInLimits(sc, names)
    ensures Plain(JoinBars(names)) && JoinBars(names) != "" && JoinBars(names) != "*"
    ensures AttrList(sc, negate, JoinBars(names)) == Some((if negate then DenyList else AllowList, names))
  {
    hide AttrName, AttrOid, Listable, AttrList, JoinBars;
    forall i | 0 <= i < |names| ensures Listable(names[i]) && AcceptedAttr(sc, names[i]) && names[i] != "*" {
      assert ListedName(sc, names[i]);
      NameFacts(names[i]);
    }
    ListRead(sc, names, negate);
    JoinedNotBare(sc, names);
  }

  lemma JoinedNotBare(sc: Schema, names: seq<string>)
    requires ListInLimits(sc, names)
    ensures JoinBars(names) != "" && JoinBars(names) != "*"
  {
    assert ListedName(sc, names[0]);
    NameFacts(names[0]);
  }

  // ---------------------------------------------------------------------------
  // Parsing
  // ---------------------------------------------------------------------------

  /** What an instruction is read back as. */
  function Expected(a: Acl): ParsedACI {
    ParsedACI(a.name, a.target,
              match a.attrs case Every => AllAttrs case Allow(_) => AllowList case Deny(_) => DenyList,
              match a.attrs case Every => [] case Allow(names) => names case Deny(names) => names,
              false, a.perms, a.subject)
  }

  function BodyOf(a: Acl): Body { Body(a.name, false, a.perms, a.subject) }

  lemma BodyRestIs(a: Acl)
    ensures var b := Compile(a); BodyRest(BodyOf(a)) == "\"; allow (" + (Join(b.perms) + (") " + (b.who + ";)")))
  {
  }

  function AttrTokensOf(a: Acl): seq<Token> {
    match a.attrs
    case Every => AttrTokens("*", false)
    case Allow(names) => AttrTokens(JoinBars(names), false)
    case Deny(names) => AttrTokens(JoinBars(names), true)
  }

  lemma LexAttrClause(sc: Schema, a: Acl, rest: string)
    requires a.attrs.Every? || ListInLimits(sc, a.attrs.names)
    ensures Lex(AttrText(Compile(a)) + rest) == Then(AttrTokensOf(a), Lex(rest))
  {
    hide Lex, Plain, AttrTokens, ListInLimits, AttrList, JoinBars;
    match a.attrs
    case Every =>
      PlainStar();
      LexAttrs("*", false, rest);
      StarLiteral(rest);
    case Allow(names) =>
      ListRoundTrip(sc, names, false);
      LexAttrs(JoinBars(names), false, rest);
      AttrAssoc(JoinBars(names), rest);
    case Deny(names) =>
      ListRoundTrip(sc, names, true);
      LexAttrs(JoinBars(names), true, rest);
      AttrAssoc(JoinBars(names), rest);
  }

  lemma PlainStar()
    ensures Plain("*")
  {
    AsciiUtf8("*");
  }

  lemma StarLiteral(rest: string)
    ensures "(targetattr=\"*\")" + rest == "(targetattr=\"" + ("*" + ("\")" + rest))
  {
  }

  lemma AttrAssoc(v: string, rest: string)
    ensures "(targetattr=\"" + (v + "\")") + rest == "(targetattr=\"" + (v + ("\")" + rest))
    ensures "(targetattr!=\"" + (v + "\")") + rest == "(targetattr!=\"" + (v + ("\")" + rest))
  {
    ConcatAssoc(v, "\")", rest);
    ConcatAssoc("(targetattr=\"", v + "\")", rest);
    ConcatAssoc("(targetattr!=\"", v + "\")", rest);
  }

  function TargetTokens(d: DN): seq<Token> {
    [LParen, Word("target"), Equals, QString("ldap:///" + Unix(String(d))), RParen]
  }

  lemma LexCompiled(sc: Schema, a: Acl)
    requires InLimits(sc, a)
    ensures Lex(Print(Compile(a))) == Some(TargetTokens(a.target) + (AttrTokensOf(a) + BodyTokens(BodyOf(a))))
  {
    hide Lex, BodyRest, String, WellFormed, AttrText, AttrTokensOf, BodyTokens, ListInLimits, WhoText, AciEscape, Plain,
        ValidId;
    var b := Compile(a);
    var body := "(version 3.0; acl \"" + (b.name + BodyRest(BodyOf(a)));
    PlainQuotes(a.name);
    LexBody(a.name, BodyOf(a));
    BodyRestIs(a);
    LexAttrClause(sc, a, body);
    StringUtf8(a.target);
    LexTarget(b.target, AttrText(b) + body);
  }

  lemma LdapUrl(v: string)
    ensures LdapRest("ldap:///" + v) == Some(v)
  {
    var u := "ldap:///" + v;
    assert u[..8] == "ldap:///" && u[8..] == v;
  }

  lemma TargetParsed(d: DN, rest: seq<Token>)
    ensures TargetClause(TargetTokens(d)[2..] + rest) ==
            if ParseDN(Unix(String(d))).Some? then Some((ParseDN(Unix(String(d))).value, rest)) else None
  {
    hide ParseDN, Unix, String, LdapRest;
    LdapUrl(Unix(String(d)));
    var ts := TargetTokens(d)[2..] + rest;
    assert ts[3..] == rest && ts[0] == Equals && ts[1] == QString("ldap:///" + Unix(String(d))) && ts[2] == RParen;
  }

  lemma AttrsParsed(sc: Schema, a: Acl, rest: seq<Token>)
    requires a.attrs.Every? || ListInLimits(sc, a.attrs.names)
    ensures AttrClause(sc, AttrTokensOf(a)[2..] + rest) == Some(((Expected(a).mode, Expected(a).attrs), rest))
  {
    hide AttrList, JoinBars, ListInLimits;
    match a.attrs
    case Every =>
      StarList(sc);
      ClauseTail("*", false, rest);
    case Allow(names) =>
      ListRoundTrip(sc, names, false);
      ClauseTail(JoinBars(names), false, rest);
    case Deny(names) =>
      ListRoundTrip(sc, names, true);
      ClauseTail(JoinBars(names), true, rest);
  }

  lemma ClauseTail(v: string, negate: bool, rest: seq<Token>)
    ensures var ts := AttrTokens(v, negate)[2..] + rest;
      var us := if negate then ts[1..] else ts;
      && |us| >= 3 && (ts[0] == Bang <==> negate) && us[0] == Equals && us[1] == QString(v) && us[2] == RParen
          && us[3..] == rest
  {
  }

  lemma StarList(sc: Schema)
    ensures AttrList(sc, false, "*") == Some((AllAttrs, []))
  {
    assert SplitBars("*") == ["*"] by {
      assert "*"[1..] == "" && SplitBars("") == [""];
      assert ['*'] + "" == "*";
    }
    assert TrimSpace("*") == "*";
    assert Trimmed(["*"]) == ["*"];
  }

  lemma {:induction false} PermsParsed(perms: seq<Permission>, acc: seq<Permission>, rest: seq<Token>)
    requires perms != [] && |acc| + |perms| <= MAX_PERMS
    ensures PermList(PermTokens(perms) + ([RParen] + rest), acc) == Some((acc + perms, rest))
    decreases perms
  {
    hide PermWord, PermOf, Lower, PermTokens;
    PermWordPlain(perms[0]);
    if |perms| == 1 {
      OnePerm(perms, rest);
      assert acc + [perms[0]] == acc + perms;
    } else {
      PermsParsed(perms[1..], acc + [perms[0]], rest);
      MorePerms(perms, rest);
      assert acc + [perms[0]] + perms[1..] == acc + perms;
    }
  }

  lemma OnePerm(perms: seq<Permission>, rest: seq<Token>)
    requires |perms| == 1
    ensures var ts := PermTokens(perms) + ([RParen] + rest);
      |ts| > 1 && ts[0] == Word(PermWord(perms[0])) && ts[1] == RParen && ts[2..] == rest
  {
    hide PermWord;
  }

  lemma MorePerms(perms: seq<Permission>, rest: seq<Token>)
    requires |perms| > 1
    ensures var ts := PermTokens(perms) + ([RParen] + rest);
      && |ts| > 2 && ts[0] == Word(PermWord(perms[0])) && ts[1] == Comma
      && ts[2..] == PermTokens(perms[1..]) + ([RParen] + rest)
  {
    hide PermWord;
  }

  /** What the parser makes of a printed bind rule. */
  function ReadSubject(s: Subject): Option<Subject> {
    if !HasDN(s) then Some(s)
    else
      var d := ParseDN(Unix(String(s.dn)));
      if d.None? then None else Some(if s.GroupDN? then GroupDN(d.value) else UserDN(d.value))
  }

  lemma SubjectParsed(s: Subject, rest: seq<Token>)
    requires HasDN(s) ==> WellFormed(s.dn) && s.dn != []
    ensures SubjectClause(WhoTokens(s) + rest) == if ReadSubject(s).Some? then Some((ReadSubject(s).value, rest))
              else None
  {
    hide ParseDN, String, WellFormed, Unix, LdapRest, Lower, SubjectOf;
    LdapUrl(UrlOf(s));
    var ts := WhoTokens(s) + rest;
    assert ts[3..] == rest && ts[0] == WhoTokens(s)[0] && ts[1] == Equals && ts[2] == QString("ldap:///" + UrlOf(s));
    LowerKeys();
    UrlSubject(s);
  }

  lemma LowerKeys()
    ensures Lower("userdn") == "userdn" && Lower("groupdn") == "groupdn"
  {
  }

  lemma UrlSubject(s: Subject)
    requires HasDN(s) ==> WellFormed(s.dn) && s.dn != []
    ensures SubjectOf(s.GroupDN?, UrlOf(s)) == ReadSubject(s)
  {
    hide ParseDN, String, WellFormed, Unix, Lower;
    KeywordsDiffer();
    if HasDN(s) { UrlHasEquals(s.dn); }
  }

  lemma KeywordsDiffer()
    ensures '=' !in "all" && '=' !in "anyone" && '=' !in "self"
    ensures Lower("all") == "all" && Lower("anyone") == "anyone" && Lower("self") == "self"
  {
  }

  /** A DN's text is no keyword: it holds an equals sign. */
  lemma UrlHasEquals(d: DN)
    requires WellFormed(d) && d != []
    ensures var u := Unix(String(d)); u != "" && '=' in Lower(u)
  {
    var s := String(d);
    assert '=' in RdnText(d[0]) && Texts(d)[0] == RdnText(d[0]);
    var k :| 0 <= k < |RdnText(d[0])| && RdnText(d[0])[k] == '=';
    assert s[k] == '=' && Unix(s)[k] == '=' && Lower(Unix(s))[k] == '=';
  }

  lemma BodyParsed(b: Body)
    requires ValidId(b.id) && 0 < |b.perms| <= MAX_PERMS
    requires HasDN(b.subject) ==> WellFormed(b.subject.dn) && b.subject.dn != []
    ensures BodyClause(BodyTokens(b)[2..]) ==
            if ReadSubject(b.subject).Some? then Some((BodyRead(b), [])) else None
  {
    hide PermTokens, PermList, WhoTokens, SubjectClause, ReadSubject, ValidId, WellFormed;
    var ts := BodyTokens(b)[2..];
    var tail := WhoTokens(b.subject) + [Semi, RParen];
    PermsParsed(b.perms, [], tail);
    SubjectParsed(b.subject, [Semi, RParen]);
    assert ts[7..] == PermTokens(b.perms) + ([RParen] + tail);
    assert ts[0] == Word("3.0") && ts[1] == Semi && ts[2] == Word("acl") && ts[3] == QString(b.id) && ts[4] == Semi
           && ts[5] == Word(Action(b.deny)) && ts[6] == LParen;
    assert [] + b.perms == b.perms;
    LowerActions();
  }

  lemma LowerActions()
    ensures Lower("allow") == "allow" && Lower("deny") == "deny" && EqualFold("acl", "acl") && "allow" != "deny"
  {
  }

  /** The body as it is read back. */
  function BodyRead(b: Body): Body
    requires ReadSubject(b.subject).Some?
  {
    b.(subject := ReadSubject(b.subject).value)
  }

  lemma ClauseNames()
    ensures Lower("target") == "target" && Lower("targetattr") == "targetattr" && Lower("version") == "version"
  {
  }

  lemma ParsedTokens(sc: Schema, a: Acl)
    requires InLimits(sc, a)
    ensures Clauses(sc, TargetTokens(a.target) + (AttrTokensOf(a) + BodyTokens(BodyOf(a))),
              Partial(None, None, None)) ==
            if ParseDN(Unix(String(a.target))).Some? && ReadSubject(a.subject).Some?
            then Some(Partial(Some(ParseDN(Unix(String(a.target))).value), Some((Expected(a).mode, Expected(a).attrs)),
                              Some(BodyRead(BodyOf(a)))))
            else None
  {
    hide Clause, ParseDN, ReadSubject, ListInLimits, ValidId, WellFormed, Unix, String, Expected, Plain, TargetTokens,
        AttrTokensOf, BodyTokens;
    var p0 := Partial(None, None, None);
    var us := AttrTokensOf(a) + BodyTokens(BodyOf(a));
    var ts := TargetTokens(a.target) + us;
    TargetStep(sc, a.target, us, p0);
    var t := ParseDN(Unix(String(a.target)));
    if t.Some? {
      var p1 := p0.(target := Some(t.value));
      var p2 := p1.(attrs := Some((Expected(a).mode, Expected(a).attrs)));
      AttrStep(sc, a, BodyTokens(BodyOf(a)), p1);
      BodyStep(sc, BodyOf(a), p2);
      if ReadSubject(a.subject).Some? {
        var p3 := p2.(body := Some(BodyRead(BodyOf(a))));
        assert Clauses(sc, [], p3) == Some(p3);
        assert Clauses(sc, BodyTokens(BodyOf(a)), p2) == Some(p3);
      }
      assert Clauses(sc, us, p1) == Clauses(sc, BodyTokens(BodyOf(a)), p2);
    }
  }

  lemma TargetStep(sc: Schema, d: DN, rest: seq<Token>, p: Partial)
    requires p.target.None?
    ensures TargetTokens(d) + rest != []
    ensures Clause(sc, TargetTokens(d) + rest, p) ==
            var r := ParseDN(Unix(String(d))); if r.Some? then Some((p.(target := r), rest)) else None
  {
    hide TargetClause, ParseDN, Unix, String, Lower;
    ClauseNames();
    TargetParsed(d, rest);
    var ts := TargetTokens(d) + rest;
    assert ts[2..] == TargetTokens(d)[2..] + rest && ts[0] == LParen && ts[1] == Word("target");
  }

  lemma AttrStep(sc: Schema, a: Acl, rest: seq<Token>, p: Partial)
    requires p.attrs.None? && (a.attrs.Every? || ListInLimits(sc, a.attrs.names))
    ensures AttrTokensOf(a) + rest != []
    ensures Clause(sc, AttrTokensOf(a) + rest, p)
              == Some((p.(attrs := Some((Expected(a).mode, Expected(a).attrs))), rest))
  {
    hide AttrClause, ListInLimits, Expected, Lower, JoinBars;
    ClauseNames();
    AttrsParsed(sc, a, rest);
    var ts := AttrTokensOf(a) + rest;
    assert ts[2..] == AttrTokensOf(a)[2..] + rest && ts[0] == LParen && ts[1] == Word("targetattr");
  }

  lemma BodyStep(sc: Schema, b: Body, p: Partial)
    requires p.body.None? && ValidId(b.id) && 0 < |b.perms| <= MAX_PERMS
    requires HasDN(b.subject) ==> WellFormed(b.subject.dn) && b.subject.dn != []
    ensures BodyTokens(b) != []
    ensures Clause(sc, BodyTokens(b), p) ==
            if ReadSubject(b.subject).Some? then Some((p.(body := Some(BodyRead(b))), [])) else None
  {
    hide BodyClause, ReadSubject, ValidId, WellFormed, PermTokens, WhoTokens, Lower;
    ClauseNames();
    BodyParsed(b);
    var ts := BodyTokens(b);
    assert ts[0] == LParen && ts[1] == Word("version");
  }

  /**
   * Parsing the compiler's text gives back the instruction, with its target, attribute
   * clause, permissions and subject, exactly when its DNs survive: no carriage return
   * in a value and no value that ends in a tab.
   */
  lemma CompiledRoundTrip(sc: Schema, a: Acl)
    requires InLimits(sc, a)
    ensures ParseAci(sc, Print(Compile(a))) == Some(Expected(a)) <==>
              Survives(a.target) && (HasDN(a.subject) ==> Survives(a.subject.dn))
  {
    hide Lex, Clauses, Survives, ParseDN, String, Unix, ListInLimits, ValidId, WellFormed, Plain, TargetTokens,
        AttrTokensOf, BodyTokens;
    LexCompiled(sc, a);
    ParsedTokens(sc, a);
    DnRoundTrip(a.target);
    if HasDN(a.subject) { DnRoundTrip(a.subject.dn); }
    PrintNotEmpty(Compile(a));
  }

  lemma PrintNotEmpty(b: Builder)
    ensures Print(b) != ""
  {
  }

  lemma PrintLength(b: Builder)
    ensures |Print(b)| <= 100 + |AciEscape(b.target)| + |AttrText(b)| + |b.name| + |Join(b.perms)| + |b.who|
  {
    hide AciEscape, AttrText, Join;
  }

  lemma ReturnText(d: DN)
    requires d == [Rdn("a", "\r")]
    ensures |AciEscape(String(d))| <= 10
  {
    hide AciEscape, EscapedChar;
    assert EscapeUpTo("\r", 1) == "\r";
    assert String(d) == ['a'] + (['='] + (['\r'] + ""));
    EscapeStep('a', ['='] + (['\r'] + ""));
    EscapeStep('=', ['\r'] + "");
    EscapeStep('\r', "");
  }

  /** Escaping adds at most three characters for each. */
  lemma EscapeStep(c: char, t: string)
    ensures |AciEscape([c] + t)| <= 3 + |AciEscape(t)| && AciEscape("") == ""
  {
    assert ([c] + t)[1..] == t;
  }

  /** So an instruction whose target holds one is read back with another target. */
  lemma CompiledReturnIsLost(sc: Schema) returns (a: Acl)
    ensures InLimits(sc, a) && ParseAci(sc, Print(Compile(a))) != Some(Expected(a))
  {
    var d := ReturnIsLost();
    a := Acl("a", d, Every, [Read], Anyone);
    ReturnText(d);
    hide String, AciEscape, ParseAci, Expected, TabFree;
    var b := Compile(a);
    PrintLength(b);
    assert PermWords(a.perms) == ["read"];
    assert ValidUtf8("a") && Plain("a") && ValidId("a");
    hide Print;
    CompiledRoundTrip(sc, a);
  }
}
