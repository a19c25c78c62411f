// LDIF as lines: folding and unfolding, and one attribute value as one logical line.
module LdifText {
  import opened Text
  import opened DnSyntax

  const LINE_WIDTH: nat := 76

  // ---------------------------------------------------------------------------
  // Folding (note 2 of RFC 2849)
  // ---------------------------------------------------------------------------

  /** rest written in pieces; every piece but the first goes on a line of its own behind a space. */
  function Folded(rest: string, first: bool): string
    decreases |rest|
  {
    var max := if first then LINE_WIDTH else LINE_WIDTH - 1;
    if rest == "" then ""
    else
      (if first then "" else ['\n', ' '])
      + (if |rest| <= max then rest else rest[..max] + Folded(rest[max..], false))
  }

  function FoldedLine(line: string): string { Folded(line, true) + ['\n'] }

  /** Every line break that a space follows disappears together with the space. */
  function Unfold(s: string): string {
    if s == "" then ""
    else if |s| >= 2 && s[0] == '\n' && s[1] == ' ' then Unfold(s[2..])
    else [s[0]] + Unfold(s[1..])
  }

  lemma {:induction false} UnfoldPlain(a: string, t: string)
    requires '\n' !in a
    ensures Unfold(a + t) == a + Unfold(t)
  {
    if a == "" {
      assert a + t == t && a + Unfold(t) == Unfold(t);
    } else {
      UnfoldPlain(a[1..], t);
      assert (a + t)[1..] == a[1..] + t && (a + t)[0] == a[0];
      ConcatAssoc([a[0]], a[1..], Unfold(t));
      assert a == [a[0]] + a[1..];
    }
  }

  lemma UnfoldBreak(t: string)
    ensures Unfold(['\n', ' '] + t) == Unfold(t)
    ensures t == "" || t[0] != ' ' ==> Unfold(['\n'] + t) == ['\n'] + Unfold(t)
  {
    assert (['\n', ' '] + t)[2..] == t;
    assert (['\n'] + t)[1..] == t;
  }

  lemma {:induction false} UnfoldFolded(rest: string, first: bool, tail: string)
    requires '\n' !in rest
    ensures Unfold(Folded(rest, first) + tail) == rest + Unfold(tail)
    decreases |rest|
  {
    hide Unfold;
    var max := if first then LINE_WIDTH else LINE_WIDTH - 1;
    if rest == "" {
      assert Folded(rest, first) + tail == tail && rest + Unfold(tail) == Unfold(tail);
    } else {
      var piece := if |rest| <= max then rest else rest[..max];
      var more := if |rest| <= max then "" else Folded(rest[max..], false);
      var body := piece + more;
      assert body == if |rest| <= max then rest else rest[..max] + Folded(rest[max..], false);
      var head := if first then "" else ['\n', ' '];
      assert Folded(rest, first) == head + body;
      ConcatAssoc(head, body, tail);
      ConcatAssoc(piece, more, tail);
      UnfoldBreak(body + tail);
      assert first ==> head + (body + tail) == body + tail;
      UnfoldPlain(piece, more + tail);
      if |rest| <= max {
        assert more + tail == tail;
      } else {
        UnfoldFolded(rest[max..], false, tail);
        assert rest == rest[..max] + rest[max..];
        ConcatAssoc(rest[..max], rest[max..], Unfold(tail));
      }
    }
  }

  /** Unfolding undoes folding, for lines of every length, when the next line does not begin with a space. */
  lemma UnfoldUndoesFold(line: string, tail: string)
    requires '\n' !in line && (tail == "" || tail[0] != ' ')
    ensures Unfold(FoldedLine(line) + tail) == line + (['\n'] + Unfold(tail))
  {
    hide Unfold, Folded;
    ConcatAssoc(Folded(line, true), ['\n'], tail);
    UnfoldFolded(line, true, ['\n'] + tail);
    UnfoldBreak(tail);
  }

  /** One round of the folding loop: what it appends, and what is left. */
  lemma FoldStep(b: string, rest: string, first: bool)
    requires rest != ""
    ensures var max := if first then LINE_WIDTH else LINE_WIDTH - 1;
      var b' := if first then b else b + ['\n'] + [' '];
      b + Folded(rest, first) == if |rest| <= max then b' + rest else b' + rest[..max] + Folded(rest[max..], false)
  {
    var max := if first then LINE_WIDTH else LINE_WIDTH - 1;
    var body := if |rest| <= max then rest else rest[..max] + Folded(rest[max..], false);
    var head := if first then "" else ['\n', ' '];
    assert Folded(rest, first) == head + body;
    hide Folded;
    ConcatAssoc(b, head, body);
    assert first ==> b + head == b;
    assert b + ['\n'] + [' '] == b + ['\n', ' '];
    if |rest| > max { ConcatAssoc(b + head, rest[..max], Folded(rest[max..], false)); }
  }

  lemma FoldedNothing(b: string, first: bool)
    ensures b + Folded("", first) == b
  {
  }

  method WriteFolded(line: string) returns (b: string)
    ensures b == FoldedLine(line)
  {
    hide Folded;
    b := "";
    var first := true;
    var rest := line;
    FoldedNothing(b, first);
    assert "" + Folded(line, true) == Folded(line, true);
    while |rest| > 0
      invariant b + Folded(rest, first) == Folded(line, true)
      decreases |rest|
    {
      FoldStep(b, rest, first);
      var max := LINE_WIDTH;
      if !first {
        b := b + ['\n'] + [' '];
        max := LINE_WIDTH - 1;
      }
      if |rest| <= max {
        return b + rest + ['\n'];
      }
      b := b + rest[..max];
      rest := rest[max..];
      first := false;
    }
    FoldedNothing(b, first);
    b := b + ['\n'];
  }

  method UnfoldLDIF(s: string) returns (out: string)
    ensures out == Unfold(s)
  {
    out := "";
    var i := 0;
    assert s[0..] == s && "" + Unfold(s) == Unfold(s);
    while i < |s|
      invariant i <= |s| && out + Unfold(s[i..]) == Unfold(s)
    {
      assert s[i..][1..] == s[i + 1..];
      if s[i] == '\n' && i + 1 < |s| && s[i + 1] == ' ' {
        assert s[i..][2..] == s[i + 2..];
        i := i + 2;
        continue;
      }
      ConcatAssoc(out, [s[i]], Unfold(s[i + 1..]));
      out := out + [s[i]];
      i := i + 1;
    }
    assert s[i..] == "" && out + "" == out;
  }

  // ---------------------------------------------------------------------------
  // One value, one line
  // ---------------------------------------------------------------------------

  /** Base64 as an encoder and a decoder that undo each other. */
  datatype Base64 = Base64(encode: string -> string, decode: string -> Option<string>)

  predicate IsBase64Char(c: char) { IsLetter(c) || IsDigit(c) || c == '+' || c == '/' || c == '=' }

  ghost predicate Lawful(b: Base64) {
    forall v ::
      b.decode(b.encode(v)) == Some(v) && forall i :: 0 <= i < |b.encode(v)| ==> IsBase64Char(b.encode(v)[i])
  }

  predicate SafeChar(c: char) { c != '\0' && c != '\n' && c != '\r' && c as int <= 127 }

  predicate SafeInitChar(c: char) { SafeChar(c) && c != ' ' && c != ':' && c != '<' }

  predicate NeedsBase64(v: string) {
    v != "" && (v[|v| - 1] == ' ' || !SafeInitChar(v[0]) || exists i :: 1 <= i < |v| && !SafeChar(v[i]))
  }

  function Pair(b: Base64, name: string, value: string): string {
    if NeedsBase64(value) then name + (":: " + b.encode(value)) else name + (": " + value)
  }

  /** Where p first begins in s; |s| + 1 when it does not occur. */
  function Find(s: string, p: string): (k: nat)
    ensures k <= |s| ==> HasPrefix(s[k..], p)
    ensures forall j :: 0 <= j < k && j <= |s| ==> !HasPrefix(s[j..], p)
    decreases |s|
  {
    assert s[0..] == s;
    if HasPrefix(s, p) then 0
    else if s == "" then 1
    else
      var k := Find(s[1..], p);
      assert forall j :: 1 <= j <= |s| ==> s[j..] == s[1..][j - 1..];
      k + 1
  }

  function NameText(s: string): string { Lower(TrimSpace(s)) }

  /** A line's name and value; None for a line that is skipped. */
  function SplitLine(b: Base64, line: string): Option<(string, string)> {
    var two, one, colon := Find(line, ":: "), Find(line, ": "), Find(line, ":");
    if 1 <= two <= |line| then
      var v := b.decode(TrimSpace(line[two + 3..]));
      if v.None? then None else Some((NameText(line[..two]), v.value))
    else if 1 <= one <= |line| then Some((NameText(line[..one]), line[one + 2..]))
    else if 1 <= colon <= |line| then Some((NameText(line[..colon]), ""))
    else None
  }

  /** A name as attribute descriptions have it, in lower case. */
  predicate ValidName(n: string) {
    n != "" && IsLetter(n[0]) && Lower(n) == n && forall i :: 0 <= i < |n| ==>
        IsLetter(n[i]) || IsDigit(n[i]) || n[i] in "-;."
  }

  lemma VersionIsAName()
    ensures NameText("version") == "version" && ValidName("version")
  {
    var s := "version";
    assert |s| == 7 && s[0] == 'v' && s[1] == 'e' && s[2] == 'r' && s[3] == 's' && s[4] == 'i' && s[5] == 'o'
        && s[6] == 'n';
    assert forall i :: 0 <= i < |s| ==> IsLetter(s[i]) && LowerChar(s[i]) == s[i] && !IsSpace(s[i]);
    assert Lower(s) == s;
    assert TrimSpace(s) == s by { assert TrimSpaceLeft(s) == s; }
  }

  /** Written in the clear, the value would be taken for base64. */
  predicate LooksEncoded(v: string) { Find(v, ":: ") <= |v| }

  lemma {:induction false} FindBehind(n: string, t: string, p: string)
    requires p != "" && p[0] == ':' && ':' !in n
    ensures Find(n + t, p) == |n| + Find(t, p)
  {
    if n == "" {
      assert n + t == t;
    } else {
      FindBehind(n[1..], t, p);
      assert (n + t)[1..] == n[1..] + t && (n + t)[0] == n[0];
    }
  }

  lemma FindHere(p: string, t: string)
    ensures Find(p + t, p) == 0
  {
    assert (p + t)[0..] == p + t && (p + t)[..|p|] == p;
  }

  lemma NameFacts(n: string)
    requires ValidName(n)
    ensures ':' !in n && '\n' !in n && '\r' !in n && NameText(n) == n && n[0] != '#' && n[0] != ' '
  {
    assert TrimSpaceLeft(n) == n;
    assert !IsSpace(n[|n| - 1]);
    assert TrimSpaceRight(n) == n;
  }

  lemma {:induction false} TrimBase64(s: string)
    requires forall i :: 0 <= i < |s| ==> IsBase64Char(s[i])
    ensures TrimSpace(s) == s
  {
    assert TrimSpaceLeft(s) == s;
    if s != "" { assert !IsSpace(s[|s| - 1]); }
  }

  /** An encoded value is always read back. */
  lemma EncodedRoundTrip(b: Base64, n: string, v: string)
    requires Lawful(b) && ValidName(n) && NeedsBase64(v)
    ensures SplitLine(b, Pair(b, n, v)) == Some((n, v))
  {
    hide ValidName, NameText;
    NameFacts(n);
    var e := b.encode(v);
    FindBehind(n, ":: " + e, ":: ");
    FindHere(":: ", e);
    TrimBase64(e);
    var line := n + (":: " + e);
    assert line[..|n|] == n && line[|n| + 3..] == e;
    NameNotEmpty(n);
  }

  lemma NameNotEmpty(n: string)
    requires ValidName(n)
    ensures n != ""
  {
  }

  lemma FindSkip(c: char, t: string, p: string)
    requires !HasPrefix([c] + t, p)
    ensures Find([c] + t, p) == Find(t, p) + 1
  {
    assert ([c] + t)[1..] == t;
  }

  lemma NoDoubleColon(v: string)
    ensures !HasPrefix([':'] + ([' '] + v), ":: ") && !HasPrefix([' '] + v, ":: ")
  {
    var s := [':'] + ([' '] + v);
    assert ":: "[1] == ':' && s[1] == ' ' && ":: "[0] == ':' && ([' '] + v)[0] == ' ';
    assert |s| >= 3 ==> s[..3][1] == ' ';
    assert |[' '] + v| >= 3 ==> ([' '] + v)[..3][0] == ' ';
  }

  lemma ColonSpace(v: string)
    ensures ": " + v == [':'] + ([' '] + v) && ([':'] + ([' '] + v))[1] == ' '
  {
  }

  lemma SpaceFirst(v: string)
    ensures Find(": " + v, ":: ") == if Find(v, ":: ") <= |v| then 2 + Find(v, ":: ") else |v| + 3
  {
    ColonSpace(v);
    NoDoubleColon(v);
    hide Find, HasPrefix;
    var t := [' '] + v;
    FindSkip(':', t, ":: ");
    FindSkip(' ', v, ":: ");
    FindAbsent(v);
  }

  lemma {:induction false} FindAbsent(v: string)
    ensures Find(v, ":: ") <= |v| + 1
  {
    if v != "" { FindAbsent(v[1..]); }
  }

  /** A value written in the clear is read back exactly when it does not look encoded. */
  lemma PlainRoundTrip(b: Base64, n: string, v: string)
    requires ValidName(n) && !NeedsBase64(v)
    ensures SplitLine(b, Pair(b, n, v)) == Some((n, v)) <==> !LooksEncoded(v)
    ensures LooksEncoded(v) && SplitLine(b, Pair(b, n, v)).Some? ==> ':' in SplitLine(b, Pair(b, n, v)).value.0
  {
    hide ValidName, NameText;
    NameFacts(n);
    NameNotEmpty(n);
    var line := n + (": " + v);
    FindBehind(n, ": " + v, ":: ");
    SpaceFirst(v);
    FindAbsent(v);
    FindBehind(n, ": " + v, ": ");
    FindHere(": ", v);
    assert line[..|n|] == n && line[|n| + 2..] == v;
    if LooksEncoded(v) {
      var two := Find(line, ":: ");
      assert two == |n| + 2 + Find(v, ":: ");
      ColonInName(line[..two], |n|);
    }
  }

  /** A name with a colon inside is not a name. */
  lemma ColonInName(s: string, k: nat)
    requires k < |s| && s[k] == ':'
    ensures ':' in NameText(s)
  {
    TrimKeeps(s, ':');
    var t := TrimSpace(s);
    var j :| 0 <= j < |t| && t[j] == ':';
    assert Lower(t)[j] == ':';
  }

  lemma TrimKeeps(s: string, c: char)
    requires c in s && !IsSpace(c)
    ensures c in TrimSpace(s)
  {
    TrimLeftKeeps(s, c);
    TrimRightKeeps(TrimSpaceLeft(s), c);
  }

  lemma {:induction false} TrimLeftKeeps(s: string, c: char)
    requires c in s && !IsSpace(c)
    ensures c in TrimSpaceLeft(s)
  {
    if IsSpace(s[0]) {
      assert s == [s[0]] + s[1..];
      TrimLeftKeeps(s[1..], c);
    }
  }

  lemma {:induction false} TrimRightKeeps(s: string, c: char)
    requires c in s && !IsSpace(c)
    ensures c in TrimSpaceRight(s)
  {
    if IsSpace(s[|s| - 1]) {
      assert s == s[..|s| - 1] + [s[|s| - 1]];
      TrimRightKeeps(s[..|s| - 1], c);
    }
  }

  /** A name and value line comes back exactly when the value is encoded or does not look so. */
  lemma LineRoundTrip(b: Base64, n: string, v: string)
    requires Lawful(b) && ValidName(n)
    ensures SplitLine(b, Pair(b, n, v)) == Some((n, v)) <==> NeedsBase64(v) || !LooksEncoded(v)
    ensures var r := SplitLine(b, Pair(b, n, v)); r.Some? && r != Some((n, v)) ==> ':' in r.value.0
  {
    if NeedsBase64(v) {
      EncodedRoundTrip(b, n, v);
    } else {
      PlainRoundTrip(b, n, v);
    }
  }

  /** A line holds no line break and begins with the name. */
  lemma LineShape(b: Base64, n: string, v: string)
    requires Lawful(b) && ValidName(n)
    ensures var l := Pair(b, n, v); l != "" && l[0] == n[0] && '\n' !in l && '\r' !in l
  {
    NameFacts(n);
    hide ValidName, NameText;
    NameNotEmpty(n);
    if NeedsBase64(v) {
      var e := b.encode(v);
      assert forall i :: 0 <= i < |e| ==> IsBase64Char(e[i]);
      assert '\n' !in e && '\r' !in e && '\n' !in ":: " + e;
    } else {
      assert forall i :: 0 <= i < |v| ==> SafeChar(v[i]);
      assert '\n' !in v && '\r' !in v && '\n' !in ": " + v;
    }
  }
}
