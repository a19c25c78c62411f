// Matching rules: insignificant spaces, equality by normal form, and the greedy
// substring matcher.
module Matching {
  import opened Text
  import opened DnSyntax
  import Entries

  // ---------------------------------------------------------------------------
  // Insignificant spaces (section 2.6.1 of RFC 4518)
  // ---------------------------------------------------------------------------

  /** The maximal runs of characters other than the space. */
  function Words(s: string): seq<string>
    decreases |s|
  {
    if s == "" then []
    else if s[0] == ' ' then Words(s[1..])
    else
      var n := WordEnd(s);
      [s[..n]] + Words(s[n..])
  }

  function WordEnd(s: string): (n: nat)
    ensures n <= |s| && (s != "" && s[0] != ' ' ==> n > 0)
    ensures forall i :: 0 <= i < n ==> s[i] != ' '
    ensures n < |s| ==> s[n] == ' '
  {
    if s == "" || s[0] == ' ' then 0 else 1 + WordEnd(s[1..])
  }

  function Spaced(words: seq<string>): string {
    if words == [] then "" else if |words| == 1 then words[0] else words[0] + ([' '] + Spaced(words[1..]))
  }

  predicate AreWords(ws: seq<string>) {
    forall i :: 0 <= i < |ws| ==> ws[i] != "" && ' ' !in ws[i]
  }

  lemma {:induction false} WordsAreWords(s: string)
    ensures AreWords(Words(s))
    decreases |s|
  {
    if s != "" {
      if s[0] == ' ' {
        WordsAreWords(s[1..]);
      } else {
        WordsAreWords(s[WordEnd(s)..]);
      }
    }
  }

  lemma {:induction false} WordEndOf(w: string, t: string)
    requires ' ' !in w && (t == "" || t[0] == ' ')
    ensures WordEnd(w + t) == |w|
  {
    if w == "" {
      assert w + t == t;
    } else {
      WordEndOf(w[1..], t);
      assert (w + t)[1..] == w[1..] + t && (w + t)[0] == w[0];
    }
  }

  lemma WordsCons(w: string, t: string)
    requires w != "" && ' ' !in w && (t == "" || t[0] == ' ')
    ensures Words(w + t) == [w] + Words(t)
  {
    WordEndOf(w, t);
    assert (w + t)[..|w|] == w && (w + t)[|w|..] == t && (w + t)[0] == w[0];
  }

  /** Words joined by single spaces are the same words. */
  lemma {:induction false} WordsOfSpaced(ws: seq<string>)
    requires AreWords(ws)
    ensures Words(Spaced(ws)) == ws
  {
    if ws != [] {
      WordsOfSpaced(ws[1..]);
      var t := if |ws| == 1 then "" else [' '] + Spaced(ws[1..]);
      assert ws[0] + "" == ws[0];
      WordsCons(ws[0], t);
      if |ws| > 1 {
        assert t[1..] == Spaced(ws[1..]);
      }
      assert ws == [ws[0]] + ws[1..];
    }
  }

  /** The normal form of a value under space handling. */
  function Collapse(s: string): string { Spaced(Words(s)) }

  /** Two values have one normal form exactly when they consist of the same words. */
  lemma CollapseIdentity(a: string, b: string)
    ensures Collapse(a) == Collapse(b) <==> Words(a) == Words(b)
    ensures Collapse(Collapse(a)) == Collapse(a)
  {
    WordsAreWords(a);
    WordsAreWords(b);
    WordsOfSpaced(Words(a));
    WordsOfSpaced(Words(b));
  }

  lemma WordsEmpty()
    ensures Words("") == []
  {
  }

  lemma SpaceFirst(u: string)
    ensures Words([' '] + u) == Words(u)
  {
    assert ([' '] + u)[1..] == u;
  }

  lemma OneWord(w: string)
    requires w != "" && ' ' !in w
    ensures Words(w) == [w]
  {
    WordsCons(w, "");
    assert w + "" == w && [w] + [] == [w];
  }

  /** A text that does not begin with a space begins with a word. */
  lemma FirstWord(s: string) returns (w: string, t: string)
    requires s != "" && s[0] != ' '
    ensures s == w + t && w != "" && ' ' !in w && (t == "" || t[0] == ' ')
  {
    var n := WordEnd(s);
    w, t := s[..n], s[n..];
  }

  /** What one more character does to the words of a text. */
  ghost predicate Snoc(s: string, c: char) {
    var ws, us := Words(s), Words(s + [c]);
    if c == ' ' then us == ws
    else if s == "" || s[|s| - 1] == ' ' then us == ws + [[c]]
    else ws != [] && us == ws[..|ws| - 1] + [ws[|ws| - 1] + [c]]
  }

  lemma {:induction false} WordsSnoc(s: string, c: char)
    ensures Snoc(s, c)
    decreases |s|
  {
    hide Words, WordEnd;
    if s == "" {
      assert s + [c] == [c];
      WordsEmpty();
      if c == ' ' {
        SpaceFirst("");
        assert [' '] + "" == [c];
      } else {
        OneWord([c]);
        assert [] + [[c]] == [[c]];
      }
    } else if s[0] == ' ' {
      var u := s[1..];
      WordsSnoc(u, c);
      assert s == [' '] + u;
      SpaceFirst(u);
      SpaceFirst(u + [c]);
      ConcatAssoc([' '], u, [c]);
      assert u != "" ==> u[|u| - 1] == s[|s| - 1];
    } else {
      var w, t := FirstWord(s);
      if t == "" {
        assert w + t == w;
        SnocWord(w, c);
      } else {
        WordsSnoc(t, c);
        SnocBehind(w, t, c);
      }
    }
  }

  lemma SnocWord(w: string, c: char)
    requires w != "" && ' ' !in w
    ensures Snoc(w, c)
  {
    hide Words, WordEnd;
    OneWord(w);
    if c == ' ' {
      WordsCons(w, [c]);
      WordsEmpty();
      SpaceFirst("");
      assert [' '] + "" == [c] && [w] + [] == [w];
    } else {
      OneWord(w + [c]);
      assert w[|w| - 1] in w;
      assert [w][..0] + [w + [c]] == [w + [c]];
    }
  }

  lemma SnocBehind(w: string, t: string, c: char)
    requires w != "" && ' ' !in w && t != "" && t[0] == ' ' && Snoc(t, c)
    ensures Snoc(w + t, c)
  {
    hide Words, WordEnd;
    WordsCons(w, t);
    WordsCons(w, t + [c]);
    ConcatAssoc(w, t, [c]);
    var us, s := Words(t), w + t;
    assert s[|s| - 1] == t[|t| - 1];
    if c != ' ' && t[|t| - 1] != ' ' {
      var ws := [w] + us;
      assert ws[..|ws| - 1] == [w] + us[..|us| - 1] && ws[|ws| - 1] == us[|us| - 1];
      ConcatAssoc([w], us[..|us| - 1], [us[|us| - 1] + [c]]);
    } else if c != ' ' {
      ConcatAssoc([w], us, [[c]]);
    }
  }

  lemma {:induction false} SpacedSnoc(ws: seq<string>, w: string)
    ensures Spaced(ws + [w]) == if ws == [] then w else Spaced(ws) + ([' '] + w)
  {
    if |ws| == 1 {
      assert (ws + [w])[1..] == [w];
    } else if ws != [] {
      SpacedSnoc(ws[1..], w);
      assert (ws + [w])[1..] == ws[1..] + [w];
      ConcatAssoc([' '], Spaced(ws[1..]), [' '] + w);
      ConcatAssoc(ws[0], [' '] + Spaced(ws[1..]), [' '] + w);
    } else {
      assert ws + [w] == [w];
    }
  }

  lemma LastWordGrows(ws: seq<string>, c: char)
    requires ws != []
    ensures Spaced(ws[..|ws| - 1] + [ws[|ws| - 1] + [c]]) == Spaced(ws) + [c]
  {
    hide Spaced;
    var us, w := ws[..|ws| - 1], ws[|ws| - 1];
    assert ws == us + [w];
    SpacedSnoc(us, w);
    SpacedSnoc(us, w + [c]);
    ConcatAssoc([' '], w, [c]);
    ConcatAssoc(Spaced(us), [' '] + w, [c]);
  }

  /** What the loop writes for one more character. */
  lemma CollapseStep(s: string, c: char)
    ensures c == ' ' ==> Collapse(s + [c]) == Collapse(s)
    ensures c != ' ' && s == "" ==> Collapse(s + [c]) == [c]
    ensures c != ' ' && s != "" && s[|s| - 1] != ' ' ==> Collapse(s + [c]) == Collapse(s) + [c]
    ensures c != ' ' && s != "" && s[|s| - 1] == ' ' && Words(s) != [] ==>
              Collapse(s + [c]) == Collapse(s) + ([' '] + [c])
  {
    hide Words, Spaced;
    WordsSnoc(s, c);
    if c != ' ' {
      if s != "" && s[|s| - 1] != ' ' {
        LastWordGrows(Words(s), c);
      } else {
        NoWords(s);
        SpacedSnoc(Words(s), [c]);
      }
    }
  }

  lemma NoWords(s: string)
    ensures s == "" ==> Words(s) == []
  {
  }

  function TrimSpaces(s: string): string
    decreases |s|
  {
    if s != "" && s[0] == ' ' then TrimSpaces(s[1..])
    else if s != "" && s[|s| - 1] == ' ' then TrimSpaces(s[..|s| - 1])
    else s
  }

  lemma {:induction false} TrimmedWords(s: string)
    ensures Words(TrimSpaces(s)) == Words(s)
    ensures var t := TrimSpaces(s); t != "" ==> t[0] != ' ' && t[|t| - 1] != ' '
    decreases |s|
  {
    if s != "" && s[0] == ' ' {
      TrimmedWords(s[1..]);
    } else if s != "" && s[|s| - 1] == ' ' {
      TrimmedWords(s[..|s| - 1]);
      WordsSnoc(s[..|s| - 1], ' ');
      assert s == s[..|s| - 1] + [' '];
    }
  }

  predicate DoubleSpace(s: string) { exists i :: 0 <= i < |s| - 1 && s[i] == ' ' && s[i + 1] == ' ' }

  predicate Neat(s: string) { !DoubleSpace(s) && (s != "" ==> s[0] != ' ' && s[|s| - 1] != ' ') }

  /** Without edge spaces and double spaces the text is its own normal form. */
  lemma {:induction false} AlreadyCollapsed(s: string)
    requires Neat(s)
    ensures Collapse(s) == s
    decreases |s|
  {
    hide Words, Spaced, Neat, DoubleSpace;
    NoWords(s);
    if s == "" {
      SpacedFew("");
    } else {
      NeatStart(s);
      var w, t := FirstWord(s);
      SpacedFew(w);
      if t == "" {
        assert w + t == w;
        OneWord(w);
      } else {
        var u := t[1..];
        assert t == [' '] + u;
        NeatRest(s, w, t);
        AlreadyCollapsed(u);
        WordsCons(w, t);
        SpaceFirst(u);
        WordsAreWords(u);
        SpacedMore(w, Words(u), u);
      }
    }
  }

  lemma SpacedFew(w: string)
    ensures Spaced([]) == "" && Spaced([w]) == w
  {
  }

  lemma SpacedMore(w: string, ws: seq<string>, u: string)
    requires Spaced(ws) == u && u != ""
    ensures Spaced([w] + ws) == w + ([' '] + u)
  {
    assert ([w] + ws)[1..] == ws;
  }

  lemma NeatStart(s: string)
    requires Neat(s) && s != ""
    ensures s[0] != ' '
  {
  }

  lemma NeatRest(s: string, w: string, t: string)
    requires Neat(s) && s == w + t && w != "" && t != "" && t[0] == ' '
    ensures t[1..] != "" && Neat(t[1..])
  {
    var u := t[1..];
    assert s[|s| - 1] == t[|t| - 1] && s[|w|] == ' ';
    forall i | 0 <= i < |u| ensures u[i] == s[|w| + 1 + i] {
    }
    assert u != "" ==> s[|w| + 1] == u[0];
  }

  method CollapseSpaces(s0: string) returns (r: string)
    ensures r == Collapse(s0)
  {
    hide Words, Spaced, Collapse;
    TrimmedWords(s0);
    var s := TrimSpaces(s0);
    assert Collapse(s) == Collapse(s0) by { SameWords(s, s0); }
    if !DoubleSpace(s) {
      assert Neat(s);
      AlreadyCollapsed(s);
      return s;
    }
    var b := "";
    var pending := false;
    CollapseEmpty();
    for i := 0 to |s|
      invariant b == Collapse(s[..i])
      invariant pending <==> i > 0 && s[i - 1] == ' '
      invariant i > 0 ==> Words(s[..i]) != []
    {
      assert s[..i + 1] == s[..i] + [s[i]];
      CollapseStep(s[..i], s[i]);
      WordsSnoc(s[..i], s[i]);
      if s[i] == ' ' {
        pending := true;
        continue;
      }
      ConcatAssoc(b, [' '], [s[i]]);
      assert s[..i] != "" ==> s[..i][|s[..i]| - 1] == s[i - 1];
      if pending {
        b := b + [' '];
        pending := false;
      }
      b := b + [s[i]];
    }
    assert s[..|s|] == s;
    r := b;
  }

  lemma SameWords(a: string, b: string)
    requires Words(a) == Words(b)
    ensures Collapse(a) == Collapse(b)
  {
  }

  lemma CollapseEmpty()
    ensures Collapse("") == "" && ""[..0] == ""
  {
  }

  // ---------------------------------------------------------------------------
  // Substrings (section 4.5.1.7.2 of RFC 4511)
  // ---------------------------------------------------------------------------

  type Normalize = string -> string

  predicate OccursAt(s: string, needle: string, k: int) {
    0 <= k && k + |needle| <= |s| && s[k..k + |needle|] == needle
  }

  /** Where the needle first occurs. */
  function Index(s: string, needle: string): Option<nat>
    decreases |s|
  {
    if HasPrefix(s, needle) then Some(0)
    else if s == "" then None
    else match Index(s[1..], needle) case None => None case Some(k) => Some(k + 1)
  }

  lemma OccursBehind(s: string, needle: string, k: int)
    requires s != "" && k >= 0
    ensures OccursAt(s, needle, k + 1) <==> OccursAt(s[1..], needle, k)
  {
    if k + 1 + |needle| <= |s| {
      assert s[1..][k..k + |needle|] == s[k + 1..k + 1 + |needle|];
    }
  }

  lemma {:induction false} IndexIsFirst(s: string, needle: string)
    ensures Index(s, needle).Some? ==> OccursAt(s, needle, Index(s, needle).value)
    ensures forall k :: OccursAt(s, needle, k) ==> Index(s, needle).Some? && Index(s, needle).value <= k
    decreases |s|
  {
    AtStart(s, needle);
    if !HasPrefix(s, needle) && s != "" {
      IndexIsFirst(s[1..], needle);
      var r := Index(s[1..], needle);
      assert Index(s, needle) == if r.Some? then Some(r.value + 1) else None;
      if r.Some? {
        OccursBehind(s, needle, r.value);
        assert OccursAt(s, needle, r.value + 1);
      }
      forall k | OccursAt(s, needle, k) ensures r.Some? && r.value + 1 <= k {
        NotBefore(s, needle, k);
        OccursBehind(s, needle, k - 1);
      }
    } else {
      forall k | OccursAt(s, needle, k) ensures Index(s, needle).Some? && Index(s, needle).value <= k {
        InText(s, needle, k);
      }
    }
  }

  lemma AtStart(s: string, needle: string)
    ensures HasPrefix(s, needle) <==> OccursAt(s, needle, 0)
  {
    if |needle| <= |s| { assert s[0..|needle|] == s[..|needle|]; }
  }

  lemma InText(s: string, needle: string, k: int)
    requires OccursAt(s, needle, k)
    ensures k >= 0 && (s == "" ==> HasPrefix(s, needle))
  {
  }

  lemma NotBefore(s: string, needle: string, k: int)
    requires OccursAt(s, needle, k) && !HasPrefix(s, needle)
    ensures k >= 1
  {
    AtStart(s, needle);
  }

  function Normalized(norm: Normalize, ss: seq<string>): (r: seq<string>)
    ensures |r| == |ss|
  {
    seq(|ss|, i requires 0 <= i < |ss| => norm(ss[i]))
  }

  /** gap, needle, gap, needle, ..., gap, suffix. */
  function Assemble(gaps: seq<string>, needles: seq<string>, suffix: string): string
    requires |gaps| == |needles| + 1
    decreases |needles|
  {
    if needles == [] then gaps[0] + suffix else gaps[0] + (needles[0] + Assemble(gaps[1..], needles[1..], suffix))
  }

  /** rest splits into the needles in order, without overlap, the suffix at its end. */
  ghost predicate Splits(rest: string, needles: seq<string>, suffix: string) {
    exists gaps: seq<string> :: |gaps| == |needles| + 1 && Assemble(gaps, needles, suffix) == rest
  }

  /** More text in front only widens the first gap. */
  lemma SplitsWider(before: string, rest: string, needles: seq<string>, suffix: string)
    requires Splits(rest, needles, suffix)
    ensures Splits(before + rest, needles, suffix)
  {
    var gaps: seq<string> :| |gaps| == |needles| + 1 && Assemble(gaps, needles, suffix) == rest;
    var wider := [before + gaps[0]] + gaps[1..];
    assert wider[1..] == gaps[1..];
    if needles == [] {
      ConcatAssoc(before, gaps[0], suffix);
    } else {
      ConcatAssoc(before, gaps[0], needles[0] + Assemble(gaps[1..], needles[1..], suffix));
    }
    assert Assemble(wider, needles, suffix) == before + rest;
  }

  /** Taking the leftmost occurrence of the first needle loses no split. */
  lemma LeftmostIsEnough(rest: string, needles: seq<string>, suffix: string)
    requires needles != []
    ensures Splits(rest, needles, suffix) <==>
              Index(rest, needles[0]).Some?
              && Index(rest, needles[0]).value + |needles[0]| <= |rest|
              && Splits(rest[Index(rest, needles[0]).value + |needles[0]|..], needles[1..], suffix)
  {
    hide Splits, Index;
    IndexIsFirst(rest, needles[0]);
    if Splits(rest, needles, suffix) { FirstNeedle(rest, needles, suffix); }
    var i := Index(rest, needles[0]);
    if i.Some? && Splits(rest[i.value + |needles[0]|..], needles[1..], suffix) {
      NeedleInFront(rest, needles, suffix, i.value);
    }
  }

  /** A split tells where its first needle lies. */
  lemma SplitAt(rest: string, needles: seq<string>, suffix: string) returns (p: nat)
    requires needles != [] && Splits(rest, needles, suffix)
    ensures OccursAt(rest, needles[0], p) && Splits(rest[p + |needles[0]|..], needles[1..], suffix)
  {
    var n := needles[0];
    var gaps: seq<string> :| |gaps| == |needles| + 1 && Assemble(gaps, needles, suffix) == rest;
    var tail := Assemble(gaps[1..], needles[1..], suffix);
    p := |gaps[0]|;
    NeedleBehind(gaps[0], n, tail);
    assert Splits(tail, needles[1..], suffix);
  }

  lemma FirstNeedle(rest: string, needles: seq<string>, suffix: string)
    requires needles != [] && Splits(rest, needles, suffix)
    ensures Index(rest, needles[0]).Some? && Index(rest, needles[0]).value + |needles[0]| <= |rest|
    ensures Splits(rest[Index(rest, needles[0]).value + |needles[0]|..], needles[1..], suffix)
  {
    hide Index, OccursAt, Splits;
    var n := needles[0];
    var p := SplitAt(rest, needles, suffix);
    IndexIsFirst(rest, n);
    var i := Index(rest, n).value;
    OccursFits(rest, n, i);
    OccursFits(rest, n, p);
    Middle(rest, i + |n|, p + |n|);
    SplitsWider(rest[i + |n|..p + |n|], rest[p + |n|..], needles[1..], suffix);
  }

  lemma Middle(s: string, i: nat, j: nat)
    requires i <= j <= |s|
    ensures s[i..] == s[i..j] + s[j..]
  {
  }

  lemma OccursFits(s: string, n: string, i: int)
    requires OccursAt(s, n, i)
    ensures 0 <= i && i + |n| <= |s| && s[i..i + |n|] == n
  {
  }

  lemma NeedleInFront(rest: string, needles: seq<string>, suffix: string, i: nat)
    requires needles != [] && OccursAt(rest, needles[0], i) && Splits(rest[i + |needles[0]|..], needles[1..], suffix)
    ensures Splits(rest, needles, suffix)
  {
    var n := needles[0];
    var tail := rest[i + |n|..];
    var gaps: seq<string> :| |gaps| == |needles[1..]| + 1 && Assemble(gaps, needles[1..], suffix) == tail;
    var all := [rest[..i]] + gaps;
    assert all[1..] == gaps;
    assert rest == rest[..i] + (n + tail) by {
      Middle(rest, i, i + |n|);
      Middle(rest, 0, i);
      assert rest[0..] == rest && rest[0..i] == rest[..i];
    }
    assert Assemble(all, needles, suffix) == rest;
  }

  lemma NeedleBehind(a: string, n: string, t: string)
    ensures var s := a + (n + t); s[|a|..|a| + |n|] == n && s[|a| + |n|..] == t
  {
    var s := a + (n + t);
    assert s[|a|..] == n + t;
  }

  lemma SuffixIsSplit(rest: string, suffix: string)
    ensures Splits(rest, [], suffix) <==> HasSuffix(rest, suffix)
  {
    if HasSuffix(rest, suffix) {
      var gaps := [rest[..|rest| - |suffix|]];
      assert Assemble(gaps, [], suffix) == rest;
    }
    if Splits(rest, [], suffix) {
      var gaps: seq<string> :| |gaps| == 1 && Assemble(gaps, [], suffix) == rest;
      assert rest[|gaps[0]|..] == suffix;
    }
  }

  /** An absent or empty run constrains nothing. */
  function RunText(norm: Normalize, run: string): string { if run == "" then "" else norm(run) }

  /** The value splits as initial, gap, any1, gap, ..., anyN, gap, final. */
  ghost predicate Matches(norm: Normalize, value: string, initial: string, any: seq<string>, final: string) {
    var v, p := norm(value), RunText(norm, initial);
    HasPrefix(v, p) && Splits(v[|p|..], Normalized(norm, any), RunText(norm, final))
  }

  /** The leftmost-greedy matcher is complete: it finds a split whenever there is one. */
  method Substrings(norm: Normalize, value: string, initial: string, final: string, any: seq<string>) returns (r: bool)
    ensures r <==> Matches(norm, value, initial, any, final)
  {
    hide Splits, Index;
    var rest := norm(value);
    ghost var suffix := RunText(norm, final);
    ghost var needles := Normalized(norm, any);
    if |initial| > 0 {
      var prefix := norm(initial);
      if !HasPrefix(rest, prefix) {
        return false;
      }
      rest := rest[|prefix|..];
    } else {
      assert rest[0..] == rest && rest[..0] == "";
    }
    assert needles[0..] == needles;
    for i := 0 to |any|
      invariant Matches(norm, value, initial, any, final) <==> Splits(rest, needles[i..], suffix)
    {
      LeftmostIsEnough(rest, needles[i..], suffix);
      assert needles[i..][0] == needles[i] && needles[i..][1..] == needles[i + 1..];
      var needle := norm(any[i]);
      var k := Index(rest, needle);
      IndexIsFirst(rest, needle);
      if k.None? {
        return false;
      }
      rest := rest[k.value + |needle|..];
    }
    assert needles[|any|..] == [];
    SuffixIsSplit(rest, suffix);
    if |final| > 0 {
      return HasSuffix(rest, norm(final));
    }
    assert rest[|rest|..] == "";
    r := true;
  }

  // ---------------------------------------------------------------------------
  // Equality
  // ---------------------------------------------------------------------------

  datatype Rule = ByNormalForm(normalize: Normalize) | ByDN(uniqueMember: bool)

  predicate SameDN(a: DN, b: DN) {
    |a| == |b| && forall i :: 0 <= i < |a| ==> a[i].attr == b[i].attr && EqualFold(a[i].value, b[i].value)
  }

  /** dnFromValue. */
  function DnOf(v: string, uniqueMember: bool): Option<DN> {
    ParseDN(if uniqueMember then Entries.StripSuffix(v) else v)
  }

  /** Equal: normal forms agree, or both sides are DNs that agree RDN by RDN. A value that is no DN equals nothing. */
  predicate Equal(rule: Rule, value: string, assertion: string) {
    match rule
    case ByNormalForm(norm) => norm(value) == norm(assertion)
    case ByDN(unique) =>
      var v, a := DnOf(value, unique), DnOf(assertion, unique);
      v.Some? && a.Some? && SameDN(v.value, a.value)
  }

  /** DN equality is equality of store keys. */
  lemma EqualDNsShareKey(value: string, assertion: string, unique: bool)
    ensures Equal(ByDN(unique), value, assertion) <==>
              DnOf(value, unique).Some? && DnOf(assertion, unique).Some?
              && FoldedKey(DnOf(value, unique).value) == FoldedKey(DnOf(assertion, unique).value)
  {
    var v, a := DnOf(value, unique), DnOf(assertion, unique);
    if v.Some? && a.Some? {
      ParsedIsWellFormed(if unique then Entries.StripSuffix(value) else value);
      ParsedIsWellFormed(if unique then Entries.StripSuffix(assertion) else assertion);
      hide ParseDN, FoldedKey;
      FoldedKeyIdentity(v.value, a.value);
    }
  }
}
