// Reading an LDIF export back: exactly what an export gives up on the way.
module LdifReader {
  import opened Text
  import opened LdifText
  import opened Ldif

  // ---------------------------------------------------------------------------
  // The reader
  // ---------------------------------------------------------------------------

  function DropCR(s: string): string {
    if s == "" then ""
    else if |s| >= 2 && s[0] == '\r' && s[1] == '\n' then ['\n'] + DropCR(s[2..])
    else [s[0]] + DropCR(s[1..])
  }

  function LineEnd(s: string): (n: nat)
    ensures n <= |s| && (n < |s| ==> s[n] == '\n') && forall i :: 0 <= i < n ==> s[i] != '\n'
  {
    if s == "" || s[0] == '\n' then 0 else 1 + LineEnd(s[1..])
  }

  function SplitLines(s: string): seq<string>
    decreases |s|
  {
    var n := LineEnd(s);
    if n == |s| then [s] else [s[..n]] + SplitLines(s[n + 1..])
  }

  /** The entries finished so far, and the one being read. */
  datatype Reader = Reader(out: seq<SearchEntry>, cur: Option<SearchEntry>)

  function Flush(r: Reader): Reader { if r.cur.Some? then Reader(r.out + [r.cur.value], None) else r }

  /** A name and value that a line yields; comments, version lines and unreadable lines yield none. */
  function ReadLine(b: Base64, line: string): Option<(string, string)> {
    if HasPrefix(line, "#") || line == "" || HasPrefix(Lower(line), "version:") then None else SplitLine(b, line)
  }

  function TakeLine(b: Base64, r: Reader, line: string): Reader {
    if line == "" then Flush(r)
    else
      var nv := ReadLine(b, line);
      if nv.None? then r
      else if nv.value.0 == "dn" then Reader(Flush(r).out, Some(SearchEntry(nv.value.1, [])))
      else if r.cur.None? then r
      else r.(cur := Some(r.cur.value.(attributes := r.cur.value.attributes + [AttrKV(nv.value.0, nv.value.1)])))
  }

  function TakeLines(b: Base64, r: Reader, lines: seq<string>): Reader
    decreases lines
  {
    if lines == [] then r else TakeLines(b, TakeLine(b, r, lines[0]), lines[1..])
  }

  function ParseLdif(b: Base64, text: string): seq<SearchEntry> {
    Flush(TakeLines(b, Reader([], None), SplitLines(Unfold(DropCR(text))))).out
  }

  /** The reader's loop over the lines. */
  method ReadLDIF(b: Base64, text: string) returns (out: seq<SearchEntry>)
    ensures out == ParseLdif(b, text)
  {
    hide TakeLine;
    var raw := UnfoldLDIF(DropCR(text));
    var lines := SplitLines(raw);
    var r := Reader([], None);
    assert lines[0..] == lines;
    for i := 0 to |lines|
      invariant TakeLines(b, r, lines[i..]) == TakeLines(b, Reader([], None), lines)
    {
      assert lines[i..][0] == lines[i] && lines[i..][1..] == lines[i + 1..];
      r := TakeLine(b, r, lines[i]);
    }
    assert lines[|lines|..] == [];
    out := Flush(r).out;
  }

  // ---------------------------------------------------------------------------
  // From the document back to its lines
  // ---------------------------------------------------------------------------

  /** A line the writer puts out: no line break inside, no space in front. */
  predicate GoodLine(l: string) { '\n' !in l && '\r' !in l && (l == "" || l[0] != ' ') }

  predicate GoodLines(ls: seq<string>) { forall i :: 0 <= i < |ls| ==> GoodLine(ls[i]) }

  function Joined(ls: seq<string>): string { if ls == [] then "" else ls[0] + (['\n'] + Joined(ls[1..])) }

  lemma {:induction false} FoldedStart(line: string, t: string)
    requires GoodLine(line)
    ensures FoldedLine(line) + t != "" && (FoldedLine(line) + t)[0] != ' '
  {
    if line != "" {
      assert Folded(line, true)[0] == line[0];
    } else {
      assert Folded(line, true) == "";
    }
  }

  lemma {:induction false} UnfoldBlock(ls: seq<string>)
    requires GoodLines(ls)
    ensures Unfold(Block(ls)) == Joined(ls)
    ensures Block(ls) == "" || Block(ls)[0] != ' '
  {
    hide Unfold, FoldedLine, GoodLine;
    if ls == [] {
      UnfoldEmpty();
    } else {
      assert GoodLine(ls[0]) && GoodLines(ls[1..]);
      UnfoldBlock(ls[1..]);
      FoldedStart(ls[0], Block(ls[1..]));
      LineBreakFree(ls[0]);
      UnfoldUndoesFold(ls[0], Block(ls[1..]));
    }
  }

  lemma UnfoldEmpty()
    ensures Unfold("") == ""
  {
  }

  lemma LineBreakFree(l: string)
    requires GoodLine(l)
    ensures '\n' !in l
  {
  }

  lemma {:induction false} LineEndOf(l: string, t: string)
    requires '\n' !in l && (t == "" || t[0] == '\n')
    ensures LineEnd(l + t) == |l|
  {
    if l == "" {
      assert l + t == t;
    } else {
      LineEndOf(l[1..], t);
      assert (l + t)[1..] == l[1..] + t && (l + t)[0] == l[0];
    }
  }

  lemma {:induction false} SplitJoined(ls: seq<string>)
    requires GoodLines(ls)
    ensures SplitLines(Joined(ls)) == ls + [""]
  {
    hide GoodLine;
    if ls == [] {
      assert SplitLines("") == [""] && [] + [""] == [""];
    } else {
      assert GoodLine(ls[0]) && GoodLines(ls[1..]);
      LineBreakFree(ls[0]);
      SplitJoined(ls[1..]);
      var l, t := ls[0], ['\n'] + Joined(ls[1..]);
      LineEndOf(l, t);
      assert (l + t)[..|l|] == l && (l + t)[|l| + 1..] == Joined(ls[1..]);
      assert ls == [l] + ls[1..];
      ConcatAssoc([l], ls[1..], [""]);
    }
  }

  lemma {:induction false} NoCR(s: string)
    requires '\r' !in s
    ensures DropCR(s) == s
  {
    if s != "" {
      assert s[0] in s;
      assert '\r' !in s[1..];
      NoCR(s[1..]);
    }
  }

  lemma {:induction false} FoldedNoCR(rest: string, first: bool)
    requires '\r' !in rest
    ensures '\r' !in Folded(rest, first)
    decreases |rest|
  {
    var max := if first then LINE_WIDTH else LINE_WIDTH - 1;
    if |rest| > max {
      FoldedNoCR(rest[max..], false);
    }
  }

  lemma {:induction false} BlockNoCR(ls: seq<string>)
    requires GoodLines(ls)
    ensures '\r' !in Block(ls)
  {
    if ls != [] {
      assert GoodLine(ls[0]);
      FoldedNoCR(ls[0], true);
      BlockNoCR(ls[1..]);
    }
  }

  /** Reading a block of good lines is taking its lines, and then an empty one. */
  lemma ParseBlock(b: Base64, ls: seq<string>)
    requires GoodLines(ls)
    ensures ParseLdif(b, Block(ls)) == Flush(TakeLines(b, Reader([], None), ls + [""])).out
  {
    hide TakeLine, GoodLines;
    BlockNoCR(ls);
    NoCR(Block(ls));
    UnfoldBlock(ls);
    SplitJoined(ls);
  }

  lemma {:induction false} BlockConcat(a: seq<string>, c: seq<string>)
    ensures Block(a + c) == Block(a) + Block(c)
  {
    hide FoldedLine;
    if a == [] {
      assert a + c == c && "" + Block(c) == Block(c);
    } else {
      BlockConcat(a[1..], c);
      assert (a + c)[1..] == a[1..] + c;
      ConcatAssoc(FoldedLine(a[0]), Block(a[1..]), Block(c));
    }
  }

  lemma ShortLine(l: string)
    requires |l| <= LINE_WIDTH
    ensures FoldedLine(l) == l + ['\n'] && Block([l]) == l + ['\n']
  {
    assert l != "" ==> "" + l == l;
    assert [l][1..] == [] && FoldedLine(l) + "" == FoldedLine(l);
  }

  lemma HeaderIsBlock(o: Options)
    ensures HeaderText(o) == Block(HeaderLines(o))
  {
    hide Block, FoldedLine;
    ShortLine(VERSION_LINE);
    ShortLine(EXPORT_LINE);
    ShortLine(OMIT_LINE);
    ShortLine("");
    var c := if o.omitSecrets then [OMIT_LINE] else [];
    BlockConcat([VERSION_LINE], [EXPORT_LINE]);
    BlockConcat([VERSION_LINE] + [EXPORT_LINE], c);
    BlockConcat([VERSION_LINE] + [EXPORT_LINE] + c, [""]);
    assert [VERSION_LINE, EXPORT_LINE] == [VERSION_LINE] + [EXPORT_LINE];
    NoLines();
    var t := if o.omitSecrets then OMIT_LINE + ['\n'] else "";
    assert Block(c) == t && Block([""]) == ['\n'];
    var v, e := VERSION_LINE + ['\n'], EXPORT_LINE + ['\n'];
    HeaderConcat(VERSION_LINE, EXPORT_LINE, t);
  }

  lemma HeaderConcat(v: string, e: string, t: string)
    ensures v + ['\n'] + (e + ['\n']) + t + ['\n'] == v + (['\n'] + (e + (['\n'] + (t + ['\n']))))
  {
    ConcatAssoc(v, ['\n'], e + ['\n']);
    ConcatAssoc(v + (['\n'] + (e + ['\n'])), t, ['\n']);
    ConcatAssoc(v, ['\n'] + (e + ['\n']), t + ['\n']);
    ConcatAssoc(['\n'], e + ['\n'], t + ['\n']);
    ConcatAssoc(e, ['\n'], t + ['\n']);
  }

  lemma NoLines()
    ensures Block([]) == ""
  {
  }

  function AllLines(b: Base64, o: Options, es: seq<SearchEntry>): seq<string> {
    if es == [] then [] else AllLines(b, o, es[..|es| - 1]) + EntryLines(b, Exported(o, es[|es| - 1]))
  }

  lemma {:induction false} BlocksAreBlock(b: Base64, o: Options, es: seq<SearchEntry>)
    ensures Blocks(b, o, es) == Block(AllLines(b, o, es))
  {
    hide EntryLines, Exported;
    if es != [] {
      BlocksAreBlock(b, o, es[..|es| - 1]);
      BlockConcat(AllLines(b, o, es[..|es| - 1]), EntryLines(b, Exported(o, es[|es| - 1])));
    }
  }

  function TrailerLines(complete: bool): seq<string> { if complete then [COMPLETE_MARK] else [] }

  lemma DocumentIsBlock(b: Base64, o: Options, es: seq<SearchEntry>, complete: bool)
    ensures Document(b, o, es, complete) == Block(HeaderLines(o) + AllLines(b, o, es) + TrailerLines(complete))
  {
    hide Block, HeaderLines, HeaderText, AllLines, Blocks;
    HeaderIsBlock(o);
    BlocksAreBlock(b, o, es);
    ShortLine(COMPLETE_MARK);
    NoLines();
    BlockConcat(HeaderLines(o), AllLines(b, o, es));
    BlockConcat(HeaderLines(o) + AllLines(b, o, es), TrailerLines(complete));
  }

  // ---------------------------------------------------------------------------
  // What the reader makes of each entry
  // ---------------------------------------------------------------------------

  /** The elements that are there. */
  function Somes<T>(xs: seq<Option<T>>): seq<T> {
    if xs == [] then [] else (if xs[0].Some? then [xs[0].value] else []) + Somes(xs[1..])
  }

  lemma {:induction false} SomesLength<T>(xs: seq<Option<T>>)
    ensures |Somes(xs)| <= |xs|
  {
    if xs != [] { SomesLength(xs[1..]); }
  }

  /** A list comes through whole exactly when each of its elements does. */
  lemma {:induction false} SomesExactly<T>(xs: seq<Option<T>>, ys: seq<T>)
    requires |xs| == |ys|
    ensures Somes(xs) == ys <==> forall i :: 0 <= i < |xs| ==> xs[i] == Some(ys[i])
  {
    if xs != [] {
      SomesExactly(xs[1..], ys[1..]);
      SomesLength(xs[1..]);
      assert ys == [ys[0]] + ys[1..];
      if Somes(xs) == ys {
        assert xs[0].Some?;
        assert Somes(xs)[1..] == Somes(xs[1..]);
      }
      assert forall i :: 0 <= i < |xs[1..]| ==> xs[1..][i] == xs[i + 1] && ys[1..][i] == ys[i + 1];
      if forall i :: 0 <= i < |xs| ==> xs[i] == Some(ys[i]) {
        assert xs[0] == Some(ys[0]);
      }
      if Somes(xs[1..]) == ys[1..] && xs[0] == Some(ys[0]) {
        forall i | 0 <= i < |xs| ensures xs[i] == Some(ys[i]) {
          if i > 0 { assert xs[1..][i - 1] == Some(ys[1..][i - 1]); }
        }
      }
    }
  }

  lemma {:induction false} SomesConcat<T>(xs: seq<Option<T>>, ys: seq<Option<T>>)
    ensures Somes(xs + ys) == Somes(xs) + Somes(ys)
  {
    if xs == [] {
      assert xs + ys == ys && [] + Somes(ys) == Somes(ys);
    } else {
      SomesConcat(xs[1..], ys);
      assert (xs + ys)[1..] == xs[1..] + ys;
      ConcatAssoc(if xs[0].Some? then [xs[0].value] else [], Somes(xs[1..]), Somes(ys));
    }
  }

  /** What one exported value is read as, if anything. */
  function ReadPair(b: Base64, a: AttrKV): Option<AttrKV> {
    var nv := ReadLine(b, Pair(b, a.name, a.value));
    if nv.None? then None else Some(AttrKV(nv.value.0, nv.value.1))
  }

  /** The value survives: its name is not taken for a version line, and it is encoded or does not look so. */
  predicate PairSurvives(a: AttrKV) { a.name != "version" && ValueSurvives(a.value) }

  predicate ValueSurvives(v: string) { NeedsBase64(v) || !LooksEncoded(v) }

  lemma VersionLine(b: Base64, n: string, v: string)
    requires ValidName(n)
    ensures HasPrefix(Lower(Pair(b, n, v)), "version:") <==> n == "version"
    ensures !HasPrefix(Pair(b, n, v), "#") && Pair(b, n, v) != ""
  {
    var t := if NeedsBase64(v) then ":: " + b.encode(v) else ": " + v;
    var l := n + t;
    NameFacts(n);
    ColonEnds(n, t);
    assert l[0] == n[0];
    hide NeedsBase64;
    if n == "version" {
      assert Lower(l)[..8] == "version:" by { assert Lower(l)[..7] == Lower(n); assert Lower(l)[7] == ':'; }
    }
    if HasPrefix(Lower(l), "version:") {
      VersionName(n, l);
    }
  }

  lemma ColonEnds(n: string, t: string)
    requires t != "" && t[0] == ':'
    ensures (n + t)[|n|] == ':' && (n + t)[..|n|] == n
  {
  }

  lemma VersionName(n: string, l: string)
    requires ValidName(n) && |l| > |n| && l[..|n|] == n && l[|n|] == ':' && HasPrefix(Lower(l), "version:")
    ensures n == "version"
  {
    NameFacts(n);
    var w := Lower(l);
    var p := "version:";
    assert w[..8] == p;
    assert forall i :: 0 <= i < 8 ==> w[i] == p[i];
    assert w[|n|] == ':';
    assert w[7] == ':' && l[7] == ':';
    assert forall k :: 0 <= k < |n| ==> l[k] == n[k] && n[k] in n;
    assert forall k :: 0 <= k < 7 ==> p[k] != ':';
    assert |n| == 7;
    assert Lower(n) == n;
    forall i | 0 <= i < 7 ensures n[i] == "version"[i] {
      assert n[i] == l[i] && Lower(n)[i] == LowerChar(n[i]) == w[i] && p[i] == "version"[i];
    }
    assert n == "version";
  }

  lemma PairReadBack(b: Base64, a: AttrKV)
    requires Lawful(b) && ValidName(a.name)
    ensures ReadPair(b, a) == Some(a) <==> PairSurvives(a)
  {
    hide ValidName, NeedsBase64, LooksEncoded, SplitLine, Pair;
    VersionLine(b, a.name, a.value);
    LineRoundTrip(b, a.name, a.value);
    assert a == AttrKV(a.name, a.value);
  }

  // ---------------------------------------------------------------------------
  // The reader over a document
  // ---------------------------------------------------------------------------

  predicate ExportName(n: string) { ValidName(n) && n != "dn" }

  predicate ExportNames(attrs: seq<AttrKV>) { forall i :: 0 <= i < |attrs| ==> ExportName(attrs[i].name) }

  /** A value's line never starts a new entry. */
  lemma PairLine(b: Base64, a: AttrKV)
    requires Lawful(b) && ExportName(a.name)
    ensures Pair(b, a.name, a.value) != ""
    ensures ReadPair(b, a).Some? ==> ReadPair(b, a).value.name != "dn"
  {
    hide ValidName, NeedsBase64, LooksEncoded, SplitLine, Pair;
    VersionLine(b, a.name, a.value);
    LineRoundTrip(b, a.name, a.value);
    assert ':' !in "dn";
  }

  function ReadPairs(b: Base64, attrs: seq<AttrKV>): (r: seq<Option<AttrKV>>)
    ensures |r| == |attrs|
  {
    seq(|attrs|, i requires 0 <= i < |attrs| => ReadPair(b, attrs[i]))
  }

  function WithAttrs(r: Reader, more: seq<AttrKV>): Reader {
    if r.cur.None? then r else r.(cur := Some(r.cur.value.(attributes := r.cur.value.attributes + more)))
  }

  lemma TakePair(b: Base64, r: Reader, a: AttrKV)
    requires Lawful(b) && ExportName(a.name)
    ensures TakeLine(b, r, Pair(b, a.name, a.value))
              == WithAttrs(r, if ReadPair(b, a).Some? then [ReadPair(b, a).value] else [])
  {
    hide Pair, ReadLine, ExportName;
    PairLine(b, a);
    if r.cur.Some? { assert r.cur.value.attributes + [] == r.cur.value.attributes; }
  }

  lemma {:induction false} TakePairs(b: Base64, r: Reader, attrs: seq<AttrKV>, rest: seq<string>)
    requires Lawful(b) && ExportNames(attrs)
    ensures TakeLines(b, r, PairLines(b, attrs) + rest) == TakeLines(b, WithAttrs(r, Somes(ReadPairs(b, attrs))), rest)
    decreases attrs
  {
    hide Pair, ReadPair, TakeLine, ExportName;
    var ls := PairLines(b, attrs) + rest;
    if attrs == [] {
      assert ls == rest;
      if r.cur.Some? { assert r.cur.value.attributes + [] == r.cur.value.attributes; }
    } else {
      var a := attrs[0];
      TakePair(b, r, a);
      assert ls[0] == Pair(b, a.name, a.value) && ls[1..] == PairLines(b, attrs[1..]) + rest;
      assert ExportNames(attrs[1..]);
      var one := if ReadPair(b, a).Some? then [ReadPair(b, a).value] else [];
      TakePairs(b, WithAttrs(r, one), attrs[1..], rest);
      assert ReadPairs(b, attrs)[1..] == ReadPairs(b, attrs[1..]);
      if r.cur.Some? { ConcatAssoc(r.cur.value.attributes, one, Somes(ReadPairs(b, attrs[1..]))); }
    }
  }

  /**
   * What an exported entry is read as: nothing when its DN line is lost, else the entry with
   * the values that survive.
   */
  function ReadEntry(b: Base64, e: SearchEntry): Option<SearchEntry> {
    if ValueSurvives(e.dn) then Some(SearchEntry(e.dn, Somes(ReadPairs(b, e.attributes)))) else None
  }

  lemma TakeDn(b: Base64, r: Reader, dn: string)
    requires Lawful(b) && r.cur.None?
    ensures TakeLine(b, r, Pair(b, "dn", dn)) == if ValueSurvives(dn) then Reader(r.out, Some(SearchEntry(dn, [])))
              else r
  {
    hide NeedsBase64, LooksEncoded, SplitLine, Pair;
    DnIsName();
    VersionLine(b, "dn", dn);
    LineRoundTrip(b, "dn", dn);
    assert ':' !in "dn";
  }

  lemma DnIsName()
    ensures ValidName("dn")
  {
  }

  lemma TakeEntry(b: Base64, r: Reader, e: SearchEntry, rest: seq<string>)
    requires Lawful(b) && r.cur.None? && ExportNames(e.attributes)
    ensures TakeLines(b, r, EntryLines(b, e) + rest)
              == TakeLines(b, Reader(r.out + Somes([ReadEntry(b, e)]), None), rest)
  {
    hide Pair, ReadPair, TakeLine, ExportName, ValueSurvives, PairLines, Somes, ReadPairs;
    var l := Pair(b, "dn", e.dn);
    var ls := EntryLines(b, e) + rest;
    var tail := PairLines(b, e.attributes) + ([""] + rest);
    assert ls[0] == l && ls[1..] == tail;
    TakeDn(b, r, e.dn);
    var r1 := TakeLine(b, r, l);
    TakePairs(b, r1, e.attributes, [""] + rest);
    var r2 := WithAttrs(r1, Somes(ReadPairs(b, e.attributes)));
    TakeBlank(b, r2, rest);
    SomesOne(ReadEntry(b, e));
    assert [] + Somes(ReadPairs(b, e.attributes)) == Somes(ReadPairs(b, e.attributes));
    assert r.out + [] == r.out;
  }

  lemma TakeBlank(b: Base64, r: Reader, rest: seq<string>)
    ensures TakeLines(b, r, [""] + rest) == TakeLines(b, Flush(r), rest)
  {
    assert ([""] + rest)[1..] == rest;
  }

  lemma SomesOne<T>(x: Option<T>)
    ensures Somes([x]) == if x.Some? then [x.value] else []
  {
    assert [x][1..] == [] && Somes<T>([]) == [];
  }

  function ReadEntries(b: Base64, o: Options, es: seq<SearchEntry>): (r: seq<Option<SearchEntry>>)
    ensures |r| == |es|
  {
    seq(|es|, i requires 0 <= i < |es| => ReadEntry(b, Exported(o, es[i])))
  }

  predicate Exportable(o: Options, es: seq<SearchEntry>) {
    forall i :: 0 <= i < |es| ==> ExportNames(Exported(o, es[i]).attributes)
  }

  lemma {:induction false} TakeAll(b: Base64, o: Options, es: seq<SearchEntry>, rest: seq<string>)
    requires Lawful(b) && Exportable(o, es)
    ensures TakeLines(b, Reader([], None), AllLines(b, o, es) + rest)
              == TakeLines(b, Reader(Somes(ReadEntries(b, o, es)), None), rest)
    decreases |es|
  {
    hide TakeLine, EntryLines, Exported, ReadEntry, ExportNames, Somes;
    if es == [] {
      assert AllLines(b, o, es) + rest == rest;
      NoSomes<SearchEntry>();
    } else {
      var init, last := es[..|es| - 1], es[|es| - 1];
      var e := Exported(o, last);
      ConcatAssoc(AllLines(b, o, init), EntryLines(b, e), rest);
      TakeAll(b, o, init, EntryLines(b, e) + rest);
      TakeEntry(b, Reader(Somes(ReadEntries(b, o, init)), None), e, rest);
      assert ReadEntries(b, o, es) == ReadEntries(b, o, init) + [ReadEntry(b, e)];
      SomesConcat(ReadEntries(b, o, init), [ReadEntry(b, e)]);
    }
  }

  lemma NoSomes<T>()
    ensures Somes<T>([]) == []
  {
  }

  lemma CommentSkipped(b: Base64, r: Reader, l: string, rest: seq<string>)
    requires HasPrefix(l, "#") || (l != "" && HasPrefix(Lower(l), "version:"))
    ensures TakeLines(b, r, [l] + rest) == TakeLines(b, r, rest)
  {
    assert ([l] + rest)[1..] == rest;
  }

  lemma HeaderSkipped(b: Base64, o: Options, rest: seq<string>)
    ensures TakeLines(b, Reader([], None), HeaderLines(o) + rest) == TakeLines(b, Reader([], None), rest)
  {
    hide TakeLine, TakeLines;
    var r := Reader([], None);
    Marks();
    var t := [""] + rest;
    TakeBlank(b, r, rest);
    var u := if o.omitSecrets then [OMIT_LINE] + t else t;
    if o.omitSecrets { CommentSkipped(b, r, OMIT_LINE, t); }
    CommentSkipped(b, r, EXPORT_LINE, u);
    CommentSkipped(b, r, VERSION_LINE, [EXPORT_LINE] + u);
    assert HeaderLines(o) + rest == [VERSION_LINE] + ([EXPORT_LINE] + u);
  }

  lemma Marks()
    ensures HasPrefix(EXPORT_LINE, "#") && HasPrefix(OMIT_LINE, "#") && HasPrefix(COMPLETE_MARK, "#")
    ensures HasPrefix(Lower(VERSION_LINE), "version:")
  {
    var w := Lower(VERSION_LINE);
    assert forall i :: 0 <= i < 8 ==> w[i] == "version:"[i];
    assert w[..8] == "version:";
  }

  lemma GoodMarks()
    ensures GoodLine(VERSION_LINE) && GoodLine(EXPORT_LINE) && GoodLine(OMIT_LINE) && GoodLine(COMPLETE_MARK)
    ensures GoodLine("")
  {
  }

  lemma GoodPair(b: Base64, n: string, v: string)
    requires Lawful(b) && ValidName(n)
    ensures GoodLine(Pair(b, n, v))
  {
    LineShape(b, n, v);
    NameFacts(n);
  }

  lemma {:induction false} GoodAll(b: Base64, o: Options, es: seq<SearchEntry>)
    requires Lawful(b) && Exportable(o, es)
    ensures GoodLines(AllLines(b, o, es))
  {
    hide GoodLine, Pair, Exported, ValidName;
    if es != [] {
      GoodAll(b, o, es[..|es| - 1]);
      var e := Exported(o, es[|es| - 1]);
      DnIsName();
      GoodPair(b, "dn", e.dn);
      GoodMarks();
      assert ExportNames(e.attributes);
      forall i | 0 <= i < |e.attributes| ensures GoodLine(PairLines(b, e.attributes)[i]) {
        assert ExportName(e.attributes[i].name);
        GoodPair(b, e.attributes[i].name, e.attributes[i].value);
      }
    }
  }

  lemma DocumentLines(b: Base64, o: Options, es: seq<SearchEntry>, complete: bool)
    requires Lawful(b) && Exportable(o, es)
    ensures ParseLdif(b, Document(b, o, es, complete)) == Somes(ReadEntries(b, o, es))
  {
    hide TakeLine, TakeLines, AllLines, Somes, ReadEntries, ParseLdif, Document, Block, Exportable, GoodLine;
    var all, end := AllLines(b, o, es), TrailerLines(complete);
    GoodMarks();
    GoodAll(b, o, es);
    DocumentIsBlock(b, o, es, complete);
    ParseBlock(b, HeaderLines(o) + all + end);
    ConcatAssoc(HeaderLines(o), all, end);
    ConcatAssoc(HeaderLines(o), all + end, [""]);
    ConcatAssoc(all, end, [""]);
    HeaderSkipped(b, o, all + (end + [""]));
    TakeAll(b, o, es, end + [""]);
    var r := Reader(Somes(ReadEntries(b, o, es)), None);
    Marks();
    if complete { CommentSkipped(b, r, COMPLETE_MARK, [""]); }
    assert !complete ==> end + [""] == [""];
    TakeBlank(b, r, []);
    assert [""] + [] == [""];
    NothingLeft(b, Flush(r));
  }

  lemma NothingLeft(b: Base64, r: Reader)
    ensures TakeLines(b, r, []) == r
  {
  }

  /** Nothing about the entry is lost on the way. */
  predicate EntrySurvives(e: SearchEntry) {
    ValueSurvives(e.dn) && forall i :: 0 <= i < |e.attributes| ==> PairSurvives(e.attributes[i])
  }

  lemma EntryReadBack(b: Base64, e: SearchEntry)
    requires Lawful(b) && ExportNames(e.attributes)
    ensures ReadEntry(b, e) == Some(e) <==> EntrySurvives(e)
  {
    hide ReadPair, PairSurvives, ValueSurvives, Somes;
    forall i | 0 <= i < |e.attributes| ensures ReadPairs(b, e.attributes)[i] == Some(e.attributes[i]) <==>
        PairSurvives(e.attributes[i]) {
      assert ExportName(e.attributes[i].name);
      PairReadBack(b, e.attributes[i]);
    }
    SomesExactly(ReadPairs(b, e.attributes), e.attributes);
    assert e == SearchEntry(e.dn, e.attributes);
  }

  function ExportedAll(o: Options, es: seq<SearchEntry>): (r: seq<SearchEntry>)
    ensures |r| == |es|
  {
    seq(|es|, i requires 0 <= i < |es| => Exported(o, es[i]))
  }

  /**
   * Reading an export gives back every entry, its values grouped and sorted, exactly when
   * no attribute is called version and no DN or value written in the clear holds ":: ".
   */
  lemma ExportRoundTrip(b: Base64, o: Options, es: seq<SearchEntry>, complete: bool)
    requires Lawful(b) && Exportable(o, es)
    ensures ParseLdif(b, Document(b, o, es, complete)) == ExportedAll(o, es) <==>
              forall i :: 0 <= i < |es| ==> EntrySurvives(Exported(o, es[i]))
  {
    hide ReadEntry, EntrySurvives, Exported, Somes, ParseLdif, Document;
    DocumentLines(b, o, es, complete);
    forall i | 0 <= i < |es| ensures ReadEntries(b, o, es)[i] == Some(ExportedAll(o, es)[i]) <==>
        EntrySurvives(Exported(o, es[i])) {
      EntryReadBack(b, Exported(o, es[i]));
    }
    SomesExactly(ReadEntries(b, o, es), ExportedAll(o, es));
  }

  // ---------------------------------------------------------------------------
  // What an export loses
  // ---------------------------------------------------------------------------

  /** The DN a:: b is written in the clear and read as base64. */
  lemma ClearDnIsLost(b: Base64, o: Options, complete: bool) returns (es: seq<SearchEntry>)
    requires Lawful(b)
    ensures Exportable(o, es) && ParseLdif(b, Document(b, o, es, complete)) != ExportedAll(o, es)
  {
    var dn := "a:: b";
    assert HasPrefix(dn[1..], ":: ") && !NeedsBase64(dn);
    assert !ValueSurvives(dn);
    es := [SearchEntry(dn, [])];
    hide ParseLdif, Document, ExportedAll, EntryLines, ValueSurvives;
    assert Exported(o, es[0]).dn == dn && Exported(o, es[0]).attributes == [];
    ExportRoundTrip(b, o, es, complete);
    assert !EntrySurvives(Exported(o, es[0]));
  }

  /** An attribute called version is read as a version line. */
  lemma VersionIsLost(b: Base64, o: Options, complete: bool) returns (es: seq<SearchEntry>)
    requires Lawful(b) && Kept(o, AttrKV("version", ""))
    ensures Exportable(o, es) && ParseLdif(b, Document(b, o, es, complete)) != ExportedAll(o, es)
  {
    var v := AttrKV("version", "");
    VersionIsAName();
    es := [SearchEntry("", [v])];
    hide ParseLdif, Document, ExportedAll, EntryLines, NameText, ValidName;
    OneAttribute(o, v);
    assert Exported(o, es[0]).attributes == [v] && !PairSurvives(v);
    ExportRoundTrip(b, o, es, complete);
    assert !EntrySurvives(Exported(o, es[0]));
  }

  lemma OneAttribute(o: Options, v: AttrKV)
    requires Kept(o, v) && NameText(v.name) == v.name
    ensures Exported(o, SearchEntry("", [v])).attributes == [v]
  {
    hide NameText;
    assert [v][..0] == [] && Collect(o, []) == [];
    assert Collect(o, [v]) == [Group(v.name, [v.value])];
    var g := Group(v.name, [v.value]);
    assert [g][1..] == [] && SortGroups([g]) == [g];
    assert [v.value][1..] == [] && Sort([v.value]) == [v.value];
    assert Grouped(o, [v]) == [g];
    assert GroupPairs(g) == [v];
    assert Flatten([g]) == [v] + Flatten([]);
  }
}
