// The shape of an export as text: the length of its lines, and its characters.
module LdifShape {
  import opened Text
  import opened DnSyntax
  import opened LdifText
  import opened Ldif

  // ---------------------------------------------------------------------------
  // Line lengths
  // ---------------------------------------------------------------------------

  /** No line is longer than 76 octets. */
  predicate Narrow(s: string) { forall i, j :: 0 <= i <= j <= |s| && '\n' !in s[i..j] ==> j - i <= 76 }

  lemma IsIn(s: string, i: nat, j: nat, k: nat)
    requires i <= k < j <= |s|
    ensures s[k] in s[i..j]
  {
    assert s[i..j][k - i] == s[k];
  }

  /** Texts with a line break where they meet stay narrow. */
  lemma NarrowConcat(a: string, b: string)
    requires Narrow(a) && Narrow(b)
    requires a == "" || b == "" || a[|a| - 1] == '\n' || b[0] == '\n'
    ensures Narrow(a + b)
  {
    var s := a + b;
    forall i, j | 0 <= i <= j <= |s| && '\n' !in s[i..j] ensures j - i <= 76 {
      SpanOf(a, b, i, j);
    }
  }

  /** A span without a break lies on one side. */
  lemma SpanOf(a: string, b: string, i: nat, j: nat)
    requires a == "" || b == "" || a[|a| - 1] == '\n' || b[0] == '\n'
    requires i <= j <= |a + b| && '\n' !in (a + b)[i..j]
    ensures (j <= |a| && (a + b)[i..j] == a[i..j]) || (|a| <= i && (a + b)[i..j] == b[i - |a|..j - |a|])
  {
    if i < |a| < j { IsIn(a + b, i, j, if a[|a| - 1] == '\n' then |a| - 1 else |a|); }
  }

  lemma ShortNarrow(s: string)
    requires |s| <= 76
    ensures Narrow(s)
  {
  }

  /** A break, and behind it at most one line. */
  lemma BreakNarrow(s: string)
    requires |s| <= 77 && s != "" && s[0] == '\n'
    ensures Narrow(s)
  {
    assert forall j :: 0 < j <= |s| ==> s[0..j][0] == s[0];
  }

  lemma {:induction false} FoldedNarrow(rest: string, first: bool)
    ensures Narrow(Folded(rest, first)) && (!first && rest != "" ==> Folded(rest, first)[0] == '\n')
    decreases |rest|
  {
    if rest != "" {
      var max := if first then LINE_WIDTH else LINE_WIDTH - 1;
      var head := if first then "" else ['\n', ' '];
      var piece := if |rest| <= max then rest else rest[..max];
      var more := if |rest| <= max then "" else Folded(rest[max..], false);
      assert Folded(rest, first) == head + piece + more by {
        ConcatAssoc(head, piece, more);
        assert |rest| <= max ==> head + rest == head + piece + "";
      }
      if first { ShortNarrow(head + piece); } else { BreakNarrow(head + piece); }
      if |rest| > max { FoldedNarrow(rest[max..], false); }
      hide Folded, Narrow;
      if more == "" { assert head + piece + more == head + piece; } else { NarrowConcat(head + piece, more); }
    }
  }

  lemma {:induction false} LineNarrow(line: string)
    ensures Narrow(FoldedLine(line)) && FoldedLine(line)[|FoldedLine(line)| - 1] == '\n'
  {
    FoldedNarrow(line, true);
    ShortNarrow(['\n']);
    hide Folded, Narrow;
    NarrowConcat(Folded(line, true), ['\n']);
  }

  /** Text that ends its last line. */
  predicate Ends(s: string) { s == "" || s[|s| - 1] == '\n' }

  lemma {:induction false} BlockNarrow(lines: seq<string>)
    ensures Narrow(Block(lines)) && Ends(Block(lines))
  {
    if lines != [] {
      BlockNarrow(lines[1..]);
      LineNarrow(lines[0]);
      hide Narrow, FoldedLine;
      NarrowConcat(FoldedLine(lines[0]), Block(lines[1..]));
    }
  }

  lemma {:induction false} BlocksNarrow(b: Base64, o: Options, es: seq<SearchEntry>)
    ensures Narrow(Blocks(b, o, es)) && Ends(Blocks(b, o, es))
  {
    if es != [] {
      var init, last := es[..|es| - 1], es[|es| - 1];
      BlocksNarrow(b, o, init);
      BlockNarrow(EntryLines(b, Exported(o, last)));
      hide Narrow;
      NarrowConcat(Blocks(b, o, init), EncodeEntry(b, o, last));
    }
  }

  lemma HeaderNarrow(o: Options)
    ensures Narrow(HeaderText(o)) && Ends(HeaderText(o))
  {
    assert |HeaderText(o)| <= 76;
  }

  /** No line of an export, finished or not, is longer than 76 octets. */
  lemma DocumentNarrow(b: Base64, o: Options, es: seq<SearchEntry>, complete: bool)
    ensures Narrow(Document(b, o, es, complete)) && Ends(Document(b, o, es, complete))
  {
    HeaderNarrow(o);
    BlocksNarrow(b, o, es);
    var tail := if complete then COMPLETE_MARK + ['\n'] else "";
    ShortNarrow(tail);
    hide Narrow, HeaderText, Blocks;
    NarrowConcat(HeaderText(o), Blocks(b, o, es));
    NarrowConcat(HeaderText(o) + Blocks(b, o, es), tail);
  }

  // ---------------------------------------------------------------------------
  // Characters
  // ---------------------------------------------------------------------------

  predicate Ascii(s: string) { forall i :: 0 <= i < |s| ==> s[i] as int <= 127 }

  /** A value is written in the clear exactly when it is a safe string (RFC 2849) that does not end in a space. */
  lemma ClearExactly(v: string)
    ensures !NeedsBase64(v) <==>
              v == "" || (v[0] !in "\0\n\r :<" && v[|v| - 1] != ' '
                  && forall i :: 0 <= i < |v| ==> v[i] !in "\0\n\r" && v[i] as int <= 127)
  {
    if v != "" && !NeedsBase64(v) {
      forall i | 0 <= i < |v| ensures v[i] !in "\0\n\r" && v[i] as int <= 127 {
        assert i > 0 ==> SafeChar(v[i]);
      }
    }
  }

  lemma {:induction false} AsciiFolded(rest: string, first: bool)
    requires Ascii(rest)
    ensures Ascii(Folded(rest, first))
    decreases |rest|
  {
    var max := if first then LINE_WIDTH else LINE_WIDTH - 1;
    if |rest| > max { AsciiFolded(rest[max..], false); }
  }

  lemma AsciiPair(b: Base64, name: string, value: string)
    requires Lawful(b) && Ascii(name)
    ensures Ascii(Pair(b, name, value))
  {
    ClearExactly(value);
    if NeedsBase64(value) {
      var e := b.encode(value);
      assert forall i :: 0 <= i < |e| ==> IsBase64Char(e[i]);
    }
  }

  lemma {:induction false} AsciiBlock(lines: seq<string>)
    requires forall i :: 0 <= i < |lines| ==> Ascii(lines[i])
    ensures Ascii(Block(lines))
  {
    if lines != [] {
      AsciiBlock(lines[1..]);
      AsciiFolded(lines[0], true);
    }
  }

  predicate AsciiNames(e: SearchEntry) { forall i :: 0 <= i < |e.attributes| ==> Ascii(e.attributes[i].name) }

  lemma AsciiNameText(s: string)
    requires Ascii(s)
    ensures Ascii(NameText(s))
  {
    AsciiSpaceLeft(s);
    AsciiSpaceRight(TrimSpaceLeft(s));
  }

  lemma {:induction false} AsciiSpaceLeft(s: string)
    requires Ascii(s)
    ensures Ascii(TrimSpaceLeft(s))
  {
    if s != "" && IsSpace(s[0]) { AsciiSpaceLeft(s[1..]); }
  }

  lemma {:induction false} AsciiSpaceRight(s: string)
    requires Ascii(s)
    ensures Ascii(TrimSpaceRight(s))
  {
    if s != "" && IsSpace(s[|s| - 1]) { AsciiSpaceRight(s[..|s| - 1]); }
  }

  lemma {:induction false} AsciiValuesNamed(o: Options, attrs: seq<AttrKV>, name: string)
    requires ValuesNamed(o, attrs, name) != [] && forall i :: 0 <= i < |attrs| ==> Ascii(attrs[i].name)
    ensures Ascii(name)
  {
    var last, init := attrs[|attrs| - 1], attrs[..|attrs| - 1];
    AsciiNameText(last.name);
    if ValuesNamed(o, init, name) != [] { AsciiValuesNamed(o, init, name); }
  }

  lemma {:induction false} AsciiFlatten(gs: seq<Group>)
    requires forall i :: 0 <= i < |gs| ==> Ascii(gs[i].name)
    ensures forall i :: 0 <= i < |Flatten(gs)| ==> Ascii(Flatten(gs)[i].name)
  {
    hide Ascii;
    if gs != [] {
      AsciiFlatten(gs[1..]);
      var a: seq<AttrKV>, r: seq<AttrKV> := GroupPairs(gs[0]), Flatten(gs[1..]);
      forall i | 0 <= i < |a + r| ensures Ascii((a + r)[i].name) {
        if i >= |a| { assert (a + r)[i] == r[i - |a|]; }
      }
    }
  }

  lemma AsciiEntry(b: Base64, o: Options, e: SearchEntry)
    requires Lawful(b) && AsciiNames(e)
    ensures Ascii(EncodeEntry(b, o, e))
  {
    hide Pair, Ascii, Grouped, NameText, Lawful, ValuesNamed;
    var gs := Grouped(o, e.attributes);
    forall i | 0 <= i < |gs| ensures Ascii(gs[i].name) {
      GroupedFacts(o, e.attributes, gs[i].name);
      assert HoldsValues(o, e.attributes, gs[i]);
      GroupHas(o, e.attributes, gs[i]);
      AsciiValuesNamed(o, e.attributes, gs[i].name);
    }
    AsciiFlatten(gs);
    var x := Exported(o, e);
    var lines := EntryLines(b, x);
    AsciiNothing();
    forall i | 0 <= i < |lines| ensures Ascii(lines[i]) {
      if i == 0 {
        AsciiPair(b, "dn", x.dn);
      } else if i <= |x.attributes| {
        AsciiPair(b, x.attributes[i - 1].name, x.attributes[i - 1].value);
      }
    }
    AsciiBlock(lines);
  }

  lemma AsciiNothing()
    ensures Ascii("") && Ascii("dn")
  {
  }

  lemma GroupHas(o: Options, attrs: seq<AttrKV>, g: Group)
    requires HoldsValues(o, attrs, g)
    ensures ValuesNamed(o, attrs, g.name) != []
  {
    assert g.values[0] in multiset(g.values);
  }

  lemma {:induction false} AsciiBlocks(b: Base64, o: Options, es: seq<SearchEntry>)
    requires Lawful(b) && forall i :: 0 <= i < |es| ==> AsciiNames(es[i])
    ensures Ascii(Blocks(b, o, es))
  {
    hide AsciiNames, EncodeEntry, Lawful;
    if es != [] {
      AsciiBlocks(b, o, es[..|es| - 1]);
      AsciiEntry(b, o, es[|es| - 1]);
    }
  }

  /** With attribute names in ASCII, whatever the DNs and values, everything that is written is. */
  lemma DocumentAscii(b: Base64, o: Options, es: seq<SearchEntry>, complete: bool)
    requires Lawful(b) && forall i :: 0 <= i < |es| ==> AsciiNames(es[i])
    ensures Ascii(Document(b, o, es, complete))
  {
    AsciiBlocks(b, o, es);
    AsciiMarks(o);
    hide Blocks, Ascii, HeaderText;
    AsciiConcat(HeaderText(o), Blocks(b, o, es));
    AsciiConcat(HeaderText(o) + Blocks(b, o, es), if complete then COMPLETE_MARK + ['\n'] else "");
  }

  lemma AsciiConcat(a: string, b: string)
    requires Ascii(a) && Ascii(b)
    ensures Ascii(a + b)
  {
  }

  lemma AsciiMarks(o: Options)
    ensures Ascii(HeaderText(o)) && Ascii(COMPLETE_MARK + ['\n']) && Ascii("")
  {
    hide Ascii;
    AsciiLiterals();
    AsciiConcat(COMPLETE_MARK, ['\n']);
    AsciiConcat(OMIT_LINE, ['\n']);
    var omit := if o.omitSecrets then OMIT_LINE + ['\n'] else "";
    AsciiConcat(omit, ['\n']);
    AsciiConcat(['\n'], omit + ['\n']);
    AsciiConcat(EXPORT_LINE, ['\n'] + (omit + ['\n']));
    AsciiConcat(['\n'], EXPORT_LINE + (['\n'] + (omit + ['\n'])));
    AsciiConcat(VERSION_LINE, ['\n'] + (EXPORT_LINE + (['\n'] + (omit + ['\n']))));
  }

  lemma AsciiLiterals()
    ensures Ascii(VERSION_LINE) && Ascii(EXPORT_LINE) && Ascii(OMIT_LINE) && Ascii(COMPLETE_MARK) && Ascii(['\n'])
    ensures Ascii("")
  {
  }
}
