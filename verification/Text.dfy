// Byte strings: every char of a string stands for one byte of the Go string.
module Text {

  datatype Option<+T> = None | Some(value: T)

  predicate IsUpper(c: char) { 'A' <= c <= 'Z' }

  predicate IsLetter(c: char) { 'a' <= c <= 'z' || 'A' <= c <= 'Z' }

  predicate IsDigit(c: char) { '0' <= c <= '9' }

  /** Case folding. Only the ASCII letters fold; bytes above 127 stay as they are. */
  function LowerChar(c: char): char {
    if IsUpper(c) then (c as int + 32) as char else c
  }

  const UPPER := "ABCDEFGHIJKLMNOPQRSTUVWXYZ"
  const LOWER := "abcdefghijklmnopqrstuvwxyz"

  /** Each capital letter becomes its small letter, and nothing else changes. */
  lemma LowerTable(c: char)
    ensures forall i :: 0 <= i < 26 ==> LowerChar(UPPER[i]) == LOWER[i]
    ensures c !in UPPER ==> LowerChar(c) == c
    ensures IsLetter(c) <==> c in UPPER || c in LOWER
    ensures IsDigit(c) <==> c in "0123456789"
  {
    assert |UPPER| == 26 && |LOWER| == 26;
    forall i | 0 <= i < 26 ensures UPPER[i] == (65 + i) as char && LOWER[i] == (97 + i) as char { }
    if IsUpper(c) { assert UPPER[c as int - 65] == c; }
    if 'a' <= c <= 'z' { assert LOWER[c as int - 97] == c; }
    if IsDigit(c) { assert "0123456789"[c as int - 48] == c; }
  }

  function Lower(s: string): (r: string)
    ensures |r| == |s|
    ensures forall i :: 0 <= i < |s| ==> r[i] == LowerChar(s[i])
  {
    seq(|s|, i requires 0 <= i < |s| => LowerChar(s[i]))
  }

  predicate EqualFold(a: string, b: string) { Lower(a) == Lower(b) }

  lemma ConcatAssoc<T>(a: seq<T>, b: seq<T>, c: seq<T>)
    ensures a + b + c == a + (b + c)
  {
  }

  lemma Around<T>(a: seq<T>, c: T, b: seq<T>)
    ensures var s := a + ([c] + b); |s| == |a| + 1 + |b| && s[..|a|] == a && s[|a|] == c && s[|a| + 1..] == b
  {
    var u := [c] + b;
    assert u[1..] == b;
    assert (a + u)[|a|..] == u;
    assert (a + u)[|a| + 1..] == u[1..];
  }

  lemma LowerIdempotent(s: string)
    ensures Lower(Lower(s)) == Lower(s)
  {
    assert forall c: char :: LowerChar(LowerChar(c)) == LowerChar(c);
  }

  predicate HasPrefix(s: string, p: string) { |p| <= |s| && s[..|p|] == p }

  predicate HasSuffix(s: string, p: string) { |p| <= |s| && s[|s| - |p|..] == p }

  function HexVal(c: char): (r: Option<int>)
    ensures r.Some? ==> 0 <= r.value < 16
  {
    if '0' <= c <= '9' then Some(c as int - '0' as int)
    else if 'a' <= c <= 'f' then Some(c as int - 'a' as int + 10)
    else if 'A' <= c <= 'F' then Some(c as int - 'A' as int + 10)
    else None
  }

  predicate IsHex(c: char) { HexVal(c).Some? }

  const HEX_LOWER := "0123456789abcdef"
  const HEX_UPPER := "0123456789ABCDEF"

  /** The digit c stands for n. */
  predicate HexDigit(c: char, n: nat) { n < 16 && (c == HEX_LOWER[n] || c == HEX_UPPER[n]) }

  lemma HexDigitIs(c: char, n: nat)
    ensures HexDigit(c, n) <==> HexVal(c) == Some(n)
  {
    if HexVal(c) == Some(n) {
      if '0' <= c <= '9' {
        assert HEX_LOWER[n] == c;
      } else if 'a' <= c <= 'f' {
        assert HEX_LOWER[n] == c;
      } else {
        assert HEX_UPPER[n] == c;
      }
    }
  }

  /** The two digits stand for c, which is not the null character. */
  ghost predicate HexPair(a: char, b: char, c: char) {
    c != '\0' && exists hi: nat, lo: nat :: HexDigit(a, hi) && HexDigit(b, lo) && c as int == 16 * hi + lo
  }

  lemma HexPairIs(a: char, b: char, c: char)
    ensures HexPair(a, b, c) <==>
              c != '\0' && IsHex(a) && IsHex(b) && c as int == HexVal(a).value * 16 + HexVal(b).value
  {
    hide HexDigit, HexVal;
    if HexPair(a, b, c) {
      var hi: nat, lo: nat :| HexDigit(a, hi) && HexDigit(b, lo) && c as int == 16 * hi + lo;
      HexDigitIs(a, hi);
      HexDigitIs(b, lo);
    }
    if IsHex(a) && IsHex(b) {
      HexDigitIs(a, HexVal(a).value);
      HexDigitIs(b, HexVal(b).value);
    }
  }

  predicate Continuation(c: char) { 0x80 <= c as int <= 0xBF }

  /** Well-formed UTF-8 byte sequences (section 4 of RFC 3629). */
  predicate ValidUtf8(s: string) {
    if s == "" then true
    else
      var b := s[0] as int;
      if b < 0x80 then ValidUtf8(s[1..])
      else if 0xC2 <= b <= 0xDF then
        |s| >= 2 && Continuation(s[1]) && ValidUtf8(s[2..])
      else if 0xE0 <= b <= 0xEF then
        |s| >= 3 && Continuation(s[1]) && Continuation(s[2])
        && (b == 0xE0 ==> s[1] as int >= 0xA0) && (b == 0xED ==> s[1] as int <= 0x9F)
        && ValidUtf8(s[3..])
      else if 0xF0 <= b <= 0xF4 then
        |s| >= 4 && Continuation(s[1]) && Continuation(s[2]) && Continuation(s[3])
        && (b == 0xF0 ==> s[1] as int >= 0x90) && (b == 0xF4 ==> s[1] as int <= 0x8F)
        && ValidUtf8(s[4..])
      else false
  }

  /** Folding touches only one-byte characters, so it keeps a string well-formed. */
  lemma {:induction false} LowerKeepsUtf8(s: string)
    requires ValidUtf8(s)
    ensures ValidUtf8(Lower(s))
  {
    if s != "" {
      var b := s[0] as int;
      var n := if b < 0x80 then 1 else if b <= 0xDF then 2 else if b <= 0xEF then 3 else 4;
      LowerKeepsUtf8(s[n..]);
      assert Lower(s)[n..] == Lower(s[n..]);
    }
  }

  /** How many bytes a character with that first byte takes. */
  function RuneLength(c: char): nat {
    if c as int < 0x80 then 1 else if c as int <= 0xDF then 2 else if c as int <= 0xEF then 3 else 4
  }

  lemma Utf8Rest(s: string)
    requires ValidUtf8(s) && s != ""
    ensures var n := RuneLength(s[0]);
      n <= |s| && ValidUtf8(s[n..]) && (n > 1 ==> forall i :: 0 <= i < n ==> s[i] as int >= 0x80)
  {
  }

  /** The first rune of well-formed text, and what follows it. */
  lemma Utf8Head(s: string)
    requires ValidUtf8(s) && s != ""
    ensures var n := RuneLength(s[0]);
      n <= |s| && ValidUtf8(s[..n]) && ValidUtf8(s[n..]) && (n > 1 ==> forall i :: 0 <= i < n ==> s[i] as int >= 0x80)
  {
    Utf8Rest(s);
    var n := RuneLength(s[0]);
    var h := s[..n];
    assert h[n..] == "";
    assert forall i :: 0 <= i < n ==> h[i] == s[i];
  }

  lemma Utf8Cons(h: string, t: string)
    requires h != "" && |h| == RuneLength(h[0]) && ValidUtf8(h) && ValidUtf8(t)
    ensures ValidUtf8(h + t)
  {
    var s := h + t;
    assert s[|h|..] == t;
    assert forall i :: 0 <= i < |h| ==> s[i] == h[i];
  }

  lemma {:induction false} Utf8Append(a: string, b: string)
    requires ValidUtf8(a) && ValidUtf8(b)
    ensures ValidUtf8(a + b)
  {
    hide ValidUtf8, RuneLength;
    if a == "" {
      assert a + b == b;
    } else {
      Utf8Head(a);
      HeadLength(a);
      var n := RuneLength(a[0]);
      Utf8Append(a[n..], b);
      Utf8Cons(a[..n], a[n..] + b);
      assert a[..n] + (a[n..] + b) == a + b;
    }
  }

  lemma HeadLength(a: string)
    requires a != "" && RuneLength(a[0]) <= |a|
    ensures 0 < RuneLength(a[0]) && a[..RuneLength(a[0])][0] == a[0]
  {
  }

  lemma {:induction false} AsciiUtf8(s: string)
    requires forall i :: 0 <= i < |s| ==> s[i] as int < 0x80
    ensures ValidUtf8(s)
  {
    if s != "" { AsciiUtf8(s[1..]); }
  }

  // ---------------------------------------------------------------------------
  // Finite sets
  // ---------------------------------------------------------------------------

  lemma {:induction false} SubsetSize<T>(a: set<T>, b: set<T>)
    requires a <= b
    ensures |a| <= |b|
  {
    if a != {} {
      var x :| x in a;
      SubsetSize(a - {x}, b - {x});
    }
  }

  lemma SmallerSet<T>(a: set<T>, b: set<T>)
    requires a < b
    ensures |a| < |b|
  {
    var x :| x in b && x !in a;
    SubsetSize(a, b - {x});
  }
}
