// Well-formed UTF-8 by what it encodes: the octets of Unicode scalar values (section 3 of
// RFC 3629), written out by division.
module Utf8 {
  import opened Text

  /** Any code point but the surrogates. */
  predicate Scalar(c: nat) { c < 0xD800 || 0xE000 <= c < 0x110000 }

  /** Six bits behind the mark of a continuation octet. */
  function Trail(bits: nat): char
    requires bits < 64
  {
    (128 + bits) as char
  }

  function Encode(c: nat): string
    requires Scalar(c)
  {
    if c < 0x80 then [c as char]
    else if c < 0x800 then [(192 + c / 64) as char, Trail(c % 64)]
    else if c < 0x10000 then [(224 + c / 4096) as char, Trail(c / 64 % 64), Trail(c % 64)]
    else [(240 + c / 262144) as char, Trail(c / 4096 % 64), Trail(c / 64 % 64), Trail(c % 64)]
  }

  predicate Scalars(cs: seq<nat>) { forall i :: 0 <= i < |cs| ==> Scalar(cs[i]) }

  function EncodeAll(cs: seq<nat>): string
    requires Scalars(cs)
  {
    if cs == [] then "" else Encode(cs[0]) + EncodeAll(cs[1..])
  }

  lemma EncodedHead(c: nat, rest: string)
    requires Scalar(c)
    ensures ValidUtf8(Encode(c) + rest) <==> ValidUtf8(rest)
  {
    var e := Encode(c);
    var s := e + rest;
    assert s[|e|..] == rest && forall i :: 0 <= i < |e| ==> s[i] == e[i];
    if c < 0x80 {
    } else if c < 0x800 {
      TwoOctets(c);
    } else if c < 0x10000 {
      ThreeOctets(c);
    } else {
      FourOctets(c);
    }
  }

  lemma TwoOctets(c: nat)
    requires 0x80 <= c < 0x800
    ensures 0xC2 <= Encode(c)[0] as int <= 0xDF && Continuation(Encode(c)[1])
  {
  }

  lemma ThreeOctets(c: nat)
    requires Scalar(c) && 0x800 <= c < 0x10000
    ensures var e := Encode(c);
      && 0xE0 <= e[0] as int <= 0xEF && Continuation(e[1]) && Continuation(e[2])
      && (e[0] as int == 0xE0 ==> e[1] as int >= 0xA0) && (e[0] as int == 0xED ==> e[1] as int <= 0x9F)
  {
  }

  lemma FourOctets(c: nat)
    requires 0x10000 <= c < 0x110000
    ensures var e := Encode(c);
      && 0xF0 <= e[0] as int <= 0xF4 && Continuation(e[1]) && Continuation(e[2]) && Continuation(e[3])
      && (e[0] as int == 0xF0 ==> e[1] as int >= 0x90) && (e[0] as int == 0xF4 ==> e[1] as int <= 0x8F)
  {
  }

  /** The scalar value that well-formed text begins with. */
  lemma FirstScalar(s: string) returns (c: nat, n: nat)
    requires ValidUtf8(s) && s != ""
    ensures Scalar(c) && 0 < n <= |s| && s[..n] == Encode(c) && ValidUtf8(s[n..])
  {
    var b := s[0] as int;
    if b < 0x80 {
      c, n := b, 1;
    } else if b <= 0xDF {
      c, n := (b - 192) * 64 + (s[1] as int - 128), 2;
    } else if b <= 0xEF {
      c, n := (b - 224) * 4096 + (s[1] as int - 128) * 64 + (s[2] as int - 128), 3;
      ThreeBack(b - 224, s[1] as int - 128, s[2] as int - 128);
    } else {
      n := 4;
      c := FourBack(b - 240, s[1] as int - 128, s[2] as int - 128, s[3] as int - 128);
    }
  }

  lemma ThreeBack(x: nat, y: nat, z: nat)
    requires y < 64 && z < 64
    ensures var c := x * 4096 + y * 64 + z; c / 4096 == x && c / 64 % 64 == y && c % 64 == z
  {
    var c := x * 4096 + y * 64 + z;
    assert c / 64 == x * 64 + y;
  }

  lemma FourBack(w: nat, x: nat, y: nat, z: nat) returns (c: nat)
    requires x < 64 && y < 64 && z < 64
    ensures c == w * 262144 + x * 4096 + y * 64 + z
    ensures c / 262144 == w && c / 4096 % 64 == x && c / 64 % 64 == y && c % 64 == z
  {
    c := w * 262144 + x * 4096 + y * 64 + z;
    assert c / 64 == (w * 64 + x) * 64 + y;
    assert c / 4096 == w * 64 + x;
  }

  /** Text is well formed exactly when it is the encoding of some scalar values. */
  lemma {:induction false} ValidExactly(s: string)
    ensures ValidUtf8(s) <==> exists cs :: Scalars(cs) && EncodeAll(cs) == s
    decreases |s|
  {
    if ValidUtf8(s) {
      if s == "" {
        assert Scalars([]) && EncodeAll([]) == s;
      } else {
        var c, n := FirstScalar(s);
        ValidExactly(s[n..]);
        var cs :| Scalars(cs) && EncodeAll(cs) == s[n..];
        assert ([c] + cs)[1..] == cs && s == s[..n] + s[n..];
        assert Scalars([c] + cs) && EncodeAll([c] + cs) == s;
      }
    }
    if cs :| Scalars(cs) && EncodeAll(cs) == s { EncodedIsValid(cs); }
  }

  lemma {:induction false} EncodedIsValid(cs: seq<nat>)
    requires Scalars(cs)
    ensures ValidUtf8(EncodeAll(cs))
  {
    if cs != [] {
      EncodedIsValid(cs[1..]);
      EncodedHead(cs[0], EncodeAll(cs[1..]));
    }
  }
}
