/** UTF-8 (RFC 3629) as an encoding of code points, and the check on node and property names against it
    (src/kernel/devicetree/fdt/fdt_structure_block.rs, `CStr::to_str`). */
module Utf8Text {
  import opened Basics
  import opened StructureBlock

  /** The Unicode scalar values: surrogates are not encoded. */
  predicate Scalar(c: nat)
  {
    c < 0xD800 || 0xE000 <= c < 0x11_0000
  }

  function EncodePoint(c: nat): seq<byte>
    requires Scalar(c)
  {
    if c < 0x80 then [c]
    else if c < 0x800 then [0xC0 + c / 64, 0x80 + c % 64]
    else if c < 0x1_0000 then [0xE0 + c / 4096, 0x80 + c / 64 % 64, 0x80 + c % 64]
    else [0xF0 + c / 0x4_0000, 0x80 + c / 4096 % 64, 0x80 + c / 64 % 64, 0x80 + c % 64]
  }

  ghost predicate AllScalar(cs: seq<nat>)
  {
    forall c | c in cs :: Scalar(c)
  }

  ghost function EncodeText(cs: seq<nat>): seq<byte>
    requires AllScalar(cs)
  {
    if cs == [] then [] else EncodePoint(cs[0]) + EncodeText(cs[1..])
  }

  lemma OnePoint(c: nat, rest: seq<byte>)
    requires Scalar(c)
    ensures Utf8(EncodePoint(c) + rest) <==> Utf8(rest)
  {
    var s := EncodePoint(c) + rest;
    if c < 0x80 {
      assert s[1..] == rest;
    } else if c < 0x800 {
      assert s[2..] == rest;
    } else if c < 0x1_0000 {
      ThreeBytes(c);
      assert s[3..] == rest;
    } else {
      FourBytes(c);
      assert s[4..] == rest;
    }
  }

  lemma ThreeBytes(c: nat)
    requires 0x800 <= c < 0x1_0000
    ensures c / 4096 == 0 ==> c / 64 % 64 >= 0x20
    ensures c / 4096 == 0xD ==> (c / 64 % 64 < 0x20 <==> c < 0xD800)
    ensures 0xD800 <= c < 0xE000 <==> c / 4096 == 0xD && c / 64 % 64 >= 0x20
  {
    assert c / 64 == 64 * (c / 4096) + c / 64 % 64;
  }

  lemma FourBytes(c: nat)
    requires 0x1_0000 <= c < 0x11_0000
    ensures c / 0x4_0000 <= 4
    ensures c / 0x4_0000 == 0 ==> c / 4096 % 64 >= 0x10
    ensures c / 0x4_0000 == 4 ==> c / 4096 % 64 < 0x10
  {
    assert c / 4096 == 64 * (c / 0x4_0000) + c / 4096 % 64;
  }

  lemma PointOfTwo(a: nat, b: nat)
    requires 2 <= a < 32 && b < 64
    ensures Scalar(64 * a + b) && EncodePoint(64 * a + b) == [0xC0 + a, 0x80 + b]
  {
  }

  lemma PointOfThree(a: nat, b: nat, d: nat)
    requires a < 16 && b < 64 && d < 64 && (a == 0 ==> b >= 0x20) && (a == 0xD ==> b < 0x20)
    ensures Scalar(4096 * a + 64 * b + d) && EncodePoint(4096 * a + 64 * b + d) == [0xE0 + a, 0x80 + b, 0x80 + d]
  {
    var c := 4096 * a + 64 * b + d;
    assert c / 64 == 64 * a + b && c % 64 == d;
    assert c / 4096 == a && c / 64 % 64 == b;
  }

  lemma PointOfFour(a: nat, b: nat, d: nat, e: nat)
    requires a <= 4 && b < 64 && d < 64 && e < 64 && (a == 0 ==> b >= 0x10) && (a == 4 ==> b < 0x10)
    ensures var c := 0x4_0000 * a + 4096 * b + 64 * d + e;
      Scalar(c) && EncodePoint(c) == [0xF0 + a, 0x80 + b, 0x80 + d, 0x80 + e]
  {
    var c := 0x4_0000 * a + 4096 * b + 64 * d + e;
    assert c / 64 == 4096 * a + 64 * b + d && c % 64 == e;
    assert c / 4096 == 64 * a + b && c / 64 % 64 == d;
    assert c / 0x4_0000 == a && c / 4096 % 64 == b;
  }

  /** A string that passes the check starts with the encoding of some code point. */
  lemma FirstPoint(s: Str) returns (c: nat, rest: Str)
    requires Utf8(s) && s != []
    ensures Scalar(c) && s == EncodePoint(c) + rest && Utf8(rest) && |rest| < |s|
  {
    var a: int := s[0];
    if a < 0x80 {
      c, rest := a, s[1..];
    } else if a < 0xE0 {
      var b: int := s[1];
      c, rest := 64 * (a - 0xC0) + (b - 0x80), s[2..];
      PointOfTwo(a - 0xC0, b - 0x80);
      hide EncodePoint;
      assert s == [s[0], s[1]] + rest;
    } else if a < 0xF0 {
      var b: int, d: int := s[1], s[2];
      c, rest := 4096 * (a - 0xE0) + 64 * (b - 0x80) + (d - 0x80), s[3..];
      PointOfThree(a - 0xE0, b - 0x80, d - 0x80);
      hide EncodePoint;
      assert s == [s[0], s[1], s[2]] + rest;
    } else {
      var b: int, d: int, e: int := s[1], s[2], s[3];
      c, rest := 0x4_0000 * (a - 0xF0) + 4096 * (b - 0x80) + 64 * (d - 0x80) + (e - 0x80), s[4..];
      PointOfFour(a - 0xF0, b - 0x80, d - 0x80, e - 0x80);
      hide EncodePoint;
      assert s == [s[0], s[1], s[2], s[3]] + rest;
    }
  }

  lemma {:induction false} Decoded(s: Str) returns (cs: seq<nat>)
    requires Utf8(s)
    ensures AllScalar(cs) && s == EncodeText(cs)
    decreases |s|
  {
    if s == [] {
      cs := [];
    } else {
      var c, rest := FirstPoint(s);
      var cs' := Decoded(rest);
      cs := [c] + cs';
      assert cs[1..] == cs';
    }
  }

  lemma {:induction false} EncodedIsUtf8(cs: seq<nat>)
    requires AllScalar(cs)
    ensures Utf8(EncodeText(cs))
    decreases |cs|
  {
    if cs != [] {
      EncodedIsUtf8(cs[1..]);
      OnePoint(cs[0], EncodeText(cs[1..]));
    }
  }

  /** The check accepts exactly the encoded texts. */
  lemma Utf8Exactly(s: Str)
    ensures Utf8(s) <==> exists cs :: AllScalar(cs) && s == EncodeText(cs)
  {
    if Utf8(s) {
      var cs := Decoded(s);
    }
    if cs :| AllScalar(cs) && s == EncodeText(cs) {
      EncodedIsUtf8(cs);
    }
  }

  lemma {:induction false} AsciiIsUtf8(s: Str)
    requires forall x | x in s :: x < 0x80
    ensures Utf8(s)
    decreases |s|
  {
    if s != [] {
      assert s[0] in s;
      forall x | x in s[1..]
        ensures x < 0x80
      {
        assert x in s;
      }
      AsciiIsUtf8(s[1..]);
    }
  }
}
