/** UTF-8 by the scalar values that it encodes. */
module Unicode {
  import opened Bytes
  import opened Wire

  /** A Unicode scalar value: a code point other than a surrogate. */
  predicate Scalar(c: nat) { c < 0xD800 || 0xE000 <= c < 0x11_0000 }

  /** The low six bits of `c` as a trailing byte. */
  function TrailByte(c: nat): Byte { 0x80 + c % 64 }

  /** The bytes of a scalar value, RFC 3629, section 3. */
  function EncodeScalar(c: nat): (r: seq<Byte>)
    requires Scalar(c)
  {
    if c < 0x80 then [c]
    else if c < 0x800 then [0xC0 + c / 0x40, TrailByte(c)]
    else if c < 0x1_0000 then [0xE0 + c / 0x1000, TrailByte(c / 0x40), TrailByte(c)]
    else [0xF0 + c / 0x4_0000, TrailByte(c / 0x1000), TrailByte(c / 0x40), TrailByte(c)]
  }

  predicate AllScalar(cs: seq<nat>) { forall i :: 0 <= i < |cs| ==> Scalar(cs[i]) }

  function EncodeScalars(cs: seq<nat>): seq<Byte>
    requires AllScalar(cs)
  {
    if cs == [] then [] else EncodeScalar(cs[0]) + EncodeScalars(cs[1..])
  }

  lemma ScalarLength(c: nat, z: seq<Byte>)
    requires Scalar(c)
    ensures CharLength(EncodeScalar(c) + z) == |EncodeScalar(c)|
  {
    var r := EncodeScalar(c);
    var s := r + z;
    if 0x80 <= c < 0x800 {
      assert s[0] == r[0] && s[1] == r[1];
    } else if 0x800 <= c < 0x1_0000 {
      assert s[0] == r[0] && s[1] == r[1] && s[2] == r[2];
      assert c / 0x1000 == 0 ==> c / 0x40 % 64 >= 0x20;
      assert c / 0x1000 == 0xD && c < 0xD800 ==> c / 0x40 % 64 < 0x20;
    } else if 0x1_0000 <= c {
      assert s[0] == r[0] && s[1] == r[1] && s[2] == r[2] && s[3] == r[3];
      assert c / 0x4_0000 == 0 ==> c / 0x1000 % 64 >= 0x10;
      assert c / 0x4_0000 == 4 ==> c / 0x1000 % 64 < 0x10;
    }
  }

  /** Six more bits. */
  function Shift(d: nat, b: Byte): nat
    requires Trail(b)
  {
    d * 64 + (b - 0x80)
  }

  lemma ShiftBack(d: nat, b: Byte)
    requires Trail(b)
    ensures Shift(d, b) / 64 == d && TrailByte(Shift(d, b)) == b
  {
  }

  lemma DivideMore(c: nat)
    ensures c / 0x40 / 0x40 == c / 0x1000 && c / 0x1000 / 0x40 == c / 0x4_0000
  {
  }

  /** The scalar value of the character at the start of `s`. */
  lemma LengthScalar(s: seq<Byte>) returns (c: nat)
    requires CharLength(s) > 0
    ensures Scalar(c) && s[..CharLength(s)] == EncodeScalar(c)
  {
    var n := CharLength(s);
    if n == 1 {
      c := s[0];
    } else if n == 2 {
      c := Shift(s[0] - 0xC0, s[1]);
      ShiftBack(s[0] - 0xC0, s[1]);
    } else if n == 3 {
      var d := Shift(s[0] - 0xE0, s[1]);
      c := Shift(d, s[2]);
      ShiftBack(s[0] - 0xE0, s[1]);
      ShiftBack(d, s[2]);
      DivideMore(c);
    } else {
      var d := Shift(s[0] - 0xF0, s[1]);
      var e := Shift(d, s[2]);
      c := Shift(e, s[3]);
      ShiftBack(s[0] - 0xF0, s[1]);
      ShiftBack(d, s[2]);
      ShiftBack(e, s[3]);
      DivideMore(c);
    }
  }

  lemma {:induction false} ScalarsAreUtf8(cs: seq<nat>)
    requires AllScalar(cs)
    ensures Utf8(EncodeScalars(cs))
  {
    if cs == [] {
    } else {
      var r, z := EncodeScalar(cs[0]), EncodeScalars(cs[1..]);
      ScalarLength(cs[0], z);
      ScalarsAreUtf8(cs[1..]);
      assert (r + z)[|r|..] == z;
    }
  }

  lemma {:induction false} Utf8AreScalars(s: seq<Byte>) returns (cs: seq<nat>)
    requires Utf8(s)
    ensures AllScalar(cs) && EncodeScalars(cs) == s
    decreases |s|
  {
    if s == [] {
      cs := [];
    } else {
      var n := CharLength(s);
      var c := LengthScalar(s);
      var rest := Utf8AreScalars(s[n..]);
      cs := [c] + rest;
      assert cs[1..] == rest && s == s[..n] + s[n..];
    }
  }

  /** The UTF-8 strings are exactly the encodings of sequences of scalar values. */
  lemma Utf8IffScalars(s: seq<Byte>)
    ensures Utf8(s) <==> exists cs :: AllScalar(cs) && EncodeScalars(cs) == s
  {
    if Utf8(s) { var cs := Utf8AreScalars(s); }
    forall cs: seq<nat> | AllScalar(cs) && EncodeScalars(cs) == s ensures Utf8(s) { ScalarsAreUtf8(cs); }
  }
}
