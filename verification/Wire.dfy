/** The Protocol Buffers wire format on byte sequences, as the input stream reads it. */
module Wire {
  import opened Bytes

  /** Failure, or a value and the bytes after it. */
  datatype Read<+T> = Fail | Got(value: T, rest: seq<Byte>)

  /** End of input; a tag that is zero or malformed; or a tag. */
  datatype TagRead = AtEnd | NoTag | Tag(tag: nat, rest: seq<Byte>)

  /** A length-delimited string, or failure with what the target string then holds. */
  datatype Chunk = Bad(left: seq<Byte>) | Good(value: seq<Byte>, rest: seq<Byte>)

  const TWO31: nat := 0x8000_0000
  const TWO32: nat := 0x1_0000_0000
  const TWO64: nat := 0x1_0000_0000_0000_0000
  const MAX_VARINT_BYTES: nat := 10
  const RECURSION_LIMIT: nat := 100

  // ------------------------------------------------------------------ reading

  /** Seven bits a byte, the low ones first, in at most `left` bytes. */
  function Varint(s: seq<Byte>, left: nat): (r: Read<nat>)
    ensures r.Got? ==> |r.rest| < |s| && r.rest == s[|s| - |r.rest|..]
  {
    if left == 0 || s == [] then Fail
    else if s[0] < 128 then Got(s[0], s[1..])
    else
      match Varint(s[1..], left - 1)
      case Fail => Fail
      case Got(v, rest) => Got(s[0] - 128 + 128 * v, rest)
  }

  /** A 32-bit varint: longer ones lose their high bits. */
  function Varint32(s: seq<Byte>): (r: Read<nat>)
    ensures r.Got? ==> |r.rest| < |s| && r.rest == s[|s| - |r.rest|..] && r.value < TWO32
  {
    match Varint(s, MAX_VARINT_BYTES)
    case Fail => Fail
    case Got(v, rest) => Got(v % TWO32, rest)
  }

  function ReadTag(s: seq<Byte>): (r: TagRead)
    ensures r.Tag? ==> |r.rest| < |s| && 0 < r.tag < TWO32
  {
    if s == [] then AtEnd
    else
      match Varint32(s)
      case Fail => NoTag
      case Got(t, rest) => if t == 0 then NoTag else Tag(t, rest)
  }

  /** A length and as many bytes; `had` is what the target string held. */
  function ReadChunk(s: seq<Byte>, had: seq<Byte>): (r: Chunk)
    ensures r.Good? ==> |r.rest| < |s|
  {
    match Varint32(s)
    case Fail => Bad(had)
    case Got(n, rest) =>
      if n >= TWO31 then Bad(had)
      else if n <= |rest| then Good(rest[..n], rest[n..])
      else Bad(rest)
  }

  function Drop(s: seq<Byte>, n: nat): (r: Read<()>)
    ensures r.Got? ==> |r.rest| <= |s|
  {
    if n <= |s| then Got((), s[n..]) else Fail
  }

  /** SkipField: the value of a field with tag `t`; groups may nest `budget` deep. */
  function SkipField(t: nat, s: seq<Byte>, budget: nat): (r: Read<()>)
    ensures r.Got? ==> |r.rest| <= |s|
    decreases |s|, 1
  {
    match t % 8
    case 0 => (match Varint(s, MAX_VARINT_BYTES)
               case Fail => Fail
               case Got(_, rest) => Got((), rest))
    case 1 => Drop(s, 8)
    case 2 => (match Varint32(s)
               case Fail => Fail
               case Got(n, rest) => if n < TWO31 then Drop(rest, n) else Fail)
    case 3 => if budget == 0 then Fail else SkipGroup(t + 1, s, budget - 1)
    case 5 => Drop(s, 4)
    case _ => Fail
  }

  /** SkipMessage up to the end-group tag, which must be `end`. */
  function SkipGroup(end: nat, s: seq<Byte>, budget: nat): (r: Read<()>)
    ensures r.Got? ==> |r.rest| <= |s|
    decreases |s|, 0
  {
    match ReadTag(s)
    case AtEnd => Fail
    case NoTag => Fail
    case Tag(t, rest) =>
      if t % 8 == 4 then if t == end then Got((), rest) else Fail
      else
        match SkipField(t, rest, budget)
        case Fail => Fail
        case Got(_, after) => SkipGroup(end, after, budget)
  }

  // ------------------------------------------------------------------ what follows does not matter

  lemma {:induction false} VarintMore(s: seq<Byte>, z: seq<Byte>, left: nat)
    requires Varint(s, left).Got?
    ensures Varint(s + z, left) == Got(Varint(s, left).value, Varint(s, left).rest + z)
  {
    assert (s + z)[0] == s[0] && (s + z)[1..] == s[1..] + z;
    if s[0] < 128 {
    } else {
      VarintMore(s[1..], z, left - 1);
    }
  }

  lemma Varint32More(s: seq<Byte>, z: seq<Byte>)
    requires Varint32(s).Got?
    ensures Varint32(s + z) == Got(Varint32(s).value, Varint32(s).rest + z)
  {
    VarintMore(s, z, MAX_VARINT_BYTES);
  }

  lemma TagMore(s: seq<Byte>, z: seq<Byte>)
    requires ReadTag(s).Tag?
    ensures ReadTag(s + z) == Tag(ReadTag(s).tag, ReadTag(s).rest + z)
  {
    Varint32More(s, z);
  }

  lemma ChunkMore(s: seq<Byte>, z: seq<Byte>, had: seq<Byte>)
    requires ReadChunk(s, had).Good?
    ensures ReadChunk(s + z, had) == Good(ReadChunk(s, had).value, ReadChunk(s, had).rest + z)
  {
    Varint32More(s, z);
    var n, rest := Varint32(s).value, Varint32(s).rest;
    assert (rest + z)[..n] == rest[..n] && (rest + z)[n..] == rest[n..] + z;
  }

  lemma DropMore(s: seq<Byte>, z: seq<Byte>, n: nat)
    requires n <= |s|
    ensures Drop(s + z, n) == Got((), s[n..] + z)
  {
    assert (s + z)[n..] == s[n..] + z;
  }

  lemma DropPrefix(s: seq<Byte>, z: seq<Byte>)
    ensures Drop(s + z, |s|) == Got((), z)
  {
    assert (s + z)[|s|..] == z;
  }

  lemma {:induction false} SkipMore(t: nat, s: seq<Byte>, z: seq<Byte>, budget: nat)
    requires SkipField(t, s, budget).Got?
    ensures SkipField(t, s + z, budget) == Got((), SkipField(t, s, budget).rest + z)
    decreases |s|, 1
  {
    match t % 8
    case 0 => VarintMore(s, z, MAX_VARINT_BYTES);
    case 1 => DropMore(s, z, 8);
    case 2 =>
      Varint32More(s, z);
      DropMore(Varint32(s).rest, z, Varint32(s).value);
    case 3 => GroupMore(t + 1, s, z, budget - 1);
    case 5 => DropMore(s, z, 4);
  }

  lemma {:induction false} GroupMore(end: nat, s: seq<Byte>, z: seq<Byte>, budget: nat)
    requires SkipGroup(end, s, budget).Got?
    ensures SkipGroup(end, s + z, budget) == Got((), SkipGroup(end, s, budget).rest + z)
    decreases |s|, 0
  {
    TagMore(s, z);
    var t, rest := ReadTag(s).tag, ReadTag(s).rest;
    if t % 8 != 4 {
      SkipMore(t, rest, z, budget);
      GroupMore(end, SkipField(t, rest, budget).rest, z, budget);
    }
  }

  // ------------------------------------------------------------------ writing

  function EncodeVarint(v: nat): (r: seq<Byte>)
    ensures r != []
  {
    if v < 128 then [v] else [v % 128 + 128] + EncodeVarint(v / 128)
  }

  function EncodeChunk(s: seq<Byte>): seq<Byte> { EncodeVarint(|s|) + s }

  function Power128(n: nat): (p: nat)
    ensures p > 0
  {
    if n == 0 then 1 else 128 * Power128(n - 1)
  }

  lemma {:induction false} VarintRoundTrip(v: nat, z: seq<Byte>, left: nat)
    requires left > 0 && v < Power128(left)
    ensures Varint(EncodeVarint(v) + z, left) == Got(v, z)
  {
    if v < 128 {
      assert ([v] + z)[1..] == z;
    } else {
      var tail := EncodeVarint(v / 128);
      assert (EncodeVarint(v) + z)[1..] == tail + z;
      VarintRoundTrip(v / 128, z, left - 1);
    }
  }

  /** The bytes of a varint: the digits of the number to base 128, the lowest first, all of them but the
      last with the high bit set; and no more of them than it takes. */
  lemma {:induction false} VarintDigits(v: nat, i: nat)
    requires i < |EncodeVarint(v)|
    ensures var r := EncodeVarint(v);
      && r[i] == v / Power128(i) % 128 + (if i + 1 < |r| then 128 else 0)
      && v < Power128(|r|) && (|r| > 1 ==> Power128(|r| - 1) <= v)
  {
    if v < 128 {
      assert Power128(0) == 1 && Power128(1) == 128;
    } else {
      var n := |EncodeVarint(v / 128)|;
      VarintDigits(v / 128, if i == 0 then 0 else i - 1);
      assert Power128(1) == 128 && Power128(n + 1) == 128 * Power128(n);
      if n > 1 { assert Power128(n) == 128 * Power128(n - 1); }
      if i > 0 { DivideTwice(v, 128, Power128(i - 1)); }
    }
  }

  lemma DivideTwice(v: nat, a: nat, b: nat)
    requires a > 0 && b > 0
    ensures a * b > 0 && v / a / b == v / (a * b)
  {
    var w, t := v / a, v % a;
    var q, r := w / b, w % b;
    assert v == w * a + t && w == q * b + r;
    Remainder(r, t, a, b);
    assert (q * b + r) * a == q * (a * b) + r * a;
    Quotient(v, a * b, q, r * a + t);
  }

  lemma Remainder(r: nat, t: nat, a: nat, b: nat)
    requires r < b && t < a
    ensures 0 <= r * a + t < a * b
  {
    assert r * a <= (b - 1) * a;
  }

  lemma Quotient(v: nat, d: nat, q: nat, r: nat)
    requires r < d && v == q * d + r
    ensures v / d == q
  {
    var k := v / d;
    var e := k - q;
    assert v == k * d + v % d;
    assert e * d == r - v % d;
    assert -e * d == -(e * d);
    if e > 0 { AtLeast(e, d); }
    if e < 0 { AtLeast(-e, d); }
  }

  lemma AtLeast(e: int, d: nat)
    requires e >= 1
    ensures e * d >= d
  {
    assert (e - 1) * d >= 0;
  }

  /** The number with the low seven bits of the first `n` bytes as its digits. */
  function Digits(s: seq<Byte>, n: nat): nat
    requires n <= |s|
  {
    if n == 0 then 0 else Digits(s, n - 1) + s[n - 1] % 128 * Power128(n - 1)
  }

  lemma {:induction false} DigitsTail(s: seq<Byte>, n: nat)
    requires 0 < n <= |s|
    ensures Digits(s, n) == s[0] % 128 + 128 * Digits(s[1..], n - 1)
  {
    if n == 1 {
    } else {
      DigitsTail(s, n - 1);
      var d: nat := s[n - 1] % 128;
      assert s[1..][n - 2] == s[n - 1];
      assert Power128(n - 1) == 128 * Power128(n - 2);
      assert d * Power128(n - 1) == 128 * (d * Power128(n - 2));
    }
  }

  /** A varint ends with the first byte below 128, if that is one of the first ten, or of the `left`
      allowed. */
  lemma {:induction false} VarintReads(s: seq<Byte>, n: nat, left: nat)
    requires n < left && n < |s| && s[n] < 128 && forall i :: 0 <= i < n ==> s[i] >= 128
    ensures Varint(s, left) == Got(Digits(s, n + 1), s[n + 1..])
  {
    DigitsTail(s, n + 1);
    if n == 0 {
      assert s[0] % 128 == s[0];
    } else {
      assert s[0] % 128 == s[0] - 128;
      VarintReads(s[1..], n - 1, left - 1);
      assert s[1..][n..] == s[n + 1..];
    }
  }

  /** Otherwise there is none. */
  lemma {:induction false} VarintFails(s: seq<Byte>, left: nat)
    requires forall i :: 0 <= i < left && i < |s| ==> s[i] >= 128
    ensures Varint(s, left) == Fail
  {
    if left > 0 && s != [] { VarintFails(s[1..], left - 1); }
  }

  lemma TenBytes()
    ensures Power128(MAX_VARINT_BYTES) == 64 * TWO64
  {
    assert Power128(5) == 0x8_0000_0000;
    assert Power128(10) == 0x40_0000_0000_0000_0000;
  }

  lemma Varint64RoundTrip(v: nat, z: seq<Byte>)
    requires v < TWO64
    ensures Varint(EncodeVarint(v) + z, MAX_VARINT_BYTES) == Got(v, z)
  {
    TenBytes();
    VarintRoundTrip(v, z, MAX_VARINT_BYTES);
  }

  lemma Varint32RoundTrip(v: nat, z: seq<Byte>)
    requires v < TWO32
    ensures Varint32(EncodeVarint(v) + z) == Got(v, z)
  {
    Varint64RoundTrip(v, z);
  }

  lemma ChunkRoundTrip(s: seq<Byte>, z: seq<Byte>, had: seq<Byte>)
    requires |s| < TWO31
    ensures ReadChunk(EncodeChunk(s) + z, had) == Good(s, z)
  {
    Varint32RoundTrip(|s|, s + z);
    assert EncodeChunk(s) + z == EncodeVarint(|s|) + (s + z);
  }

  /** VarintSize32, by its thresholds. */
  function VarintSize(v: nat): nat {
    if v < 0x80 then 1
    else if v < 0x4000 then 2
    else if v < 0x20_0000 then 3
    else if v < 0x1000_0000 then 4
    else 5
  }

  lemma VarintSizeIsLength(v: nat)
    requires v < TWO32
    ensures |EncodeVarint(v)| == VarintSize(v)
  {
    var a := v / 128;
    var b := a / 128;
    var c := b / 128;
    var d := c / 128;
    assert v < 0x4000 <==> a < 0x80;
    assert v < 0x20_0000 <==> b < 0x80;
    assert v < 0x1000_0000 <==> c < 0x80;
    assert d < 0x80;
  }

  // ------------------------------------------------------------------ UTF-8

  predicate Trail(b: Byte) { 0x80 <= b <= 0xBF }

  /** The length of the UTF-8 character at the start of `s` by the grammar of RFC 3629, section 4, or 0. */
  function CharLength(s: seq<Byte>): (n: nat)
    ensures n <= |s| && n <= 4
  {
    if s == [] then 0
    else if s[0] < 0x80 then 1
    else if |s| < 2 || !Trail(s[1]) then 0
    else if 0xC2 <= s[0] <= 0xDF then 2
    else if |s| < 3 || !Trail(s[2]) then 0
    else if s[0] == 0xE0 then if s[1] >= 0xA0 then 3 else 0
    else if s[0] == 0xED then if s[1] <= 0x9F then 3 else 0
    else if 0xE1 <= s[0] <= 0xEF then 3
    else if |s| < 4 || !Trail(s[3]) then 0
    else if s[0] == 0xF0 then if s[1] >= 0x90 then 4 else 0
    else if 0xF1 <= s[0] <= 0xF3 then 4
    else if s[0] == 0xF4 then if s[1] <= 0x8F then 4 else 0
    else 0
  }

  predicate Utf8(s: seq<Byte>) {
    s == [] || (CharLength(s) > 0 && Utf8(s[CharLength(s)..]))
  }

  /** The state table of the scanner: the state after byte `b` in state `q`, or 9 for an illegal byte.
      State 0 is between characters. */
  function Next(q: nat, b: Byte): (r: nat)
    requires q < 9
    ensures r <= 9
  {
    match q
    case 0 =>
      if b < 0x80 then 0
      else if b < 0xC2 then 9
      else if b < 0xE0 then 1
      else if b == 0xE0 then 2
      else if b == 0xED then 7
      else if b < 0xF0 then 3
      else if b == 0xF0 then 4
      else if b < 0xF4 then 5
      else if b == 0xF4 then 6
      else 9
    case 1 => if Trail(b) then 0 else 9
    case 2 => if 0xA0 <= b <= 0xBF then 1 else 9
    case 3 => if Trail(b) then 1 else 9
    case 4 => if 0x90 <= b <= 0xBF then 3 else 9
    case 5 => if Trail(b) then 3 else 9
    case 6 => if 0x80 <= b <= 0x8F then 3 else 9
    case 7 => if 0x80 <= b <= 0x9F then 1 else if 0xA0 <= b <= 0xBF then 8 else 9
    case _ => 9
  }

  /** From state `q` the scanner consumes all of `s` and ends between characters. */
  predicate Accepts(q: nat, s: seq<Byte>)
    requires q <= 9
    decreases |s|
  {
    if q == 9 then false
    else if s == [] then q == 0
    else Accepts(Next(q, s[0]), s[1..])
  }

  /** One more step of the scanner. */
  lemma AcceptsAfter(s: seq<Byte>, q: nat, i: nat)
    requires q <= 9 && i <= |s|
    ensures Accepts(q, s[i..]) <==>
      if q == 9 then false else if i == |s| then q == 0 else Accepts(Next(q, s[i]), s[i + 1..])
  {
    if i < |s| { assert s[i..][1..] == s[i + 1..]; }
  }

  /** The state table accepts exactly the UTF-8 strings of the standard. */
  lemma {:induction false} TableIsUtf8(s: seq<Byte>)
    ensures Accepts(0, s) <==> Utf8(s)
    decreases |s|
  {
    if s == [] {
    } else {
      var q := Next(0, s[0]);
      AcceptsAfter(s, q, 1);
      if 0 < q < 9 && |s| > 1 {
        var r := Next(q, s[1]);
        AcceptsAfter(s, r, 2);
        if 0 < r < 9 && |s| > 2 { AcceptsAfter(s, Next(r, s[2]), 3); }
      }
      if CharLength(s) > 0 { TableIsUtf8(s[CharLength(s)..]); }
    }
  }
}
