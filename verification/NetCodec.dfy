/** The binary message format of netPack: numbers in network order, strings and vectors behind a
    16-bit length, structs field by field. */
module NetCodec {
  import opened Bytes
  import opened Options

  datatype Type =
    | TChar | TShort | TInt | TFloat | TLong | TString
    | TVector(elem: Type)
    | TStruct(fields: seq<Type>)

  /** Floats are their 32 bits. */
  datatype Value =
    | Char(c: Byte)
    | Short(s: int)
    | Int(i: int)
    | Float(bits: nat)
    | Long(l: int)
    | String(str: seq<Byte>)
    | Vector(items: seq<Value>)
    | Struct(members: seq<Value>)

  /** The most elements that a reader accepts. */
  const MOST: int := 1000

  predicate InRange(n: int, half: int) { -half <= n < half }

  /** The bytes of a string that are written: as many as its length is after the cast to a short. If that
      is negative, the code has no defined meaning. */
  function Sent(str: seq<Byte>): (r: seq<Byte>)
    ensures r <= str
  {
    if AsShort(|str|) < 0 then [] else str[..AsShort(|str|)]
  }

  /** No length of a string in `v` becomes negative. */
  predicate Sendable(v: Value)
    decreases v, 0
  {
    match v
    case String(str) => 0 <= AsShort(|str|)
    case Vector(items) => AllSendable(items)
    case Struct(ms) => AllSendable(ms)
    case _ => true
  }

  predicate AllSendable(vs: seq<Value>)
    decreases vs, 1
  {
    vs == [] || (Sendable(vs[0]) && AllSendable(vs[1..]))
  }

  /** `v` is a value of type `t` that can be written. */
  predicate Has(v: Value, t: Type)
    decreases v, 0
  {
    match v
    case Char(_) => t == TChar
    case Short(s) => t == TShort && InRange(s, 0x8000)
    case Int(i) => t == TInt && InRange(i, 0x8000_0000)
    case Float(b) => t == TFloat && b < 0x1_0000_0000
    case Long(l) => t == TLong && InRange(l, 0x8000_0000_0000_0000)
    case String(str) => t == TString && 0 <= AsShort(|str|)
    case Vector(items) => t.TVector? && AllHave(items, t.elem)
    case Struct(ms) => t.TStruct? && Match(ms, t.fields)
  }

  predicate AllHave(vs: seq<Value>, e: Type)
    decreases vs, 1
  {
    vs == [] || (Has(vs[0], e) && AllHave(vs[1..], e))
  }

  predicate Match(vs: seq<Value>, ts: seq<Type>)
    decreases vs, 1
  {
    |vs| == |ts| && (vs == [] || (Has(vs[0], ts[0]) && Match(vs[1..], ts[1..])))
  }

  // ------------------------------------------------------------------ numbers

  /** The low `n` bytes of `u`, the high one first. */
  function Big(u: nat, n: nat): (r: seq<Byte>)
    ensures |r| == n
  {
    if n == 0 then [] else Big(u / 256, n - 1) + [u % 256]
  }

  function FromBig(s: seq<Byte>): nat {
    if s == [] then 0 else FromBig(s[..|s| - 1]) * 256 + s[|s| - 1]
  }

  function Power256(n: nat): nat { if n == 0 then 1 else 256 * Power256(n - 1) }

  lemma {:induction false} BigRoundTrip(u: nat, n: nat)
    requires u < Power256(n)
    ensures FromBig(Big(u, n)) == u
  {
    if n == 0 {
    } else {
      BigRoundTrip(u / 256, n - 1);
      assert Big(u, n)[..n - 1] == Big(u / 256, n - 1);
    }
  }

  /** Two's complement: the signed number of an unsigned one among `2 * half`. */
  function Signed(u: nat, half: int): int { if u < half then u else u - 2 * half }

  /** The short that `i` becomes when it is cast to one. */
  function AsShort(i: int): (r: int)
    ensures InRange(r, 0x8000) && (i >= 0 ==> r <= i)
  {
    Signed(i % 0x1_0000, 0x8000)
  }

  function EncodeShort(i: int): (r: seq<Byte>)
    ensures |r| == 2
  {
    Big(i % 0x1_0000, 2)
  }

  function EncodeInt(i: int): (r: seq<Byte>)
    ensures |r| == 4
  {
    Big(i % 0x1_0000_0000, 4)
  }

  function DecodeShort(s: seq<Byte>): int { Signed(FromBig(s), 0x8000) }

  function DecodeInt(s: seq<Byte>): int { Signed(FromBig(s), 0x8000_0000) }

  lemma ShortRoundTrip(i: int)
    ensures DecodeShort(EncodeShort(i)) == AsShort(i)
    ensures InRange(i, 0x8000) ==> AsShort(i) == i
  {
    assert Power256(2) == 0x1_0000;
    BigRoundTrip(i % 0x1_0000, 2);
  }

  lemma CastFirst(i: int)
    ensures EncodeShort(AsShort(i)) == EncodeShort(i)
  {
    assert AsShort(i) % 0x1_0000 == i % 0x1_0000;
  }

  lemma IntRoundTrip(i: int)
    requires InRange(i, 0x8000_0000)
    ensures DecodeInt(EncodeInt(i)) == i
  {
    assert Power256(4) == 0x1_0000_0000;
    BigRoundTrip(i % 0x1_0000_0000, 4);
  }

  /** `s` is `u`, byte for byte, the high byte first. */
  ghost predicate HighFirst(s: seq<Byte>, u: nat) {
    if |s| == 2 then s[0] == u / 0x100 && s[1] == u % 0x100
    else
      && |s| == 4
      && s[0] == u / 0x100_0000 && s[1] == u / 0x1_0000 % 0x100 && s[2] == u / 0x100 % 0x100 && s[3] == u % 0x100
  }

  lemma TwoBytes(u: nat)
    requires u < 0x1_0000
    ensures Big(u, 2)[0] == u / 0x100 && Big(u, 2)[1] == u % 0x100
  {
    assert Big(u / 256, 1) == Big(u / 256 / 256, 0) + [u / 256 % 256];
  }

  lemma FourBytes(u: nat)
    requires u < 0x1_0000_0000
    ensures var r := Big(u, 4);
      r[0] == u / 0x100_0000 && r[1] == u / 0x1_0000 % 0x100 && r[2] == u / 0x100 % 0x100 && r[3] == u % 0x100
  {
    var a := u / 0x100;
    var b := a / 0x100;
    var c := b / 0x100;
    assert a == u / 0x100 && b == u / 0x1_0000 && c == u / 0x100_0000 && c < 0x100;
    assert Big(c, 1) == Big(c / 256, 0) + [c % 256];
    assert Big(b, 2) == [c, b % 256] && Big(a, 3) == [c, b % 256, a % 256];
  }

  /** A short is written as the two bytes of its two's complement, the high one first. */
  lemma ShortBytes(i: int)
    ensures EncodeShort(i)[0] == i % 0x1_0000 / 0x100 && EncodeShort(i)[1] == i % 0x100
  {
    TwoBytes(i % 0x1_0000);
  }

  /** An int is written as the four bytes of its two's complement, the high one first. */
  lemma IntBytes(i: int)
    ensures var r, u := EncodeInt(i), i % 0x1_0000_0000;
      r[0] == u / 0x100_0000 && r[1] == u / 0x1_0000 % 0x100 && r[2] == u / 0x100 % 0x100 && r[3] == u % 0x100
  {
    FourBytes(i % 0x1_0000_0000);
  }

  lemma FromTwoBytes(s: seq<Byte>)
    requires |s| == 2
    ensures FromBig(s) == s[0] as int * 0x100 + s[1]
  {
    assert s[..1] == [s[0]] && [s[0]][..0] == [];
    assert FromBig([s[0]]) == s[0];
  }

  lemma FromFourBytes(s: seq<Byte>)
    requires |s| == 4
    ensures FromBig(s) == s[0] as int * 0x100_0000 + s[1] as int * 0x1_0000 + s[2] as int * 0x100 + s[3]
  {
    assert s[..3][..2] == s[..2];
    FromTwoBytes(s[..2]);
    assert FromBig(s[..3]) == FromBig(s[..2]) * 256 + s[2];
  }

  /** The short that is read has the two bytes, the high one first, as its two's complement. */
  lemma ShortFromBytes(s: seq<Byte>)
    requires |s| == 2
    ensures InRange(DecodeShort(s), 0x8000) && DecodeShort(s) % 0x1_0000 == s[0] as int * 0x100 + s[1]
  {
    FromTwoBytes(s);
  }

  /** The int that is read has the four bytes, the high one first, as its two's complement. */
  lemma IntFromBytes(s: seq<Byte>)
    requires |s| == 4
    ensures InRange(DecodeInt(s), 0x8000_0000)
    ensures DecodeInt(s) % 0x1_0000_0000 == s[0] as int * 0x100_0000 + s[1] as int * 0x1_0000 + s[2] as int * 0x100 + s[3]
  {
    FromFourBytes(s);
  }

  /** The halves of a long long, both as ints. */
  function High(l: int): int { l / 0x1_0000_0000 }

  function Low(l: int): int { Signed(l % 0x1_0000_0000, 0x8000_0000) }

  /** `high << 32 | low`, where a negative `low` is extended by ones that cover `high`. */
  function Join(high: int, low: int): int {
    if low < 0 then low else high * 0x1_0000_0000 + low
  }

  /** What the reader makes of its halves is the long long itself. */
  predicate LongSurvives(l: int) { l % 0x1_0000_0000 < 0x8000_0000 || InRange(l, 0x8000_0000) }

  lemma JoinHalves(l: int)
    requires InRange(l, 0x8000_0000_0000_0000)
    ensures InRange(High(l), 0x8000_0000) && InRange(Low(l), 0x8000_0000)
    ensures Join(High(l), Low(l)) == l <==> LongSurvives(l)
  {
  }

  // ------------------------------------------------------------------ writing

  /** What the operators `<<` and Pack put on the wire. */
  function Encode(v: Value): seq<Byte>
    decreases v, 0
  {
    match v
    case Char(c) => [c]
    case Short(s) => EncodeShort(s)
    case Int(i) => EncodeInt(i)
    case Float(b) => Big(b, 4)
    case Long(l) => EncodeInt(High(l)) + EncodeInt(Low(l))
    case String(str) => EncodeShort(|str|) + Sent(str)
    case Vector(items) => EncodeShort(|items|) + EncodeAll(items)
    case Struct(ms) => EncodeAll(ms)
  }

  function EncodeAll(vs: seq<Value>): seq<Byte>
    decreases vs, 1
  {
    if vs == [] then [] else Encode(vs[0]) + EncodeAll(vs[1..])
  }

  lemma {:induction false} EncodeAllConcat(a: seq<Value>, b: seq<Value>)
    ensures EncodeAll(a + b) == EncodeAll(a) + EncodeAll(b)
  {
    if a == [] {
      assert a + b == b;
    } else {
      assert (a + b)[1..] == a[1..] + b;
      EncodeAllConcat(a[1..], b);
    }
  }

  /** A long long is written as the ints that its halves are, the high one first. */
  lemma LongBytes(l: int)
    ensures Encode(Long(l)) == EncodeInt(l / 0x1_0000_0000) + EncodeInt(l)
  {
    assert Low(l) % 0x1_0000_0000 == l % 0x1_0000_0000;
  }

  /** A float is its bits, the high byte first. */
  lemma FloatBytes(bits: nat)
    requires bits < 0x1_0000_0000
    ensures var r := Encode(Float(bits));
      && |r| == 4 && r[0] == bits / 0x100_0000 && r[1] == bits / 0x1_0000 % 0x100
      && r[2] == bits / 0x100 % 0x100 && r[3] == bits % 0x100
  {
    FourBytes(bits);
  }

  /** A string stands behind its length, the high byte first. */
  lemma StringBytes(str: seq<Byte>)
    requires |str| < 0x8000
    ensures var r := Encode(String(str)); |r| == 2 + |str| && r[0] == |str| / 0x100 && r[1] == |str| % 0x100 && r[2..] == str
  {
    ShortBytes(|str|);
  }

  /** So do the elements of a vector, whose length is cast to a short. */
  lemma VectorBytes(items: seq<Value>)
    ensures var r := Encode(Vector(items));
      |r| >= 2 && r[0] == |items| % 0x1_0000 / 0x100 && r[1] == |items| % 0x100 && r[2..] == EncodeAll(items)
  {
    ShortBytes(|items|);
  }

  // ------------------------------------------------------------------ reading

  /** The value read and the bytes left, or None if the data run out. */
  function Decode(t: Type, s: seq<Byte>): Option<(Value, seq<Byte>)>
    decreases t, 0
  {
    match t
    case TChar => if |s| < 1 then None else Some((Char(s[0]), s[1..]))
    case TShort => if |s| < 2 then None else Some((Short(DecodeShort(s[..2])), s[2..]))
    case TInt => if |s| < 4 then None else Some((Int(DecodeInt(s[..4])), s[4..]))
    case TFloat => if |s| < 4 then None else Some((Float(FromBig(s[..4])), s[4..]))
    case TLong => if |s| < 8 then None else Some((Long(Join(DecodeInt(s[..4]), DecodeInt(s[4..8]))), s[8..]))
    case TString =>
      if |s| < 2 then None
      else
        var n := FromBig(s[..2]);
        if |s| < 2 + n then None else Some((String(s[2..2 + n]), s[2 + n..]))
    case TVector(e) =>
      if |s| < 2 then None
      else
        var n := DecodeShort(s[..2]);
        if n < 0 || n > MOST then Some((Vector([]), s[2..]))
        else
          (match DecodeMany(e, n, s[2..])
           case None => None
           case Some((vs, rest)) => Some((Vector(vs), rest)))
    case TStruct(ts) =>
      (match DecodeAll(ts, s)
       case None => None
       case Some((vs, rest)) => Some((Struct(vs), rest)))
  }

  /** `n` values of type `e`. */
  function DecodeMany(e: Type, n: nat, s: seq<Byte>): (r: Option<(seq<Value>, seq<Byte>)>)
    ensures r.Some? ==> |r.value.0| == n
    decreases e, n + 1
  {
    if n == 0 then Some(([], s))
    else
      match Decode(e, s)
      case None => None
      case Some((v, rest)) =>
        match DecodeMany(e, n - 1, rest)
        case None => None
        case Some((vs, after)) => Some(([v] + vs, after))
  }

  /** One value of each type. */
  function DecodeAll(ts: seq<Type>, s: seq<Byte>): (r: Option<(seq<Value>, seq<Byte>)>)
    ensures r.Some? ==> |r.value.0| == |ts|
    decreases ts, 1
  {
    if ts == [] then Some(([], s))
    else
      match Decode(ts[0], s)
      case None => None
      case Some((v, rest)) =>
        match DecodeAll(ts[1..], rest)
        case None => None
        case Some((vs, after)) => Some(([v] + vs, after))
  }

  /** The length of a string is read without a sign, and must not exceed the data. */
  lemma StringReads(high: Byte, low: Byte, s: seq<Byte>)
    ensures var n: nat := high as int * 0x100 + low;
      Decode(TString, [high, low] + s) == if |s| < n then None else Some((String(s[..n]), s[n..]))
  {
    var n: nat := high as int * 0x100 + low;
    var all := [high, low] + s;
    assert all[..2] == [high, low] && all[2..] == s;
    FromTwoBytes(all[..2]);
    if n <= |s| { assert all[2..2 + n] == s[..n] && all[2 + n..] == s[n..]; }
  }

  // ------------------------------------------------------------------ round trip

  /** No string too long for a short, no vector too long to be read back, and no long long whose low half
      spoils the high one. */
  predicate Faithful(v: Value)
    decreases v, 0
  {
    match v
    case Long(l) => LongSurvives(l)
    case String(str) => |str| < 0x8000
    case Vector(items) => |items| <= MOST && AllFaithful(items)
    case Struct(ms) => AllFaithful(ms)
    case _ => true
  }

  predicate AllFaithful(vs: seq<Value>)
    decreases vs, 1
  {
    vs == [] || (Faithful(vs[0]) && AllFaithful(vs[1..]))
  }

  /** A read gives back `v` and stops before `z` if `faithful`, and never gives back `v` otherwise. */
  ghost predicate Exact<T>(r: Option<(T, seq<Byte>)>, v: T, z: seq<Byte>, faithful: bool) {
    if faithful then r == Some((v, z)) else r.None? || r.value.0 != v
  }

  lemma NumberExact(v: Value, t: Type, z: seq<Byte>)
    requires Has(v, t) && (v.Char? || v.Short? || v.Int? || v.Float?)
    ensures Decode(t, Encode(v) + z) == Some((v, z))
  {
    var s := Encode(v) + z;
    match v
    case Char(_) => assert s[1..] == z;
    case Short(i) =>
      ShortRoundTrip(i);
      assert s[..2] == Encode(v) && s[2..] == z;
    case Int(i) =>
      IntRoundTrip(i);
      assert s[..4] == Encode(v) && s[4..] == z;
    case Float(b) =>
      assert Power256(4) == 0x1_0000_0000;
      BigRoundTrip(b, 4);
      assert s[..4] == Encode(v) && s[4..] == z;
  }

  lemma LongExact(l: int, z: seq<Byte>)
    requires Has(Long(l), TLong)
    ensures Decode(TLong, Encode(Long(l)) + z) == Some((Long(Join(High(l), Low(l))), z))
    ensures Exact(Decode(TLong, Encode(Long(l)) + z), Long(l), z, LongSurvives(l))
  {
    var s := Encode(Long(l)) + z;
    JoinHalves(l);
    IntRoundTrip(High(l));
    IntRoundTrip(Low(l));
    assert s[..4] == EncodeInt(High(l)) && s[4..8] == EncodeInt(Low(l)) && s[8..] == z;
  }

  /** A string reads back as the part of it that was written. */
  lemma StringExact(str: seq<Byte>, z: seq<Byte>)
    requires Has(String(str), TString)
    ensures Decode(TString, Encode(String(str)) + z) == Some((String(Sent(str)), z))
    ensures Exact(Decode(TString, Encode(String(str)) + z), String(str), z, |str| < 0x8000)
  {
    var s, n := Encode(String(str)) + z, AsShort(|str|);
    assert Power256(2) == 0x1_0000;
    BigRoundTrip(|str| % 0x1_0000, 2);
    assert if |str| < 0x8000 then Sent(str) == str else |Sent(str)| < |str|;
    assert s[..2] == EncodeShort(|str|) && s[2..2 + n] == Sent(str) && s[2 + n..] == z;
  }

  lemma VectorHead(items: seq<Value>, z: seq<Byte>)
    ensures var s := Encode(Vector(items)) + z;
      |s| >= 2 && DecodeShort(s[..2]) == AsShort(|items|) && s[2..] == EncodeAll(items) + z
  {
    ShortRoundTrip(|items|);
    var s := Encode(Vector(items)) + z;
    assert s[..2] == EncodeShort(|items|) && s[2..] == EncodeAll(items) + z;
  }

  lemma VectorExact(items: seq<Value>, e: Type, z: seq<Byte>)
    requires |items| <= MOST ==> Exact(DecodeMany(e, |items|, EncodeAll(items) + z), items, z, AllFaithful(items))
    ensures Exact(Decode(TVector(e), Encode(Vector(items)) + z), Vector(items), z, Faithful(Vector(items)))
  {
    VectorHead(items, z);
    if |items| > MOST { ShorterDecoded(items, e, Encode(Vector(items)) + z); }
  }

  lemma ShorterDecoded(items: seq<Value>, e: Type, s: seq<Byte>)
    requires |items| > MOST && |s| >= 2 && DecodeShort(s[..2]) == AsShort(|items|)
    ensures Decode(TVector(e), s).Some? ==> Decode(TVector(e), s).value.0 != Vector(items)
  {
    var n := DecodeShort(s[..2]);
    if 0 <= n <= MOST {
      var r := DecodeMany(e, n, s[2..]);
      if r.Some? { assert |r.value.0| != |items|; }
    }
  }

  lemma Regroup(a: seq<Byte>, b: seq<Byte>, c: seq<Byte>)
    ensures (a + b) + c == a + (b + c)
  {
  }

  lemma HeadAndTail(vs: seq<Value>, z: seq<Byte>)
    requires vs != []
    ensures EncodeAll(vs) + z == Encode(vs[0]) + (EncodeAll(vs[1..]) + z) && vs == [vs[0]] + vs[1..]
  {
    Regroup(Encode(vs[0]), EncodeAll(vs[1..]), z);
  }

  lemma {:induction false} ManyExact(vs: seq<Value>, e: Type, z: seq<Byte>)
    requires AllHave(vs, e)
    ensures Exact(DecodeMany(e, |vs|, EncodeAll(vs) + z), vs, z, AllFaithful(vs))
    decreases vs, 1
  {
    if vs == [] {
      assert EncodeAll(vs) + z == z;
    } else {
      HeadAndTail(vs, z);
      ValueExact(vs[0], e, EncodeAll(vs[1..]) + z);
      ManyExact(vs[1..], e, z);
    }
  }

  lemma {:induction false} AllExact(vs: seq<Value>, ts: seq<Type>, z: seq<Byte>)
    requires Match(vs, ts)
    ensures Exact(DecodeAll(ts, EncodeAll(vs) + z), vs, z, AllFaithful(vs))
    decreases vs, 1
  {
    if vs == [] {
      assert EncodeAll(vs) + z == z;
    } else {
      HeadAndTail(vs, z);
      ValueExact(vs[0], ts[0], EncodeAll(vs[1..]) + z);
      AllExact(vs[1..], ts[1..], z);
    }
  }

  lemma {:induction false} ValueExact(v: Value, t: Type, z: seq<Byte>)
    requires Has(v, t)
    ensures Exact(Decode(t, Encode(v) + z), v, z, Faithful(v))
    decreases v, 0
  {
    match v
    case Long(l) => LongExact(l, z);
    case String(str) => StringExact(str, z);
    case Vector(items) =>
      ManyExact(items, t.elem, z);
      VectorExact(items, t.elem, z);
    case Struct(ms) => AllExact(ms, t.fields, z);
    case _ => NumberExact(v, t, z);
  }

  /** A long long that does not read back. */
  lemma LongLost()
    ensures Has(Long(0x8000_0000), TLong) && !Faithful(Long(0x8000_0000))
    ensures Decode(TLong, Encode(Long(0x8000_0000)) + []) == Some((Long(-0x8000_0000), []))
  {
    LongExact(0x8000_0000, []);
  }

  /** A string whose length wraps around comes back as its first few bytes. */
  lemma StringLost(str: seq<Byte>)
    requires |str| == 65540
    ensures Has(String(str), TString) && !Faithful(String(str))
    ensures Decode(TString, Encode(String(str)) + []) == Some((String(str[..4]), []))
  {
    StringExact(str, []);
  }

  /** How many elements of a vector of `n` the reader takes. */
  function Taken(n: nat): (k: nat)
    ensures k <= n && k == if n % 0x1_0000 <= 1000 then n % 0x1_0000 else 0
  {
    if 0 <= AsShort(n) <= MOST then AsShort(n) else 0
  }

  lemma {:induction false} PrefixKept(items: seq<Value>, e: Type, k: nat)
    requires k <= |items| && AllHave(items, e) && AllFaithful(items)
    ensures AllHave(items[..k], e) && AllFaithful(items[..k])
  {
    if k == 0 {
    } else {
      PrefixKept(items[1..], e, k - 1);
      assert items[..k][1..] == items[1..][..k - 1];
    }
  }

  lemma SplitEncoding(items: seq<Value>, k: nat, z: seq<Byte>)
    requires k <= |items|
    ensures EncodeAll(items) + z == EncodeAll(items[..k]) + (EncodeAll(items[k..]) + z)
  {
    var a, b := items[..k], items[k..];
    EncodeAllConcat(a, b);
    assert a + b == items;
    Regroup(EncodeAll(a), EncodeAll(b), z);
  }

  /** A vector of any size whose elements read back is read as a prefix of itself, with the cursor
      before the first element left out: of n elements n mod 65536, if those are at most 1000, and
      otherwise none. */
  lemma VectorReadsAsPrefix(items: seq<Value>, e: Type, z: seq<Byte>)
    requires AllHave(items, e) && AllFaithful(items)
    ensures var k: nat := if |items| % 0x1_0000 <= 1000 then |items| % 0x1_0000 else 0;
      Decode(TVector(e), Encode(Vector(items)) + z) == Some((Vector(items[..k]), EncodeAll(items[k..]) + z))
  {
    var k := Taken(|items|);
    PrefixKept(items, e, k);
    VectorHead(items, z);
    SplitEncoding(items, k, z);
    ManyExact(items[..k], e, EncodeAll(items[k..]) + z);
  }

  /** Reading a value that can be written takes as many bytes as writing it. */
  lemma {:induction false} ReadTakesSize(t: Type, s: seq<Byte>)
    ensures var r := Decode(t, s);
      r.Some? && Has(r.value.0, t) ==> |s| == |Encode(r.value.0)| + |r.value.1|
    decreases t, 0
  {
    match t
    case TVector(e) =>
      if |s| >= 2 && 0 <= DecodeShort(s[..2]) <= MOST { ManyTakeSize(e, DecodeShort(s[..2]), s[2..]); }
    case TStruct(ts) => AllTakeSize(ts, s);
    case TString => if |s| >= 2 { ShortLength(s[..2]); }
    case _ =>
  }

  /** A length that was read is below 65536, so it is not negative as a short only if it is one. */
  lemma ShortLength(s: seq<Byte>)
    requires |s| == 2
    ensures 0 <= AsShort(FromBig(s)) ==> AsShort(FromBig(s)) == FromBig(s)
  {
    FromTwoBytes(s);
  }

  lemma {:induction false} ManyTakeSize(e: Type, n: nat, s: seq<Byte>)
    ensures var r := DecodeMany(e, n, s);
      r.Some? && AllHave(r.value.0, e) ==> |s| == |EncodeAll(r.value.0)| + |r.value.1|
    decreases e, n + 1
  {
    if n == 0 {
    } else {
      ReadTakesSize(e, s);
      if Decode(e, s).Some? {
        ManyTakeSize(e, n - 1, Decode(e, s).value.1);
        if DecodeMany(e, n, s).Some? { HeadAndTail(DecodeMany(e, n, s).value.0, []); }
      }
    }
  }

  lemma {:induction false} AllTakeSize(ts: seq<Type>, s: seq<Byte>)
    ensures var r := DecodeAll(ts, s);
      r.Some? && Match(r.value.0, ts) ==> |s| == |EncodeAll(r.value.0)| + |r.value.1|
    decreases ts, 1
  {
    if ts == [] {
    } else {
      ReadTakesSize(ts[0], s);
      if Decode(ts[0], s).Some? {
        AllTakeSize(ts[1..], Decode(ts[0], s).value.1);
        if DecodeAll(ts, s).Some? { HeadAndTail(DecodeAll(ts, s).value.0, []); }
      }
    }
  }

  // ------------------------------------------------------------------ messages

  /** Pack of a message writes its id and its fields; UnPack reads the fields alone. */
  function PackMessage(id: int, fields: seq<Value>): seq<Byte> { EncodeInt(id) + EncodeAll(fields) }

  /** UnPack straight after Pack reads the id as the first field. */
  lemma UnPackReadsId(id: int, fields: seq<Value>)
    requires InRange(id, 0x8000_0000)
    ensures DecodeAll([TInt], PackMessage(id, fields)) == Some(([Int(id)], EncodeAll(fields)))
  {
    NumberExact(Int(id), TInt, EncodeAll(fields));
    assert [TInt][1..] == [];
    assert [Int(id)] + [] == [Int(id)];
  }
}
