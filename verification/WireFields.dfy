/** Fields of any shape, groups included, and which of them the stream can skip. */
module WireFields {
  import opened Bytes
  import opened Wire

  datatype Field =
    | Number(num: nat, value: nat)
    | Fixed64(num: nat, bytes: seq<Byte>)
    | Chunked(num: nat, bytes: seq<Byte>)
    | Group(num: nat, fields: Fields)
    | Fixed32(num: nat, bytes: seq<Byte>)

  datatype Fields = Nil | Cons(head: Field, tail: Fields)

  predicate Ok(f: Field) {
    && 0 < f.num < 0x2000_0000
    && match f
       case Number(_, v) => v < TWO64
       case Fixed64(_, b) => |b| == 8
       case Chunked(_, b) => |b| < TWO31
       case Group(_, fs) => AllOk(fs)
       case Fixed32(_, b) => |b| == 4
  }

  predicate AllOk(fs: Fields) { fs.Cons? ==> Ok(fs.head) && AllOk(fs.tail) }

  /** How deep groups nest. */
  function Depth(f: Field): nat { if f.Group? then 1 + Deepest(f.fields) else 0 }

  function Deepest(fs: Fields): nat {
    match fs
    case Nil => 0
    case Cons(f, rest) => if Depth(f) > Deepest(rest) then Depth(f) else Deepest(rest)
  }

  function WireType(f: Field): nat {
    match f
    case Number(_, _) => 0
    case Fixed64(_, _) => 1
    case Chunked(_, _) => 2
    case Group(_, _) => 3
    case Fixed32(_, _) => 5
  }

  function TagOf(f: Field): nat { 8 * f.num + WireType(f) }

  function Body(f: Field): seq<Byte>
    decreases f, 0
  {
    match f
    case Number(_, v) => EncodeVarint(v)
    case Fixed64(_, b) => b
    case Chunked(_, b) => EncodeChunk(b)
    case Group(num, fs) => EncodeAll(fs) + EncodeVarint(8 * num + 4)
    case Fixed32(_, b) => b
  }

  function Encode(f: Field): seq<Byte>
    decreases f, 1
  {
    EncodeVarint(TagOf(f)) + Body(f)
  }

  function EncodeAll(fs: Fields): seq<Byte> {
    match fs
    case Nil => []
    case Cons(f, rest) => Encode(f) + EncodeAll(rest)
  }

  lemma TagRoundTrip(t: nat, z: seq<Byte>)
    requires 0 < t < TWO32
    ensures ReadTag(EncodeVarint(t) + z) == Tag(t, z)
  {
    Varint32RoundTrip(t, z);
  }

  lemma TagType(f: Field)
    ensures TagOf(f) % 8 == WireType(f)
  {
  }

  lemma SkipPlain(f: Field, t: nat, z: seq<Byte>, budget: nat)
    requires Ok(f) && !f.Group? && t % 8 == WireType(f)
    ensures SkipField(t, Body(f) + z, budget) == Got((), z)
  {
    match f
    case Number(_, v) => Varint64RoundTrip(v, z);
    case Fixed64(_, b) => DropPrefix(b, z);
    case Chunked(_, b) =>
      Varint32RoundTrip(|b|, b + z);
      assert Body(f) + z == EncodeVarint(|b|) + (b + z);
      DropPrefix(b, z);
    case Fixed32(_, b) => DropPrefix(b, z);
  }

  /** A field is skipped, to its end exactly, if and only if its groups nest no deeper than allowed. */
  lemma {:induction false} SkipEncoded(f: Field, z: seq<Byte>, budget: nat)
    requires Ok(f)
    ensures SkipField(TagOf(f), Body(f) + z, budget) == if Depth(f) <= budget then Got((), z) else Fail
    decreases f, 1
  {
    TagType(f);
    if f.Group? {
      var end := 8 * f.num + 4;
      if budget > 0 { SkipAllEncoded(f.fields, end, z, budget - 1); }
      assert Body(f) + z == EncodeAll(f.fields) + (EncodeVarint(end) + z);
    } else {
      SkipPlain(f, TagOf(f), z, budget);
    }
  }

  lemma {:induction false} SkipAllEncoded(fs: Fields, end: nat, z: seq<Byte>, budget: nat)
    requires AllOk(fs) && 0 < end < TWO32 && end % 8 == 4
    ensures SkipGroup(end, EncodeAll(fs) + (EncodeVarint(end) + z), budget) ==
      if Deepest(fs) <= budget then Got((), z) else Fail
    decreases fs, 0
  {
    match fs
    case Nil =>
      assert EncodeAll(fs) + (EncodeVarint(end) + z) == EncodeVarint(end) + z;
      TagRoundTrip(end, z);
    case Cons(f, rest) =>
      var after := EncodeAll(rest) + (EncodeVarint(end) + z);
      assert EncodeAll(fs) + (EncodeVarint(end) + z) == EncodeVarint(TagOf(f)) + (Body(f) + after);
      TagType(f);
      TagRoundTrip(TagOf(f), Body(f) + after);
      SkipEncoded(f, after, budget);
      SkipAllEncoded(rest, end, z, budget);
  }

  /** A group that ends with another number, or not at all, is not skipped. */
  lemma {:induction false} WrongEnd(fs: Fields, end: nat, after: seq<Byte>, budget: nat)
    requires AllOk(fs)
    requires after == [] || (ReadTag(after).Tag? && ReadTag(after).tag % 8 == 4 && ReadTag(after).tag != end)
    ensures SkipGroup(end, EncodeAll(fs) + after, budget) == Fail
    decreases fs
  {
    match fs
    case Nil => assert EncodeAll(fs) + after == after;
    case Cons(f, rest) =>
      var more := EncodeAll(rest) + after;
      assert EncodeAll(fs) + after == EncodeVarint(TagOf(f)) + (Body(f) + more);
      TagType(f);
      TagRoundTrip(TagOf(f), Body(f) + more);
      SkipEncoded(f, more, budget);
      WrongEnd(rest, end, after, budget);
  }
}
