/** google.protobuf.Any field by field: which bytes carry which field, where a message stops, and what
    makes parsing fail. */
module AnyFields {
  import opened Bytes
  import opened Wire
  import opened WireFields
  import opened AnyCodec

  // ------------------------------------------------------------------ the two fields

  /** Serializing writes the URL as field 1 and the payload as field 2, each only if it is not empty. */
  lemma SerializedFields(m: Any)
    ensures Serialize(m) == (if m.url == [] then [] else Encode(Chunked(1, m.url))) +
                            (if m.value == [] then [] else Encode(Chunked(2, m.value)))
  {
    assert EncodeVarint(10) == [10] && EncodeVarint(18) == [18];
  }

  /** The bytes of both: a tag, a length and the contents. */
  lemma SerializedBytes(m: Any)
    ensures Serialize(m) == (if m.url == [] then [] else [10] + EncodeVarint(|m.url|) + m.url) +
                            (if m.value == [] then [] else [18] + EncodeVarint(|m.value|) + m.value)
  {
    assert m.url != [] ==> EncodeField(10, m.url) == [10] + EncodeVarint(|m.url|) + m.url;
    assert m.value != [] ==> EncodeField(18, m.value) == [18] + EncodeVarint(|m.value|) + m.value;
  }

  lemma ChunkTag(num: nat, v: seq<Byte>, z: seq<Byte>)
    requires 0 < num < 0x2000_0000 && |v| < TWO31
    ensures ReadTag(Encode(Chunked(num, v)) + z) == Tag(8 * num + 2, EncodeChunk(v) + z)
    ensures ReadChunk(EncodeChunk(v) + z, []) == Good(v, z)
  {
    assert Encode(Chunked(num, v)) + z == EncodeVarint(8 * num + 2) + (EncodeChunk(v) + z);
    TagRoundTrip(8 * num + 2, EncodeChunk(v) + z);
    ChunkRoundTrip(v, z, []);
  }

  /** Field 2, empty or not, becomes the payload. */
  lemma ValueField(v: seq<Byte>, z: seq<Byte>, m: Any, budget: nat)
    requires |v| < 0x8000_0000
    ensures Parse(Encode(Chunked(2, v)) + z, m, budget) == Parse(z, m.(value := v), budget)
  {
    ChunkTag(2, v, z);
    ChunkRoundTrip(v, z, m.value);
  }

  /** Field 1, empty or not, becomes the URL; if it is not UTF-8, parsing fails, but has set it. */
  lemma UrlField(v: seq<Byte>, z: seq<Byte>, m: Any, budget: nat)
    requires |v| < 0x8000_0000
    ensures Parse(Encode(Chunked(1, v)) + z, m, budget) ==
      if Utf8(v) then Parse(z, m.(url := v), budget) else Parsed(false, false, m.(url := v))
  {
    ChunkTag(1, v, z);
    ChunkRoundTrip(v, z, m.url);
  }

  // ------------------------------------------------------------------ where a message stops

  lemma StopsAtOnce(z: seq<Byte>, m: Any, budget: nat)
    requires z != [] && (ReadTag(z).NoTag? || (ReadTag(z).Tag? && ReadTag(z).tag % 8 == 4))
    ensures Parse(z, m, budget) == Parsed(true, false, m)
  {
    if ReadTag(z).Tag? { assert Parse(z, m, budget) == ParseOther(ReadTag(z).tag, ReadTag(z).rest, m, budget); }
  }

  /** An end-group tag behind complete input stops the parser: what was read so far stands, what follows
      is not looked at, and the message did not end where it may. */
  lemma EndGroupStops(s: seq<Byte>, t: nat, z: seq<Byte>, m: Any, budget: nat)
    requires Complete(s, m, budget) && 0 < t < 0x1_0000_0000 && t % 8 == 4
    ensures Parse(s + EncodeVarint(t) + z, m, budget) == Parsed(true, false, Parse(s, m, budget).msg)
  {
    var more := EncodeVarint(t) + z;
    TagRoundTrip(t, z);
    StopsAtOnce(more, Parse(s, m, budget).msg, budget);
    ParseConcat(s, more, m, budget);
    Regroup(s, EncodeVarint(t), z);
  }

  /** So does a zero, and a tag without an end in its first ten bytes. */
  lemma NoTagStops(s: seq<Byte>, z: seq<Byte>, m: Any, budget: nat)
    requires Complete(s, m, budget) && z != []
    requires z[0] == 0 || forall i :: 0 <= i < 10 && i < |z| ==> z[i] >= 128
    ensures Parse(s + z, m, budget) == Parsed(true, false, Parse(s, m, budget).msg)
  {
    if z[0] == 0 {
      assert Varint(z, MAX_VARINT_BYTES) == Got(0, z[1..]);
    } else {
      VarintFails(z, MAX_VARINT_BYTES);
    }
    StopsAtOnce(z, Parse(s, m, budget).msg, budget);
    ParseConcat(s, z, m, budget);
  }

  /** A string with one of them behind complete input is not a message. */
  lemma StopIsRefused(s: seq<Byte>, t: nat, z: seq<Byte>)
    requires Complete(s, EMPTY, 100) && t < 0x1_0000_0000 && (t == 0 || t % 8 == 4)
    ensures !Complete(s + EncodeVarint(t) + z, EMPTY, 100)
  {
    if t == 0 {
      assert s + EncodeVarint(t) + z == s + ([0] + z);
      NoTagStops(s, [0] + z, EMPTY, 100);
    } else {
      EndGroupStops(s, t, z, EMPTY, 100);
    }
  }

  // ------------------------------------------------------------------ failures

  /** A length that runs past the end of the input: the rest of the input has replaced the field. A
      length of 2 GB or more, or without an end: the field is as it was. */
  lemma TruncatedField(num: nat, n: nat, s: seq<Byte>, m: Any, budget: nat)
    requires num == 1 || num == 2
    requires |s| < n < 0x1_0000_0000
    ensures Parse(EncodeVarint(8 * num + 2) + (EncodeVarint(n) + s), m, budget) ==
      Parsed(false, false,
             if n >= 0x8000_0000 then m else if num == 1 then m.(url := s) else m.(value := s))
  {
    TagRoundTrip(8 * num + 2, EncodeVarint(n) + s);
    Varint32RoundTrip(n, s);
  }

  lemma EndlessLength(num: nat, s: seq<Byte>, m: Any, budget: nat)
    requires num == 1 || num == 2
    requires forall i :: 0 <= i < 10 && i < |s| ==> s[i] >= 128
    ensures Parse(EncodeVarint(8 * num + 2) + s, m, budget) == Parsed(false, false, m)
  {
    TagRoundTrip(8 * num + 2, s);
    VarintFails(s, MAX_VARINT_BYTES);
  }

  lemma OtherTag(t: nat, s: seq<Byte>, m: Any, budget: nat)
    requires 0 < t < TWO32 && t != 10 && t != 18 && t % 8 != 4
    ensures var r := SkipField(t, s, budget);
      Parse(EncodeVarint(t) + s, m, budget) == if r.Fail? then Parsed(false, false, m) else Parse(r.rest, m, budget)
  {
    TagRoundTrip(t, s);
    var all := EncodeVarint(t) + s;
    assert Parse(all, m, budget) == ParseOther(t, s, m, budget);
  }

  lemma GroupFails(t: nat, s: seq<Byte>, m: Any, budget: nat, depth: nat)
    requires 0 < t < TWO32 && t % 8 == 3 && (budget > 0 ==> depth == budget - 1) && SkipGroup(t + 1, s, depth).Fail?
    ensures Parse(EncodeVarint(t) + s, m, budget) == Parsed(false, false, m)
  {
    OtherTag(t, s, m, budget);
    assert SkipField(t, s, budget) == Fail;
  }

  /** A field of wire type 6 or 7 makes parsing fail; so does one of the others whose bytes are missing. */
  lemma BadField(t: nat, s: seq<Byte>, m: Any, budget: nat)
    requires 0 < t < 0x1_0000_0000 && t != 10 && t != 18
    requires match t % 8
             case 0 => forall i :: 0 <= i < 10 && i < |s| ==> s[i] >= 128
             case 1 => |s| < 8
             case 2 => exists n: nat, r :: |r| < n < 0x1_0000_0000 && s == EncodeVarint(n) + r
             case 5 => |s| < 4
             case w => w >= 6
    ensures Parse(EncodeVarint(t) + s, m, budget) == Parsed(false, false, m)
  {
    OtherTag(t, s, m, budget);
    match t % 8
    case 0 => VarintFails(s, MAX_VARINT_BYTES);
    case 2 =>
      var n: nat, r :| |r| < n < 0x1_0000_0000 && s == EncodeVarint(n) + r;
      Varint32RoundTrip(n, r);
    case _ =>
  }

  /** A group that `start` opens, with any fields in it, must end, and with its own number. */
  lemma WrongGroupFails(start: nat, fs: Fields, after: seq<Byte>, m: Any, budget: nat)
    requires 0 < start < 0x1_0000_0000 && start % 8 == 3 && AllOk(fs)
    requires after == [] || (ReadTag(after).Tag? && ReadTag(after).tag % 8 == 4 && ReadTag(after).tag != start + 1)
    ensures Parse(EncodeVarint(start) + (EncodeAll(fs) + after), m, budget) == Parsed(false, false, m)
  {
    var s := EncodeAll(fs) + after;
    var depth := if budget == 0 then 0 else budget - 1;
    WrongEnd(fs, start + 1, after, depth);
    GroupFails(start, s, m, budget, depth);
  }

  /** The two fields with another wire type, and all other fields, are skipped by their wire type alone. */
  lemma OtherFieldIsSkipped(t: nat, b: seq<Byte>, z: seq<Byte>, m: Any, budget: nat)
    requires 0 < t < 0x1_0000_0000 && t != 10 && t != 18
    requires match t % 8
             case 0 => exists v: nat :: v < TWO64 && b == EncodeVarint(v)
             case 1 => |b| == 8
             case 2 => exists v: seq<Byte> :: |v| < 0x8000_0000 && b == EncodeVarint(|v|) + v
             case 5 => |b| == 4
             case _ => false
    ensures Parse(EncodeVarint(t) + (b + z), m, budget) == Parse(z, m, budget)
  {
    SkippedByType(t, b, z, budget);
    OtherTag(t, b + z, m, budget);
  }

  lemma SkippedByType(t: nat, b: seq<Byte>, z: seq<Byte>, budget: nat)
    requires match t % 8
             case 0 => exists v: nat :: v < TWO64 && b == EncodeVarint(v)
             case 1 => |b| == 8
             case 2 => exists v: seq<Byte> :: |v| < 0x8000_0000 && b == EncodeVarint(|v|) + v
             case 5 => |b| == 4
             case _ => false
    ensures SkipField(t, b + z, budget) == Got((), z)
  {
    match t % 8
    case 0 =>
      var v: nat :| v < TWO64 && b == EncodeVarint(v);
      Varint64RoundTrip(v, z);
    case 2 =>
      var v: seq<Byte> :| |v| < 0x8000_0000 && b == EncodeVarint(|v|) + v;
      SkippedChunk(t, v, z, budget);
      assert b == EncodeChunk(v);
    case _ => DropPrefix(b, z);
  }

  lemma SkippedChunk(t: nat, v: seq<Byte>, z: seq<Byte>, budget: nat)
    requires t % 8 == 2 && |v| < TWO31
    ensures SkipField(t, EncodeChunk(v) + z, budget) == Got((), z)
  {
    Varint32RoundTrip(|v|, v + z);
    Regroup(EncodeVarint(|v|), v, z);
    DropPrefix(v, z);
  }

  lemma Regroup(a: seq<Byte>, b: seq<Byte>, c: seq<Byte>)
    ensures (a + b) + c == a + (b + c)
  {
  }
}
