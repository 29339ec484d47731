/** google.protobuf.Any as values: what parsing, serializing and merging mean. */
module AnyCodec {
  import opened Bytes
  import opened Wire
  import opened WireFields

  datatype Any = Any(url: seq<Byte>, value: seq<Byte>)

  const EMPTY := Any([], [])

  /** `complete`: the input ended where a message may end. */
  datatype Parsed = Parsed(ok: bool, complete: bool, msg: Any)

  const URL_TAG: Byte := 10
  const VALUE_TAG: Byte := 18

  // ------------------------------------------------------------------ meaning

  /** Reads tags and dispatches on them, one field after the other, until the input ends. Groups may nest
      `budget` deep: 100, less the depth at which the message itself is nested. */
  function Parse(s: seq<Byte>, m: Any, budget: nat): Parsed
    decreases |s|, 0
  {
    match ReadTag(s)
    case AtEnd => Parsed(true, true, m)
    case NoTag => Parsed(true, false, m)
    case Tag(t, rest) =>
      if t == URL_TAG then ParseUrl(rest, m, budget)
      else if t == VALUE_TAG then ParseValue(rest, m, budget)
      else ParseOther(t, rest, m, budget)
  }

  /** From behind the tag of field 1. */
  function ParseUrl(s: seq<Byte>, m: Any, budget: nat): Parsed
    decreases |s|
  {
    match ReadChunk(s, m.url)
    case Bad(left) => Parsed(false, false, m.(url := left))
    case Good(v, after) =>
      if Utf8(v) then Parse(after, m.(url := v), budget) else Parsed(false, false, m.(url := v))
  }

  /** From behind the tag of field 2. */
  function ParseValue(s: seq<Byte>, m: Any, budget: nat): Parsed
    decreases |s|
  {
    match ReadChunk(s, m.value)
    case Bad(left) => Parsed(false, false, m.(value := left))
    case Good(v, after) => Parse(after, m.(value := v), budget)
  }

  /** From behind any other tag. */
  function ParseOther(t: nat, s: seq<Byte>, m: Any, budget: nat): Parsed
    decreases |s|, 1
  {
    if t % 8 == 4 then Parsed(true, false, m)
    else
      match SkipField(t, s, budget)
      case Fail => Parsed(false, false, m)
      case Got(_, after) => Parse(after, m, budget)
  }

  function EncodeField(tag: Byte, v: seq<Byte>): seq<Byte> {
    if v == [] then [] else [tag] + EncodeChunk(v)
  }

  function Serialize(m: Any): seq<Byte> { EncodeField(URL_TAG, m.url) + EncodeField(VALUE_TAG, m.value) }

  function Merge(into: Any, from: Any): Any {
    Any(if from.url == [] then into.url else from.url, if from.value == [] then into.value else from.value)
  }

  /** Small enough to be serialized: larger messages overflow the size computation. */
  predicate Fits(m: Any) { |Serialize(m)| < TWO31 }

  // ------------------------------------------------------------------ concatenation

  ghost predicate Complete(s: seq<Byte>, m: Any, budget: nat) { Parse(s, m, budget).ok && Parse(s, m, budget).complete }

  /** Input that ends where a message may end can be followed by any input: the second part is parsed
      into what the first part left. */
  lemma {:induction false} ParseConcat(s: seq<Byte>, z: seq<Byte>, m: Any, budget: nat)
    requires Complete(s, m, budget)
    ensures Parse(s + z, m, budget) == Parse(z, Parse(s, m, budget).msg, budget)
    decreases |s|
  {
    match ReadTag(s)
    case AtEnd => assert s + z == z;
    case Tag(t, rest) =>
      TagMore(s, z);
      if t == URL_TAG {
        assert Parse(s, m, budget) == ParseUrl(rest, m, budget) && Parse(s + z, m, budget) == ParseUrl(rest + z, m, budget);
        ChunkMore(rest, z, m.url);
        var c := ReadChunk(rest, m.url);
        ParseConcat(c.rest, z, m.(url := c.value), budget);
      } else if t == VALUE_TAG {
        assert Parse(s, m, budget) == ParseValue(rest, m, budget) && Parse(s + z, m, budget) == ParseValue(rest + z, m, budget);
        ChunkMore(rest, z, m.value);
        var c := ReadChunk(rest, m.value);
        ParseConcat(c.rest, z, m.(value := c.value), budget);
      } else {
        assert Parse(s, m, budget) == ParseOther(t, rest, m, budget) && Parse(s + z, m, budget) == ParseOther(t, rest + z, m, budget);
        SkipMore(t, rest, z, budget);
        ParseConcat(SkipField(t, rest, budget).rest, z, m, budget);
      }
  }

  /** A well-formed field that Any does not have: another number, or 1 or 2 with another wire type. */
  ghost predicate UnknownField(u: seq<Byte>, budget: nat) {
    && ReadTag(u).Tag? && ReadTag(u).tag != URL_TAG && ReadTag(u).tag != VALUE_TAG && ReadTag(u).tag % 8 != 4
    && SkipField(ReadTag(u).tag, ReadTag(u).rest, budget) == Got((), [])
  }

  /** An unknown field may be inserted after any complete input without changing the result. */
  lemma UnknownFieldIsSkipped(s: seq<Byte>, u: seq<Byte>, z: seq<Byte>, m: Any, budget: nat)
    requires Complete(s, m, budget) && UnknownField(u, budget)
    ensures Parse(s + u + z, m, budget) == Parse(s + z, m, budget)
  {
    var after := Parse(s, m, budget).msg;
    assert Parse(u, after, budget) == ParseOther(ReadTag(u).tag, ReadTag(u).rest, after, budget) == Parse([], after, budget);
    assert s + u + z == s + (u + z);
    ParseConcat(s, u + z, m, budget);
    ParseConcat(u, z, after, budget);
    ParseConcat(s, z, m, budget);
  }

  /** A field of another shape is skipped if its groups nest no deeper than the budget, and otherwise
      makes parsing fail. */
  lemma ForeignField(f: Field, z: seq<Byte>, m: Any, budget: nat)
    requires Ok(f) && TagOf(f) != URL_TAG && TagOf(f) != VALUE_TAG
    ensures Parse(Encode(f) + z, m, budget) == if Depth(f) <= budget then Parse(z, m, budget) else Parsed(false, false, m)
  {
    TagType(f);
    assert Encode(f) + z == EncodeVarint(TagOf(f)) + (Body(f) + z);
    TagRoundTrip(TagOf(f), Body(f) + z);
    SkipEncoded(f, z, budget);
  }

  lemma UnknownIfShallow(f: Field, budget: nat)
    requires Ok(f) && TagOf(f) != URL_TAG && TagOf(f) != VALUE_TAG
    ensures UnknownField(Encode(f), budget) <==> Depth(f) <= budget
  {
    TagType(f);
    TagRoundTrip(TagOf(f), Body(f));
    SkipEncoded(f, [], budget);
    assert Body(f) + [] == Body(f);
  }

  /** `n` groups around a number. */
  function Groups(n: nat): (f: Field)
    ensures Ok(f) && Depth(f) == n && TagOf(f) == if n == 0 then 8 else 11
  {
    if n == 0 then Number(1, 0)
    else
      var fields := Cons(Groups(n - 1), Nil);
      assert AllOk(Nil) && Deepest(Nil) == 0;
      assert AllOk(fields) && Deepest(fields) == n - 1;
      Group(1, fields)
  }

  /** Groups may nest 100 deep, and no deeper. */
  lemma DeepGroupsFail(n: nat, m: Any)
    ensures Parse(Encode(Groups(n)), m, 100) == if n <= 100 then Parsed(true, true, m) else Parsed(false, false, m)
  {
    ForeignField(Groups(n), [], m, RECURSION_LIMIT);
    assert Encode(Groups(n)) + [] == Encode(Groups(n));
  }

  // ------------------------------------------------------------------ round trip

  lemma FieldTag(tag: Byte, v: seq<Byte>, z: seq<Byte>)
    requires v != [] && 0 < tag < 128
    ensures ReadTag(EncodeField(tag, v) + z) == Tag(tag, EncodeChunk(v) + z)
  {
    var after := EncodeChunk(v) + z;
    assert EncodeField(tag, v) + z == [tag] + after;
    assert EncodeVarint(tag) == [tag];
    TagRoundTrip(tag, after);
  }

  lemma ParseUrlField(v: seq<Byte>, z: seq<Byte>, m: Any, budget: nat)
    requires |v| < TWO31 && Utf8(v)
    ensures Parse(EncodeField(URL_TAG, v) + z, m, budget) == Parse(z, Merge(m, Any(v, [])), budget)
  {
    if v == [] {
      assert EncodeField(URL_TAG, v) + z == z;
    } else {
      FieldTag(URL_TAG, v, z);
      ChunkRoundTrip(v, z, m.url);
    }
  }

  lemma ParseValueField(v: seq<Byte>, z: seq<Byte>, m: Any, budget: nat)
    requires |v| < TWO31
    ensures Parse(EncodeField(VALUE_TAG, v) + z, m, budget) == Parse(z, Merge(m, Any([], v)), budget)
  {
    if v == [] {
      assert EncodeField(VALUE_TAG, v) + z == z;
    } else {
      FieldTag(VALUE_TAG, v, z);
      ChunkRoundTrip(v, z, m.value);
    }
  }

  /** Parsing a serialized message into another one merges it. */
  lemma ParseSerialized(a: Any, z: seq<Byte>, m: Any, budget: nat)
    requires Fits(a) && Utf8(a.url)
    ensures Parse(Serialize(a) + z, m, budget) == Parse(z, Merge(m, a), budget)
  {
    assert Serialize(a) + z == EncodeField(URL_TAG, a.url) + (EncodeField(VALUE_TAG, a.value) + z);
    ParseUrlField(a.url, EncodeField(VALUE_TAG, a.value) + z, m, budget);
    ParseValueField(a.value, z, Merge(m, Any(a.url, [])), budget);
  }

  /** Parsing two serialized messages in a row is merging the second into the first. */
  lemma ConcatIsMerge(a: Any, b: Any, budget: nat)
    requires Fits(a) && Utf8(a.url) && Fits(b) && Utf8(b.url)
    ensures Parse(Serialize(a) + Serialize(b), EMPTY, budget) == Parsed(true, true, Merge(a, b))
  {
    ParseSerialized(a, Serialize(b), EMPTY, budget);
    ParseSerialized(b, [], a, budget);
    assert Serialize(b) + [] == Serialize(b);
  }

  lemma RoundTrip(a: Any, budget: nat)
    requires Fits(a) && Utf8(a.url)
    ensures Parse(Serialize(a), EMPTY, budget) == Parsed(true, true, a)
  {
    ParseSerialized(a, [], EMPTY, budget);
    assert Serialize(a) + [] == Serialize(a);
  }

  /** A message whose type URL is not UTF-8 does not survive: this is exactly when the round trip fails. */
  lemma RoundTripOnlyIfUtf8(a: Any, budget: nat)
    requires Fits(a)
    ensures Parse(Serialize(a), EMPTY, budget) == Parsed(true, true, a) <==> Utf8(a.url)
  {
    if Utf8(a.url) {
      RoundTrip(a, budget);
    } else {
      var z := EncodeField(VALUE_TAG, a.value);
      FieldTag(URL_TAG, a.url, z);
      ChunkRoundTrip(a.url, z, []);
    }
  }

  /** A message that does not. */
  lemma InvalidUrlIsRefused(budget: nat)
    ensures var a := Any([0x80], []); Fits(a) && Parse(Serialize(a), EMPTY, budget) == Parsed(false, false, a)
  {
    var url: seq<Byte> := [0x80];
    assert EncodeVarint(|url|) == [1];
    FieldTag(URL_TAG, url, []);
    ChunkRoundTrip(url, [], []);
    assert EncodeField(URL_TAG, url) + [] == Serialize(Any(url, []));
  }

  // ------------------------------------------------------------------ size

  function FieldSize(v: seq<Byte>): nat {
    if v == [] then 0 else 1 + VarintSize(|v|) + |v|
  }

  lemma SizeIsLength(m: Any)
    requires |m.url| < TWO32 && |m.value| < TWO32
    ensures |Serialize(m)| == FieldSize(m.url) + FieldSize(m.value)
  {
    VarintSizeIsLength(|m.url|);
    VarintSizeIsLength(|m.value|);
  }
}
