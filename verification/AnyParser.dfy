/** The input stream and the generated code of google.protobuf.Any, step by step. */
module AnyParser {
  import opened Bytes
  import opened Wire
  import opened AnyCodec

  /** `digit` with the weight of its place: the shift and OR of the code, whose bits do not overlap. */
  function Place(value: nat, scale: nat, digit: nat): nat { value + scale * digit }

  /** A varint, of which the part worth `value` has been read; `scale` is the weight of the next byte. */
  ghost function Resume(value: nat, scale: nat, r: Read<nat>): Read<nat> {
    if r.Fail? then Fail else Got(Place(value, scale, r.value), r.rest)
  }

  lemma ResumeStep(value: nat, scale: nat, s: seq<Byte>, left: nat)
    requires left > 0 && s != []
    ensures Resume(value, scale, Varint(s, left)) ==
      if s[0] < 128 then Got(Place(value, scale, s[0]), s[1..])
      else Resume(Place(value, scale, s[0] - 128), scale * 128, Varint(s[1..], left - 1))
  {
    var r := Varint(s[1..], left - 1);
    if s[0] >= 128 && r.Got? {
      assert scale * (s[0] - 128 + 128 * r.value) == scale * (s[0] - 128) + scale * 128 * r.value;
    }
  }

  /** What a stream can see at a position without fetching more: whether the byte there is in its
      buffer, whether it knows that the input ends there, and whether a varint there can be read from
      the buffer at once. */
  datatype View = View(next: nat -> bool, end: nat -> bool, varint: nat -> bool)

  /** How far a read of a varint moves that fails, of `left` bytes. */
  function Failed(atOnce: bool, left: nat): nat {
    if left < MAX_VARINT_BYTES then left else if atOnce then 0 else MAX_VARINT_BYTES
  }

  /** A CodedInputStream over `data`, of which its buffer holds some part at a time: its view is
      arbitrary. */
  class Input {
    const data: seq<Byte>
    const view: View
    var pos: nat
    var lastTag: nat
    var atEnd: bool
    var budget: int

    ghost predicate Valid()
      reads this
    {
      pos <= |data|
    }

    function Rest(): seq<Byte>
      requires Valid()
      reads this
    {
      data[pos..]
    }

    constructor (data: seq<Byte>, view: View)
      ensures Valid() && Rest() == data && !atEnd && budget == 100
    {
      this.data, this.view := data, view;
      pos, lastTag, atEnd, budget := 0, 0, false, RECURSION_LIMIT;
    }

    method Advance(n: nat)
      requires Valid() && n <= |Rest()|
      modifies this`pos
      ensures Valid() && pos == old(pos) + n && Rest() == old(Rest())[n..]
    {
      pos := pos + n;
    }

    /** A failed read leaves the stream where it was if it read from the buffer at once, and otherwise
        behind the bytes looked at. */
    method ReadVarint() returns (ok: bool, value: nat)
      requires Valid()
      modifies this`pos
      ensures Valid() && pos >= old(pos)
      ensures var r := Varint(old(Rest()), MAX_VARINT_BYTES); ok == r.Got? && (ok ==> r == Got(value, Rest()))
      ensures !ok ==> pos == old(pos) + Failed(view.varint(old(pos)), |old(Rest())|)
    {
      var count: nat, scale: nat := 0, 1;
      var start := pos;
      value := 0;
      ghost var all := Varint(Rest(), MAX_VARINT_BYTES);
      while true
        invariant Valid() && pos == start + count && count <= MAX_VARINT_BYTES
        invariant all == Resume(value, scale, Varint(Rest(), MAX_VARINT_BYTES - count))
        decreases MAX_VARINT_BYTES - count
      {
        if count == MAX_VARINT_BYTES || pos == |data| {
          if count == MAX_VARINT_BYTES && view.varint(start) { pos := start; }
          return false, 0;
        }
        var b := data[pos];
        ghost var before := Rest();
        Advance(1);
        ResumeStep(value, scale, before, MAX_VARINT_BYTES - count);
        if b < 128 {
          value := Place(value, scale, b);
          return true, value;
        }
        value, scale, count := Place(value, scale, b - 128), scale * 128, count + 1;
      }
    }

    method ReadVarint32() returns (ok: bool, value: nat)
      requires Valid()
      modifies this`pos
      ensures Valid() && pos >= old(pos)
      ensures var r := Varint32(old(Rest())); ok == r.Got? && (ok ==> r == Got(value, Rest()))
    {
      ok, value := ReadVarint();
      value := value % TWO32;
    }

    /** Zero at the end of the input, and for a tag that is zero or malformed. */
    method ReadTag() returns (tag: nat)
      requires Valid()
      modifies this`pos, this`lastTag, this`atEnd
      ensures Valid() && lastTag == tag && pos >= old(pos) && (old(pos) < |data| && tag > 0 ==> pos > old(pos))
      ensures match Wire.ReadTag(old(Rest()))
              case AtEnd => tag == 0 && atEnd
              case NoTag => tag == 0 && atEnd == old(atEnd)
              case Tag(t, rest) => tag == t && Rest() == rest && atEnd == old(atEnd)
    {
      tag := 0;
      if pos == |data| {
        atEnd := true;
      } else {
        var ok;
        ok, tag := ReadVarint32();
        if !ok { tag := 0; }
      }
      lastTag := tag;
    }

    /** A tag of two bytes, both in the buffer. */
    method ReadTwoBytes() returns (tag: nat)
      requires Valid() && |Rest()| >= 2 && Rest()[0] >= 0x80 && Rest()[1] < 0x80
      modifies this`pos, this`lastTag
      ensures Valid() && lastTag == tag && pos == old(pos) + 2
      ensures Varint32(old(Rest())) == Got(tag, Rest()) && tag <= 0x3FFF
    {
      TwoBytes(Rest());
      tag := Place(data[pos] - 0x80, 0x80, data[pos + 1]);
      lastTag := tag;
      Advance(2);
    }

    /** `low`: the tag is known to be at most `cutoff`; unspecified if the tag is 0. */
    method ReadTagWithCutoff(cutoff: nat) returns (tag: nat, low: bool)
      requires Valid() && cutoff < TWO32
      modifies this`pos, this`lastTag, this`atEnd
      ensures Valid() && lastTag == tag && (tag > 0 ==> low == (tag <= cutoff))
      ensures pos >= old(pos) && (tag > 0 ==> pos > old(pos))
      ensures match Wire.ReadTag(old(Rest()))
              case AtEnd => tag == 0 && atEnd
              case NoTag => tag == 0 && atEnd == old(atEnd)
              case Tag(t, rest) => tag == t && Rest() == rest && atEnd == old(atEnd)
    {
      if pos < |data| && view.next(pos) {
        if 0 < data[pos] < 128 {
          tag := data[pos];
          lastTag := tag;
          Advance(1);
          return tag, cutoff >= 0x7F || tag <= cutoff;
        }
        if cutoff >= 0x80 && pos + 1 < |data| && view.next(pos + 1) && data[pos] >= 0x80 && data[pos + 1] < 0x80 {
          tag := ReadTwoBytes();
          return tag, cutoff >= 0x3FFF || tag <= cutoff;
        }
      }
      tag := ReadTag();
      low := (tag - 1) % TWO32 < cutoff;
    }

    /** True only if the next byte is `tag`, which is then consumed. */
    method ExpectTag(tag: Byte) returns (yes: bool)
      requires Valid()
      modifies this`pos
      ensures Valid() && (!yes ==> pos == old(pos))
      ensures yes ==> pos == old(pos) + 1 && old(Rest()) == [tag] + Rest()
    {
      if pos < |data| && view.next(pos) && data[pos] == tag {
        Advance(1);
        return true;
      }
      return false;
    }

    /** True only at the end of the input. */
    method ExpectAtEnd() returns (yes: bool)
      requires Valid()
      modifies this`lastTag, this`atEnd
      ensures yes ==> Rest() == [] && atEnd && lastTag == 0
      ensures !yes ==> atEnd == old(atEnd)
    {
      if pos == |data| && view.end(pos) {
        lastTag, atEnd := 0, true;
        return true;
      }
      return false;
    }

    /** ReadBytes and ReadString into a string that holds `had`. */
    method ReadBytes(had: seq<Byte>) returns (ok: bool, value: seq<Byte>)
      requires Valid()
      modifies this`pos
      ensures Valid() && pos >= old(pos) && (ok ==> pos > old(pos))
      ensures match ReadChunk(old(Rest()), had)
              case Bad(left) => !ok && value == left
              case Good(v, rest) => ok && value == v && Rest() == rest
    {
      var n;
      ok, n := ReadVarint32();
      if !ok || n >= TWO31 { return false, had; }
      if n > |data| - pos {
        value := Rest();
        Advance(|data| - pos);
        return false, value;
      }
      value := Rest()[..n];
      Advance(n);
    }

    method Skip(n: nat) returns (ok: bool)
      requires Valid()
      modifies this`pos
      ensures Valid() && pos >= old(pos)
      ensures var r := Drop(old(Rest()), n); ok == (n < TWO31 && r.Got?) && (ok ==> Rest() == r.rest)
    {
      if n >= TWO31 || n > |data| - pos { return false; }
      Advance(n);
      return true;
    }

    method SkipField(tag: nat) returns (ok: bool)
      requires Valid() && 0 <= budget
      modifies this`pos, this`lastTag, this`atEnd, this`budget
      ensures Valid() && pos >= old(pos)
      ensures var r := Wire.SkipField(tag, old(Rest()), old(budget));
        ok == r.Got? && (ok ==> Rest() == r.rest && budget == old(budget) && atEnd == old(atEnd))
      decreases |data| - pos, 2
    {
      match tag % 8
      case 0 =>
        var value;
        ok, value := ReadVarint();
      case 1 => ok := Skip(8);
      case 2 =>
        var n;
        ok, n := ReadVarint32();
        if ok { ok := Skip(n); }
      case 3 => ok := SkipNested(tag + 1);
      case 5 => ok := Skip(4);
      case _ => return false;
    }

    /** SkipField for a group: one level deeper, and its end must carry its number. */
    method SkipNested(end: nat) returns (ok: bool)
      requires Valid() && 0 <= budget && end % 8 == 4
      modifies this`pos, this`lastTag, this`atEnd, this`budget
      ensures Valid() && pos >= old(pos)
      ensures var r := if old(budget) == 0 then Fail else SkipGroup(end, old(Rest()), old(budget) - 1);
        ok == r.Got? && (ok ==> Rest() == r.rest && budget == old(budget) && atEnd == old(atEnd))
      decreases |data| - pos, 1
    {
      budget := budget - 1;
      if budget < 0 { return false; }
      ok := SkipMessage(end);
      if ok {
        budget := budget + 1;
        ok := lastTag == end;
      }
    }

    /** Skips fields up to the end of the input or an end-group tag, wanted to be `end`. */
    method SkipMessage(ghost end: nat) returns (ok: bool)
      requires Valid() && 0 <= budget && end % 8 == 4
      modifies this`pos, this`lastTag, this`atEnd, this`budget
      ensures Valid() && pos >= old(pos)
      ensures var r := SkipGroup(end, old(Rest()), old(budget));
        && (ok && lastTag == end <==> r.Got?)
        && (ok && lastTag == end ==> Rest() == r.rest && atEnd == old(atEnd))
        && (ok ==> budget == old(budget))
      decreases |data| - pos, 0
    {
      while true
        invariant Valid() && pos >= old(pos) && budget == old(budget) && atEnd == old(atEnd)
        invariant SkipGroup(end, Rest(), budget) == SkipGroup(end, old(Rest()), old(budget))
        decreases |data| - pos
      {
        var tag := ReadTag();
        if tag == 0 || tag % 8 == 4 { return true; }
        ok := SkipField(tag);
        if !ok { return false; }
      }
    }
  }

  /** A tag of two bytes. */
  lemma TwoBytes(s: seq<Byte>)
    requires |s| >= 2 && s[0] >= 0x80 && s[1] < 0x80
    ensures Varint32(s) == Got(Place(s[0] - 0x80, 0x80, s[1]), s[2..])
  {
    assert s[1..][0] == s[1] && s[1..][1..] == s[2..];
    assert Varint(s[1..], MAX_VARINT_BYTES - 1) == Got(s[1], s[2..]);
  }

  /** The scan of VerifyUtf8String with its state table. */
  method VerifyUtf8(s: seq<Byte>) returns (ok: bool)
    ensures ok == Utf8(s)
  {
    TableIsUtf8(s);
    var q, i := 0, 0;
    assert s[0..] == s;
    while i < |s|
      invariant i <= |s| && q < 9 && Accepts(0, s) == Accepts(q, s[i..])
    {
      AcceptsAfter(s, q, i);
      q, i := Next(q, s[i]), i + 1;
      if q == 9 { return false; }
    }
    return q == 0;
  }

  class AnyMessage {
    var url: seq<Byte>
    var value: seq<Byte>
    var cachedSize: nat

    function Contents(): Any
      reads this
    {
      Any(url, value)
    }

    constructor ()
      ensures Contents() == EMPTY
    {
      url, value, cachedSize := [], [], 0;
    }

    method Clear()
      modifies this`url, this`value
      ensures Contents() == EMPTY
    {
      url, value := [], [];
    }

    method MergeFrom(from: AnyMessage)
      requires from != this
      modifies this`url, this`value
      ensures Contents() == Merge(old(Contents()), from.Contents())
    {
      if |from.url| > 0 { url := from.url; }
      if |from.value| > 0 { value := from.value; }
    }

    method CopyFrom(from: AnyMessage)
      modifies this`url, this`value
      ensures Contents() == old(from.Contents())
    {
      if from == this { return; }
      Clear();
      MergeFrom(from);
    }

    /** Field 1 behind its tag; `atValue`: the tag of field 2 has been seen and taken. */
    method ReadUrl(input: Input) returns (ok: bool, atValue: bool)
      requires input.Valid() && 0 <= input.budget
      modifies this`url, input`pos
      ensures input.Valid() && input.pos >= old(input.pos) && (ok ==> input.pos > old(input.pos))
      ensures ParseUrl(old(input.Rest()), old(Contents()), input.budget) ==
        Verdict(ok, false, false, atValue, input.Rest(), Contents(), input.budget)
    {
      atValue := false;
      ok, url := input.ReadBytes(url);
      if ok { ok := VerifyUtf8(url); }
      if ok { atValue := input.ExpectTag(18); }
    }

    /** Field 2 behind its tag; `done`: the input has been seen to end. */
    method ReadValue(input: Input) returns (ok: bool, done: bool)
      requires input.Valid() && !input.atEnd && 0 <= input.budget
      modifies this`value, input`pos, input`lastTag, input`atEnd
      ensures input.Valid() && input.pos >= old(input.pos) && (ok ==> input.pos > old(input.pos))
      ensures input.atEnd == (ok && done)
      ensures ParseValue(old(input.Rest()), old(Contents()), input.budget) ==
        Verdict(ok, done, true, false, input.Rest(), Contents(), input.budget)
    {
      done := false;
      ok, value := input.ReadBytes(value);
      if ok { done := input.ExpectAtEnd(); }
    }

    /** Any other tag; `done`: the message ends here, though not where a message may end. */
    method HandleUnusual(input: Input, tag: nat) returns (ok: bool, done: bool)
      requires input.Valid() && 0 <= input.budget && tag > 0
      modifies input
      ensures input.Valid() && input.pos >= old(input.pos)
      ensures ok ==> input.budget == old(input.budget) && input.atEnd == old(input.atEnd)
      ensures ParseOther(tag, old(input.Rest()), Contents(), old(input.budget)) ==
        Verdict(ok, done, false, false, input.Rest(), Contents(), old(input.budget))
    {
      done := tag % 8 == 4;
      ok := true;
      if !done { ok := input.SkipField(tag); }
    }

    /** A tag and what belongs to it. */
    method ReadField(input: Input) returns (ok: bool, done: bool, atValue: bool)
      requires input.Valid() && 0 <= input.budget && !input.atEnd
      modifies this`url, this`value, input
      ensures input.Valid() && (ok && !done ==> input.pos > old(input.pos) && !input.atEnd)
      ensures ok ==> input.budget == old(input.budget)
      ensures Parse(old(input.Rest()), old(Contents()), old(input.budget)) ==
        Verdict(ok, done, input.atEnd, atValue, input.Rest(), Contents(), old(input.budget))
    {
      done, atValue := false, false;
      var tag, low := input.ReadTagWithCutoff(127);
      if low && tag / 8 == 1 && tag == 10 {
        ok, atValue := ReadUrl(input);
      } else if low && tag / 8 == 2 && tag == 18 {
        ok, done := ReadValue(input);
      } else if tag == 0 {
        ok, done := true, true;
      } else {
        ok, done := HandleUnusual(input, tag);
      }
    }

    /** The parser with its jumps: after field 1 straight to field 2, after field 2 straight to the end,
        whenever the stream can see them. It computes the plain meaning, whatever the stream can see. */
    method MergePartialFromCodedStream(input: Input) returns (ok: bool)
      requires input.Valid() && 0 <= input.budget && !input.atEnd
      modifies this`url, this`value, input
      ensures var p := Parse(old(input.Rest()), old(Contents()), old(input.budget));
        ok == p.ok && Contents() == p.msg && (ok ==> input.atEnd == p.complete)
    {
      ghost var budget := input.budget;
      ghost var all := Parse(input.Rest(), Contents(), budget);
      var atValue, done := false, false;
      ok := true;
      while ok && !done
        invariant input.Valid() && (ok ==> input.budget == budget) && (ok && !done ==> !input.atEnd)
        invariant all == Verdict(ok, done, input.atEnd, atValue, input.Rest(), Contents(), budget)
        decreases ok && !done, |input.data| - input.pos, if atValue then 0 else 1
      {
        if atValue {
          ValueNext(input.Rest());
          ok, done := ReadValue(input);
          atValue := false;
        } else {
          ok, done, atValue := ReadField(input);
        }
      }
    }

    method ParseFromString(data: seq<Byte>, view: View) returns (ok: bool)
      modifies this`url, this`value
      ensures var p := Parse(data, EMPTY, 100); ok == (p.ok && p.complete) && Contents() == p.msg
    {
      var input := new Input(data, view);
      Clear();
      ok := MergePartialFromCodedStream(input);
      ok := ok && input.atEnd;
    }

    method ByteSize() returns (total: nat)
      requires |url| < TWO32 && |value| < TWO32
      modifies this`cachedSize
      ensures total == |Serialize(Contents())| == cachedSize
    {
      SizeIsLength(Contents());
      total := 0;
      if |url| > 0 { total := total + 1 + (VarintSize(|url|) + |url|); }
      if |value| > 0 { total := total + 1 + (VarintSize(|value|) + |value|); }
      cachedSize := total;
    }
  }

  /** What is left to be parsed, with the tag that was taken ahead put back. */
  ghost function Pending(atValue: bool, s: seq<Byte>): seq<Byte> { if atValue then [VALUE_TAG] + s else s }

  /** The meaning of the whole input once a part of it has been read: decided, or that of the rest. */
  ghost function Verdict(ok: bool, done: bool, atEnd: bool, atValue: bool, rest: seq<Byte>, m: Any, budget: nat): Parsed {
    if !ok then Parsed(false, false, m)
    else if done then Parsed(true, atEnd, m)
    else Parse(Pending(atValue, rest), m, budget)
  }

  lemma ValueNext(s: seq<Byte>)
    ensures Wire.ReadTag([VALUE_TAG] + s) == Tag(VALUE_TAG, s)
  {
    assert ([VALUE_TAG] + s)[1..] == s;
  }
}
