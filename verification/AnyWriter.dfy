/** Serializing google.protobuf.Any into an array. */
module AnyWriter {
  import opened Bytes
  import opened Wire
  import opened AnyCodec
  import opened AnyParser

  /** `after` is `before` with `w` written over it at `at`. */
  ghost predicate Written(before: seq<Byte>, after: seq<Byte>, at: nat, w: seq<Byte>) {
    at + |w| <= |before| && after == before[..at] + w + before[at + |w|..]
  }

  lemma WrittenTwice(a: seq<Byte>, b: seq<Byte>, c: seq<Byte>, at: nat, v: seq<Byte>, w: seq<Byte>)
    requires Written(a, b, at, v) && Written(b, c, at + |v|, w)
    ensures Written(a, c, at, v + w)
  {
    assert b[..at + |v|] == a[..at] + v;
    assert b[at + |v| + |w|..] == a[at + |v| + |w|..];
    assert c == a[..at] + (v + w) + a[at + |v + w|..];
  }

  method WriteByte(b: Byte, target: array<Byte>, at: nat) returns (end: nat)
    requires at < target.Length
    modifies target
    ensures end == at + 1 && Written(old(target[..]), target[..], at, [b])
  {
    target[at] := b;
    end := at + 1;
  }

  lemma VarintStep(done: seq<Byte>, value: nat, whole: seq<Byte>)
    requires value >= 128 && done + EncodeVarint(value) == whole
    ensures (done + [value % 128 + 128]) + EncodeVarint(value / 128) == whole
  {
  }

  method WriteVarint32ToArray(v: nat, target: array<Byte>, at: nat) returns (end: nat)
    requires at + |EncodeVarint(v)| <= target.Length
    modifies target
    ensures end == at + |EncodeVarint(v)| && Written(old(target[..]), target[..], at, EncodeVarint(v))
  {
    var value := v;
    end := at;
    ghost var whole := EncodeVarint(v);
    ghost var done: seq<Byte> := [];
    while value >= 128
      invariant end == at + |done| && done + EncodeVarint(value) == whole
      invariant Written(old(target[..]), target[..], at, done)
    {
      ghost var before := target[..];
      var b := value % 128 + 128;
      VarintStep(done, value, whole);
      end := WriteByte(b, target, end);
      WrittenTwice(old(target[..]), before, target[..], at, done, [b]);
      done, value := done + [b], value / 128;
    }
    ghost var before := target[..];
    end := WriteByte(value, target, end);
    WrittenTwice(old(target[..]), before, target[..], at, done, [value]);
  }

  method WriteRawToArray(s: seq<Byte>, target: array<Byte>, at: nat) returns (end: nat)
    requires at + |s| <= target.Length
    modifies target
    ensures end == at + |s| && Written(old(target[..]), target[..], at, s)
  {
    for i := 0 to |s|
      invariant target[..] == old(target[..at]) + s[..i] + old(target[at + i..])
    {
      target[at + i] := s[i];
    }
    end := at + |s|;
  }

  lemma FieldParts(tag: Byte, s: seq<Byte>)
    requires s != []
    ensures EncodeField(tag, s) == [tag] + EncodeVarint(|s|) + s
    ensures |EncodeField(tag, s)| == 1 + |EncodeVarint(|s|)| + |s|
  {
  }

  /** A length-delimited field: its tag, its length and its bytes. */
  method WriteField(tag: Byte, s: seq<Byte>, target: array<Byte>, at: nat) returns (end: nat)
    requires s != [] && at + |EncodeField(tag, s)| <= target.Length
    modifies target
    ensures end == at + |EncodeField(tag, s)| && Written(old(target[..]), target[..], at, EncodeField(tag, s))
  {
    FieldParts(tag, s);
    ghost var head := [tag] + EncodeVarint(|s|);
    end := WriteByte(tag, target, at);
    ghost var one := target[..];
    end := WriteVarint32ToArray(|s|, target, end);
    ghost var two := target[..];
    WrittenTwice(old(target[..]), one, two, at, [tag], EncodeVarint(|s|));
    end := WriteRawToArray(s, target, end);
    WrittenTwice(old(target[..]), two, target[..], at, head, s);
  }

  method SerializeWithCachedSizesToArray(m: AnyMessage, target: array<Byte>, at: nat) returns (end: nat)
    requires at + |Serialize(m.Contents())| <= target.Length
    modifies target
    ensures end == at + |Serialize(m.Contents())|
    ensures Written(old(target[..]), target[..], at, Serialize(m.Contents()))
  {
    end := at;
    if |m.url| > 0 { end := WriteField(URL_TAG, m.url, target, end); }
    ghost var one := target[..];
    if |m.value| > 0 { end := WriteField(VALUE_TAG, m.value, target, end); }
    WrittenTwice(old(target[..]), one, target[..], at, EncodeField(URL_TAG, m.url), EncodeField(VALUE_TAG, m.value));
  }

  /** Makes room for as many bytes as ByteSize says, and fills it. */
  method SerializeToString(m: AnyMessage) returns (data: seq<Byte>)
    requires Fits(m.Contents())
    modifies m`cachedSize
    ensures data == Serialize(m.Contents()) && m.cachedSize == |data|
  {
    var size := m.ByteSize();
    var target := new Byte[size](_ => 0);
    var end := SerializeWithCachedSizesToArray(m, target, 0);
    data := target[..];
  }
}
