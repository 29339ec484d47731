/** The streams of netPack over memory. */
module NetStream {
  import opened Bytes
  import opened Options
  import opened NetCodec
  import opened NetLoad
  import opened NetBuffer

  /** BinaryWriteStream: a header of four bytes with the size of the whole, and the payload behind it. */
  class WriteStream {
    const buf: array<Byte>
    var cur: nat

    ghost predicate Valid()
      reads this
    {
      HEADER_SIZE <= cur <= buf.Length
    }

    ghost function Payload(): seq<Byte>
      requires Valid()
      reads this, buf
    {
      buf[HEADER_SIZE..cur]
    }

    /** The header holds the size. */
    ghost predicate Current()
      requires Valid()
      reads this, buf
    {
      buf[..HEADER_SIZE] == EncodeInt(cur)
    }

    ghost function Room(): nat
      requires Valid()
      reads this
    {
      buf.Length - HEADER_SIZE
    }

    /** `len` is BUFFER_SIZE in the code. */
    constructor (len: nat)
      requires len >= HEADER_SIZE
      ensures Valid() && fresh(buf) && Payload() == [] && buf.Length == len
    {
      buf := new Byte[len](_ => 0);
      cur := HEADER_SIZE;
    }

    /** One bounds check and one copy. */
    method Put(s: seq<Byte>) returns (ok: bool)
      requires Valid()
      modifies this, buf
      ensures Valid() && ok == (|old(Payload())| + |s| <= Room())
      ensures Payload() == Append(Room(), old(Payload()), s) && buf[..HEADER_SIZE] == old(buf[..HEADER_SIZE])
    {
      if cur + |s| > buf.Length { return false; }
      for i := 0 to |s|
        invariant cur == old(cur) && buf[HEADER_SIZE..cur + i] == old(Payload()) + s[..i]
        invariant buf[..HEADER_SIZE] == old(buf[..HEADER_SIZE])
      {
        buf[cur + i] := s[i];
      }
      cur := cur + |s|;
      return true;
    }

    /** Stores the size in the header, the high byte first. */
    method Flush()
      requires Valid()
      modifies buf
      ensures Valid() && Payload() == old(Payload()) && Current()
      ensures HighFirst(buf[..4], cur % 0x1_0000_0000)
    {
      IntBytes(cur);
      var size := EncodeInt(cur);
      buf[0], buf[1], buf[2], buf[3] := size[0], size[1], size[2], size[3];
    }

    /** The operators `<<` of the numbers: written whole, the high byte first, or not at all. */
    method PutNumber(v: Value)
      requires Valid() && (v.Char? || v.Short? || v.Int? || v.Float?)
      modifies this, buf
      ensures Valid() && Payload() == Append(Room(), old(Payload()), Encode(v))
      ensures cur != old(cur) ==> Current()
      ensures buf[..HEADER_SIZE] == old(buf[..HEADER_SIZE]) || cur != old(cur)
      ensures match v
              case Char(c) => |old(Payload())| + 1 <= Room() ==> buf[old(cur)..cur] == [c]
              case Short(s) => |old(Payload())| + 2 <= Room() ==> HighFirst(buf[old(cur)..cur], s % 0x1_0000)
              case Int(i) => |old(Payload())| + 4 <= Room() ==> HighFirst(buf[old(cur)..cur], i % 0x1_0000_0000)
              case Float(b) => |old(Payload())| + 4 <= Room() && b < 0x1_0000_0000 ==> HighFirst(buf[old(cur)..cur], b)
              case _ => true
    {
      ghost var was := Payload();
      NumberBytes(v);
      var ok := Put(Encode(v));
      if ok {
        assert buf[old(cur)..cur] == Payload()[|was|..] == Encode(v);
        Flush();
        assert buf[old(cur)..cur] == Payload()[|was|..];
      }
    }

    /** As much of the string as its length, cast to a short, says. */
    method PutString(str: seq<Byte>)
      requires Valid() && 0 <= AsShort(|str|)
      modifies this, buf
      ensures Valid() && Payload() == Append(Room(), old(Payload()), Encode(String(str)))
      ensures old(cur) <= cur && (old(Current()) || cur != old(cur) ==> Current())
    {
      var length := AsShort(|str|);
      CastFirst(|str|);
      assert EncodeShort(length) + str[..length] == Encode(String(str));
      var ok := Put(EncodeShort(length) + str[..length]);
      if ok { Flush(); }
    }

    /** The operators `<<`, by the shape of their operand. */
    method PutValue(v: Value)
      requires Valid() && Sendable(v)
      modifies this, buf
      ensures Valid() && Payload() == Into(Room(), old(Payload()), v)
      ensures old(cur) <= cur && (old(Current()) || cur != old(cur) ==> Current())
      decreases v, 0
    {
      match v
      case Long(l) =>
        var ok := Put(EncodeInt(High(l)));
        ok := Put(EncodeInt(Low(l)));
        Flush();
      case Vector(items) =>
        var ok := Put(EncodeShort(|items|));
        PutAll(items);
        Flush();
      case Struct(ms) => PutAll(ms);
      case String(str) => PutString(str);
      case _ => PutNumber(v);
    }

    /** Every element of a vector, or every field of a struct. */
    method PutAll(vs: seq<Value>)
      requires Valid() && AllSendable(vs)
      modifies this, buf
      ensures Valid() && Payload() == IntoAll(Room(), old(Payload()), vs)
      ensures old(cur) <= cur && (old(Current()) || cur != old(cur) ==> Current())
      decreases vs, 1
    {
      assert vs[0..] == vs;
      for i := 0 to |vs|
        invariant Valid() && AllSendable(vs[i..])
        invariant IntoAll(Room(), Payload(), vs[i..]) == IntoAll(Room(), old(Payload()), vs)
        invariant old(cur) <= cur && (old(Current()) || cur != old(cur) ==> Current())
      {
        assert vs[i..][1..] == vs[i + 1..];
        PutValue(vs[i]);
      }
    }

    /** WriteVector: nothing but the result false if the length does not fit. */
    method WriteVector(items: seq<Value>) returns (ok: bool)
      requires Valid() && AllSendable(items)
      modifies this, buf
      ensures Valid() && ok == (|old(Payload())| + 2 <= Room())
      ensures Payload() == if ok then Into(Room(), old(Payload()), Vector(items)) else old(Payload())
      ensures |old(Payload())| + 2 < |Payload()| ==> Current()
    {
      ok := Put(EncodeShort(|items|));
      if ok { PutAll(items); }
    }

    /** Pack of a message. */
    method PackMessage(id: int, fields: seq<Value>)
      requires Valid() && AllSendable(fields)
      modifies this, buf
      ensures Valid() && Payload() == IntoAll(Room(), old(Payload()), [Int(id)] + fields)
      ensures old(cur) <= cur && (old(Current()) || cur != old(cur) ==> Current())
    {
      assert ([Int(id)] + fields)[1..] == fields;
      PutValue(Int(id));
      PutAll(fields);
    }
  }

  /** BinaryReadStream over the payload `data`. */
  class ReadStream {
    const data: seq<Byte>
    const junk: Junk
    var cur: nat

    ghost predicate Valid()
      reads this
    {
      cur <= |data|
    }

    ghost function Rest(): seq<Byte>
      requires Valid()
      reads this
    {
      data[cur..]
    }

    /** `bytes` is what a write stream holds; reading starts behind its header. */
    constructor (bytes: seq<Byte>, junk: Junk)
      requires |bytes| >= HEADER_SIZE
      ensures Valid() && Rest() == bytes[HEADER_SIZE..] && this.junk == junk
    {
      data, this.junk := bytes, junk;
      cur := HEADER_SIZE;
    }

    /** The next `n` bytes, if there are as many. */
    method Take(n: nat) returns (ok: bool, s: seq<Byte>)
      requires Valid()
      modifies this
      ensures Valid() && ok == (n <= |old(Rest())|)
      ensures if ok then s == old(Rest())[..n] && Rest() == old(Rest())[n..] else s == [] && Rest() == old(Rest())
    {
      if cur + n > |data| { return false, []; }
      s := data[cur..cur + n];
      cur := cur + n;
      ok := true;
    }

    /** The operators `>>`, by the type of their operand, which holds `had`. `ok` is false if what
        happens is undefined. */
    method GetValue(t: Type, had: Value) returns (ok: bool, v: Value)
      requires Valid()
      modifies this
      ensures Valid()
      ensures match Load(junk, t, old(Rest()), had)
              case None => !ok
              case Some((w, rest)) => ok && v == w && Rest() == rest
      decreases t, 0
    {
      var s;
      ok, v := true, had;
      match t
      case TLong => v := GetLong(had);
      case TString => ok, v := GetString(had);
      case TVector(e) =>
        ok, s := Take(2);
        if ok {
          var n := DecodeShort(s);
          var items := [];
          if 0 <= n <= MOST { ok, items := GetMany(e, n); }
          v := Vector(items);
        }
      case TStruct(ts) =>
        var ms;
        ok, ms := GetAll(ts, Members(junk, ts, had));
        v := Struct(ms);
      case _ => v := GetNumber(t, had);
    }

    /** The operators `>>` of the numbers: the high byte comes first. */
    method GetNumber(t: Type, had: Value) returns (v: Value)
      requires Valid() && (t.TChar? || t.TShort? || t.TInt? || t.TFloat?)
      modifies this
      ensures Valid() && Load(junk, t, old(Rest()), had) == Some((v, Rest()))
      ensures var s := old(Rest());
        match t
        case TChar => |s| >= 1 ==> v == Char(s[0])
        case TShort => |s| >= 2 ==> v.Short? && InRange(v.s, 0x8000) && HighFirst(s[..2], v.s % 0x1_0000)
        case TInt => |s| >= 4 ==> v.Int? && InRange(v.i, 0x8000_0000) && HighFirst(s[..4], v.i % 0x1_0000_0000)
        case TFloat => |s| >= 4 ==> v.Float? && HighFirst(s[..4], v.bits)
        case _ => true
    {
      v := had;
      if t == TChar {
        var ok, s := Take(1);
        if ok { v := Char(s[0]); }
      } else if t == TShort {
        var ok, s := Take(2);
        if ok {
          v := Short(DecodeShort(s));
          ReadBytes(s);
        }
      } else {
        var ok, s := Take(4);
        if ok {
          v := if t == TInt then Int(DecodeInt(s)) else Float(FromBig(s));
          ReadBytes(s);
        }
      }
    }

    /** Two ints; the first is gone even if the second is missing. */
    method GetLong(had: Value) returns (v: Value)
      requires Valid()
      modifies this
      ensures Valid() && Load(junk, TLong, old(Rest()), had) == Some((v, Rest()))
    {
      ghost var all := Rest();
      v := had;
      var ok, high := Take(4);
      if !ok { return; }
      var low;
      ok, low := Take(4);
      if !ok { return; }
      assert high == all[..4] && low == all[4..8];
      v := Long(Join(DecodeInt(high), DecodeInt(low)));
    }

    method GetString(had: Value) returns (ok: bool, v: Value)
      requires Valid()
      modifies this
      ensures Valid()
      ensures match Load(junk, TString, old(Rest()), had)
              case None => !ok
              case Some((w, rest)) => ok && v == w && Rest() == rest
    {
      ghost var all := Rest();
      v := had;
      var enough, s := Take(2);
      if !enough { return true, v; }
      var str;
      ok, str := Take(FromBig(s));
      if ok {
        assert str == all[2..2 + |str|] && Rest() == all[2 + |str|..];
        v := String(str);
      }
    }

    /** The loop over the elements of a vector, which reads all of them into one variable. */
    method GetMany(e: Type, n: nat) returns (ok: bool, items: seq<Value>)
      requires Valid()
      modifies this
      ensures Valid()
      ensures match LoadMany(junk, e, n, old(Rest()), Fresh(junk, e))
              case None => !ok
              case Some((vs, rest)) => ok && items == vs && Rest() == rest
      decreases e, n + 1
    {
      items := [];
      var temp := Fresh(junk, e);
      ghost var all := LoadMany(junk, e, n, Rest(), temp);
      OntoNothing(all);
      for i := 0 to n
        invariant Valid() && |items| == i
        invariant all == Onto(items, LoadMany(junk, e, n - i, Rest(), temp))
      {
        ghost var before, had, was := Rest(), items, temp;
        ok, temp := GetValue(e, temp);
        OntoMany(had, junk, e, n - i, before, was);
        if !ok { return false, items; }
        items := items + [temp];
      }
      ok := true;
    }

    /** The chain of operators over the fields of a struct, which hold `hads`. */
    method GetAll(ts: seq<Type>, hads: seq<Value>) returns (ok: bool, ms: seq<Value>)
      requires Valid() && |hads| == |ts|
      modifies this
      ensures Valid()
      ensures match LoadAll(junk, ts, old(Rest()), hads)
              case None => !ok
              case Some((vs, rest)) => ok && ms == vs && Rest() == rest
      decreases ts, 1
    {
      ms := [];
      ghost var all := LoadAll(junk, ts, Rest(), hads);
      OntoNothing(all);
      assert ts[0..] == ts && hads[0..] == hads;
      for i := 0 to |ts|
        invariant Valid() && |ms| == i
        invariant all == Onto(ms, LoadAll(junk, ts[i..], Rest(), hads[i..]))
      {
        ghost var before, had := Rest(), ms;
        var v;
        ok, v := GetValue(ts[i], hads[i]);
        OntoAll(had, junk, ts[i..], before, hads[i..]);
        assert ts[i..][1..] == ts[i + 1..] && hads[i..][1..] == hads[i + 1..];
        if !ok { return false, ms; }
        ms := ms + [v];
      }
      ok := true;
    }

    /** ReadVector, without the cap of the operator. */
    method GetVector(e: Type) returns (ok: bool, items: seq<Value>)
      requires Valid()
      modifies this
      ensures Valid()
      ensures match LoadVector(junk, e, old(Rest()))
              case None => !ok
              case Some((vs, rest)) => ok && items == vs && Rest() == rest
    {
      var s;
      items := [];
      ok, s := Take(2);
      if ok {
        var n := DecodeShort(s);
        ok, items := GetMany(e, if n < 0 then 0 else n);
      }
    }
  }

  lemma NumberBytes(v: Value)
    ensures v.Short? ==> HighFirst(Encode(v), v.s % 0x1_0000)
    ensures v.Int? ==> HighFirst(Encode(v), v.i % 0x1_0000_0000)
    ensures v.Float? && v.bits < 0x1_0000_0000 ==> HighFirst(Encode(v), v.bits)
  {
    match v
    case Short(s) => ShortBytes(s);
    case Int(i) => IntBytes(i);
    case Float(bits) => if bits < 0x1_0000_0000 { FourBytes(bits); }
    case _ =>
  }

  lemma ReadBytes(s: seq<Byte>)
    ensures |s| == 2 ==> HighFirst(s, DecodeShort(s) % 0x1_0000) && InRange(DecodeShort(s), 0x8000)
    ensures |s| == 4 ==> HighFirst(s, DecodeInt(s) % 0x1_0000_0000) && InRange(DecodeInt(s), 0x8000_0000)
    ensures |s| == 4 ==> HighFirst(s, FromBig(s))
  {
    if |s| == 2 { ShortFromBytes(s); }
    if |s| == 4 {
      FromFourBytes(s);
      IntFromBytes(s);
      Digits(s, FromBig(s));
    }
  }

  lemma Digits(s: seq<Byte>, u: nat)
    requires |s| == 4 && u == s[0] as int * 0x100_0000 + s[1] as int * 0x1_0000 + s[2] as int * 0x100 + s[3]
    ensures HighFirst(s, u)
  {
    var a := s[0] as int * 0x100 + s[1];
    var b := a * 0x100 + s[2];
    assert u == b * 0x100 + s[3];
    assert u / 0x100 == b && u / 0x1_0000 == a && u / 0x100_0000 == s[0];
  }

  /** The values read so far, put in front of what is still to be read. */
  ghost function Onto(had: seq<Value>, r: Option<(seq<Value>, seq<Byte>)>): Option<(seq<Value>, seq<Byte>)> {
    if r.None? then None else Some((had + r.value.0, r.value.1))
  }

  lemma OntoNothing(r: Option<(seq<Value>, seq<Byte>)>)
    ensures Onto([], r) == r
  {
    if r.Some? { assert [] + r.value.0 == r.value.0; }
  }

  lemma OntoMany(had: seq<Value>, junk: Junk, e: Type, n: nat, s: seq<Byte>, temp: Value)
    requires n > 0
    ensures var r := Load(junk, e, s, temp);
      Onto(had, LoadMany(junk, e, n, s, temp)) ==
        if r.None? then None else Onto(had + [r.value.0], LoadMany(junk, e, n - 1, r.value.1, r.value.0))
  {
    var r := Load(junk, e, s, temp);
    if r.Some? {
      var more := LoadMany(junk, e, n - 1, r.value.1, r.value.0);
      if more.Some? { assert had + ([r.value.0] + more.value.0) == had + [r.value.0] + more.value.0; }
    }
  }

  lemma OntoAll(had: seq<Value>, junk: Junk, ts: seq<Type>, s: seq<Byte>, hads: seq<Value>)
    requires ts != [] && |hads| == |ts|
    ensures var r := Load(junk, ts[0], s, hads[0]);
      Onto(had, LoadAll(junk, ts, s, hads)) ==
        if r.None? then None else Onto(had + [r.value.0], LoadAll(junk, ts[1..], r.value.1, hads[1..]))
  {
    var r := Load(junk, ts[0], s, hads[0]);
    if r.Some? {
      var more := LoadAll(junk, ts[1..], r.value.1, hads[1..]);
      if more.Some? { assert had + ([r.value.0] + more.value.0) == had + [r.value.0] + more.value.0; }
    }
  }

  lemma {:induction false} HasSendable(v: Value, t: Type)
    requires Has(v, t)
    ensures Sendable(v)
    decreases v, 0
  {
    match v
    case Vector(items) => AllHaveSendable(items, t.elem);
    case Struct(ms) => MatchSendable(ms, t.fields);
    case _ =>
  }

  lemma {:induction false} AllHaveSendable(vs: seq<Value>, e: Type)
    requires AllHave(vs, e)
    ensures AllSendable(vs)
    decreases vs, 1
  {
    if vs == [] {
    } else {
      HasSendable(vs[0], e);
      AllHaveSendable(vs[1..], e);
    }
  }

  lemma {:induction false} MatchSendable(vs: seq<Value>, ts: seq<Type>)
    requires Match(vs, ts)
    ensures AllSendable(vs)
    decreases vs, 1
  {
    if vs == [] {
    } else {
      HasSendable(vs[0], ts[0]);
      MatchSendable(vs[1..], ts[1..]);
    }
  }

  /** A value written to one stream and read from another, into a variable that held `had`: it comes back
      whole, with nothing left over, if and only if its parts are kept. */
  method Transfer(len: nat, junk: Junk, v: Value, t: Type, had: Value) returns (ok: bool, w: Value, rest: nat)
    requires Has(v, t) && HEADER_SIZE <= len
    ensures var room := len - HEADER_SIZE;
      (ok && w == v && rest == 0) <==> Kept(junk, room, [], |Into(room, [], v)|, t, v, had)
  {
    HasSendable(v, t);
    BufferRoundTripIff(junk, len - HEADER_SIZE, v, t, had);
    var out := new WriteStream(len);
    out.PutValue(v);
    var back := new ReadStream(out.buf[..out.cur], junk);
    assert back.Rest() == out.Payload();
    ok, w := back.GetValue(t, had);
    rest := |back.data| - back.cur;
  }
}
