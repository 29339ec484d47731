/** Reading into variables: what they hold afterwards, also when the data run out. */
module NetLoad {
  import opened Bytes
  import opened Options
  import opened NetCodec

  /** What an uninitialized variable of a type happens to hold. */
  type Junk = Type -> Value

  /** A variable of type `t` before anything is read into it: strings and vectors start empty. */
  function Fresh(junk: Junk, t: Type): Value
    decreases t, 0
  {
    match t
    case TString => String([])
    case TVector(_) => Vector([])
    case TStruct(ts) => Struct(FreshAll(junk, ts))
    case _ => junk(t)
  }

  function FreshAll(junk: Junk, ts: seq<Type>): (r: seq<Value>)
    ensures |r| == |ts|
    decreases ts, 1
  {
    if ts == [] then [] else [Fresh(junk, ts[0])] + FreshAll(junk, ts[1..])
  }

  /** The fields of a struct variable that holds `had`. */
  function Members(junk: Junk, ts: seq<Type>, had: Value): (r: seq<Value>)
    ensures |r| == |ts|
  {
    if had.Struct? && |had.members| == |ts| then had.members else FreshAll(junk, ts)
  }

  /** What a variable that held `had` holds after reading, and the bytes left. A number without enough
      data, and a string without a length, keep their value, and reading goes on. None: the length of a
      vector is missing and stays uninitialized, or a string is longer than the data. */
  function Load(junk: Junk, t: Type, s: seq<Byte>, had: Value): Option<(Value, seq<Byte>)>
    decreases t, 0
  {
    match t
    case TChar => if |s| < 1 then Some((had, s)) else Decode(t, s)
    case TShort => if |s| < 2 then Some((had, s)) else Decode(t, s)
    case TInt => if |s| < 4 then Some((had, s)) else Decode(t, s)
    case TFloat => if |s| < 4 then Some((had, s)) else Decode(t, s)
    case TLong => if |s| < 4 then Some((had, s)) else if |s| < 8 then Some((had, s[4..])) else Decode(t, s)
    case TString => if |s| < 2 then Some((had, s)) else Decode(t, s)
    case TVector(e) =>
      if |s| < 2 then None
      else
        var n := DecodeShort(s[..2]);
        if n < 0 || n > MOST then Some((Vector([]), s[2..]))
        else
          (match LoadMany(junk, e, n, s[2..], Fresh(junk, e))
           case None => None
           case Some((vs, rest)) => Some((Vector(vs), rest)))
    case TStruct(ts) =>
      (match LoadAll(junk, ts, s, Members(junk, ts, had))
       case None => None
       case Some((vs, rest)) => Some((Struct(vs), rest)))
  }

  /** The loop over the elements, all read into the same variable, which holds `had` before. */
  function LoadMany(junk: Junk, e: Type, n: nat, s: seq<Byte>, had: Value): (r: Option<(seq<Value>, seq<Byte>)>)
    ensures r.Some? ==> |r.value.0| == n
    decreases e, n + 1
  {
    if n == 0 then Some(([], s))
    else
      match Load(junk, e, s, had)
      case None => None
      case Some((v, rest)) =>
        match LoadMany(junk, e, n - 1, rest, v)
        case None => None
        case Some((vs, after)) => Some(([v] + vs, after))
  }

  function LoadAll(junk: Junk, ts: seq<Type>, s: seq<Byte>, hads: seq<Value>): (r: Option<(seq<Value>, seq<Byte>)>)
    requires |hads| == |ts|
    ensures r.Some? ==> |r.value.0| == |ts|
    decreases ts, 1
  {
    if ts == [] then Some(([], s))
    else
      match Load(junk, ts[0], s, hads[0])
      case None => None
      case Some((v, rest)) =>
        match LoadAll(junk, ts[1..], rest, hads[1..])
        case None => None
        case Some((vs, after)) => Some(([v] + vs, after))
  }

  /** ReadVector has no cap. */
  function LoadVector(junk: Junk, e: Type, s: seq<Byte>): Option<(seq<Value>, seq<Byte>)> {
    if |s| < 2 then None
    else
      var n := DecodeShort(s[..2]);
      LoadMany(junk, e, if n < 0 then 0 else n, s[2..], Fresh(junk, e))
  }

  // ------------------------------------------------------------------ enough data

  /** As long as the data do not run out, what variables held before does not matter. */
  lemma {:induction false} LoadIsDecode(junk: Junk, t: Type, s: seq<Byte>, had: Value)
    requires Decode(t, s).Some?
    ensures Load(junk, t, s, had) == Decode(t, s)
    decreases t, 0
  {
    match t
    case TVector(e) =>
      var n := DecodeShort(s[..2]);
      if 0 <= n <= MOST { LoadManyIsDecode(junk, e, n, s[2..], Fresh(junk, e)); }
    case TStruct(ts) => LoadAllIsDecode(junk, ts, s, Members(junk, ts, had));
    case _ =>
  }

  lemma {:induction false} LoadManyIsDecode(junk: Junk, e: Type, n: nat, s: seq<Byte>, had: Value)
    requires DecodeMany(e, n, s).Some?
    ensures LoadMany(junk, e, n, s, had) == DecodeMany(e, n, s)
    decreases e, n + 1
  {
    if n == 0 {
    } else {
      LoadIsDecode(junk, e, s, had);
      LoadManyIsDecode(junk, e, n - 1, Decode(e, s).value.1, Decode(e, s).value.0);
    }
  }

  lemma {:induction false} LoadAllIsDecode(junk: Junk, ts: seq<Type>, s: seq<Byte>, hads: seq<Value>)
    requires |hads| == |ts| && DecodeAll(ts, s).Some?
    ensures LoadAll(junk, ts, s, hads) == DecodeAll(ts, s)
    decreases ts, 1
  {
    if ts == [] {
    } else {
      LoadIsDecode(junk, ts[0], s, hads[0]);
      LoadAllIsDecode(junk, ts[1..], Decode(ts[0], s).value.1, hads[1..]);
    }
  }

  /** ReadVector reads what WriteVector wrote as a prefix, with the cursor before the first element left
      out: of n elements n mod 65536, if that is below 32768, and otherwise none. */
  lemma ReadVectorReadsPrefix(junk: Junk, items: seq<Value>, e: Type, z: seq<Byte>)
    requires AllHave(items, e) && AllFaithful(items)
    ensures var k: nat := if |items| % 0x1_0000 < 0x8000 then |items| % 0x1_0000 else 0;
      LoadVector(junk, e, Encode(Vector(items)) + z) == Some((items[..k], EncodeAll(items[k..]) + z))
  {
    var k: nat := if |items| % 0x1_0000 < 0x8000 then |items| % 0x1_0000 else 0;
    var rest := EncodeAll(items[k..]) + z;
    PrefixKept(items, e, k);
    VectorHead(items, z);
    SplitEncoding(items, k, z);
    ManyExact(items[..k], e, rest);
    LoadManyIsDecode(junk, e, k, EncodeAll(items[..k]) + rest, Fresh(junk, e));
  }

  /** ReadVector gives back what WriteVector wrote if and only if the size is a short. */
  lemma ReadVectorIff(junk: Junk, items: seq<Value>, e: Type, z: seq<Byte>)
    requires AllHave(items, e) && AllFaithful(items)
    ensures LoadVector(junk, e, Encode(Vector(items)) + z) == Some((items, z)) <==> |items| < 0x8000
  {
    ReadVectorReadsPrefix(junk, items, e, z);
    if |items| < 0x8000 { assert items[..|items|] == items && EncodeAll(items[|items|..]) + z == z; }
  }

  /** A faithful value is read back whatever the variable held and whatever follows. */
  lemma LoadsBack(junk: Junk, v: Value, t: Type, z: seq<Byte>, had: Value)
    requires Has(v, t) && Faithful(v)
    ensures Load(junk, t, Encode(v) + z, had) == Some((v, z))
  {
    ValueExact(v, t, z);
    LoadIsDecode(junk, t, Encode(v) + z, had);
  }

  // ------------------------------------------------------------------ round trip

  lemma {:induction false} LoadExact(junk: Junk, v: Value, t: Type, z: seq<Byte>, had: Value)
    requires Has(v, t)
    ensures Exact(Load(junk, t, Encode(v) + z, had), v, z, Faithful(v))
    decreases v, 0
  {
    if Faithful(v) {
      LoadsBack(junk, v, t, z, had);
    } else {
      match v
      case Long(l) =>
        LongExact(l, z);
        LoadIsDecode(junk, t, Encode(v) + z, had);
      case String(str) =>
        StringExact(str, z);
        LoadIsDecode(junk, t, Encode(v) + z, had);
      case Vector(items) =>
        VectorHead(items, z);
        if |items| <= MOST {
          ShortRoundTrip(|items|);
          LoadManyExact(junk, items, t.elem, z, Fresh(junk, t.elem));
        }
      case Struct(ms) => LoadAllExact(junk, ms, t.fields, z, Members(junk, t.fields, had));
    }
  }

  lemma {:induction false} LoadManyExact(junk: Junk, vs: seq<Value>, e: Type, z: seq<Byte>, had: Value)
    requires AllHave(vs, e)
    ensures Exact(LoadMany(junk, e, |vs|, EncodeAll(vs) + z, had), vs, z, AllFaithful(vs))
    decreases vs, 1
  {
    if vs == [] {
      assert EncodeAll(vs) + z == z;
    } else {
      HeadAndTail(vs, z);
      LoadExact(junk, vs[0], e, EncodeAll(vs[1..]) + z, had);
      LoadManyExact(junk, vs[1..], e, z, vs[0]);
    }
  }

  lemma {:induction false} LoadAllExact(junk: Junk, vs: seq<Value>, ts: seq<Type>, z: seq<Byte>, hads: seq<Value>)
    requires Match(vs, ts) && |hads| == |ts|
    ensures Exact(LoadAll(junk, ts, EncodeAll(vs) + z, hads), vs, z, AllFaithful(vs))
    decreases vs, 1
  {
    if vs == [] {
      assert EncodeAll(vs) + z == z;
    } else {
      HeadAndTail(vs, z);
      LoadExact(junk, vs[0], ts[0], EncodeAll(vs[1..]) + z, hads[0]);
      LoadAllExact(junk, vs[1..], ts[1..], z, hads[1..]);
    }
  }

  /** A value of any shape reads back, with the cursor right behind it, if and only if it has no string of
      32768 bytes or more, no vector of more than 1000 elements and no long long whose low half is
      negative under a high half other than -1; what the variable held does not matter. */
  lemma RoundTripIff(junk: Junk, v: Value, t: Type, z: seq<Byte>, had: Value)
    requires Has(v, t)
    ensures Load(junk, t, Encode(v) + z, had) == Some((v, z)) <==> Faithful(v)
  {
    LoadExact(junk, v, t, z, had);
  }

  /** Reading the id first, and then the fields, gives both back if and only if the fields are faithful. */
  lemma MessageRoundTrip(junk: Junk, id: int, fields: seq<Value>, ts: seq<Type>, z: seq<Byte>, had: Value, hads: seq<Value>)
    requires InRange(id, 0x8000_0000) && Match(fields, ts) && |hads| == |ts|
    ensures Load(junk, TInt, PackMessage(id, fields) + z, had) == Some((Int(id), EncodeAll(fields) + z))
    ensures LoadAll(junk, ts, EncodeAll(fields) + z, hads) == Some((fields, z)) <==> AllFaithful(fields)
  {
    var rest := EncodeAll(fields) + z;
    assert PackMessage(id, fields) + z == Encode(Int(id)) + rest;
    LoadsBack(junk, Int(id), TInt, rest, had);
    LoadAllExact(junk, fields, ts, z, hads);
  }
}
