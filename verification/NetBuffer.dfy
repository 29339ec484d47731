/** Values through a buffer of fixed size: writes that do not fit are dropped. */
module NetBuffer {
  import opened Bytes
  import opened Options
  import opened NetCodec
  import opened NetLoad

  /** One write: all of `s` if there is room for it, and otherwise nothing. */
  function Append(room: nat, p: seq<Byte>, s: seq<Byte>): seq<Byte> {
    if |p| + |s| <= room then p + s else p
  }

  /** The payload after writing `v` behind `p`: each single write that does not fit is dropped, and the
      writes after it go on. */
  function Into(room: nat, p: seq<Byte>, v: Value): seq<Byte>
    decreases v, 0
  {
    match v
    case Long(l) => Append(room, Append(room, p, EncodeInt(High(l))), EncodeInt(Low(l)))
    case Vector(items) => IntoAll(room, Append(room, p, EncodeShort(|items|)), items)
    case Struct(ms) => IntoAll(room, p, ms)
    case _ => Append(room, p, Encode(v))
  }

  function IntoAll(room: nat, p: seq<Byte>, vs: seq<Value>): seq<Byte>
    decreases vs, 1
  {
    if vs == [] then p else IntoAll(room, Into(room, p, vs[0]), vs[1..])
  }

  /** `q` is `p` with `s` behind it if that fits in `room`, and with less than that otherwise. */
  ghost predicate Fills(room: nat, p: seq<Byte>, s: seq<Byte>, q: seq<Byte>) {
    p <= q && if |p| + |s| <= room then q == p + s else |q| <= room
  }

  lemma FillsTwice(room: nat, p: seq<Byte>, s: seq<Byte>, q: seq<Byte>, z: seq<Byte>, r: seq<Byte>)
    requires |p| <= room && Fills(room, p, s, q) && Fills(room, q, z, r)
    ensures Fills(room, p, s + z, r)
  {
    Regroup(p, s, z);
  }

  lemma {:induction false} IntoFills(room: nat, p: seq<Byte>, v: Value)
    requires |p| <= room
    ensures Fills(room, p, Encode(v), Into(room, p, v))
    decreases v, 0
  {
    match v
    case Long(l) =>
      var q := Append(room, p, EncodeInt(High(l)));
      FillsTwice(room, p, EncodeInt(High(l)), q, EncodeInt(Low(l)), Into(room, p, v));
    case Vector(items) =>
      var q := Append(room, p, EncodeShort(|items|));
      IntoAllFills(room, q, items);
      FillsTwice(room, p, EncodeShort(|items|), q, EncodeAll(items), Into(room, p, v));
    case Struct(ms) => IntoAllFills(room, p, ms);
    case _ =>
  }

  lemma {:induction false} IntoAllFills(room: nat, p: seq<Byte>, vs: seq<Value>)
    requires |p| <= room
    ensures Fills(room, p, EncodeAll(vs), IntoAll(room, p, vs))
    decreases vs, 1
  {
    if vs == [] {
      assert p + [] == p;
    } else {
      var q := Into(room, p, vs[0]);
      IntoFills(room, p, vs[0]);
      IntoAllFills(room, q, vs[1..]);
      FillsTwice(room, p, Encode(vs[0]), q, EncodeAll(vs[1..]), IntoAll(room, p, vs));
    }
  }

  // ------------------------------------------------------------------ what survives

  /** `v`, written behind `p`, comes back into a variable that held `had`, if the payload has `full` bytes
      in the end. A part that fits must be faithful. A part that does not fit must be what the variable
      holds already; and for a string, fewer than two bytes may follow, or they are taken for its length.
      The length of a vector must fit. Its elements are read into one variable, so that each finds the
      one before it there. */
  ghost predicate Kept(junk: Junk, room: nat, p: seq<Byte>, full: nat, t: Type, v: Value, had: Value)
    requires Has(v, t)
    decreases v, 0
  {
    match v
    case Long(l) => if |p| + 8 <= room then LongSurvives(l) else had == v
    case String(str) =>
      if |p| + |Encode(v)| <= room then |str| < 0x8000 else full - |p| < 2 && had == v
    case Vector(items) =>
      && |p| + 2 <= room && |items| <= MOST
      && ManyKept(junk, room, p + EncodeShort(|items|), full, t.elem, items, Fresh(junk, t.elem))
    case Struct(ms) => AllKept(junk, room, p, full, t.fields, ms, Members(junk, t.fields, had))
    case _ => |p| + |Encode(v)| <= room || had == v
  }

  ghost predicate ManyKept(junk: Junk, room: nat, p: seq<Byte>, full: nat, e: Type, vs: seq<Value>, had: Value)
    requires AllHave(vs, e)
    decreases vs, 1
  {
    vs == [] ||
    (Kept(junk, room, p, full, e, vs[0], had) && ManyKept(junk, room, Into(room, p, vs[0]), full, e, vs[1..], vs[0]))
  }

  ghost predicate AllKept(junk: Junk, room: nat, p: seq<Byte>, full: nat, ts: seq<Type>, vs: seq<Value>, hads: seq<Value>)
    requires Match(vs, ts) && |hads| == |ts|
    decreases vs, 1
  {
    vs == [] ||
    (Kept(junk, room, p, full, ts[0], vs[0], hads[0]) &&
     AllKept(junk, room, Into(room, p, vs[0]), full, ts[1..], vs[1..], hads[1..]))
  }

  /** What writing `v` behind `p` adds. */
  function Added(room: nat, p: seq<Byte>, v: Value): seq<Byte>
    requires |p| <= room
  {
    IntoFills(room, p, v);
    Into(room, p, v)[|p|..]
  }

  function AllAdded(room: nat, p: seq<Byte>, vs: seq<Value>): seq<Byte>
    requires |p| <= room
  {
    IntoAllFills(room, p, vs);
    IntoAll(room, p, vs)[|p|..]
  }

  lemma NumberKept(junk: Junk, room: nat, p: seq<Byte>, full: nat, v: Value, t: Type, z: seq<Byte>, had: Value)
    requires Has(v, t) && (v.Char? || v.Short? || v.Int? || v.Float?)
    requires |p| <= room && |Into(room, p, v)| + |z| == full <= room
    ensures Exact(Load(junk, t, Added(room, p, v) + z, had), v, z, Kept(junk, room, p, full, t, v, had))
  {
    if |p| + |Encode(v)| <= room {
      assert Added(room, p, v) == Encode(v);
      LoadsBack(junk, v, t, z, had);
    } else {
      assert Added(room, p, v) + z == z;
    }
  }

  lemma LongKept(junk: Junk, room: nat, p: seq<Byte>, full: nat, v: Value, z: seq<Byte>, had: Value)
    requires Has(v, TLong)
    requires |p| <= room && |Into(room, p, v)| + |z| == full <= room
    ensures Exact(Load(junk, TLong, Added(room, p, v) + z, had), v, z, Kept(junk, room, p, full, TLong, v, had))
  {
    if |p| + 8 <= room {
      assert Added(room, p, v) == Encode(v);
      LoadExact(junk, v, TLong, z, had);
    } else if |p| + 4 <= room {
      var s := EncodeInt(High(v.l)) + z;
      assert Added(room, p, v) == EncodeInt(High(v.l));
      assert 4 <= |s| < 8 && s[4..] == z;
    } else {
      assert Added(room, p, v) + z == z;
    }
  }

  lemma StringKept(junk: Junk, room: nat, p: seq<Byte>, full: nat, v: Value, z: seq<Byte>, had: Value)
    requires Has(v, TString)
    requires |p| <= room && |Into(room, p, v)| + |z| == full <= room
    ensures Exact(Load(junk, TString, Added(room, p, v) + z, had), v, z, Kept(junk, room, p, full, TString, v, had))
  {
    if |p| + |Encode(v)| <= room {
      assert Added(room, p, v) == Encode(v);
      LoadExact(junk, v, TString, z, had);
    } else {
      assert Added(room, p, v) + z == z;
      assert |z| < 2 + |Sent(v.str)|;
    }
  }

  lemma {:induction false} VectorKept(junk: Junk, room: nat, p: seq<Byte>, full: nat, v: Value, t: Type, z: seq<Byte>, had: Value)
    requires Has(v, t) && v.Vector?
    requires |p| <= room && |Into(room, p, v)| + |z| == full <= room
    ensures Exact(Load(junk, t, Added(room, p, v) + z, had), v, z, Kept(junk, room, p, full, t, v, had))
    decreases v, 0
  {
    var head := EncodeShort(|v.items|);
    var q := Append(room, p, head);
    IntoAllFills(room, q, v.items);
    if |p| + 2 <= room {
      var s := head + (AllAdded(room, q, v.items) + z);
      assert Added(room, p, v) + z == s;
      assert s[..2] == head && s[2..] == AllAdded(room, q, v.items) + z;
      ShortRoundTrip(|v.items|);
      if |v.items| <= MOST {
        ManyKeptExact(junk, room, q, full, v.items, t.elem, z, Fresh(junk, t.elem));
      }
    } else {
      assert |Added(room, p, v) + z| < 2;
    }
  }

  lemma {:induction false} KeptExact(junk: Junk, room: nat, p: seq<Byte>, full: nat, v: Value, t: Type, z: seq<Byte>, had: Value)
    requires Has(v, t)
    requires |p| <= room && |Into(room, p, v)| + |z| == full <= room
    ensures Exact(Load(junk, t, Added(room, p, v) + z, had), v, z, Kept(junk, room, p, full, t, v, had))
    decreases v, 1
  {
    match v
    case Long(_) => LongKept(junk, room, p, full, v, z, had);
    case String(_) => StringKept(junk, room, p, full, v, z, had);
    case Vector(_) => VectorKept(junk, room, p, full, v, t, z, had);
    case Struct(ms) => AllKeptExact(junk, room, p, full, ms, t.fields, z, Members(junk, t.fields, had));
    case _ => NumberKept(junk, room, p, full, v, t, z, had);
  }

  /** What the first of several values adds, and the rest behind it. */
  lemma AddedInTurn(room: nat, p: seq<Byte>, vs: seq<Value>, z: seq<Byte>)
    requires |p| <= room && vs != []
    ensures var q := Into(room, p, vs[0]);
      && |q| <= room && IntoAll(room, p, vs) == IntoAll(room, q, vs[1..])
      && |q| + |AllAdded(room, q, vs[1..])| == |IntoAll(room, p, vs)|
      && AllAdded(room, p, vs) + z == Added(room, p, vs[0]) + (AllAdded(room, q, vs[1..]) + z)
  {
    var q := Into(room, p, vs[0]);
    IntoFills(room, p, vs[0]);
    IntoAllFills(room, q, vs[1..]);
    var r := IntoAll(room, q, vs[1..]);
    assert r[|p|..] == q[|p|..] + r[|q|..];
    Regroup(q[|p|..], r[|q|..], z);
  }

  lemma {:induction false} ManyKeptExact(junk: Junk, room: nat, p: seq<Byte>, full: nat, vs: seq<Value>, e: Type, z: seq<Byte>, had: Value)
    requires AllHave(vs, e)
    requires |p| <= room && |IntoAll(room, p, vs)| + |z| == full <= room
    ensures Exact(LoadMany(junk, e, |vs|, AllAdded(room, p, vs) + z, had), vs, z, ManyKept(junk, room, p, full, e, vs, had))
    decreases vs, 2
  {
    if vs == [] {
      assert AllAdded(room, p, vs) + z == z;
    } else {
      var q := Into(room, p, vs[0]);
      AddedInTurn(room, p, vs, z);
      KeptExact(junk, room, p, full, vs[0], e, AllAdded(room, q, vs[1..]) + z, had);
      ManyKeptExact(junk, room, q, full, vs[1..], e, z, vs[0]);
      assert vs == [vs[0]] + vs[1..];
    }
  }

  lemma {:induction false} AllKeptExact(junk: Junk, room: nat, p: seq<Byte>, full: nat, vs: seq<Value>, ts: seq<Type>, z: seq<Byte>, hads: seq<Value>)
    requires Match(vs, ts) && |hads| == |ts|
    requires |p| <= room && |IntoAll(room, p, vs)| + |z| == full <= room
    ensures Exact(LoadAll(junk, ts, AllAdded(room, p, vs) + z, hads), vs, z, AllKept(junk, room, p, full, ts, vs, hads))
    decreases vs, 2
  {
    if vs == [] {
      assert AllAdded(room, p, vs) + z == z;
    } else {
      var q := Into(room, p, vs[0]);
      AddedInTurn(room, p, vs, z);
      KeptExact(junk, room, p, full, vs[0], ts[0], AllAdded(room, q, vs[1..]) + z, hads[0]);
      AllKeptExact(junk, room, q, full, vs[1..], ts[1..], z, hads[1..]);
      assert vs == [vs[0]] + vs[1..];
    }
  }

  /** Written into a buffer with `room` bytes for the payload and read into a variable that held `had`, a
      value of any shape comes back if and only if its parts are kept. */
  lemma BufferRoundTripIff(junk: Junk, room: nat, v: Value, t: Type, had: Value)
    requires Has(v, t)
    ensures var q := Into(room, [], v);
      Load(junk, t, q, had) == Some((v, [])) <==> Kept(junk, room, [], |q|, t, v, had)
  {
    var q := Into(room, [], v);
    IntoFills(room, [], v);
    KeptExact(junk, room, [], |q|, v, t, [], had);
    assert Added(room, [], v) + [] == q;
  }

  /** In particular, a faithful value that fits comes back whatever the variable held. */
  lemma FittingRoundTrip(junk: Junk, room: nat, v: Value, t: Type, had: Value)
    requires Has(v, t) && Faithful(v) && |Encode(v)| <= room
    ensures Load(junk, t, Into(room, [], v), had) == Some((v, []))
  {
    IntoFills(room, [], v);
    LoadsBack(junk, v, t, [], had);
    assert [] + Encode(v) == Encode(v) == Encode(v) + [];
  }

  // ------------------------------------------------------------------ variables that held something else

  /** `v` has no vector, and `had` differs from it in every number and string. */
  ghost predicate Apart(junk: Junk, t: Type, v: Value, had: Value)
    requires Has(v, t)
    decreases v, 0
  {
    match v
    case Vector(_) => false
    case Struct(ms) => AllApart(junk, t.fields, ms, Members(junk, t.fields, had))
    case _ => had != v
  }

  ghost predicate AllApart(junk: Junk, ts: seq<Type>, vs: seq<Value>, hads: seq<Value>)
    requires Match(vs, ts) && |hads| == |ts|
    decreases vs, 1
  {
    vs == [] || (Apart(junk, ts[0], vs[0], hads[0]) && AllApart(junk, ts[1..], vs[1..], hads[1..]))
  }

  lemma {:induction false} ApartKept(junk: Junk, room: nat, p: seq<Byte>, full: nat, t: Type, v: Value, had: Value)
    requires Has(v, t) && |p| <= room && Apart(junk, t, v, had)
    ensures Kept(junk, room, p, full, t, v, had) <==> Faithful(v) && |p| + |Encode(v)| <= room
    decreases v, 0
  {
    match v
    case Struct(ms) => AllApartKept(junk, room, p, full, t.fields, ms, Members(junk, t.fields, had));
    case _ =>
  }

  lemma {:induction false} AllApartKept(junk: Junk, room: nat, p: seq<Byte>, full: nat, ts: seq<Type>, vs: seq<Value>, hads: seq<Value>)
    requires Match(vs, ts) && |hads| == |ts| && |p| <= room && AllApart(junk, ts, vs, hads)
    ensures AllKept(junk, room, p, full, ts, vs, hads) <==> AllFaithful(vs) && |p| + |EncodeAll(vs)| <= room
    decreases vs, 1
  {
    if vs == [] {
    } else {
      IntoFills(room, p, vs[0]);
      ApartKept(junk, room, p, full, ts[0], vs[0], hads[0]);
      AllApartKept(junk, room, Into(room, p, vs[0]), full, ts[1..], vs[1..], hads[1..]);
    }
  }

  /** Into a variable that held something else in every part, a value without vectors comes back if and
      only if it is faithful and fits. */
  lemma ApartRoundTripIff(junk: Junk, room: nat, v: Value, t: Type, had: Value)
    requires Has(v, t) && Apart(junk, t, v, had)
    ensures Load(junk, t, Into(room, [], v), had) == Some((v, [])) <==> Faithful(v) && |Encode(v)| <= room
  {
    BufferRoundTripIff(junk, room, v, t, had);
    ApartKept(junk, room, [], |Into(room, [], v)|, t, v, had);
  }

  // ------------------------------------------------------------------ the buffer of the code

  /** The buffer that the constructor of the write stream makes. */
  const BUFFER_SIZE: nat := 10
  const HEADER_SIZE: nat := 4
  const ROOM: nat := BUFFER_SIZE - HEADER_SIZE

  /** Even that buffer takes a string of 65540 bytes, as one of four. */
  lemma LongStringFits(junk: Junk, str: seq<Byte>, had: Value)
    requires |str| == 65540
    ensures Load(junk, TString, Into(ROOM, [], String(str)), had) == Some((String(str[..4]), []))
  {
    StringLost(str);
    LoadIsDecode(junk, TString, Encode(String(str)) + [], had);
    assert [] + Encode(String(str)) == Encode(String(str)) + [];
  }

  /** Of two ints the second is dropped: reading gives back what its variable held. */
  lemma SecondIntIsDropped(junk: Junk, i: int, j: int, had: Value)
    requires InRange(i, 0x8000_0000) && InRange(j, 0x8000_0000)
    ensures var t := TStruct([TInt, TInt]);
      Load(junk, t, Into(ROOM, [], Struct([Int(i), Int(j)])), had) ==
        Some((Struct([Int(i), Members(junk, t.fields, had)[1]]), []))
  {
    var ts, vs, hads := [TInt, TInt], [Int(i), Int(j)], Members(junk, [TInt, TInt], had);
    var q := EncodeInt(i);
    assert vs[1..] == [Int(j)] && vs[1..][1..] == [] && ts[1..] == [TInt] && ts[1..][1..] == [];
    assert [] + q == q && Into(ROOM, [], vs[0]) == q && Into(ROOM, q, vs[1]) == q;
    assert IntoAll(ROOM, q, vs[1..]) == IntoAll(ROOM, q, []) == q;
    assert Into(ROOM, [], Struct(vs)) == q;
    LoadsBack(junk, Int(i), TInt, [], hads[0]);
    assert q + [] == q;
    assert LoadAll(junk, [], [], []) == Some(([], []));
    assert hads[1..][0] == hads[1] && hads[1..][1..] == [] && [hads[1]] + [] == [hads[1]];
    assert Load(junk, TInt, [], hads[1]) == Some((hads[1], []));
    assert LoadAll(junk, ts[1..], [], hads[1..]) == Some(([hads[1]], []));
    assert [Int(i)] + [hads[1]] == [Int(i), hads[1]];
    assert LoadAll(junk, ts, q, hads) == Some(([Int(i), hads[1]], []));
  }

  /** Of two equal ints in a vector the second is dropped too, but its variable still holds the first: the
      vector comes back although it does not fit. */
  lemma RepeatedElementSurvives(junk: Junk, i: int, had: Value)
    requires InRange(i, 0x8000_0000)
    ensures var v := Vector([Int(i), Int(i)]);
      |Encode(v)| > ROOM && Load(junk, TVector(TInt), Into(ROOM, [], v), had) == Some((v, []))
  {
    var vs := [Int(i), Int(i)];
    var v, t := Vector(vs), TVector(TInt);
    assert vs[1..] == [Int(i)] && vs[1..][1..] == [];
    OneValue(Int(i), TInt);
    assert AllHave([], TInt) && AllHave([Int(i)], TInt) && AllHave(vs, TInt);
    assert EncodeAll(vs) == EncodeInt(i) + EncodeAll([Int(i)]);
    var p, full := [] + EncodeShort(2), |Into(ROOM, [], v)|;
    var q := Into(ROOM, p, vs[0]);
    assert ManyKept(junk, ROOM, Into(ROOM, q, vs[1]), full, TInt, [], vs[1]);
    assert ManyKept(junk, ROOM, q, full, TInt, vs[1..], vs[0]);
    assert ManyKept(junk, ROOM, p, full, TInt, vs, Fresh(junk, TInt));
    BufferRoundTripIff(junk, ROOM, v, t, had);
  }

  lemma OneValue(v: Value, t: Type)
    ensures Match([v], [t]) == Has(v, t) && AllFaithful([v]) == Faithful(v) && EncodeAll([v]) == Encode(v)
  {
    assert [v][1..] == [] && [t][1..] == [];
    assert Encode(v) + [] == Encode(v);
  }
}
