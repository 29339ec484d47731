/** Packing messages into google.protobuf.Any: type URLs and payloads. */
module AnyUrl {
  import opened Bytes
  import opened Options
  import opened Wire
  import opened AnyCodec
  import opened AnyParser
  import opened AnyWriter

  function Ascii(s: string): (r: seq<Byte>)
    ensures |r| == |s| && forall i :: 0 <= i < |r| ==> r[i] < 128 && (s[i] < 128 as char ==> r[i] == s[i] as int)
  {
    seq(|s|, i requires 0 <= i < |s| => s[i] as int % 128)
  }

  const GOOGLE_APIS := Ascii("type.googleapis.com/")
  const GOOGLE_PROD := Ascii("type.googleprod.com/")
  const ANY_NAME := Ascii("google.protobuf.Any")

  lemma {:induction false} AsciiIsUtf8(s: seq<Byte>)
    requires forall i :: 0 <= i < |s| ==> s[i] < 128
    ensures Utf8(s)
  {
    if s == [] {
    } else {
      AsciiIsUtf8(s[1..]);
    }
  }

  // ------------------------------------------------------------------ type URLs

  function GetTypeUrl(name: seq<Byte>): seq<Byte> { GOOGLE_APIS + name }

  predicate EndsWith(s: seq<Byte>, suffix: seq<Byte>) {
    |suffix| <= |s| && s[|s| - |suffix|..] == suffix
  }

  function TypeName(url: seq<Byte>): Option<seq<Byte>> {
    if GOOGLE_APIS <= url then Some(url[|GOOGLE_APIS|..])
    else if GOOGLE_PROD <= url then Some(url[|GOOGLE_PROD|..])
    else None
  }

  method ParseAnyTypeUrl(url: seq<Byte>, had: seq<Byte>) returns (ok: bool, name: seq<Byte>)
    ensures ok == TypeName(url).Some? && name == if ok then TypeName(url).value else had
  {
    var prefixes := [GOOGLE_APIS, GOOGLE_PROD];
    for i := 0 to 2
      invariant forall k :: 0 <= k < i ==> !(prefixes[k] <= url)
    {
      if prefixes[i] <= url { return true, url[|prefixes[i]|..]; }
    }
    assert !(prefixes[0] <= url) && !(prefixes[1] <= url);
    return false, had;
  }

  /** The URL that packing gives a type, and the other prefix that is understood. */
  lemma UrlOfName(name: seq<Byte>)
    ensures GetTypeUrl(name) == Ascii("type.googleapis.com/") + name
    ensures GetTypeUrl(Ascii("google.protobuf.Any")) == Ascii("type.googleapis.com/google.protobuf.Any")
    ensures TypeName(Ascii("type.googleprod.com/") + name) == Some(name)
  {
    assert "type.googleapis.com/" + "google.protobuf.Any" == "type.googleapis.com/google.protobuf.Any";
    TypeNameIff(Ascii("type.googleprod.com/") + name, name);
  }

  /** ParseAnyTypeUrl undoes GetTypeUrl. */
  lemma TypeNameOfUrl(name: seq<Byte>)
    ensures TypeName(GetTypeUrl(name)) == Some(name)
  {
    assert GetTypeUrl(name)[|GOOGLE_APIS|..] == name;
  }

  /** A URL names a type if it is a known prefix and the name. */
  lemma TypeNameIff(url: seq<Byte>, name: seq<Byte>)
    ensures TypeName(url) == Some(name) <==> url == GOOGLE_APIS + name || url == GOOGLE_PROD + name
  {
    assert (GOOGLE_APIS + name)[|GOOGLE_APIS|..] == name && (GOOGLE_PROD + name)[|GOOGLE_PROD|..] == name;
    assert GOOGLE_APIS[11] == 97 && GOOGLE_PROD[11] == 112;
    if GOOGLE_PROD <= url { assert url[11] == 112; }
    if GOOGLE_APIS <= url { assert url[11] == 97; assert url == GOOGLE_APIS + url[|GOOGLE_APIS|..]; }
    else if GOOGLE_PROD <= url { assert url == GOOGLE_PROD + url[|GOOGLE_PROD|..]; }
  }

  /** After packing a message of type `name`, Is answers yes for its own type. */
  lemma OwnType(name: seq<Byte>)
    ensures EndsWith(GetTypeUrl(name), name)
  {
  }

  /** Is compares the end of the URL only: of a URL with a type name, it accepts exactly that name, its
      ends, and ends that reach into the prefix. */
  lemma IsAcceptsEnds(name: seq<Byte>, asked: seq<Byte>)
    ensures EndsWith(GetTypeUrl(name), asked) <==>
      EndsWith(name, asked) || exists k :: 0 <= k < |GOOGLE_APIS| && asked == GOOGLE_APIS[k..] + name
  {
    var url := GetTypeUrl(name);
    if EndsWith(url, asked) {
      if |asked| <= |name| {
        assert url[|url| - |asked|..] == name[|name| - |asked|..];
      } else {
        var k := |url| - |asked|;
        assert url[k..] == GOOGLE_APIS[k..] + name;
      }
    }
    if EndsWith(name, asked) { assert url[|url| - |asked|..] == name[|name| - |asked|..]; }
    forall k | 0 <= k < |GOOGLE_APIS| && asked == GOOGLE_APIS[k..] + name ensures EndsWith(url, asked) {
      assert url[k..] == GOOGLE_APIS[k..] + name;
    }
  }

  /** So Is can accept a type that was not packed. */
  lemma IsAcceptsAnother()
    ensures var packed, asked := Ascii("shop.Order"), Ascii("Order");
      packed != asked && EndsWith(GetTypeUrl(packed), asked) && TypeName(GetTypeUrl(packed)) != Some(asked)
  {
    var packed, asked := Ascii("shop.Order"), Ascii("Order");
    assert packed[5..] == asked;
    IsAcceptsEnds(packed, asked);
    TypeNameOfUrl(packed);
  }

  // ------------------------------------------------------------------ packing

  function Pack(name: seq<Byte>, payload: seq<Byte>): Any { Any(GetTypeUrl(name), payload) }

  /** UnpackTo a message of type Any: nothing for another type, or what parsing the payload gives. */
  function Unpack(a: Any): Option<Parsed> {
    if EndsWith(a.url, ANY_NAME) then Some(Parse(a.value, EMPTY, RECURSION_LIMIT)) else None
  }

  /** Only an Any whose URL ends in the name is unpacked. */
  lemma UnpackChecks(a: Any)
    ensures |a.url| < 19 || a.url[|a.url| - 19..] != Ascii("google.protobuf.Any") <==> Unpack(a).None?
    ensures Unpack(a).Some? ==> Unpack(a).value == Parse(a.value, EMPTY, 100)
  {
    assert |ANY_NAME| == 19;
  }

  /** `m` in an Any in an Any ..., `depth` times. */
  function Nest(m: Any, depth: nat): Any {
    if depth == 0 then m else Pack(ANY_NAME, Serialize(Nest(m, depth - 1)))
  }

  function Unnest(m: Any, depth: nat): Option<Any>
    decreases depth
  {
    if depth == 0 then Some(m)
    else
      match Unpack(m)
      case None => None
      case Some(p) => if p.ok && p.complete then Unnest(p.msg, depth - 1) else None
  }

  lemma PackedUrlIsUtf8()
    ensures Utf8(GetTypeUrl(ANY_NAME))
  {
    AsciiIsUtf8(GetTypeUrl(ANY_NAME));
  }

  /** A packed message is longer than the message. */
  lemma PackGrows(m: Any)
    requires Fits(Pack(ANY_NAME, Serialize(m)))
    ensures Fits(m)
  {
  }

  /** An Any packed into Any to any depth is recovered exactly if and only if it is not packed at all or
      its URL is UTF-8, as long as the outermost can be serialized. */
  lemma {:induction false} UnnestNest(m: Any, depth: nat)
    requires Fits(Nest(m, depth))
    ensures Unnest(Nest(m, depth), depth) == Some(m) <==> depth == 0 || Utf8(m.url)
  {
    if depth == 0 {
    } else {
      var inner := Nest(m, depth - 1);
      PackGrows(inner);
      OwnType(ANY_NAME);
      RoundTripOnlyIfUtf8(inner, RECURSION_LIMIT);
      if depth > 1 {
        PackedUrlIsUtf8();
        UnnestNest(m, depth - 1);
      }
    }
  }

  /** AnyMetadata: the two fields of an Any as PackFrom and UnpackTo use them. */
  class AnyMetadata {
    const any: AnyMessage

    constructor (any: AnyMessage)
      ensures this.any == any
    {
      this.any := any;
    }

    /** `payload` is what the message of type `name` serializes to. */
    method PackFrom(name: seq<Byte>, payload: seq<Byte>)
      modifies any`url, any`value
      ensures any.Contents() == Pack(name, payload)
    {
      any.url := GetTypeUrl(name);
      any.value := payload;
    }

    method PackFromAny(message: AnyMessage)
      requires message != any && Fits(message.Contents())
      modifies any`url, any`value, message`cachedSize
      ensures any.Contents() == Pack(ANY_NAME, Serialize(old(message.Contents())))
      ensures message.Contents() == old(message.Contents())
    {
      var payload := SerializeToString(message);
      PackFrom(ANY_NAME, payload);
    }

    method InternalIs(name: seq<Byte>) returns (yes: bool)
      ensures yes == EndsWith(any.url, name)
    {
      if |any.url| < |name| { return false; }
      return any.url[|any.url| - |name|..] == name;
    }

    method UnpackToAny(message: AnyMessage, view: View) returns (ok: bool)
      requires message != any
      modifies message`url, message`value
      ensures var url, p := any.url, Parse(any.value, EMPTY, 100);
        if |url| < 19 || url[|url| - 19..] != Ascii("google.protobuf.Any")
        then !ok && message.Contents() == old(message.Contents())
        else ok == (p.ok && p.complete) && message.Contents() == p.msg
    {
      ok := InternalIs(ANY_NAME);
      if ok { ok := message.ParseFromString(any.value, view); }
    }
  }
}
