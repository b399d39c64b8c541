/**
 The Shadowsocks target address (the address format of section 5 of RFC 1928):
 its encoder and decoder, and the exact sense in which they are inverse.
 */
module SsAddress {
  import opened Numbers

  const ATYP_IPV4: Byte := 0x01
  const ATYP_DOMAIN: Byte := 0x03
  const ATYP_IPV6: Byte := 0x04

  datatype Address =
    | V4(ip4: Bytes, port: nat)
    | V6(ip6: Bytes, port: nat, flow: nat, scope: nat)
    | Domain(name: Bytes, port: nat)

  datatype DecodeError = Empty | Incomplete | BadDomainLength | BadEncoding | UnknownType

  datatype Decoded = Ok(address: Address, used: nat) | Err(error: DecodeError)

  /** The values the source's type can hold; a domain is a `String`, so its bytes are valid UTF-8. */
  ghost predicate WellTyped(a: Address, utf8: Bytes -> bool) {
    && a.port < 0x1_0000
    && match a {
         case V4(ip, _) => |ip| == 4
         case V6(ip, _, _, _) => |ip| == 16
         case Domain(name, _) => utf8(name)
       }
  }

  /** The length byte of a domain is its length cut to 8 bits. */
  function Encoded(a: Address): (r: Bytes)
    requires a.port < 0x1_0000
  {
    match a
    case V4(ip, port) => [ATYP_IPV4] + ip + U16(port)
    case V6(ip, port, _, _) => [ATYP_IPV6] + ip + U16(port)
    case Domain(name, port) => [ATYP_DOMAIN, |name| % 0x100] + name + U16(port)
  }

  function EncodedLen(a: Address): nat {
    match a
    case V4(_, _) => 7
    case V6(_, _, _, _) => 19
    case Domain(name, _) => 1 + 1 + |name| + 2
  }

  method Encode(a: Address) returns (buf: Bytes)
    requires a.port < 0x1_0000
    ensures buf == Encoded(a)
  {
    buf := [];
    match a {
      case V4(ip, port) =>
        buf := buf + [ATYP_IPV4];
        buf := buf + ip;
        buf := buf + U16(port);
      case V6(ip, port, _, _) =>
        buf := buf + [ATYP_IPV6];
        buf := buf + ip;
        buf := buf + U16(port);
      case Domain(name, port) =>
        buf := buf + [ATYP_DOMAIN];
        buf := buf + [|name| % 0x100];
        buf := buf + name;
        buf := buf + U16(port);
    }
  }

  function Decode(data: Bytes, utf8: Bytes -> bool): (r: Decoded)
    ensures r.Ok? ==> WellTyped(r.address, utf8) && r.used <= |data|
  {
    if |data| == 0 then Err(Empty)
    else if data[0] == ATYP_IPV4 then
      if |data| < 7 then Err(Incomplete)
      else Ok(V4(data[1..5], ReadU16(data, 5)), 7)
    else if data[0] == ATYP_IPV6 then
      if |data| < 19 then Err(Incomplete)
      else Ok(V6(data[1..17], ReadU16(data, 17), 0, 0), 19)
    else if data[0] == ATYP_DOMAIN then
      if |data| < 2 then Err(Incomplete)
      else
        var n: nat := data[1];
        if n == 0 then Err(BadDomainLength)
        else if |data| < 2 + n + 2 then Err(Incomplete)
        else if !utf8(data[2..2 + n]) then Err(BadEncoding)
        else Ok(Domain(data[2..2 + n], ReadU16(data, 2 + n)), 2 + n + 2)
    else Err(UnknownType)
  }

  /** The addresses the format can carry. */
  predicate Carried(a: Address) {
    match a
    case V4(_, _) => true
    case V6(_, _, flow, scope) => flow == 0 && scope == 0
    case Domain(name, _) => 1 <= |name| <= 255
  }

  /** The bytes of section 5 of RFC 1928: type 1, 3 or 4, the address or the length
      and the name, and the port with the more significant byte first. */
  lemma WireForm(a: Address)
    requires a.port < 0x1_0000 && (a.V4? ==> |a.ip4| == 4) && (a.V6? ==> |a.ip6| == 16)
    ensures var e := Encoded(a);
            && |e| >= 4
            && e[|e| - 2] as int * 0x100 + e[|e| - 1] == a.port
            && match a
               case V4(ip, _) => |e| == 7 && e[0] == 1 && e[1..5] == ip
               case V6(ip, _, _, _) => |e| == 19 && e[0] == 4 && e[1..17] == ip
               case Domain(name, _) => |e| == |name| + 4 && e[0] == 3 && e[1] == |name| % 0x100 && e[2..|e| - 2] == name
  {
    var e, port := Encoded(a), U16(a.port);
    assert e[|e| - 2] == port[0] && e[|e| - 1] == port[1];
  }

  /** Decoding an encoding gives the address back, and consumes exactly the
      encoding whatever follows it, if and only if the format can carry the address. */
  lemma DecodeEncodedIff(a: Address, tail: Bytes, utf8: Bytes -> bool)
    requires WellTyped(a, utf8)
    ensures |Encoded(a)| == EncodedLen(a)
    ensures Decode(Encoded(a) + tail, utf8) == Ok(a, EncodedLen(a)) <==> Carried(a)
  {
    hide U16, ReadU16;
    match a {
      case V4(ip, port) => PartsReadBack([ATYP_IPV4], ip, port, tail);
      case V6(ip, port, _, _) => PartsReadBack([ATYP_IPV6], ip, port, tail);
      case Domain(name, port) => PartsReadBack([ATYP_DOMAIN, |name| % 0x100], name, port, tail);
    }
  }

  lemma PartsReadBack(head: Bytes, body: Bytes, port: nat, tail: Bytes)
    requires port < 0x1_0000
    ensures var data, at := head + body + U16(port) + tail, |head| + |body|;
            && (forall i :: 0 <= i < |head| ==> data[i] == head[i])
            && data[|head|..at] == body && ReadU16(data, at) == port
  {
    var data, at := head + body + U16(port) + tail, |head| + |body|;
    assert data[at] == U16(port)[0] && data[at + 1] == U16(port)[1];
    assert data[|head|..at] == body;
  }

  /** A successful decode is the inverse of encoding: the bytes it consumed are
      the encoding of the address it returned. */
  lemma EncodeDecoded(x: Bytes, utf8: Bytes -> bool)
    requires Decode(x, utf8).Ok?
    ensures var d := Decode(x, utf8);
            Carried(d.address) && d.used == EncodedLen(d.address) && Encoded(d.address) == x[..d.used]
  {
    hide U16, ReadU16, Decode;
    DecodedIs(x, utf8);
    var d := Decode(x, utf8);
    var at: nat := d.used - 2;
    PortBytes(x, at);
    ThreePieces(x, if d.address.Domain? then 2 else 1, at);
  }

  lemma DecodedIs(x: Bytes, utf8: Bytes -> bool)
    requires Decode(x, utf8).Ok?
    ensures var d := Decode(x, utf8);
            && 4 <= d.used <= |x|
            && match d.address
               case V4(ip, port) => d.used == 7 && x[0] == 1 && ip == x[1..5] && port == ReadU16(x, 5)
               case V6(ip, port, flow, scope) =>
                 d.used == 19 && x[0] == 4 && ip == x[1..17] && port == ReadU16(x, 17) && flow == 0 && scope == 0
               case Domain(name, port) =>
                 d.used == 4 + |name| && x[0] == 3 && x[1] == |name| && 1 <= |name| <= 255
                 && name == x[2..2 + |name|] && port == ReadU16(x, 2 + |name|)
  {
    hide ReadU16;
  }

  lemma PortBytes(x: Bytes, at: nat)
    requires at + 2 <= |x|
    ensures U16(ReadU16(x, at)) == x[at..at + 2]
  {
  }

  lemma ThreePieces(x: Bytes, head: nat, at: nat)
    requires 1 <= head <= 2 && head <= at <= |x| - 2
    ensures x[..at + 2] == (if head == 1 then [x[0]] else [x[0], x[1]]) + x[head..at] + x[at..at + 2]
  {
    assert x[..head] == if head == 1 then [x[0]] else [x[0], x[1]];
    assert x[..at + 2] == x[..head] + x[head..at] + x[at..at + 2];
  }

  /** The decoder accepts exactly the inputs that start with a carried address. */
  lemma {:induction false} DecodeAcceptsIff(x: Bytes, utf8: Bytes -> bool)
    ensures Decode(x, utf8).Ok?
            <==> exists a :: WellTyped(a, utf8) && Carried(a) && Encoded(a) <= x
  {
    if Decode(x, utf8).Ok? {
      EncodeDecoded(x, utf8);
      assert Encoded(Decode(x, utf8).address) <= x;
    }
    forall a | WellTyped(a, utf8) && Carried(a) && Encoded(a) <= x ensures Decode(x, utf8).Ok? {
      var tail := x[|Encoded(a)|..];
      assert Encoded(a) + tail == x;
      DecodeEncodedIff(a, tail, utf8);
    }
  }

  /** Which error is reported for which bytes. */
  lemma ErrorsAre(x: Bytes, utf8: Bytes -> bool)
    ensures var r := Decode(x, utf8);
            && (r == Err(Empty) <==> x == [])
            && (r == Err(UnknownType) <==> x != [] && x[0] != 1 && x[0] != 3 && x[0] != 4)
            && (r == Err(BadDomainLength) <==> |x| >= 2 && x[0] == 3 && x[1] == 0)
            && (r == Err(BadEncoding) <==>
                  |x| >= 2 && x[0] == 3 && x[1] != 0 && |x| >= 4 + x[1] as int && !utf8(x[2..2 + x[1] as int]))
            && (r == Err(Incomplete) <==>
                  || (1 <= |x| < 7 && x[0] == 1) || (1 <= |x| < 19 && x[0] == 4) || (|x| == 1 && x[0] == 3)
                  || (|x| >= 2 && x[0] == 3 && x[1] != 0 && |x| < 4 + x[1] as int))
  {
  }

  /** No carried address's encoding starts another's. */
  lemma PrefixFree(a: Address, b: Address, utf8: Bytes -> bool)
    requires WellTyped(a, utf8) && WellTyped(b, utf8) && Carried(a) && Carried(b)
    requires Encoded(a) <= Encoded(b)
    ensures a == b
  {
    var tail := Encoded(b)[|Encoded(a)|..];
    assert Encoded(a) + tail == Encoded(b) == Encoded(b) + [];
    DecodeEncodedIff(a, tail, utf8);
    DecodeEncodedIff(b, [], utf8);
  }

  /** Every cut-off encoding is reported as empty or incomplete, never misread. */
  lemma TruncatedIsIncomplete(a: Address, k: nat, utf8: Bytes -> bool)
    requires WellTyped(a, utf8) && Carried(a) && k < |Encoded(a)|
    ensures Decode(Encoded(a)[..k], utf8) == Err(if k == 0 then Empty else Incomplete)
  {
    assert k > 0 ==> Encoded(a)[..k][0] == Encoded(a)[0];
    assert k > 1 ==> Encoded(a)[..k][1] == Encoded(a)[1];
  }
}
