/**
  Helpers for the fixed part of an APDU: the octet that carries the
  maximum-segments-accepted code (high nibble, clause 20.1.2.4 of
  ANSI/ASHRAE 135) and the maximum-APDU-length-accepted code (low nibble,
  clause 20.1.2.5), and the three-octet SimpleACK PDU of clause 20.1.4.
 */
module ApduFixed {
  import opened Wire

  /** Segment counts by code 0..7; code 7 stands for "more than 64". */
  const SegsTable: seq<nat> := [0, 2, 4, 8, 16, 32, 64, 65]
  /** APDU sizes by code 0..5. */
  const ApduTable: seq<nat> := [50, 128, 206, 480, 1024, 1476]

  /**
    `decode_max_segs`: the high nibble looked up in the table, 0 for codes 8
    to 15. Each code decodes to the least count the encoder gives that code.
   */
  function DecodeMaxSegs(octet: uint8): (n: nat)
    ensures n <= 65
    ensures octet / 16 < |SegsTable| ==> SegsCode(n) == octet / 16
    ensures octet / 16 < |SegsTable| ==> forall x: int32 :: 0 <= x < n ==> SegsCode(x) != octet / 16
    ensures octet / 16 >= |SegsTable| ==> n == 0
  {
    var code := octet / 16;
    if code < |SegsTable| then SegsTable[code] else 0
  }

  /**
    `decode_max_apdu`: the low nibble looked up in the table, 0 for codes 6
    to 15. Each code decodes to the greatest size up to 1476 the encoder
    gives that code.
   */
  function DecodeMaxApdu(octet: uint8): (n: nat)
    ensures n <= 1476
    ensures octet % 16 < |ApduTable| ==> ApduCode(n) == octet % 16
    ensures octet % 16 < |ApduTable| ==> forall x: int32 :: n < x <= 1476 ==> ApduCode(x) != octet % 16
    ensures octet % 16 >= |ApduTable| ==> n == 0
  {
    var code := octet % 16;
    if code < |ApduTable| then ApduTable[code] else 0
  }

  /** The segments code: thresholds 2, 4, 8, 16, 32, 64 and above 64. */
  function SegsCode(maxSegs: int32): (c: nat)
    ensures c < |SegsTable|
  {
    if maxSegs < 2 then 0
    else if maxSegs < 4 then 1
    else if maxSegs < 8 then 2
    else if maxSegs < 16 then 3
    else if maxSegs < 32 then 4
    else if maxSegs < 64 then 5
    else if maxSegs == 64 then 6
    else 7
  }

  /** The APDU code: the first table size at least `maxApdu`; above 1476, code 0. */
  function ApduCode(maxApdu: int32): (c: nat)
    ensures c < |ApduTable|
  {
    if maxApdu <= 50 then 0
    else if maxApdu <= 128 then 1
    else if maxApdu <= 206 then 2
    else if maxApdu <= 480 then 3
    else if maxApdu <= 1024 then 4
    else if maxApdu <= 1476 then 5
    else 0
  }

  /** `encode_max_segs_max_apdu`: segments code in the high nibble, APDU code in the low one. */
  function EncodeMaxSegsMaxApdu(maxSegs: int32, maxApdu: int32): (octet: uint8)
    ensures octet / 16 == SegsCode(maxSegs)
    ensures octet % 16 == ApduCode(maxApdu)
  {
    SegsCode(maxSegs) * 16 + ApduCode(maxApdu)
  }

  /** Every octet with a defined code in each nibble survives decoding and re-encoding. */
  lemma MaxSegsMaxApduRoundTrip(octet: uint8)
    requires octet / 16 < |SegsTable| && octet % 16 < |ApduTable|
    ensures EncodeMaxSegsMaxApdu(DecodeMaxSegs(octet), DecodeMaxApdu(octet)) == octet
  {
  }

  /**
    The segment count an encoded octet announces is the largest count in
    the table that does not exceed the one asked for (0 when none does).
   */
  lemma {:induction false} SegsRoundsDown(maxSegs: int32, maxApdu: int32)
    ensures var n := DecodeMaxSegs(EncodeMaxSegsMaxApdu(maxSegs, maxApdu));
      && (n == 0 || n <= maxSegs)
      && forall c :: 0 <= c < |SegsTable| && SegsTable[c] <= maxSegs ==> SegsTable[c] <= n
  {
    var o := EncodeMaxSegsMaxApdu(maxSegs, maxApdu);
    assert DecodeMaxSegs(o) == SegsTable[SegsCode(maxSegs)];
  }

  /**
    Up to 1476 the APDU size an encoded octet announces is the smallest size
    in the table that is at least the one asked for; above, code 0 (50).
   */
  lemma {:induction false} ApduRoundsUp(maxSegs: int32, maxApdu: int32)
    ensures var n := DecodeMaxApdu(EncodeMaxSegsMaxApdu(maxSegs, maxApdu));
      && (maxApdu <= 1476 ==>
            maxApdu <= n && forall c :: 0 <= c < |ApduTable| && maxApdu <= ApduTable[c] ==> n <= ApduTable[c])
      && (maxApdu > 1476 ==> n == ApduTable[0])
  {
    var o := EncodeMaxSegsMaxApdu(maxSegs, maxApdu);
    assert DecodeMaxApdu(o) == ApduTable[ApduCode(maxApdu)];
  }

  /** The confirmed-service PDU type SimpleACK (type 2) in the high nibble of the first octet. */
  const SimpleAckPdu: uint8 := 0x20

  function SimpleAckBytes(invokeId: uint8, service: uint8): (s: seq<uint8>)
    ensures |s| == 3
  {
    [SimpleAckPdu, invokeId, service]
  }

  /** `encode_simple_ack`: three octets, 3 returned; a NULL destination reports 3. */
  function EncodeSimpleAck(d: Dest, invokeId: uint8, service: uint8): (e: Encoding)
    requires Room(d, 3)
    ensures e.len == 3
    ensures e.dest.Nowhere? <==> d.Nowhere?
    ensures Holds(e.dest, SimpleAckBytes(invokeId, service))
    ensures SameOutside(d, e.dest, 3)
  {
    Emit(d, SimpleAckBytes(invokeId, service))
  }

  /** The fields of a SimpleACK, as clause 20.1.4 lays it out. */
  datatype SimpleAck = SimpleAck(invokeId: uint8, service: uint8)

  /** Reads a SimpleACK: PDU type 2 in the high nibble of the first octet, then the two fields. */
  function SimpleAckOfBytes(s: seq<uint8>): (r: Option<SimpleAck>)
    requires |s| >= 3
    ensures r.Some? <==> s[0] / 16 == SimpleAckPdu / 16
  {
    if s[0] / 16 == SimpleAckPdu / 16 then Some(SimpleAck(s[1], s[2])) else None
  }

  /** What `encode_simple_ack` writes at any position reads back as a SimpleACK with the same fields. */
  lemma SimpleAckRoundTrip(mem: seq<uint8>, at: nat, invokeId: uint8, service: uint8)
    requires at + 3 <= |mem|
    ensures var e := EncodeSimpleAck(At(mem, at), invokeId, service);
      e.dest.At? && |e.dest.mem| == |mem| &&
      SimpleAckOfBytes(e.dest.mem[at..at + 3]) == Some(SimpleAck(invokeId, service))
  {
  }
}
