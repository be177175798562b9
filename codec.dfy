// The message envelope and the two byte formats of the message log: the 8-byte
// length word written in front of every record (the memory image of a `size_t`
// on a little-endian 64-bit host) and the serialised payload. The payload
// serialiser of the broker is generated protobuf code; it is replaced here by a
// fixed encoder of the same fields, proved injective by its decoder.

module Codec {
  import opened Wrappers

  type Byte = b: int | 0 <= b < 256

  /** sizeof(size_t): the width of the length word in front of each record. */
  const WordSize: nat := 8
  /** Every value of a `size_t` is below this bound. */
  const WordLimit: nat := 0x1_0000_0000_0000_0000

  // ---------------------------------------------------------------------------
  // The length word
  // ---------------------------------------------------------------------------

  function Pow256(k: nat): (r: nat)
    ensures r >= 1
  {
    if k == 0 then 1 else 256 * Pow256(k - 1)
  }

  /** The k low-order bytes of n, least significant first. */
  function LittleEndian(n: nat, k: nat): (w: seq<Byte>)
    ensures |w| == k
  {
    if k == 0 then [] else [n % 256] + LittleEndian(n / 256, k - 1)
  }

  /** The number a little-endian byte string stands for. */
  function WordValue(w: seq<Byte>): (n: nat)
    ensures n < Pow256(|w|)
  {
    if |w| == 0 then 0 else w[0] + 256 * WordValue(w[1..])
  }

  /** Reading back k little-endian bytes gives the number that was written, when
      it fits in k bytes. */
  lemma {:induction false} LittleEndianRoundTrip(n: nat, k: nat)
    requires n < Pow256(k)
    ensures WordValue(LittleEndian(n, k)) == n
  {
    if k > 0 {
      LittleEndianRoundTrip(n / 256, k - 1);
      assert LittleEndian(n, k)[1..] == LittleEndian(n / 256, k - 1);
    }
  }

  lemma WordLimitIsPow()
    ensures Pow256(WordSize) == WordLimit
  {
  }

  /** The length word of a record body of n bytes. */
  function LengthWord(n: nat): (w: seq<Byte>)
    requires n < WordLimit
    ensures |w| == WordSize
    ensures WordValue(w) == n
  {
    WordLimitIsPow();
    LittleEndianRoundTrip(n, WordSize);
    LittleEndian(n, WordSize)
  }

  // ---------------------------------------------------------------------------
  // The envelope
  // ---------------------------------------------------------------------------

  datatype DeliveryMode = Undurable | Durable

  /** BasicProperties: the id, the delivery mode and the routing key. */
  datatype Properties = Properties(id: string, mode: DeliveryMode, routingKey: string)

  /** The payload that is serialised into the log. `valid` is the validity flag
      ("1" while the record is live, "0" once it is acknowledged); it is only
      meaningful for messages written to the log. */
  datatype Payload = Payload(props: Properties, body: string, valid: bool)

  /** A message: its payload and, once written to the log, the offset of its
      serialised payload in the log file and that payload's length. */
  datatype Message = Message(payload: Payload, offset: nat, length: nat)
  {
    function Id(): string { payload.props.id }
  }

  // ---------------------------------------------------------------------------
  // Serialisation of a payload
  // ---------------------------------------------------------------------------

  /** The byte that ends a string field. No character encoding starts with it. */
  const EndOfString: Byte := 255

  /** A character as three bytes, most significant first; the first is at most
      0x10 because no code point exceeds 0x10FFFF. */
  function CharBytes(c: char): (bs: seq<Byte>)
    ensures |bs| == 3 && bs[0] < EndOfString
  {
    var n := c as int;
    [n / 65536, (n / 256) % 256, n % 256]
  }

  function EncodeString(s: string): (bs: seq<Byte>)
    ensures |bs| == 3 * |s| + 1
  {
    if |s| == 0 then [EndOfString] else CharBytes(s[0]) + EncodeString(s[1..])
  }

  /** The number three bytes stand for, if it is a Unicode scalar value. */
  predicate IsScalar(n: int)
  {
    (0 <= n < 0xD800) || (0xE000 <= n < 0x11_0000)
  }

  /** The number three bytes stand for, most significant first. */
  function CharValue(b0: Byte, b1: Byte, b2: Byte): (n: int)
    ensures 0 <= n < 0x100_0000
  {
    b0 as int * 65536 + b1 as int * 256 + b2 as int
  }

  /** The three bytes of a character stand for its code point. */
  lemma CharBytesValue(c: char)
    ensures CharValue(CharBytes(c)[0], CharBytes(c)[1], CharBytes(c)[2]) == c as int
  {
  }

  /** Reads one string field from the front of bs; returns it and what follows. */
  function DecodeString(bs: seq<Byte>): (r: Option<(string, seq<Byte>)>)
    ensures r.Some? ==> |r.value.1| < |bs|
    decreases |bs|
  {
    if |bs| == 0 then None
    else if bs[0] == EndOfString then Some(([], bs[1..]))
    else if |bs| < 3 then None
    else
      var n := CharValue(bs[0], bs[1], bs[2]);
      if !IsScalar(n) then None
      else match DecodeString(bs[3..])
        case None => None
        case Some((s, rest)) => Some(([n as char] + s, rest))
  }

  lemma {:induction false} DecodeEncodeString(s: string, rest: seq<Byte>)
    ensures DecodeString(EncodeString(s) + rest) == Some((s, rest))
    decreases |s|
  {
    if |s| == 0 {
      assert ([EndOfString] + rest)[1..] == rest;
    } else {
      var tail := EncodeString(s[1..]) + rest;
      assert EncodeString(s) + rest == CharBytes(s[0]) + tail;
      DecodeEncodeString(s[1..], rest);
      DecodeCharStep(s[0], tail);
      assert [s[0]] + s[1..] == s;
    }
  }

  /** A character's three bytes are read back as that character, then the rest. */
  lemma DecodeCharStep(c: char, tail: seq<Byte>)
    ensures DecodeString(CharBytes(c) + tail) ==
      match DecodeString(tail)
      case None => None
      case Some((s, rest)) => Some(([c] + s, rest))
  {
    var bs := CharBytes(c) + tail;
    assert bs[3..] == tail;
    CharBytesValue(c);
    assert CharValue(bs[0], bs[1], bs[2]) == c as int;
  }

  function ModeByte(m: DeliveryMode): Byte
  {
    match m
    case Undurable => 1
    case Durable => 2
  }

  function FlagByte(b: bool): Byte
  {
    if b then 1 else 0
  }

  /** The serialised payload: id, mode, routing key, body, validity flag. */
  function Serialize(p: Payload): (bs: seq<Byte>)
    ensures |bs| == 3 * (|p.props.id| + |p.props.routingKey| + |p.body|) + 5
  {
    EncodeString(p.props.id) + [ModeByte(p.props.mode)] + EncodeString(p.props.routingKey)
      + EncodeString(p.body) + [FlagByte(p.valid)]
  }

  function ParseMode(b: Byte): Option<DeliveryMode>
  {
    if b == 1 then Some(Undurable) else if b == 2 then Some(Durable) else None
  }

  function ParseFlag(b: Byte): Option<bool>
  {
    if b == 1 then Some(true) else if b == 0 then Some(false) else None
  }

  /** Parses a whole record body; anything left over is an error. */
  function Parse(bs: seq<Byte>): (r: Option<Payload>)
  {
    match DecodeString(bs)
    case None => None
    case Some((id, r1)) =>
      if |r1| == 0 then None
      else match ParseMode(r1[0])
        case None => None
        case Some(mode) =>
          match DecodeString(r1[1..])
          case None => None
          case Some((key, r2)) =>
            match DecodeString(r2)
            case None => None
            case Some((body, r3)) =>
              if |r3| != 1 then None
              else match ParseFlag(r3[0])
                case None => None
                case Some(valid) => Some(Payload(Properties(id, mode, key), body, valid))
  }

  /** Parsing a serialised payload gives the payload back: the serialiser is
      injective. */
  lemma ParseSerialize(p: Payload)
    ensures Parse(Serialize(p)) == Some(p)
  {
    var tail3 := [FlagByte(p.valid)];
    var tail2 := EncodeString(p.body) + tail3;
    var tail1 := EncodeString(p.props.routingKey) + tail2;
    var tail0 := [ModeByte(p.props.mode)] + tail1;
    assert Serialize(p) == EncodeString(p.props.id) + tail0;
    DecodeEncodeString(p.props.id, tail0);
    assert DecodeString(Serialize(p)) == Some((p.props.id, tail0));
    assert tail0[1..] == tail1;
    assert ParseMode(tail0[0]) == Some(p.props.mode);
    DecodeEncodeString(p.props.routingKey, tail2);
    assert DecodeString(tail0[1..]) == Some((p.props.routingKey, tail2));
    DecodeEncodeString(p.body, tail3);
    assert DecodeString(tail2) == Some((p.body, tail3));
    assert ParseFlag(tail3[0]) == Some(p.valid);
  }

  /** Three bytes that stand for a scalar value are that character's bytes. */
  lemma CharValueBytes(b0: Byte, b1: Byte, b2: Byte)
    requires IsScalar(CharValue(b0, b1, b2))
    ensures CharBytes(CharValue(b0, b1, b2) as char) == [b0, b1, b2]
  {
    var n := CharValue(b0, b1, b2);
    assert n == (b0 as int * 256 + b1 as int) * 256 + b2 as int;
    assert n / 256 == b0 as int * 256 + b1 as int;
    assert n % 256 == b2 as int;
    assert n / 65536 == (n / 256) / 256;
  }

  lemma EncodeStringCons(c: char, s: string)
    ensures EncodeString([c] + s) == CharBytes(c) + EncodeString(s)
  {
    assert ([c] + s)[1..] == s;
  }

  /** Every string field the decoder accepts is the encoding of what it returns. */
  lemma {:induction false} EncodeDecodeString(bs: seq<Byte>, s: string, rest: seq<Byte>)
    requires DecodeString(bs) == Some((s, rest))
    ensures EncodeString(s) + rest == bs
    decreases |bs|
  {
    if bs[0] == EndOfString {
      assert s == [];
      assert [EndOfString] + bs[1..] == bs;
    } else {
      var tail := bs[3..];
      var c := CharValue(bs[0], bs[1], bs[2]) as char;
      var (s', rest') := DecodeString(tail).value;
      assert s == [c] + s' && rest == rest';
      EncodeDecodeString(tail, s', rest);
      EncodeStringCons(c, s');
      CharValueBytes(bs[0], bs[1], bs[2]);
      var x, y := CharBytes(c), EncodeString(s');
      assert x == bs[..3];
      assert y + rest == tail;
      ConcatAssoc(x, y, rest);
      assert bs[..3] + bs[3..] == bs;
    }
  }

  lemma ConcatAssoc<T>(x: seq<T>, y: seq<T>, z: seq<T>)
    ensures (x + y) + z == x + (y + z)
  {
  }

  /** The pieces an accepted record body is made of. */
  lemma ParseParts(bs: seq<Byte>, p: Payload) returns (r1: seq<Byte>, r2: seq<Byte>)
    requires Parse(bs) == Some(p)
    ensures DecodeString(bs) == Some((p.props.id, r1))
    ensures |r1| > 0 && r1[0] == ModeByte(p.props.mode)
    ensures DecodeString(r1[1..]) == Some((p.props.routingKey, r2))
    ensures DecodeString(r2) == Some((p.body, [FlagByte(p.valid)]))
  {
    var id;
    id, r1 := DecodeString(bs).value.0, DecodeString(bs).value.1;
    var key;
    key, r2 := DecodeString(r1[1..]).value.0, DecodeString(r1[1..]).value.1;
    var (body, r3) := DecodeString(r2).value;
    assert p == Payload(Properties(id, ParseMode(r1[0]).value, key), body, ParseFlag(r3[0]).value);
    assert r3 == [r3[0]];
  }

  /** Every byte string the parser accepts is the serialisation of what it
      returns: with ParseSerialize, the two are inverse. */
  lemma SerializeParse(bs: seq<Byte>, p: Payload)
    requires Parse(bs) == Some(p)
    ensures Serialize(p) == bs
  {
    var r1, r2 := ParseParts(bs, p);
    var e0, e1, e2 := EncodeString(p.props.id), EncodeString(p.props.routingKey), EncodeString(p.body);
    var m, f := [ModeByte(p.props.mode)], [FlagByte(p.valid)];
    EncodeDecodeString(bs, p.props.id, r1);
    EncodeDecodeString(r1[1..], p.props.routingKey, r2);
    EncodeDecodeString(r2, p.body, f);
    assert r1 == m + r1[1..];
    calc {
      Serialize(p);
      (((e0 + m) + e1) + e2) + f;
      { ConcatAssoc(e0 + m + e1, e2, f); }
      ((e0 + m) + e1) + r2;
      { ConcatAssoc(e0 + m, e1, r2); }
      (e0 + m) + r1[1..];
      { ConcatAssoc(e0, m, r1[1..]); }
      e0 + r1;
    }
  }

  /** The serialised length does not depend on the validity flag, so the record
      invalidated in place on acknowledgement always has its original length. */
  lemma InvalidateKeepsLength(p: Payload, v: bool)
    ensures |Serialize(p.(valid := v))| == |Serialize(p)|
  {
  }
}
