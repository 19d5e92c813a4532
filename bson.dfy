/** The pieces of BSON 1.1 (bsonspec.org) and of the Go driver's document model
    that the core touches: the little-endian int32, the framing of a string
    value (`string ::= int32 (byte*) "\x00"`), a value per field and documents
    as maps from keys to values. */
module Bson {
  import opened Bytes

  /** The element type byte of BSON 1.1. */
  type BsonType = Byte
  const StringType: BsonType := 0x02
  const ObjectIdType: BsonType := 0x07
  const BooleanType: BsonType := 0x08
  const DateTimeType: BsonType := 0x09

  /** A store-assigned identifier; the all-zero ObjectID (NilObjectID) is 0. */
  type ObjectId = nat
  const NilObjectId: ObjectId := 0

  /** An instant; ZeroTime stands for Go's zero time.Time. */
  type Time = int
  const ZeroTime: Time := 0

  /** A field value as the driver sees it. `Time` stands for both a BSON date-time
      and a BSON timestamp. */
  datatype Value = Str(s: string) | Bool(b: bool) | Oid(id: ObjectId) | Time(t: Time)

  type Document = map<string, Value>

  const TwoTo31: int := 0x8000_0000
  const TwoTo32: int := 0x1_0000_0000

  /** The four little-endian bytes of int32(v): a truncating cast, as Go's
      conversion of an int to int32 wraps modulo 2^32. */
  function Int32LE(v: int): (r: seq<Byte>)
    ensures |r| == 4
  {
    var u := v % TwoTo32;
    [u % 256, (u / 256) % 256, (u / 256 / 256) % 256, u / 256 / 256 / 256]
  }

  function Unsigned32(s: seq<Byte>): int
    requires |s| >= 4
  {
    s[0] as int + 256 * (s[1] as int + 256 * (s[2] as int + 256 * (s[3] as int)))
  }

  /** binary.Read of an int32 in little-endian order from the first four bytes. */
  function ReadInt32LE(s: seq<Byte>): (v: int)
    requires |s| >= 4
    ensures -TwoTo31 <= v < TwoTo31
  {
    var u := Unsigned32(s);
    if u >= TwoTo31 then u - TwoTo32 else u
  }

  lemma DivMod256(q: int, r: int)
    requires 0 <= r < 256
    ensures (256 * q + r) / 256 == q && (256 * q + r) % 256 == r
  {
  }

  /** Reading back what was written gives the value, for every value an int32 holds. */
  lemma ReadInt32LEOfInt32LE(v: int)
    requires -TwoTo31 <= v < TwoTo31
    ensures ReadInt32LE(Int32LE(v)) == v
  {
    var u := v % TwoTo32;
    var q1 := u / 256;
    var q2 := q1 / 256;
    var q3 := q2 / 256;
    assert q2 == 256 * q3 + q2 % 256;
    assert q1 == 256 * q2 + q1 % 256;
    assert u == 256 * q1 + u % 256;
    assert 0 <= q3 < 256;
    assert Unsigned32(Int32LE(v)) == u;
    assert u == if v >= 0 then v else v + TwoTo32;
  }

  /** Four bytes are the encoding of the int32 they are read as. */
  lemma Int32LEOfReadInt32LE(s: seq<Byte>)
    requires |s| >= 4
    ensures Int32LE(ReadInt32LE(s)) == s[..4]
  {
    var x2 := s[2] as int + 256 * (s[3] as int);
    var x1 := s[1] as int + 256 * x2;
    var u := Unsigned32(s);
    assert u == s[0] as int + 256 * x1;
    assert 0 <= u < TwoTo32;
    assert ReadInt32LE(s) % TwoTo32 == u;
    DivMod256(x1, s[0] as int);
    DivMod256(x2, s[1] as int);
    DivMod256(s[3] as int, s[2] as int);
  }

  /** The BSON framing of a string value: int32 (content length + 1), the
      content bytes, a zero terminator. The driver casts the length to int32. */
  function MarshalString(s: string): seq<Byte> {
    Int32LE(|Utf8(s)| + 1) + Utf8(s) + [0]
  }

  /** The n low-order bytes of u, least significant first. */
  function LittleEndian(u: nat, n: nat): (r: seq<Byte>)
    ensures |r| == n
  {
    if n == 0 then [] else [u % 256] + LittleEndian(u / 256, n - 1)
  }

  function Reverse(s: seq<Byte>): (r: seq<Byte>)
    ensures |r| == |s|
  {
    if s == [] then [] else Reverse(s[1..]) + [s[0]]
  }

  /** The element type and raw value bytes the driver hands to a value
      unmarshaller: a string is framed, a boolean is one byte, an ObjectID is
      12 bytes big-endian, a date-time an int64 little-endian. */
  function Wire(v: Value): (BsonType, seq<Byte>) {
    match v
    case Str(s) => (StringType, MarshalString(s))
    case Bool(b) => (BooleanType, if b then [1] else [0])
    case Oid(id) => (ObjectIdType, Reverse(LittleEndian(id, 12)))
    case Time(t) => (DateTimeType, LittleEndian(t % 0x1_0000_0000_0000_0000, 8))
  }
}
