/** How the document-store driver moves one tagged Go struct field between a
    struct and a document, the part of its reflection codec both credential
    records rely on. Decoding ignores keys no field names, leaves a field whose
    key is missing at its zero value, and refuses a stored value of the wrong
    type; a ByteSlice field is handed the raw value bytes through its own
    UnmarshalBSONValue. */
module StructCodec {
  import opened Bytes
  import opened Wrappers
  import opened Errors
  import opened Bson
  import Hex
  import ByteSlice

  /** Encoding of an `omitempty` field: absent when the value is the zero value. */
  function PutOmitEmpty(d: Document, key: string, v: Value, isZero: bool): (r: Document)
    ensures isZero ==> r == d
    ensures !isZero ==> r == d[key := v]
    ensures (key in r) <==> (!isZero || key in d)
    ensures r.Keys <= d.Keys + {key}
    ensures forall k | k in d && k != key :: k in r && r[k] == d[k]
  {
    if isZero then d else d[key := v]
  }

  function OidField(d: Document, key: string): (r: Result<ObjectId, Error>)
    ensures key !in d ==> r == Ok(NilObjectId)
    ensures key in d && d[key].Oid? ==> r == Ok(d[key].id)
    ensures key in d && !d[key].Oid? ==> r == Err(TypeMismatch(key))
  {
    if key !in d then Ok(NilObjectId)
    else match d[key]
      case Oid(id) => Ok(id)
      case _ => Err(TypeMismatch(key))
  }

  function StrField(d: Document, key: string): (r: Result<string, Error>)
    ensures key !in d ==> r == Ok("")
    ensures key in d && d[key].Str? ==> r == Ok(d[key].s)
    ensures key in d && !d[key].Str? ==> r == Err(TypeMismatch(key))
  {
    if key !in d then Ok("")
    else match d[key]
      case Str(s) => Ok(s)
      case _ => Err(TypeMismatch(key))
  }

  function BoolField(d: Document, key: string): (r: Result<bool, Error>)
    ensures key !in d ==> r == Ok(false)
    ensures key in d && d[key].Bool? ==> r == Ok(d[key].b)
    ensures key in d && !d[key].Bool? ==> r == Err(TypeMismatch(key))
  {
    if key !in d then Ok(false)
    else match d[key]
      case Bool(b) => Ok(b)
      case _ => Err(TypeMismatch(key))
  }

  function TimeField(d: Document, key: string): (r: Result<Time, Error>)
    ensures key !in d ==> r == Ok(ZeroTime)
    ensures key in d && d[key].Time? ==> r == Ok(d[key].t)
    ensures key in d && !d[key].Time? ==> r == Err(TypeMismatch(key))
  {
    if key !in d then Ok(ZeroTime)
    else match d[key]
      case Time(t) => Ok(t)
      case _ => Err(TypeMismatch(key))
  }

  /** A ByteSlice field: whatever the stored type, its raw bytes go to
      UnmarshalBSONValue, starting from the zero (empty) slice. */
  function BytesField(d: Document, key: string): (r: Result<seq<Byte>, Error>)
    ensures key !in d ==> r == Ok([])
  {
    if key !in d then Ok([])
    else
      var out := ByteSlice.Unmarshaled(Wire(d[key]).1, []);
      if out.err.Some? then Err(out.err.value) else Ok(out.bs)
  }

  /** How a ByteSlice field is stored: the BSON string of its hex text. */
  function BytesValue(bs: seq<Byte>): (v: Value)
    ensures Wire(v) == ByteSlice.MarshalBSONValue(bs)
  {
    Str(Hex.EncodeToString(bs))
  }

  /** An `omitempty` ObjectID field reads back as the value written: the nil id
      is left out of the document and comes back as the zero value. Other keys
      read back as before. */
  lemma OidFieldRoundTrip(d: Document, key: string, id: ObjectId, other: string)
    requires key !in d && other != key
    ensures OidField(PutOmitEmpty(d, key, Oid(id), id == NilObjectId), key) == Ok(id)
    ensures OidField(PutOmitEmpty(d, key, Oid(id), id == NilObjectId), other) == OidField(d, other)
  {
  }

  /** An `omitempty` time field reads back as the value written, the zero time
      through its absence. */
  lemma TimeFieldRoundTrip(d: Document, key: string, t: Time, other: string)
    requires key !in d && other != key
    ensures TimeField(PutOmitEmpty(d, key, Time(t), t == ZeroTime), key) == Ok(t)
    ensures TimeField(PutOmitEmpty(d, key, Time(t), t == ZeroTime), other) == TimeField(d, other)
  {
  }

  /** A string field reads back as the value written, whatever the document
      held under that key before; no other string field changes. */
  lemma StrFieldRoundTrip(d: Document, key: string, s: string, other: string)
    requires other != key
    ensures StrField(d[key := Str(s)], key) == Ok(s)
    ensures StrField(d[key := Str(s)], other) == StrField(d, other)
  {
  }

  /** A boolean field reads back as the value written; no other boolean field
      changes. */
  lemma BoolFieldRoundTrip(d: Document, key: string, b: bool, other: string)
    requires other != key
    ensures BoolField(d[key := Bool(b)], key) == Ok(b)
    ensures BoolField(d[key := Bool(b)], other) == BoolField(d, other)
  {
  }

  /** A stored ByteSlice reads back as the bytes it was written from, as long
      as the framed length fits in the int32 prefix. */
  lemma BytesFieldRoundTrip(d: Document, key: string, bs: seq<Byte>)
    requires 2 * |bs| + 1 < TwoTo31
    requires key in d && d[key] == BytesValue(bs)
    ensures BytesField(d, key) == Ok(bs)
  {
    ByteSlice.RoundTrip(bs, []);
  }

  /** A stored value that is not a string (a boolean, say) is still handed to
      UnmarshalBSONValue, whose framing check then fails. */
  lemma BytesFieldOfBoolean(d: Document, key: string)
    requires key in d && d[key].Bool?
    ensures BytesField(d, key) == Err(UnexpectedEOF)
  {
  }
}
