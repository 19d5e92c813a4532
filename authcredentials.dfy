/** The AuthCredentials record: the same secrets codec as ByteSlice (the file
    repeats that code byte for byte) behind a smaller set of fields. */
module AuthCredentials {
  import opened Bytes
  import opened Wrappers
  import opened Errors
  import opened Bson
  import opened StructCodec

  datatype AuthCredentials = AuthCredentials(
    id: ObjectId,
    email: string,
    hash: seq<Byte>,
    salt: seq<Byte>,
    validated: bool,
    timestampUpdatedLast: Time)

  const FieldKeys: set<string> := {"_id", "email", "hash", "salt", "validated", "ts_updated"}

  /** The stored document: `_id` and `ts_updated` carry `omitempty`; email, hash,
      salt and validated are always written. */
  function ToBson(c: AuthCredentials): (d: Document)
    ensures d.Keys <= FieldKeys
    ensures "email" in d && "hash" in d && "salt" in d && "validated" in d
    ensures ("_id" in d) <==> c.id != NilObjectId
    ensures ("ts_updated" in d) <==> c.timestampUpdatedLast != ZeroTime
  {
    var always := map[
      "email" := Str(c.email),
      "hash" := BytesValue(c.hash),
      "salt" := BytesValue(c.salt),
      "validated" := Bool(c.validated)];
    var d1 := PutOmitEmpty(always, "_id", Oid(c.id), c.id == NilObjectId);
    PutOmitEmpty(d1, "ts_updated", Time(c.timestampUpdatedLast), c.timestampUpdatedLast == ZeroTime)
  }

  function FromBson(d: Document): (r: Result<AuthCredentials, Error>) {
    var id :- OidField(d, "_id");
    var email :- StrField(d, "email");
    var hash :- BytesField(d, "hash");
    var salt :- BytesField(d, "salt");
    var validated :- BoolField(d, "validated");
    var updated :- TimeField(d, "ts_updated");
    Ok(AuthCredentials(id, email, hash, salt, validated, updated))
  }

  /** Decoding the stored document gives the record back, as long as the
      secrets fit the int32 length prefix. */
  lemma FromBsonToBson(c: AuthCredentials)
    requires 2 * |c.hash| + 1 < TwoTo31 && 2 * |c.salt| + 1 < TwoTo31
    ensures FromBson(ToBson(c)) == Ok(c)
  {
    var d := ToBson(c);
    assert d["email"] == Str(c.email) && d["validated"] == Bool(c.validated);
    assert d["hash"] == BytesValue(c.hash) && d["salt"] == BytesValue(c.salt);
    assert "_id" in d ==> d["_id"] == Oid(c.id);
    assert "ts_updated" in d ==> d["ts_updated"] == Time(c.timestampUpdatedLast);
    BytesFieldRoundTrip(d, "hash", c.hash);
    BytesFieldRoundTrip(d, "salt", c.salt);
    var id := OidField(d, "_id");
    var updated := TimeField(d, "ts_updated");
    assert id == Ok(c.id) && updated == Ok(c.timestampUpdatedLast);
  }

  /** The JSON rendering: `hash` and `salt` are tagged `json:"-"`; as for
      Credentials, `omitempty` on the id and the timestamp has no effect there. */
  function ToJson(c: AuthCredentials): (j: map<string, Value>)
    ensures "hash" !in j && "salt" !in j
    ensures j.Keys == {"_id", "email", "validated", "ts_updated"}
  {
    map[
      "_id" := Oid(c.id),
      "email" := Str(c.email),
      "validated" := Bool(c.validated),
      "ts_updated" := Time(c.timestampUpdatedLast)]
  }
}
