/** The credentials record stored in the credentials collection: its fields,
    their document keys and `omitempty` tags, its JSON rendering, and the
    NewCredentials constructor. */
module Credentials {
  import opened Bytes
  import opened Wrappers
  import opened Errors
  import opened Bson
  import opened StructCodec

  const CredentialsCollectionName: string := "credentials"

  /** The minimum number of bytes of a hash and of a salt. */
  const HashMinLength: nat := 32
  const SaltMinLength: nat := 32

  /** One credentials document. A zero `id` means "not yet stored". */
  datatype Credentials = Credentials(
    id: ObjectId,
    email: string,
    hash: seq<Byte>,
    salt: seq<Byte>,
    validated: bool,
    timestampToExpire: Time,
    timestampCreated: Time,
    timestampUpdated: Time)

  /** NewCredentials: takes email, hash and salt as given, reads the clock once
      (`now`), and leaves every other field at its zero value. It neither fails
      nor validates. */
  function NewCredentials(email: string, hash: seq<Byte>, salt: seq<Byte>, now: Time): (c: Credentials)
    ensures c.email == email && c.hash == hash && c.salt == salt
    ensures c.timestampCreated == now
    ensures c.id == NilObjectId && !c.validated
    ensures c.timestampToExpire == ZeroTime && c.timestampUpdated == ZeroTime
  {
    Credentials(NilObjectId, email, hash, salt, false, ZeroTime, now, ZeroTime)
  }

  /** Every key the struct's tags name. */
  const FieldKeys: set<string> :=
    {"_id", "email", "hash", "salt", "validated", "ts_toexpire", "ts_created", "ts_updated"}

  /** The document the driver builds from the struct. `_id`, `ts_toexpire` and
      `ts_updated` carry `omitempty`; hash and salt go through ByteSlice. */
  function ToBson(c: Credentials): (d: Document)
    ensures d.Keys <= FieldKeys
    ensures "email" in d && "hash" in d && "salt" in d && "validated" in d && "ts_created" in d
    ensures ("_id" in d) <==> c.id != NilObjectId
    ensures ("ts_toexpire" in d) <==> c.timestampToExpire != ZeroTime
    ensures ("ts_updated" in d) <==> c.timestampUpdated != ZeroTime
  {
    var always := map[
      "email" := Str(c.email),
      "hash" := BytesValue(c.hash),
      "salt" := BytesValue(c.salt),
      "validated" := Bool(c.validated),
      "ts_created" := Time(c.timestampCreated)];
    var d1 := PutOmitEmpty(always, "_id", Oid(c.id), c.id == NilObjectId);
    var d2 := PutOmitEmpty(d1, "ts_toexpire", Time(c.timestampToExpire), c.timestampToExpire == ZeroTime);
    PutOmitEmpty(d2, "ts_updated", Time(c.timestampUpdated), c.timestampUpdated == ZeroTime)
  }

  /** The driver's decoding of a document into a fresh struct, field by field
      in declaration order; the first failing field ends it. */
  function FromBson(d: Document): (r: Result<Credentials, Error>) {
    var id :- OidField(d, "_id");
    var email :- StrField(d, "email");
    var hash :- BytesField(d, "hash");
    var salt :- BytesField(d, "salt");
    var validated :- BoolField(d, "validated");
    var toExpire :- TimeField(d, "ts_toexpire");
    var created :- TimeField(d, "ts_created");
    var updated :- TimeField(d, "ts_updated");
    Ok(Credentials(id, email, hash, salt, validated, toExpire, created, updated))
  }

  /** The secrets fit the int32 length prefix of the BSON string they are stored in. */
  predicate Storable(c: Credentials) {
    2 * |c.hash| + 1 < TwoTo31 && 2 * |c.salt| + 1 < TwoTo31
  }

  /** Decoding the stored document gives the record back, hash and salt included. */
  lemma FromBsonToBson(c: Credentials)
    requires Storable(c)
    ensures FromBson(ToBson(c)) == Ok(c)
  {
    var d := ToBson(c);
    ToBsonValues(c);
    BytesFieldRoundTrip(d, "hash", c.hash);
    BytesFieldRoundTrip(d, "salt", c.salt);
    FromBsonOfFields(d, c);
  }

  /** The store adds an `_id` to a document that has none; reading that
      document back gives the record with the new id. */
  lemma FromBsonWithInsertedId(c: Credentials, id: ObjectId)
    requires Storable(c)
    ensures FromBson(ToBson(c)["_id" := Oid(id)]) == Ok(c.(id := id))
  {
    var d := ToBson(c)["_id" := Oid(id)];
    ToBsonValues(c);
    BytesFieldRoundTrip(d, "hash", c.hash);
    BytesFieldRoundTrip(d, "salt", c.salt);
    FromBsonOfFields(d, c.(id := id));
  }

  /** The value stored under each key of the record's document. */
  lemma ToBsonValues(c: Credentials)
    ensures var d := ToBson(c);
      && d["email"] == Str(c.email) && d["validated"] == Bool(c.validated)
      && d["hash"] == BytesValue(c.hash) && d["salt"] == BytesValue(c.salt)
      && d["ts_created"] == Time(c.timestampCreated)
      && ("_id" in d ==> d["_id"] == Oid(c.id))
      && ("ts_toexpire" in d ==> d["ts_toexpire"] == Time(c.timestampToExpire))
      && ("ts_updated" in d ==> d["ts_updated"] == Time(c.timestampUpdated))
  {
  }

  /** Decoding gives `c` when every field decodes to its value in `c`. */
  lemma FromBsonOfFields(d: Document, c: Credentials)
    requires OidField(d, "_id") == Ok(c.id) && StrField(d, "email") == Ok(c.email)
    requires BytesField(d, "hash") == Ok(c.hash) && BytesField(d, "salt") == Ok(c.salt)
    requires BoolField(d, "validated") == Ok(c.validated)
    requires TimeField(d, "ts_toexpire") == Ok(c.timestampToExpire)
    requires TimeField(d, "ts_created") == Ok(c.timestampCreated)
    requires TimeField(d, "ts_updated") == Ok(c.timestampUpdated)
    ensures FromBson(d) == Ok(c)
  {
  }

  /** Keys the struct does not name play no part in decoding. */
  lemma FromBsonIgnoresUnknownKeys(d: Document, key: string, v: Value)
    requires key !in FieldKeys
    ensures FromBson(d[key := v]) == FromBson(d)
  {
    var e := d[key := v];
    forall k | k in FieldKeys ensures (k in e) == (k in d) && (k in d ==> e[k] == d[k]) { }
    assert OidField(e, "_id") == OidField(d, "_id") && StrField(e, "email") == StrField(d, "email");
    assert BytesField(e, "hash") == BytesField(d, "hash");
    assert BytesField(e, "salt") == BytesField(d, "salt");
    assert BoolField(e, "validated") == BoolField(d, "validated");
    assert TimeField(e, "ts_toexpire") == TimeField(d, "ts_toexpire");
    assert TimeField(e, "ts_created") == TimeField(d, "ts_created");
    assert TimeField(e, "ts_updated") == TimeField(d, "ts_updated");
  }

  /** A stored hash that is not a valid hex string fails the whole decoding. */
  lemma FromBsonRejectsBadHash(d: Document)
    requires "_id" !in d && "email" !in d
    requires "hash" in d && d["hash"] == Str("zz")
    ensures FromBson(d) == Err(InvalidByte('z' as int))
  {
    var z := 'z' as int;
    assert Utf8("zz") == [z, z] by {
      assert Utf8("zz") == Utf8Rune('z') + Utf8("z");
      assert Utf8("z") == Utf8Rune('z') + Utf8("");
    }
    assert Int32LE(3) == [3, 0, 0, 0];
    var w := Wire(d["hash"]).1;
    assert w == [3, 0, 0, 0, z, z, 0];
    assert ByteSlice.DeclaredLength(w) == 3;
    assert w[4..6] == [z, z];
    assert Hex.DecodeString([z, z]) == ([], Some(InvalidByte(z)));
    assert BytesField(d, "hash") == Err(InvalidByte('z' as int));
    assert OidField(d, "_id") == Ok(NilObjectId) && StrField(d, "email") == Ok("");
  }

  /** A record made by NewCredentials is stored without `_id`, `ts_toexpire`
      and `ts_updated`: exactly the four required keys plus `ts_created`. */
  lemma NewCredentialsDocument(email: string, hash: seq<Byte>, salt: seq<Byte>, now: Time)
    ensures ToBson(NewCredentials(email, hash, salt, now)).Keys
         == {"email", "hash", "salt", "validated", "ts_created"}
  {
    var d := ToBson(NewCredentials(email, hash, salt, now));
    assert forall k | k in d :: k in {"email", "hash", "salt", "validated", "ts_created"};
  }

  /** The JSON rendering. `hash` and `salt` are tagged `json:"-"`. The
      `omitempty` of `_id` and of the timestamps has no effect in encoding/json,
      which never treats a fixed-size array or a struct as empty. */
  function ToJson(c: Credentials): (j: map<string, Value>)
    ensures "hash" !in j && "salt" !in j
    ensures j.Keys == {"_id", "email", "validated", "ts_toexpire", "ts_created", "ts_updated"}
  {
    map[
      "_id" := Oid(c.id),
      "email" := Str(c.email),
      "validated" := Bool(c.validated),
      "ts_toexpire" := Time(c.timestampToExpire),
      "ts_created" := Time(c.timestampCreated),
      "ts_updated" := Time(c.timestampUpdated)]
  }

  /** The JSON rendering reveals nothing about the hash and the salt. */
  lemma ToJsonIndependentOfSecrets(c: Credentials, hash: seq<Byte>, salt: seq<Byte>)
    ensures ToJson(c.(hash := hash, salt := salt)) == ToJson(c)
  {
  }
}
