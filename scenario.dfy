/** The path a new account takes: NewCredentials, InsertCredentials into a
    collection created with CredentialsSchema, then FindCredentialsByID with
    the id that came back. */
module Scenario {
  import opened Wrappers
  import opened Errors
  import opened Bson
  import opened Collector
  import opened Auth
  import opened Credentials
  import EmailPattern
  import Schema

  /** Inserting a record that has no id yet into a schema-checked collection:
      it succeeds exactly when the schema accepts the record, and then the
      record is appended under a fresh, non-nil id. */
  lemma InsertNewRecord(before: seq<Document>, validator: Document -> bool, c: Credentials)
    requires forall d :: validator(d) == Schema.Accepts(d)
    requires c.id == NilObjectId
    ensures var (reply, after) := InsertOneOutcome(before, validator, Some(ToBson(c)), None);
      var (id, err) := InsertOutcome(reply);
      && (err.None? <==>
            EmailPattern.Matches(c.email) && |c.hash| >= HashMinLength && |c.salt| >= SaltMinLength)
      && (err.None? ==> id != NilObjectId && after == before + [ToBson(c)["_id" := Oid(id)]])
  {
    var d := ToBson(c);
    var n := NextObjectId(before);
    InsertOutcomeMeaning(before, validator, d, None);
    Schema.AcceptsWithObjectId(d, n);
    Schema.AcceptsCredentialsIff(c);
    assert !IdTaken(before, Oid(n));
  }

  /** With `_id` unique, only the last document carries the last document's id. */
  lemma OnlyLastHasId(docs: seq<Document>, validator: Document -> bool, id: Value)
    requires ValidDocs(docs, validator)
    requires |docs| > 0 && KeyEquals(docs[|docs| - 1], "_id", id)
    ensures forall i | 0 <= i < |docs| && KeyEquals(docs[i], "_id", id) :: i == |docs| - 1
  {
    assert forall i | 0 <= i < |docs| - 1 :: docs[i]["_id"] != docs[|docs| - 1]["_id"];
  }

  /** Looking up by `_id` a document just stored under that id gives back
      what that document decodes to. */
  lemma LookupStoredRecord<D>(docs: seq<Document>, validator: Document -> bool,
                              unmarshal: Document -> Result<D, Error>,
                              id: Value, c: D, creds: Option<D>, err: Option<Error>)
    requires ValidDocs(docs, validator)
    requires |docs| > 0 && KeyEquals(docs[|docs| - 1], "_id", id)
    requires unmarshal(docs[|docs| - 1]) == Ok(c)
    requires LookedUp(docs, "_id", id, None, unmarshal, creds, err)
    ensures err.None? && creds == Some(c)
  {
    var k := |docs| - 1;
    SingleFilter(docs[k], "_id", id);
    assert HasMatch(docs, [("_id", id)]);
    OnlyLastHasId(docs, validator, id);
  }

  /** With no transport failure, the insert succeeds exactly when the schema
      accepts the record, and then the lookup by the returned id gives back the
      record, now carrying that id, hash and salt included. */
  method StoreAndFetch(api: AuthAPI<Credentials>, c: Credentials)
    returns (id: ObjectId, insertErr: Option<Error>, found: Option<Credentials>, findErr: Option<Error>)
    requires api.credentials.Valid()
    requires forall d :: api.credentials.validator(d) == Schema.Accepts(d)
    requires forall x :: api.marshal(x) == ToBson(x)
    requires forall d :: api.unmarshal(d) == FromBson(d)
    requires c.id == NilObjectId && Storable(c)
    modifies api.credentials
    ensures insertErr.None? <==>
      EmailPattern.Matches(c.email) && |c.hash| >= HashMinLength && |c.salt| >= SaltMinLength
    ensures insertErr.None? ==> id != NilObjectId && findErr.None? && found == Some(c.(id := id))
  {
    InsertNewRecord(api.credentials.docs, api.credentials.validator, c);
    assert Marshaled(Some(c), api.marshal) == Some(ToBson(c));
    id, insertErr := api.InsertCredentials(Some(c), None);
    found, findErr := api.FindCredentialsByID(id, None);
    if insertErr.None? {
      ghost var docs := api.credentials.docs;
      FromBsonWithInsertedId(c, id);
      assert api.unmarshal(docs[|docs| - 1]) == Ok(c.(id := id));
      LookupStoredRecord(docs, api.credentials.validator, api.unmarshal, Oid(id), c.(id := id), found, findErr);
    }
  }
}
