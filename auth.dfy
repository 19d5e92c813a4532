/** AuthAPI: the credentials repository over a Collector. The record type is a
    parameter `D` with the driver's struct codec for it (`marshal`,
    `unmarshal`), so the same model serves every record the API is used with. */
module Auth {
  import opened Wrappers
  import opened Errors
  import opened Bson
  import opened Collector

  const UserDatabase: string := "auth"
  const CredentialsCollection: string := "credentials"

  predicate KeyEquals(d: Document, key: string, value: Value) {
    key in d && d[key] == value
  }

  /** `res.Decode(&creds)` after FindOne: the lookup's error if it had one,
      else the decoding's error, else the decoded record. */
  function FindOutcome<D>(reply: Result<Document, Error>, unmarshal: Document -> Result<D, Error>)
    : (r: (Option<D>, Option<Error>))
    ensures r.0.Some? <==> r.1.None?
    ensures reply.Err? ==> r.1 == Some(reply.error)
  {
    match reply
    case Err(e) => (None, Some(e))
    case Ok(doc) =>
      match unmarshal(doc)
      case Err(e) => (None, Some(e))
      case Ok(c) => (Some(c), None)
  }

  /** What a lookup of `key == value` returns: a record or an error, never both;
      the transport's error; ErrNoDocuments when nothing matches; a record only
      if some stored document with that value decodes to it; and any other
      error only if some such document fails to decode with it. */
  ghost predicate LookedUp<D>(docs: seq<Document>, key: string, value: Value, fault: Option<Error>,
                              unmarshal: Document -> Result<D, Error>, creds: Option<D>, err: Option<Error>) {
    && (creds.Some? <==> err.None?)
    && (fault.Some? ==> creds.None? && err == fault)
    && (fault.None? && !HasMatch(docs, [(key, value)]) ==> creds.None? && err == Some(ErrNoDocuments))
    && (creds.Some? ==>
          exists i | 0 <= i < |docs| :: KeyEquals(docs[i], key, value) && unmarshal(docs[i]) == Ok(creds.value))
    && (fault.None? && HasMatch(docs, [(key, value)]) && err.Some? ==>
          exists i | 0 <= i < |docs| :: KeyEquals(docs[i], key, value) && unmarshal(docs[i]) == Err(err.value))
  }

  /** A one-entry filter matches exactly the documents holding that value under that key. */
  lemma SingleFilter(d: Document, key: string, value: Value)
    ensures Matches(d, [(key, value)]) <==> KeyEquals(d, key, value)
  {
    var f: Filter := [(key, value)];
    assert f[0] == (key, value);
  }

  /** Any reply FindOne may give turns, through Decode, into a lookup result
      that keeps the promise above. */
  lemma FindOutcomeIsLookup<D>(docs: seq<Document>, key: string, value: Value, fault: Option<Error>,
                              unmarshal: Document -> Result<D, Error>, reply: Result<Document, Error>)
    requires FindOneReply(docs, [(key, value)], fault, reply)
    ensures var (creds, err) := FindOutcome(reply, unmarshal);
      LookedUp(docs, key, value, fault, unmarshal, creds, err)
  {
    if fault.None? && reply.Ok? {
      var i :| 0 <= i < |docs| && docs[i] == reply.value;
      SingleFilter(docs[i], key, value);
    }
  }

  /** The caller's record as the document handed to InsertOne (a nil pointer
      stays nil). */
  function Marshaled<D>(creds: Option<D>, marshal: D -> Document): (d: Option<Document>)
    ensures d.Some? <==> creds.Some?
  {
    match creds
    case None => None
    case Some(c) => Some(marshal(c))
  }

  /** InsertCredentials' result from InsertOne's reply: its error with the nil
      id, its ObjectID, or the nil id with "unrecognized type returned". */
  function InsertOutcome(reply: Result<Value, Error>): (r: (ObjectId, Option<Error>))
    ensures r.1.Some? ==> r.0 == NilObjectId
    ensures reply.Err? ==> r.1 == Some(reply.error)
  {
    match reply
    case Err(e) => (NilObjectId, Some(e))
    case Ok(Oid(id)) => (id, None)
    case Ok(_) => (NilObjectId, Some(UnrecognizedType))
  }

  /** What inserting a record promises. Any error leaves the nil id. For a
      record stored without `_id`, success means it was appended under the
      returned id, which is fresh and never nil, and failure means nothing was
      stored. A record that carries an `_id` that is not an ObjectID is stored
      and still reported as a failure. */
  lemma InsertOutcomeMeaning(docs: seq<Document>, validator: Document -> bool, d: Document, fault: Option<Error>)
    ensures var (reply, after) := InsertOneOutcome(docs, validator, Some(d), fault);
      var (id, err) := InsertOutcome(reply);
      && (err.Some? ==> id == NilObjectId)
      && (fault.Some? ==> err == fault && after == docs)
      && ("_id" !in d ==>
            && (err.None? <==> after != docs)
            && (err.None? ==> id != NilObjectId && !IdTaken(docs, Oid(id)) && after == docs + [d["_id" := Oid(id)]]))
      && ("_id" in d && !d["_id"].Oid? && reply.Ok? ==>
            err == Some(UnrecognizedType) && after == docs + [d])
  {
    var (reply, after) := InsertOneOutcome(docs, validator, Some(d), fault);
    InsertOneMeaning(docs, validator, d, fault);
    if "_id" in d && reply.Ok? {
      assert d["_id" := d["_id"]] == d;
    }
    if reply.Ok? {
      assert |after| == |docs| + 1;
    }
  }

  class AuthAPI<D> {
    /** The API's one dependency, set by NewAuthAPI and never reassigned. */
    const credentials: Collection
    const marshal: D -> Document
    const unmarshal: Document -> Result<D, Error>

    /** NewAuthAPI. */
    constructor (credentials: Collection, marshal: D -> Document, unmarshal: Document -> Result<D, Error>)
      ensures this.credentials == credentials && this.marshal == marshal && this.unmarshal == unmarshal
    {
      this.credentials := credentials;
      this.marshal := marshal;
      this.unmarshal := unmarshal;
    }

    /** Unimplemented: touches nothing. */
    method DeleteCredentials(creds: Option<D>) returns (err: Option<Error>)
      ensures err == Some(ErrMethodUnimplemented)
    {
      err := Some(ErrMethodUnimplemented);
    }

    /** Unimplemented: touches nothing. */
    method DeleteCredentialsByEmail(email: string) returns (err: Option<Error>)
      ensures err == Some(ErrMethodUnimplemented)
    {
      err := Some(ErrMethodUnimplemented);
    }

    /** Unimplemented: touches nothing. */
    method DeleteCredentialsByID(id: ObjectId) returns (err: Option<Error>)
      ensures err == Some(ErrMethodUnimplemented)
    {
      err := Some(ErrMethodUnimplemented);
    }

    /** One FindOne with the filter `{key: value}`, then Decode. */
    method FindCredentials(key: string, value: Value, fault: Option<Error>)
      returns (creds: Option<D>, err: Option<Error>)
      modifies credentials`calls
      ensures |credentials.calls| == |old(credentials.calls)| + 1
      ensures credentials.calls[..|old(credentials.calls)|] == old(credentials.calls)
      ensures var call := credentials.calls[|old(credentials.calls)|];
        && call.FindOneCall? && call.filter == Some([(key, value)])
        && (creds, err) == FindOutcome(call.found, unmarshal)
      ensures LookedUp(credentials.docs, key, value, fault, unmarshal, creds, err)
    {
      var res := credentials.FindOne(Some([(key, value)]), fault);
      FindOutcomeIsLookup(credentials.docs, key, value, fault, unmarshal, res);
      var out := FindOutcome(res, unmarshal);
      creds, err := out.0, out.1;
    }

    method FindCredentialsByEmail(email: string, fault: Option<Error>)
      returns (creds: Option<D>, err: Option<Error>)
      modifies credentials`calls
      ensures |credentials.calls| == |old(credentials.calls)| + 1
      ensures credentials.calls[..|old(credentials.calls)|] == old(credentials.calls)
      ensures var call := credentials.calls[|old(credentials.calls)|];
        && call.FindOneCall? && call.filter == Some([("email", Str(email))])
        && (creds, err) == FindOutcome(call.found, unmarshal)
      ensures LookedUp(credentials.docs, "email", Str(email), fault, unmarshal, creds, err)
    {
      creds, err := FindCredentials("email", Str(email), fault);
    }

    method FindCredentialsByID(id: ObjectId, fault: Option<Error>)
      returns (creds: Option<D>, err: Option<Error>)
      modifies credentials`calls
      ensures |credentials.calls| == |old(credentials.calls)| + 1
      ensures credentials.calls[..|old(credentials.calls)|] == old(credentials.calls)
      ensures var call := credentials.calls[|old(credentials.calls)|];
        && call.FindOneCall? && call.filter == Some([("_id", Oid(id))])
        && (creds, err) == FindOutcome(call.found, unmarshal)
      ensures LookedUp(credentials.docs, "_id", Oid(id), fault, unmarshal, creds, err)
    {
      creds, err := FindCredentials("_id", Oid(id), fault);
    }

    /** One InsertOne with the caller's record, then the ObjectID check. */
    method InsertCredentials(creds: Option<D>, fault: Option<Error>) returns (id: ObjectId, err: Option<Error>)
      requires credentials.Valid()
      modifies credentials
      ensures credentials.Valid()
      ensures var (reply, after) := InsertOneOutcome(old(credentials.docs), credentials.validator,
                                                     Marshaled(creds, marshal), fault);
        && credentials.docs == after
        && credentials.calls == old(credentials.calls) + [InsertOneCall(Marshaled(creds, marshal), reply)]
        && (id, err) == InsertOutcome(reply)
      ensures creds.None? ==> err == Some(ErrNilDocument) && id == NilObjectId
    {
      var result := credentials.InsertOne(Marshaled(creds, marshal), fault);
      var out := InsertOutcome(result);
      id, err := out.0, out.1;
    }

    /** Unimplemented: touches nothing. */
    method UpdateCredentials(creds: Option<D>) returns (updated: Option<D>, err: Option<Error>)
      ensures updated == None && err == Some(ErrMethodUnimplemented)
    {
      updated, err := None, Some(ErrMethodUnimplemented);
    }
  }
}
