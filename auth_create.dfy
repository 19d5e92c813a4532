/** The earlier revision of InsertCredentials, kept in its own file: the same
    steps without a context argument. It is modelled on the same AuthAPI. */
module AuthCreate {
  import opened Wrappers
  import opened Errors
  import opened Bson
  import opened Collector
  import opened Auth

  /** One InsertOne with `creds` as given, then the ObjectID check: an insert
      error comes back with the nil id, an ObjectID comes back with no error,
      and any other id type gives "unrecognized type returned". */
  method InsertCredentials<D>(api: AuthAPI<D>, creds: Option<D>, fault: Option<Error>)
    returns (id: ObjectId, err: Option<Error>)
    requires api.credentials.Valid()
    modifies api.credentials
    ensures api.credentials.Valid()
    ensures var (reply, after) := InsertOneOutcome(old(api.credentials.docs), api.credentials.validator,
                                                   Marshaled(creds, api.marshal), fault);
      && api.credentials.docs == after
      && api.credentials.calls == old(api.credentials.calls) + [InsertOneCall(Marshaled(creds, api.marshal), reply)]
      && (id, err) == InsertOutcome(reply)
  {
    var result := api.credentials.InsertOne(Marshaled(creds, api.marshal), fault);
    if result.Err? {
      return NilObjectId, Some(result.error);
    }
    if result.value.Oid? {
      return result.value.id, None;
    }
    return NilObjectId, Some(UnrecognizedType);
  }
}
