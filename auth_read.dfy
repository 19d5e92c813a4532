/** The earlier revision of the lookups, kept in its own file: GetCredentials
    and its two shorthands, modelled on the same AuthAPI. */
module AuthRead {
  import opened Wrappers
  import opened Errors
  import opened Bson
  import opened Collector
  import opened Auth

  /** One FindOne with the filter `{key: value}`, then Decode: the error
      (nothing decoded) or the decoded record. */
  method GetCredentials<D>(api: AuthAPI<D>, key: string, value: Value, fault: Option<Error>)
    returns (creds: Option<D>, err: Option<Error>)
    modifies api.credentials`calls
    ensures |api.credentials.calls| == |old(api.credentials.calls)| + 1
    ensures api.credentials.calls[..|old(api.credentials.calls)|] == old(api.credentials.calls)
    ensures var call := api.credentials.calls[|old(api.credentials.calls)|];
      && call.FindOneCall? && call.filter == Some([(key, value)])
      && (creds, err) == FindOutcome(call.found, api.unmarshal)
    ensures LookedUp(api.credentials.docs, key, value, fault, api.unmarshal, creds, err)
  {
    var res := api.credentials.FindOne(Some([(key, value)]), fault);
    FindOutcomeIsLookup(api.credentials.docs, key, value, fault, api.unmarshal, res);
    if res.Err? {
      return None, Some(res.error);
    }
    var decoded := api.unmarshal(res.value);
    if decoded.Err? {
      return None, Some(decoded.error);
    }
    return Some(decoded.value), None;
  }

  method GetCredentialsByID<D>(api: AuthAPI<D>, id: ObjectId, fault: Option<Error>)
    returns (creds: Option<D>, err: Option<Error>)
    modifies api.credentials`calls
    ensures |api.credentials.calls| == |old(api.credentials.calls)| + 1
    ensures api.credentials.calls[..|old(api.credentials.calls)|] == old(api.credentials.calls)
    ensures var call := api.credentials.calls[|old(api.credentials.calls)|];
      && call.FindOneCall? && call.filter == Some([("_id", Oid(id))])
      && (creds, err) == FindOutcome(call.found, api.unmarshal)
    ensures LookedUp(api.credentials.docs, "_id", Oid(id), fault, api.unmarshal, creds, err)
  {
    creds, err := GetCredentials(api, "_id", Oid(id), fault);
  }

  method GetCredentialsByEmail<D>(api: AuthAPI<D>, email: string, fault: Option<Error>)
    returns (creds: Option<D>, err: Option<Error>)
    modifies api.credentials`calls
    ensures |api.credentials.calls| == |old(api.credentials.calls)| + 1
    ensures api.credentials.calls[..|old(api.credentials.calls)|] == old(api.credentials.calls)
    ensures var call := api.credentials.calls[|old(api.credentials.calls)|];
      && call.FindOneCall? && call.filter == Some([("email", Str(email))])
      && (creds, err) == FindOutcome(call.found, api.unmarshal)
    ensures LookedUp(api.credentials.docs, "email", Str(email), fault, api.unmarshal, creds, err)
  {
    creds, err := GetCredentials(api, "email", Str(email), fault);
  }
}
