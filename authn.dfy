/** AuthNAPI: the authentication service's read-only view of the credentials.
    Its dependency interface declares no operations yet; the model gives it the
    Collector collection, whose FindOne is the one operation its lookups use. */
module AuthN {
  import opened Wrappers
  import opened Errors
  import opened Bson
  import opened Collector
  import opened Auth

  const UserDatabase: string := "user"
  const CredentialsCollection: string := "credentials"

  class AuthNAPI<D> {
    const collection: Collection
    const unmarshal: Document -> Result<D, Error>

    /** NewAuthNAPI. */
    constructor (collection: Collection, unmarshal: Document -> Result<D, Error>)
      ensures this.collection == collection && this.unmarshal == unmarshal
    {
      this.collection := collection;
      this.unmarshal := unmarshal;
    }

    /** One FindOne with the filter `{key: value}`, then Decode. */
    method GetCredentials(key: string, value: Value, fault: Option<Error>)
      returns (creds: Option<D>, err: Option<Error>)
      modifies collection`calls
      ensures |collection.calls| == |old(collection.calls)| + 1
      ensures collection.calls[..|old(collection.calls)|] == old(collection.calls)
      ensures var call := collection.calls[|old(collection.calls)|];
        && call.FindOneCall? && call.filter == Some([(key, value)])
        && (creds, err) == FindOutcome(call.found, unmarshal)
      ensures LookedUp(collection.docs, key, value, fault, unmarshal, creds, err)
    {
      var res := collection.FindOne(Some([(key, value)]), fault);
      FindOutcomeIsLookup(collection.docs, key, value, fault, unmarshal, res);
      var out := FindOutcome(res, unmarshal);
      creds, err := out.0, out.1;
    }

    method GetCredentialsByID(id: ObjectId, fault: Option<Error>)
      returns (creds: Option<D>, err: Option<Error>)
      modifies collection`calls
      ensures |collection.calls| == |old(collection.calls)| + 1
      ensures collection.calls[..|old(collection.calls)|] == old(collection.calls)
      ensures var call := collection.calls[|old(collection.calls)|];
        && call.FindOneCall? && call.filter == Some([("_id", Oid(id))])
        && (creds, err) == FindOutcome(call.found, unmarshal)
      ensures LookedUp(collection.docs, "_id", Oid(id), fault, unmarshal, creds, err)
    {
      creds, err := GetCredentials("_id", Oid(id), fault);
    }

    method GetCredentialsByEmail(email: string, fault: Option<Error>)
      returns (creds: Option<D>, err: Option<Error>)
      modifies collection`calls
      ensures |collection.calls| == |old(collection.calls)| + 1
      ensures collection.calls[..|old(collection.calls)|] == old(collection.calls)
      ensures var call := collection.calls[|old(collection.calls)|];
        && call.FindOneCall? && call.filter == Some([("email", Str(email))])
        && (creds, err) == FindOutcome(call.found, unmarshal)
      ensures LookedUp(collection.docs, "email", Str(email), fault, unmarshal, creds, err)
    {
      creds, err := GetCredentials("email", Str(email), fault);
    }
  }
}
