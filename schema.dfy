/** CredentialsSchema: the `$jsonSchema` validator the credentials collection
    is created with, as a predicate on documents. Only what the schema states
    is checked: it has no `additionalProperties` clause, so keys it does not
    mention pass, and the hex `pattern` is not anchored, so it is searched for
    anywhere in the string rather than matched against the whole of it. */
module Schema {
  import opened Bytes
  import opened Wrappers
  import opened Errors
  import opened Bson
  import Hex
  import EmailPattern
  import StructCodec
  import ByteSlice
  import opened Credentials

  /** `required`: the keys a document must have. */
  const RequiredKeys: set<string> := {"email", "hash", "salt", "validated"}

  /** The keys `properties` gives a rule for. */
  const PropertyKeys: set<string> :=
    {"_id", "email", "hash", "salt", "validated", "ts_created", "ts_updated"}

  /** A character of `[0-9a-fA-F]`: one whose code is a byte the hex decoder accepts. */
  predicate IsHexDigit(c: char) {
    c as int < 256 && Hex.IsHexByte(c as int)
  }

  predicate AllHexDigits(s: string) {
    forall k | 0 <= k < |s| :: IsHexDigit(s[k])
  }

  /** The unanchored `pattern: "[0-9a-fA-F]+"`: some non-empty run of hex digits
      occurs somewhere in the string. */
  predicate MatchesHexPattern(s: string) {
    exists i, j | 0 <= i < j <= |s| :: AllHexDigits(s[i..j])
  }

  /** The hash and salt rule: a string of at least `2 * minBytes` characters
      (`minLength`) matching the hex pattern. */
  predicate HexStringRule(v: Value, minBytes: nat) {
    v.Str? && |v.s| >= 2 * minBytes && MatchesHexPattern(v.s)
  }

  /** The rule `properties` gives the value stored under `key`. */
  predicate PropertyRule(key: string, v: Value) {
    if key == "_id" then v.Oid?
    else if key == "email" then v.Str? && EmailPattern.Matches(v.s)
    else if key == "hash" then HexStringRule(v, HashMinLength)
    else if key == "salt" then HexStringRule(v, SaltMinLength)
    else if key == "validated" then v.Bool?
    else if key == "ts_created" || key == "ts_updated" then v.Time?
    else true
  }

  /** The whole validator. */
  predicate Accepts(d: Document) {
    RequiredKeys <= d.Keys && forall k | k in d :: PropertyRule(k, d[k])
  }

  /** The unanchored pattern holds exactly when one hex digit occurs anywhere. */
  lemma HexPatternIff(s: string)
    ensures MatchesHexPattern(s) <==> exists k | 0 <= k < |s| :: IsHexDigit(s[k])
  {
    if MatchesHexPattern(s) {
      var i, j :| 0 <= i < j <= |s| && AllHexDigits(s[i..j]);
      assert s[i..j][0] == s[i];
    }
    if k :| 0 <= k < |s| && IsHexDigit(s[k]) {
      assert AllHexDigits(s[k..k + 1]);
    }
  }

  /** Stored secrets: the hex text of `bs` passes the rule for a minimum of
      `minBytes` bytes exactly when `bs` has at least `minBytes` bytes. */
  lemma HexLengthMeetsMinimum(bs: seq<Byte>, minBytes: nat)
    requires minBytes > 0
    ensures HexStringRule(StructCodec.BytesValue(bs), minBytes) <==> |bs| >= minBytes
  {
    var s := Hex.EncodeToString(bs);
    if |bs| >= minBytes {
      assert AllHexDigits(s[0..1]);
    }
  }

  /** The schema accepts the stored form of a record exactly when its email
      matches the email pattern and hash and salt have at least the minimum
      number of bytes. Every other field has the right type by construction. */
  lemma AcceptsCredentialsIff(c: Credentials)
    ensures Accepts(ToBson(c)) <==>
      EmailPattern.Matches(c.email) && |c.hash| >= HashMinLength && |c.salt| >= SaltMinLength
  {
    var d := ToBson(c);
    ToBsonValues(c);
    HexLengthMeetsMinimum(c.hash, HashMinLength);
    HexLengthMeetsMinimum(c.salt, SaltMinLength);
    assert PropertyRule("email", d["email"]) <==> EmailPattern.Matches(c.email);
    assert PropertyRule("hash", d["hash"]) <==> |c.hash| >= HashMinLength;
    assert PropertyRule("salt", d["salt"]) <==> |c.salt| >= SaltMinLength;
    if EmailPattern.Matches(c.email) && |c.hash| >= HashMinLength && |c.salt| >= SaltMinLength {
      forall k | k in d ensures PropertyRule(k, d[k]) {
        assert k in FieldKeys;
      }
    }
  }

  /** Without `additionalProperties`, a key the schema does not describe (such as
      `ts_toexpire`, or any unknown field) never makes a document fail. */
  lemma UnknownKeysAccepted(d: Document, key: string, v: Value)
    requires key !in PropertyKeys
    requires Accepts(d)
    ensures Accepts(d[key := v])
  {
    var e := d[key := v];
    forall k | k in e ensures PropertyRule(k, e[k]) {
      if k != key { assert e[k] == d[k]; }
    }
  }

  /** The ObjectID the store adds to a document without `_id` never changes
      the schema's verdict. */
  lemma AcceptsWithObjectId(d: Document, id: ObjectId)
    requires "_id" !in d
    ensures Accepts(d["_id" := Oid(id)]) <==> Accepts(d)
  {
    var e := d["_id" := Oid(id)];
    if Accepts(d) {
      forall k | k in e ensures PropertyRule(k, e[k]) {
        if k != "_id" { assert e[k] == d[k]; }
      }
    }
    if Accepts(e) {
      forall k | k in d ensures PropertyRule(k, d[k]) {
        assert e[k] == d[k];
      }
    }
  }

  /** A document without any of the required keys fails. */
  lemma RequiredKeysNeeded(d: Document, key: string)
    requires key in RequiredKeys && key !in d
    ensures !Accepts(d)
  {
  }

  /** `_id` and `ts_created` are not required: dropping them keeps a document valid. */
  lemma IdAndCreatedOptional(d: Document)
    requires Accepts(d)
    ensures Accepts(d - {"_id", "ts_created"})
  {
    var e := d - {"_id", "ts_created"};
    forall k | k in e ensures PropertyRule(k, e[k]) {
      assert e[k] == d[k];
    }
  }

  /** Because the pattern is not anchored, a hash of one hex digit followed by 63
      non-hex characters passes the schema, although UnmarshalBSONValue cannot
      decode it. */
  lemma NonHexPaddingAccepted()
    ensures var s := seq(64, i => if i == 0 then 'a' else 'z');
      && HexStringRule(Str(s), HashMinLength)
      && StructCodec.BytesField(map["hash" := Str(s)], "hash") == Err(InvalidByte('z' as int))
  {
    var s := seq(64, i => if i == 0 then 'a' else 'z');
    assert AllHexDigits(s[0..1]);
    Utf8OfAscii(s);
    var u := Utf8(s);
    var w := Wire(Str(s)).1;
    assert w == Int32LE(65) + u + [0];
    ReadInt32LEOfInt32LE(65);
    assert w[..4] == Int32LE(65);
    assert ByteSlice.DeclaredLength(w) == 65;
    assert w[4..4 + 65 - 1] == u;
    assert u[0] == 'a' as int && u[1] == 'z' as int;
    assert Hex.DecodeString(u) == ([], Some(InvalidByte('z' as int)));
  }
}
