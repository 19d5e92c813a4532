# Credentials storage of matt-hoiland/architecting, in Dafny

This project models the credentials-storage core of the `architecting` services:

- **ByteSlice.** The codec that stores a password hash or a salt as the BSON string of its lower-case hex text, and reads it back by parsing the BSON string framing by hand. Its code is in `data/byteslice.go`; `data/authcredentials.go` repeats the same code byte for byte.
- **Credentials records.** The `Credentials` and `AuthCredentials` records, with their document keys, `omitempty` tags and JSON tags. `NewCredentials` is modelled with the clock passed in.
- **CredentialsSchema.** The `$jsonSchema` validator of the credentials collection, written as predicates. Its regular expressions are written out as recognisers.
- **Collector.** The document collection the repository relies on, as a class over a sequence of documents. Its operations are InsertOne, FindOne, DeleteOne and UpdateByID.
- **AuthAPI and AuthNAPI.** The repositories over that collection: lookups by key, email and id; inserts; and the operations that are not implemented yet. `create.go` and `read.go`, the earlier revisions of the insert and the lookups, are modelled as methods on the same AuthAPI.
- **LevelFromString.** The log-level parser.

Modules follow the source files:

| module | file | models |
|---|---|---|
| `Hex` | `hex.dfy` | Go's `encoding/hex`, as the codec uses it |
| `Bson` | `bson.dfy` | BSON values, the int32 prefix and the string framing |
| `ByteSlice` | `byteslice.dfy` | the codec: `MarshalBSONValue` as a function, `UnmarshalBSONValue` as a method over fresh buffers, `Unmarshaled` as its specification |
| `StructCodec` | `structcodec.dfy` | field-level rules the driver applies to tagged struct fields |
| `Credentials` | `credentials.dfy` | the record, `NewCredentials`, the stored document and the JSON form |
| `AuthCredentials` | `authcredentials.dfy` | the smaller record |
| `EmailPattern` | `email_pattern.dfy` | the schema's anchored e-mail pattern |
| `Schema` | `schema.dfy` | CredentialsSchema |
| `Collector` | `collector.dfy` | the `Collection` class; each operation's effect is given by a specification function or predicate, with lemmas |
| `Auth` | `auth.dfy` | the `AuthAPI` class, generic in the record type `D` and its codec |
| `AuthCreate` | `auth_create.dfy` | `create.go` |
| `AuthRead` | `auth_read.dfy` | `read.go` |
| `AuthN` | `authn.dfy` | `AuthNAPI` |
| `Logging` | `logging.dfy` | `LevelFromString` |
| `Scenario` | `scenario.dfy` | new, insert, then fetch by id |

Go's `error` is `Option<Error>`. The two runtime panics `UnmarshalBSONValue` can hit are modelled as error values: `make` with a negative length, and `data[:-1]` on an empty slice. A transport or server failure of the store is an input, `fault`.

The collection records every call and its reply in a ghost log, `calls`. This lets the API methods state that they made exactly one FindOne or InsertOne, and with which argument.

### Where the code differs from its stated intent

The model follows the code in each of these cases:

- **Hex pattern.** The hash and salt `pattern` `[0-9a-fA-F]+` is not anchored. The schema therefore accepts any string of 64 or more characters that contains one hex digit (`Schema.HexPatternIff`). That includes strings the codec cannot decode (`Schema.NonHexPaddingAccepted`).
- **Unknown keys.** The schema has no `additionalProperties` clause, so unknown keys pass (`Schema.UnknownKeysAccepted`). `ts_toexpire` has no rule at all.
- **Terminator.** The codec never checks that the last content byte is `0x00` (`ByteSlice.TerminatorUnchecked`).
- **Failed decode.** A hex error still overwrites the target with the prefix decoded before the bad byte (`ByteSlice.OverwrittenOnHexError`).
- **"Most recent".** The doc comments promise "the most recent" document for lookups and deletes. The lookup is a plain FindOne without a sort, so any matching document may come back.
- **JSON `omitempty`.** The JSON tags put `omitempty` on `_id` and on the timestamps. `encoding/json` ignores `omitempty` on arrays of fixed, non-zero length (an ObjectID) and on structs (a `time.Time`), so those keys are always rendered (`Credentials.ToJson`).
- **Trailing line feed.** The store evaluates the e-mail pattern with PCRE, whose `$` also matches before a final line feed. An address followed by one line feed therefore passes the schema (`EmailPattern.AcceptsTrailingNewline`).
- **Stored but reported as failed.** An InsertOne that succeeds with a non-ObjectID `_id` leaves the document stored. InsertCredentials still reports "unrecognized type returned" (`Auth.InsertOutcomeMeaning`).

## Model

Functions and predicates without a contract of their own give the effect of an operation. Their rows name the lemmas that state what they mean.

| member | source | states |
|---|---|---|
| Hex.EncodeToString | data/byteslice.go:18 | the hex text has two characters per byte, all of them lower-case hex digits |
| Hex.DecodeString | data/byteslice.go:40 | hex decoding never yields more than half as many bytes as it reads |
| Hex.DecodeEncode | data/byteslice.go:18-40 | decoding the UTF-8 bytes of the hex text of `b` gives `b` and no error |
| Hex.EncodeDecode | data/byteslice.go:18-40 | even-length lower-case hex text decodes without error and re-encodes to itself |
| Hex.DecodeSucceedsIff | data/byteslice.go:40-43 | decoding has no error exactly when the length is even and every byte is a hex digit |
| Hex.DecodeLength | data/byteslice.go:40 | an error-free decode yields exactly half as many bytes as it reads |
| Bson.ReadInt32LEOfInt32LE | data/byteslice.go:28-29 | reading back the little-endian four bytes of an int32 gives the same value |
| Bson.Int32LEOfReadInt32LE | data/byteslice.go:28-29 | any four bytes are the encoding of the int32 read from them |
| ByteSlice.MarshalBSONValue | data/byteslice.go:17-21 | the payload a ByteSlice is stored as; MarshalFraming gives its exact bytes and RoundTrip shows the unmarshaller inverts it |
| ByteSlice.Unmarshaled | data/byteslice.go:24-48 | the target and error UnmarshalBSONValue leaves; UnmarshalBSONValue is proved to compute it, and SucceedsIff, TruncatedKeepsTarget, UnguardedLengths, TrailingBytesIgnored, TerminatorUnchecked and TargetAssignedOnHexPath state its cases |
| ByteSlice.MarshalFraming | data/byteslice.go:17-21 | the payload is a string tag, then the int32 `2·len(b)+1` (little-endian), then the hex text, then one `0x00`: `2·len(b)+5` bytes in all |
| ByteSlice.RoundTrip | data/byteslice.go:17-48 | unmarshalling the marshalled payload restores the bytes exactly, with no error, including the empty slice, whatever the target held |
| ByteSlice.UnmarshalBSONValue | data/byteslice.go:24-48 | the method's output target and error are those of `Unmarshaled`: read n, read n bytes, drop the last, hex-decode; `btype` is not read |
| ByteSlice.ReadFull | data/byteslice.go:35-38 | copies as many bytes as remain, up to the buffer size, and leaves the rest of the buffer as it was; EOF when none, UnexpectedEOF when some but too few |
| ByteSlice.TruncatedKeepsTarget | data/byteslice.go:28-38 | EOF or UnexpectedEOF is returned exactly when the prefix or the content is short, and then the target is unchanged |
| ByteSlice.UnguardedLengths | data/byteslice.go:34-40 | a negative n is exactly the failed `make`, n = 0 exactly the failed `data[:-1]`, and both leave the target unchanged |
| ByteSlice.TrailingBytesIgnored | data/byteslice.go:34-35 | bytes after the first n content bytes do not affect the result |
| ByteSlice.TerminatorUnchecked | data/byteslice.go:40 | the last content byte is dropped whatever its value |
| ByteSlice.TargetAssignedOnHexPath | data/byteslice.go:40-43 | once the framing is read, the target becomes the hex decoding's result whatever it held before, error or not |
| ByteSlice.OverwrittenOnHexError | data/byteslice.go:40-43 | a payload declaring n = 4 with content `00z` and a terminator, decoded into a target holding `[1,2]`, leaves the target `[0]` and returns InvalidByte('z') |
| ByteSlice.SucceedsIff | data/byteslice.go:24-48 | no error exactly when n is positive and fits the buffer, n−1 is even, and the n−1 content bytes are all hex digits |
| ByteSlice.HexErrorIsNotEof | data/byteslice.go:40-43 | the hex decoder never reports EOF or UnexpectedEOF, so those always mean truncation |
| ByteSlice.HexErrorIsNotPanic | data/byteslice.go:40-43 | the hex decoder never reports either of the two length panics |
| StructCodec.BytesValue | data/credentials.go:36-39 | a ByteSlice field is stored as the value whose raw bytes are MarshalBSONValue's payload |
| StructCodec.BytesFieldRoundTrip | data/credentials.go:36-39 | a stored ByteSlice field decodes to the bytes it was written from |
| StructCodec.BytesFieldOfBoolean | data/credentials.go:36-39 | a boolean stored under a ByteSlice key is handed to the codec and fails with UnexpectedEOF |
| StructCodec.PutOmitEmpty | data/credentials.go:28 | the key is present exactly when the value is non-zero or was there already; no other key is added, and every other key keeps its value |
| StructCodec.OidFieldRoundTrip | data/credentials.go:28 | an `omitempty` ObjectID written into a document decodes back to itself, the nil ObjectID included, and other keys decode as before |
| StructCodec.TimeFieldRoundTrip | data/credentials.go:46-50 | an `omitempty` or plain time field written into a document decodes back to itself, the zero time included, and other keys decode as before |
| StructCodec.StrFieldRoundTrip | data/credentials.go:33 | a string written under a key decodes back to itself, and other keys decode as before |
| StructCodec.BoolFieldRoundTrip | data/credentials.go:42 | a boolean written under a key decodes back to itself, and other keys decode as before |
| Credentials.NewCredentials | data/credentials.go:53-64 | email, hash and salt are stored as given and the creation time is the one clock reading; id, validated, expiry and update time are zero |
| Credentials.NewCredentialsDocument | data/credentials.go:53-64 | a new record is stored with exactly email, hash, salt, validated and ts_created |
| Credentials.ToBson | data/credentials.go:26-51 | the document has only the tagged keys; email, hash, salt, validated and ts_created are always written; `_id`, `ts_toexpire` and `ts_updated` exactly when non-zero |
| Credentials.FromBson | data/credentials.go:26-51 | the driver's decoding of a stored document; FromBsonToBson, FromBsonWithInsertedId, FromBsonIgnoresUnknownKeys and FromBsonRejectsBadHash state what it gives |
| Credentials.FromBsonToBson | data/credentials.go:26-51 | decoding the stored document gives the record back, hash and salt included, when the secrets fit the int32 prefix |
| Credentials.FromBsonWithInsertedId | data/credentials.go:28 | the stored document with an added `_id` decodes to the record carrying that id |
| Credentials.FromBsonIgnoresUnknownKeys | data/credentials.go:26-51 | a key no field names does not change the decoding |
| Credentials.FromBsonRejectsBadHash | data/credentials.go:36 | a stored hash `"zz"` makes decoding fail with InvalidByte('z') |
| Credentials.ToJson | data/credentials.go:26-51 | the JSON form never carries hash or salt, and always carries `_id`, email, validated and the three timestamps |
| Credentials.ToJsonIndependentOfSecrets | data/credentials.go:36-39 | changing hash or salt does not change the JSON form |
| AuthCredentials.ToBson | data/authcredentials.go:16-23 | email, hash, salt and validated are always written; `_id` and `ts_updated` exactly when non-zero; no other key |
| AuthCredentials.FromBson | data/authcredentials.go:16-58 | the driver's decoding of a stored document; FromBsonToBson states that it inverts ToBson |
| AuthCredentials.FromBsonToBson | data/authcredentials.go:16-58 | decoding the stored document gives the record back, hash and salt through the repeated codec |
| AuthCredentials.ToJson | data/authcredentials.go:19-20 | the JSON form never carries hash or salt |
| EmailPattern.Matches | data/credentials.go:78 | the e-mail pattern, with PCRE's `$`; JoinedAddressMatches and DomainFollowsLastAt state how a match divides at its `@`, AcceptsTrailingNewline the final line feed, and the examples below its edge cases |
| EmailPattern.JoinedAddressMatches | data/credentials.go:78 | any local part, an `@` and any domain together match the pattern |
| EmailPattern.DomainFollowsLastAt | data/credentials.go:78 | when the pattern matches at an `@`, no `@` follows it: the domain starts after the last `@` |
| EmailPattern.DotAtomHasNoAt | data/credentials.go:78 | an unquoted local part contains no `@` |
| EmailPattern.DomainHasNoAt | data/credentials.go:78 | neither kind of domain contains an `@` |
| EmailPattern.SplitKeepsChars | data/credentials.go:78 | every character other than the separator lies in one of the dot-separated pieces |
| EmailPattern.AcceptsTrailingNewline | data/credentials.go:78 | `user@example.com` followed by one line feed matches, since `$` also matches before a final line feed |
| EmailPattern.AcceptsPlainAddress | data/credentials.go:78 | `user@example.com` matches |
| EmailPattern.AcceptsAddressLiteral | data/credentials.go:78 | `user@[192.168.0.1]` matches |
| EmailPattern.AcceptsOutOfRangeQuad | data/credentials.go:78 | `a@[999.999.999.999]` matches: the groups are not range-checked |
| EmailPattern.AcceptsQuotedLocalPart | data/credentials.go:78 | a quoted local part may contain `@` |
| EmailPattern.RejectsMissingAt | data/credentials.go:78 | `not-an-email` does not match |
| EmailPattern.RejectsShortTopLevelLabel | data/credentials.go:78 | `user@example.c` does not match: the top-level label needs two letters |
| EmailPattern.AtomIsDotAtom | data/credentials.go:78 | one run of allowed characters is a valid local part |
| EmailPattern.TwoLabelsAreHostName | data/credentials.go:78 | a label, a dot and an alphabetic label of two or more letters form a valid domain |
| EmailPattern.GroupsAreAddressLiteral | data/credentials.go:78 | four groups of one to three digits, dotted and bracketed, form a valid domain |
| Schema.Accepts | data/credentials.go:68-101 | the validator; AcceptsCredentialsIff, UnknownKeysAccepted, RequiredKeysNeeded, IdAndCreatedOptional, AcceptsWithObjectId and HexPatternIff state what it accepts |
| Schema.HexPatternIff | data/credentials.go:83 | the unanchored hex pattern holds exactly when one hex digit occurs anywhere |
| Schema.HexLengthMeetsMinimum | data/credentials.go:80-89 | the stored hex text passes `minLength` 2·minimum and the pattern exactly when the bytes number at least the minimum |
| Schema.AcceptsCredentialsIff | data/credentials.go:66-99 | the stored form of a record passes exactly when the email matches and hash and salt have at least 32 bytes each |
| Schema.UnknownKeysAccepted | data/credentials.go:72-99 | adding a key without a rule (`ts_toexpire`, any unknown key) never makes an accepted document fail |
| Schema.RequiredKeysNeeded | data/credentials.go:71 | a document missing email, hash, salt or validated fails |
| Schema.IdAndCreatedOptional | data/credentials.go:71 | removing `_id` and `ts_created` from an accepted document keeps it accepted |
| Schema.AcceptsWithObjectId | data/credentials.go:73-75 | adding an ObjectID `_id` to a document without one does not change the verdict |
| Schema.NonHexPaddingAccepted | data/credentials.go:83 | one hex digit followed by 63 `z`s passes the hash rule, yet the codec rejects it with InvalidByte('z') |
| Collector.NextObjectId | internal/api/auth/dependencies.go:41-43 | the generated id is non-nil and above every stored ObjectID |
| Collector.InsertOneOutcome | internal/api/auth/dependencies.go:39-48 | InsertOne's reply and new contents; InsertOneMeaning and InsertOnePreservesValid state what they are |
| Collector.FindOneReply | internal/api/auth/dependencies.go:28-37 | the replies FindOne may give: the fault, a matching stored document, or ErrNoDocuments without a match; FindOneByIdIsDeterministic narrows it to one document for a lookup by `_id` |
| Collector.DeleteOneEffect | internal/api/auth/dependencies.go:16-26 | DeleteOne's count and new contents; DeleteOneCount and DeleteOnePreservesValid state what they are |
| Collector.UpdateByIDOutcome | internal/api/auth/dependencies.go:50-63 | UpdateByID's reply and new contents; UpdateByIDMeaning and UpdateByIDPreservesValid state what they are |
| Collector.InsertOneMeaning | internal/api/auth/dependencies.go:39-48 | a failed insert stores nothing; a fault is passed through; a successful one appends the caller's document under its own `_id` or a fresh non-nil ObjectID not in use, and reports that id |
| Collector.InsertOnePreservesValid | internal/api/auth/dependencies.go:39-48 | inserting keeps every document validated and every `_id` unique |
| Collector.Collection.InsertOne | internal/api/auth/dependencies.go:39-48 | a nil document gives ErrNilDocument; otherwise the reply and new contents are InsertOneOutcome's; the call is logged; validity is kept |
| Collector.Collection.FindOne | internal/api/auth/dependencies.go:28-37 | a nil filter gives ErrNilDocument; a fault gives the fault; otherwise any matching document, or ErrNoDocuments without a match; contents unchanged; the call is logged |
| Collector.FindOneByIdIsDeterministic | internal/api/auth/dependencies.go:28-32 | with unique ids, a FindOne by `_id` can only return the document with that id |
| Collector.Collection.DeleteOne | internal/api/auth/dependencies.go:16-26 | a nil filter gives ErrNilDocument; a fault changes nothing; otherwise one matching document is removed with count 1, or nothing and count 0 |
| Collector.DeleteOneCount | internal/api/auth/dependencies.go:16-21 | DeleteOne removes at most one document, the count says how many, and no document is added |
| Collector.DeleteOnePreservesValid | internal/api/auth/dependencies.go:16-21 | deleting keeps every document validated and every `_id` unique |
| Collector.Collection.UpdateByID | internal/api/auth/dependencies.go:50-63 | a nil id gives ErrNilValue, a nil update ErrNilDocument, an empty update ErrEmptyUpdate; otherwise reply and contents are UpdateByIDOutcome's; validity is kept |
| Collector.UpdateByIDMeaning | internal/api/auth/dependencies.go:50-58 | an unknown id succeeds with MatchedCount 0 and no change; an error changes nothing; otherwise only the document with that id changes, it keeps its id, and MatchedCount is 1 |
| Collector.UpdateByIDPreservesValid | internal/api/auth/dependencies.go:50-58 | updating keeps every document validated and every `_id` unique |
| Collector.Apply | internal/api/auth/dependencies.go:56-58 | an update keeps every key and adds only keys it names |
| Collector.ApplySetsLast | internal/api/auth/dependencies.go:56-58 | a key the update sets has the last value given for it |
| Collector.ApplyKeepsUntouched | internal/api/auth/dependencies.go:56-58 | a key the update does not name keeps its value |
| Collector.IndexOfId | internal/api/auth/dependencies.go:51 | finds a document with the given `_id`, and finds none exactly when no document has it |
| Collector.Collection.constructor | internal/api/auth/dependencies.go:15 | the starting state the rest of the model assumes: a live, empty collection created with the given schema as its validator, valid, with an empty log |
| Auth.AuthAPI.constructor | internal/api/auth/api.go:28-32 | the API holds the given collection, set once: it is a constant field |
| Auth.AuthAPI.DeleteCredentials | internal/api/auth/api.go:35-37 | always ErrMethodUnimplemented; nothing may be modified |
| Auth.AuthAPI.DeleteCredentialsByEmail | internal/api/auth/api.go:40-42 | always ErrMethodUnimplemented; nothing may be modified |
| Auth.AuthAPI.DeleteCredentialsByID | internal/api/auth/api.go:45-47 | always ErrMethodUnimplemented; nothing may be modified |
| Auth.AuthAPI.UpdateCredentials | internal/api/auth/api.go:88-90 | always no record and ErrMethodUnimplemented; nothing may be modified |
| Auth.AuthAPI.FindCredentials | internal/api/auth/api.go:51-62 | exactly one call is logged: a FindOne with filter `{key: value}`. The result is Decode of its reply, and it keeps the lookup promise `LookedUp` |
| Auth.AuthAPI.FindCredentialsByEmail | internal/api/auth/api.go:65-67 | exactly one FindOne with filter `{"email": email}`, and the lookup promise |
| Auth.AuthAPI.FindCredentialsByID | internal/api/auth/api.go:70-72 | exactly one FindOne with filter `{"_id": id}`, and the lookup promise |
| Auth.FindOutcome | internal/api/auth/api.go:55-61 | a record or an error, never both; a lookup error is returned unchanged |
| Auth.FindOutcomeIsLookup | internal/api/auth/api.go:51-61 | whatever FindOne replies, the decoded result keeps the lookup promise: the fault, ErrNoDocuments without a match, a record only if a matching document decodes to it |
| Auth.SingleFilter | internal/api/auth/api.go:52 | the one-entry filter matches exactly the documents holding that value under that key |
| Auth.AuthAPI.InsertCredentials | internal/api/auth/api.go:75-85 | exactly one InsertOne with the caller's record. The new contents are that insert's, and the result is InsertOutcome of its reply. A nil record reaches InsertOne and gets ErrNilDocument, as the mocked store of internal/api/auth/api_test.go answers it |
| Auth.InsertOutcome | internal/api/auth/api.go:77-84 | any error comes with the nil id; an insert error is returned unchanged |
| Auth.InsertOutcomeMeaning | internal/api/auth/api.go:75-85 | any error gives the nil id and a fault is returned unchanged. For a record without `_id`, success means it was appended under the returned fresh non-nil id, and failure means nothing was stored. A non-ObjectID `_id` is stored yet reported as "unrecognized type returned" |
| Auth.Marshaled | internal/api/auth/api.go:76 | the document passed to InsertOne is nil exactly when the record is |
| AuthCreate.InsertCredentials | internal/api/auth/create.go:12-22 | exactly one InsertOne with `creds`; the new contents are that insert's, and the result is InsertOutcome of its reply |
| AuthRead.GetCredentials | internal/api/auth/read.go:18-29 | exactly one FindOne with filter `{key: value}`; the result is Decode of its reply and keeps the lookup promise |
| AuthRead.GetCredentialsByID | internal/api/auth/read.go:10-12 | exactly one FindOne with filter `{"_id": id}`, and the lookup promise |
| AuthRead.GetCredentialsByEmail | internal/api/auth/read.go:14-16 | exactly one FindOne with filter `{"email": email}`, and the lookup promise |
| AuthN.AuthNAPI.constructor | internal/api/authn/api.go:15-19 | the API holds the given collection, set once |
| AuthN.AuthNAPI.GetCredentials | internal/api/authn/read.go:18-29 | exactly one FindOne with filter `{key: value}`; the result is Decode of its reply and keeps the lookup promise |
| AuthN.AuthNAPI.GetCredentialsByID | internal/api/authn/read.go:10-12 | exactly one FindOne with filter `{"_id": id}`, and the lookup promise |
| AuthN.AuthNAPI.GetCredentialsByEmail | internal/api/authn/read.go:14-16 | exactly one FindOne with filter `{"email": email}`, and the lookup promise |
| Scenario.InsertNewRecord | internal/api/auth/api.go:75-85 | inserting a record without id into the schema-checked collection succeeds exactly when the schema accepts it, and then appends it under a fresh non-nil id |
| Scenario.LookupStoredRecord | internal/api/auth/api.go:51-61 | a lookup by `_id` of the document just stored returns what it decodes to, without error |
| Scenario.OnlyLastHasId | internal/api/auth/dependencies.go:39-43 | with unique ids, only the last stored document carries its id |
| Scenario.StoreAndFetch | internal/api/auth/api.go:51-85 | insert then find by the returned id: the insert succeeds exactly when the email matches and the secrets have 32 bytes, and the fetched record is the one stored, with that id |
| Logging.ToUpper | lib/logging/logging.go:10 | same length, each character upper-cased on its own |
| Logging.LevelFromString | lib/logging/logging.go:9-30 | total. Without a warning, the level is the one whose keyword is the input's upper case; with one, it is InfoLevel and the warning is "Invalid level provided: " followed by the input as given |
| Logging.KeywordSelects | lib/logging/logging.go:11-25 | any input whose upper case is a keyword selects that keyword's level, with no warning |
| Logging.KeywordRoundTrip | lib/logging/logging.go:11-25 | each of PANIC, FATAL, ERROR, WARN, INFO, DEBUG and TRACE selects its own level |
| Logging.KeywordsDistinct | lib/logging/logging.go:11-25 | the seven levels have seven different keywords |
| Logging.ToUpperOfKeyword | lib/logging/logging.go:10 | upper-casing a keyword leaves it unchanged |
| Logging.LowerCaseKeyword | lib/logging/logging.go:10-25 | the lower-case spelling of each keyword selects the same level |
| Logging.CaseInsensitive | lib/logging/logging.go:10 | inputs with the same upper case give the same level and the same warning outcome |
| Logging.WarningIff | lib/logging/logging.go:26-28 | a warning is written exactly when the input's upper case is no keyword, and it quotes the input unchanged |
| Logging.InvalidLevel | lib/logging/logging.go:26-28 | `invalid` gives InfoLevel and the warning "Invalid level provided: invalid" |
| Logging.InvalidLevelUpperCase | lib/logging/logging.go:26-28 | `INVALID` gives InfoLevel and the warning "Invalid level provided: INVALID" |
| Logging.DotlessIName | lib/logging/logging.go:10 | `ınfo` (dotless i) selects InfoLevel, since it upper-cases to `INFO` |

## Left out

- Context arguments, deadlines and the `opts ...` options of the collection calls are not modelled. None of the core's branches depend on them.
- Logging output is not modelled: `log.Error` in InsertCredentials and logrus's sink. The warning of LevelFromString is returned as a value instead of written.
- The clock (`Timestamper`) becomes the `now` parameter of NewCredentials.
- Collector.NextObjectId: real ObjectIDs are built from a timestamp, a random value and a counter. The model only keeps the promise the code relies on: a generated id is non-nil and not in use.
- Collector.Collection: a `fault` always leaves the collection unchanged. The model does not cover a failure that arrives after the server applied the write.
- Collector.Collection: schema validation is checked before the duplicate-key check. The two errors are told apart only by that order.
- Collector: filters are field equalities and updates are `$set` pairs, the only forms the core builds. Other query and update operators are not modelled. A pipeline or replacement passed as an update is not rejected.
- Schema.PropertyRule: `bsonType: "timestamp"` is taken to accept the time value the driver writes. The driver writes `time.Time` as a BSON date-time, which a store enforcing "timestamp" strictly would refuse. Whether it does is store behaviour this model does not decide.
- Schema.HexStringRule: `minLength` counts the characters of the string. For the hex text the codec writes, this equals the byte count.
- EmailPattern: only the patterns that occur in the schema are modelled, as recognisers. There is no general regular-expression engine.
- Logging.UpperRune: models strings.ToUpper only for ASCII letters and the two non-ASCII letters whose upper case is ASCII. Every other character is kept as it is. Their real upper case is never ASCII, so the choice of level is unaffected.
- Bson.Value: `Time` stands for both BSON date-time and timestamp, and holds an integer exactly. The driver's millisecond rounding of `time.Time` is not modelled.
- Credentials.FromBson: decodes fields in struct order. The driver decodes in document order, so if several fields are bad, the first error reported may differ.
- ByteSlice.RoundTrip: demands that `2·len(b)+1` fits the int32 prefix. Longer inputs wrap around in the cast; `Bson.Int32LE` writes out that wrap-around. The memory a huge `make` would need is not modelled.
- Auth.AuthAPI: a nil record is `None`, and the collection answers its InsertOne with ErrNilDocument. This follows the mocked store of internal/api/auth/api_test.go:135-144. With the real driver, a nil `*UserCredentials` reaches InsertOne as a non-nil interface value and fails while it is marshalled; that path is not modelled.
- Auth.AuthAPI.FindCredentials: the lookup value is one of the four kinds the records store (string, boolean, ObjectID, time). A nil value, which in the store matches documents that lack the key, and values of other Go types are not modelled.
- StructCodec.OidField, StructCodec.StrField, StructCodec.BoolField, StructCodec.TimeField: a stored value of another kind is a TypeMismatch. The driver's default decoders also convert some other kinds, such as a hex string into an ObjectID or an ObjectID into its hex string, and the model does not.
- The record type of AuthAPI is a parameter `D` with a codec. The API is declared over `data.UserCredentials`, whose wrapper is not part of this model; it hands values to the driver without hex decoding. Its tests use `data.Credentials`, and `Scenario` instantiates `D` with that record.
- create.go and read.go call the collection through a field `collection`, which AuthAPI does not declare. It names the field `credentials`, so those files do not build beside api.go. They are modelled over `credentials`.
- AuthN.AuthNAPI: its dependency interface `DBCollection` declares no methods. The model gives it the Collector collection.
- The JSON forms are modelled as key/value maps, not as JSON text.
