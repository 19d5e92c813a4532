/** Collector: the document-store collection the repository is built on,
    as an in-memory collection of documents. The operations follow the
    contracts the interface documents (DeleteOne, FindOne, InsertOne,
    UpdateByID). Every call and its reply are appended to a ghost log, so
    callers can state which calls they made. A transport or server failure
    is passed in as `fault`; it leaves the collection as it was. */
module Collector {
  import opened Wrappers
  import opened Errors
  import opened Bson

  /** A query filter made only of field equalities (a `bson.D` of key/value pairs). */
  type Filter = seq<(string, Value)>

  /** An update document made only of `$set` pairs, applied in order. */
  type Update = seq<(string, Value)>

  datatype UpdateResult = UpdateResult(matchedCount: nat, modifiedCount: nat)

  /** One call on the collection together with its reply. */
  datatype Call =
    | DeleteOneCall(filter: Option<Filter>, deleted: Result<nat, Error>)
    | FindOneCall(filter: Option<Filter>, found: Result<Document, Error>)
    | InsertOneCall(document: Option<Document>, inserted: Result<Value, Error>)
    | UpdateByIDCall(id: Option<Value>, update: Option<Update>, updated: Result<UpdateResult, Error>)

  predicate Matches(d: Document, f: Filter) {
    forall i | 0 <= i < |f| :: f[i].0 in d && d[f[i].0] == f[i].1
  }

  predicate HasMatch(docs: seq<Document>, f: Filter) {
    exists i | 0 <= i < |docs| :: Matches(docs[i], f)
  }

  /** The stored documents: each has an `_id` and passed the collection's
      validator, and no two share an `_id` (the unique index on `_id`). */
  ghost predicate ValidDocs(docs: seq<Document>, validator: Document -> bool) {
    && (forall i | 0 <= i < |docs| :: "_id" in docs[i] && validator(docs[i]))
    && (forall i, j | 0 <= i < j < |docs| :: docs[i]["_id"] != docs[j]["_id"])
  }

  predicate IdTaken(docs: seq<Document>, id: Value) {
    exists i | 0 <= i < |docs| :: "_id" in docs[i] && docs[i]["_id"] == id
  }

  /** The ObjectID generated for a document without `_id`: one above every
      ObjectID in use, so never the nil id and never taken. */
  function NextObjectId(docs: seq<Document>): (n: ObjectId)
    ensures n != NilObjectId
    ensures forall i | 0 <= i < |docs| :: "_id" in docs[i] && docs[i]["_id"].Oid? ==> docs[i]["_id"].id < n
  {
    if docs == [] then 1
    else
      var rest := NextObjectId(docs[1..]);
      assert forall i | 1 <= i < |docs| :: docs[i] == docs[1..][i - 1];
      if "_id" in docs[0] && docs[0]["_id"].Oid? && docs[0]["_id"].id >= rest
      then docs[0]["_id"].id + 1
      else rest
  }

  /** InsertOne's effect: the reply and the documents afterwards. A document
      without `_id` is stored with a generated one; the caller's document is a
      value and is never changed. */
  function InsertOneOutcome(docs: seq<Document>, validator: Document -> bool,
                            document: Option<Document>, fault: Option<Error>): (Result<Value, Error>, seq<Document>)
  {
    if document.None? then (Err(ErrNilDocument), docs)
    else if fault.Some? then (Err(fault.value), docs)
    else
      var d := document.value;
      var id := if "_id" in d then d["_id"] else Oid(NextObjectId(docs));
      var stored := d["_id" := id];
      if !validator(stored) then (Err(DocumentValidationFailure), docs)
      else if IdTaken(docs, id) then (Err(DuplicateKey), docs)
      else (Ok(id), docs + [stored])
  }

  /** What InsertOne promises: a failed insert stores nothing; a successful one
      appends the caller's document, under its own `_id` or under a fresh
      non-nil ObjectID, and reports that id. */
  lemma InsertOneMeaning(docs: seq<Document>, validator: Document -> bool, d: Document, fault: Option<Error>)
    ensures var (r, after) := InsertOneOutcome(docs, validator, Some(d), fault);
      && (r.Err? ==> after == docs)
      && (fault.Some? ==> r == Err(fault.value))
      && (r.Ok? ==>
            && |after| == |docs| + 1 && after[..|docs|] == docs
            && after[|docs|] == d["_id" := r.value]
            && !IdTaken(docs, r.value)
            && ("_id" in d ==> r.value == d["_id"])
            && ("_id" !in d ==> r.value.Oid? && r.value.id != NilObjectId))
  {
    var (r, after) := InsertOneOutcome(docs, validator, Some(d), fault);
    if r.Ok? {
      assert (docs + [d["_id" := r.value]])[..|docs|] == docs;
    }
  }

  lemma InsertOnePreservesValid(docs: seq<Document>, validator: Document -> bool,
                                document: Option<Document>, fault: Option<Error>)
    requires ValidDocs(docs, validator)
    ensures ValidDocs(InsertOneOutcome(docs, validator, document, fault).1, validator)
  {
    var (r, after) := InsertOneOutcome(docs, validator, document, fault);
    if r.Ok? {
      var stored := after[|docs|];
      assert "_id" in stored && stored["_id"] == r.value;
      forall i, j | 0 <= i < j < |after| ensures after[i]["_id"] != after[j]["_id"] {
        if j == |docs| {
          assert after[i] == docs[i];
        } else {
          assert after[i] == docs[i] && after[j] == docs[j];
        }
      }
    }
  }

  /** FindOne's reply for a non-nil filter: the fault, a matching stored
      document (any one: there is no sort), or ErrNoDocuments. */
  predicate FindOneReply(docs: seq<Document>, f: Filter, fault: Option<Error>, r: Result<Document, Error>) {
    if fault.Some? then r == Err(fault.value)
    else if HasMatch(docs, f) then r.Ok? && r.value in docs && Matches(r.value, f)
    else r == Err(ErrNoDocuments)
  }

  /** With `_id` unique, a lookup by `_id` has only one possible answer. */
  lemma FindOneByIdIsDeterministic(docs: seq<Document>, validator: Document -> bool, id: Value,
                                   r: Result<Document, Error>, k: nat)
    requires ValidDocs(docs, validator)
    requires FindOneReply(docs, [("_id", id)], None, r)
    requires k < |docs| && docs[k]["_id"] == id
    ensures r == Ok(docs[k])
  {
    assert Matches(docs[k], [("_id", id)]);
    var j :| 0 <= j < |docs| && docs[j] == r.value;
    var f: Filter := [("_id", id)];
    assert f[0].0 == "_id" && f[0].1 == id;
    assert Matches(docs[j], f);
    assert docs[j]["_id"] == id;
  }

  /** DeleteOne's effect for a non-nil filter and no fault: one matching
      document (any one) is removed and DeletedCount is 1, or nothing matches,
      nothing is removed and DeletedCount is 0. */
  ghost predicate DeleteOneEffect(before: seq<Document>, f: Filter, r: Result<nat, Error>, after: seq<Document>) {
    if HasMatch(before, f) then
      r == Ok(1) && exists i | 0 <= i < |before| :: Matches(before[i], f) && after == before[..i] + before[i + 1..]
    else r == Ok(0) && after == before
  }

  /** DeleteOne removes at most one document, and DeletedCount says how many. */
  lemma DeleteOneCount(before: seq<Document>, f: Filter, r: Result<nat, Error>, after: seq<Document>)
    requires DeleteOneEffect(before, f, r, after)
    ensures r.Ok? && r.value <= 1 && |after| + r.value == |before|
    ensures forall d | d in after :: d in before
  {
    if HasMatch(before, f) {
      var i :| 0 <= i < |before| && Matches(before[i], f) && after == before[..i] + before[i + 1..];
      forall d | d in after ensures d in before {
        var k :| 0 <= k < |after| && after[k] == d;
        if k < i { assert after[k] == before[k]; } else { assert after[k] == before[k + 1]; }
      }
    }
  }

  lemma DeleteOnePreservesValid(before: seq<Document>, validator: Document -> bool, f: Filter,
                                r: Result<nat, Error>, after: seq<Document>)
    requires ValidDocs(before, validator)
    requires DeleteOneEffect(before, f, r, after)
    ensures ValidDocs(after, validator)
  {
    if HasMatch(before, f) {
      var i :| 0 <= i < |before| && Matches(before[i], f) && after == before[..i] + before[i + 1..];
      assert forall k | 0 <= k < |after| :: after[k] == before[if k < i then k else k + 1];
    }
  }

  /** `$set` pairs applied in order to a document. */
  function Apply(d: Document, u: Update): (r: Document)
    ensures d.Keys <= r.Keys
    ensures forall k | k in r && k !in d :: exists i | 0 <= i < |u| :: u[i].0 == k
    decreases |u|
  {
    if u == [] then d
    else
      var r := Apply(d[u[0].0 := u[0].1], u[1..]);
      assert forall k | k in r && k !in d && k != u[0].0 ::
        exists i | 1 <= i < |u| :: u[i].0 == k by {
        forall k | k in r && k !in d && k != u[0].0 ensures exists i | 1 <= i < |u| :: u[i].0 == k {
          var i :| 0 <= i < |u[1..]| && u[1..][i].0 == k;
          assert u[i + 1].0 == k;
        }
      }
      r
  }

  /** A key the update sets ends up with the last value the update gives it. */
  lemma {:induction false} ApplySetsLast(d: Document, u: Update, i: nat)
    requires i < |u|
    requires forall j | i < j < |u| :: u[j].0 != u[i].0
    ensures u[i].0 in Apply(d, u) && Apply(d, u)[u[i].0] == u[i].1
    decreases |u|
  {
    if i == 0 {
      ApplyKeepsUntouched(d[u[0].0 := u[0].1], u[1..], u[0].0);
    } else {
      ApplySetsLast(d[u[0].0 := u[0].1], u[1..], i - 1);
    }
  }

  /** A key the update does not name keeps its value. */
  lemma {:induction false} ApplyKeepsUntouched(d: Document, u: Update, k: string)
    requires k in d
    requires forall j | 0 <= j < |u| :: u[j].0 != k
    ensures Apply(d, u)[k] == d[k]
    decreases |u|
  {
    if u != [] {
      ApplyKeepsUntouched(d[u[0].0 := u[0].1], u[1..], k);
    }
  }

  /** The position of the document whose `_id` is `id`. */
  function IndexOfId(docs: seq<Document>, id: Value): (r: Option<nat>)
    ensures r.Some? ==> r.value < |docs| && "_id" in docs[r.value] && docs[r.value]["_id"] == id
    ensures r.None? <==> !IdTaken(docs, id)
  {
    if docs == [] then None
    else if "_id" in docs[0] && docs[0]["_id"] == id then Some(0)
    else
      var rest := IndexOfId(docs[1..], id);
      assert forall i | 1 <= i < |docs| :: docs[i] == docs[1..][i - 1];
      if rest.None? then None else Some(rest.value + 1)
  }

  /** UpdateByID's effect: UpdateOne with the filter `{_id: id}`. The `_id`
      cannot change, and the result must still pass the validator. */
  function UpdateByIDOutcome(docs: seq<Document>, validator: Document -> bool, id: Option<Value>,
                             update: Option<Update>, fault: Option<Error>): (Result<UpdateResult, Error>, seq<Document>)
  {
    if id.None? then (Err(ErrNilValue), docs)
    else if update.None? then (Err(ErrNilDocument), docs)
    else if update.value == [] then (Err(ErrEmptyUpdate), docs)
    else if fault.Some? then (Err(fault.value), docs)
    else match IndexOfId(docs, id.value)
      case None => (Ok(UpdateResult(0, 0)), docs)
      case Some(i) =>
        var was := docs[i];
        var now := Apply(was, update.value);
        if now["_id"] != id.value then (Err(ImmutableField), docs)
        else if !validator(now) then (Err(DocumentValidationFailure), docs)
        else (Ok(UpdateResult(1, if now == was then 0 else 1)), docs[i := now])
  }

  /** What UpdateByID promises: with no document of that `_id` it succeeds with
      MatchedCount 0 and changes nothing; otherwise it changes at most that one
      document, which keeps its `_id` and receives every `$set` value. */
  lemma UpdateByIDMeaning(docs: seq<Document>, validator: Document -> bool, id: Value,
                          update: Update, fault: Option<Error>)
    requires update != [] && fault.None?
    ensures var (r, after) := UpdateByIDOutcome(docs, validator, Some(id), Some(update), fault);
      && (!IdTaken(docs, id) ==> r == Ok(UpdateResult(0, 0)) && after == docs)
      && |after| == |docs|
      && (r.Err? ==> after == docs)
      && (r.Ok? && IdTaken(docs, id) ==>
            r.value.matchedCount == 1 &&
            exists k | 0 <= k < |docs| :: "_id" in docs[k] && docs[k]["_id"] == id
              && after == docs[k := Apply(docs[k], update)]
              && after[k]["_id"] == id)
  {
  }

  lemma UpdateByIDPreservesValid(docs: seq<Document>, validator: Document -> bool, id: Option<Value>,
                                 update: Option<Update>, fault: Option<Error>)
    requires ValidDocs(docs, validator)
    ensures ValidDocs(UpdateByIDOutcome(docs, validator, id, update, fault).1, validator)
  {
    var (r, after) := UpdateByIDOutcome(docs, validator, id, update, fault);
    if after != docs {
      var i := IndexOfId(docs, id.value).value;
      assert after == docs[i := Apply(docs[i], update.value)];
      assert forall k | 0 <= k < |after| :: after[k]["_id"] == docs[k]["_id"];
    }
  }

  class Collection {
    var docs: seq<Document>
    const validator: Document -> bool
    ghost var calls: seq<Call>

    ghost predicate Valid()
      reads this
    {
      ValidDocs(docs, validator)
    }

    /** An empty collection created with the given validator. */
    constructor (validator: Document -> bool)
      ensures Valid() && docs == [] && calls == [] && this.validator == validator
    {
      docs := [];
      this.validator := validator;
      calls := [];
    }

    method InsertOne(document: Option<Document>, fault: Option<Error>) returns (r: Result<Value, Error>)
      requires Valid()
      modifies this
      ensures Valid()
      ensures (r, docs) == InsertOneOutcome(old(docs), validator, document, fault)
      ensures calls == old(calls) + [InsertOneCall(document, r)]
    {
      InsertOnePreservesValid(docs, validator, document, fault);
      var out := InsertOneOutcome(docs, validator, document, fault);
      r, docs := out.0, out.1;
      calls := calls + [InsertOneCall(document, r)];
    }

    /** Reads only: the documents stay as they are. */
    method FindOne(filter: Option<Filter>, fault: Option<Error>) returns (r: Result<Document, Error>)
      modifies this`calls
      ensures filter.None? ==> r == Err(ErrNilDocument)
      ensures filter.Some? ==> FindOneReply(docs, filter.value, fault, r)
      ensures calls == old(calls) + [FindOneCall(filter, r)]
    {
      if filter.None? {
        r := Err(ErrNilDocument);
      } else if fault.Some? {
        r := Err(fault.value);
      } else if HasMatch(docs, filter.value) {
        var i :| 0 <= i < |docs| && Matches(docs[i], filter.value);
        r := Ok(docs[i]);
      } else {
        r := Err(ErrNoDocuments);
      }
      calls := calls + [FindOneCall(filter, r)];
    }

    method DeleteOne(filter: Option<Filter>, fault: Option<Error>) returns (r: Result<nat, Error>)
      requires Valid()
      modifies this
      ensures Valid()
      ensures filter.None? ==> r == Err(ErrNilDocument) && docs == old(docs)
      ensures filter.Some? && fault.Some? ==> r == Err(fault.value) && docs == old(docs)
      ensures filter.Some? && fault.None? ==> DeleteOneEffect(old(docs), filter.value, r, docs)
      ensures calls == old(calls) + [DeleteOneCall(filter, r)]
    {
      if filter.None? {
        r := Err(ErrNilDocument);
      } else if fault.Some? {
        r := Err(fault.value);
      } else if HasMatch(docs, filter.value) {
        var i :| 0 <= i < |docs| && Matches(docs[i], filter.value);
        ghost var before := docs;
        docs := docs[..i] + docs[i + 1..];
        r := Ok(1);
        DeleteOnePreservesValid(before, validator, filter.value, r, docs);
      } else {
        r := Ok(0);
      }
      calls := calls + [DeleteOneCall(filter, r)];
    }

    method UpdateByID(id: Option<Value>, update: Option<Update>, fault: Option<Error>)
      returns (r: Result<UpdateResult, Error>)
      requires Valid()
      modifies this
      ensures Valid()
      ensures (r, docs) == UpdateByIDOutcome(old(docs), validator, id, update, fault)
      ensures calls == old(calls) + [UpdateByIDCall(id, update, r)]
    {
      UpdateByIDPreservesValid(docs, validator, id, update, fault);
      var out := UpdateByIDOutcome(docs, validator, id, update, fault);
      r, docs := out.0, out.1;
      calls := calls + [UpdateByIDCall(id, update, r)];
    }
  }
}
