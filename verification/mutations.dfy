/** The single-row handlers: `getApproveListById`, `createApproveList`,
    `updateApproveList` and `deleteApproveList`. Each takes the store and
    returns the reply together with the store as it is afterwards. */
module Mutations {
  import opened Outcomes
  import opened Records

  /** A handler's answer and the table after it ran. */
  datatype Reply<+T> = Reply(result: Result<T>, store: Store)

  /** `GET /api/approve-lists/:id`. */
  function GetApproveListById(s: Store, id: Id): (r: Result<ApproveList>)
    ensures r.Ok? <==> HasId(s, id)
    ensures r.Ok? ==> r.value in s && r.value.id == id
    ensures r.Err? ==> r.failure == NotFound
  {
    match Find(s, id)
    case Some(x) => Ok(x)
    case None => Err(NotFound)
  }

  // ---------------------------------------------------------------- create

  /** The body of `POST /api/approve-lists`. */
  datatype CreateBody = CreateBody(
    apiKey: Field<string>,
    url: Field<string>,
    title: Field<string>,
    detail: Field<string>,
    comment: Field<string>,
    idFrom: Field<string>,
    apiPath: Field<string>,
    statusApproveId: Field<int>,
    configId: Field<int>,
    userId: Field<string>)

  /** The first validation: url, title and detail are all truthy. */
  predicate RequiredFieldsPresent(b: CreateBody) {
    TruthyText(b.url) && TruthyText(b.title) && TruthyText(b.detail)
  }

  /** Strict equality between the body's `apiKey` and the configured key,
      where an unset environment variable is `undefined`: an omitted key
      equals an unset one, and `null` equals neither. */
  predicate KeyMatches(apiKey: Field<string>, configured: Option<string>) {
    match apiKey
    case Undefined => configured.None?
    case Null => false
    case Given(k) => configured == Some(k)
  }

  /** The row the store creates from a validated body. */
  function NewRecord(b: CreateBody, id: Id, now: int): ApproveList
    requires RequiredFieldsPresent(b)
  {
    ApproveList(
      id, b.url.value, b.title.value, b.detail.value,
      ToColumn(b.comment), ToColumn(b.idFrom), ToColumn(b.apiPath),
      ToColumn(b.statusApproveId), ToColumn(b.configId), ToColumn(b.userId),
      now)
  }

  /** `POST /api/approve-lists`. The store supplies a fresh primary key
      `freshId` and the creation time `now`; `configured` is the
      `API_KEY` environment variable. `storeOk` is whether the store accepts
      the insert: it refuses one whose `userId`, `configId` or
      `statusApproveId` names no existing row, and the catch block then
      answers 500. */
  function CreateApproveList(s: Store, b: CreateBody, configured: Option<string>, storeOk: bool,
                             freshId: Id, now: int)
    : (r: Reply<ApproveList>)
    requires !HasId(s, freshId)
    ensures r.result == Err(MissingFields) <==> !RequiredFieldsPresent(b)
    ensures r.result == Err(InvalidApiKey) <==>
              RequiredFieldsPresent(b) && !KeyMatches(b.apiKey, configured)
    ensures r.result == Err(Internal) <==>
              RequiredFieldsPresent(b) && KeyMatches(b.apiKey, configured) && !storeOk
    ensures r.result.Ok? <==>
              RequiredFieldsPresent(b) && KeyMatches(b.apiKey, configured) && storeOk
    ensures r.result.Err? ==> r.store == s
    ensures r.result.Ok? ==>
      var x := r.result.value;
      && r.store == s + [x]
      && x.id == freshId && x.createdAt == now
      && b.url == Given(x.url) && b.title == Given(x.title) && b.detail == Given(x.detail)
      && x.comment == ToColumn(b.comment)
      && x.idFrom == ToColumn(b.idFrom)
      && x.apiPath == ToColumn(b.apiPath)
      && x.statusApproveId == ToColumn(b.statusApproveId)
      && x.configId == ToColumn(b.configId)
      && x.userId == ToColumn(b.userId)
  {
    if !RequiredFieldsPresent(b) then Reply(Err(MissingFields), s)
    else if !KeyMatches(b.apiKey, configured) then Reply(Err(InvalidApiKey), s)
    else if !storeOk then Reply(Err(Internal), s)
    else
      var x := NewRecord(b, freshId, now);
      Reply(Ok(x), s + [x])
  }

  /** The field check comes first: a body lacking url, title or detail gets
      the same answer whatever key it carries and whatever key is configured. */
  lemma CreateChecksFieldsBeforeKey(s: Store, b: CreateBody, key: Field<string>,
                                    configured1: Option<string>, configured2: Option<string>,
                                    storeOk1: bool, storeOk2: bool, freshId: Id, now: int)
    requires !HasId(s, freshId)
    requires !RequiredFieldsPresent(b)
    ensures CreateApproveList(s, b, configured1, storeOk1, freshId, now)
         == CreateApproveList(s, b.(apiKey := key), configured2, storeOk2, freshId, now)
         == Reply(Err(MissingFields), s)
  {
  }

  /** Both validation rejections answer 400, a refused insert answers 500. */
  lemma CreateRejectionStatus(s: Store, b: CreateBody, configured: Option<string>, storeOk: bool,
                              freshId: Id, now: int)
    requires !HasId(s, freshId)
    ensures var r := CreateApproveList(s, b, configured, storeOk, freshId, now);
            && (!RequiredFieldsPresent(b) ==> StatusCode(r.result.failure) == 400)
            && (RequiredFieldsPresent(b) && !KeyMatches(b.apiKey, configured) ==>
                  StatusCode(r.result.failure) == 400)
            && (RequiredFieldsPresent(b) && KeyMatches(b.apiKey, configured) && !storeOk ==>
                  StatusCode(r.result.failure) == 500)
  {
  }

    /** When `API_KEY` is unset, a complete body that omits `apiKey` passes
      the key check, since `undefined !== undefined` is false. */
  lemma UnsetKeyAdmitsOmittedKey(s: Store, b: CreateBody, freshId: Id, now: int)
    requires !HasId(s, freshId)
    requires RequiredFieldsPresent(b) && b.apiKey == Undefined
    ensures CreateApproveList(s, b, None, true, freshId, now).result.Ok?
  {
  }

  /** A created row can be read back by its id, and the primary-key
      constraint still holds. */
  lemma CreateThenGet(s: Store, b: CreateBody, configured: Option<string>, storeOk: bool,
                      freshId: Id, now: int)
    requires !HasId(s, freshId) && UniqueIds(s)
    ensures var r := CreateApproveList(s, b, configured, storeOk, freshId, now);
            && UniqueIds(r.store)
            && (r.result.Ok? ==> GetApproveListById(r.store, freshId) == Ok(r.result.value))
  {
    var r := CreateApproveList(s, b, configured, storeOk, freshId, now);
    if r.result.Ok? {
      var t := r.store;
      assert t[|s|].id == freshId;
      forall i, j | 0 <= i < j < |t| ensures t[i].id != t[j].id {
        if j == |s| {
          assert t[i] == s[i];
        }
      }
    }
  }

  // ---------------------------------------------------------------- update

  /** The body of `PUT /api/approve-lists/:id`. */
  datatype UpdateBody = UpdateBody(
    comment: Field<string>,
    statusApproveId: Field<int>,
    apiPath: Field<string>,
    idFrom: Field<string>)

  /** The `data` object of the update: `comment` and `statusApproveId` are
      written only when they are not `undefined`; `null` clears them. */
  function Merge(x: ApproveList, b: UpdateBody): (m: ApproveList)
    ensures m.(comment := x.comment, statusApproveId := x.statusApproveId) == x
    ensures b.comment.Undefined? ==> m.comment == x.comment
    ensures b.comment.Null? ==> m.comment.None?
    ensures b.comment.Given? ==> m.comment == Some(b.comment.value)
    ensures b.statusApproveId.Undefined? ==> m.statusApproveId == x.statusApproveId
    ensures b.statusApproveId.Null? ==> m.statusApproveId.None?
    ensures b.statusApproveId.Given? ==> m.statusApproveId == Some(b.statusApproveId.value)
  {
    x.(comment := if b.comment.Undefined? then x.comment else ToColumn(b.comment),
       statusApproveId := if b.statusApproveId.Undefined? then x.statusApproveId
                          else ToColumn(b.statusApproveId))
  }

  /** Applying the same update twice is the same as applying it once. */
  lemma MergeIdempotent(x: ApproveList, b: UpdateBody)
    ensures Merge(Merge(x, b), b) == Merge(x, b)
  {
  }

  /** An update that supplies neither member changes nothing, whatever
      `apiPath` and `idFrom` it carries. */
  lemma MergeNothingSupplied(x: ApproveList, b: UpdateBody)
    requires b.comment.Undefined? && b.statusApproveId.Undefined?
    ensures Merge(x, b) == x
  {
  }

  /** The request relayed to the originating system: `PUT` to
      `${apiPath}${idFrom}` taken from the body, carrying the two fields. */
  datatype Relay = Relay(url: string, statusApproveId: Field<int>, comment: Field<string>)

  /** The reply of an update, the table after it, and the relayed request
      if one was made. */
  datatype UpdateOutcome = UpdateOutcome(reply: Reply<()>, relay: Option<Relay>)

  /** The table after `update({ where: { id }, data })`. */
  function UpdateRow(s: Store, id: Id, b: UpdateBody): (t: Store)
    ensures |t| == |s|
    ensures forall i :: 0 <= i < |s| ==> t[i] == if s[i].id == id then Merge(s[i], b) else s[i]
  {
    seq(|s|, i requires 0 <= i < |s| => if s[i].id == id then Merge(s[i], b) else s[i])
  }

  /** `PUT /api/approve-lists/:id`. `storeOk` is whether the store accepts
      the write (it refuses a `statusApproveId` naming no status row);
      `relayOk` is whether the relayed request succeeded. Either failure
      answers 500; a failed relay comes after the row has been written. */
  function UpdateApproveList(s: Store, id: Id, b: UpdateBody, storeOk: bool, relayOk: bool)
    : (u: UpdateOutcome)
    ensures !HasId(s, id) ==> u.reply == Reply(Err(NotFound), s) && u.relay.None?
    ensures HasId(s, id) && !storeOk ==> u.reply == Reply(Err(Internal), s) && u.relay.None?
    ensures HasId(s, id) && storeOk ==>
      && u.reply.store == UpdateRow(s, id, b)
      && u.relay == Some(Relay(TemplateText(b.apiPath) + TemplateText(b.idFrom),
                               b.statusApproveId, b.comment))
      && (u.reply.result.Ok? <==> relayOk)
      && (u.reply.result.Err? ==> u.reply.result.failure == Internal)
  {
    if !HasId(s, id) then UpdateOutcome(Reply(Err(NotFound), s), None)
    else if !storeOk then UpdateOutcome(Reply(Err(Internal), s), None)
    else
      var t := UpdateRow(s, id, b);
      var relay := Relay(TemplateText(b.apiPath) + TemplateText(b.idFrom),
                         b.statusApproveId, b.comment);
      UpdateOutcome(Reply(if relayOk then Ok(()) else Err(Internal), t), Some(relay))
  }

  /** After an update of an existing row that the store accepts, reading it
      back gives the merged row, every other row is untouched and ids stay
      unique; a refused write leaves the table as it was. */
  lemma UpdateThenGet(s: Store, id: Id, b: UpdateBody, storeOk: bool, relayOk: bool)
    requires UniqueIds(s) && HasId(s, id)
    ensures var t := UpdateApproveList(s, id, b, storeOk, relayOk).reply.store;
            && UniqueIds(t)
            && (!storeOk ==> t == s)
            && (storeOk ==> GetApproveListById(t, id) == Ok(Merge(Find(s, id).value, b)))
            && forall i :: 0 <= i < |s| && s[i].id != id ==> t[i] == s[i]
  {
  }

  /** Updating a missing id answers 404. */
  lemma UpdateMissingIs404(s: Store, id: Id, b: UpdateBody, storeOk: bool, relayOk: bool)
    requires !HasId(s, id)
    ensures StatusCode(UpdateApproveList(s, id, b, storeOk, relayOk).reply.result.failure) == 404
  {
  }

  // ---------------------------------------------------------------- delete

  /** The table after `delete({ where: { id } })`: every row with that id
      removed, the others kept in order. */
  function WithoutId(s: Store, id: Id): (t: Store)
    ensures forall x :: x in t <==> x in s && x.id != id
    ensures |t| <= |s|
  {
    if |s| == 0 then []
    else
      assert s == [s[0]] + s[1..];
      (if s[0].id == id then [] else [s[0]]) + WithoutId(s[1..], id)
  }

  /** `DELETE /api/approve-lists/:id`. */
  function DeleteApproveList(s: Store, id: Id): (r: Reply<()>)
    ensures !HasId(s, id) ==> r == Reply(Err(NotFound), s)
    ensures HasId(s, id) ==> r.result.Ok?
    ensures forall x :: x in r.store <==> x in s && (HasId(s, id) ==> x.id != id)
    ensures !HasId(r.store, id)
  {
    if !HasId(s, id) then Reply(Err(NotFound), s)
    else
      var t := WithoutId(s, id);
      assert forall i :: 0 <= i < |t| ==> t[i] in t;
      Reply(Ok(()), t)
  }

  /** Under the primary-key constraint, deleting an existing row removes
      exactly one row. */
  lemma {:induction false} DeleteRemovesOneRow(s: Store, id: Id)
    requires UniqueIds(s)
    ensures |DeleteApproveList(s, id).store| == if HasId(s, id) then |s| - 1 else |s|
  {
    if HasId(s, id) {
      WithoutUniqueId(s, id);
    }
  }

  /** Under unique ids, removing an id that occurs drops exactly one row. */
  lemma {:induction false} WithoutUniqueId(s: Store, id: Id)
    requires UniqueIds(s)
    ensures |WithoutId(s, id)| == if HasId(s, id) then |s| - 1 else |s|
  {
    if |s| > 0 {
      var tail := s[1..];
      assert UniqueIds(tail) by {
        forall i, j | 0 <= i < j < |tail| ensures tail[i].id != tail[j].id {
          assert tail[i] == s[i + 1] && tail[j] == s[j + 1];
        }
      }
      WithoutUniqueId(tail, id);
      if s[0].id == id {
        assert !HasId(tail, id) by {
          forall i | 0 <= i < |tail| ensures tail[i].id != id {
            assert tail[i] == s[i + 1];
          }
        }
      } else {
        assert HasId(s, id) <==> HasId(tail, id) by {
          if HasId(s, id) {
            var k :| 0 <= k < |s| && s[k].id == id;
            assert tail[k - 1].id == id;
          }
          if HasId(tail, id) {
            var k :| 0 <= k < |tail| && tail[k].id == id;
            assert s[k + 1].id == id;
          }
        }
      }
    }
  }
}
