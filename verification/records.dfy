/** The ApproveList entity, the users it refers to, request-body fields and
    the in-memory store that stands for the relational table. */
module Records {
  import opened Outcomes

  type Id = string

  /** One member of a JSON request body: left out (`undefined`), explicitly
      `null`, or given a value. The three are distinguished because the
      controller tests `!x`, `x !== undefined` and `x !== key`, which tell
      them apart differently. */
  datatype Field<+T> = Undefined | Null | Given(value: T)

  /** JavaScript truthiness of a string body member: `undefined`, `null`
      and the empty string are falsy. */
  predicate TruthyText(f: Field<string>) {
    f.Given? && f.value != ""
  }

  /** JavaScript truthiness of an optional query parameter. */
  predicate TruthyParam(p: Option<string>) {
    p.Some? && p.value != ""
  }

  /** The value a body member leaves in a nullable column: `undefined` and
      `null` both leave it empty. */
  function ToColumn<T>(f: Field<T>): (c: Option<T>)
    ensures c.Some? <==> f.Given?
    ensures f.Given? ==> c.value == f.value
  {
    match f
    case Given(v) => Some(v)
    case _ => None
  }

  /** How a template literal renders a body member: `${undefined}` is the
      text "undefined" and `${null}` is "null". */
  function TemplateText(f: Field<string>): string {
    match f
    case Undefined => "undefined"
    case Null => "null"
    case Given(s) => s
  }

  /** One row of the ApproveList table. `createdAt` is the creation time
      as an integer timestamp. */
  datatype ApproveList = ApproveList(
    id: Id,
    url: string,
    title: string,
    detail: string,
    comment: Option<string>,
    idFrom: Option<string>,
    apiPath: Option<string>,
    statusApproveId: Option<int>,
    configId: Option<int>,
    userId: Option<Id>,
    createdAt: int)

  /** How a template literal renders a nullable column: `${null}` is the
      text "null". */
  function ColumnText(c: Option<string>): string {
    match c
    case Some(v) => v
    case None => "null"
  }

  /** The user columns the controller reads through the `user` relation;
      both are nullable, since registration stores a missing name as null. */
  datatype User = User(firstName: Option<string>, lastName: Option<string>)

  /** The ApproveList table, in storage order. */
  type Store = seq<ApproveList>

  /** The primary-key constraint of the table. */
  ghost predicate UniqueIds(s: Store) {
    forall i, j :: 0 <= i < j < |s| ==> s[i].id != s[j].id
  }

  /** Whether some row carries `id`. */
  predicate HasId(s: Store, id: Id) {
    exists i :: 0 <= i < |s| && s[i].id == id
  }

  /** The row with primary key `id`, as `findUnique({ where: { id } })`
      returns it. */
  function Find(s: Store, id: Id): (r: Option<ApproveList>)
    ensures r.Some? <==> HasId(s, id)
    ensures r.Some? ==> r.value in s && r.value.id == id
    ensures UniqueIds(s) && r.Some? ==> forall i :: 0 <= i < |s| && s[i].id == id ==> s[i] == r.value
  {
    if |s| == 0 then None
    else if s[0].id == id then Some(s[0])
    else
      var rest := Find(s[1..], id);
      assert forall i :: 1 <= i < |s| ==> s[i] == s[1..][i - 1];
      rest
  }
}
