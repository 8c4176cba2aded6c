# Approve-list controller, modelled in Dafny

This project models the approval-list part of an internal approval and
expense backend: the `ApproveList` items that outside systems submit for
approval, the endpoints that list, read, create, update and delete them, and
the daily chat notification that lists the items still waiting. The
relational table is an in-memory sequence of rows (`Records.Store`); each
handler is a pure function from the table and the request to the reply and
the table afterwards.

Modules, one per concern of `controllers/approve.controller.js`:

- `Outcomes` — `Option`, the failure categories (400 missing fields, 400 bad
  API key, 404 not found, 500 caught error) and `Result`.
- `Records` — the `ApproveList` row, the `User` columns read through the
  relation, the three-state body member `Field` (`undefined`, `null`, a
  value), JavaScript truthiness, and lookup by primary key.
- `Text` — the case-sensitive `contains` substring test used by `search`.
- `Selection` — keeping the rows a `where` clause accepts, in order.
- `Ordering` — `orderBy: { createdAt: "desc" }`.
- `Pagination` — `skip`, `totalPages`, `hasNext`, `hasPrev`, and the
  `skip`/`take` window.
- `Listing` — `getApproveLists` and `getApproveListsByUserId`.
- `Mutations` — `getApproveListById`, `createApproveList`,
  `updateApproveList`, `deleteApproveList`.
- `Notify` — `cronjobNotifyPendingApprove`.

Behaviour the model keeps from the code:

- `page` and `size` default to 1 and 10 only when absent. A page below 1 gives
  a negative `skip`. The store refuses a negative `skip`, and the handler's
  catch block then answers 500 (`Listing.Paginate`).
- The filters are `userId`, `statusApproveId` and `configId`. `userId` and
  `search` are ignored when empty, because the code tests their truthiness.
- `createApproveList` checks url, title and detail before the API key. It
  compares the key with strict equality against the environment variable. So
  when `API_KEY` is unset, a body with no `apiKey` is accepted, and an
  explicit `null` key is always refused.
- `updateApproveList` writes `comment` and `statusApproveId` only when they
  are not `undefined`. A `null` clears them. It then relays a `PUT` to
  `${apiPath}${idFrom}`, built from the body, where an absent member is
  rendered as the text `undefined`. If that relay fails, the reply is 500 but
  the row has already been changed.
- The notification job answers 500 if a pending item has no user, because
  `approve.user.firstName` throws before anything is sent. A user whose name
  was stored as null appears with the text `null` in the message.
- Create and update answer 500, leaving the table unchanged, when the store
  refuses the write (for instance a `userId` that names no user).

The wider system also keeps a running balance with history snapshots. The
transaction controller that maintains them is not part of this model.

## Model

| member | source | states |
|---|---|---|
| `Records.Find` | controllers/approve.controller.js:216-218 | finds a row exactly when some row has the id; the row it returns has that id and, under unique ids, is the only such row |
| `Mutations.GetApproveListById` | controllers/approve.controller.js:85-122 | succeeds iff the id exists, returning a stored row with that id; otherwise 404 |
| `Mutations.CreateApproveList` | controllers/approve.controller.js:125-189 | 400 (missing fields) iff url, title or detail is falsy; 400 (bad key) iff the fields are present and the key differs from the configured one; 500 iff both checks pass but the store refuses the insert; success iff both checks pass and the store accepts; on failure the table is unchanged; on success exactly one row is appended, carrying exactly the supplied members, the fresh id and the creation time |
| `Mutations.CreateRejectionStatus` | controllers/approve.controller.js:141-147 | a body missing url, title or detail and a wrong key both answer status 400; a refused insert answers 500 |
| `Mutations.CreateChecksFieldsBeforeKey` | controllers/approve.controller.js:141-147 | with a required field missing, the answer is 400 (missing fields) whatever key is sent or configured |
| `Mutations.UnsetKeyAdmitsOmittedKey` | controllers/approve.controller.js:145-147 | with `API_KEY` unset, a complete body without `apiKey` is accepted |
| `Mutations.CreateThenGet` | controllers/approve.controller.js:149-160 | creation keeps ids unique and the created row is read back by its id |
| `Mutations.Merge` | controllers/approve.controller.js:224-229 | only `comment` and `statusApproveId` can differ from the stored row; each changes only when supplied (null clears it, a value sets it) |
| `Mutations.MergeIdempotent` | controllers/approve.controller.js:226-229 | applying the same update twice equals applying it once |
| `Mutations.MergeNothingSupplied` | controllers/approve.controller.js:226-229 | an update supplying neither field leaves the row as it was, whatever `apiPath`/`idFrom` it carries |
| `Mutations.UpdateRow` | controllers/approve.controller.js:224-229 | the table keeps its length; rows with the id are merged, all others are unchanged |
| `Mutations.UpdateApproveList` | controllers/approve.controller.js:210-262 | a missing id gives 404 with the table unchanged and no relay; a write the store refuses gives 500 with the table unchanged and no relay; otherwise the row is merged, the relay goes to `${apiPath}${idFrom}` with the two supplied fields, and the reply is success iff the relay succeeded, 500 otherwise |
| `Mutations.UpdateMissingIs404` | controllers/approve.controller.js:220-222 | updating a missing id answers status 404 |
| `Mutations.UpdateThenGet` | controllers/approve.controller.js:216-229 | after updating an existing row, ids stay unique and every other row is unchanged; an accepted write makes the id read back as the merged row, a refused one leaves the table as it was |
| `Mutations.WithoutId` | controllers/approve.controller.js:278-280 | the remaining rows are exactly the stored rows with a different id |
| `Mutations.DeleteApproveList` | controllers/approve.controller.js:265-289 | a missing id gives 404 with the table unchanged; otherwise success, the id is gone and every other row remains |
| `Mutations.DeleteRemovesOneRow` | controllers/approve.controller.js:270-280 | under unique ids, a delete of an existing id removes exactly one row |
| `Text.Contains` | controllers/approve.controller.js:30-32 | the scan answers true iff the term occurs at some position of the text |
| `Selection.Select` | controllers/approve.controller.js:37-43 | keeps exactly the accepted elements, each with its full multiplicity, and nothing else |
| `Ordering.SortNewestFirst` | controllers/approve.controller.js:62-64 | the result is ordered by `createdAt` descending and is a permutation of the input |
| `Pagination.Skip` | controllers/approve.controller.js:18-20 | the offset plus one page reaches `page*size`; for page and size at least 1 it is non-negative and a multiple of size |
| `Pagination.TotalPages` | controllers/approve.controller.js:74 | the ceiling of total/size: enough pages hold all rows, one fewer page does not, and no rows means no pages |
| `Pagination.HasNextIff` | controllers/approve.controller.js:75 | `page < totalPages` iff the rows up to the end of this page are fewer than the total |
| `Pagination.HasNextMeansMoreRows` | controllers/approve.controller.js:74-75 | on an existing page, `hasNext` iff rows remain after the rows the page shows |
| `Pagination.Window` | controllers/approve.controller.js:42-43 | at most `take` rows, each equal to the row `skip` positions further in the ordering; a full page unless it reaches the end |
| `Pagination.PageOfRow` | controllers/approve.controller.js:18-20 | row i of the ordering is on page i/size+1 at position i mod size, and that page is within `totalPages` |
| `Pagination.NonEmptyPages` | controllers/approve.controller.js:74 | a page is non-empty iff it is at most `totalPages` |
| `Listing.FilterMeaning` | controllers/approve.controller.js:23-34 | the built `where` accepts a row iff every truthy user id and every supplied status and config id equals the row's, and a truthy search term occurs in title, detail or url |
| `Listing.NoParametersNoConstraint` | controllers/approve.controller.js:23-27 | with no filter parameters every row is accepted |
| `Listing.EmptyUserIdIgnored` | controllers/approve.controller.js:25 | an empty `userId` filters nothing, whatever the other parameters are |
| `Listing.EmptySearchIgnored` | controllers/approve.controller.js:28-34 | an empty `search` filters nothing, whatever the other parameters are |
| `Listing.Matching` | controllers/approve.controller.js:37-43 | the selected rows are exactly the stored rows matching the query, with multiplicity |
| `Ordering.WindowOfNewestFirst` | controllers/approve.controller.js:40-65 | a page of a newest-first ordering is newest first and holds only rows of the ordering |
| `Listing.Paginate` | controllers/approve.controller.js:18-78 | fails with 500 iff page is below 1; otherwise the rows are the selected rows ordered newest first with the first `(page-1)*size` dropped and at most `size` kept; total counts the selected rows, totalPages is their ceiling, `hasNext` iff page < totalPages, equivalently iff rows remain after the page, `hasPrev` iff page > 1 |
| `Listing.PageShowsRow` | controllers/approve.controller.js:40-75 | row i of the newest-first ordering is shown on page i/size+1, which is within `totalPages` |
| `Listing.GetApproveLists` | controllers/approve.controller.js:7-82 | fails with 500 iff the page (default 1) is below 1; otherwise the page of the matching rows as `Listing.Paginate` states it, with size default 10; every returned row is stored and matches the query |
| `Listing.RowsOfUser` | controllers/approve.controller.js:301-306 | exactly the stored rows of that user, with multiplicity |
| `Listing.GetApproveListsByUserId` | controllers/approve.controller.js:292-337 | fails with 500 iff the page is below 1; otherwise the page of the user's rows as `Listing.Paginate` states it (at most `size` rows, newest first, the same flags); every returned row is stored and belongs to the user |
| `Listing.ByUserAgreesWithList` | controllers/approve.controller.js:292-337 | for a non-empty user id the per-user endpoint answers the same as the list endpoint filtered on that user |
| `Listing.DefaultsShowNewestTen` | controllers/approve.controller.js:10-20 | without page and size the answer is page 1 of size 10: the ten newest matching rows (all if fewer), `hasNext` iff more than ten match, no previous page |
| `Listing.EveryMatchIsListed` | controllers/approve.controller.js:40-75 | every matching row appears on some page between 1 and `totalPages` |
| `Notify.Pending` | controllers/approve.controller.js:341-352 | exactly the stored rows with status 1, with multiplicity |
| `Notify.LinesAppend` | controllers/approve.controller.js:360-362 | the lines of two runs of rows are the first run's lines followed by the second's |
| `Notify.LineOfEveryRow` | controllers/approve.controller.js:360-362 | every row's `- title (first last)` line occurs in the lines of its run |
| `Notify.BuildMessage` | controllers/approve.controller.js:359-362 | the `+=` loop yields the fixed header followed by one line per row in order |
| `Notify.NotifyPendingApprove` | controllers/approve.controller.js:339-372 | nothing is sent iff no row has status 1; 500 iff some pending row has no user; otherwise the message is the header followed by the pending rows' lines (a null name printed as `null`), in the order the model fixes for the rows |
| `Notify.NewPendingRowGoesLast` | controllers/approve.controller.js:359-362 | with rows listed in the model's storage order, a pending row added at the end of the table appends exactly its line to the message |
| `Notify.MessageListsEveryPending` | controllers/approve.controller.js:359-364 | a sent message contains the line of every pending row, with its owner's names |

## Left out

- Store I/O, the `include` of the `user`, `StatusApprove` and `config` relations in replies, and the response envelopes. The model returns the rows and the pagination numbers only.
- `createStatusApprove`, because it is a single insert of the body's `name` into the status lookup table, with no rule of its own.
- `cronjobNotifyMockupFAC`, because it sends a hard-coded text and has no logic.
- Delivery of the chat message by `sendLineMessage`. Only the message text is modelled.
- The relayed `PUT` itself. It is modelled as the request value plus a success flag supplied as a parameter.
- `parseInt` of `page` and `size`, NaN, and floating-point `Math.ceil`. The two values are integers here.
- `Listing.GetApproveLists`: requires `size` to be at least 1. A `size` of 0 makes `Math.ceil(total / size)` Infinity or NaN. A negative `size` gives a non-positive `totalPages` and passes a negative `take` to the store. Neither case is modelled.
- `Listing.GetApproveListsByUserId`: requires `size` to be at least 1, for the same reasons.
- `Listing.GetApproveLists`: the code puts the raw `statusApproveId` and `configId` query strings into `where` unchanged. `statusApproveId` is an integer column, since the notification job filters it with the number 1. A store with strict argument types would then refuse the query and the handler would answer 500. The model instead assumes the store coerces the string to the value it spells, and takes these two filters as already-typed values, with an absent or empty parameter as `None`.
- Body members of the wrong JSON type. Each member is a string or an integer, `null`, or absent.
- Generation of the primary key and of `createdAt`. Both are parameters, and the key is assumed fresh.
- `Mutations.CreateApproveList`: a body member that is absent leaves its column empty. The schema's column defaults are not visible, so they are not applied.
- `Mutations.CreateApproveList`: why the store refuses a write is not modelled. Which foreign keys exist depends on the schema, so `storeOk` is a parameter.
- `Mutations.UpdateApproveList`: why the store refuses a write is not modelled either, for the same reason; `storeOk` is a parameter.
- `Notify.NotifyPendingApprove`: the pending query has no `orderBy`, so the database chooses the order of the lines. The model fixes it as storage order, and `Notify.NewPendingRowGoesLast` holds only under that choice.
- The order of rows with equal `createdAt`, which the database leaves open. The model keeps storage order.
- `Text.Contains`: compares case-sensitively. Whether `contains` ignores case depends on the database collation, which is not visible.
- `updatedAt` and other columns the controller never reads or writes.
- The authentication, upload, OCR and routing files. They glue the HTTP layer to JWT, bcrypt, mail, the image host and the OCR service, and hold no logic to verify.
