# Enrollment service: a Dafny model

This project models the core of a Go microservice that records enrollments.
An enrollment links a user id to a course id and carries a status. The model
covers three parts of the `enrollment` package:

- **Errors** (`errors.dfy`): the package's error values. These are the three
  "required" sentinels and `ErrNotFound{id}` with its formatted message. They
  sit beside the errors the package passes through unchanged: the lookup
  SDKs' own not-found error and any other error value. `Result` and `Outcome`
  stand for Go's `(value, error)` and `error` returns.
- **Repository** (`repository.dfy`): the gorm repository over the
  `enrollments` table. The table is a class `Repo` holding a sequence of rows
  in insertion order. Each row carries a creation stamp that stands for
  `created_at`, and stamps strictly increase. The SQL clauses the repository
  builds become pure functions over the rows:
  - `applyFilters` becomes `ApplyFilters`, the list of `Where` conditions. Its
    AND semantics is `Matches`.
  - `ORDER BY created_at desc` becomes `NewestFirst`.
  - `Limit`/`Offset` becomes `Window`.
  - `UPDATE … WHERE id = ?` becomes `SetStatus`, and its `RowsAffected`
    becomes `Affected`.

  `GetAll` and `Count` are read-only functions of the table. `Create` and
  `Update` are methods that change it.
- **Service** (`service.dfy`): the service object.
  - `Create` builds a pending record with status `"P"`. It asks the user
    lookup, then the course lookup, then the repository, and returns the
    first error unchanged.
  - A ghost trace `calls` records which collaborators were called, in order.
  - `GetAll`, `Update` and `Count` hand their arguments to the repository and
    return its answer unchanged.
- **Options** (`option.dfy`): `Option`, used for the driver error a
  repository call may receive.
- **Domain** (`domain.dfy`): the record type of the shared domain package.
  `Enrollment` is a value. `Record` is the `*domain.Enrollment` object whose
  `ID` the repository fills in place.

What comes from outside the package is a parameter:
- **Storage.** Every repository operation takes `dbError`. This is the error
  the database driver reports for that statement, if any. It surfaces as
  `Unexpected(message)`, and the table is then left as it was.
- **Lookup SDKs.** The two SDK transports are `string -> Outcome` functions
  fixed when the service is built.

The stored id is any non-empty string that the table does not already hold.

Two behaviours of the code are worth stating outright:
- The service does no emptiness check on ids (service.go:51,55). Empty ids go
  straight to the lookups. Only the endpoint layer returns `ErrUserIDRequired`
  and `ErrCourseIDRequired`.
- With a nil status, `Update` passes an empty update map to gorm
  (repository.go:59-65), and the code does not fix the outcome of that
  statement. That case is left out (see below).

## Model

| member | source | states |
|---|---|---|
| `Errors.SentinelMessages` | internal/enrollment/error.go:8-10 | the three sentinels read exactly "user id is required", "course id is required", "status is required" |
| `Errors.NotFoundMessageShape` | internal/enrollment/error.go:16-18 | the not-found message is "enrollment '" + id + "' doesn't exist": its prefix, the id, its suffix and its length |
| `Errors.NotFoundMessageExample` | internal/enrollment/endpoint_test.go:299 | for id "20" the not-found message is "enrollment '20' doesn't exist" |
| `Errors.NotFoundMessageInjective` | internal/enrollment/error.go:17 | two not-found messages are equal exactly when their ids are equal |
| `Errors.NotFoundNeverSentinel` | internal/enrollment/error.go:8-17 | no not-found message equals any of the three sentinel messages |
| `Domain.Record.constructor` | internal/enrollment/service.go:45-49 | a new record has an empty id and the given user id, course id and status |
| `Repository.ApplyFilters` | internal/enrollment/repository.go:91-102 | one user-id condition exactly when the filter's user id is non-empty, one course-id condition exactly when its course id is non-empty, and nothing else |
| `Repository.ApplyFiltersMeaning` | internal/enrollment/repository.go:91-102 | a row passes the chained conditions iff each non-empty filter field equals the row's field (empty fields constrain nothing; both set means both hold) |
| `Repository.Select` | internal/enrollment/repository.go:46 | the rows passing the filters: a row is selected iff it is stored and matches |
| `Repository.NewestFirst` | internal/enrollment/repository.go:48 | the rows in reverse table order, position by position |
| `Repository.Window` | internal/enrollment/repository.go:47 | at most `limit` rows, each the row at `offset + i`, and exactly min(limit, n - offset) of them when the offset is in range |
| `Repository.ListingSound` | internal/enrollment/repository.go:46-48 | the full listing holds exactly the matching rows, in strictly descending creation order |
| `Repository.NewestFirstUnique` | internal/enrollment/repository.go:48 | two strictly newest-first sequences with the same rows are equal, so the ordering fixes the listing |
| `Repository.PageIsWindowOfNewestFirst` | internal/enrollment/repository.go:45-48 | a page is the slice [offset, offset + limit) of any strictly newest-first arrangement of the matching rows, and empty past the end |
| `Repository.PagesConcatenate` | internal/enrollment/repository.go:47 | the page at `offset` of size n followed by the page at `offset + n` of size m is the page at `offset` of size n + m |
| `Repository.SelectCountsMatchingRows` | internal/enrollment/repository.go:79-89 | the selected sequence is as long as the set of matching rows is large (each row is counted once) |
| `Repository.ListingLength` | internal/enrollment/repository.go:42-89 | the listing `GetAll` windows has exactly `Count` rows |
| `Repository.NewRowListedFirst` | internal/enrollment/repository.go:33-48 | after a create, the new row heads every listing whose filters it matches and leaves the others unchanged |
| `Repository.OnlyRowListed` | internal/enrollment/repository.go:42-55 | a table holding one row that matches the filters lists exactly that row |
| `Repository.CountAfterCreate` | internal/enrollment/repository.go:33-89 | a create raises the count by one for the filters the new row matches and by zero for the others |
| `Repository.SetStatusEffect` | internal/enrollment/repository.go:59-65 | the update sets the status of the row with that id, keeps its id, user id, course id and stamp, and leaves every other row unchanged |
| `Repository.SetStatusMissing` | internal/enrollment/repository.go:65 | an update of an id with no row changes no row |
| `Repository.SetStatusKeepsKeys` | internal/enrollment/repository.go:65 | an update keeps every stamp and id, the set of ids, the stamp order and id uniqueness |
| `Repository.Affected` | internal/enrollment/repository.go:65-71 | the affected-row count is zero iff no stored row has the id |
| `Repository.AffectedAtMostOne` | internal/enrollment/repository.go:65-71 | with unique ids an update reaches at most one row |
| `Repository.SelectAfterSetStatus` | internal/enrollment/repository.go:65 | an update never changes which rows a filter selects; it rewrites them in place |
| `Repository.CountAfterUpdate` | internal/enrollment/repository.go:65 | an update leaves every count unchanged |
| `Repository.FreshIdExists` | internal/enrollment/repository.go:35 | whatever the table holds, some non-empty id is still unused |
| `Repository.UpdateMissingId` | internal/enrollment/repository.go:65-74 | without a storage error, updating an absent id yields `ErrNotFound{id}` and leaves the table unchanged |
| `Repository.UpdateExistingId` | internal/enrollment/repository.go:59-76 | without a storage error, updating a stored id succeeds and rewrites exactly that row's status |
| `Repository.UpdateOnlyRow` | internal/enrollment/repository.go:57-77 | updating the status of a table's only row succeeds and leaves that row with the new status |
| `Repository.Repo.constructor` | internal/enrollment/repository.go:26-31 | a repository wraps an existing table as it is, with any rows it already holds, and the invariant holds |
| `Repository.Repo.Create` | internal/enrollment/repository.go:33-40 | on a storage error, that error and no change; otherwise one row appended with the record's user id, course id and status under a fresh non-empty id, which is written into the caller's record; the invariant is kept |
| `Repository.Repo.GetAll` | internal/enrollment/repository.go:42-55 | a storage error comes back as the error; otherwise exactly the page at `offset` of size `limit` of the newest-first listing: at most `limit` rows, no more than the count, each stored and matching, in strictly descending creation order; as a function it cannot change the table |
| `Repository.Repo.Count` | internal/enrollment/repository.go:79-89 | a storage error comes back as the error; otherwise the number of stored rows matching the filters; as a function it cannot change the table |
| `Repository.Repo.Update` | internal/enrollment/repository.go:57-77 | the outcome and new table are those of the UPDATE statement: a storage error, `ErrNotFound{id}` when no row is affected, success otherwise; the invariant and the stamp counter are kept |
| `Service.EnrollmentService.constructor` | internal/enrollment/service.go:34-41 | the service keeps the two lookups and the repository it is given, and has made no calls |
| `Service.EnrollmentService.Create` | internal/enrollment/service.go:43-64 | the user lookup comes first and its failure is returned unchanged, with nothing else called and the table unchanged. The course lookup comes next, likewise. Only then is a pending record with no id persisted; a repository error is returned unchanged. On success the caller gets the record with status "P", the given user and course ids, and the fresh id stored in the one new row, and the repository's stamp counter advances by one |
| `Service.EnrollmentService.GetAll` | internal/enrollment/service.go:66-72 | returns exactly the repository's page (the `[offset, offset + limit)` slice of the newest-first listing), or exactly its error |
| `Service.EnrollmentService.Update` | internal/enrollment/service.go:74-80 | passes the same id and status to the repository and returns its outcome; the table changes exactly as the repository's update says |
| `Service.EnrollmentService.Count` | internal/enrollment/service.go:82-84 | returns exactly the repository's count, or exactly its error |
| `Service.CreateOnEmptyTable` | test/enrollments_test.go:21-41 | with both lookups succeeding, a create on an empty table stores exactly one row: the given user and course ids, status "P" and a non-empty id |
| `Service.ListOnlyRow` | test/enrollments_test.go:44-61 | listing a table whose only row matches the filters returns exactly that row |
| `Service.UpdateOnlyRowVia` | test/enrollments_test.go:80-83 | a status update through the service rewrites the only row's status and nothing else |
| `Service.CreateListUpdateList` | test/enrollments_test.go:21-103 | creating ("11", "22") lists exactly one pending row with the new id; after updating it to "A" the same filter lists exactly that row with status "A" |

## Left out

- The endpoint layer is out of scope. This covers `MakeEndpoints`, request validation that returns `ErrUserIDRequired`, `ErrCourseIDRequired` and `ErrStatusRequired`, page and offset computation, the default-limit parsing, and the mapping of errors to 400/404/500.
- The HTTP server, configuration, database bootstrap and CORS (`cmd/main.go`) are I/O plumbing and are not modelled.
- Context cancellation and logging are not modelled. Log lines have no effect on results.
- Storage failures are not modelled as such. Each repository call takes the driver's error as the parameter `dbError`. Which statements fail, and with which message, is up to the database.
- The lookup SDK transports (`go_course_sdk`) are foreign HTTP clients. Only their outcome per id is modelled. The user and course records they return are ignored by the service and absent here.
- How ids and `created_at` are generated (the domain package or the database) is not modelled. The id is any non-empty string not already stored, and `created_at` is a counter. The other columns of `domain.Enrollment`, such as timestamps, are not modelled.
- Repository.Repo.Update: only a non-nil status is modelled. With a nil status the source hands gorm an empty update map, and the outcome depends on gorm.
- Repository.Repo.Update: writing a row's current status is modelled as a success. On a driver that reports changed rows rather than matched rows, the affected count is then 0 and the source returns `ErrNotFound`.
- Repository.Repo.GetAll: requires `limit >= 1`, and the offset is a natural number. gorm decides what a non-positive limit or a negative offset does.
- Repository.Repo.Count: the count is an unbounded natural number. The source's conversion from `int64` to `int` is not modelled.
- Repository.Repo.Create: the id field of the incoming record is always overwritten with a fresh id. What gorm does with a caller-chosen primary key is not modelled.
- The repository and SDK test doubles (`mock_test.go`) only forward calls and are not modelled.
- Database string comparison is modelled as exact equality. The `user_id = ?`, `course_id = ?` and `id = ?` conditions (repository.go:65,94,98) follow the column's collation in SQL. Under a case-insensitive collation, or one that ignores trailing spaces, a filter or an update can reach rows the model does not select.
