# User lifecycle of the medicoreapp API, modelled in Dafny

This project models the account-management core of the medicoreapp API. The
core is a users table with create, read, name-update and soft-delete. On top
of it sit the business rules of the user service and the parts of the HTTP
handler that decide something: the path-id parser, the request-body rules and
the mapping from service outcome to status code.

Layout, one module per layer:

- `errors.dfy` (`Errors`): `Option`, and `Error`, the Go `error` values the
  layers tell apart. These are the not-found sentinel, the unique-index
  violation, other storage failures, hash failures and the service's
  `ErrEmailExists`.
- `entity.dfy` (`Entity`): the `User` row and its JSON rendering `UserView`.
  The rendering has no password field.
- `repository.dfy` (`Repository`): the store behaviour as functions on the
  table value (`FindId`, `FindEmail`, `FindLive`, `InsertOutcome`,
  `SoftDeleted`). The class `UserRepository` holds the table: a map from id to
  row and the next id to assign. Its methods are proved against those
  functions and keep the table invariant `TableInvariant`.
- `service.dfy` (`Service`): `CreateOutcome` and `UpdateOutcome` give the
  error each service call returns. The class `UserService` performs the calls
  on the repository.
- `handler.dfy` (`Handler`): `strconv.ParseUint(s, 10, 32)` as `ParseUint32`,
  the binding rules, the status maps, and the class `UserHandler` with the
  five handler methods.

Inputs that stand for code outside the model:

- A storage failure of any call (a lost connection, a driver error) is a
  per-call parameter `fault: Option<string>`.
- bcrypt is the service's `hash: (string, nat) -> Hashed`. A per-call `salt`
  makes it nondeterministic.
- The validator's email rule is the handler's `isEmail: string -> bool`.
- Whether the handler called the service is the ghost result `called`.

Behaviour of the code that the model keeps, where a reader might expect
otherwise:

- The unique index on email counts every row, soft-deleted rows included.
  After a user is deleted, creating a user with that email passes the service's
  probe. The insert then fails with the store's unique-index error, not
  `ErrEmailExists`, and the handler answers 500 rather than 409.
- `Update` and `Delete` report no error for an id without a live row. The
  code never looks at the number of rows affected. So `DELETE /users/:id` for
  an unknown id answers 200 "User deleted successfully".
- Every service error on `GET`, `PUT` and `DELETE /users/:id` becomes 404,
  storage failures included.
- The path id accepts leading zeros (`007` is 7). It refuses a sign, a
  space, an underscore and the empty string.

## Model

| member | source | states |
|---|---|---|
| `Entity.ViewOmitsPassword` | internal/auth/model/user.go:5-10 | two users render to the same JSON exactly when they agree on every field but the password, so a response carries no trace of the password |
| `Entity.Views` | internal/auth/handler/user_handler.go:70 | the JSON array of users has one element per user, each that user's rendering |
| `Repository.LiveBelowExactly` | internal/user/repositories/user_repository.go:38-43 | the listing below n holds every live row below n, only live rows, each once, in ascending id order |
| `Repository.FirstWithEmail` | internal/user/repositories/user_repository.go:52-57 | the search returns the smallest live id below n whose row holds the email, or reports that no live row below n holds it |
| `Repository.FindEmailMeaning` | internal/user/repositories/user_repository.go:52-57 | the email lookup succeeds exactly when there is no fault and a live row holds the email, and returns that row; otherwise it gives a zero record, and not-found when there was no fault |
| `Repository.FindLiveMeaning` | internal/user/repositories/user_repository.go:38-43 | `Find` returns exactly the live rows, each once, by ascending id; soft-deleted rows are absent |
| `Repository.InsertedRowIsFound` | internal/user/repositories/user_repository.go:31-36 | a row inserted under the next id with an email no row holds keeps the table invariant and is found at once by id, by email and in the listing; empty name or password are accepted |
| `Repository.SoftDeleteHides` | internal/user/repositories/user_repository.go:63-65 | after a soft delete the row is invisible to lookup by id, lookup by email and the listing, yet stays in the table under the same id with the same email, which the unique index still counts |
| `Repository.SaveKeepsInvariant` | internal/user/repositories/user_repository.go:59-61 | writing a row back under its id, with an email no other row holds, keeps the invariant and leaves every other row unchanged |
| `Repository.UserRepository.constructor` | internal/user/repositories/user_repository.go:26-28 | a new repository works over the table it is handed, which may already hold rows (with gaps in the ids) provided it meets the table invariant; it keeps that table and its next id unchanged |
| `Repository.UserRepository.Create` | internal/user/repositories/user_repository.go:31-36 | on success: exactly one new live row under a fresh id with the given name, email and password, every other row unchanged, and the record handed back carries the id; with an email held by any row, deleted ones included, or on a storage fault: the matching error and an unchanged table |
| `Repository.UserRepository.FindAll` | internal/user/repositories/user_repository.go:38-43 | returns exactly the live rows, or the storage error and no rows |
| `Repository.UserRepository.FindByID` | internal/user/repositories/user_repository.go:45-50 | returns the live row with the id; if there is none, the not-found error and a non-nil pointer to a zero record |
| `Repository.UserRepository.FindByEmail` | internal/user/repositories/user_repository.go:52-57 | returns the live row holding the email; if there is none, the not-found error and a zero record |
| `Repository.UserRepository.Update` | internal/user/repositories/user_repository.go:59-61 | overwrites all fields of the row keyed by the record's id and changes no other row; an email held by another row is refused by the unique index; the next id never changes |
| `Repository.UserRepository.Delete` | internal/user/repositories/user_repository.go:63-65 | without a fault, soft-deletes the live row with the id (sets only its marker) and reports no error, also for an id without a live row; on a fault, the error and no change |
| `Service.CreateRejectsTakenEmail` | internal/auth/service/user_service.go:37-46 | when the probe works, `CreateUser` fails with `ErrEmailExists` exactly when a live user holds the email; a probe failure other than not-found is returned unchanged |
| `Service.CreateSucceedsExactly` | internal/auth/service/user_service.go:37-67 | `CreateUser` succeeds exactly when the probe and the insert meet no storage failure, the hasher gives a digest, and no row, live or deleted, holds the email |
| `Service.CreateWithDeletedUsersEmail` | internal/auth/service/user_service.go:38-65 | the email of a soft-deleted user passes the probe and fails at the insert with the unique-index error, which is not `ErrEmailExists` |
| `Service.UpdateFailsOnlyOnLookupOrSave` | internal/auth/service/user_service.go:78-93 | `UpdateUser` on an id without a live row returns not-found; it succeeds exactly when the lookup finds a live row and neither call meets a storage failure |
| `Service.UserService.constructor` | internal/auth/service/user_service.go:32-34 | the service keeps the repository and the hasher it is given |
| `Service.UserService.CreateUser` | internal/auth/service/user_service.go:37-68 | returns the probe, hash and insert outcome; on any error no user and an unchanged table; on success the new row and the returned user hold the hasher's output as password, not the argument, under a fresh id |
| `Service.UserService.GetAllUsers` | internal/auth/service/user_service.go:70-72 | returns exactly what the repository's listing returns |
| `Service.UserService.GetUserByID` | internal/auth/service/user_service.go:74-76 | returns exactly what the repository's lookup by id returns |
| `Service.UserService.UpdateUser` | internal/auth/service/user_service.go:78-93 | on a missing id returns the lookup error and writes nothing; on success only the name of that row changes, while id, email, password and marker stay, and no other row changes |
| `Service.UserService.DeleteUser` | internal/auth/service/user_service.go:95-97 | returns and does exactly what the repository's delete returns and does |
| `Handler.ScanMeaning` | internal/auth/handler/user_handler.go:78 | the left-to-right digit scan succeeds exactly when the rest is all decimal digits and the whole value fits in 32 bits, and then yields that value |
| `Handler.ParseUint32Exactly` | internal/auth/handler/user_handler.go:78-82 | a path id is accepted exactly when it is a non-empty string of decimal digits with value at most 4294967295, and parses to that value |
| `Handler.DecimalRoundTrip` | internal/auth/handler/user_handler.go:78 | every value up to 4294967295, written in decimal, parses back to itself |
| `Handler.CreateStatus` | internal/auth/handler/user_handler.go:44-60 | 201 exactly on success, 409 exactly for `ErrEmailExists`, 500 exactly for any other error |
| `Handler.ListStatus` | internal/auth/handler/user_handler.go:64-71 | 200 exactly on success, 500 exactly on an error |
| `Handler.ByIdStatus` | internal/auth/handler/user_handler.go:84-90 | 200 exactly on success, 404 exactly on any service error |
| `Handler.CreateStatusMeaning` | internal/auth/handler/user_handler.go:44-55 | with a binding body, POST answers 201 exactly when no row holds the email and nothing fails, 409 exactly when a live user holds it (probe working), 500 on a probe failure, and 500 for a soft-deleted user's email |
| `Handler.UserHandler.constructor` | internal/auth/handler/user_handler.go:20-22 | the handler keeps the service and the email rule it is given |
| `Handler.UserHandler.CreateUser` | internal/auth/handler/user_handler.go:27-61 | a body without a name, with an empty or invalid email, or with a password under 8 characters gives 400 and the service is not called; otherwise the status follows the service outcome, with the fixed error texts, and a 201 carries the new user without password and the table gains exactly that row under the next id, which advances by one; on any error (409 or 500) the table and the next id are unchanged |
| `Handler.UserHandler.GetAllUsers` | internal/auth/handler/user_handler.go:64-71 | 500 with a fixed text on an error, otherwise 200 with the rendering of every live user |
| `Handler.UserHandler.GetUserByID` | internal/auth/handler/user_handler.go:74-91 | an id the parser refuses gives 400 without calling the service; otherwise any lookup error gives 404 and success gives 200 with the user |
| `Handler.UserHandler.UpdateUser` | internal/auth/handler/user_handler.go:99-119 | the id is checked before the body and either failure gives 400 with no call and no change; otherwise any service error gives 404 and success gives 200 with the renamed user |
| `Handler.UserHandler.DeleteUser` | internal/auth/handler/user_handler.go:122-137 | an id the parser refuses gives 400 with no call; otherwise a service error gives 404 and success gives 200 with the fixed message, the row soft-deleted |

## Left out

- Route registration, `/ping`, server start-up, `.env` loading, the driver choice, the connection handle and the migration (`main.go`, `cmd/api/main.go`, `internal/database/db.go`): wiring and configuration.
- The `internal/user` duplicate of this design: the table is modelled once. The input structs of `internal/user/models/user_model.go` belong to controllers that are not part of this model.
- CreatedAt and UpdatedAt: they depend on the clock. DeletedAt is kept only as the soft-delete marker, without its time.
- SQL generation and anything a database does beyond the behaviour listed at the head of `repository.dfy`. Email comparison is exact string equality; a case-insensitive collation (MySQL's default) is not modelled.
- bcrypt's algorithm, cost factor and salt: the hasher is an opaque function of password and salt. A refusal (bcrypt refuses passwords over 72 bytes) is one of its outcomes.
- Service.UserService.CreateUser: "the stored password is not the plaintext" holds only as far as the hasher's output differs from its input; the model proves that the stored value is the hasher's output.
- gin's JSON decoding and the validator's error texts: a body is either malformed or decoded, and a binding failure is answered with `BindError` instead of the validator's message. The email syntax is the opaque rule `isEmail`.
- Repository.UserRepository.Create: takes the new record's name, email and password rather than a whole record. A caller-supplied id or DeletedAt is not modelled; the only caller passes a fresh record.
- Repository.UserRepository.Create: a failed insert does not consume an id here, whereas some stores' sequences advance anyway.
- Repository.UserRepository.Update: a record whose id has no row leaves the table unchanged. GORM's `Save` would insert it instead. The only caller passes a row it has just read.
- Repository.UserRepository.FindAll: the order is ascending id. The SQL has no ORDER BY, and this is the order stores give in practice.
- The `size:255` width of the name, email and password columns: under a strict SQL mode a longer value fails the insert. The model does not compare lengths; such a failure reaches `Create` only as its `fault` input.
- Ids are unbounded naturals. The store's 64-bit id counter never wraps in the model.
- Concurrency, including the check-then-act race between the email probe and the insert: each call runs alone.
- Logging of a failed insert (`log.Printf`).
