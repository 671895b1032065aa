# Registration-request approval workflow, modelled in Dafny

This project models how the document-management application handles user self-registration.
A prospective user submits a username and an email. This files a registration request with
status PENDING. An administrator lists the pending requests and approves or rejects each one.
An approval creates a user account whose password is the username, with the default role and
a storage quota of 1000000. A rejection stores the administrator's reason. Requests are never
removed: `delete` sets a delete date (a soft delete), and a soft-deleted request is invisible
to every query.

Layout. Four modules mirror a source file: `RegistrationStatus` (the status enumeration),
`RegistrationEntity` (the entity), `RequestStore` (the DAO) and `RegistrationService` (the
service). The other three are supporting modules: `Wrappers`, `RequestTable` (the pure
definitions the store is specified by) and `UserDirectory` (the user store the service calls).

- `wrappers.dfy`: `Option`, `Result` and `Outcome`, for nullable values and error paths.
- `status.dfy` (`RegistrationStatus`): the three-value status enumeration and the name under
  which it is stored.
- `entity.dfy` (`RegistrationEntity`): the persisted row as a value (`Request`), its column
  widths, and the mutable entity class `UserRegistrationRequest` with its fluent setters.
- `table.dfy` (`RequestTable`): the request table as a map from id to row. It defines the two
  queries (lookup of an active row by id, the set of active PENDING rows) and the three row
  changes (insert, update, soft delete), each with the properties it has. It also defines the
  newest-first insertion used to order the pending list.
- `dao.dfy` (`RequestStore`): the class `UserRegistrationRequestDao`. It holds the table, the
  audit log and a monotone clock. Its methods change them in place and are specified by the
  functions of `RequestTable`. `Mark` and `Rollback` give the all-or-nothing transaction
  boundary of each workflow operation.
- `users.dfy` (`UserDirectory`): the user directory the workflow consults and provisions into.
- `service.dfy` (`RegistrationService`): the class `UserRegistrationRequestService` with
  `CreateRequest`, `FindAllPending`, `ApproveRequest` and `RejectRequest`. It ends with two
  client methods that derive the submission/approval walk-throughs from the contracts alone.

Environment inputs are parameters:

- `uuid` is the freshly generated request id. It must not already be in the table and must
  fit the 36-character id column.
- `now` is the current date. A `clock` field records the latest date, and dates never go
  back (`clock <= now`).
- `userFault` stands for any failure of account creation other than a taken username.
- `delivered` says whether the notification email reached the mail server.

Two consequences of the code are worth stating, and the model keeps both:

- One might expect a decided request to stay decided. But `approveRequest` and
  `rejectRequest` look up the active request and set the new status without reading the old
  one (UserRegistrationRequestService.java:85-92 and :136-144). So `ApproveRequest` and
  `RejectRequest` have no precondition on the status, and `ApprovalScenario` derives what
  follows. Re-approving fails only because the account creation finds the username taken, and
  the request stays APPROVED. Rejecting an approved request succeeds, and the account it
  created remains.
- The entity documents `reason` as the "Reason for rejection"
  (UserRegistrationRequest.java:48-52). Yet approval passes the stored reason back to `update`
  (UserRegistrationRequestDao.java:88). So approving a request that was rejected before keeps
  the old reason (see `RequestTable.Updated` as called by `ApproveRequest` with
  `request.reason`).

## Model

| member | source | states |
|---|---|---|
| `RegistrationStatus.ExactlyThreeStatuses` | docs-core/src/main/java/com/sismics/docs/core/constant/UserRegistrationRequestStatus.java:8-23 | every status is one of PENDING, APPROVED, REJECTED, and these three are distinct |
| `RegistrationStatus.Name` | docs-core/src/main/java/com/sismics/docs/core/model/jpa/UserRegistrationRequest.java:44-46 | a status is stored by its name, which is non-empty and fits the 20-character status column |
| `RegistrationStatus.FromName` | docs-core/src/main/java/com/sismics/docs/core/model/jpa/UserRegistrationRequest.java:44-46 | reading a stored name back yields status `t` exactly when `t`'s name is that text; other text is no status |
| `RegistrationStatus.NameRoundTrip` | docs-core/src/main/java/com/sismics/docs/core/constant/UserRegistrationRequestStatus.java:8-23 | storing a status by name and reading it back gives the same status |
| `RegistrationEntity.Request.ToMessage` | docs-core/src/main/java/com/sismics/docs/core/model/jpa/UserRegistrationRequest.java:145-148 | the audit message of a request is its username |
| `RegistrationEntity.UserRegistrationRequest.constructor` | docs-core/src/main/java/com/sismics/docs/core/model/jpa/UserRegistrationRequest.java:21-70 | a new entity has every field null |
| `RegistrationEntity.UserRegistrationRequest.SetId` | docs-core/src/main/java/com/sismics/docs/core/model/jpa/UserRegistrationRequest.java:72-79 | assigns only `id` (frame `this`id`), returns the same object, and `GetId` then returns the value set |
| `RegistrationEntity.UserRegistrationRequest.SetUsername` | docs-core/src/main/java/com/sismics/docs/core/model/jpa/UserRegistrationRequest.java:81-88 | assigns only `username`, returns the same object, and `GetUsername` then returns the value set |
| `RegistrationEntity.UserRegistrationRequest.SetEmail` | docs-core/src/main/java/com/sismics/docs/core/model/jpa/UserRegistrationRequest.java:90-97 | assigns only `email`, returns the same object, and `GetEmail` then returns the value set |
| `RegistrationEntity.UserRegistrationRequest.SetStatus` | docs-core/src/main/java/com/sismics/docs/core/model/jpa/UserRegistrationRequest.java:99-106 | assigns only `status`, returns the same object, and `GetStatus` then returns the value set |
| `RegistrationEntity.UserRegistrationRequest.SetReason` | docs-core/src/main/java/com/sismics/docs/core/model/jpa/UserRegistrationRequest.java:108-115 | assigns only `reason`, returns the same object, and `GetReason` then returns the value set |
| `RegistrationEntity.UserRegistrationRequest.SetCreateDate` | docs-core/src/main/java/com/sismics/docs/core/model/jpa/UserRegistrationRequest.java:117-124 | assigns only `createDate`, returns the same object, and `GetCreateDate` then returns the value set |
| `RegistrationEntity.UserRegistrationRequest.SetUpdateDate` | docs-core/src/main/java/com/sismics/docs/core/model/jpa/UserRegistrationRequest.java:126-133 | assigns only `updateDate`, returns the same object, and `GetUpdateDate` then returns the value set |
| `RegistrationEntity.UserRegistrationRequest.SetDeleteDate` | docs-core/src/main/java/com/sismics/docs/core/model/jpa/UserRegistrationRequest.java:135-143 | assigns only the soft-delete marker, returns the same object, and `GetDeleteDate` then returns the value set |
| `RequestTable.ActiveById` | docs-core/src/main/java/com/sismics/docs/core/dao/UserRegistrationRequestDao.java:47-56 | finds a row exactly when some stored row has that id and no delete date; what it finds is such a row; otherwise None, never an error |
| `RequestTable.PendingRows` | docs-core/src/main/java/com/sismics/docs/core/dao/UserRegistrationRequestDao.java:64-69 | holds exactly the stored rows with status PENDING and no delete date |
| `RequestTable.PendingRowsAreFoundById` | docs-core/src/main/java/com/sismics/docs/core/dao/UserRegistrationRequestDao.java:47-69 | every pending row is what the active lookup by its id returns |
| `RequestTable.Inserted` | docs-core/src/main/java/com/sismics/docs/core/dao/UserRegistrationRequestDao.java:28-39 | a new row under a fresh id keeps the table well formed and every other row as it was; the lookup then finds it when it has no delete date; it joins the pending set when it is an active PENDING row |
| `RequestTable.Updated` | docs-core/src/main/java/com/sismics/docs/core/dao/UserRegistrationRequestDao.java:86-94 | only status, reason and update date of that row change; id, username, email, create and delete date and all other rows stay; the row stays active; it leaves the pending set unless the new status is PENDING |
| `RequestTable.SoftDeleted` | docs-core/src/main/java/com/sismics/docs/core/dao/UserRegistrationRequestDao.java:111-113 | only the delete date of that row is set; the row stays in the table; the lookup no longer finds it, other lookups are unchanged, and it leaves the pending set |
| `RequestTable.FreshRequestListedFirst` | docs-core/src/main/java/com/sismics/docs/core/dao/UserRegistrationRequestDao.java:28-69 | a PENDING request filed at a date no earlier than any stored row's is in the newest-first pending list, and the list's head has its create date (it is first, or tied) |
| `RequestTable.InsertByDate` | docs-core/src/main/java/com/sismics/docs/core/dao/UserRegistrationRequestDao.java:66 | inserting a row into a newest-first list keeps it newest first and adds exactly that row |
| `RequestStore.UserRegistrationRequestDao.Create` | docs-core/src/main/java/com/sismics/docs/core/dao/UserRegistrationRequestDao.java:28-39 | returns the fresh id, sets id, create date and status PENDING (whatever status was passed) and nothing else on the entity, inserts it, no earlier row is newer than it, and the active lookup of the returned id then finds it |
| `RequestStore.UserRegistrationRequestDao.FindAllPending` | docs-core/src/main/java/com/sismics/docs/core/dao/UserRegistrationRequestDao.java:64-69 | lists every active PENDING request exactly once, and no other, ordered by create date, newest first |
| `RequestStore.UserRegistrationRequestDao.Update` | docs-core/src/main/java/com/sismics/docs/core/dao/UserRegistrationRequestDao.java:78-95 | fails with no change when no active row has the id; otherwise applies `Updated`, returns the stored row and appends one UPDATE audit record for the actor |
| `RequestStore.UserRegistrationRequestDao.Delete` | docs-core/src/main/java/com/sismics/docs/core/dao/UserRegistrationRequestDao.java:103-117 | fails with no change on an absent or already deleted id; otherwise applies `SoftDeleted` and appends one DELETE audit record; afterwards the lookup returns None |
| `RequestStore.UserRegistrationRequestDao.Rollback` | docs-core/src/main/java/com/sismics/docs/core/service/UserRegistrationRequestService.java:102-107 | an aborted transaction puts the table and the audit log back to the savepoint |
| `UserDirectory.UserDao.Create` | docs-core/src/main/java/com/sismics/docs/core/service/UserRegistrationRequestService.java:102-107 | account creation succeeds exactly when no active user has the username and no fault occurs, and then adds exactly that user |
| `RegistrationService.MessagesDistinct` | docs-core/src/main/java/com/sismics/docs/core/service/UserRegistrationRequestService.java:43-138 | the four failure messages ("Username already exists", "Email already exists", "Request not found", "Error creating user account") are pairwise different |
| `RegistrationService.ProvisionedAccount` | docs-core/src/main/java/com/sismics/docs/core/service/UserRegistrationRequestService.java:95-101 | the account of an approval has the request's username and email, a password equal to the username, the default role and quota 1000000 |
| `RegistrationService.UserRegistrationRequestService.CreateRequest` | docs-core/src/main/java/com/sismics/docs/core/service/UserRegistrationRequestService.java:37-60 | "Username already exists" when an active user has the username, else "Email already exists" when one has the email, in both cases with no request filed; otherwise exactly one new active PENDING request with that username and email, and its id is returned; existing requests are not consulted |
| `RegistrationService.UserRegistrationRequestService.FindAllPending` | docs-core/src/main/java/com/sismics/docs/core/service/UserRegistrationRequestService.java:67-74 | lists every active PENDING request exactly once, newest first |
| `RegistrationService.UserRegistrationRequestService.ApproveRequest` | docs-core/src/main/java/com/sismics/docs/core/service/UserRegistrationRequestService.java:82-124 | "Request not found" with no change for an unknown or deleted id; when account creation fails, the whole operation fails with no change; otherwise the request becomes APPROVED (reason kept), one audit record and exactly one account `ProvisionedAccount` are added, and the email outcome changes nothing but the outbox; the current status is not checked |
| `RegistrationService.UserRegistrationRequestService.RejectRequest` | docs-core/src/main/java/com/sismics/docs/core/service/UserRegistrationRequestService.java:133-162 | "Request not found" with no change for an unknown or deleted id; otherwise the request becomes REJECTED with the reason stored verbatim and one audit record; no account is created; the email outcome changes nothing but the outbox; the current status is not checked |

## Left out

- The HTTP layer (`UserRegistrationRequestResource`) is not part of this model. It covers routing, authentication, admin checks and JSON. It also maps failures to responses: `register` turns any failure into an "AlreadyExistError" client error that carries the service's message, and `approve` and `reject` turn any failure into a 404. Its length checks (username and email 3 to 50 characters, reason 1 to 500) are stricter than the column widths the model requires.
- RegistrationService.UserRegistrationRequestService.CreateRequest: requires that the username and email fit their columns (50 and 100 characters). An over-long value would make the database refuse the insert, and that failure is not modelled.
- RegistrationService.UserRegistrationRequestService.RejectRequest: requires that the reason fit its 4000-character column, for the same reason.
- RequestStore.UserRegistrationRequestDao.Create: requires a fresh id of at most 36 characters and a date no earlier than the clock. UUID generation and the system clock are not part of this model. Also required: a username and email that are set and fit their columns, as the database demands.
- Aliasing: the stored rows are values. In the source, `getActiveById` returns the managed entity itself, and `update` re-reads that same object. The model passes copies instead. The observable effect is the same, because the service writes status and reason onto the entity and then `update` copies them onto the stored row.
- The persistence engine and the transaction manager are not part of this model. A workflow operation's transaction is modelled by `Mark` and `Rollback`: a failed account creation restores the table and the audit log. The clock is not rolled back.
- `AuditLogUtil` is not part of this model. An audit record is modelled as the entity id, the kind (UPDATE or DELETE), the acting user and the entity's `toMessage`.
- `UserDao` is not part of this model. The directory is a list of active users. Its username and email lookups compare strings exactly; the real lookups depend on the database's collation, which is not modelled. Creation refuses a taken username, and every other failure is the `userFault` parameter. Deleted users and password hashing are not modelled.
- `Constants.DEFAULT_USER_ROLE` is not part of this model. It is the named constant `DefaultUserRole`, with the value "user".
- `EmailUtil` is not part of this model. Sending is the `delivered` parameter. A delivered email is recorded in the service's `outbox`. Templates and logging are not modelled.
- `toString` (a debugging aid) and the `log.error` calls are not modelled.
- Concurrent approvals belong to the transaction manager's isolation and are not modelled. Each operation runs on its own.
