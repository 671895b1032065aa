/**
 * The registration workflow: an anonymous submission creates a PENDING request, and an
 * administrator lists the pending requests and approves or rejects them. Every operation
 * is one transaction: it either commits all of its changes or leaves the store as it was.
 */
module RegistrationService {
  import opened Wrappers
  import opened RegistrationStatus
  import opened RegistrationEntity
  import opened RequestTable
  import opened RequestStore
  import opened UserDirectory

  /** Why a workflow operation fails. */
  datatype ServiceError =
    | UsernameAlreadyExists
    | EmailAlreadyExists
    | RequestNotFound
    | UserCreationFailed

  /** The message each failure carries. */
  function Message(e: ServiceError): string {
    match e
    case UsernameAlreadyExists => "Username already exists"
    case EmailAlreadyExists => "Email already exists"
    case RequestNotFound => "Request not found"
    case UserCreationFailed => "Error creating user account"
  }

  /** No two failures carry the same message, so a caller can tell them apart by it. */
  lemma MessagesDistinct(e: ServiceError, other: ServiceError)
    ensures Message(e) == Message(other) ==> e == other
  {
  }

  /** An email that reached the mail server. */
  datatype Notification =
    | RegistrationApproved(username: string, email: string)
    | RegistrationRejected(username: string, email: string, reason: string)

  /** The role of every account created by an approval. */
  const DefaultUserRole := "user"

  /** The storage quota of every account created by an approval. */
  const DefaultStorageQuota := 1000000

  /**
   * The account an approval creates: the request's username and email, a password equal
   * to the username, the default role and the fixed storage quota.
   */
  function ProvisionedAccount(request: Request): (account: User)
    ensures account.username == request.username && account.email == request.email
    ensures account.password == account.username
    ensures account.roleId == DefaultUserRole && account.storageQuota == DefaultStorageQuota
  {
    User(request.username, request.email, request.username, DefaultUserRole, DefaultStorageQuota)
  }

  class UserRegistrationRequestService {
    const requests: UserRegistrationRequestDao
    const users: UserDao
    /** The notifications that were delivered, oldest first. */
    var outbox: seq<Notification>

    ghost predicate Valid()
      reads this, requests
    {
      requests.Valid()
    }

    constructor (requests: UserRegistrationRequestDao, users: UserDao)
      requires requests.Valid()
      ensures Valid() && this.requests == requests && this.users == users && outbox == []
    {
      this.requests := requests;
      this.users := users;
      outbox := [];
    }

    /**
     * Files a new request unless an active user already has the username or the email.
     * Other requests are not consulted, so two pending requests may share a username.
     */
    method CreateRequest(username: string, email: string, uuid: string, now: int)
      returns (result: Result<string, ServiceError>)
      requires Valid() && requests.clock <= now
      requires uuid !in requests.rows && |uuid| <= IdColumnLength
      requires |username| <= UsernameColumnLength && |email| <= EmailColumnLength
      modifies requests
      ensures Valid() && old(requests.clock) <= requests.clock <= now
      ensures requests.auditLog == old(requests.auditLog)
      ensures users.HasUsername(username) ==>
        result == Failure(UsernameAlreadyExists) && requests.rows == old(requests.rows)
      ensures !users.HasUsername(username) && users.HasEmail(email) ==>
        result == Failure(EmailAlreadyExists) && requests.rows == old(requests.rows)
      ensures !users.HasUsername(username) && !users.HasEmail(email) ==>
        && result == Success(uuid)
        && requests.rows == Inserted(old(requests.rows), Request(uuid, username, email, Pending, None, now, None, None))
        && requests.GetActiveById(uuid) == Some(Request(uuid, username, email, Pending, None, now, None, None))
    {
      if users.HasUsername(username) {
        return Failure(UsernameAlreadyExists);
      }
      if users.HasEmail(email) {
        return Failure(EmailAlreadyExists);
      }
      var request := new UserRegistrationRequest();
      var r := request.SetUsername(Some(username));
      r := r.SetEmail(Some(email));
      var id := requests.Create(request, uuid, now);
      result := Success(id);
    }

    /** The active PENDING requests, each exactly once, newest first. */
    method FindAllPending() returns (list: seq<Request>)
      requires Valid()
      ensures multiset(list) == multiset(PendingRows(requests.rows))
      ensures NewestFirst(list)
    {
      list := requests.FindAllPending();
    }

    /**
     * Approves the active request `requestId` and creates its account. The current status
     * is not consulted. A failure to create the account undoes the status change; a failure
     * to deliver the email (`delivered` false) does not.
     */
    method ApproveRequest(requestId: string, adminId: string, now: int, userFault: bool, delivered: bool)
      returns (outcome: Outcome<ServiceError>)
      requires Valid() && requests.clock <= now
      modifies requests, users, this`outbox
      ensures Valid() && old(requests.clock) <= requests.clock <= now
      ensures old(requests.GetActiveById(requestId)).None? ==>
        && outcome == Fail(RequestNotFound)
        && requests.rows == old(requests.rows) && requests.auditLog == old(requests.auditLog)
        && users.users == old(users.users) && outbox == old(outbox)
      ensures old(requests.GetActiveById(requestId)).Some? ==>
        var request := old(requests.GetActiveById(requestId)).value;
        if userFault || old(users.HasUsername(request.username)) then
          && outcome == Fail(UserCreationFailed)
          && requests.rows == old(requests.rows) && requests.auditLog == old(requests.auditLog)
          && users.users == old(users.users) && outbox == old(outbox)
        else
          && outcome == Pass
          && requests.rows == Updated(old(requests.rows), requestId, Approved, request.reason, now)
          && requests.auditLog
             == old(requests.auditLog) + [AuditEntry(requestId, AuditUpdate, adminId, request.username)]
          && users.users == old(users.users) + [ProvisionedAccount(request)]
          && outbox == old(outbox) + (if delivered then [RegistrationApproved(request.username, request.email)] else [])
    {
      var found := requests.GetActiveById(requestId);
      if found.None? {
        return Fail(RequestNotFound);
      }
      var request := found.value;
      var savepoint := requests.Mark();
      var updated := requests.Update(request.(status := Approved), adminId, now);
      var created := users.Create(ProvisionedAccount(request), adminId, userFault);
      if !created {
        CreatedByLater(savepoint.rows, old(requests.clock), requests.clock);
        requests.Rollback(savepoint);
        return Fail(UserCreationFailed);
      }
      if delivered {
        outbox := outbox + [RegistrationApproved(request.username, request.email)];
      }
      outcome := Pass;
    }

    /**
     * Rejects the active request `requestId`, storing `reason` verbatim. The current status
     * is not consulted and no account is created. A failure to deliver the email
     * (`delivered` false) is swallowed.
     */
    method RejectRequest(requestId: string, adminId: string, reason: string, now: int, delivered: bool)
      returns (outcome: Outcome<ServiceError>)
      requires Valid() && requests.clock <= now
      requires |reason| <= ReasonColumnLength
      modifies requests, this`outbox
      ensures Valid() && old(requests.clock) <= requests.clock <= now
      ensures unchanged(users)
      ensures old(requests.GetActiveById(requestId)).None? ==>
        && outcome == Fail(RequestNotFound)
        && requests.rows == old(requests.rows) && requests.auditLog == old(requests.auditLog)
        && outbox == old(outbox)
      ensures old(requests.GetActiveById(requestId)).Some? ==>
        var request := old(requests.GetActiveById(requestId)).value;
        && outcome == Pass
        && requests.rows == Updated(old(requests.rows), requestId, Rejected, Some(reason), now)
        && requests.auditLog
           == old(requests.auditLog) + [AuditEntry(requestId, AuditUpdate, adminId, request.username)]
        && outbox == old(outbox) + (if delivered then [RegistrationRejected(request.username, request.email, reason)] else [])
    {
      var found := requests.GetActiveById(requestId);
      if found.None? {
        return Fail(RequestNotFound);
      }
      var request := found.value;
      var updated := requests.Update(request.(status := Rejected, reason := Some(reason)), adminId, now);
      if delivered {
        outbox := outbox + [RegistrationRejected(request.username, request.email, reason)];
      }
      outcome := Pass;
    }
  }

  /**
   * A submission followed by two approvals and a rejection. Each step is derived from the
   * contracts above alone.
   */
  method ApprovalScenario() {
    var store := new UserRegistrationRequestDao(0);
    var directory := new UserDao([]);
    var service := new UserRegistrationRequestService(store, directory);
    var alice := Request("r1", "alice", "alice@example.com", Pending, None, 1, None, None);

    // Submitting a fresh username and email files a PENDING request.
    var submitted := service.CreateRequest("alice", "alice@example.com", "r1", 1);
    assert submitted == Success("r1");
    assert store.GetActiveById("r1") == Some(alice);

    // The administrator's list holds exactly that request.
    var pending := service.FindAllPending();
    assert PendingRows(map[]) == {};
    assert multiset(pending) == multiset{alice};
    assert |pending| == 1 && pending[0] in multiset(pending);
    assert pending == [alice];

    // Approving it marks it APPROVED and creates the account "alice".
    var first := service.ApproveRequest("r1", "admin", 2, false, false);
    assert first == Pass;
    assert store.rows["r1"].status == Approved;
    assert directory.users == [User("alice", "alice@example.com", "alice", DefaultUserRole, DefaultStorageQuota)];

    // Approving it again is not refused for its status: the account creation fails on the
    // taken username, the transaction rolls back and the request stays APPROVED.
    var second := service.ApproveRequest("r1", "admin", 3, false, true);
    assert directory.users[0].username == "alice";
    assert second == Fail(UserCreationFailed);
    assert store.rows["r1"].status == Approved && |directory.users| == 1;

    // Submitting the same username again is refused and files nothing.
    var again := service.CreateRequest("alice", "other@example.com", "r2", 4);
    assert again == Failure(UsernameAlreadyExists);
    assert "r2" !in store.rows;

    // Rejecting the approved request is accepted too; the account it created remains.
    var rejected := service.RejectRequest("r1", "admin", "duplicate", 5, true);
    assert rejected == Pass;
    assert store.rows["r1"].status == Rejected && store.rows["r1"].reason == Some("duplicate");
    assert directory.HasUsername("alice");
  }

  /** Two pending requests may share a username until one of them is approved. */
  method DuplicatePendingScenario() {
    var store := new UserRegistrationRequestDao(0);
    var directory := new UserDao([]);
    var service := new UserRegistrationRequestService(store, directory);
    var first := service.CreateRequest("bob", "bob@example.com", "r1", 1);
    var second := service.CreateRequest("bob", "bob@example.org", "r2", 2);
    assert first == Success("r1") && second == Success("r2");
    assert store.rows["r1"].username == store.rows["r2"].username == "bob";
    assert PendingRows(map[]) == {};
    assert |PendingRows(store.rows)| == 2;

    // Once one is approved, approving the other fails on the taken username.
    var approved := service.ApproveRequest("r2", "admin", 3, false, true);
    assert approved == Pass;
    assert directory.users[0].username == "bob";
    var refused := service.ApproveRequest("r1", "admin", 4, false, true);
    assert refused == Fail(UserCreationFailed);
    assert store.rows["r1"].status == Pending;
  }
}
