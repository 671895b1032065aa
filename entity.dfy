/**
 * The registration request entity: the persisted row as a value, and the mutable
 * entity object with its fluent setters.
 */
module RegistrationEntity {
  import opened Wrappers
  import opened RegistrationStatus

  /** Widths of the columns of the request table. */
  const IdColumnLength := 36
  const UsernameColumnLength := 50
  const EmailColumnLength := 100
  const ReasonColumnLength := 4000

  /** A persisted request. Mandatory columns are plain values; nullable columns are Options. */
  datatype Request = Request(
    id: string,
    username: string,
    email: string,
    status: Status,
    reason: Option<string>,
    createDate: int,
    updateDate: Option<int>,
    deleteDate: Option<int>)
  {
    /** A request is active while its soft-delete marker is unset. */
    predicate IsActive() {
      deleteDate.None?
    }

    /** The row fits the declared widths of its columns. */
    predicate FitsColumns() {
      && |id| <= IdColumnLength
      && |username| <= UsernameColumnLength
      && |email| <= EmailColumnLength
      && |Name(status)| <= StatusColumnLength
      && (reason.Some? ==> |reason.value| <= ReasonColumnLength)
    }

    /** The text the audit log records for a request: its username. */
    function ToMessage(): (message: string)
      ensures message == username
    {
      username
    }
  }

  /**
   * The mutable entity object. Every field starts out null; each setter assigns its own
   * field and hands back the same object so that calls can be chained.
   */
  class UserRegistrationRequest {
    var id: Option<string>
    var username: Option<string>
    var email: Option<string>
    var status: Option<Status>
    var reason: Option<string>
    var createDate: Option<int>
    var updateDate: Option<int>
    var deleteDate: Option<int>

    constructor ()
      ensures id.None? && username.None? && email.None? && status.None?
      ensures reason.None? && createDate.None? && updateDate.None? && deleteDate.None?
    {
      id, username, email, status := None, None, None, None;
      reason, createDate, updateDate, deleteDate := None, None, None, None;
    }

    function GetId(): Option<string> reads this { id }
    function GetUsername(): Option<string> reads this { username }
    function GetEmail(): Option<string> reads this { email }
    function GetStatus(): Option<Status> reads this { status }
    function GetReason(): Option<string> reads this { reason }
    function GetCreateDate(): Option<int> reads this { createDate }
    function GetUpdateDate(): Option<int> reads this { updateDate }
    /** The soft-delete marker: None means the request is active. */
    function GetDeleteDate(): Option<int> reads this { deleteDate }

    method SetId(id: Option<string>) returns (self: UserRegistrationRequest)
      modifies this`id
      ensures self == this && GetId() == id
    {
      this.id := id;
      self := this;
    }

    method SetUsername(username: Option<string>) returns (self: UserRegistrationRequest)
      modifies this`username
      ensures self == this && GetUsername() == username
    {
      this.username := username;
      self := this;
    }

    method SetEmail(email: Option<string>) returns (self: UserRegistrationRequest)
      modifies this`email
      ensures self == this && GetEmail() == email
    {
      this.email := email;
      self := this;
    }

    method SetStatus(status: Option<Status>) returns (self: UserRegistrationRequest)
      modifies this`status
      ensures self == this && GetStatus() == status
    {
      this.status := status;
      self := this;
    }

    method SetReason(reason: Option<string>) returns (self: UserRegistrationRequest)
      modifies this`reason
      ensures self == this && GetReason() == reason
    {
      this.reason := reason;
      self := this;
    }

    method SetCreateDate(createDate: Option<int>) returns (self: UserRegistrationRequest)
      modifies this`createDate
      ensures self == this && GetCreateDate() == createDate
    {
      this.createDate := createDate;
      self := this;
    }

    method SetUpdateDate(updateDate: Option<int>) returns (self: UserRegistrationRequest)
      modifies this`updateDate
      ensures self == this && GetUpdateDate() == updateDate
    {
      this.updateDate := updateDate;
      self := this;
    }

    method SetDeleteDate(deleteDate: Option<int>) returns (self: UserRegistrationRequest)
      modifies this`deleteDate
      ensures self == this && GetDeleteDate() == deleteDate
    {
      this.deleteDate := deleteDate;
      self := this;
    }

    /** Every mandatory column has a value, so the entity can be persisted. */
    predicate HasMandatoryColumns()
      reads this
    {
      id.Some? && username.Some? && email.Some? && status.Some? && createDate.Some?
    }

    /** The row this entity becomes in the table. */
    function Persisted(): Request
      reads this
      requires HasMandatoryColumns()
    {
      Request(id.value, username.value, email.value, status.value, reason,
              createDate.value, updateDate, deleteDate)
    }
  }
}
