/** The status of a registration request and the name under which it is stored. */
module RegistrationStatus {
  import opened Wrappers

  /** A request awaits approval (Pending) or has been decided (Approved or Rejected). */
  datatype Status = Pending | Approved | Rejected

  /** Width of the status column, which stores the status by its name. */
  const StatusColumnLength := 20

  /** Every status, once each. */
  const AllStatuses: seq<Status> := [Pending, Approved, Rejected]

  /** The stored name of a status: the name of its enumeration constant. */
  function Name(s: Status): (name: string)
    ensures 0 < |name| <= StatusColumnLength
  {
    match s
    case Pending => "PENDING"
    case Approved => "APPROVED"
    case Rejected => "REJECTED"
  }

  /** Reads a stored name back as a status; any other text names no status. */
  function FromName(name: string): (s: Option<Status>)
    ensures forall t :: s == Some(t) <==> Name(t) == name
  {
    if name == "PENDING" then Some(Pending)
    else if name == "APPROVED" then Some(Approved)
    else if name == "REJECTED" then Some(Rejected)
    else None
  }

  /** There are exactly three statuses, and every one of them is listed once. */
  lemma ExactlyThreeStatuses(s: Status)
    ensures s in AllStatuses
    ensures |AllStatuses| == 3
    ensures forall i, j :: 0 <= i < j < |AllStatuses| ==> AllStatuses[i] != AllStatuses[j]
  {
  }

  /** Storing a status by name and reading it back gives the same status. */
  lemma NameRoundTrip(s: Status)
    ensures FromName(Name(s)) == Some(s)
  {
  }
}
