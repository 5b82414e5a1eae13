/** The status a release is submitted with. */
module TrackStatuses {

  datatype TrackStatus = Draft | InProgress | Halted | Completed

  /** `trackStatus.name()`: the status string the publishing API accepts. */
  function Name(status: TrackStatus): string {
    match status
    case Draft => "draft"
    case InProgress => "inProgress"
    case Halted => "halted"
    case Completed => "completed"
  }

  /** Different statuses are submitted as different strings. */
  lemma NameInjective(a: TrackStatus, b: TrackStatus)
    ensures Name(a) == Name(b) ==> a == b
  {
  }
}
