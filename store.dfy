/**
 * The records the pages exchange with the JSON store. The store itself is an
 * HTTP service; the pages only ever see lists of these records, or an error.
 */
module Store {
  /** A logged timesheet record; the date is written `DD/MM/YYYY`. */
  datatype Timesheet = Timesheet(
    id: string,
    date: string,
    user: string,
    activity: string,
    issue: string,
    comment: string,
    hours: int,
    approvalStatus: string,
    created: string,
    unit: string,
    author: string,
    projectId: string,
    projectName: string)

  /** A timesheet record before the store has given it an id. */
  datatype TimesheetDraft = TimesheetDraft(
    date: string,
    user: string,
    activity: string,
    issue: string,
    comment: string,
    hours: int,
    approvalStatus: string,
    created: string,
    unit: string,
    author: string,
    projectId: string,
    projectName: string)

  /** A project; its dates are the strings the project form stored. */
  datatype Project = Project(
    id: string,
    name: string,
    code: string,
    description: string,
    status: string,
    assignedUsers: seq<string>,
    startDate: string,
    endDate: string,
    projectManager: string)

  /** What a request for the timesheet list delivers. */
  datatype Response<T> = Loaded(items: seq<T>) | StoreError
}
