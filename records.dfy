/** The three tables of the dashboard and the way a table file is read.
    Every table is an ordered sequence of rows, as the CSV file holds them. */
module Records {

  datatype Option<+T> = None | Some(value: T)

  /** The values of the decision radio (and of the status written on submission). */
  datatype Status = Pending | Approve | Reject

  /** The choices of the "Leave Type" select box. */
  datatype LeaveType = Sick | Casual | Earned

  /** The choices of the "Role" select box of the employee form. */
  datatype Role = Employee | Manager | Admin

  /** The columns of a timesheet row between EmployeeID and ApprovalStatus. */
  datatype Work = Work(date: string, taskId: string, hours: real)

  /** The columns of a leave row between EmployeeID and Status. */
  datatype Absence = Absence(kind: LeaveType, start: string, end: string)

  /** A timesheet row (`Entry<Work>`) or a leave row (`Entry<Absence>`):
      its sequential ID, the employee ID typed by the employee, the details
      and the approval status. */
  datatype Entry<D> = Entry(id: int, employeeId: string, details: D, status: Status)

  /** A row of the employees table. */
  datatype EmployeeRow = EmployeeRow(id: int, name: string, department: string, role: Role)

  /** A table file on disk: absent, present but holding no header line
      (reading it raises EmptyDataError), or a header followed by zero or
      more rows. */
  datatype CsvFile<R> = Missing | Blank | Table(rows: seq<R>)

  /** The first-run step: a file that does not exist is created holding only
      its header line; an existing file is left as it is. */
  function Bootstrap<R>(f: CsvFile<R>): (g: CsvFile<R>)
    ensures !g.Missing?
    ensures f.Missing? ==> g == Table([])
    ensures !f.Missing? ==> g == f
  {
    if f.Missing? then Table([]) else f
  }

  /** Reading a table. Every read happens after Bootstrap, so the file exists;
      a blank file falls back to the empty table with the fixed columns. */
  function Load<R>(f: CsvFile<R>): (t: seq<R>)
    requires !f.Missing?
    ensures f.Blank? ==> t == []
    ensures f.Table? ==> t == f.rows
  {
    match f
    case Blank => []
    case Table(rows) => rows
  }

  /** Writing a whole table back (the file gets its header and every row). */
  function Save<R>(t: seq<R>): (f: CsvFile<R>)
    ensures !f.Missing? && !f.Blank?
  {
    Table(t)
  }

  /** A table written back reads as exactly the rows that were written. This is
      why the handlers may keep a table in memory between a write and the next
      read instead of going through the file. */
  lemma LoadSave<R>(t: seq<R>)
    ensures Load(Save(t)) == t
  {
  }

  /** A file reads as the empty table exactly when it is missing, blank, or
      holds only its header. */
  lemma ReadsEmpty<R>(f: CsvFile<R>)
    ensures Load(Bootstrap(f)) == [] <==> (f.Missing? || f.Blank? || f == Table([]))
  {
  }

  /** The ID column of a table, in row order, given how to read a row's ID. */
  function IdColumn<R>(t: seq<R>, id: R -> int): (ids: seq<int>)
    ensures |ids| == |t|
    ensures forall i :: 0 <= i < |t| ==> ids[i] == id(t[i])
  {
    seq(|t|, i requires 0 <= i < |t| => id(t[i]))
  }

  /** The TimesheetID or LeaveID of a row. */
  function EntryId<D>(e: Entry<D>): int
  {
    e.id
  }

  /** The EmployeeID of an employees row. */
  function EmployeeId(e: EmployeeRow): int
  {
    e.id
  }

  /** The ID column of a timesheet or leave table. */
  function Ids<D>(t: seq<Entry<D>>): seq<int>
  {
    IdColumn(t, EntryId)
  }

  /** The ID column of the employees table. */
  function EmployeeIds(t: seq<EmployeeRow>): seq<int>
  {
    IdColumn(t, EmployeeId)
  }
}
