/** The three tables behind the Employee, Manager and Admin pages, and the
    handlers that change them. Each handler reads the whole table, changes it
    and writes the whole table back; the fields hold the tables as written. */
module Dashboard {
  import opened Records
  import opened Identifiers
  import opened Views
  import opened Decisions

  class Store {
    var employees: seq<EmployeeRow>
    var timesheets: seq<Entry<Work>>
    var leaves: seq<Entry<Absence>>

    /** No two rows of a table share an ID. */
    ghost predicate UniqueIds()
      reads this
    {
      Distinct(EmployeeIds(employees)) && Distinct(Ids(timesheets)) && Distinct(Ids(leaves))
    }

    /** Every logged number of hours is at least zero. */
    ghost predicate HoursNonNegative()
      reads this
    {
      forall i :: 0 <= i < |timesheets| ==> timesheets[i].details.hours >= 0.0
    }

    /** Start-up: create the files that do not exist, then read each table. */
    constructor Open(empFile: CsvFile<EmployeeRow>, tsFile: CsvFile<Entry<Work>>, lvFile: CsvFile<Entry<Absence>>)
      ensures employees == Load(Bootstrap(empFile))
      ensures timesheets == Load(Bootstrap(tsFile))
      ensures leaves == Load(Bootstrap(lvFile))
    {
      employees := Load(Bootstrap(empFile));
      timesheets := Load(Bootstrap(tsFile));
      leaves := Load(Bootstrap(lvFile));
    }

    /** "Submit Timesheet": one Pending row with the next ID goes at the end. */
    method SubmitTimesheet(empId: string, date: string, taskId: string, hours: real) returns (id: int)
      requires hours >= 0.0
      modifies this
      ensures id == NextId(Ids(old(timesheets)))
      ensures forall i :: 0 <= i < |old(timesheets)| ==> old(timesheets)[i].id < id
      ensures timesheets == old(timesheets) + [Entry(id, empId, Work(date, taskId, hours), Pending)]
      ensures employees == old(employees) && leaves == old(leaves)
      ensures old(UniqueIds()) ==> UniqueIds()
      ensures old(HoursNonNegative()) ==> HoursNonNegative()
    {
      var table := timesheets;
      id := NextId(Ids(table));
      timesheets := table + [Entry(id, empId, Work(date, taskId, hours), Pending)];
      assert Ids(timesheets) == Ids(table) + [id];
      if Distinct(Ids(table)) {
        AppendNextIdKeepsDistinct(Ids(table));
      }
    }

    /** "Apply for Leave": one Pending row with the next ID goes at the end. */
    method ApplyLeave(empId: string, kind: LeaveType, start: string, end: string) returns (id: int)
      modifies this
      ensures id == NextId(Ids(old(leaves)))
      ensures forall i :: 0 <= i < |old(leaves)| ==> old(leaves)[i].id < id
      ensures leaves == old(leaves) + [Entry(id, empId, Absence(kind, start, end), Pending)]
      ensures employees == old(employees) && timesheets == old(timesheets)
      ensures old(UniqueIds()) ==> UniqueIds()
    {
      var table := leaves;
      id := NextId(Ids(table));
      leaves := table + [Entry(id, empId, Absence(kind, start, end), Pending)];
      assert Ids(leaves) == Ids(table) + [id];
      if Distinct(Ids(table)) {
        AppendNextIdKeepsDistinct(Ids(table));
      }
    }

    /** "Add Employee": written only when the name is not empty. */
    method AddEmployee(name: string, department: string, role: Role) returns (added: bool)
      modifies this
      ensures added <==> name != ""
      ensures employees == if added
        then old(employees) + [EmployeeRow(NextId(EmployeeIds(old(employees))), name, department, role)]
        else old(employees)
      ensures timesheets == old(timesheets) && leaves == old(leaves)
      ensures old(UniqueIds()) ==> UniqueIds()
    {
      var table := employees;
      var id := NextId(EmployeeIds(table));
      added := name != "";
      if added {
        employees := table + [EmployeeRow(id, name, department, role)];
        assert EmployeeIds(employees) == EmployeeIds(table) + [id];
        if Distinct(EmployeeIds(table)) {
          AppendNextIdKeepsDistinct(EmployeeIds(table));
        }
      }
    }

    /** "Approve Timesheets": the pending timesheet at row `clicked`, if its
        Update button was pressed, takes the value `action` of its radio. */
    method ReviewTimesheets(clicked: Option<nat>, action: Status)
      modifies this
      ensures timesheets == Reviewed(old(timesheets), clicked, action)
      ensures employees == old(employees) && leaves == old(leaves)
      ensures old(UniqueIds()) ==> UniqueIds()
      ensures old(HoursNonNegative()) ==> HoursNonNegative()
    {
      timesheets := ReviewPass(timesheets, clicked, action);
    }

    /** "Approve Leave Applications": the same for the pending leave at row `clicked`. */
    method ReviewLeaves(clicked: Option<nat>, action: Status)
      modifies this
      ensures leaves == Reviewed(old(leaves), clicked, action)
      ensures employees == old(employees) && timesheets == old(timesheets)
      ensures old(UniqueIds()) ==> UniqueIds()
    {
      leaves := ReviewPass(leaves, clicked, action);
    }
  }

  /** A table that reads as empty gives its first row ID 1. */
  lemma FirstIdIsOne<D>(f: CsvFile<Entry<D>>)
    requires f.Missing? || f.Blank? || f == Table([])
    ensures NextId(Ids(Load(Bootstrap(f)))) == 1
  {
  }

  /** A first run on blank files: employees get IDs 1 and 2, and a form
      with an empty name writes nothing. */
  method FirstEmployees()
  {
    var store := new Store.Open(Blank, Missing, Missing);
    var added := store.AddEmployee("A", "Eng", Employee);
    assert store.employees == [EmployeeRow(1, "A", "Eng", Employee)];
    added := store.AddEmployee("B", "Eng", Manager);
    assert store.employees[1].id == 2;
    added := store.AddEmployee("", "Eng", Admin);
    assert !added && |store.employees| == 2;
  }

  /** A first timesheet gets ID 1, waits in the manager's queue, and once
      approved leaves the queue for the report. */
  method FirstApproval()
  {
    var store := new Store.Open(Blank, Missing, Missing);
    var id := store.SubmitTimesheet("1", "2024-01-02", "T7", 8.0);
    assert id == 1;
    var row := store.timesheets[0];
    assert store.timesheets == [] + [row];
    AppendedPendingRow([], row);
    store.ReviewTimesheets(Some(0), Approve);
    assert store.timesheets == SetStatus([row], 0, Approve);
    DecisionLeavesQueue([row], 0, Approve);
    DecisionJoinsReport([row], 0, Approve);
    assert PendingQueue(store.timesheets) == [];
    assert |ApprovedReport(store.timesheets)| == 1;
  }
}
