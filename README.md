# Pairx timesheet dashboard: record lifecycle

This project models the record handling of the Pairx timesheet dashboard (`app.py`).
The dashboard keeps three tables: employees, timesheets and leave requests. Each lives
in its own CSV file, and each handler reads the whole table, changes it and writes it
all back. The model keeps each table as a sequence of rows and proves what the
handlers do to it:

- **ID assignment.** A new row gets the largest ID in its table plus one, or 1 when
  the table is empty (`Identifiers`).
- **Submissions.** A timesheet or a leave request is appended at the end with status
  `Pending`. An employee is added only when the name field is not empty
  (`Dashboard.Store`).
- **Manager decisions.** The page lists the pending rows, each with a radio offering
  `Pending`, `Approve` and `Reject` and an Update button. Pressing a button overwrites
  the status cell of that one row (`Decisions`).
- **Read-only views.** The pending queues, the manager report of approved timesheets
  and an employee's history. Each is a boolean-mask selection over a table (`Views`).
- **Reading a table.** A file that does not exist is created holding only its header.
  A blank file reads as the empty table with its fixed columns (`Records`).

Timesheet and leave rows share one generic row type, `Entry<D>`. It holds the ID, the
employee ID, the details and the status. `D` is `Work` (date, task ID, hours) for
timesheets and `Absence` (leave type, start, end) for leaves. So the queue, report,
history and decision definitions are written once and serve both tables.

What `app.py` does and does not do, as the model keeps it:

- Rows have no comment column.
- Any manager may decide any pending row.
- `Pending` is itself one of the three decisions a manager can choose.
- Only pending rows are listed with an Update button, so a row can be decided again
  only while it is still pending.
- Nothing checks the task ID or the employee ID, and nothing compares a leave's
  start and end dates.
- Employee IDs are the integers 1, 2, …
- The employees table has the columns `EmployeeID, Name, Department, Role`.

## Model

| member | source | states |
|---|---|---|
| Records.Bootstrap | app.py:11-24 | a missing file becomes a header-only table; an existing file is kept as it is |
| Records.Load | app.py:239-242 | a blank file (EmptyDataError) reads as the empty table; otherwise the rows the file holds |
| Records.Save | app.py:246 | writing a table back gives a file that exists and holds a header (it is never missing or blank) |
| Records.LoadSave | app.py:245-254 | a table written back with to_csv reads again as exactly the rows written; this is the in-memory abstraction the handlers rely on when they keep a table in a field instead of rereading its file |
| Records.ReadsEmpty | app.py:240-243 | a table reads as empty exactly when its file is missing, blank or holds only the header |
| Identifiers.MaxId | app.py:243 | the result is one of the IDs and no ID is larger |
| Identifiers.NextId | app.py:243 | 1 for an empty table; otherwise larger than every existing ID, and one more than some existing ID |
| Identifiers.NextIdIsMaxPlusOne | app.py:243 | NextId's two clauses determine it: any value above all IDs and one past an ID is max + 1 |
| Identifiers.AppendNextIdKeepsDistinct | app.py:243-245 | appending a row with the next ID keeps the IDs pairwise distinct |
| Identifiers.NextIdIncreases | app.py:271 | after an append, the following ID is exactly one more than the one just used |
| Views.Select | app.py:257 | a mask selection is no longer than the table and holds only rows the mask keeps |
| Views.Positions | app.py:304 | the index labels of the selected rows: in increasing order, and exactly the positions the mask keeps |
| Views.SelectIsMask | app.py:299 | the selection equals the rows at the mask's true positions, in table order |
| Views.SelectConcat | app.py:323 | selecting from two tables laid end to end selects from each in turn, so table order is kept |
| Views.SelectMembers | app.py:285 | a row is selected exactly when it is in the table and the mask keeps it |
| Views.PendingQueue | app.py:299 | the manager queue holds exactly the rows whose status is Pending (timesheets at 299, leaves at 323) |
| Views.ApprovedReport | app.py:343 | the manager report holds exactly the timesheet rows whose status is Approve |
| Views.History | app.py:252-257 | nothing is shown exactly when the employee ID box is empty; otherwise exactly the rows with that employee ID |
| Views.AppendedPendingRow | app.py:243-257 | a row appended as Pending joins the end of the queue and of its employee's history, and not the report |
| Decisions.SetStatus | app.py:312 | the decided row gets the new status and keeps its ID, employee and details; no other row and not the row count changes |
| Decisions.Reviewed | app.py:304-313 | one rerun of the manager page (timesheets here, leaves at app.py:328-337): the row count is kept; the clicked row, when pending, gets the chosen status with every other field kept; every other row, and a clicked row that is not pending, is unchanged |
| Decisions.ReviewPass | app.py:304-313 | the loop over the pending rows changes exactly the clicked row, and only if that row is pending |
| Decisions.DecideTwice | app.py:336 | the same decision made twice on a row gives the same table as made once |
| Decisions.ReviewIdempotent | app.py:328-337 | pressing the same Update button with the same choice on the next rerun changes nothing more |
| Decisions.SelectAroundDecision | app.py:299-312 | every selection of a decided table splits into the rows before, the decided row and the rows after |
| Decisions.SelectLosesDecided | app.py:323-336 | deciding a row so that a mask stops keeping it removes exactly that row from the selection |
| Decisions.SelectGainsDecided | app.py:336-343 | deciding a row so that a mask starts keeping it inserts exactly that row, in its place |
| Decisions.DecisionLeavesQueue | app.py:299-313 | approving or rejecting a pending row takes exactly that row out of the queue, order kept, one shorter |
| Decisions.DecisionJoinsReport | app.py:306-343 | approving a pending row puts it in the report in its place, one longer; rejecting it leaves the report unchanged |
| Decisions.DecisionKeepsHistories | app.py:280-337 | a decision keeps the length of every employee's history and leaves other employees' histories unchanged |
| Dashboard.Store.Open | app.py:353-356 | at start-up each table is its file after bootstrapping, read with the blank-file fallback |
| Dashboard.Store.SubmitTimesheet | app.py:238-246 | one row (NextId, employee, date, task, hours, Pending) is appended at the end; earlier rows and the other tables are unchanged; distinct IDs and non-negative hours are kept |
| Dashboard.Store.ApplyLeave | app.py:266-274 | one row (NextId, employee, type, start, end, Pending) is appended at the end; earlier rows and the other tables are unchanged; distinct IDs are kept |
| Dashboard.Store.AddEmployee | app.py:364-374 | an empty name writes nothing; otherwise one row (NextId, name, department, role) is appended; distinct IDs are kept |
| Dashboard.Store.ReviewTimesheets | app.py:294-313 | the timesheets become the reviewed table; the other tables are unchanged; distinct IDs and non-negative hours are kept |
| Dashboard.Store.ReviewLeaves | app.py:318-337 | the leaves become the reviewed table; the other tables are unchanged; distinct IDs are kept |
| Dashboard.FirstIdIsOne | app.py:241-243 | a table that reads as empty gives its first row ID 1 |

## Left out

- Streamlit rendering is not modelled: page layout, CSS, the logo and header, the
  sidebar role selector and the success messages. They are presentation only.
- The `read_csv` and `to_csv` calls are not modelled. A table is the sequence of its
  rows. A file is `Missing`, `Blank` or a `Table` of rows.
- `Records.Load` requires an existing file. The source creates every missing file at
  start-up before any read. The FileNotFoundError of a file deleted later is not
  modelled.
- pandas dtypes are not modelled. IDs are integers and employee IDs in timesheet and
  leave rows are strings. Both compare with plain equality. In the source, the
  EmployeeID column read from CSV may be numeric and then never equal the typed text.
  Empty cells reading as NaN are not modelled either.
- Hours are an uninterpreted `real`, at least zero as the widget bounds them. The
  0.5 step of the widget and float arithmetic are not modelled.
- Dates are the strings that `str(date)` produces. Nothing compares them.
- Status, leave type and role are the three values their widgets offer. A CSV edited
  by hand to hold other text is not modelled.
- Each rerun has at most one pressed Update button, so a review takes one optional
  clicked row index and that row's radio value. Radio values of the other rows have
  no effect and are not parameters.
- Identifiers.NextId: IDs are taken to be below 2^63 - 1. The int64 wrap of `max() + 1`
  is not modelled. A column holding 9223372036854775807 would give a new ID below every
  existing one in the source. Only a file written outside the app can hold such an ID.
- Decisions.Reviewed: the widget keys of each pending row are built from its ID. Two
  pending rows that share an ID make Streamlit fail with a duplicate-key error when it
  reaches the second one, whose Update button is then never drawn. That failure is not
  modelled. The handlers keep IDs distinct (`Dashboard.Store.UniqueIds`), so only a
  file written outside the app can hold such rows.
- The Admin page's full-table listings of employees, timesheets and leaves are not
  modelled. Each shows a whole table unchanged.
- The projects and tasks files are created at start-up and never read. They are not
  modelled.
- Concurrent writers and lost updates are not modelled. The app runs one script pass
  at a time, and the last writer wins.
