/** The read-only views: boolean-mask selections over a table (the pending
    queues, the approved report, an employee's history). */
module Views {
  import opened Records

  /** The rows of `rows` for which `keep` holds, in table order. */
  function Select<R>(rows: seq<R>, keep: R -> bool): (r: seq<R>)
    ensures |r| <= |rows|
    ensures forall i :: 0 <= i < |r| ==> keep(r[i])
  {
    if rows == [] then []
    else
      var init := Select(rows[..|rows| - 1], keep);
      var last := rows[|rows| - 1];
      if keep(last) then init + [last] else init
  }

  /** The positions at which `keep` holds: the index labels of the rows a mask
      selects, in increasing order. */
  function Positions<R>(rows: seq<R>, keep: R -> bool): (p: seq<nat>)
    ensures forall j :: 0 <= j < |p| ==> p[j] < |rows| && keep(rows[p[j]])
    ensures forall i :: 0 <= i < |rows| && keep(rows[i]) ==> i in p
    ensures forall j, j' :: 0 <= j < j' < |p| ==> p[j] < p[j']
  {
    if rows == [] then []
    else
      var init := Positions(rows[..|rows| - 1], keep);
      var n := |rows| - 1;
      if keep(rows[n]) then init + [n] else init
  }

  /** The rows at the given positions, in the order of the positions. */
  function Gather<R>(rows: seq<R>, p: seq<nat>): (r: seq<R>)
    requires forall j :: 0 <= j < |p| ==> p[j] < |rows|
    ensures |r| == |p|
  {
    seq(|p|, j requires 0 <= j < |p| => rows[p[j]])
  }

  /** The selection is what a boolean mask gives: the rows at the positions
      where the mask is true, in table order. */
  lemma {:induction false} SelectIsMask<R>(rows: seq<R>, keep: R -> bool)
    ensures Select(rows, keep) == Gather(rows, Positions(rows, keep))
  {
    if rows != [] {
      var init := rows[..|rows| - 1];
      SelectIsMask(init, keep);
      var p := Positions(init, keep);
      assert Gather(rows, p) == Gather(init, p);
      if keep(rows[|rows| - 1]) {
        assert Gather(rows, p + [|rows| - 1]) == Gather(rows, p) + [rows[|rows| - 1]];
      }
    }
  }

  /** Selecting from two tables laid end to end selects from each in turn,
      so the selection keeps the rows in table order. */
  lemma {:induction false} SelectConcat<R>(a: seq<R>, b: seq<R>, keep: R -> bool)
    ensures Select(a + b, keep) == Select(a, keep) + Select(b, keep)
  {
    if b != [] {
      var b' := b[..|b| - 1];
      assert (a + b)[..|a + b| - 1] == a + b';
      SelectConcat(a, b', keep);
    } else {
      assert a + b == a;
    }
  }

  /** A row is selected exactly when it is in the table and the mask keeps it. */
  lemma {:induction false} SelectMembers<R>(rows: seq<R>, keep: R -> bool)
    ensures forall x :: x in Select(rows, keep) <==> x in rows && keep(x)
  {
    if rows != [] {
      var init := rows[..|rows| - 1];
      SelectMembers(init, keep);
      assert rows == init + [rows[|rows| - 1]];
    }
  }

  /** Selecting from one row gives that row or nothing. */
  lemma SelectOne<R>(x: R, keep: R -> bool)
    ensures Select([x], keep) == if keep(x) then [x] else []
  {
  }

  /** The mask "status column equals s". */
  function WithStatus<D>(s: Status): Entry<D> -> bool
  {
    (e: Entry<D>) => e.status == s
  }

  /** The mask "EmployeeID column equals emp". */
  function OwnedBy<D>(emp: string): Entry<D> -> bool
  {
    (e: Entry<D>) => e.employeeId == emp
  }

  /** The manager's queue: the rows still Pending, in table order. */
  function PendingQueue<D(==,!new)>(t: seq<Entry<D>>): (q: seq<Entry<D>>)
    ensures forall e :: e in q <==> e in t && e.status == Pending
  {
    SelectMembers(t, WithStatus(Pending));
    Select(t, WithStatus(Pending))
  }

  /** The manager report: the timesheet rows whose status is Approve, in table order. */
  function ApprovedReport<D(==,!new)>(t: seq<Entry<D>>): (q: seq<Entry<D>>)
    ensures forall e :: e in q <==> e in t && e.status == Approve
  {
    SelectMembers(t, WithStatus(Approve));
    Select(t, WithStatus(Approve))
  }

  /** An employee's history: nothing is shown while the employee ID box is
      empty; otherwise the rows carrying that employee ID, in table order. */
  function History<D(==,!new)>(t: seq<Entry<D>>, emp: string): (h: Option<seq<Entry<D>>>)
    ensures h.None? <==> emp == ""
    ensures h.Some? ==> forall e :: e in h.value <==> e in t && e.employeeId == emp
  {
    if emp == "" then None
    else
      SelectMembers(t, OwnedBy(emp));
      Some(Select(t, OwnedBy(emp)))
  }

  /** A row appended as Pending joins the end of the queue and not the report;
      a non-empty history of its employee ends with it. */
  lemma AppendedPendingRow<D(!new)>(t: seq<Entry<D>>, e: Entry<D>)
    requires e.status == Pending
    ensures PendingQueue(t + [e]) == PendingQueue(t) + [e]
    ensures ApprovedReport(t + [e]) == ApprovedReport(t)
    ensures e.employeeId != "" ==> History(t + [e], e.employeeId) == Some(History(t, e.employeeId).value + [e])
  {
  }
}
