/** A manager's decision: the status cell of one row is overwritten with the
    value of that row's radio ("Pending", "Approve" or "Reject"). */
module Decisions {
  import opened Records
  import opened Views

  /** The table after the status of row `k` is set to `a`. */
  function SetStatus<D>(t: seq<Entry<D>>, k: nat, a: Status): (r: seq<Entry<D>>)
    requires k < |t|
    ensures |r| == |t| && Ids(r) == Ids(t)
    ensures r[k].status == a
    ensures r[k].id == t[k].id && r[k].employeeId == t[k].employeeId && r[k].details == t[k].details
    ensures forall i :: 0 <= i < |t| && i != k ==> r[i] == t[i]
  {
    t[k := t[k].(status := a)]
  }

  /** One rerun of the manager page: the pending rows are listed, and if the
      Update button of one of them (`clicked`, its row index) was pressed, that
      row takes the radio's value `action`. Any other click changes nothing. */
  function Reviewed<D>(t: seq<Entry<D>>, clicked: Option<nat>, action: Status): (r: seq<Entry<D>>)
    ensures |r| == |t|
    ensures forall i :: 0 <= i < |t| && (clicked != Some(i) || t[i].status != Pending) ==> r[i] == t[i]
    ensures forall i :: 0 <= i < |t| && clicked == Some(i) && t[i].status == Pending ==>
      r[i] == t[i].(status := action)
  {
    if clicked.Some? && clicked.value < |t| && t[clicked.value].status == Pending
    then SetStatus(t, clicked.value, action)
    else t
  }

  /** The loop over the pending rows with their Update buttons. */
  method ReviewPass<D>(t: seq<Entry<D>>, clicked: Option<nat>, action: Status) returns (out: seq<Entry<D>>)
    ensures out == Reviewed(t, clicked, action)
  {
    var pending := Positions(t, WithStatus(Pending));
    ghost var hit := false;
    out := t;
    for j := 0 to |pending|
      invariant hit <==> clicked.Some? && clicked.value in pending[..j]
      invariant out == if hit then SetStatus(t, clicked.value, action) else t
    {
      var ix := pending[j];
      assert pending[..j + 1] == pending[..j] + [ix];
      if clicked == Some(ix) {
        out := SetStatus(out, ix, action);
        hit := true;
      }
    }
    assert pending[..|pending|] == pending;
    if clicked.Some? && clicked.value < |t| && t[clicked.value].status == Pending {
      assert WithStatus<D>(Pending)(t[clicked.value]);
    }
  }

  /** The update is a plain assignment: making the same decision twice on a
      row gives the same table as making it once. */
  lemma DecideTwice<D>(t: seq<Entry<D>>, k: nat, a: Status)
    requires k < |t|
    ensures SetStatus(SetStatus(t, k, a), k, a) == SetStatus(t, k, a)
  {
  }

  /** Pressing the same button with the same choice on the next rerun changes
      nothing more: the row is either no longer pending, or set to Pending again. */
  lemma ReviewIdempotent<D>(t: seq<Entry<D>>, clicked: Option<nat>, action: Status)
    ensures Reviewed(Reviewed(t, clicked, action), clicked, action) == Reviewed(t, clicked, action)
  {
  }

  /** Every selection of a decided table is the selection of the rows before
      the decided one, then of the decided row, then of the rows after it. */
  lemma {:induction false} SelectAroundDecision<D>(t: seq<Entry<D>>, k: nat, a: Status, keep: Entry<D> -> bool)
    requires k < |t|
    ensures Select(t, keep) == Select(t[..k], keep) + Select([t[k]], keep) + Select(t[k + 1..], keep)
    ensures Select(SetStatus(t, k, a), keep) ==
            Select(t[..k], keep) + Select([t[k].(status := a)], keep) + Select(t[k + 1..], keep)
  {
    var r := SetStatus(t, k, a);
    assert t == t[..k] + [t[k]] + t[k + 1..];
    assert r == t[..k] + [r[k]] + t[k + 1..];
    SelectConcat(t[..k] + [t[k]], t[k + 1..], keep);
    SelectConcat(t[..k], [t[k]], keep);
    SelectConcat(t[..k] + [r[k]], t[k + 1..], keep);
    SelectConcat(t[..k], [r[k]], keep);
  }

  /** Deciding a row the mask keeps, so that the mask no longer keeps it,
      removes exactly that row from the selection. */
  lemma SelectLosesDecided<D>(t: seq<Entry<D>>, k: nat, a: Status, keep: Entry<D> -> bool)
    requires k < |t| && keep(t[k]) && !keep(t[k].(status := a))
    ensures Select(t, keep) == Select(t[..k], keep) + [t[k]] + Select(t[k + 1..], keep)
    ensures Select(SetStatus(t, k, a), keep) == Select(t[..k], keep) + Select(t[k + 1..], keep)
  {
    SelectAroundDecision(t, k, a, keep);
    SelectOne(t[k], keep);
    SelectOne(t[k].(status := a), keep);
    assert X: Select([t[k]], keep) == [t[k]];
    assert Y: Select([t[k].(status := a)], keep) == [];
    assert Z: Select(t[..k], keep) + [] == Select(t[..k], keep);
  }

  /** Deciding a row the mask does not keep, so that the mask keeps it,
      inserts exactly that row, in its place, into the selection. */
  lemma SelectGainsDecided<D>(t: seq<Entry<D>>, k: nat, a: Status, keep: Entry<D> -> bool)
    requires k < |t| && !keep(t[k]) && keep(t[k].(status := a))
    ensures Select(t, keep) == Select(t[..k], keep) + Select(t[k + 1..], keep)
    ensures Select(SetStatus(t, k, a), keep) == Select(t[..k], keep) + [t[k].(status := a)] + Select(t[k + 1..], keep)
  {
    SelectAroundDecision(t, k, a, keep);
    SelectOne(t[k], keep);
    SelectOne(t[k].(status := a), keep);
    assert X: Select([t[k]], keep) == [];
    assert Y: Select([t[k].(status := a)], keep) == [t[k].(status := a)];
    assert Z: Select(t[..k], keep) + [] == Select(t[..k], keep);
  }

  /** Approving or rejecting a pending row takes exactly that row out of the
      queue, the other pending rows keeping their order. */
  lemma DecisionLeavesQueue<D(!new)>(t: seq<Entry<D>>, k: nat, a: Status)
    requires k < |t| && t[k].status == Pending && a != Pending
    ensures PendingQueue(t) == PendingQueue(t[..k]) + [t[k]] + PendingQueue(t[k + 1..])
    ensures PendingQueue(SetStatus(t, k, a)) == PendingQueue(t[..k]) + PendingQueue(t[k + 1..])
    ensures |PendingQueue(SetStatus(t, k, a))| == |PendingQueue(t)| - 1
  {
    SelectLosesDecided(t, k, a, WithStatus(Pending));
  }

  /** Approving a pending row puts it, with its new status, in its place in
      the manager report; rejecting it leaves the report as it was. */
  lemma DecisionJoinsReport<D(!new)>(t: seq<Entry<D>>, k: nat, a: Status)
    requires k < |t| && t[k].status == Pending
    ensures a == Approve ==>
      ApprovedReport(SetStatus(t, k, a)) == ApprovedReport(t[..k]) + [t[k].(status := Approve)] + ApprovedReport(t[k + 1..])
    ensures a == Approve ==> |ApprovedReport(SetStatus(t, k, a))| == |ApprovedReport(t)| + 1
    ensures a != Approve ==> ApprovedReport(SetStatus(t, k, a)) == ApprovedReport(t)
  {
    if a == Approve {
      SelectGainsDecided(t, k, a, WithStatus(Approve));
    } else {
      SelectAroundDecision(t, k, a, WithStatus(Approve));
      SelectOne(t[k], WithStatus(Approve));
      SelectOne(t[k].(status := a), WithStatus(Approve));
    }
  }

  /** A decision neither adds rows to nor removes rows from any employee's
      history, and leaves the history of every other employee as it was. */
  lemma DecisionKeepsHistories<D(!new)>(t: seq<Entry<D>>, k: nat, a: Status, emp: string)
    requires k < |t| && emp != ""
    ensures |History(SetStatus(t, k, a), emp).value| == |History(t, emp).value|
    ensures t[k].employeeId != emp ==> History(SetStatus(t, k, a), emp) == History(t, emp)
  {
    SelectAroundDecision(t, k, a, OwnedBy(emp));
    SelectOne(t[k], OwnedBy(emp));
    SelectOne(t[k].(status := a), OwnedBy(emp));
  }
}
