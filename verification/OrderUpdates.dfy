/** The zero-skipping update of an order row, as a lens, and what a row is after a whole run:
    the original with every write to it composed into one. */
module OrderUpdates {
  import opened Options
  import opened Approvals
  import opened ApprovalRuns

  /** The editable part of a row, as a request. */
  function RequestOf(o: Order): UpdateReq {
    UpdateReq(o.name, o.kind, o.status, o.content, o.reviewer, o.notes)
  }

  /** The fields of `later`, and those of `earlier` where `later` carries nothing. */
  function Compose(earlier: UpdateReq, later: UpdateReq): UpdateReq {
    UpdateReq(later.name, later.kind,
              if later.status == NO_STATUS then earlier.status else later.status,
              if later.content.IsZero() then earlier.content else later.content,
              if later.reviewer == 0 then earlier.reviewer else later.reviewer,
              if later.notes == "" then earlier.notes else later.notes)
  }

  /** Writing a row's own fields back changes nothing; every field that a request carries reads
      back; and two updates act as their composition. */
  lemma UpdateIsALens(o: Order, a: UpdateReq, b: UpdateReq)
    ensures Merge(o, RequestOf(o)) == o
    ensures RequestOf(Merge(o, a)) == Compose(RequestOf(o), a)
    ensures Merge(Merge(o, a), b) == Merge(o, Compose(a, b))
  {
  }

  /** A cancel by the sweep, as an update of the row. */
  function CancelReq(o: Order, reason: string): UpdateReq {
    UpdateReq(o.name, o.kind, Canceled, Content(0, 0, ""), 0, reason)
  }

  /** What the step writes to row `id`, if anything. */
  function WriteOf(db: Db, s: Step, id: nat): Option<UpdateReq> {
    if id !in db.orders then None
    else if s.Update? && s.id == id && MayUpdate(s.user, s.role, s.change) && !s.fault then Some(s.change)
    else if s.Sweep? && !s.sweep.query && id in ToCancel(db, s.sweep)
    then Some(CancelReq(db.orders[id], StaleReason(db, id, s.sweep.lookups)))
    else None
  }

  lemma StepIsAWrite(w: World, s: Step, id: nat)
    requires ValidDb(w.db) && id in w.db.orders && id in Next(w, s).db.orders
    ensures Next(w, s).db.orders[id] ==
              match WriteOf(w.db, s, id)
              case Some(req) => Merge(w.db.orders[id], req)
              case None => w.db.orders[id]
  {
    if s.Sweep? {
      assert StaleReason(w.db, id, s.sweep.lookups)[0] == 'J';
    }
  }

  /** All writes to the row in a run, composed into one; None if there was none. */
  function ComposedWrites(w: World, steps: seq<Step>, id: nat): Option<UpdateReq> {
    if steps == [] then None
    else
      var n := |steps| - 1;
      var earlier := ComposedWrites(w, steps[..n], id);
      var last := WriteOf(Run(w, steps[..n]).db, steps[n], id);
      if last.None? then earlier
      else if earlier.None? then last
      else Some(Compose(earlier.value, last.value))
  }

  /** Over every run, a row that is still there is the original with one update: the writes of
      the handlers and of the sweeps, the later winning field by field. */
  lemma {:induction false} RowIsOneUpdate(w: World, steps: seq<Step>, id: nat)
    requires ValidDb(w.db) && id in w.db.orders && id in Run(w, steps).db.orders
    ensures Run(w, steps).db.orders[id] ==
              match ComposedWrites(w, steps, id)
              case Some(req) => Merge(w.db.orders[id], req)
              case None => w.db.orders[id]
  {
    if steps != [] {
      var n := |steps| - 1;
      var v := Run(w, steps[..n]);
      OnlyCreatorsDelete(w, steps[..n], id);
      StepFrame(v, steps[n], id);
      assert id in v.db.orders;
      RowIsOneUpdate(w, steps[..n], id);
      StepIsAWrite(v, steps[n], id);
      var earlier, last := ComposedWrites(w, steps[..n], id), WriteOf(v.db, steps[n], id);
      if earlier.Some? && last.Some? {
        UpdateIsALens(w.db.orders[id], earlier.value, last.value);
      }
    }
  }
}
