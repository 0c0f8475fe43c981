/** What the sweep over pending job orders promises for every table and every pattern of
    errors. */
module SweepLaws {
  import opened Approvals

  /** What the sweep is for: cancel the pending job orders whose job does not exist or does
      not run. */
  predicate Due(db: Db, id: nat)
    requires id in db.orders
  {
    && PendingJob(db.orders[id])
    && (db.orders[id].name !in db.jobs || db.jobs[db.orders[id].name].phase != RUNNING)
  }

  /** The sweep is exact with respect to the writes that went through: it leaves every row
      that is not due or whose cancel failed untouched and cancels every other one. */
  ghost predicate CancelsExactlyDue(db: Db, faults: SweepFaults) {
    forall id :: id in db.orders ==>
      SweepStep(db, faults).orders[id].status ==
        if Due(db, id) && id !in faults.cancels then Canceled else db.orders[id].status
  }

  /** Rows are neither added nor removed; a canceled row keeps everything but its status and
      notes, and every other row is untouched. */
  lemma SweepFrame(db: Db, faults: SweepFaults)
    ensures var db' := SweepStep(db, faults);
            && db'.orders.Keys == db.orders.Keys && db'.jobs == db.jobs && db'.nextId == db.nextId
            && forall id :: id in db.orders ==>
                 && db'.orders[id].(status := db.orders[id].status, notes := db.orders[id].notes) == db.orders[id]
                 && (db'.orders[id] != db.orders[id] <==> !faults.query && id in ToCancel(db, faults))
  {
  }

  /** A sweep leaves every order alone that is not a pending job order, whose cancel fails, or
      whose job it finds running. */
  lemma SweepSpares(db: Db, faults: SweepFaults, id: nat)
    requires id in db.orders
    requires var o := db.orders[id];
             || faults.query || o.kind != JobOrder || o.status != Pending || id in faults.cancels
             || (id !in faults.lookups && o.name in db.jobs && db.jobs[o.name].phase == "Running")
    ensures id in SweepStep(db, faults).orders && SweepStep(db, faults).orders[id] == db.orders[id]
  {
  }

  /** A sweep cancels every other order: a pending job order whose job it does not find or finds
      in another phase, with a note that says which. */
  lemma SweepCancels(db: Db, faults: SweepFaults, id: nat)
    requires id in db.orders && db.orders[id].kind == JobOrder && db.orders[id].status == Pending
    requires !faults.query && id !in faults.cancels
    ensures var o, missing := db.orders[id], id in faults.lookups || db.orders[id].name !in db.jobs;
            missing || db.jobs[o.name].phase != "Running" ==>
              && id in SweepStep(db, faults).orders
              && var o' := SweepStep(db, faults).orders[id];
              && o'.status == Canceled
              && o'.notes == (if missing then "Job not found"
                              else "Job is not running (status: " + db.jobs[o.name].phase + ")")
              && o'.(status := o.status, notes := o.notes) == o
  {
  }

  /** A job lookup that fails is read as "job not found", so the sweep is exact if and only if
      no lookup error hits a pending order of a running job whose cancel then goes through. */
  lemma SweepExactIff(db: Db, faults: SweepFaults)
    requires !faults.query
    ensures CancelsExactlyDue(db, faults) <==>
              forall id :: id in db.orders && PendingJob(db.orders[id]) && id in faults.lookups ==>
                Due(db, id) || id in faults.cancels
  {
    var db' := SweepStep(db, faults);
    if CancelsExactlyDue(db, faults) {
      forall id | id in db.orders && PendingJob(db.orders[id]) && id in faults.lookups
        ensures Due(db, id) || id in faults.cancels
      {
        assert db'.orders[id].status == if id in faults.cancels then Pending else Canceled;
      }
    }
  }

  /** One lookup error is enough: the order of a running job is canceled. */
  lemma LookupErrorCancelsRunning()
    ensures var o := Order("j", JobOrder, Pending, Content(0, 1, ""), "", 1, 0, 0);
            var db := Db(map[1 := o], map["j" := Job(RUNNING, 0)], 2);
            var faults := SweepFaults(false, {1}, {});
            !Due(db, 1) && SweepStep(db, faults).orders[1].status == Canceled && !CancelsExactlyDue(db, faults)
  {
    var o := Order("j", JobOrder, Pending, Content(0, 1, ""), "", 1, 0, 0);
    var db := Db(map[1 := o], map["j" := Job(RUNNING, 0)], 2);
    assert 1 in ToCancel(db, SweepFaults(false, {1}, {}));
  }

  function Failed(db: Db, faults: SweepFaults): set<nat> {
    set id | id in Checked(db) && Stale(db, id, faults.lookups) && id in faults.cancels
  }

  function Kept(db: Db, faults: SweepFaults): set<nat> {
    set id | id in Checked(db) && !Stale(db, id, faults.lookups)
  }

  /** Every checked order is canceled, failed or kept, and is counted once. */
  lemma SweepAccounting(db: Db, faults: SweepFaults)
    ensures |ToCancel(db, faults)| + |Failed(db, faults)| + |Kept(db, faults)| == |Checked(db)|
  {
    var c, f, k := ToCancel(db, faults), Failed(db, faults), Kept(db, faults);
    assert c + f + k == Checked(db) && c !! f && (c + f) !! k;
    assert |c + f| == |c| + |f|;
    assert |(c + f) + k| == |c + f| + |k|;
  }

  /** A failure-free sweep after one with any cancel errors gives the table that one
      failure-free sweep would have given. */
  lemma RetryConverges(db: Db, cancels: set<nat>)
    ensures SweepStep(SweepStep(db, SweepFaults(false, {}, cancels)), NO_SWEEP_FAULTS) == SweepStep(db, NO_SWEEP_FAULTS)
  {
    var once := SweepStep(db, NO_SWEEP_FAULTS);
    var first := SweepStep(db, SweepFaults(false, {}, cancels));
    var second := SweepStep(first, NO_SWEEP_FAULTS);
    assert second.orders.Keys == db.orders.Keys == once.orders.Keys;
    forall id | id in db.orders
      ensures second.orders[id] == once.orders[id]
    {
      assert id in ToCancel(first, NO_SWEEP_FAULTS) <==> id in ToCancel(db, NO_SWEEP_FAULTS) && id in cancels;
    }
    assert second.orders == once.orders;
  }

  /** A second failure-free sweep finds nothing to cancel. */
  lemma SecondSweepCancelsNothing(db: Db)
    ensures ToCancel(SweepStep(db, NO_SWEEP_FAULTS), NO_SWEEP_FAULTS) == {}
  {
    var db' := SweepStep(db, NO_SWEEP_FAULTS);
    forall id | id in db'.orders
      ensures id !in ToCancel(db', NO_SWEEP_FAULTS)
    {
      assert id in db.orders;
    }
  }
}
