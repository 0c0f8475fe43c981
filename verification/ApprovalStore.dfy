/** The approval-order handlers in the imperative form of the original, each proved against
    the step it takes on the tables. */
module ApprovalStore {
  import opened LockArithmetic
  import opened Approvals
  import opened Listings

  lemma CancelOneMore(db: Db, ids: set<nat>, id: nat, lookups: set<nat>)
    requires id in db.orders && id !in ids
    ensures WithCanceled(db, ids + {id}, lookups)
         == WithCanceled(db, ids, lookups)[id := Cancel(db.orders[id], StaleReason(db, id, lookups))]
  {
  }

  class Store {
    var orders: map<nat, Order>
    var jobs: map<string, Job>
    var nextId: nat

    function View(): Db
      reads this
    {
      Db(orders, jobs, nextId)
    }

    constructor (db: Db)
      ensures View() == db
    {
      orders, jobs, nextId := db.orders, db.jobs, db.nextId;
    }

    /** The rows of one creator newer than a given time, in no particular order. */
    method FindRecent(user: nat, since: int) returns (rows: seq<Order>)
      ensures forall o :: o in rows <==>
                exists id :: id in orders && orders[id] == o && o.creator == user && o.createdAt > since
    {
      rows := [];
      var left := orders.Keys;
      while left != {}
        invariant left <= orders.Keys
        invariant forall o :: o in rows <==>
                    exists id :: id in orders && id !in left && orders[id] == o
                                 && o.creator == user && o.createdAt > since
        decreases left
      {
        var id :| id in left;
        if orders[id].creator == user && orders[id].createdAt > since {
          rows := rows + [orders[id]];
        }
        left := left - {id};
      }
    }

    method CheckAutoApprovalEligibility(user: nat, req: CreateReq, now: int, fault: bool)
      returns (err: bool, can: bool)
      ensures err <==> fault && req.kind.JobOrder? && req.content.hours < AUTO_LIMIT
      ensures !err ==> (can <==> Eligible(View(), user, req, now))
    {
      if !req.kind.JobOrder? || req.content.hours >= AUTO_LIMIT {
        return false, false;
      }
      if fault {
        return true, false;
      }
      var recent := FindRecent(user, now - WINDOW);
      for i := 0 to |recent|
        invariant forall k :: 0 <= k < i ==> recent[k].notes != AUTO_NOTE
      {
        if recent[i].notes == AUTO_NOTE {
          assert recent[i] in recent;
          return false, false;
        }
      }
      forall id | id in orders
        ensures !RecentAuto(orders[id], user, now)
      {
        if orders[id].creator == user && orders[id].createdAt > now - WINDOW {
          assert orders[id] in recent;
        }
      }
      return false, true;
    }

    method LockJobForApproval(name: string, hours: Uint64, clocks: Clocks, faults: CreateFaults)
      returns (ok: bool)
      modifies this`jobs
      ensures ok <==> Lockable(old(jobs), name, hours, faults)
      ensures jobs == if ok then LockJob(old(jobs), name, CallOf(hours, clocks)) else old(jobs)
    {
      if faults.jobQuery || name !in jobs {
        return false;
      }
      var j := jobs[name];
      if j.lock == PERMANENT {
        return false;
      }
      if hours > MAX_HOURS {
        return false;
      }
      var lockTime := clocks.first;
      if j.lock > clocks.second {
        lockTime := j.lock;
      }
      lockTime := lockTime + Extension(hours);
      if faults.lockWrite {
        return false;
      }
      jobs := jobs[name := j.(lock := lockTime)];
      return true;
    }

    method CreateApprovalOrder(user: nat, req: CreateReq, clocks: Clocks, faults: CreateFaults)
      returns (reply: CreateReply)
      modifies this
      ensures View() == CreateStep(old(View()), user, req, clocks, faults)
      ensures reply == CreateReplyOf(old(View()), user, req, clocks, faults)
    {
      if !Bound(req.name, req.kind) {
        return BadRequest;
      }
      if user == 0 {
        return NoUser;
      }
      var autoApproved := false;
      var err, canAutoApprove := CheckAutoApprovalEligibility(user, req, clocks.check, faults.recentQuery);
      if err {
        return CheckFailed;
      }
      if canAutoApprove {
        autoApproved := LockJobForApproval(req.name, req.content.hours, clocks, faults);
      }
      var status, notes := Pending, "";
      if autoApproved {
        status, notes := Approved, AUTO_NOTE;
      }
      var order := Order(req.name, req.kind, status, req.content, notes, user, 0, clocks.created);
      var id := nextId;
      nextId := nextId + 1;
      if faults.insert {
        return InsertFailed;
      }
      orders := orders[id := order];
      return Created(autoApproved);
    }

    method UpdateApprovalOrder(user: nat, role: Role, id: nat, req: UpdateReq, fault: bool)
      returns (reply: Reply)
      modifies this`orders
      ensures View() == UpdateStep(old(View()), user, role, id, req, fault)
      ensures reply == Done <==> MayUpdate(user, role, req) && !fault
    {
      if !Bound(req.name, req.kind) || user == 0 {
        return Refused;
      }
      if req.status == Approved && role != Admin {
        return Refused;
      }
      if fault {
        return Refused;
      }
      if id in orders {
        var o := orders[id].(name := req.name, kind := req.kind);
        if req.status != NO_STATUS { o := o.(status := req.status); }
        if !req.content.IsZero() { o := o.(content := req.content); }
        if req.reviewer != 0 { o := o.(reviewer := req.reviewer); }
        if req.notes != "" { o := o.(notes := req.notes); }
        orders := orders[id := o];
      }
      return Done;
    }

    method DeleteApprovalOrder(user: nat, id: nat, fault: bool) returns (reply: Reply)
      modifies this`orders
      ensures View() == DeleteStep(old(View()), user, id, fault)
      ensures reply == Done <==> old(MayDelete(View(), user, id)) && !fault
    {
      if user == 0 || id !in orders {
        return Refused;
      }
      if orders[id].creator != user || fault {
        return Refused;
      }
      orders := orders - {id};
      return Done;
    }

    /** Whether the phase is one of the phases taken for running. */
    method IsJobRunning(phase: string) returns (running: bool)
      ensures running <==> phase == RUNNING
    {
      var phases := [RUNNING];
      for i := 0 to |phases|
        invariant forall k :: 0 <= k < i ==> phases[k] != phase
      {
        if phase == phases[i] {
          return true;
        }
      }
      assert phases[0] == RUNNING;
      return false;
    }

    method CancelApprovalOrder(id: nat, reason: string, fault: bool) returns (ok: bool)
      modifies this`orders
      ensures ok == !fault
      ensures orders == if ok && id in old(orders)
                        then old(orders)[id := Cancel(old(orders)[id], reason)] else old(orders)
    {
      if fault {
        return false;
      }
      if id in orders {
        orders := orders[id := orders[id].(status := Canceled, notes := reason)];
      }
      return true;
    }

    /** The ids of the pending job orders, in no particular order. */
    method FindPendingJobOrders() returns (ids: seq<nat>)
      ensures Lists(ids, Checked(View()))
    {
      ids := [];
      var left := orders.Keys;
      while left != {}
        invariant left <= orders.Keys
        invariant Lists(ids, Checked(View()) - left)
        decreases left
      {
        var id :| id in left;
        left := left - {id};
        if PendingJob(orders[id]) {
          ids := ids + [id];
        }
      }
      assert Checked(View()) - left == Checked(View());
    }

    /** The body of the sweep's loop: check one fetched order and cancel it if its job is gone. */
    method CheckOrder(id: nat, faults: SweepFaults) returns (canceled: bool)
      requires id in orders
      modifies this`orders
      ensures canceled <==> Stale(old(View()), id, faults.lookups) && id !in faults.cancels
      ensures orders == if canceled
                        then old(orders)[id := Cancel(old(orders)[id], StaleReason(old(View()), id, faults.lookups))]
                        else old(orders)
    {
      var order := orders[id];
      if id in faults.lookups || order.name !in jobs {
        canceled := CancelApprovalOrder(id, "Job not found", id in faults.cancels);
        return;
      }
      var phase := jobs[order.name].phase;
      var running := IsJobRunning(phase);
      if !running {
        canceled := CancelApprovalOrder(id, "Job is not running (status: " + phase + ")", id in faults.cancels);
      } else {
        canceled := false;
      }
    }

    /** The sweep's loop over the fetched orders. */
    method CheckOrders(pending: seq<nat>, faults: SweepFaults) returns (canceled: nat, ghost done: set<nat>)
      requires forall id :: id in pending ==> id in orders
      requires Distinct(pending)
      modifies this`orders
      ensures forall id :: id in done <==>
                id in pending && Stale(old(View()), id, faults.lookups) && id !in faults.cancels
      ensures orders == WithCanceled(old(View()), done, faults.lookups)
      ensures canceled == |done|
    {
      ghost var db := View();
      canceled, done := 0, {};
      assert orders == WithCanceled(db, done, faults.lookups);
      for i := 0 to |pending|
        invariant forall id :: id in done <==>
                    id in pending[..i] && Stale(db, id, faults.lookups) && id !in faults.cancels
        invariant orders == WithCanceled(db, done, faults.lookups)
        invariant canceled == |done|
      {
        var id := pending[i];
        assert id in pending && id !in pending[..i];
        var ok := CheckOrder(id, faults);
        if ok {
          CancelOneMore(db, done, id, faults.lookups);
          canceled, done := canceled + 1, done + {id};
        }
      }
      assert pending[..|pending|] == pending;
    }

    /** The sweep. Its result names sets of rows only, so it does not depend on the order in
        which the rows were fetched. */
    method UpdateApprovalOrderByJobStatus(faults: SweepFaults) returns (reply: Reply, checked: nat, canceled: nat)
      modifies this`orders
      ensures View() == SweepStep(old(View()), faults)
      ensures reply == Done <==> !faults.query
      ensures checked == if faults.query then 0 else |Checked(old(View()))|
      ensures canceled == if faults.query then 0 else |ToCancel(old(View()), faults)|
    {
      if faults.query {
        return Refused, 0, 0;
      }
      var pending := FindPendingJobOrders();
      ListsLength(pending, Checked(View()));
      var n, done := CheckOrders(pending, faults);
      assert done == ToCancel(old(View()), faults);
      return Done, |pending|, n;
    }
  }
}
