/** What a user sees of each approval-order handler, in plain values: which requests are taken,
    what is stored field by field, which lock moves where, and that nothing else changes. */
module ApprovalEffects {
  import opened LockArithmetic
  import opened Approvals

  const HOUR_NS: int := 3_600_000_000_000

  // 9999-12-31 is this many days after 1970-01-01.
  const FOREVER: int := 2_932_896 * 24 * HOUR_NS

  /** The user has a live order less than 48 hours old that carries the automatic note. */
  predicate ApprovedRecently(db: Db, user: nat, now: int) {
    exists id :: && id in db.orders && db.orders[id].creator == user
                 && now - db.orders[id].createdAt < 48 * HOUR_NS
                 && db.orders[id].notes == "whitout review\U{FF0C}approved due to system"
  }

  /** Exactly which requests are approved automatically. */
  lemma GrantedIff(db: Db, user: nat, req: CreateReq, clocks: Clocks, faults: CreateFaults)
    ensures Grants(db, user, req, clocks, faults) <==>
              && user != 0 && req.name != "" && req.kind == JobOrder && req.content.hours <= 11
              && !faults.recentQuery && !faults.jobQuery && !faults.lockWrite
              && req.name in db.jobs && db.jobs[req.name].lock != FOREVER
              && !ApprovedRecently(db, user, clocks.check)
  {
    forall id | id in db.orders
      ensures RecentAuto(db.orders[id], user, clocks.check) <==>
                && db.orders[id].creator == user && clocks.check - db.orders[id].createdAt < 48 * HOUR_NS
                && db.orders[id].notes == "whitout review\U{FF0C}approved due to system"
    {
    }
  }

  /** The reply names the first thing that goes wrong: the request, the user, the query for
      recent orders (which only a short job order makes), the insert. */
  lemma RepliesIff(db: Db, user: nat, req: CreateReq, clocks: Clocks, faults: CreateFaults)
    ensures var reply := CreateReplyOf(db, user, req, clocks, faults);
            && (reply == BadRequest <==> req.name == "" || req.kind == OtherKind(""))
            && (reply != BadRequest ==> (reply == NoUser <==> user == 0))
            && (reply != BadRequest && reply != NoUser ==>
                  (reply == CheckFailed <==> faults.recentQuery && req.kind == JobOrder && req.content.hours <= 11)
                  && (reply == InsertFailed <==> reply != CheckFailed && faults.insert)
                  && (reply.Created? <==> reply != CheckFailed && !faults.insert))
  {
  }

  /** A created order says what was asked for, by whom and when. It is approved, with the
      automatic note, if it was granted, and otherwise pending without a note. The reply tells
      which. No other order changes. */
  lemma CreatedOrder(db: Db, user: nat, req: CreateReq, clocks: Clocks, faults: CreateFaults)
    requires CreateReplyOf(db, user, req, clocks, faults).Created?
    ensures var db', auto := CreateStep(db, user, req, clocks, faults), Grants(db, user, req, clocks, faults);
            && db.nextId in db'.orders && db'.nextId == db.nextId + 1
            && var o := db'.orders[db.nextId];
            && o.name == req.name && o.kind == req.kind && o.content == req.content
            && o.creator == user && o.reviewer == 0 && o.createdAt == clocks.created
            && (auto ==> o.status == Approved && o.notes == "whitout review\U{FF0C}approved due to system")
            && (!auto ==> o.status == Pending && o.notes == "")
            && (CreateReplyOf(db, user, req, clocks, faults).auto <==> o.status == Approved)
    ensures forall id :: id != db.nextId ==>
              var db' := CreateStep(db, user, req, clocks, faults);
              && (id in db'.orders <==> id in db.orders)
              && (id in db.orders ==> db'.orders[id] == db.orders[id])
  {
  }

  /** Every other reply leaves the orders alone; a failed insert still uses up its id. */
  lemma RefusedOrder(db: Db, user: nat, req: CreateReq, clocks: Clocks, faults: CreateFaults)
    requires !CreateReplyOf(db, user, req, clocks, faults).Created?
    ensures var db', reply := CreateStep(db, user, req, clocks, faults), CreateReplyOf(db, user, req, clocks, faults);
            && db'.orders == db.orders
            && db'.nextId == (if reply == InsertFailed then db.nextId + 1 else db.nextId)
            && (reply != InsertFailed ==> db'.jobs == db.jobs)
  {
  }

  /** A granted create, and no other, moves a lock, even when its insert fails: the lock of the
      named job goes to its old value, if that is later than the second clock read, and otherwise
      to the first read, plus the hours. No phase and no other job changes. */
  lemma GrantedLock(db: Db, user: nat, req: CreateReq, clocks: Clocks, faults: CreateFaults, job: string)
    requires job in db.jobs
    ensures var db' := CreateStep(db, user, req, clocks, faults);
            && db'.jobs.Keys == db.jobs.Keys && db'.jobs[job].phase == db.jobs[job].phase
            && db'.jobs[job].lock ==
                 if Grants(db, user, req, clocks, faults) && job == req.name
                 then (if db.jobs[job].lock > clocks.second then db.jobs[job].lock else clocks.first)
                      + req.content.hours * HOUR_NS
                 else db.jobs[job].lock
  {
    if Grants(db, user, req, clocks, faults) {
      ExtensionExactIff(req.content.hours);
    }
  }

  /** The lock code on its own takes up to 60 days, and what it takes it adds exactly. */
  lemma LockedExactly(jobs: map<string, Job>, name: string, hours: Uint64, clocks: Clocks, faults: CreateFaults)
    ensures Lockable(jobs, name, hours, faults) <==>
              && !faults.jobQuery && !faults.lockWrite && name in jobs && jobs[name].lock != FOREVER && hours <= 60 * 24
    ensures Lockable(jobs, name, hours, faults) ==>
              var jobs' := LockJob(jobs, name, CallOf(hours, clocks));
              && jobs'.Keys == jobs.Keys && jobs'[name].phase == jobs[name].phase
              && jobs'[name].lock ==
                   (if jobs[name].lock > clocks.second then jobs[name].lock else clocks.first) + hours * HOUR_NS
              && forall other :: other in jobs && other != name ==> jobs'[other] == jobs[other]
  {
    if Lockable(jobs, name, hours, faults) {
      ExtensionExactIff(hours);
    }
  }

  /** An update takes a bound request of a known user; it asks for an administrator only when it
      sets Approved. It then writes name and kind, and of the other fields those that are not
      empty, and never creator or creation time. */
  lemma UpdatedOrder(db: Db, user: nat, role: Role, id: nat, req: UpdateReq, fault: bool)
    requires id in db.orders
    ensures var db' := UpdateStep(db, user, role, id, req, fault);
            && id in db'.orders
            && var o, o' := db.orders[id], db'.orders[id];
            if && req.name != "" && req.kind != OtherKind("") && user != 0 && !fault
               && (req.status != Approved || role == Admin)
            then
              && o'.name == req.name && o'.kind == req.kind
              && o'.status == (if req.status == OtherStatus("") then o.status else req.status)
              && o'.content == (if req.content == Content(0, 0, "") then o.content else req.content)
              && o'.reviewer == (if req.reviewer == 0 then o.reviewer else req.reviewer)
              && o'.notes == (if req.notes == "" then o.notes else req.notes)
              && o'.creator == o.creator && o'.createdAt == o.createdAt
            else o' == o
  {
  }

  lemma UpdateFrame(db: Db, user: nat, role: Role, id: nat, req: UpdateReq, fault: bool)
    ensures var db' := UpdateStep(db, user, role, id, req, fault);
            && db'.orders.Keys == db.orders.Keys && db'.jobs == db.jobs && db'.nextId == db.nextId
            && forall other :: other in db.orders && other != id ==> db'.orders[other] == db.orders[other]
  {
  }

  /** An order goes if and only if its creator deletes it and the write works, whatever its
      status; nothing else changes. */
  lemma DeletedIff(db: Db, user: nat, id: nat, fault: bool)
    requires id in db.orders
    ensures var db' := DeleteStep(db, user, id, fault);
            && (id !in db'.orders <==> user != 0 && user == db.orders[id].creator && !fault)
            && db'.jobs == db.jobs && db'.nextId == db.nextId
            && forall other :: other != id ==>
                 && (other in db'.orders <==> other in db.orders)
                 && (other in db.orders ==> db'.orders[other] == db.orders[other])
  {
  }
}
