/** Approval orders and job locks: the tables and what each handler does to them. A handler
    body is one atomic step; database errors and clock reads are inputs of the step. */
module Approvals {
  import opened LockArithmetic

  datatype OrderKind = JobOrder | DatasetOrder | OtherKind(text: string)

  datatype OrderStatus = Pending | Approved | Rejected | Canceled | OtherStatus(text: string)

  // Go's zero value, which a struct update skips.
  const NO_STATUS: OrderStatus := OtherStatus("")

  datatype Role = Guest | User | Admin | OtherRole(code: nat)

  datatype Content = Content(typeId: nat, hours: Uint64, reason: string) {
    // Go's zero value, which a struct update skips.
    predicate IsZero() { typeId == 0 && hours == 0 && reason == "" }
  }

  datatype Order = Order(
    name: string, kind: OrderKind, status: OrderStatus, content: Content, notes: string,
    creator: nat, reviewer: nat, createdAt: int)

  datatype Job = Job(phase: string, lock: int)

  // Only live rows are kept: a soft-deleted row is invisible to every query of these handlers.
  datatype Db = Db(orders: map<nat, Order>, jobs: map<string, Job>, nextId: nat)

  const AUTO_NOTE: string := "whitout review\U{FF0C}approved due to system"
  const RUNNING: string := "Running"
  const WINDOW: int := 48 * HOUR
  const AUTO_LIMIT: int := 12

  predicate ValidDb(db: Db) {
    forall id :: id in db.orders ==> id < db.nextId
  }

  /** A name and a kind are required by request binding. */
  predicate Bound(name: string, kind: OrderKind) {
    name != "" && kind != OtherKind("")
  }

  /******* Creating an order *******/

  datatype CreateReq = CreateReq(name: string, kind: OrderKind, content: Content)

  // Clock reads of one create: the eligibility check, the two reads of the lock code, createdAt.
  datatype Clocks = Clocks(check: int, first: int, second: int, created: int) {
    predicate Ordered() { check <= first <= second <= created }
  }

  datatype CreateFaults = CreateFaults(recentQuery: bool, jobQuery: bool, lockWrite: bool, insert: bool)

  const NO_FAULTS: CreateFaults := CreateFaults(false, false, false, false)

  datatype CreateReply = BadRequest | NoUser | CheckFailed | InsertFailed | Created(auto: bool)

  predicate RecentAuto(o: Order, user: nat, now: int) {
    o.creator == user && o.createdAt > now - WINDOW && o.notes == AUTO_NOTE
  }

  /** A job order for fewer than 12 hours whose creator has no order from the last 48 hours
      that carries the automatic note. */
  predicate Eligible(db: Db, user: nat, req: CreateReq, now: int) {
    && req.kind.JobOrder?
    && req.content.hours < AUTO_LIMIT
    && forall id :: id in db.orders ==> !RecentAuto(db.orders[id], user, now)
  }

  /** The lock code succeeds. */
  predicate Lockable(jobs: map<string, Job>, name: string, hours: Uint64, faults: CreateFaults) {
    && !faults.jobQuery && !faults.lockWrite
    && name in jobs && jobs[name].lock != PERMANENT && hours <= MAX_HOURS
  }

  function CallOf(hours: Uint64, clocks: Clocks): LockCall {
    LockCall(clocks.first, clocks.second, hours)
  }

  function LockJob(jobs: map<string, Job>, name: string, c: LockCall): map<string, Job>
    requires name in jobs
  {
    jobs[name := jobs[name].(lock := NewLock(jobs[name].lock, c))]
  }

  /** The request reaches the eligibility check. */
  predicate Accepted(user: nat, req: CreateReq, faults: CreateFaults) {
    && Bound(req.name, req.kind) && user != 0
    && (faults.recentQuery ==> !req.kind.JobOrder? || req.content.hours >= AUTO_LIMIT)
  }

  /** The create locks the job, that is, it grants an automatic approval. */
  predicate Grants(db: Db, user: nat, req: CreateReq, clocks: Clocks, faults: CreateFaults) {
    && Accepted(user, req, faults)
    && Eligible(db, user, req, clocks.check)
    && Lockable(db.jobs, req.name, req.content.hours, faults)
  }

  function NewOrder(user: nat, req: CreateReq, created: int, auto: bool): Order {
    Order(req.name, req.kind, if auto then Approved else Pending, req.content,
          if auto then AUTO_NOTE else "", user, 0, created)
  }

  function CreateStep(db: Db, user: nat, req: CreateReq, clocks: Clocks, faults: CreateFaults): Db {
    if !Accepted(user, req, faults) then db
    else
      var auto := Grants(db, user, req, clocks, faults);
      Db(if faults.insert then db.orders else db.orders[db.nextId := NewOrder(user, req, clocks.created, auto)],
         if auto then LockJob(db.jobs, req.name, CallOf(req.content.hours, clocks)) else db.jobs,
         db.nextId + 1)
  }

  function CreateReplyOf(db: Db, user: nat, req: CreateReq, clocks: Clocks, faults: CreateFaults): CreateReply {
    if !Bound(req.name, req.kind) then BadRequest
    else if user == 0 then NoUser
    else if !Accepted(user, req, faults) then CheckFailed
    else if faults.insert then InsertFailed
    else Created(Grants(db, user, req, clocks, faults))
  }

  /******* Updating and deleting an order *******/

  datatype UpdateReq = UpdateReq(
    name: string, kind: OrderKind, status: OrderStatus, content: Content, reviewer: nat, notes: string)

  datatype Reply = Refused | Done

  predicate MayUpdate(user: nat, role: Role, req: UpdateReq) {
    && Bound(req.name, req.kind) && user != 0
    && (req.status == Approved ==> role == Admin)
  }

  /** `Updates` with a struct writes only the fields that are not Go's zero value. */
  function Merge(o: Order, req: UpdateReq): Order {
    o.(name := req.name, kind := req.kind,
       status := if req.status == NO_STATUS then o.status else req.status,
       content := if req.content.IsZero() then o.content else req.content,
       reviewer := if req.reviewer == 0 then o.reviewer else req.reviewer,
       notes := if req.notes == "" then o.notes else req.notes)
  }

  function UpdateStep(db: Db, user: nat, role: Role, id: nat, req: UpdateReq, fault: bool): Db {
    if MayUpdate(user, role, req) && !fault && id in db.orders
    then db.(orders := db.orders[id := Merge(db.orders[id], req)])
    else db
  }

  predicate MayDelete(db: Db, user: nat, id: nat) {
    user != 0 && id in db.orders && db.orders[id].creator == user
  }

  function DeleteStep(db: Db, user: nat, id: nat, fault: bool): Db {
    if MayDelete(db, user, id) && !fault then db.(orders := db.orders - {id}) else db
  }

  /******* The sweep over pending job orders *******/

  // Errors of one sweep: the initial query, job lookups and cancel writes (by order id).
  datatype SweepFaults = SweepFaults(query: bool, lookups: set<nat>, cancels: set<nat>)

  const NO_SWEEP_FAULTS: SweepFaults := SweepFaults(false, {}, {})

  predicate PendingJob(o: Order) {
    o.status == Pending && o.kind == JobOrder
  }

  /** The sweep takes the order's job for missing or stopped. A lookup error counts as missing. */
  predicate Stale(db: Db, id: nat, lookups: set<nat>)
    requires id in db.orders
  {
    var name := db.orders[id].name;
    id in lookups || name !in db.jobs || db.jobs[name].phase != RUNNING
  }

  function StaleReason(db: Db, id: nat, lookups: set<nat>): string
    requires id in db.orders
  {
    var name := db.orders[id].name;
    if id in lookups || name !in db.jobs then "Job not found"
    else "Job is not running (status: " + db.jobs[name].phase + ")"
  }

  function Checked(db: Db): set<nat> {
    set id | id in db.orders && PendingJob(db.orders[id])
  }

  function ToCancel(db: Db, faults: SweepFaults): set<nat> {
    set id | id in db.orders && PendingJob(db.orders[id]) && Stale(db, id, faults.lookups) && id !in faults.cancels
  }

  function Cancel(o: Order, reason: string): Order {
    o.(status := Canceled, notes := reason)
  }

  /** The rows after the cancels of `ids` have been written. */
  function WithCanceled(db: Db, ids: set<nat>, lookups: set<nat>): map<nat, Order> {
    map id | id in db.orders ::
      if id in ids then Cancel(db.orders[id], StaleReason(db, id, lookups)) else db.orders[id]
  }

  function SweepStep(db: Db, faults: SweepFaults): Db {
    if faults.query then db
    else db.(orders := WithCanceled(db, ToCancel(db, faults), faults.lookups))
  }
}
