/** Runs of the approval-order system: every interleaving of the handlers with clock ticks and
    with phase changes and deletions of jobs. The ledger of grants is a history variable; no
    handler reads it. */
module ApprovalRuns {
  import opened LockArithmetic
  import opened Approvals
  import opened Options

  /** One automatic lock: who obtained it, on which job, the order that records it (None when
      the insert failed after the lock was taken) and the clock when the create ended. */
  datatype Grant = Grant(user: nat, job: string, call: LockCall, order: Option<nat>, at: int)

  /** `gone` holds the names of deleted jobs: their rows are invisible, but the unique index on
      the name still sees them. */
  datatype World = World(db: Db, now: int, grants: seq<Grant>, gone: set<string>)

  datatype Step =
    | Create(user: nat, req: CreateReq, clocks: Clocks, faults: CreateFaults)
    | Update(user: nat, role: Role, id: nat, change: UpdateReq, fault: bool)
    | Delete(user: nat, id: nat, fault: bool)
    | Sweep(sweep: SweepFaults)
    | JobPhase(name: string, phase: string)
    | DropJob(name: string)
    | Tick(time: int)

  /** The clock never goes back. This is all that a run assumes of its steps. */
  predicate Admissible(w: World, s: Step) {
    match s
    case Create(_, _, clocks, _) => w.now <= clocks.check && clocks.Ordered()
    case Tick(t) => w.now <= t
    case _ => true
  }

  predicate GrantsLock(w: World, s: Step) {
    s.Create? && Grants(w.db, s.user, s.req, s.clocks, s.faults)
  }

  function NewGrant(w: World, s: Step): Grant
    requires s.Create?
  {
    Grant(s.user, s.req.name, CallOf(s.req.content.hours, s.clocks),
          if s.faults.insert then None else Some(w.db.nextId), s.clocks.created)
  }

  /** A phase change of a job; an unknown job appears unlocked, unless its name is taken by a
      deleted one. */
  function SetPhase(jobs: map<string, Job>, gone: set<string>, name: string, phase: string): map<string, Job> {
    if name in jobs then jobs[name := jobs[name].(phase := phase)]
    else if name in gone then jobs
    else jobs[name := Job(phase, ZERO_TIME)]
  }

  function NextDb(db: Db, gone: set<string>, s: Step): Db {
    match s
    case Create(user, req, clocks, faults) => CreateStep(db, user, req, clocks, faults)
    case Update(user, role, id, change, fault) => UpdateStep(db, user, role, id, change, fault)
    case Delete(user, id, fault) => DeleteStep(db, user, id, fault)
    case Sweep(faults) => SweepStep(db, faults)
    case JobPhase(name, phase) => db.(jobs := SetPhase(db.jobs, gone, name, phase))
    case DropJob(name) => db.(jobs := db.jobs - {name})
    case Tick(_) => db
  }

  function NextNow(now: int, s: Step): int {
    match s
    case Create(_, _, clocks, _) => clocks.created
    case Tick(t) => t
    case _ => now
  }

  function Next(w: World, s: Step): World {
    World(NextDb(w.db, w.gone, s), NextNow(w.now, s),
          if GrantsLock(w, s) then w.grants + [NewGrant(w, s)] else w.grants,
          if s.DropJob? && s.name in w.db.jobs then w.gone + {s.name} else w.gone)
  }

  function Run(w: World, steps: seq<Step>): World {
    if steps == [] then w else Next(Run(w, steps[..|steps| - 1]), steps[|steps| - 1])
  }

  /** The world in which step `i` of the run is taken. */
  function Before(w: World, steps: seq<Step>, i: nat): World
    requires i <= |steps|
  {
    Run(w, steps[..i])
  }

  ghost predicate AdmissibleRun(w: World, steps: seq<Step>) {
    forall i {:trigger steps[i]} :: 0 <= i < |steps| ==> Admissible(Before(w, steps, i), steps[i])
  }

  /** Splitting off the last step of a run. */
  lemma RunSplit(w: World, steps: seq<Step>)
    requires steps != []
    ensures var n := |steps| - 1;
            && Run(w, steps) == Next(Run(w, steps[..n]), steps[n])
            && Before(w, steps, n) == Run(w, steps[..n])
            && (forall i :: 0 <= i < n ==> steps[..n][i] == steps[i] && Before(w, steps[..n], i) == Before(w, steps, i))
            && (AdmissibleRun(w, steps) ==> AdmissibleRun(w, steps[..n]) && Admissible(Run(w, steps[..n]), steps[n]))
  {
    var n := |steps| - 1;
    forall i | 0 <= i < n
      ensures steps[..n][i] == steps[i] && Before(w, steps[..n], i) == Before(w, steps, i)
    {
      assert steps[..n][..i] == steps[..i];
    }
    if AdmissibleRun(w, steps) {
      assert Admissible(Before(w, steps, n), steps[n]);
      forall i {:trigger steps[..n][i]} | 0 <= i < n
        ensures Admissible(Before(w, steps[..n], i), steps[..n][i])
      {
        assert steps[..n][i] == steps[i];
      }
    }
  }

  /******* Rows: who created them, when they go, who approved them *******/

  /** A step keeps every other row's creator and creation time; a row goes only when its
      creator deletes it; a row that appears is the caller's own. */
  lemma StepFrame(w: World, s: Step, id: nat)
    requires ValidDb(w.db)
    ensures ValidDb(Next(w, s).db)
    ensures id in w.db.orders && id in Next(w, s).db.orders ==>
              && Next(w, s).db.orders[id].creator == w.db.orders[id].creator
              && Next(w, s).db.orders[id].createdAt == w.db.orders[id].createdAt
    ensures id in w.db.orders && id !in Next(w, s).db.orders ==>
              s.Delete? && s.id == id && s.user == w.db.orders[id].creator
    ensures id !in w.db.orders && id in Next(w, s).db.orders ==>
              s.Create? && id == w.db.nextId && Next(w, s).db.orders[id].creator == s.user
  {
  }

  /** Over every run, a row that disappeared was deleted by the user who created it, and a row
      that is still there has its original creator and creation time. */
  lemma {:induction false} OnlyCreatorsDelete(w: World, steps: seq<Step>, id: nat)
    requires ValidDb(w.db) && id in w.db.orders
    ensures ValidDb(Run(w, steps).db)
    ensures w.db.nextId <= Run(w, steps).db.nextId
    ensures id in Run(w, steps).db.orders ==>
              && Run(w, steps).db.orders[id].creator == w.db.orders[id].creator
              && Run(w, steps).db.orders[id].createdAt == w.db.orders[id].createdAt
    ensures id !in Run(w, steps).db.orders ==>
              exists i :: && 0 <= i < |steps| && steps[i].Delete? && steps[i].id == id
                          && steps[i].user == w.db.orders[id].creator
  {
    if steps != [] {
      var n := |steps| - 1;
      OnlyCreatorsDelete(w, steps[..n], id);
      StepFrame(Run(w, steps[..n]), steps[n], id);
      if id !in Run(w, steps[..n]).db.orders {
        var i :| 0 <= i < n && steps[..n][i].Delete? && steps[..n][i].id == id
                 && steps[..n][i].user == w.db.orders[id].creator;
        assert steps[i] == steps[..n][i];
      } else if id !in Run(w, steps).db.orders {
        assert steps[n].Delete?;
      }
    }
  }

  /** A step that makes order `id` approved: the automatic branch after a successful lock, or
      an update by a platform administrator that is accepted and written. */
  predicate Approves(w: World, s: Step, id: nat) {
    || (GrantsLock(w, s) && !s.faults.insert && id == w.db.nextId)
    || (s.Update? && s.id == id && id in w.db.orders && MayUpdate(s.user, s.role, s.change) && !s.fault
        && s.role == Admin && s.change.status == Approved)
  }

  lemma StepProvenance(w: World, s: Step, id: nat)
    requires id in Next(w, s).db.orders && Next(w, s).db.orders[id].status == Approved
    ensures (id in w.db.orders && w.db.orders[id].status == Approved) || Approves(w, s, id)
  {
  }

  lemma ApprovesIsEffective(w: World, s: Step, id: nat)
    requires Approves(w, s, id)
    ensures id in Next(w, s).db.orders && Next(w, s).db.orders[id].status == Approved
  {
  }

  /** Over every run, with no condition on its steps, an approved order was approved before
      the run, by the automatic branch, or by an administrator's update. */
  lemma {:induction false} Provenance(w: World, steps: seq<Step>, id: nat)
    requires id in Run(w, steps).db.orders && Run(w, steps).db.orders[id].status == Approved
    ensures || (id in w.db.orders && w.db.orders[id].status == Approved)
            || exists i :: 0 <= i < |steps| && Approves(Before(w, steps, i), steps[i], id)
  {
    if steps != [] {
      var n := |steps| - 1;
      RunSplit(w, steps);
      StepProvenance(Run(w, steps[..n]), steps[n], id);
      if Approves(Run(w, steps[..n]), steps[n], id) {
        assert Approves(Before(w, steps, n), steps[n], id);
      } else {
        Provenance(w, steps[..n], id);
        if !(id in w.db.orders && w.db.orders[id].status == Approved) {
          var i :| 0 <= i < n && Approves(Before(w, steps[..n], i), steps[..n][i], id);
          assert Approves(Before(w, steps, i), steps[i], id);
        }
      }
    }
  }

  /******* Locks: the job table refines the accumulator *******/

  /** The lock calls of the grants on one job, oldest first. */
  function CallsOn(grants: seq<Grant>, job: string): seq<LockCall> {
    if grants == [] then []
    else
      var g := grants[|grants| - 1];
      var older := CallsOn(grants[..|grants| - 1], job);
      if g.job == job then older + [g.call] else older
  }

  lemma CallsOnAppend(grants: seq<Grant>, g: Grant, job: string)
    ensures CallsOn(grants + [g], job) == if g.job == job then CallsOn(grants, job) + [g.call] else CallsOn(grants, job)
  {
    assert (grants + [g])[..|grants|] == grants;
  }

  lemma {:induction false} CallsOnGood(grants: seq<Grant>, job: string)
    requires forall i :: 0 <= i < |grants| ==> GoodCall(grants[i].call)
    ensures GoodCalls(CallsOn(grants, job))
  {
    if grants != [] {
      CallsOnGood(grants[..|grants| - 1], job);
    }
  }

  /** One step moves the lock of a job only by a grant on it, and takes the job away only by
      deleting it. */
  lemma StepLock(w: World, s: Step, job: string)
    requires job in w.db.jobs
    ensures job in Next(w, s).db.jobs <==> s != DropJob(job)
    ensures job in Next(w, s).db.jobs ==>
              Next(w, s).db.jobs[job].lock ==
                if GrantsLock(w, s) && s.req.name == job
                then NewLock(w.db.jobs[job].lock, NewGrant(w, s).call)
                else w.db.jobs[job].lock
  {
  }

  lemma GrantsAreGood(w: World, s: Step)
    requires Admissible(w, s)
    ensures GrantsLock(w, s) ==> GoodCall(NewGrant(w, s).call)
  {
  }

  /** The job exists, or its name is taken for good. */
  predicate Known(w: World, job: string) {
    job in w.db.jobs || job in w.gone
  }

  lemma KnownStep(w: World, s: Step, job: string)
    requires Known(w, job)
    ensures Known(Next(w, s), job)
    ensures job in Next(w, s).db.jobs ==> job in w.db.jobs && s != DropJob(job)
  {
  }

  /** A deleted job never comes back: over every run, a job that is there at the end was there
      at every moment before and was not deleted. */
  lemma {:induction false} JobsNeverReturn(w: World, steps: seq<Step>, job: string, i: nat)
    requires Known(w, job) && i <= |steps|
    ensures Known(Run(w, steps), job)
    ensures job in Run(w, steps).db.jobs ==>
              job in Before(w, steps, i).db.jobs && (i < |steps| ==> steps[i] != DropJob(job))
  {
    if steps == [] {
      assert steps[..i] == steps;
    } else {
      var n := |steps| - 1;
      JobsNeverReturn(w, steps[..n], job, if i <= n then i else n);
      KnownStep(Run(w, steps[..n]), steps[n], job);
      if i <= n {
        assert steps[..n][..i] == steps[..i];
      } else {
        assert steps[..i] == steps;
      }
    }
  }

  /** Over every run, the lock of a job is exactly the accumulator applied to the lock calls of
      the grants on that job: no other handler, no failed create and no grant on another job
      moves it as long as the job exists. */
  lemma {:induction false} LockIsAccumulator(w: World, steps: seq<Step>, job: string)
    requires w.grants == [] && job in w.db.jobs && AdmissibleRun(w, steps)
    ensures var w' := Run(w, steps);
            && (job in w'.db.jobs ==>
                  w'.db.jobs[job].lock == LockAfter(w.db.jobs[job].lock, CallsOn(w'.grants, job)))
            && forall i :: 0 <= i < |w'.grants| ==> GoodCall(w'.grants[i].call)
  {
    if steps != [] {
      var n := |steps| - 1;
      RunSplit(w, steps);
      LockIsAccumulator(w, steps[..n], job);
      var v, s := Run(w, steps[..n]), steps[n];
      GrantsAreGood(v, s);
      JobsNeverReturn(w, steps, job, n);
      if job in v.db.jobs {
        StepLock(v, s, job);
      }
      if GrantsLock(v, s) {
        var g, calls := NewGrant(v, s), CallsOn(v.grants, job);
        CallsOnAppend(v.grants, g, job);
        assert (calls + [g.call])[..|calls|] == calls;
      }
    }
  }

  /** The closed form, for every run of the system: with one clock read per lock the job's lock
      is the max-plus value of its grants; with two reads it is at most that and below it by at
      most the time between the paired reads. */
  lemma LockClosedForm(w: World, steps: seq<Step>, job: string)
    requires w.grants == [] && job in w.db.jobs && AdmissibleRun(w, steps)
    ensures var calls := CallsOn(Run(w, steps).grants, job);
            var bound := LockAfter(w.db.jobs[job].lock, Shared(calls));
            && IsMaxPlus(w.db.jobs[job].lock, Shared(calls), bound)
            && (job in Run(w, steps).db.jobs ==> bound - Gaps(calls) <= Run(w, steps).db.jobs[job].lock <= bound)
  {
    LockIsAccumulator(w, steps, job);
    var calls := CallsOn(Run(w, steps).grants, job);
    CallsOnGood(Run(w, steps).grants, job);
    TwoReads(w.db.jobs[job].lock, calls);
    ClosedForm(w.db.jobs[job].lock, Shared(calls));
  }

  /** A permanently locked job keeps its lock over every run as long as it exists, and no grant
      names it, not even after the job is deleted. */
  lemma {:induction false} PermanentIsAbsorbing(w: World, steps: seq<Step>, job: string)
    requires w.grants == [] && job in w.db.jobs && w.db.jobs[job].lock == PERMANENT
    ensures job in Run(w, steps).db.jobs ==> Run(w, steps).db.jobs[job].lock == PERMANENT
    ensures forall i :: 0 <= i < |Run(w, steps).grants| ==> Run(w, steps).grants[i].job != job
  {
    if steps != [] {
      PermanentIsAbsorbing(w, steps[..|steps| - 1], job);
      JobsNeverReturn(w, steps, job, |steps| - 1);
    }
  }

  /** For every unsigned hour count, the lock code either refuses it or converts it to a
      duration without overflow; an automatic approval asks for at most 11 hours. */
  lemma LockedHoursAreExact(jobs: map<string, Job>, name: string, hours: Uint64, faults: CreateFaults)
    requires Lockable(jobs, name, hours, faults)
    ensures Extension(hours) == hours * HOUR
  {
    ExtensionExactIff(hours);
  }

  lemma GrantedHoursAreExact(w: World, s: Step)
    requires GrantsLock(w, s)
    ensures s.req.content.hours <= 11
    ensures Extension(s.req.content.hours) == s.req.content.hours * HOUR
  {
    LockedHoursAreExact(w.db.jobs, s.req.name, s.req.content.hours, s.faults);
  }
}
