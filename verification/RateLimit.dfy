/** The 48-hour rate limit on automatic approvals, over whole runs: when it holds, exactly
    which states protect it, and a run on which it fails. */
module RateLimit {
  import opened LockArithmetic
  import opened Approvals
  import opened Options
  import opened ApprovalRuns

  /** Any two automatic approvals of the user are at least 48 hours apart. */
  ghost predicate Spaced(w: World, user: nat) {
    forall i, j :: 0 <= i < j < |w.grants| && w.grants[i].user == user && w.grants[j].user == user ==>
      w.grants[i].at + WINDOW <= w.grants[j].at
  }

  /** The grant is less than 48 hours old. */
  predicate Fresh(w: World, g: Grant) {
    w.now < g.at + WINDOW
  }

  predicate Marks(o: Order, user: nat, at: int) {
    o.creator == user && o.notes == AUTO_NOTE && at <= o.createdAt
  }

  /** Every fresh grant of the user is covered by a live order that the check will see. */
  ghost predicate Covered(w: World, user: nat) {
    forall i :: 0 <= i < |w.grants| && w.grants[i].user == user && Fresh(w, w.grants[i]) ==>
      exists id :: id in w.db.orders && Marks(w.db.orders[id], user, w.grants[i].at)
  }

  /** In a covered state, a user who passes the check had no grant for 48 hours. */
  lemma EligibleIsSpaced(w: World, user: nat, req: CreateReq, check: int)
    requires w.now <= check && Covered(w, user) && Eligible(w.db, user, req, check)
    ensures forall i :: 0 <= i < |w.grants| && w.grants[i].user == user ==> w.grants[i].at + WINDOW <= check
  {
    forall i | 0 <= i < |w.grants| && w.grants[i].user == user
      ensures w.grants[i].at + WINDOW <= check
    {
      if Fresh(w, w.grants[i]) {
        var id :| id in w.db.orders && Marks(w.db.orders[id], user, w.grants[i].at);
        assert !RecentAuto(w.db.orders[id], user, check);
      }
    }
  }

  /** From a covered state a grant comes 48 hours after every earlier one of the same user. */
  lemma GrantIsSpaced(w: World, s: Step)
    requires Admissible(w, s) && GrantsLock(w, s) && Covered(w, s.user)
    ensures forall i :: 0 <= i < |w.grants| && w.grants[i].user == s.user ==>
              w.grants[i].at + WINDOW <= s.clocks.check
  {
    EligibleIsSpaced(w, s.user, s.req, s.clocks.check);
  }

  /** Whatever the user asks for next, the limit still holds afterwards. */
  ghost predicate Safe(w: World, user: nat) {
    forall s: Step :: s.Create? && s.user == user && Admissible(w, s) ==> Spaced(Next(w, s), user)
  }

  /** The request that gets through as soon as cover is missing. */
  function Probe(user: nat, job: string, t: int): Step {
    Create(user, CreateReq(job, JobOrder, Content(0, 0, "")), Clocks(t, t, t, t), NO_FAULTS)
  }

  /** The check protects the limit in exactly the covered states: if a fresh grant has no live
      marked order, some admissible request of the same user is approved too early. */
  lemma SafeIffCovered(w: World, user: nat, job: string)
    requires Spaced(w, user) && user != 0
    requires job != "" && job in w.db.jobs && w.db.jobs[job].lock != PERMANENT
    ensures Safe(w, user) <==> Covered(w, user)
  {
    if Covered(w, user) {
      forall s: Step | s.Create? && s.user == user && Admissible(w, s)
        ensures Spaced(Next(w, s), user)
      {
        if GrantsLock(w, s) {
          GrantIsSpaced(w, s);
        }
      }
    } else {
      var i :| 0 <= i < |w.grants| && w.grants[i].user == user && Fresh(w, w.grants[i])
               && !exists id :: id in w.db.orders && Marks(w.db.orders[id], user, w.grants[i].at);
      var t := w.grants[i].at + WINDOW - 1;
      var s := Probe(user, job, t);
      assert Admissible(w, s);
      assert Eligible(w.db, user, s.req, t);
      var w' := Next(w, s);
      assert w'.grants[i] == w.grants[i] && w'.grants[|w.grants|].at == t;
      assert !Spaced(w', user);
    }
  }

  /******* Whole runs *******/

  /** In the run, every grant of the user is given in a covered state. */
  ghost predicate CoveredRun(w: World, steps: seq<Step>, user: nat) {
    forall i {:trigger steps[i]} :: 0 <= i < |steps| && GrantsLock(Before(w, steps, i), steps[i])
                                    && steps[i].user == user ==>
      Covered(Before(w, steps, i), user)
  }

  lemma CoveredSplit(w: World, steps: seq<Step>, user: nat)
    requires steps != [] && CoveredRun(w, steps, user)
    ensures var n := |steps| - 1;
            && CoveredRun(w, steps[..n], user)
            && (GrantsLock(Run(w, steps[..n]), steps[n]) && steps[n].user == user ==> Covered(Run(w, steps[..n]), user))
  {
    RunSplit(w, steps);
    var n := |steps| - 1;
    assert Before(w, steps, n) == Run(w, steps[..n]) && steps[n] == steps[n];
    forall i {:trigger steps[..n][i]} | 0 <= i < n && GrantsLock(Before(w, steps[..n], i), steps[..n][i])
                                        && steps[..n][i].user == user
      ensures Covered(Before(w, steps[..n], i), user)
    {
      assert steps[..n][i] == steps[i];
    }
  }

  /** The rate limit, in its widest form: automatic approvals stay 48 hours apart in every run in
      which each new one is given in a covered state. */
  lemma {:induction false} SpacedIfCovered(w: World, steps: seq<Step>, user: nat)
    requires Spaced(w, user) && AdmissibleRun(w, steps) && CoveredRun(w, steps, user)
    ensures Spaced(Run(w, steps), user)
  {
    if steps != [] {
      RunSplit(w, steps);
      CoveredSplit(w, steps, user);
      var v, s := Run(w, steps[..|steps| - 1]), steps[|steps| - 1];
      SpacedIfCovered(w, steps[..|steps| - 1], user);
      if GrantsLock(v, s) && s.user == user {
        GrantIsSpaced(v, s);
      }
    }
  }

  predicate IsRecordOf(g: Grant, id: nat) {
    g.order == Some(id)
  }

  /** The order row that a grant wrote still has its creator, note and creation time. */
  predicate Recorded(w: World, g: Grant) {
    && g.order.Some? && g.order.value in w.db.orders
    && var o := w.db.orders[g.order.value];
       o.creator == g.user && o.notes == AUTO_NOTE && o.createdAt == g.at
  }

  /** The step takes the order, or the automatic note on it, away: an update with another note,
      a delete by the creator, or a sweep that cancels the order. */
  predicate Erases(db: Db, s: Step, id: nat) {
    match s
    case Update(user, role, target, change, fault) =>
      target == id && MayUpdate(user, role, change) && !fault && change.notes != "" && change.notes != AUTO_NOTE
    case Delete(user, target, fault) => target == id && MayDelete(db, user, id) && !fault
    case Sweep(faults) => !faults.query && id in ToCancel(db, faults)
    case _ => false
  }

  lemma ReasonsAreNotTheNote(db: Db, id: nat, lookups: set<nat>)
    requires id in db.orders
    ensures StaleReason(db, id, lookups) != AUTO_NOTE
  {
    assert StaleReason(db, id, lookups)[0] == 'J' && AUTO_NOTE[0] == 'w';
  }

  /** A record is lost in exactly the steps that erase it. */
  lemma RecordKeptIff(w: World, s: Step, g: Grant)
    requires ValidDb(w.db) && Recorded(w, g)
    ensures Recorded(Next(w, s), g) <==> !Erases(w.db, s, g.order.value)
  {
    if s.Sweep? {
      ReasonsAreNotTheNote(w.db, g.order.value, s.sweep.lookups);
    }
  }

  /** The step erases no record of a fresh grant of the user, and does not lose the insert after
      taking the lock for the user. */
  ghost predicate Undisturbed(w: World, s: Step, user: nat) {
    && (forall i :: 0 <= i < |w.grants| && w.grants[i].user == user && Fresh(w, w.grants[i]) ==>
          (w.grants[i].order.Some? ==> !Erases(w.db, s, w.grants[i].order.value)))
    && (GrantsLock(w, s) && s.user == user ==> !s.faults.insert)
  }

  ghost predicate UndisturbedRun(w: World, steps: seq<Step>, user: nat) {
    forall i {:trigger steps[i]} :: 0 <= i < |steps| ==> Undisturbed(Before(w, steps, i), steps[i], user)
  }

  /** A prefix of a run has the same intermediate worlds. */
  lemma RunPrefix(w: World, steps: seq<Step>, n: nat)
    requires n <= |steps|
    ensures forall i :: 0 <= i < n ==> steps[..n][i] == steps[i] && Before(w, steps[..n], i) == Before(w, steps, i)
  {
    forall i | 0 <= i < n
      ensures Before(w, steps[..n], i) == Before(w, steps, i)
    {
      assert steps[..n][..i] == steps[..i];
    }
  }

  lemma PrefixKeepsConditions(w: World, steps: seq<Step>, user: nat, n: nat)
    requires n <= |steps|
    ensures AdmissibleRun(w, steps) ==> AdmissibleRun(w, steps[..n])
    ensures UndisturbedRun(w, steps, user) ==> UndisturbedRun(w, steps[..n], user)
  {
    RunPrefix(w, steps, n);
    if AdmissibleRun(w, steps) {
      forall i {:trigger steps[..n][i]} | 0 <= i < n
        ensures Admissible(Before(w, steps[..n], i), steps[..n][i])
      {
        assert steps[..n][i] == steps[i];
      }
    }
    if UndisturbedRun(w, steps, user) {
      forall i {:trigger steps[..n][i]} | 0 <= i < n
        ensures Undisturbed(Before(w, steps[..n], i), steps[..n][i], user)
      {
        assert steps[..n][i] == steps[i];
      }
    }
  }

  /** What every undisturbed step keeps. */
  ghost predicate Inv(w: World, user: nat) {
    && ValidDb(w.db)
    && Spaced(w, user)
    && (forall i :: 0 <= i < |w.grants| ==> w.grants[i].at <= w.now)
    && (forall i :: 0 <= i < |w.grants| && w.grants[i].user == user && Fresh(w, w.grants[i]) ==>
          Recorded(w, w.grants[i]))
  }

  lemma InvCovers(w: World, user: nat)
    requires Inv(w, user)
    ensures Covered(w, user)
  {
    forall i | 0 <= i < |w.grants| && w.grants[i].user == user && Fresh(w, w.grants[i])
      ensures exists id :: id in w.db.orders && Marks(w.db.orders[id], user, w.grants[i].at)
    {
      var id := w.grants[i].order.value;
      assert id in w.db.orders && Marks(w.db.orders[id], user, w.grants[i].at);
    }
  }

  lemma InvStep(w: World, s: Step, user: nat)
    requires Inv(w, user) && Admissible(w, s) && Undisturbed(w, s, user)
    ensures Inv(Next(w, s), user)
  {
    var w' := Next(w, s);
    StepFrame(w, s, 0);
    if GrantsLock(w, s) && s.user == user {
      InvCovers(w, user);
      GrantIsSpaced(w, s);
    }
    forall i | 0 <= i < |w'.grants| && w'.grants[i].user == user && Fresh(w', w'.grants[i])
      ensures Recorded(w', w'.grants[i])
    {
      if i < |w.grants| {
        assert w'.grants[i] == w.grants[i] && Fresh(w, w.grants[i]);
        RecordKeptIff(w, s, w.grants[i]);
      }
    }
  }

  /** The rate limit. From every state that keeps it, such as one with an empty ledger, in every
      run that erases no fresh record of the user, whatever else is interleaved, the user's
      automatic approvals are at least 48 hours apart, and each one less than 48 hours old still
      has its order with its note. */
  lemma {:induction false} RateLimitHolds(w: World, steps: seq<Step>, user: nat)
    requires Inv(w, user) && AdmissibleRun(w, steps) && UndisturbedRun(w, steps, user)
    ensures Inv(Run(w, steps), user)
  {
    if steps != [] {
      var n := |steps| - 1;
      RunSplit(w, steps);
      PrefixKeepsConditions(w, steps, user, n);
      RateLimitHolds(w, steps[..n], user);
      assert Undisturbed(Before(w, steps, n), steps[n], user);
      InvStep(Run(w, steps[..n]), steps[n], user);
    }
  }

  /** Such a run gives every grant in a covered state. */
  lemma UndisturbedIsCovered(w: World, steps: seq<Step>, user: nat)
    requires Inv(w, user) && AdmissibleRun(w, steps) && UndisturbedRun(w, steps, user)
    ensures CoveredRun(w, steps, user)
  {
    forall i {:trigger steps[i]} | 0 <= i < |steps|
      ensures Covered(Before(w, steps, i), user)
    {
      PrefixKeepsConditions(w, steps, user, i);
      RateLimitHolds(w, steps[..i], user);
      InvCovers(Run(w, steps[..i]), user);
    }
  }

  /******* Sweeps never erase the record of an approved order *******/

  predicate Harmless(s: Step, user: nat)
    requires s.Update? || s.Delete?
  {
    if s.Delete? then s.user != user
    else
      && (s.change.notes == "" || s.change.notes == AUTO_NOTE)
      && (s.change.status == NO_STATUS || s.change.status == Approved)
  }

  /** What updates and deletes have to leave alone; nothing is asked of sweeps. The user does
      not delete the order of a fresh grant, and no update gives it another note or status. */
  ghost predicate Untouched(w: World, s: Step, user: nat) {
    && (s.Update? || s.Delete? ==>
          forall i :: 0 <= i < |w.grants| && w.grants[i].user == user && Fresh(w, w.grants[i]) ==>
            (IsRecordOf(w.grants[i], s.id) ==> Harmless(s, user)))
    && (GrantsLock(w, s) && s.user == user ==> !s.faults.insert)
  }

  ghost predicate UntouchedRun(w: World, steps: seq<Step>, user: nat) {
    forall i {:trigger steps[i]} :: 0 <= i < |steps| ==> Untouched(Before(w, steps, i), steps[i], user)
  }

  ghost predicate RecordsApproved(w: World, user: nat) {
    forall i :: 0 <= i < |w.grants| && w.grants[i].user == user && Fresh(w, w.grants[i]) ==>
      Recorded(w, w.grants[i]) && w.db.orders[w.grants[i].order.value].status == Approved
  }

  lemma UntouchedStep(w: World, s: Step, user: nat)
    requires Inv(w, user) && RecordsApproved(w, user) && Untouched(w, s, user)
    ensures Undisturbed(w, s, user)
  {
    forall i | 0 <= i < |w.grants| && w.grants[i].user == user && Fresh(w, w.grants[i])
      ensures !Erases(w.db, s, w.grants[i].order.value)
    {
      assert w.db.orders[w.grants[i].order.value].status == Approved;
      assert IsRecordOf(w.grants[i], w.grants[i].order.value);
    }
  }

  lemma ApprovedStep(w: World, s: Step, user: nat)
    requires Inv(w, user) && RecordsApproved(w, user) && Untouched(w, s, user)
    requires Inv(Next(w, s), user) && Admissible(w, s)
    ensures RecordsApproved(Next(w, s), user)
  {
    var w' := Next(w, s);
    forall i | 0 <= i < |w'.grants| && w'.grants[i].user == user && Fresh(w', w'.grants[i])
      ensures Recorded(w', w'.grants[i]) && w'.db.orders[w'.grants[i].order.value].status == Approved
    {
      if i < |w.grants| {
        assert w'.grants[i] == w.grants[i] && Fresh(w, w.grants[i]);
        assert IsRecordOf(w.grants[i], w.grants[i].order.value);
      }
    }
  }

  lemma UntouchedSplit(w: World, steps: seq<Step>, user: nat)
    requires steps != [] && UntouchedRun(w, steps, user)
    ensures var n := |steps| - 1;
            UntouchedRun(w, steps[..n], user) && Untouched(Run(w, steps[..n]), steps[n], user)
  {
    var n := |steps| - 1;
    RunPrefix(w, steps, n);
    assert Untouched(Before(w, steps, n), steps[n], user);
    forall i {:trigger steps[..n][i]} | 0 <= i < n
      ensures Untouched(Before(w, steps[..n], i), steps[..n][i], user)
    {
      assert steps[..n][i] == steps[i];
    }
  }

  lemma UndisturbedSnoc(w: World, steps: seq<Step>, user: nat)
    requires steps != [] && UndisturbedRun(w, steps[..|steps| - 1], user)
    requires Undisturbed(Run(w, steps[..|steps| - 1]), steps[|steps| - 1], user)
    ensures UndisturbedRun(w, steps, user)
  {
    var n := |steps| - 1;
    forall i {:trigger steps[i]} | 0 <= i < |steps|
      ensures Undisturbed(Before(w, steps, i), steps[i], user)
    {
      if i < n {
        var init := steps[..n];
        assert init[i] == steps[i] && init[..i] == steps[..i];
        assert Undisturbed(Before(w, init, i), init[i], user);
      }
    }
  }

  /** Whatever sweeps do in between, a run that leaves the user's fresh records untouched is
      undisturbed, so the rate limit holds in it. */
  lemma {:induction false} SweepsNeverErase(w: World, steps: seq<Step>, user: nat)
    requires Inv(w, user) && RecordsApproved(w, user) && AdmissibleRun(w, steps) && UntouchedRun(w, steps, user)
    ensures UndisturbedRun(w, steps, user)
    ensures Inv(Run(w, steps), user) && RecordsApproved(Run(w, steps), user)
  {
    if steps != [] {
      var n := |steps| - 1;
      var v, s := Run(w, steps[..n]), steps[n];
      RunSplit(w, steps);
      UntouchedSplit(w, steps, user);
      SweepsNeverErase(w, steps[..n], user);
      UntouchedStep(v, s, user);
      InvStep(v, s, user);
      ApprovedStep(v, s, user);
      UndisturbedSnoc(w, steps, user);
    }
  }

  /******* Order rows *******/

  ghost predicate Stamped(w: World) {
    forall i :: 0 <= i < |w.grants| && w.grants[i].order.Some? ==>
      && w.grants[i].order.value < w.db.nextId
      && (w.grants[i].order.value in w.db.orders ==>
            && w.db.orders[w.grants[i].order.value].creator == w.grants[i].user
            && w.db.orders[w.grants[i].order.value].createdAt == w.grants[i].at)
  }

  lemma StampedStep(w: World, s: Step)
    requires ValidDb(w.db) && Stamped(w)
    ensures ValidDb(Next(w, s).db) && Stamped(Next(w, s))
  {
    var w' := Next(w, s);
    StepFrame(w, s, 0);
    forall i | 0 <= i < |w.grants| && w.grants[i].order.Some?
      ensures w.grants[i].order.value < w'.db.nextId
      ensures w.grants[i].order.value in w'.db.orders ==>
                && w'.db.orders[w.grants[i].order.value].creator == w.grants[i].user
                && w'.db.orders[w.grants[i].order.value].createdAt == w.grants[i].at
    {
      StepFrame(w, s, w.grants[i].order.value);
    }
  }

  /** Over every run, a grant's time is the creation time of the order that records it. */
  lemma {:induction false} GrantsAreStamped(w: World, steps: seq<Step>)
    requires ValidDb(w.db) && Stamped(w)
    ensures ValidDb(Run(w, steps).db) && Stamped(Run(w, steps))
  {
    if steps != [] {
      GrantsAreStamped(w, steps[..|steps| - 1]);
      StampedStep(Run(w, steps[..|steps| - 1]), steps[|steps| - 1]);
    }
  }

  /** The rate limit on order rows: any two live orders that record automatic approvals of the
      user were created at least 48 hours apart. */
  lemma OrdersAreSpaced(w: World, steps: seq<Step>, user: nat, i: nat, j: nat)
    requires Inv(w, user) && Stamped(w) && AdmissibleRun(w, steps) && UndisturbedRun(w, steps, user)
    requires var w' := Run(w, steps);
             && i < j < |w'.grants| && w'.grants[i].user == user && w'.grants[j].user == user
             && w'.grants[i].order.Some? && w'.grants[i].order.value in w'.db.orders
             && w'.grants[j].order.Some? && w'.grants[j].order.value in w'.db.orders
    ensures var w' := Run(w, steps);
            w'.db.orders[w'.grants[i].order.value].createdAt + WINDOW
              <= w'.db.orders[w'.grants[j].order.value].createdAt
  {
    RateLimitHolds(w, steps, user);
    GrantsAreStamped(w, steps);
  }

  /******* The limiter refuses nobody else *******/

  /** Every live order of the user that carries the automatic note was written by a grant, or
      is too old for the check. */
  ghost predicate Genuine(w: World, user: nat) {
    forall id :: id in w.db.orders && w.db.orders[id].creator == user && w.db.orders[id].notes == AUTO_NOTE ==>
      || w.db.orders[id].createdAt + WINDOW <= w.now
      || exists i :: && 0 <= i < |w.grants| && w.grants[i].user == user
                     && IsRecordOf(w.grants[i], id) && w.grants[i].at == w.db.orders[id].createdAt
  }

  /** The step is not an update that writes the automatic note. */
  predicate Honest(s: Step) {
    s.Update? ==> s.change.notes != AUTO_NOTE
  }

  /** An order that carries the note after an honest step carried it before, or was just
      written by a grant. */
  lemma NoteComesFromGrant(w: World, s: Step, id: nat)
    requires Honest(s) && id in Next(w, s).db.orders && Next(w, s).db.orders[id].notes == AUTO_NOTE
    ensures || (GrantsLock(w, s) && NewGrant(w, s).order == Some(id)
                && Next(w, s).db.orders[id].creator == s.user
                && Next(w, s).db.orders[id].createdAt == NewGrant(w, s).at)
            || (id in w.db.orders && w.db.orders[id].notes == AUTO_NOTE
                && w.db.orders[id].creator == Next(w, s).db.orders[id].creator
                && w.db.orders[id].createdAt == Next(w, s).db.orders[id].createdAt)
  {
    if s.Sweep? && id in w.db.orders {
      ReasonsAreNotTheNote(w.db, id, s.sweep.lookups);
    }
  }

  lemma GenuineStep(w: World, s: Step, user: nat)
    requires Genuine(w, user) && Honest(s) && Admissible(w, s)
    ensures Genuine(Next(w, s), user)
  {
    var w' := Next(w, s);
    forall id | id in w'.db.orders && w'.db.orders[id].creator == user && w'.db.orders[id].notes == AUTO_NOTE
      ensures || w'.db.orders[id].createdAt + WINDOW <= w'.now
              || exists i :: && 0 <= i < |w'.grants| && w'.grants[i].user == user
                             && IsRecordOf(w'.grants[i], id) && w'.grants[i].at == w'.db.orders[id].createdAt
    {
      NoteComesFromGrant(w, s, id);
      if GrantsLock(w, s) && NewGrant(w, s).order == Some(id) && w'.db.orders[id].createdAt == NewGrant(w, s).at
         && s.user == user {
        assert IsRecordOf(w'.grants[|w.grants|], id);
      } else if w'.db.orders[id].createdAt + WINDOW > w'.now {
        var i :| && 0 <= i < |w.grants| && w.grants[i].user == user
                 && IsRecordOf(w.grants[i], id) && w.grants[i].at == w.db.orders[id].createdAt;
        assert w'.grants[i] == w.grants[i];
      }
    }
  }

  lemma {:induction false} GenuineRun(w: World, steps: seq<Step>, user: nat)
    requires AdmissibleRun(w, steps) && Genuine(w, user)
    requires forall i :: 0 <= i < |steps| ==> Honest(steps[i])
    ensures Genuine(Run(w, steps), user)
  {
    if steps != [] {
      RunSplit(w, steps);
      GenuineRun(w, steps[..|steps| - 1], user);
      GenuineStep(Run(w, steps[..|steps| - 1]), steps[|steps| - 1], user);
    }
  }

  /** The limiter is exact. After every run that erases no fresh record of the user and forges
      no note, a request passes the check if and only if it is a job order for fewer than 12
      hours and the user had no automatic approval in the last 48 hours. */
  lemma LimiterIsExact(w: World, steps: seq<Step>, user: nat, req: CreateReq, check: int)
    requires Inv(w, user) && Genuine(w, user)
    requires AdmissibleRun(w, steps) && UndisturbedRun(w, steps, user)
    requires forall i :: 0 <= i < |steps| ==> Honest(steps[i])
    requires Run(w, steps).now <= check
    ensures Eligible(Run(w, steps).db, user, req, check) <==>
              && req.kind == JobOrder && req.content.hours < AUTO_LIMIT
              && forall i :: 0 <= i < |Run(w, steps).grants| && Run(w, steps).grants[i].user == user ==>
                   Run(w, steps).grants[i].at + WINDOW <= check
  {
    var v := Run(w, steps);
    RateLimitHolds(w, steps, user);
    InvCovers(v, user);
    GenuineRun(w, steps, user);
    if Eligible(v.db, user, req, check) {
      EligibleIsSpaced(v, user, req, check);
    }
  }

  /** The condition cannot be dropped: deleting one's own order between two requests gives two
      automatic approvals at the same moment. */
  lemma DeletingTheRecordBreaksTheLimit(job: string)
    requires job != ""
    ensures var w := World(Db(map[], map[job := Job(RUNNING, ZERO_TIME)], 1), 0, [], {});
            var steps := [Probe(1, job, 0), Delete(1, 1, false), Probe(1, job, 0)];
            ValidDb(w.db) && AdmissibleRun(w, steps) && !Spaced(Run(w, steps), 1)
  {
    var w0 := World(Db(map[], map[job := Job(RUNNING, ZERO_TIME)], 1), 0, [], {});
    var s, d := Probe(1, job, 0), Delete(1, 1, false);
    var steps := [s, d, s];
    assert steps[..0] == [] && steps[..1] == [s] && steps[..2] == [s, d] && steps[..3] == steps;
    assert [s][..0] == [] && [s, d][..1] == [s];
    ExtensionExactIff(0);
    var w1 := Next(w0, s);
    assert GrantsLock(w0, s);
    assert Run(w0, [s]) == w1;
    var w2 := Next(w1, d);
    assert w2.db.orders == map[];
    assert Run(w0, [s, d]) == w2;
    assert Run(w0, steps) == Next(w2, s);
    assert GrantsLock(w2, s);
    var w3 := Next(w2, s);
    assert |w3.grants| == 2 && w3.grants[0].at == w3.grants[1].at && w3.grants[0].user == w3.grants[1].user == 1;
    assert Before(w0, steps, 0) == w0 && Before(w0, steps, 1) == w1 && Before(w0, steps, 2) == w2;
  }
}
