/** How far ahead of the clock automatic approvals can push a lock: 11 hours per user, and what
    is left of the lead at the start, which shrinks by 48 - 11 k parts of 48 while k users ask.
    The proof is a token-bucket argument in which every user's cooldown pays for the lock time
    that the user has granted. */
module Backlog {
  import opened LockArithmetic
  import opened Approvals
  import opened ApprovalRuns
  import opened RateLimit
  import opened Listings

  // 11 hours is the longest automatic extension.
  const GRANT_HOURS: int := AUTO_LIMIT - 1

  predicate IsOn(g: Grant, user: nat, job: string) {
    g.user == user && g.job == job
  }

  /** Time left, at `now`, of the 48 hours that follow the user's latest grant on the job. */
  function Cooldown(grants: seq<Grant>, user: nat, job: string, now: int): (r: int)
    ensures r >= 0
  {
    if grants == [] then 0
    else
      var g := grants[|grants| - 1];
      if IsOn(g, user, job) then Max(0, g.at + WINDOW - now)
      else Cooldown(grants[..|grants| - 1], user, job, now)
  }

  function TotalCooldown(users: seq<nat>, grants: seq<Grant>, job: string, now: int): (r: int)
    ensures r >= 0
  {
    if users == [] then 0
    else TotalCooldown(users[1..], grants, job, now) + Cooldown(grants, users[0], job, now)
  }

  /** The lock exceeds the clock by at most 11/48 of the total cooldown, and a debt. */
  predicate PaidFor(w: World, users: seq<nat>, job: string, debt: int)
    requires job in w.db.jobs
  {
    48 * (w.db.jobs[job].lock - w.now) <= GRANT_HOURS * TotalCooldown(users, w.grants, job, w.now) + debt
  }

  /** What k users leave of 48 times an initial lead: they can grant 11 k hours in 48, so it
      shrinks while k <= 4 and grows from k = 5 on. */
  function Debt(k: nat, lead: int, elapsed: int): (debt: int)
    ensures debt >= 0
  {
    Max(0, 48 * Max(0, lead) - (48 - GRANT_HOURS * k) * elapsed)
  }

  lemma Split(a: int, e: int, e': int)
    ensures a * e' == a * e + a * (e' - e)
  {
  }

  lemma Scaled(a: nat, b: nat)
    ensures a * b >= 0
  {
  }

  lemma DebtDecay(k: nat, lead: int, e: int, e': int)
    requires 0 <= e <= e'
    ensures Debt(k, lead, e') >= Debt(k, lead, e) - (48 - GRANT_HOURS * k) * (e' - e)
  {
    var rate := 48 - GRANT_HOURS * k;
    Split(rate, e, e');
    if rate >= 0 {
      Scaled(rate, e' - e);
    } else {
      Scaled(-rate, e);
    }
  }

  lemma {:induction false} CooldownDecay(grants: seq<Grant>, user: nat, job: string, t: int, t': int)
    requires t <= t'
    ensures Cooldown(grants, user, job, t') >= Cooldown(grants, user, job, t) - (t' - t)
  {
    if grants != [] {
      CooldownDecay(grants[..|grants| - 1], user, job, t, t');
    }
  }

  lemma OneMore(k: nat, d: int)
    ensures (k + 1) * d == k * d + d
  {
  }

  lemma {:induction false} TotalDecay(users: seq<nat>, grants: seq<Grant>, job: string, t: int, t': int)
    requires t <= t'
    ensures TotalCooldown(users, grants, job, t') >= TotalCooldown(users, grants, job, t) - |users| * (t' - t)
  {
    if users != [] {
      TotalDecay(users[1..], grants, job, t, t');
      CooldownDecay(grants, users[0], job, t, t');
      OneMore(|users[1..]|, t' - t);
    }
  }

  lemma {:induction false} CooldownBound(grants: seq<Grant>, user: nat, job: string, now: int)
    requires forall i :: 0 <= i < |grants| ==> grants[i].at <= now
    ensures Cooldown(grants, user, job, now) <= WINDOW
  {
    if grants != [] {
      CooldownBound(grants[..|grants| - 1], user, job, now);
    }
  }

  lemma {:induction false} TotalBound(users: seq<nat>, grants: seq<Grant>, job: string, now: int)
    requires forall i :: 0 <= i < |grants| ==> grants[i].at <= now
    ensures TotalCooldown(users, grants, job, now) <= |users| * WINDOW
  {
    if users != [] {
      TotalBound(users[1..], grants, job, now);
      CooldownBound(grants, users[0], job, now);
    }
  }

  lemma {:induction false} CooldownOver(grants: seq<Grant>, user: nat, job: string, now: int)
    requires forall i :: 0 <= i < |grants| && IsOn(grants[i], user, job) ==> grants[i].at + WINDOW <= now
    ensures Cooldown(grants, user, job, now) == 0
  {
    if grants != [] {
      CooldownOver(grants[..|grants| - 1], user, job, now);
    }
  }

  lemma {:induction false} TotalOver(users: seq<nat>, grants: seq<Grant>, job: string, now: int)
    requires forall i :: 0 <= i < |grants| && grants[i].job == job ==> grants[i].at + WINDOW <= now
    ensures TotalCooldown(users, grants, job, now) == 0
  {
    if users != [] {
      TotalOver(users[1..], grants, job, now);
      CooldownOver(grants, users[0], job, now);
    }
  }

  lemma CooldownAppend(grants: seq<Grant>, g: Grant, user: nat, job: string, now: int)
    ensures Cooldown(grants + [g], user, job, now) ==
              if IsOn(g, user, job) then Max(0, g.at + WINDOW - now) else Cooldown(grants, user, job, now)
  {
    assert (grants + [g])[..|grants|] == grants;
  }

  /** A grant by a user whose cooldown is over adds a full window to the total, once for every
      listing of the user. */
  lemma {:induction false} TotalAppend(users: seq<nat>, grants: seq<Grant>, g: Grant, job: string)
    requires g.job == job && Cooldown(grants, g.user, job, g.at) == 0
    ensures TotalCooldown(users, grants + [g], job, g.at) >=
              TotalCooldown(users, grants, job, g.at) + if g.user in users then WINDOW else 0
  {
    if users != [] {
      TotalAppend(users[1..], grants, g, job);
      CooldownAppend(grants, g, users[0], job, g.at);
    }
  }

  lemma {:induction false} TotalOther(users: seq<nat>, grants: seq<Grant>, g: Grant, job: string, now: int)
    requires g.job != job
    ensures TotalCooldown(users, grants + [g], job, now) == TotalCooldown(users, grants, job, now)
  {
    if users != [] {
      TotalOther(users[1..], grants, g, job, now);
      CooldownAppend(grants, g, users[0], job, now);
    }
  }

  /** What a grant adds to the lock is what it adds to the cooldowns: 48 * 11 hours. */
  lemma GrantPays(lead: int, added: int, before: int, after: int, debt: int)
    requires 48 * lead <= GRANT_HOURS * before + debt
    requires added <= GRANT_HOURS * HOUR && after >= before + WINDOW
    ensures 48 * (lead + added) <= GRANT_HOURS * after + debt
  {
  }

  /** Passing time pays: what the lock's lead loses is at least what the cooldowns of k users
      and the debt lose together. */
  lemma PaidLater(lock: int, t: int, t': int, k: nat, total: int, total': int, debt: int, debt': int)
    requires 0 <= total' && 0 <= debt'
    requires 48 * (lock - t) <= GRANT_HOURS * total + debt
    requires total' >= total - k * (t' - t)
    requires debt' >= debt - (48 - GRANT_HOURS * k) * (t' - t)
    ensures 48 * Max(0, lock - t') <= GRANT_HOURS * total' + debt'
  {
    assert (48 - GRANT_HOURS * k) * (t' - t) == 48 * (t' - t) - GRANT_HOURS * (k * (t' - t));
  }

  /** Letting the clock reach `t` leaves the lock paid for. */
  lemma PaidAt(w: World, users: seq<nat>, job: string, t: int, debt: int, debt': int)
    requires job in w.db.jobs && w.now <= t && PaidFor(w, users, job, debt)
    requires 0 <= debt' && debt' >= debt - (48 - GRANT_HOURS * |users|) * (t - w.now)
    ensures 48 * Max(0, w.db.jobs[job].lock - t) <= GRANT_HOURS * TotalCooldown(users, w.grants, job, t) + debt'
  {
    TotalDecay(users, w.grants, job, w.now, t);
    PaidLater(w.db.jobs[job].lock, w.now, t, |users|,
              TotalCooldown(users, w.grants, job, w.now), TotalCooldown(users, w.grants, job, t), debt, debt');
  }

  /** A grant pays for the 11 hours it may add. */
  lemma PaidGrant(w: World, s: Step, users: seq<nat>, job: string, debt: int, debt': int)
    requires job in w.db.jobs && Admissible(w, s) && PaidFor(w, users, job, debt)
    requires GrantsLock(w, s) && s.req.name == job && s.user in users && Covered(w, s.user)
    requires 0 <= debt' && debt' >= debt - (48 - GRANT_HOURS * |users|) * (Next(w, s).now - w.now)
    ensures job in Next(w, s).db.jobs && PaidFor(Next(w, s), users, job, debt')
  {
    var g, t := NewGrant(w, s), s.clocks.created;
    StepLock(w, s, job);
    PaidAt(w, users, job, t, debt, debt');
    GrantIsSpaced(w, s);
    CooldownOver(w.grants, g.user, job, t);
    TotalAppend(users, w.grants, g, job);
    var lock, hours := w.db.jobs[job].lock, s.req.content.hours;
    NewLockBounds(lock, g.call);
    assert Next(w, s).db.jobs[job].lock == NewLock(lock, g.call);
    assert NewLock(lock, g.call) - t <= Max(0, lock - t) + hours * HOUR;
    GrantPays(Max(0, lock - t), hours * HOUR, TotalCooldown(users, w.grants, job, t),
              TotalCooldown(users, w.grants + [g], job, t), debt');
  }

  /** The step keeps the lock paid for, with a debt that went down with the time it took. */
  lemma PaidStep(w: World, s: Step, users: seq<nat>, job: string, debt: int, debt': int)
    requires job in w.db.jobs && Admissible(w, s) && PaidFor(w, users, job, debt)
    requires GrantsLock(w, s) && s.req.name == job ==> s.user in users && Covered(w, s.user)
    requires 0 <= debt' && debt' >= debt - (48 - GRANT_HOURS * |users|) * (Next(w, s).now - w.now)
    ensures job in Next(w, s).db.jobs ==> PaidFor(Next(w, s), users, job, debt')
  {
    if GrantsLock(w, s) && s.req.name == job {
      PaidGrant(w, s, users, job, debt, debt');
    } else {
      StepLock(w, s, job);
      PaidAt(w, users, job, Next(w, s).now, debt, debt');
      if GrantsLock(w, s) {
        TotalOther(users, w.grants, NewGrant(w, s), job, Next(w, s).now);
      }
    }
  }

  ghost predicate Covers(users: seq<nat>, grants: seq<Grant>, job: string) {
    forall i :: 0 <= i < |grants| && grants[i].job == job ==> grants[i].user in users
  }

  predicate GrantsOn(w: World, s: Step, job: string) {
    GrantsLock(w, s) && s.req.name == job
  }

  /** Every grant on the job is given in a state where the user's fresh grants are covered. */
  ghost predicate CoveredGrants(w: World, steps: seq<Step>, job: string) {
    forall i {:trigger steps[i]} :: 0 <= i < |steps| && GrantsOn(Before(w, steps, i), steps[i], job) ==>
      Covered(Before(w, steps, i), steps[i].user)
  }

  lemma CoveredGrantsSplit(w: World, steps: seq<Step>, job: string)
    requires steps != [] && CoveredGrants(w, steps, job)
    ensures var n := |steps| - 1;
            && CoveredGrants(w, steps[..n], job)
            && (GrantsOn(Run(w, steps[..n]), steps[n], job) ==> Covered(Run(w, steps[..n]), steps[n].user))
  {
    var n := |steps| - 1;
    RunPrefix(w, steps, n);
    assert Before(w, steps, n) == Run(w, steps[..n]) && steps[n] == steps[n];
    forall i {:trigger steps[..n][i]} | 0 <= i < n && GrantsOn(Before(w, steps[..n], i), steps[..n][i], job)
      ensures Covered(Before(w, steps[..n], i), steps[..n][i].user)
    {
      assert steps[..n][i] == steps[i];
    }
  }

  lemma CoversEarlier(users: seq<nat>, w: World, s: Step, job: string)
    requires Covers(users, Next(w, s).grants, job)
    ensures Covers(users, w.grants, job) && (GrantsOn(w, s, job) ==> s.user in users)
  {
    forall i | 0 <= i < |w.grants| && w.grants[i].job == job
      ensures w.grants[i].user in users
    {
      assert Next(w, s).grants[i] == w.grants[i];
    }
    if GrantsOn(w, s, job) {
      assert Next(w, s).grants[|w.grants|] == NewGrant(w, s);
    }
  }

  /** The clock of a run does not go back. */
  lemma NowGrows(w: World, s: Step)
    requires Admissible(w, s)
    ensures w.now <= Next(w, s).now
  {
  }

  lemma {:induction false} NowGrowsOver(w: World, steps: seq<Step>)
    requires AdmissibleRun(w, steps)
    ensures w.now <= Run(w, steps).now
  {
    if steps != [] {
      RunSplit(w, steps);
      NowGrowsOver(w, steps[..|steps| - 1]);
      NowGrows(Run(w, steps[..|steps| - 1]), steps[|steps| - 1]);
    }
  }

  /** What is left in `w'` of the lead that the job's lock had in `w`. */
  function DebtLeft(w: World, w': World, k: nat, job: string): int
    requires job in w.db.jobs
  {
    Debt(k, w.db.jobs[job].lock - w.now, w'.now - w.now)
  }

  lemma PaidSince(w: World, v: World, s: Step, users: seq<nat>, job: string)
    requires job in w.db.jobs && job in v.db.jobs && w.now <= v.now && Admissible(v, s)
    requires PaidFor(v, users, job, DebtLeft(w, v, |users|, job))
    requires GrantsOn(v, s, job) ==> s.user in users && Covered(v, s.user)
    ensures job in Next(v, s).db.jobs ==> PaidFor(Next(v, s), users, job, DebtLeft(w, Next(v, s), |users|, job))
  {
    NowGrows(v, s);
    DebtDecay(|users|, w.db.jobs[job].lock - w.now, v.now - w.now, Next(v, s).now - w.now);
    PaidStep(v, s, users, job, DebtLeft(w, v, |users|, job), DebtLeft(w, Next(v, s), |users|, job));
  }

  lemma {:induction false} PaidRun(w: World, steps: seq<Step>, users: seq<nat>, job: string)
    requires job in w.db.jobs && AdmissibleRun(w, steps) && CoveredGrants(w, steps, job)
    requires Covers(users, Run(w, steps).grants, job)
    ensures w.now <= Run(w, steps).now
    ensures var w' := Run(w, steps);
            job in w'.db.jobs ==> PaidFor(w', users, job, DebtLeft(w, w', |users|, job))
  {
    if steps != [] {
      var n := |steps| - 1;
      var v, s := Run(w, steps[..n]), steps[n];
      RunSplit(w, steps);
      CoveredGrantsSplit(w, steps, job);
      CoversEarlier(users, v, s, job);
      PaidRun(w, steps[..n], users, job);
      NowGrows(v, s);
      JobsNeverReturn(w, steps, job, n);
      if job in v.db.jobs {
        PaidSince(w, v, s, users, job);
      }
    }
  }

  /******* The bounds *******/

  function UsersOn(grants: seq<Grant>, job: string): set<nat> {
    set i | 0 <= i < |grants| && grants[i].job == job :: grants[i].user
  }

  predicate GrantsArePast(w: World) {
    forall i :: 0 <= i < |w.grants| ==> w.grants[i].at <= w.now
  }

  /** The conditions under which the bounds hold: the grants so far are past, and the new ones
      on the job are given in covered states. */
  ghost predicate MeteredRun(w: World, steps: seq<Step>, job: string) {
    && GrantsArePast(w) && job in w.db.jobs
    && AdmissibleRun(w, steps) && CoveredGrants(w, steps, job)
  }

  /** A grant stays in the ledger to the end of the run. */
  lemma {:induction false} GrantIsInTheLedger(w: World, steps: seq<Step>, i: nat, job: string)
    requires i < |steps| && GrantsOn(Before(w, steps, i), steps[i], job)
    ensures steps[i].user in UsersOn(Run(w, steps).grants, job)
  {
    var n := |steps| - 1;
    var v := Run(w, steps[..n]);
    if i == n {
      assert Run(w, steps).grants[|v.grants|] == NewGrant(v, steps[n]);
    } else {
      assert steps[..n][..i] == steps[..i];
      GrantIsInTheLedger(w, steps[..n], i, job);
      var k :| 0 <= k < |v.grants| && v.grants[k].job == job && v.grants[k].user == steps[i].user;
      assert Run(w, steps).grants[k] == v.grants[k];
    }
  }

  /** Runs that erase no fresh record of a user with grants on the job are among them. */
  lemma UndisturbedIsMetered(w: World, steps: seq<Step>, job: string)
    requires GrantsArePast(w) && job in w.db.jobs && AdmissibleRun(w, steps)
    requires forall u :: u in UsersOn(Run(w, steps).grants, job) ==> Inv(w, u) && UndisturbedRun(w, steps, u)
    ensures MeteredRun(w, steps, job)
  {
    forall i {:trigger steps[i]} | 0 <= i < |steps| && GrantsOn(Before(w, steps, i), steps[i], job)
      ensures Covered(Before(w, steps, i), steps[i].user)
    {
      GrantIsInTheLedger(w, steps, i, job);
      UndisturbedIsCovered(w, steps, steps[i].user);
    }
  }

  lemma PaidForUsers(w: World, steps: seq<Step>, job: string) returns (users: seq<nat>)
    requires MeteredRun(w, steps, job)
    ensures var w' := Run(w, steps);
            && w.now <= w'.now && |users| == |UsersOn(w'.grants, job)|
            && (job in w'.db.jobs ==> PaidFor(w', users, job, DebtLeft(w, w', |users|, job)))
  {
    var w' := Run(w, steps);
    users := Enumerate(UsersOn(w'.grants, job));
    ListsLength(users, UsersOn(w'.grants, job));
    forall i | 0 <= i < |w'.grants| && w'.grants[i].job == job
      ensures w'.grants[i].user in users
    {
      assert w'.grants[i].user in UsersOn(w'.grants, job);
    }
    PaidRun(w, steps, users, job);
  }

  lemma {:induction false} GrantsStayPast(w: World, steps: seq<Step>)
    requires GrantsArePast(w) && AdmissibleRun(w, steps)
    ensures GrantsArePast(Run(w, steps))
  {
    if steps != [] {
      RunSplit(w, steps);
      GrantsStayPast(w, steps[..|steps| - 1]);
    }
  }

  predicate GrantsAreOver(w: World, job: string) {
    forall i :: 0 <= i < |w.grants| && w.grants[i].job == job ==> w.grants[i].at + WINDOW <= w.now
  }

  /** The lead of the job's lock in `w'` is within 11 * k hours and what is left of that in `w`. */
  predicate LeadWithin(w: World, w': World, k: nat, job: string)
    requires job in w.db.jobs
  {
    job in w'.db.jobs ==>
      48 * (w'.db.jobs[job].lock - w'.now)
        <= 48 * (GRANT_HOURS * k * HOUR) + DebtLeft(w, w', k, job)
  }

  /** What being paid for means in a state. */
  lemma PaidBounds(w: World, w': World, users: seq<nat>, k: nat, job: string)
    requires job in w.db.jobs && job in w'.db.jobs && PaidFor(w', users, job, DebtLeft(w, w', k, job))
    requires |users| == k && GrantsArePast(w')
    ensures LeadWithin(w, w', k, job)
    ensures GrantsAreOver(w', job) ==> 48 * (w'.db.jobs[job].lock - w'.now) <= DebtLeft(w, w', k, job)
  {
    TotalBound(users, w'.grants, job, w'.now);
    if GrantsAreOver(w', job) {
      TotalOver(users, w'.grants, job, w'.now);
    }
  }

  /** The backlog bound, for every number k of users who obtain automatic approvals on the job:
      48 times the lead of its lock over the clock is at most 48 * 11 * k hours and the debt that
      is left of the initial lead. Forty-eight hours after the last of them only the debt is
      left. */
  lemma BacklogBound(w: World, steps: seq<Step>, job: string)
    requires MeteredRun(w, steps, job)
    ensures var w' := Run(w, steps);
            var k := |UsersOn(w'.grants, job)|;
            && LeadWithin(w, w', k, job)
            && (job in w'.db.jobs && GrantsAreOver(w', job) ==>
                  48 * (w'.db.jobs[job].lock - w'.now) <= DebtLeft(w, w', k, job))
  {
    var w' := Run(w, steps);
    var users := PaidForUsers(w, steps, job);
    GrantsStayPast(w, steps);
    if job in w'.db.jobs {
      PaidBounds(w, w', users, |UsersOn(w'.grants, job)|, job);
    }
  }

  lemma DebtOfFew(k: nat, lead: int, elapsed: nat)
    requires k <= 4
    ensures Debt(k, lead, elapsed) <= 48 * Max(0, lead)
    ensures 48 * Max(0, lead) <= 4 * elapsed ==> Debt(k, lead, elapsed) == 0
  {
    Scaled(4 - k, elapsed);
    Scaled(48 - GRANT_HOURS * k, elapsed);
    assert (48 - GRANT_HOURS * k) * elapsed == 4 * elapsed + GRANT_HOURS * ((4 - k) * elapsed);
  }

  lemma FewUsers(w: World, w': World, k: nat, job: string)
    requires job in w.db.jobs && job in w'.db.jobs && LeadWithin(w, w', k, job) && k <= 4 && w.now <= w'.now
    ensures var lead := Max(0, w.db.jobs[job].lock - w.now);
            && w'.db.jobs[job].lock <= w'.now + GRANT_HOURS * k * HOUR + lead
            && (12 * lead <= w'.now - w.now ==> w'.db.jobs[job].lock <= w'.now + GRANT_HOURS * k * HOUR)
  {
    DebtOfFew(k, w.db.jobs[job].lock - w.now, w'.now - w.now);
  }

  /** At most four users: the lock is never ahead of the clock by more than 11 * k hours and its
      initial lead, and of that nothing is left after twelve times as long. */
  lemma FourUsersAreBounded(w: World, steps: seq<Step>, job: string)
    requires MeteredRun(w, steps, job) && |UsersOn(Run(w, steps).grants, job)| <= 4
    ensures var w' := Run(w, steps);
            var k, lead := |UsersOn(w'.grants, job)|, Max(0, w.db.jobs[job].lock - w.now);
            job in w'.db.jobs ==>
              && w'.db.jobs[job].lock <= w'.now + GRANT_HOURS * k * HOUR + lead
              && (12 * lead <= w'.now - w.now ==> w'.db.jobs[job].lock <= w'.now + GRANT_HOURS * k * HOUR)
  {
    var w' := Run(w, steps);
    var k := |UsersOn(w'.grants, job)|;
    NowGrowsOver(w, steps);
    BacklogBound(w, steps, job);
    if job in w'.db.jobs {
      FewUsers(w, w', k, job);
    }
  }

  lemma DebtOfOne(k: nat, lead: int, e: nat, e': nat)
    requires k <= 1 && e <= e' && 48 * Max(0, lead) <= 37 * e'
    ensures 0 >= Debt(k, lead, e) - (48 - GRANT_HOURS * k) * (e' - e)
  {
    assert k == 0 || k == 1;
  }

  lemma NoStackingAt(w: World, v: World, s: Step, users: seq<nat>, job: string)
    requires job in w.db.jobs && job in v.db.jobs && PaidFor(v, users, job, DebtLeft(w, v, |users|, job))
    requires Admissible(v, s) && GrantsLock(v, s) && s.req.name == job && Covered(v, s.user)
    requires UsersOn(v.grants, job) <= {s.user} && |users| <= 1 && w.now <= v.now
    requires 48 * Max(0, w.db.jobs[job].lock - w.now) <= 37 * (s.clocks.check - w.now)
    ensures v.db.jobs[job].lock <= s.clocks.check
  {
    GrantIsSpaced(v, s);
    DebtOfOne(|users|, w.db.jobs[job].lock - w.now, v.now - w.now, s.clocks.check - w.now);
    PaidAt(v, users, job, s.clocks.check, DebtLeft(w, v, |users|, job), 0);
    forall i | 0 <= i < |v.grants| && v.grants[i].job == job
      ensures v.grants[i].at + WINDOW <= s.clocks.check
    {
      assert v.grants[i].user in UsersOn(v.grants, job);
    }
    TotalOver(users, v.grants, job, s.clocks.check);
  }

  /** A grant on an expired lock locks from the clock. */
  lemma LocksFromClock(w: World, s: Step)
    requires Admissible(w, s) && GrantsLock(w, s) && w.db.jobs[s.req.name].lock <= s.clocks.check
    ensures s.req.name in Next(w, s).db.jobs
    ensures Next(w, s).db.jobs[s.req.name].lock == s.clocks.first + s.req.content.hours * HOUR
  {
    GrantedHoursAreExact(w, s);
  }

  lemma AtMostOne(users: set<nat>, user: nat)
    requires users <= {user}
    ensures |users| <= 1
  {
    assert users == {} || users == {user};
  }

  /** With a single user, once the lock's initial lead is worked off, each automatic lock has
      expired before the next one is granted, so every grant locks from the clock and not from
      the old lock. */
  lemma SingleUserNeverStacks(w: World, steps: seq<Step>, s: Step, job: string)
    requires MeteredRun(w, steps, job)
    requires Admissible(Run(w, steps), s) && GrantsLock(Run(w, steps), s) && s.req.name == job
    requires Covered(Run(w, steps), s.user)
    requires UsersOn(Run(w, steps).grants, job) <= {s.user}
    requires 48 * Max(0, w.db.jobs[job].lock - w.now) <= 37 * (s.clocks.check - w.now)
    ensures Run(w, steps).db.jobs[job].lock <= s.clocks.check
    ensures job in Next(Run(w, steps), s).db.jobs
    ensures Next(Run(w, steps), s).db.jobs[job].lock == s.clocks.first + s.req.content.hours * HOUR
  {
    var v := Run(w, steps);
    var users := PaidForUsers(w, steps, job);
    AtMostOne(UsersOn(v.grants, job), s.user);
    NoStackingAt(w, v, s, users, job);
    LocksFromClock(v, s);
  }
}
