/** The backlog bound is attained, for every number of users: k users who each ask for 11 hours
    at the same moments, once if k <= 4 and every 48 hours otherwise. From five users on, this
    pushes the lock ahead of the clock without limit. */
module BacklogGrowth {
  import opened LockArithmetic
  import opened Approvals
  import opened ApprovalRuns
  import opened RateLimit
  import opened Backlog

  const JOB: string := "j"

  type Positive = k: nat | k > 0 witness 1

  function Start(): World {
    World(Db(map[], map[JOB := Job(RUNNING, 0)], 1), 0, [], {})
  }

  function Turn(k: Positive, i: nat): nat { i % k + 1 }

  function TimeOf(k: Positive, i: nat): int { i / k * WINDOW }

  /** The i-th request: the k users take turns, and each round is 48 hours after the last. */
  function Ask(k: Positive, i: nat): Step {
    var t := TimeOf(k, i);
    Create(Turn(k, i), CreateReq(JOB, JobOrder, Content(0, 11, "")), Clocks(t, t, t, t), NO_FAULTS)
  }

  function Asks(k: Positive, m: nat): (r: seq<Step>)
    ensures |r| == m
  {
    seq(m, i requires 0 <= i => Ask(k, i))
  }

  /** The state after m requests. */
  ghost predicate Reached(w: World, k: Positive, m: nat) {
    && JOB in w.db.jobs && w.db.jobs[JOB].lock == 11 * m * HOUR
    && w.db.nextId == m + 1 && |w.grants| == m
    && (if m == 0 then w.now == 0 else w.now == TimeOf(k, m - 1))
    && (forall id :: id in w.db.orders ==>
          1 <= id <= m && w.db.orders[id].creator == Turn(k, id - 1) && w.db.orders[id].createdAt == TimeOf(k, id - 1))
    && (forall i :: 0 <= i < m ==> w.grants[i].job == JOB && w.grants[i].user == Turn(k, i))
  }

  /******* Rounds *******/

  lemma Smaller(k: nat, a: int, b: int)
    requires a <= b
    ensures k * a <= k * b
  {
  }

  lemma RoundsGrow(k: Positive, i: nat, j: nat)
    requires i <= j
    ensures i / k <= j / k
  {
    if i / k > j / k {
      Smaller(k, j / k + 1, i / k);
    }
  }

  lemma TurnsAreSpaced(k: Positive, i: nat, j: nat)
    requires i < j && Turn(k, i) == Turn(k, j)
    ensures TimeOf(k, i) + WINDOW <= TimeOf(k, j)
  {
    if i / k >= j / k {
      Smaller(k, j / k, i / k);
    }
  }

  /** The moment of the last request of a round. */
  lemma LastOfRound(k: Positive, r: Positive)
    ensures k * r >= 1 && TimeOf(k, k * r - 1) == (r - 1) * WINDOW
  {
    var m := k * r;
    Smaller(k, 1, r);
    if (m - 1) / k >= r {
      Smaller(k, r, (m - 1) / k);
    } else if (m - 1) / k <= r - 2 {
      Smaller(k, (m - 1) / k, r - 2);
    }
  }

  /******* The run *******/

  lemma NeverPermanent(m: nat)
    ensures 11 * m * HOUR != PERMANENT
  {
  }

  lemma AskGranted(w: World, k: Positive, m: nat)
    requires Reached(w, k, m)
    ensures Admissible(w, Ask(k, m)) && GrantsLock(w, Ask(k, m))
  {
    if m > 0 {
      RoundsGrow(k, m - 1, m);
    }
    forall id | id in w.db.orders
      ensures !RecentAuto(w.db.orders[id], Turn(k, m), TimeOf(k, m))
    {
      if Turn(k, id - 1) == Turn(k, m) {
        TurnsAreSpaced(k, id - 1, m);
      }
    }
    NeverPermanent(m);
  }

  /** There are five users, or only one round. */
  predicate Steady(k: Positive, m: nat) {
    k >= 5 || m <= k
  }

  /** Then the clock is behind the lock when the next request comes, except at the start. */
  lemma ClockIsBehind(k: Positive, m: nat)
    requires Steady(k, m + 1)
    ensures 48 * (m / k) <= 11 * m && (m > 0 ==> 48 * (m / k) < 11 * m)
  {
    var q := m / k;
    if k >= 5 {
      Smaller(q, 5, k);
    } else {
      assert q == 0;
    }
  }

  lemma InHours(q: nat)
    ensures q * WINDOW == 48 * q * HOUR
  {
  }

  lemma LockAhead(lead: nat, t: nat)
    requires t < lead || t == lead == 0
    ensures NewLock(lead * HOUR, LockCall(t * HOUR, t * HOUR, 11)) == (lead + 11) * HOUR
  {
    ExtensionExactIff(11);
  }

  lemma NextLock(k: Positive, m: nat)
    requires Steady(k, m + 1)
    ensures NewLock(11 * m * HOUR, CallOf(11, Ask(k, m).clocks)) == 11 * (m + 1) * HOUR
  {
    ClockIsBehind(k, m);
    InHours(m / k);
    LockAhead(11 * m, 48 * (m / k));
  }

  lemma AskReaches(w: World, k: Positive, m: nat)
    requires Reached(w, k, m) && Steady(k, m + 1)
    ensures Reached(Next(w, Ask(k, m)), k, m + 1)
  {
    AskGranted(w, k, m);
    StepLock(w, Ask(k, m), JOB);
    NextLock(k, m);
  }

  lemma LastAsk(k: Positive, m: nat)
    ensures Run(Start(), Asks(k, m + 1)) == Next(Run(Start(), Asks(k, m)), Ask(k, m))
  {
    assert Asks(k, m + 1)[..m] == Asks(k, m) && Asks(k, m + 1)[m] == Ask(k, m);
  }

  lemma {:induction false} AsksReach(k: Positive, m: nat)
    requires Steady(k, m)
    ensures Reached(Run(Start(), Asks(k, m)), k, m)
  {
    if m > 0 {
      var w := Run(Start(), Asks(k, m - 1));
      AsksReach(k, m - 1);
      AskReaches(w, k, m - 1);
      LastAsk(k, m - 1);
    }
  }

  /** The requests form an admissible run without updates, deletes or lost inserts. */
  lemma AsksAdmissible(k: Positive, m: nat)
    requires Steady(k, m)
    ensures AdmissibleRun(Start(), Asks(k, m))
    ensures forall u :: UndisturbedRun(Start(), Asks(k, m), u)
  {
    var w, steps := Start(), Asks(k, m);
    forall i {:trigger steps[i]} | 0 <= i < m
      ensures steps[i] == Ask(k, i) && Admissible(Before(w, steps, i), steps[i])
    {
      assert steps[..i] == Asks(k, i);
      AsksReach(k, i);
      AskGranted(Run(w, Asks(k, i)), k, i);
    }
  }

  /** What r rounds come to. */
  lemma RoundsLock(k: Positive, r: Positive)
    requires k >= 5 || r == 1
    ensures Steady(k, k * r)
    ensures var w := Run(Start(), Asks(k, k * r));
            JOB in w.db.jobs && w.db.jobs[JOB].lock == 11 * (k * r) * HOUR && w.now == (r - 1) * WINDOW
  {
    LastOfRound(k, r);
    AsksReach(k, k * r);
  }

  /******* The users *******/

  /** Users 1 to k. */
  function Firsts(k: nat): (s: set<nat>)
    ensures forall u :: u in s <==> 1 <= u <= k
    ensures |s| == k
  {
    if k == 0 then {} else Firsts(k - 1) + {k}
  }

  lemma UsersAre(grants: seq<Grant>, k: nat)
    requires k <= |grants|
    requires forall i :: 0 <= i < |grants| ==> grants[i].job == JOB && 1 <= grants[i].user <= k
    requires forall i :: 0 <= i < k ==> grants[i].user == i + 1
    ensures UsersOn(grants, JOB) == Firsts(k)
  {
    var users, firsts := UsersOn(grants, JOB), Firsts(k);
    forall u | u in firsts
      ensures u in users
    {
      assert grants[u - 1].user == u;
    }
    assert users <= firsts <= users;
  }

  lemma TurnsAreUsers(k: Positive, i: nat)
    ensures 1 <= Turn(k, i) <= k
    ensures i < k ==> Turn(k, i) == i + 1
  {
  }

  lemma ReachedUsers(w: World, k: Positive, m: nat)
    requires Reached(w, k, m) && m >= k
    ensures UsersOn(w.grants, JOB) == Firsts(k)
  {
    forall i | 0 <= i < m
      ensures w.grants[i].job == JOB && 1 <= w.grants[i].user <= k && (i < k ==> w.grants[i].user == i + 1)
    {
      TurnsAreUsers(k, i);
    }
    UsersAre(w.grants, k);
  }

  lemma RoundsUsers(k: Positive, r: Positive)
    requires k >= 5 || r == 1
    ensures UsersOn(Run(Start(), Asks(k, k * r)).grants, JOB) == Firsts(k)
  {
    RoundsLock(k, r);
    Smaller(k, 1, r);
    AsksReach(k, k * r);
    ReachedUsers(Run(Start(), Asks(k, k * r)), k, k * r);
  }

  lemma RoundsAreMetered(k: Positive, r: Positive)
    requires k >= 5 || r == 1
    ensures MeteredRun(Start(), Asks(k, k * r), JOB)
  {
    RoundsLock(k, r);
    AsksAdmissible(k, k * r);
    UndisturbedIsMetered(Start(), Asks(k, k * r), JOB);
  }

  /******* The bound is attained *******/

  /** The lead of the lock is all that the backlog bound allows. */
  predicate LeadAttained(w: World, w': World, k: nat, job: string)
    requires job in w.db.jobs
  {
    && job in w'.db.jobs
    && 48 * (w'.db.jobs[job].lock - w'.now) == 48 * (GRANT_HOURS * k * HOUR) + DebtLeft(w, w', k, job)
  }

  /** 11 k hours are granted in every round of 48. */
  lemma LeadOfRounds(k: Positive, r: Positive)
    requires k >= 5 || r == 1
    ensures 48 * (11 * (k * r) * HOUR - (r - 1) * WINDOW) ==
              48 * (GRANT_HOURS * k * HOUR) + Debt(k, 0, (r - 1) * WINDOW)
  {
    assert k * r == k + k * (r - 1);
    assert (48 - GRANT_HOURS * k) * ((r - 1) * WINDOW) == 48 * (r - 1) * WINDOW - GRANT_HOURS * (k * (r - 1)) * WINDOW;
    if k >= 5 {
      Smaller(r - 1, 5, k);
    }
  }

  /** For every number of users the backlog bound is attained: by one simultaneous round of
      requests, and from five users on after every number of rounds. */
  lemma BoundIsAttained(k: Positive, r: Positive)
    requires k >= 5 || r == 1
    ensures var w := Run(Start(), Asks(k, k * r));
            && MeteredRun(Start(), Asks(k, k * r), JOB) && UsersOn(w.grants, JOB) == Firsts(k)
            && LeadAttained(Start(), w, k, JOB)
  {
    RoundsAreMetered(k, r);
    RoundsUsers(k, r);
    RoundsLock(k, r);
    LeadOfRounds(k, r);
  }

  /** The rounds outrun the clock. */
  lemma LeadGrows(k: nat, hours: nat)
    requires k >= 5
    ensures 11 * (k * (hours + 1)) * HOUR > hours * WINDOW + hours * HOUR
  {
    Smaller(hours + 1, 5, k);
  }

  /** From five users on there is no bound: for every number of hours there is an admissible run,
      with no update, delete or lost insert, in which the users push the lock further ahead of
      the clock than that, on a job that starts unlocked. */
  lemma FiveUsersAreUnbounded(k: nat, hours: nat)
    requires k >= 5
    ensures var w := Start();
            ValidDb(w.db) && w.grants == [] && JOB in w.db.jobs && w.db.jobs[JOB].lock <= w.now
    ensures var steps := Asks(k, k * (hours + 1));
            && AdmissibleRun(Start(), steps) && (forall u :: UndisturbedRun(Start(), steps, u))
            && UsersOn(Run(Start(), steps).grants, JOB) == Firsts(k)
    ensures var w := Run(Start(), Asks(k, k * (hours + 1)));
            JOB in w.db.jobs && w.db.jobs[JOB].lock > w.now + hours * HOUR
  {
    RoundsLock(k, hours + 1);
    AsksAdmissible(k, k * (hours + 1));
    RoundsUsers(k, hours + 1);
    LeadGrows(k, hours);
  }
}
