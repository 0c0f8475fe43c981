/** When the quota stored for an account and the quota of its queue agree. */
module QuotaAgreement {
  import opened Decimal
  import opened Accounts
  import opened Options
  import opened AccountRuns

  /** The account has a queue, and both stores hold the same quota. */
  predicate Agrees(s: State, id: nat) {
    && Live(s.accounts, id) && s.accounts[id].name in s.queues
    && s.queues[s.accounts[id].name].quota == s.accounts[id].quota
  }

  /** An update that reaches the queue leaves the stores in agreement if and only if it carries
      a quota or none was stored before: the table skips an absent quota, the queue does not. */
  lemma UpdateAgreesIff(s: State, id: nat, req: AccountReq, f: UpdateFaults)
    requires UpdateReachesQueue(s, id, req, f)
    ensures Agrees(UpdateStep(s, id, req, f), id) <==> !req.quota.IsZero() || s.accounts[id].quota == EMPTY_QUOTA
  {
  }

  /** An update that writes the table but not the queue keeps an agreement if and only if it
      does not change the stored quota. */
  lemma MissedQueueAgreesIff(s: State, id: nat, req: AccountReq, f: UpdateFaults)
    requires Agrees(s, id) && UpdateWrites(s, id, req, f) && !UpdateReachesQueue(s, id, req, f)
    ensures Agrees(UpdateStep(s, id, req, f), id) <==> req.quota.IsZero() || req.quota.Stored() == s.accounts[id].quota
  {
  }

  /** The step sets the quota of the account in both stores. */
  predicate Syncs(w: World, step: Step, id: nat) {
    || (Commits(w.s, step) && !step.req.withoutVolcano && id == w.s.nextAccount)
    || (step.Update? && step.id == id && UpdateReachesQueue(w.s, id, step.change, step.update)
        && !step.change.quota.IsZero())
  }

  lemma SyncAgrees(w: World, step: Step, id: nat)
    requires Syncs(w, step, id)
    ensures Agrees(Next(w, step).s, id)
  {
  }

  /** An update of the account that leaves both stores with one quota: it reaches the queue with
      a quota, or with none when none is stored, or it misses the queue and changes no quota. */
  predicate KeepsQuota(s: State, id: nat, req: AccountReq, f: UpdateFaults) {
    if !UpdateWrites(s, id, req, f) then true
    else if UpdateReachesQueue(s, id, req, f) then !req.quota.IsZero() || s.accounts[id].quota == EMPTY_QUOTA
    else req.quota.IsZero() || req.quota.Stored() == s.accounts[id].quota
  }

  predicate KeepsAgreement(s: State, step: Step, id: nat) {
    step.Update? && step.id == id ==> KeepsQuota(s, id, step.change, step.update)
  }

  /** A create adds its own account and queue and leaves the others alone. */
  lemma CreateAgrees(w: World, step: Step, id: nat)
    requires Names(w.s) && Agrees(w.s, id) && step.Create?
    ensures Agrees(Next(w, step).s, id)
  {
    NameIsFree(w.s, id, QueueName(w.s.nextAccount));
  }

  /** A delete of another account removes another queue. */
  lemma DeleteAgrees(w: World, step: Step, id: nat)
    requires Names(w.s) && !ActsWithoutCommit(w.s, step) && Agrees(w.s, id) && step.Delete?
    ensures Live(Next(w, step).s.accounts, id) ==> Agrees(Next(w, step).s, id)
  {
    if step.id in w.s.accounts && step.id != id {
      assert w.s.accounts[step.id].name != w.s.accounts[id].name;
    }
  }

  /** Updates of other accounts write other queues. */
  lemma OtherUpdateAgrees(w: World, step: Step, id: nat)
    requires Inv(w) && Agrees(w.s, id) && step.Update? && step.id != id
    ensures Agrees(Next(w, step).s, id)
  {
  }

  lemma OwnUpdateAgrees(s: State, id: nat, req: AccountReq, f: UpdateFaults)
    requires Agrees(s, id)
    ensures Agrees(UpdateStep(s, id, req, f), id) <==> KeepsQuota(s, id, req, f)
  {
    if UpdateWrites(s, id, req, f) {
      if UpdateReachesQueue(s, id, req, f) {
        UpdateAgreesIff(s, id, req, f);
      } else {
        MissedQueueAgreesIff(s, id, req, f);
      }
    }
  }

  /** An agreement that holds survives a step, as long as the account lives, if and only if the
      step is not an update of this account that tells the stores apart. */
  lemma AgreementSurvivesIff(w: World, step: Step, id: nat)
    requires Inv(w) && !ActsWithoutCommit(w.s, step) && Agrees(w.s, id)
    ensures (Live(Next(w, step).s.accounts, id) ==> Agrees(Next(w, step).s, id)) <==> KeepsAgreement(w.s, step, id)
  {
    match step
    case Create(_, _, _) => CreateAgrees(w, step, id);
    case Delete(_, _) => DeleteAgrees(w, step, id);
    case Update(target, req, f) =>
      if target == id {
        OwnUpdateAgrees(w.s, id, req, f);
      } else {
        OtherUpdateAgrees(w, step, id);
      }
    case _ =>
  }

  lemma DeletedStays(s: State, step: Step, id: nat)
    requires id in s.accounts && (forall a :: a in s.accounts ==> a < s.nextAccount)
    ensures id in NextState(s, step).accounts
    ensures s.accounts[id].deleted ==> NextState(s, step).accounts[id].deleted
  {
  }

  ghost predicate AgreementKept(w: World, steps: seq<Step>, id: nat) {
    forall i {:trigger steps[i]} :: 0 <= i < |steps| ==> KeepsAgreement(Run(w, steps[..i]).s, steps[i], id)
  }

  lemma AgreementKeptSplit(w: World, steps: seq<Step>, id: nat)
    requires steps != [] && AgreementKept(w, steps, id)
    ensures AgreementKept(w, steps[..|steps| - 1], id)
    ensures KeepsAgreement(Run(w, steps[..|steps| - 1]).s, steps[|steps| - 1], id)
  {
    var n := |steps| - 1;
    assert KeepsAgreement(Run(w, steps[..n]).s, steps[n], id);
    forall i {:trigger steps[..n][i]} | 0 <= i < n
      ensures KeepsAgreement(Run(w, steps[..n][..i]).s, steps[..n][i], id)
    {
      assert steps[..n][..i] == steps[..i] && steps[..n][i] == steps[i];
    }
  }

  lemma {:induction false} AgreementLasts(w: World, steps: seq<Step>, id: nat)
    requires Inv(w) && KeepsTransactions(w, steps) && Agrees(w.s, id) && AgreementKept(w, steps, id)
    ensures id in Run(w, steps).s.accounts
    ensures Live(Run(w, steps).s.accounts, id) ==> Agrees(Run(w, steps).s, id)
  {
    if steps != [] {
      var n := |steps| - 1;
      KeepsTransactionsSplit(w, steps);
      AgreementKeptSplit(w, steps, id);
      AgreementLasts(w, steps[..n], id);
      StoresStayConsistent(w, steps[..n]);
      var v := Run(w, steps[..n]);
      if Live(v.s.accounts, id) {
        AgreementSurvivesIff(v, steps[n], id);
      }
      DeletedStays(v.s, steps[n], id);
    }
  }

  /** Quota agreement: once a create or an update of the account has set a quota in both
      stores, they agree on it as long as the account lives and no update of it tells them
      apart, whatever is done to other accounts and whichever calls fail. */
  lemma QuotaStaysInAgreement(w: World, step: Step, later: seq<Step>, id: nat)
    requires Inv(w) && Syncs(w, step, id) && !ActsWithoutCommit(w.s, step)
    requires KeepsTransactions(Next(w, step), later) && AgreementKept(Next(w, step), later, id)
    ensures var w' := Run(Next(w, step), later);
            Live(w'.s.accounts, id) ==> Agrees(w'.s, id)
  {
    InvStep(w, step);
    SyncAgrees(w, step, id);
    AgreementLasts(Next(w, step), later, id);
  }

  /** One update without a quota is enough to tell the stores apart. */
  lemma AbsentQuotaDisagrees()
    ensures var q := Quota(map[], map[], map["cpu" := 8]);
            var a := Account("q-7", "lab", "q-7", q, None, false);
            var s := State(map[7 := a], map[], 8, 1, {1}, map["q-7" := Queue(q, "admin")]);
            var req := AccountReq("lab", QuotaReq(None, None, None), false, [], None);
            var s' := UpdateStep(s, 7, req, UpdateFaults(false, Works));
            && Agrees(s, 7) && UpdateOk(s, 7, req, UpdateFaults(false, Works)) && !Agrees(s', 7)
            && s'.accounts[7].quota == q && s'.queues["q-7"].quota == EMPTY_QUOTA
  {
    var q := Quota(map[], map[], map["cpu" := 8]);
    assert "cpu" in q.capability && "cpu" !in EMPTY_QUOTA.capability;
  }
}
