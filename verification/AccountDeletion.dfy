/** Which accounts can be deleted: exactly when one delete goes through, and exactly which
    accounts some run can ever delete. */
module AccountDeletion {
  import opened Accounts
  import opened AccountRuns
  import opened Memberships
  import opened Options

  const NO_DELETE_FAULTS: DeleteFaults := DeleteFaults(false, false, Works, false, false)

  /** In a consistent state a delete goes through if and only if the account is live and empty,
      was created with a queue, and nothing fails or runs outside. */
  lemma DeleteSucceedsIff(w: World, id: nat, f: DeleteFaults)
    requires Inv(w)
    ensures DeleteCommits(w.s, id, f) <==>
              && Live(w.s.accounts, id) && !HasMembers(w.s.members, id) && id in w.volcano
              && !f.read && !f.write && f.client == Works && !f.running && !f.commit
  {
  }

  /******* Accounts that stay for ever *******/

  lemma QueuelessStep(w: World, step: Step, id: nat)
    requires Inv(w) && Live(w.s.accounts, id) && id !in w.volcano
    ensures Live(Next(w, step).s.accounts, id) && id !in Next(w, step).volcano
  {
  }

  /** An account created without a queue can never be deleted: the delete looks for the queue,
      fails, and rolls back. */
  lemma {:induction false} QueuelessAccountsStay(w: World, steps: seq<Step>, id: nat)
    requires Inv(w) && KeepsTransactions(w, steps) && Live(w.s.accounts, id) && id !in w.volcano
    ensures Live(Run(w, steps).s.accounts, id) && id !in Run(w, steps).volcano
  {
    if steps != [] {
      KeepsTransactionsSplit(w, steps);
      QueuelessAccountsStay(w, steps[..|steps| - 1], id);
      StoresStayConsistent(w, steps[..|steps| - 1]);
      QueuelessStep(Run(w, steps[..|steps| - 1]), steps[|steps| - 1], id);
    }
  }

  /** The live membership rows of the account. */
  function LiveRows(members: map<nat, Member>, id: nat): set<nat> {
    set m | m in members && !members[m].deleted && members[m].account == id
  }

  lemma MembersAreRows(members: map<nat, Member>, id: nat)
    ensures HasMembers(members, id) <==> LiveRows(members, id) != {}
  {
    if HasMembers(members, id) {
      var m :| m in members && !members[m].deleted && members[m].account == id;
      assert m in LiveRows(members, id);
    }
  }

  /** Some member's user row has been deleted. */
  predicate Stranded(s: State, id: nat) {
    exists m :: m in LiveRows(s.members, id) && s.members[m].user !in s.users
  }

  /** The handlers keep the rows of deleted users: a removal looks the user up first. */
  lemma RowStays(s: State, step: Step, m: nat)
    requires Refs(s) && m in s.members && !s.members[m].deleted && s.members[m].user !in s.users
    ensures m in NextState(s, step).members && NextState(s, step).members[m] == s.members[m]
    ensures NextState(s, step).users <= s.users
  {
    if step.Create? {
      AddAdminsRows(s.members, s.nextMember, step.req.admins, s.nextAccount);
    }
  }

  lemma MembersProtect(s: State, step: Step, id: nat)
    requires Names(s) && Live(s.accounts, id) && HasMembers(s.members, id)
    ensures Live(NextState(s, step).accounts, id)
  {
  }

  lemma StrandedStep(s: State, step: Step, id: nat)
    requires Names(s) && Refs(s) && Live(s.accounts, id) && Stranded(s, id)
    ensures Live(NextState(s, step).accounts, id) && Stranded(NextState(s, step), id)
  {
    var m :| m in LiveRows(s.members, id) && s.members[m].user !in s.users;
    MembersAreRows(s.members, id);
    MembersProtect(s, step, id);
    RowStays(s, step, m);
    assert m in LiveRows(NextState(s, step).members, id);
  }

  /** Deleting a user who is still a member makes the account undeletable, over every run and
      whatever fails: the row can no longer be removed, and the account is never empty. */
  lemma {:induction false} StrandedAccountsStay(w: World, steps: seq<Step>, id: nat)
    requires Names(w.s) && Refs(w.s) && Live(w.s.accounts, id) && Stranded(w.s, id)
    ensures Live(Run(w, steps).s.accounts, id) && Stranded(Run(w, steps).s, id)
  {
    if steps != [] {
      var n := |steps| - 1;
      StrandedAccountsStay(w, steps[..n], id);
      MembershipConserved(w, steps[..n], 0, 0);
      StrandedStep(Run(w, steps[..n]).s, steps[n], id);
    }
  }

  /******* Accounts that can go *******/

  lemma KeepsTransactionsAppend(w: World, steps: seq<Step>, step: Step)
    requires KeepsTransactions(w, steps) && !ActsWithoutCommit(Run(w, steps).s, step)
    ensures KeepsTransactions(w, steps + [step])
    ensures Run(w, steps + [step]) == Next(Run(w, steps), step)
  {
    var all := steps + [step];
    assert all[..|steps|] == steps;
    forall i {:trigger all[i]} | 0 <= i < |all|
      ensures !ActsWithoutCommit(Run(w, all[..i]).s, all[i])
    {
      if i < |steps| {
        assert all[..i] == steps[..i] && all[i] == steps[i];
      }
    }
  }

  /** Removing a member whose user exists leaves one row fewer. */
  lemma RemoveStepShrinks(s: State, m: nat, id: nat)
    requires Live(s.accounts, id) && m in LiveRows(s.members, id) && !Stranded(s, id)
    ensures var s' := RemoveStep(s, id, s.members[m].user, false);
            && s'.accounts == s.accounts && !Stranded(s', id)
            && |LiveRows(s'.members, id)| < |LiveRows(s.members, id)|
  {
    var user := s.members[m].user;
    assert m in Rows(s.members, id, user);
    var least := Least(Rows(s.members, id, user));
    var s' := RemoveStep(s, id, user, false);
    assert least in LiveRows(s.members, id);
    assert LiveRows(s'.members, id) == LiveRows(s.members, id) - {least};
  }

  /** Continue a run with removals until the account is empty. */
  lemma {:induction false} Emptied(w: World, steps: seq<Step>, id: nat) returns (all: seq<Step>)
    requires KeepsTransactions(w, steps)
    requires var v := Run(w, steps); Live(v.s.accounts, id) && id in v.volcano && !Stranded(v.s, id)
    ensures KeepsTransactions(w, all)
    ensures var v := Run(w, all); Live(v.s.accounts, id) && id in v.volcano && !HasMembers(v.s.members, id)
    decreases |LiveRows(Run(w, steps).s.members, id)|
  {
    var v := Run(w, steps);
    MembersAreRows(v.s.members, id);
    if HasMembers(v.s.members, id) {
      var m :| m in LiveRows(v.s.members, id);
      var step := Remove(id, v.s.members[m].user, false);
      RemoveStepShrinks(v.s, m, id);
      KeepsTransactionsAppend(w, steps, step);
      all := Emptied(w, steps + [step], id);
    } else {
      all := steps;
    }
  }

  /** Some run, with every queue effect committed, deletes the account. */
  ghost predicate Deletable(w: World, id: nat) {
    exists steps :: KeepsTransactions(w, steps) && !Live(Run(w, steps).s.accounts, id)
  }

  lemma EmptiedIsDeletable(w: World, id: nat)
    requires Inv(w) && Live(w.s.accounts, id) && id in w.volcano && !Stranded(w.s, id)
    ensures Deletable(w, id)
  {
    var steps := Emptied(w, [], id);
    var v, step := Run(w, steps), Delete(id, NO_DELETE_FAULTS);
    StoresStayConsistent(w, steps);
    DeleteSucceedsIff(v, id, NO_DELETE_FAULTS);
    KeepsTransactionsAppend(w, steps, step);
    assert !Live(Next(v, step).s.accounts, id);
  }

  /** Which accounts can ever be deleted: exactly those that were created with a queue, which
      are those that have one, and have no member whose user row is gone. */
  lemma DeletableIff(w: World, id: nat)
    requires Inv(w) && Live(w.s.accounts, id)
    ensures Deletable(w, id) <==> id in w.volcano && !Stranded(w.s, id)
    ensures id in w.volcano <==> w.s.accounts[id].name in w.s.queues
  {
    if id in w.volcano && !Stranded(w.s, id) {
      EmptiedIsDeletable(w, id);
    } else if Deletable(w, id) {
      var steps :| KeepsTransactions(w, steps) && !Live(Run(w, steps).s.accounts, id);
      if Stranded(w.s, id) {
        StrandedAccountsStay(w, steps, id);
      } else {
        QueuelessAccountsStay(w, steps, id);
      }
    }
  }

  /******* Inputs *******/

  function LabCreate(withoutVolcano: bool): Step {
    Create("admin", AccountReq("lab", QuotaReq(None, None, None), withoutVolcano, [1], None),
           CreateFaults(false, None, false, Works, false))
  }

  lemma RunOfThree(w: World, a: Step, b: Step, c: Step)
    ensures Run(w, [a, b, c]) == Next(Next(Next(w, a), b), c)
  {
    assert [a, b, c][..2] == [a, b] && [a, b][..1] == [a] && [a][..0] == [];
    assert Run(w, [a]) == Next(w, a);
    assert Run(w, [a, b]) == Next(Run(w, [a]), b);
  }

  lemma LabRows(withoutVolcano: bool)
    ensures var s := NextState(FreshInstall().s, LabCreate(withoutVolcano));
            s.users == {1} && s.members == map[1 := AdminMember(1, 1), 2 := AdminMember(1, 2)]
  {
    FreshInstallIsConsistent();
    CreateFailsOnlyByFaults(FreshInstall(), LabCreate(withoutVolcano).req, LabCreate(withoutVolcano).create);
    assert AddAdmins(map[1 := AdminMember(1, 1)], 2, [1], 2) == map[1 := AdminMember(1, 1), 2 := AdminMember(1, 2)];
  }

  lemma OneAdmin(s: State)
    requires s.users == {1} && s.members == map[1 := AdminMember(1, 1), 2 := AdminMember(1, 2)]
    ensures LiveRows(s.members, 2) == {2} && s.members[2].user == 1 && !Stranded(s, 2)
  {
  }

  lemma LabIsLive(withoutVolcano: bool)
    ensures var v := Next(FreshInstall(), LabCreate(withoutVolcano));
            Inv(v) && Live(v.s.accounts, 2) && (2 in v.volcano <==> !withoutVolcano)
  {
    var w, step := FreshInstall(), LabCreate(withoutVolcano);
    FreshInstallIsConsistent();
    CreateFailsOnlyByFaults(w, step.req, step.create);
    InvStep(w, step);
    StepKeepsNames(w.s, step);
  }

  lemma LabIsCreated(withoutVolcano: bool)
    ensures var v := Next(FreshInstall(), LabCreate(withoutVolcano));
            && Inv(v) && Live(v.s.accounts, 2) && (2 in v.volcano <==> !withoutVolcano)
            && LiveRows(v.s.members, 2) == {2} && v.s.members[2].user == 1 && !Stranded(v.s, 2)
  {
    LabIsLive(withoutVolcano);
    LabRows(withoutVolcano);
    OneAdmin(Next(FreshInstall(), LabCreate(withoutVolcano)).s);
  }

  lemma LeaveAndDelete(w: World, id: nat, m: nat)
    requires Inv(w) && Live(w.s.accounts, id) && LiveRows(w.s.members, id) == {m} && !Stranded(w.s, id)
    ensures var v := Next(Next(w, Remove(id, w.s.members[m].user, false)), Delete(id, NO_DELETE_FAULTS));
            !HasMembers(v.s.members, id) && (Live(v.s.accounts, id) <==> id !in w.volcano)
  {
    var step := Remove(id, w.s.members[m].user, false);
    var v := Next(w, step);
    RemoveStepShrinks(w.s, m, id);
    InvStep(w, step);
    MembersAreRows(v.s.members, id);
    DeleteSucceedsIff(v, id, NO_DELETE_FAULTS);
  }

  /** On a fresh installation an administrator creates an account, leaves it and deletes it, and
      nothing fails. The account is gone if it was created with a queue, and otherwise it stays,
      without a member. */
  lemma EmptiedAccountMayStay(withoutVolcano: bool)
    ensures var v := Run(FreshInstall(), [LabCreate(withoutVolcano), Remove(2, 1, false), Delete(2, NO_DELETE_FAULTS)]);
            !HasMembers(v.s.members, 2) && (Live(v.s.accounts, 2) <==> withoutVolcano)
  {
    LabIsCreated(withoutVolcano);
    LeaveAndDelete(Next(FreshInstall(), LabCreate(withoutVolcano)), 2, 2);
    RunOfThree(FreshInstall(), LabCreate(withoutVolcano), Remove(2, 1, false), Delete(2, NO_DELETE_FAULTS));
  }

  lemma DropStrands(w: World, id: nat, m: nat)
    requires Inv(w) && Live(w.s.accounts, id) && m in LiveRows(w.s.members, id)
    ensures var v := Next(w, DropUser(w.s.members[m].user));
            Inv(v) && Live(v.s.accounts, id) && v.volcano == w.volcano && !Deletable(v, id)
  {
    var step := DropUser(w.s.members[m].user);
    var v := Next(w, step);
    InvStep(w, step);
    assert m in LiveRows(v.s.members, id);
    DeletableIff(v, id);
  }

  /** Deleting the user first is enough to keep any account for ever. */
  lemma DeletedUserStrandsAccount()
    ensures var v := Next(Next(FreshInstall(), LabCreate(false)), DropUser(1));
            Live(v.s.accounts, 2) && 2 in v.volcano && !Deletable(v, 2)
  {
    LabIsCreated(false);
    DropStrands(Next(FreshInstall(), LabCreate(false)), 2, 2);
  }
}
