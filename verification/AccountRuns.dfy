/** Runs of the account handlers and of user deletions over the database and the queue store:
    names, referential integrity, and agreement of the two stores. */
module AccountRuns {
  import opened Decimal
  import opened Accounts
  import opened Options

  /** `volcano` is a history variable: the accounts created together with a queue. */
  datatype World = World(s: State, volcano: set<nat>)

  datatype Step =
    | Create(username: string, req: AccountReq, create: CreateFaults)
    | Update(id: nat, change: AccountReq, update: UpdateFaults)
    | Delete(id: nat, delete: DeleteFaults)
    | Add(account: nat, user: nat, member: MemberReq, fault: bool)
    | Remove(account: nat, user: nat, fault: bool)
    | DropUser(user: nat)

  function NextState(s: State, step: Step): State {
    match step
    case Create(username, req, f) => CreateStep(s, username, req, f)
    case Update(id, change, f) => UpdateStep(s, id, change, f)
    case Delete(id, f) => DeleteStep(s, id, f)
    case Add(account, user, member, fault) => AddStep(s, account, user, member, fault)
    case Remove(account, user, fault) => RemoveStep(s, account, user, fault)
    case DropUser(user) => s.(users := s.users - {user})
  }

  /** The create commits. */
  predicate Commits(s: State, step: Step) {
    step.Create? && CreateReplyOf(s, step.req, step.create).Created?
  }

  function Next(w: World, step: Step): World {
    World(NextState(w.s, step),
          if Commits(w.s, step) && !step.req.withoutVolcano then w.volcano + {w.s.nextAccount} else w.volcano)
  }

  function Run(w: World, steps: seq<Step>): World {
    if steps == [] then w else Next(Run(w, steps[..|steps| - 1]), steps[|steps| - 1])
  }

  /******* Names *******/

  /** A name is not empty, and if it looks like a generated one it is the one of this id. */
  predicate Own(id: nat, name: string) {
    name != "" && (IsQueueName(name) ==> name == QueueName(id))
  }

  ghost predicate Names(s: State) {
    && (forall id :: id in s.accounts ==>
          id < s.nextAccount && Own(id, s.accounts[id].name) && Own(id, s.accounts[id].space))
    && (forall a, b :: a in s.accounts && b in s.accounts && a != b ==>
          s.accounts[a].name != s.accounts[b].name && s.accounts[a].space != s.accounts[b].space)
  }

  lemma NameIsFree(s: State, id: nat, name: string)
    requires Names(s) && id in s.accounts
    requires name == "" || name == QueueName(s.nextAccount)
    ensures s.accounts[id].name != name && s.accounts[id].space != name
  {
    if name != "" && (s.accounts[id].name == name || s.accounts[id].space == name) {
      QueueNameInjective(id, s.nextAccount);
    }
  }

  /** Neither the temporary empty name nor the generated name of a new account is taken. */
  lemma NoConflict(s: State)
    requires Names(s)
    ensures !Taken(s.accounts, s.nextAccount, "") && !Taken(s.accounts, s.nextAccount, QueueName(s.nextAccount))
  {
    forall id | id in s.accounts
      ensures s.accounts[id].name != "" && s.accounts[id].space != ""
      ensures s.accounts[id].name != QueueName(s.nextAccount) && s.accounts[id].space != QueueName(s.nextAccount)
    {
      NameIsFree(s, id, "");
      NameIsFree(s, id, QueueName(s.nextAccount));
    }
  }

  /** The two states have the same account rows, up to nickname, quota, expiry and deletion. */
  ghost predicate SameNames(s: State, s': State) {
    && s.nextAccount <= s'.nextAccount && s'.accounts.Keys == s.accounts.Keys
    && forall id :: id in s.accounts ==>
         s'.accounts[id].name == s.accounts[id].name && s'.accounts[id].space == s.accounts[id].space
  }

  lemma NamesKept(s: State, s': State)
    requires Names(s) && SameNames(s, s')
    ensures Names(s')
  {
  }

  /** Only a committed create adds a row; no step renames or removes one. */
  lemma StepKeepsNames(s: State, step: Step)
    ensures if Commits(s, step)
            then NextState(s, step).accounts == s.accounts[s.nextAccount := NewAccount(s.nextAccount, step.req)]
                 && NextState(s, step).nextAccount == s.nextAccount + 1
            else SameNames(s, NextState(s, step))
  {
  }

  lemma NamesAdded(s: State, s': State, row: Account)
    requires Names(s) && s'.accounts == s.accounts[s.nextAccount := row] && s'.nextAccount == s.nextAccount + 1
    requires row.name == row.space == QueueName(s.nextAccount)
    ensures Names(s')
  {
    forall id | id in s.accounts
      ensures s.accounts[id].name != row.name && s.accounts[id].space != row.name
    {
      NameIsFree(s, id, row.name);
    }
  }

  /** Every step keeps names non-empty, generated from the id, and pairwise distinct. */
  lemma NamesStep(s: State, step: Step)
    requires Names(s)
    ensures Names(NextState(s, step))
  {
    StepKeepsNames(s, step);
    if Commits(s, step) {
      NamesAdded(s, NextState(s, step), NewAccount(s.nextAccount, step.req));
    } else {
      NamesKept(s, NextState(s, step));
    }
  }

  /******* References *******/

  /** Every live membership row belongs to a live account. */
  ghost predicate Refs(s: State) {
    && (forall m :: m in s.members ==> m < s.nextMember)
    && (forall m :: m in s.members && !s.members[m].deleted ==> Live(s.accounts, s.members[m].account))
  }

  lemma {:induction false} AddAdminsRows(members: map<nat, Member>, base: nat, admins: seq<nat>, account: nat)
    requires forall m :: m in members ==> m < base
    ensures var r := AddAdmins(members, base, admins, account);
            && (forall m :: m in r <==> m in members || base <= m < base + |admins|)
            && (forall m :: m in members ==> r[m] == members[m])
            && (forall m :: base <= m < base + |admins| ==> m in r && r[m] == AdminMember(admins[m - base], account))
  {
    if admins != [] {
      AddAdminsRows(members, base, admins[..|admins| - 1], account);
    }
  }

  lemma CreateKeepsRefs(s: State, step: Step)
    requires Names(s) && Refs(s) && step.Create?
    ensures Refs(NextState(s, step))
  {
    AddAdminsRows(s.members, s.nextMember, step.req.admins, s.nextAccount);
  }

  /** A delete that takes effect found no live membership row of the account. */
  lemma DeleteKeepsRefs(s: State, step: Step)
    requires Refs(s) && step.Delete?
    ensures Refs(NextState(s, step))
  {
  }

  lemma RefsStep(s: State, step: Step)
    requires Names(s) && Refs(s)
    ensures Refs(NextState(s, step))
  {
    match step
    case Create(_, _, _) => CreateKeepsRefs(s, step);
    case Delete(_, _) => DeleteKeepsRefs(s, step);
    case _ =>
  }

  /******* The two stores *******/

  /** Every queue belongs to a live account, and a live account has a queue if and only if it
      was created with one. */
  ghost predicate TwoStores(w: World) {
    && (forall q :: q in w.s.queues ==> exists id :: Live(w.s.accounts, id) && w.s.accounts[id].name == q)
    && (forall id :: Live(w.s.accounts, id) ==> (w.s.accounts[id].name in w.s.queues <==> id in w.volcano))
  }

  ghost predicate Inv(w: World) {
    Names(w.s) && Refs(w.s) && TwoStores(w) && forall id :: id in w.volcano ==> id < w.s.nextAccount
  }

  lemma QueueNameIsFree(w: World)
    requires Inv(w)
    ensures QueueName(w.s.nextAccount) !in w.s.queues
  {
    var q := QueueName(w.s.nextAccount);
    if q in w.s.queues {
      var id :| Live(w.s.accounts, id) && w.s.accounts[id].name == q;
      NameIsFree(w.s, id, q);
    }
  }

  /** From a consistent state a create fails only by an error from outside: no name, space or
      queue conflict is possible. */
  lemma CreateFailsOnlyByFaults(w: World, req: AccountReq, f: CreateFaults)
    requires Inv(w) && ValidCreate(req)
    ensures CreateReplyOf(w.s, req, f) == Created(w.s.nextAccount) <==>
              && !f.insert && (f.member.Some? ==> f.member.value >= |req.admins|) && !f.update
              && (req.withoutVolcano || f.client == Works) && !f.commit
  {
    NoConflict(w.s);
    QueueNameIsFree(w);
  }

  /** The queue store acts, but its reply is lost or the commit fails, so the database
      transaction around the call is rolled back. */
  predicate ActsWithoutCommit(s: State, step: Step) {
    || (step.Create? && CreateActs(s, step.req, step.create)
        && (step.create.client == ReplyLost || step.create.commit))
    || (step.Delete? && DeleteActs(s, step.id, step.delete)
        && (step.delete.client == ReplyLost || step.delete.commit))
  }

  /** A step that touches no row but `id` and no queue but that of its name, and leaves both
      stores with it or both without it. */
  lemma StoresMoveTogether(w: World, w': World, id: nat, row: Account)
    requires TwoStores(w) && (id in w.s.accounts ==> w.s.accounts[id].name == row.name)
    requires forall other :: other in w.s.accounts && other != id ==> w.s.accounts[other].name != row.name
    requires w'.s.accounts == w.s.accounts[id := row]
    requires forall q :: q != row.name ==> (q in w'.s.queues <==> q in w.s.queues)
    requires forall other :: other != id ==> (other in w'.volcano <==> other in w.volcano)
    requires row.name in w'.s.queues ==> !row.deleted
    requires !row.deleted ==> (row.name in w'.s.queues <==> id in w'.volcano)
    ensures TwoStores(w')
  {
    forall q | q in w'.s.queues
      ensures exists owner :: Live(w'.s.accounts, owner) && w'.s.accounts[owner].name == q
    {
      if q == row.name {
        assert Live(w'.s.accounts, id);
      } else {
        var owner :| Live(w.s.accounts, owner) && w.s.accounts[owner].name == q;
        assert Live(w'.s.accounts, owner) && w'.s.accounts[owner].name == q;
      }
    }
    forall other | Live(w'.s.accounts, other)
      ensures w'.s.accounts[other].name in w'.s.queues <==> other in w'.volcano
    {
      assert other != id ==> Live(w.s.accounts, other);
    }
  }

  /** Updates, membership steps and user deletions keep every queue and every live account's
      name. */
  lemma OtherStepFrame(w: World, step: Step)
    requires !step.Create? && !step.Delete?
    ensures Next(w, step).s.queues.Keys == w.s.queues.Keys && Next(w, step).volcano == w.volcano
    ensures Next(w, step).s.accounts.Keys == w.s.accounts.Keys
    ensures forall id :: id in w.s.accounts ==>
              && Next(w, step).s.accounts[id].deleted == w.s.accounts[id].deleted
              && Next(w, step).s.accounts[id].name == w.s.accounts[id].name
  {
  }

  lemma StoresKept(w: World, w': World)
    requires TwoStores(w)
    requires w'.s.queues.Keys == w.s.queues.Keys && w'.volcano == w.volcano && w'.s.accounts.Keys == w.s.accounts.Keys
    requires forall id :: id in w.s.accounts ==>
               w'.s.accounts[id].deleted == w.s.accounts[id].deleted && w'.s.accounts[id].name == w.s.accounts[id].name
    ensures TwoStores(w')
  {
    forall q | q in w'.s.queues
      ensures exists id :: Live(w'.s.accounts, id) && w'.s.accounts[id].name == q
    {
      assert q in w.s.queues;
      var id :| Live(w.s.accounts, id) && w.s.accounts[id].name == q;
      assert Live(w'.s.accounts, id) && w'.s.accounts[id].name == q;
    }
  }

  lemma CreateKeepsStores(w: World, step: Step)
    requires Inv(w) && step.Create? && !ActsWithoutCommit(w.s, step)
    ensures TwoStores(Next(w, step))
  {
    StepKeepsNames(w.s, step);
    var w', id := Next(w, step), w.s.nextAccount;
    if Commits(w.s, step) {
      var row := NewAccount(id, step.req);
      forall other | other in w.s.accounts
        ensures other != id && w.s.accounts[other].name != row.name
      {
        NameIsFree(w.s, other, row.name);
      }
      QueueNameIsFree(w);
      StoresMoveTogether(w, w', id, row);
    } else {
      StoresKept(w, w');
    }
  }

  lemma DeleteKeepsStores(w: World, step: Step)
    requires Inv(w) && step.Delete? && !ActsWithoutCommit(w.s, step)
    ensures TwoStores(Next(w, step))
  {
    if DeleteCommits(w.s, step.id, step.delete) {
      StoresMoveTogether(w, Next(w, step), step.id, w.s.accounts[step.id].(deleted := true));
    }
  }

  lemma LostCommitSplits(w: World, step: Step)
    requires Inv(w) && ActsWithoutCommit(w.s, step)
    ensures !TwoStores(Next(w, step))
  {
    var w' := Next(w, step);
    if step.Create? {
      var q := QueueName(w.s.nextAccount);
      assert q in w'.s.queues;
      forall id | Live(w'.s.accounts, id)
        ensures w'.s.accounts[id].name != q
      {
        NameIsFree(w.s, id, q);
      }
    } else {
      assert Live(w'.s.accounts, step.id) && w'.s.accounts[step.id].name !in w'.s.queues && step.id in w'.volcano;
    }
  }

  /** A step keeps the two stores in agreement if and only if the queue store does not act
      without the transaction committing. Every other failure of any call is harmless. */
  lemma StoresAgreeIff(w: World, step: Step)
    requires Inv(w)
    ensures TwoStores(Next(w, step)) <==> !ActsWithoutCommit(w.s, step)
  {
    if ActsWithoutCommit(w.s, step) {
      LostCommitSplits(w, step);
    } else if step.Create? {
      CreateKeepsStores(w, step);
    } else if step.Delete? {
      DeleteKeepsStores(w, step);
    } else {
      OtherStepFrame(w, step);
      StoresKept(w, Next(w, step));
    }
  }

  ghost predicate KeepsTransactions(w: World, steps: seq<Step>) {
    forall i {:trigger steps[i]} :: 0 <= i < |steps| ==> !ActsWithoutCommit(Run(w, steps[..i]).s, steps[i])
  }

  lemma KeepsTransactionsSplit(w: World, steps: seq<Step>)
    requires steps != [] && KeepsTransactions(w, steps)
    ensures KeepsTransactions(w, steps[..|steps| - 1])
    ensures !ActsWithoutCommit(Run(w, steps[..|steps| - 1]).s, steps[|steps| - 1])
  {
    var n := |steps| - 1;
    assert !ActsWithoutCommit(Run(w, steps[..n]).s, steps[n]);
    forall i {:trigger steps[..n][i]} | 0 <= i < n
      ensures !ActsWithoutCommit(Run(w, steps[..n][..i]).s, steps[..n][i])
    {
      assert steps[..n][..i] == steps[..i] && steps[..n][i] == steps[i];
    }
  }

  /** Only a committed create adds to the accounts created with a queue. */
  lemma VolcanoStep(w: World, step: Step)
    requires forall id :: id in w.volcano ==> id < w.s.nextAccount
    ensures forall id :: id in Next(w, step).volcano ==> id < Next(w, step).s.nextAccount
  {
    StepKeepsNames(w.s, step);
  }

  lemma InvStep(w: World, step: Step)
    requires Inv(w) && !ActsWithoutCommit(w.s, step)
    ensures Inv(Next(w, step))
  {
    var w' := Next(w, step);
    assert TwoStores(w') by {
      StoresAgreeIff(w, step);
    }
    assert Names(w'.s) by {
      NamesStep(w.s, step);
    }
    assert Refs(w'.s) by {
      RefsStep(w.s, step);
    }
    VolcanoStep(w, step);
  }

  /** Over every run in which no queue-store effect is left without its commit, whatever calls
      fail, names stay distinct, memberships stay attached and the two stores agree. */
  lemma {:induction false} StoresStayConsistent(w: World, steps: seq<Step>)
    requires Inv(w) && KeepsTransactions(w, steps)
    ensures Inv(Run(w, steps))
  {
    if steps != [] {
      KeepsTransactionsSplit(w, steps);
      StoresStayConsistent(w, steps[..|steps| - 1]);
      InvStep(Run(w, steps[..|steps| - 1]), steps[|steps| - 1]);
    }
  }

  /** The account is live and has the name. */
  predicate Owns(w: World, id: nat, q: string) {
    Live(w.s.accounts, id) && w.s.accounts[id].name == q
  }

  /** Over every such run, each queue has exactly one live account of its name, which was
      created with a queue, and every live account created with a queue still has it. */
  lemma QueuesHaveOneOwner(w: World, steps: seq<Step>)
    requires Inv(w) && KeepsTransactions(w, steps)
    ensures var w' := Run(w, steps);
            forall q :: q in w'.s.queues ==>
              exists id :: Owns(w', id, q) && id in w'.volcano && forall other :: Owns(w', other, q) ==> other == id
    ensures var w' := Run(w, steps);
            forall id :: Live(w'.s.accounts, id) && id in w'.volcano ==> w'.s.accounts[id].name in w'.s.queues
  {
    StoresStayConsistent(w, steps);
    var w' := Run(w, steps);
    forall q | q in w'.s.queues
      ensures exists id :: Owns(w', id, q) && id in w'.volcano && forall other :: Owns(w', other, q) ==> other == id
    {
      var id :| Live(w'.s.accounts, id) && w'.s.accounts[id].name == q;
      assert Owns(w', id, q);
    }
  }

  /** A fresh installation: the default account with its administrator, and the queue
      `default`, which Volcano itself creates. */
  function FreshInstall(): World {
    World(State(map[1 := Account("default", "public account", "/public", EMPTY_QUOTA, None, false)],
                map[1 := AdminMember(1, 1)], 2, 2, {1}, map["default" := Queue(EMPTY_QUOTA, "")]), {1})
  }

  lemma FreshInstallIsConsistent()
    ensures Inv(FreshInstall())
  {
    assert "default"[0] == 'd' && "/public"[0] == '/' && "q-"[0] == 'q';
    assert Live(FreshInstall().s.accounts, 1);
  }

  /** One lost reply is enough: the queue is made, the account is rolled back. */
  lemma LostReplySplitsStores()
    ensures var req := AccountReq("lab", QuotaReq(None, None, None), false, [1], None);
            var step := Create("admin", req, CreateFaults(false, None, false, ReplyLost, false));
            && ActsWithoutCommit(FreshInstall().s, step)
            && QueueName(2) in Next(FreshInstall(), step).s.queues
            && Next(FreshInstall(), step).s.accounts == FreshInstall().s.accounts
            && !TwoStores(Next(FreshInstall(), step))
  {
    var req := AccountReq("lab", QuotaReq(None, None, None), false, [1], None);
    var step := Create("admin", req, CreateFaults(false, None, false, ReplyLost, false));
    FreshInstallIsConsistent();
    NoConflict(FreshInstall().s);
    QueueNameIsFree(FreshInstall());
    StoresAgreeIff(FreshInstall(), step);
  }
}
