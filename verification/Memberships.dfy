/** Conservation of membership rows over runs, and what a create and a delete do to them. */
module Memberships {
  import opened Accounts
  import opened AccountRuns
  import opened Options

  /** Membership rows of (account, user) that the step creates. */
  function Creations(s: State, step: Step, account: nat, user: nat): nat {
    match step
    case Create(_, req, _) => if Commits(s, step) && account == s.nextAccount then multiset(req.admins)[user] else 0
    case Add(a, u, member, fault) => if AddOk(s, a, u, member, fault) && a == account && u == user then 1 else 0
    case _ => 0
  }

  /** Membership rows of (account, user) that the step removes. */
  function Removals(s: State, step: Step, account: nat, user: nat): nat {
    match step
    case Remove(a, u, fault) => if RemoveOk(s, a, u, fault) && a == account && u == user then 1 else 0
    case _ => 0
  }

  function TotalCreations(w: World, steps: seq<Step>, account: nat, user: nat): nat {
    if steps == [] then 0
    else
      var n := |steps| - 1;
      TotalCreations(w, steps[..n], account, user) + Creations(Run(w, steps[..n]).s, steps[n], account, user)
  }

  function TotalRemovals(w: World, steps: seq<Step>, account: nat, user: nat): nat {
    if steps == [] then 0
    else
      var n := |steps| - 1;
      TotalRemovals(w, steps[..n], account, user) + Removals(Run(w, steps[..n]).s, steps[n], account, user)
  }

  lemma CountInsert(members: map<nat, Member>, m: nat, row: Member, account: nat, user: nat)
    requires m !in members
    ensures Count(members[m := row], account, user) ==
              Count(members, account, user) +
                if !row.deleted && row.account == account && row.user == user then 1 else 0
  {
    var before, after := Rows(members, account, user), Rows(members[m := row], account, user);
    if !row.deleted && row.account == account && row.user == user {
      assert after == before + {m};
    } else {
      assert after == before;
    }
  }

  lemma CountRemove(members: map<nat, Member>, m: nat, account: nat, user: nat)
    requires m in members && !members[m].deleted
    ensures Count(members[m := members[m].(deleted := true)], account, user) ==
              Count(members, account, user) - if members[m].account == account && members[m].user == user then 1 else 0
  {
    var before := Rows(members, account, user);
    var after := Rows(members[m := members[m].(deleted := true)], account, user);
    if members[m].account == account && members[m].user == user {
      assert m in before && after == before - {m};
    } else {
      assert after == before;
    }
  }

  /** One administrator row per listing of the user, as a multiset. */
  lemma {:induction false} CountAdmins(members: map<nat, Member>, base: nat, admins: seq<nat>, owner: nat,
                                       account: nat, user: nat)
    requires forall m :: m in members ==> m < base
    ensures Count(AddAdmins(members, base, admins, owner), account, user) ==
              Count(members, account, user) + if account == owner then multiset(admins)[user] else 0
  {
    if admins != [] {
      var n := |admins| - 1;
      CountAdmins(members, base, admins[..n], owner, account, user);
      AddAdminsRows(members, base, admins[..n], owner);
      CountInsert(AddAdmins(members, base, admins[..n], owner), base + n, AdminMember(admins[n], owner), account, user);
      assert admins == admins[..n] + [admins[n]];
    }
  }

  lemma StepConserves(s: State, step: Step, account: nat, user: nat)
    requires Names(s) && Refs(s)
    ensures Count(NextState(s, step).members, account, user) + Removals(s, step, account, user) ==
              Count(s.members, account, user) + Creations(s, step, account, user)
  {
    match step
    case Create(_, req, _) =>
      CountAdmins(s.members, s.nextMember, req.admins, s.nextAccount, account, user);
    case Add(a, u, member, fault) =>
      if AddOk(s, a, u, member, fault) {
        CountInsert(s.members, s.nextMember, NewMember(a, u, member), account, user);
      }
    case Remove(a, u, fault) =>
      if RemoveOk(s, a, u, fault) {
        CountRemove(s.members, Least(Rows(s.members, a, u)), account, user);
      }
    case _ =>
  }

  /** Over every run, lost commits included, the live membership rows of a pair number those at
      the start plus the rows created minus the rows removed, and every live row belongs to a
      live account. */
  lemma {:induction false} MembershipConserved(w: World, steps: seq<Step>, account: nat, user: nat)
    requires Names(w.s) && Refs(w.s)
    ensures Names(Run(w, steps).s) && Refs(Run(w, steps).s)
    ensures Count(Run(w, steps).s.members, account, user) + TotalRemovals(w, steps, account, user) ==
              Count(w.s.members, account, user) + TotalCreations(w, steps, account, user)
  {
    if steps != [] {
      var n := |steps| - 1;
      MembershipConserved(w, steps[..n], account, user);
      var v := Run(w, steps[..n]);
      StepConserves(v.s, steps[n], account, user);
      NamesStep(v.s, steps[n]);
      RefsStep(v.s, steps[n]);
    }
  }

  /** A step ends the life of an account only if it is a delete of it that found no member. */
  lemma DeletedOnlyWhenEmpty(s: State, step: Step, id: nat)
    requires Names(s) && Live(s.accounts, id) && !Live(NextState(s, step).accounts, id)
    ensures step.Delete? && step.id == id && forall user :: Count(s.members, id, user) == 0
  {
    assert step.Delete? && DeleteCommits(s, id, step.delete);
    forall user
      ensures Rows(s.members, id, user) == {}
    {
    }
  }

  /** The new account starts without rows, so each user has one per listing. */
  lemma AdminsCounted(s: State, admins: seq<nat>)
    requires Names(s) && Refs(s)
    ensures forall user :: Count(AddAdmins(s.members, s.nextMember, admins, s.nextAccount), s.nextAccount, user)
                           == multiset(admins)[user]
  {
    forall user
      ensures Count(AddAdmins(s.members, s.nextMember, admins, s.nextAccount), s.nextAccount, user)
              == multiset(admins)[user]
    {
      assert Rows(s.members, s.nextAccount, user) == {};
      CountAdmins(s.members, s.nextMember, admins, s.nextAccount, s.nextAccount, user);
    }
  }

  /** A create is all or nothing. Committed, it adds one account and, as a multiset, one
      administrator row with read-write access per listed user, and touches no other row;
      otherwise both tables are as before. */
  lemma CreateAllOrNothing(s: State, username: string, req: AccountReq, f: CreateFaults)
    requires Names(s) && Refs(s)
    ensures var s' := CreateStep(s, username, req, f);
            var id := s.nextAccount;
            if CreateReplyOf(s, req, f).Created? then
              && id !in s.accounts && s'.accounts == s.accounts[id := NewAccount(id, req)]
              && (forall user :: Count(s'.members, id, user) == multiset(req.admins)[user])
              && (forall m :: m in s.members ==> m in s'.members && s'.members[m] == s.members[m])
              && (forall m :: m in s'.members && m !in s.members ==>
                    && s'.members[m].account == id && s'.members[m].user in req.admins
                    && s'.members[m].role == ROLE_ADMIN && s'.members[m].mode == MODE_RW && !s'.members[m].deleted)
            else
              s'.accounts == s.accounts && s'.members == s.members
  {
    AdminsCounted(s, req.admins);
    AddAdminsRows(s.members, s.nextMember, req.admins, s.nextAccount);
  }

  /******* The two views *******/

  lemma InsideIffCounted(s: State, account: nat, view: seq<InsideRow>, user: nat)
    requires IsInsideView(s, account, view) && user in s.users
    ensures (exists row :: row in view && row.user == user) <==> Count(s.members, account, user) > 0
  {
    var rows := Rows(s.members, account, user);
    if row :| row in view && row.user == user {
      var m :| Joined(s, account, m) && Shown(s.members[m]) == row;
      assert m in rows;
    }
    if rows != {} {
      var m :| m in rows;
      assert Joined(s, account, m);
      assert Shown(s.members[m]) in view;
    }
  }

  lemma OutsideIffUncounted(s: State, account: nat, view: seq<nat>, user: nat)
    requires IsOutsideView(s, account, view) && user in s.users
    ensures user in view <==> Count(s.members, account, user) == 0
  {
    var rows := Rows(s.members, account, user);
    if rows != {} {
      var m :| m in rows;
      assert s.members[m].user in MemberIds(s.members, account);
    }
    if user in MemberIds(s.members, account) {
      var m :| m in s.members && !s.members[m].deleted && s.members[m].account == account && s.members[m].user == user;
      assert m in rows;
    }
  }

  /** The two views split the existing users: whatever rows the handlers return, each user is in
      exactly one of them, and nobody else is in either. */
  lemma ViewsPartition(s: State, account: nat, inside: seq<InsideRow>, outside: seq<nat>, user: nat)
    requires IsInsideView(s, account, inside) && IsOutsideView(s, account, outside)
    ensures user in s.users ==> ((exists row :: row in inside && row.user == user) <==> user !in outside)
    ensures user !in s.users ==> user !in outside && !exists row :: row in inside && row.user == user
  {
    if user in s.users {
      InsideIffCounted(s, account, inside, user);
      OutsideIffUncounted(s, account, outside, user);
    }
  }

  /** Over every run, the outside view lists an existing user exactly when the rows removed have
      used up those at the start and those created. */
  lemma OutsideAfterRun(w: World, steps: seq<Step>, account: nat, outside: seq<nat>, user: nat)
    requires Names(w.s) && Refs(w.s) && user in Run(w, steps).s.users
    requires IsOutsideView(Run(w, steps).s, account, outside)
    ensures user in outside <==>
              Count(w.s.members, account, user) + TotalCreations(w, steps, account, user)
                == TotalRemovals(w, steps, account, user)
  {
    MembershipConserved(w, steps, account, user);
    OutsideIffUncounted(Run(w, steps).s, account, outside, user);
  }

  /** The user has two live rows in the account that the inside view shows differently. */
  ghost predicate RowsDiffer(s: State, account: nat, user: nat) {
    exists m, m' :: && m in Rows(s.members, account, user) && m' in Rows(s.members, account, user)
                    && Shown(s.members[m]) != Shown(s.members[m'])
  }

  /** A user added twice: DISTINCT runs over role, mode and quota as well, so the inside view
      repeats the user if and only if the rows differ in one of them. */
  lemma RepeatedIffRowsDiffer(s: State, account: nat, view: seq<InsideRow>, user: nat)
    requires IsInsideView(s, account, view) && user in s.users
    ensures (exists i, j :: 0 <= i < j < |view| && view[i].user == user && view[j].user == user) <==>
              RowsDiffer(s, account, user)
  {
    if i, j :| 0 <= i < j < |view| && view[i].user == user && view[j].user == user {
      assert view[i] in view && view[j] in view;
      var m :| Joined(s, account, m) && Shown(s.members[m]) == view[i];
      var m' :| Joined(s, account, m') && Shown(s.members[m']) == view[j];
      assert m in Rows(s.members, account, user) && m' in Rows(s.members, account, user);
    }
    if RowsDiffer(s, account, user) {
      var m, m' :| && m in Rows(s.members, account, user) && m' in Rows(s.members, account, user)
                   && Shown(s.members[m]) != Shown(s.members[m']);
      assert Joined(s, account, m) && Joined(s, account, m');
      assert Shown(s.members[m]) in view && Shown(s.members[m']) in view;
      var i :| 0 <= i < |view| && view[i] == Shown(s.members[m]);
      var j :| 0 <= j < |view| && view[j] == Shown(s.members[m']);
      assert view[i].user == user && view[j].user == user;
    }
  }

  /** Removing a user from an account takes one row away. The user is then outside if and only
      if there was just one: adding twice is not refused. */
  lemma RemovedIffListedOnce(s: State, account: nat, user: nat, outside: seq<nat>)
    requires RemoveOk(s, account, user, false)
    requires IsOutsideView(RemoveStep(s, account, user, false), account, outside)
    ensures user in outside <==> Count(s.members, account, user) == 1
  {
    var m := Least(Rows(s.members, account, user));
    CountRemove(s.members, m, account, user);
    OutsideIffUncounted(RemoveStep(s, account, user, false), account, outside, user);
  }

  /** The administrator of a fresh installation is added to the default account once more, as an
      ordinary user: the inside view lists the user twice, and after one removal still once. */
  lemma AddedTwiceStaysMember()
    ensures var w := Next(FreshInstall(), Add(1, 1, MemberReq(Some(2), Some(3), None), false));
            && Count(w.s.members, 1, 1) == 2 && RowsDiffer(w.s, 1, 1)
            && Count(Next(w, Remove(1, 1, false)).s.members, 1, 1) == 1
  {
    var s, member := FreshInstall().s, MemberReq(Some(2), Some(3), None);
    var s' := AddStep(s, 1, 1, member, false);
    assert Rows(s.members, 1, 1) == {1};
    CountInsert(s.members, 2, NewMember(1, 1, member), 1, 1);
    assert 1 in Rows(s'.members, 1, 1) && 2 in Rows(s'.members, 1, 1);
    CountRemove(s'.members, Least(Rows(s'.members, 1, 1)), 1, 1);
  }
}
