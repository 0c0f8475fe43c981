/** The account handlers in the imperative form of the original, each proved against the step
    it takes. A transaction keeps a copy of the tables and puts it back when its body or its
    commit fails; sequence numbers and the queue store are not rolled back. */
module AccountStore {
  import opened Decimal
  import opened Accounts
  import opened Options
  import opened Listings

  lemma TakenIgnoresOwnRow(accounts: map<nat, Account>, id: nat, row: Account, name: string)
    ensures Taken(accounts[id := row], id, name) <==> Taken(accounts, id, name)
  {
    if Taken(accounts, id, name) {
      var other :| other in accounts && other != id && (accounts[other].name == name || accounts[other].space == name);
      assert accounts[id := row][other] == accounts[other];
    }
  }

  /** The condition `id NOT IN (...)`. For an empty list the query says `id IS NOT NULL`, which
      every row satisfies. */
  method NotIn(id: nat, ids: seq<nat>) returns (keep: bool)
    ensures keep <==> id !in ids
  {
    if |ids| == 0 {
      return true;
    }
    for i := 0 to |ids|
      invariant id !in ids[..i]
    {
      if ids[i] == id {
        return false;
      }
    }
    assert ids[..|ids|] == ids;
    return true;
  }

  /** SELECT DISTINCT. */
  method Deduplicate<T(==)>(rows: seq<T>) returns (result: seq<T>)
    ensures Distinct(result)
    ensures forall row :: row in result <==> row in rows
  {
    result := [];
    for i := 0 to |rows|
      invariant Distinct(result)
      invariant forall row :: row in result <==> row in rows[..i]
    {
      if rows[i] !in result {
        result := result + [rows[i]];
      }
    }
    assert rows[..|rows|] == rows;
  }

  class Store {
    var accounts: map<nat, Account>
    var members: map<nat, Member>
    var nextAccount: nat
    var nextMember: nat
    var users: set<nat>
    var queues: map<string, Queue>

    function View(): State
      reads this
    {
      State(accounts, members, nextAccount, nextMember, users, queues)
    }

    constructor (s: State)
      ensures View() == s
    {
      accounts, members, users, queues := s.accounts, s.members, s.users, s.queues;
      nextAccount, nextMember := s.nextAccount, s.nextMember;
    }

    /** Whether a row other than `id` has the name or the space. */
    method FindConflict(id: nat, name: string) returns (found: bool)
      ensures found <==> Taken(accounts, id, name)
    {
      var left := accounts.Keys;
      while left != {}
        invariant left <= accounts.Keys
        invariant forall other :: other in accounts && other !in left && other != id ==>
                    accounts[other].name != name && accounts[other].space != name
        decreases left
      {
        var other :| other in left;
        if other != id && (accounts[other].name == name || accounts[other].space == name) {
          return true;
        }
        left := left - {other};
      }
      return false;
    }

    method CreateVolcanoQueue(name: string, username: string, req: AccountReq, client: Call) returns (ok: bool)
      modifies this`queues
      ensures ok <==> QueueMade(old(queues), name, client) && client == Works
      ensures queues == if QueueMade(old(queues), name, client)
                        then old(queues)[name := Queue(req.quota.Stored(), username)] else old(queues)
    {
      if client == Fails || name in queues {
        return false;
      }
      queues := queues[name := Queue(req.quota.Stored(), username)];
      return client == Works;
    }

    /** The loop that makes every listed user an administrator of the new account. */
    method InsertAdmins(admins: seq<nat>, account: nat, fault: Option<nat>) returns (ok: bool)
      modifies this`members, this`nextMember
      ensures ok <==> (fault.Some? ==> fault.value >= |admins|)
      ensures nextMember == old(nextMember) + if ok then |admins| else fault.value + 1
      ensures ok ==> members == AddAdmins(old(members), old(nextMember), admins, account)
    {
      var base := nextMember;
      for i := 0 to |admins|
        invariant fault.Some? ==> fault.value >= i
        invariant nextMember == base + i
        invariant members == AddAdmins(old(members), base, admins[..i], account)
      {
        nextMember := nextMember + 1;
        if fault == Some(i) {
          return false;
        }
        members := members[base + i := AdminMember(admins[i], account)];
        assert admins[..i + 1][..i] == admins[..i];
      }
      assert admins[..|admins|] == admins;
      return true;
    }

    /** Insert the row, with empty name and space. */
    method InsertAccount(req: AccountReq, fault: bool) returns (ok: bool, id: nat)
      modifies this`accounts, this`nextAccount
      ensures id == old(nextAccount) && nextAccount == id + 1
      ensures ok <==> !fault && !Taken(old(accounts), id, "")
      ensures accounts == if ok then old(accounts)[id := BlankAccount(req)] else old(accounts)
    {
      id := nextAccount;
      nextAccount := nextAccount + 1;
      var conflict := FindConflict(id, "");
      if fault || conflict {
        return false, id;
      }
      accounts := accounts[id := BlankAccount(req)];
      return true, id;
    }

    /** Fill in name, space, quota and expiry once the id is known. */
    method CompleteAccount(id: nat, req: AccountReq, fault: bool) returns (ok: bool)
      requires id in accounts && accounts[id] == BlankAccount(req)
      modifies this`accounts
      ensures ok <==> !fault && !Taken(old(accounts), id, QueueName(id))
      ensures accounts == if ok then old(accounts)[id := NewAccount(id, req)] else old(accounts)
    {
      var name := QueueName(id);
      var conflict := FindConflict(id, name);
      if fault || conflict {
        return false;
      }
      var row := accounts[id].(name := name, space := name);
      if !req.quota.IsZero() { row := row.(quota := req.quota.Stored()); }
      if req.expiredAt.Some? { row := row.(expiredAt := req.expiredAt); }
      accounts := accounts[id := row];
      return true;
    }

    /** The body of the create transaction. */
    method CreateBody(username: string, req: AccountReq, f: CreateFaults) returns (ok: bool, id: nat)
      requires ValidCreate(req)
      modifies this
      ensures id == old(nextAccount) && users == old(users)
      ensures ok <==> CreateBodyOk(old(View()), req, f)
      ensures nextAccount == id + 1 && nextMember == old(nextMember) + Attempts(old(View()), req, f)
      ensures ok ==> accounts == old(accounts)[id := NewAccount(id, req)]
                     && members == AddAdmins(old(members), old(nextMember), req.admins, id)
      ensures queues == if CreateActs(old(View()), req, f)
                        then old(queues)[QueueName(id) := Queue(req.quota.Stored(), username)] else old(queues)
    {
      ok, id := InsertAccount(req, f.insert);
      if !ok {
        return;
      }
      ok := InsertAdmins(req.admins, id, f.member);
      if !ok {
        return;
      }
      TakenIgnoresOwnRow(old(accounts), id, BlankAccount(req), QueueName(id));
      ok := CompleteAccount(id, req, f.update);
      if !ok || req.withoutVolcano {
        return;
      }
      ok := CreateVolcanoQueue(QueueName(id), username, req, f.client);
    }

    method CreateAccount(username: string, req: AccountReq, f: CreateFaults) returns (reply: CreateReply)
      modifies this
      ensures View() == CreateStep(old(View()), username, req, f)
      ensures reply == CreateReplyOf(old(View()), req, f)
    {
      if req.nickname == "" || req.admins == [] {
        return Rejected;
      }
      var savedAccounts, savedMembers := accounts, members;
      var ok, id := CreateBody(username, req, f);
      if !ok || f.commit {
        accounts, members := savedAccounts, savedMembers;
        return Failed;
      }
      return Created(id);
    }

    method UpdateVolcanoQueue(name: string, req: AccountReq, client: Call) returns (ok: bool)
      modifies this`queues
      ensures ok <==> client == Works && name in old(queues)
      ensures queues == if client != Fails && name in old(queues)
                        then old(queues)[name := old(queues)[name].(quota := req.quota.Stored())] else old(queues)
    {
      if client == Fails || name !in queues {
        return false;
      }
      queues := queues[name := queues[name].(quota := req.quota.Stored())];
      return client == Works;
    }

    method UpdateAccount(id: nat, req: AccountReq, f: UpdateFaults) returns (ok: bool)
      modifies this`accounts, this`queues
      ensures View() == UpdateStep(old(View()), id, req, f)
      ensures ok <==> UpdateOk(old(View()), id, req, f)
    {
      if req.nickname == "" || id !in accounts || accounts[id].deleted {
        return false;
      }
      var row := accounts[id];
      if f.write {
        return false;
      }
      var changed := row.(nickname := req.nickname);
      if !req.quota.IsZero() { changed := changed.(quota := req.quota.Stored()); }
      if req.expiredAt.Some? { changed := changed.(expiredAt := req.expiredAt); }
      accounts := accounts[id := changed];
      if req.withoutVolcano {
        return true;
      }
      ok := UpdateVolcanoQueue(row.name, req, f.client);
    }

    method FindMembers(account: nat) returns (ids: set<nat>)
      ensures ids == set m | m in members && !members[m].deleted && members[m].account == account
    {
      ids := {};
      var left := members.Keys;
      while left != {}
        invariant left <= members.Keys
        invariant ids == set m | m in members && !members[m].deleted && members[m].account == account && m !in left
        decreases left
      {
        var m :| m in left;
        if !members[m].deleted && members[m].account == account {
          ids := ids + {m};
        }
        left := left - {m};
      }
    }

    method DeleteQueue(name: string, client: Call, running: bool) returns (ok: bool)
      modifies this`queues
      ensures ok <==> name in old(queues) && client == Works && !running
      ensures queues == if name in old(queues) && client != Fails && !running then old(queues) - {name} else old(queues)
    {
      if client == Fails || name !in queues {
        return false;
      }
      if running {
        return false;
      }
      queues := queues - {name};
      return client == Works;
    }

    method DeleteAccount(id: nat, f: DeleteFaults) returns (ok: bool)
      modifies this`accounts, this`queues
      ensures View() == DeleteStep(old(View()), id, f)
      ensures ok <==> DeleteCommits(old(View()), id, f)
    {
      if f.read {
        return false;
      }
      var rows := FindMembers(id);
      if rows != {} {
        var m :| m in rows;
        assert m in members && !members[m].deleted && members[m].account == id;
        return false;
      }
      assert !HasMembers(members, id) by {
        forall m | m in members ensures members[m].deleted || members[m].account != id {
          assert m !in rows;
        }
      }
      var saved := accounts;
      if id !in accounts || accounts[id].deleted || f.write {
        return false;
      }
      var name := accounts[id].name;
      accounts := accounts[id := accounts[id].(deleted := true)];
      var gone := DeleteQueue(name, f.client, f.running);
      if !gone || f.commit {
        accounts := saved;
        return false;
      }
      return true;
    }

    method AddUserProject(account: nat, user: nat, req: MemberReq, fault: bool) returns (ok: bool)
      modifies this`members, this`nextMember
      ensures View() == AddStep(old(View()), account, user, req, fault)
      ensures ok <==> AddOk(old(View()), account, user, req, fault)
    {
      if account !in accounts || accounts[account].deleted || user !in users {
        return false;
      }
      if req.role.None? || req.mode.None? || fault {
        return false;
      }
      var role, mode := req.role.value % 256, req.mode.value % 256;
      var capability := OrEmpty(req.quota);
      members := members[nextMember := Member(user, account, role, mode, Quota(map[], map[], capability), false)];
      nextMember := nextMember + 1;
      return true;
    }

    /** The live row of the pair with the smallest id. */
    method FirstMember(account: nat, user: nat) returns (row: Option<nat>)
      ensures row.None? <==> Rows(members, account, user) == {}
      ensures row.Some? ==> Rows(members, account, user) != {} && row.value == Least(Rows(members, account, user))
    {
      row := None;
      ghost var all := Rows(members, account, user);
      var left := members.Keys;
      while left != {}
        invariant left <= members.Keys
        invariant row.None? ==> forall m :: m in all ==> m in left
        invariant row.Some? ==> row.value in all && forall m :: m in all && m !in left ==> row.value <= m
        decreases left
      {
        var m :| m in left;
        if !members[m].deleted && members[m].account == account && members[m].user == user {
          if row.None? || m < row.value {
            row := Some(m);
          }
        }
        left := left - {m};
      }
    }

    method DeleteUserProject(account: nat, user: nat, fault: bool) returns (ok: bool)
      modifies this`members
      ensures View() == RemoveStep(old(View()), account, user, fault)
      ensures ok <==> RemoveOk(old(View()), account, user, fault)
    {
      if account !in accounts || accounts[account].deleted || user !in users {
        return false;
      }
      var row := FirstMember(account, user);
      if row.None? || fault {
        return false;
      }
      members := members[row.value := members[row.value].(deleted := true)];
      return true;
    }

    /** Users joined with the live membership rows of an account, in no particular order. */
    method JoinMembers(account: nat) returns (rows: seq<InsideRow>)
      ensures forall row :: row in rows <==> exists m :: Joined(View(), account, m) && Shown(members[m]) == row
    {
      rows := [];
      var left := members.Keys;
      while left != {}
        invariant left <= members.Keys
        invariant forall row :: row in rows <==>
                    exists m :: Joined(View(), account, m) && m !in left && Shown(members[m]) == row
        decreases left
      {
        var m :| m in left;
        if !members[m].deleted && members[m].account == account && members[m].user in users {
          rows := rows + [Shown(members[m])];
        }
        left := left - {m};
      }
    }

    /** The inside view: the joined rows, each combination of user, role, mode and quota once. */
    method GetUserInProject(account: nat) returns (view: Option<seq<InsideRow>>)
      ensures view.Some? <==> Live(accounts, account)
      ensures view.Some? ==> IsInsideView(View(), account, view.value)
    {
      if account !in accounts || accounts[account].deleted {
        return None;
      }
      var rows := JoinMembers(account);
      var result := Deduplicate(rows);
      return Some(result);
    }

    /** The user ids of the live membership rows of an account; repeated if a user is. */
    method ScanUserIds(account: nat) returns (ids: seq<nat>)
      ensures forall u :: u in ids <==> u in MemberIds(members, account)
    {
      ids := [];
      var left := members.Keys;
      while left != {}
        invariant left <= members.Keys
        invariant forall u :: u in ids <==>
                    exists m :: && m in members && m !in left && !members[m].deleted && members[m].account == account
                                && members[m].user == u
        decreases left
      {
        var m :| m in left;
        if !members[m].deleted && members[m].account == account {
          ids := ids + [members[m].user];
        }
        left := left - {m};
      }
    }

    /** The outside view: the users whose id is not in the scanned list. */
    method GetUserOutOfProject(account: nat) returns (view: Option<seq<nat>>)
      ensures view.Some? <==> Live(accounts, account)
      ensures view.Some? ==> IsOutsideView(View(), account, view.value)
    {
      if account !in accounts || accounts[account].deleted {
        return None;
      }
      var ids := ScanUserIds(account);
      var result: seq<nat> := [];
      var left := users;
      while left != {}
        invariant left <= users
        invariant forall u :: u in result <==> u in users && u !in left && u !in ids
        invariant Distinct(result)
        decreases left
      {
        var u :| u in left;
        var keep := NotIn(u, ids);
        if keep {
          result := result + [u];
        }
        left := left - {u};
      }
      return Some(result);
    }
  }
}
