/** What each account handler leaves behind, in plain values: which requests go through, the
    rows and queues they write field by field, and that nothing else changes. */
module AccountEffects {
  import opened Decimal
  import opened Accounts
  import opened Options

  /** The stored list is the one of the request; an absent list is stored empty. */
  predicate Carries(stored: ResourceList, sent: Option<ResourceList>) {
    match sent
    case Some(list) => stored == list
    case None => stored == map[]
  }

  predicate CarriesQuota(q: Quota, req: QuotaReq) {
    Carries(q.guaranteed, req.guaranteed) && Carries(q.deserved, req.deserved) && Carries(q.capability, req.capability)
  }

  predicate SentNothing(req: QuotaReq) {
    req.guaranteed == None && req.deserved == None && req.capability == None
  }

  /** Another account row, live or deleted, has the name or the space. */
  ghost predicate Clash(s: State, id: nat, name: string) {
    exists other :: other in s.accounts && other != id && name in {s.accounts[other].name, s.accounts[other].space}
  }

  /** The client reports success for a call that needs the queue to be there, or not to be. */
  predicate Succeeds(client: Call, possible: bool) {
    client == Works && possible
  }

  /** The queue store changes. */
  predicate TakesEffect(client: Call, possible: bool) {
    client in {Works, ReplyLost} && possible
  }

  /******* Creating *******/

  /** The statements of the transaction up to the queue call all succeed. */
  ghost predicate StatementsWork(s: State, req: AccountReq, f: CreateFaults) {
    && !f.insert && !Clash(s, s.nextAccount, "")
    && (forall i :: 0 <= i < |req.admins| ==> f.member != Some(i))
    && !f.update && !Clash(s, s.nextAccount, QueueName(s.nextAccount))
  }

  lemma TakenIsClash(s: State, id: nat, name: string)
    ensures Taken(s.accounts, id, name) <==> Clash(s, id, name)
  {
    if Taken(s.accounts, id, name) {
      var other :| && other in s.accounts && other != id
                   && (s.accounts[other].name == name || s.accounts[other].space == name);
      assert name in {s.accounts[other].name, s.accounts[other].space};
    }
  }

  lemma StatementsWorkIff(s: State, req: AccountReq, f: CreateFaults)
    ensures TablesOk(s, req, f) <==> StatementsWork(s, req, f)
  {
    TakenIsClash(s, s.nextAccount, "");
    TakenIsClash(s, s.nextAccount, QueueName(s.nextAccount));
    if f.member.Some? && f.member.value < |req.admins| {
      assert f.member == Some(f.member.value);
    }
  }

  /** Which creates succeed. */
  lemma CreatedIff(s: State, req: AccountReq, f: CreateFaults)
    ensures CreateReplyOf(s, req, f) == Rejected <==> req.nickname == "" || |req.admins| == 0
    ensures CreateReplyOf(s, req, f) == Created(s.nextAccount) <==>
              && req.nickname != "" && |req.admins| > 0 && StatementsWork(s, req, f) && !f.commit
              && (req.withoutVolcano || Succeeds(f.client, QueueName(s.nextAccount) !in s.queues))
    ensures CreateReplyOf(s, req, f).Created? ==> CreateReplyOf(s, req, f).id == s.nextAccount
  {
    StatementsWorkIff(s, req, f);
  }

  /** A created account has what the request says, and the name and space of its id. */
  lemma CreatedAccount(s: State, username: string, req: AccountReq, f: CreateFaults)
    requires CreateReplyOf(s, req, f).Created?
    ensures var s', id := CreateStep(s, username, req, f), s.nextAccount;
            && id in s'.accounts
            && var a := s'.accounts[id];
            && a.name == "q-" + Print(id) && a.space == "q-" + Print(id)
            && a.nickname == req.nickname && a.expiredAt == req.expiredAt && !a.deleted
            && CarriesQuota(a.quota, req.quota)
    ensures var s' := CreateStep(s, username, req, f);
            forall other :: other != s.nextAccount ==>
              && (other in s'.accounts <==> other in s.accounts)
              && (other in s.accounts ==> s'.accounts[other] == s.accounts[other])
  {
  }

  lemma {:induction false} AdminRow(members: map<nat, Member>, base: nat, admins: seq<nat>, account: nat, m: nat)
    ensures var r := AddAdmins(members, base, admins, account);
            if base <= m < base + |admins| then
              m in r && r[m].user == admins[m - base] && r[m].account == account && !r[m].deleted
              && r[m].role == 3 && r[m].mode == 3 && r[m].quota == Quota(map[], map[], map[])
            else
              (m in r <==> m in members) && (m in members ==> r[m] == members[m])
  {
    if admins != [] {
      AdminRow(members, base, admins[..|admins| - 1], account, m);
    }
  }

  /** The listed users become administrators with read-write access, one row each in the order
      of the list; no other row changes. */
  lemma CreatedAdmins(s: State, username: string, req: AccountReq, f: CreateFaults, m: nat)
    requires CreateReplyOf(s, req, f).Created?
    ensures var s' := CreateStep(s, username, req, f);
            && s'.nextMember == s.nextMember + |req.admins|
            && if s.nextMember <= m < s'.nextMember then
                 m in s'.members
                 && var row := s'.members[m];
                 && row.user == req.admins[m - s.nextMember] && row.account == s.nextAccount && !row.deleted
                 && row.role == 3 && row.mode == 3 && row.quota == Quota(map[], map[], map[])
               else
                 (m in s'.members <==> m in s.members) && (m in s.members ==> s'.members[m] == s.members[m])
  {
    AdminRow(s.members, s.nextMember, req.admins, s.nextAccount, m);
  }

  /** A create that does not succeed leaves both tables as they were; it uses up the account id,
      unless it was rejected, and one membership id for every insert that was tried. */
  lemma FailedCreate(s: State, username: string, req: AccountReq, f: CreateFaults)
    requires !CreateReplyOf(s, req, f).Created?
    ensures var s' := CreateStep(s, username, req, f);
            && s'.accounts == s.accounts && s'.members == s.members
            && s'.nextAccount == s.nextAccount + (if CreateReplyOf(s, req, f) == Rejected then 0 else 1)
            && s'.nextMember == s.nextMember
                 + (if CreateReplyOf(s, req, f) == Rejected || f.insert || Clash(s, s.nextAccount, "") then 0
                    else if exists i: nat :: i < |req.admins| && f.member == Some(i) then f.member.value + 1
                    else |req.admins|)
  {
    TakenIsClash(s, s.nextAccount, "");
    if f.member.Some? && f.member.value < |req.admins| {
      assert f.member == Some(f.member.value);
    }
  }

  /** What a create does to the queue store, whatever comes of its transaction: it adds the queue
      of the new name, with the request's quota and the caller as creator, and nothing else. */
  lemma CreatedQueue(s: State, username: string, req: AccountReq, f: CreateFaults, q: string)
    ensures var s', name := CreateStep(s, username, req, f), "q-" + Print(s.nextAccount);
            && s'.users == s.users
            && if && q == name && req.nickname != "" && |req.admins| > 0 && StatementsWork(s, req, f)
                  && !req.withoutVolcano && TakesEffect(f.client, name !in s.queues)
               then q in s'.queues && CarriesQuota(s'.queues[q].quota, req.quota) && s'.queues[q].createdBy == username
               else (q in s'.queues <==> q in s.queues) && (q in s.queues ==> s'.queues[q] == s.queues[q])
  {
    StatementsWorkIff(s, req, f);
  }

  /******* Updating *******/

  predicate Writes(s: State, id: nat, req: AccountReq, f: UpdateFaults) {
    req.nickname != "" && id in s.accounts && !s.accounts[id].deleted && !f.write
  }

  /** An update writes the nickname, a quota if one was sent, and an expiry if one was sent; name,
      space and every other row stay. */
  lemma UpdatedAccount(s: State, id: nat, req: AccountReq, f: UpdateFaults)
    requires Writes(s, id, req, f)
    ensures var s' := UpdateStep(s, id, req, f);
            && s'.accounts.Keys == s.accounts.Keys
            && var a, a' := s.accounts[id], s'.accounts[id];
            && a'.nickname == req.nickname
            && (if SentNothing(req.quota) then a'.quota == a.quota else CarriesQuota(a'.quota, req.quota))
            && a'.expiredAt == (match req.expiredAt case Some(t) => Some(t) case None => a.expiredAt)
            && a'.name == a.name && a'.space == a.space && !a'.deleted
            && forall other :: other in s.accounts && other != id ==> s'.accounts[other] == s.accounts[other]
  {
  }

  /** The queue of the account's name takes over all three lists, absent ones as empty, if the
      call takes effect; no queue appears, goes or changes otherwise. */
  lemma UpdatedQueue(s: State, id: nat, req: AccountReq, f: UpdateFaults, q: string)
    requires Writes(s, id, req, f)
    ensures var s' := UpdateStep(s, id, req, f);
            && s'.queues.Keys == s.queues.Keys
            && (q in s.queues ==>
                  s'.queues[q].createdBy == s.queues[q].createdBy
                  && if q == s.accounts[id].name && !req.withoutVolcano && TakesEffect(f.client, q in s.queues)
                     then CarriesQuota(s'.queues[q].quota, req.quota) else s'.queues[q] == s.queues[q])
  {
  }

  lemma UpdateSucceedsIff(s: State, id: nat, req: AccountReq, f: UpdateFaults)
    ensures UpdateOk(s, id, req, f) <==>
              && Writes(s, id, req, f)
              && (req.withoutVolcano || Succeeds(f.client, s.accounts[id].name in s.queues))
    ensures !Writes(s, id, req, f) ==> UpdateStep(s, id, req, f) == s
    ensures var s' := UpdateStep(s, id, req, f);
            s'.members == s.members && s'.users == s.users
            && s'.nextAccount == s.nextAccount && s'.nextMember == s.nextMember
  {
  }

  /******* Deleting *******/

  /** The delete reaches the queue store and may delete the queue. */
  ghost predicate AsksToDelete(s: State, id: nat, f: DeleteFaults) {
    && !f.read && !f.write && !f.running && id in s.accounts && !s.accounts[id].deleted
    && forall m :: m in s.members && s.members[m].account == id ==> s.members[m].deleted
  }

  /** A delete marks the row as deleted if and only if the account is live and without a live
      member, its queue exists, has nothing running and is deleted with a reply, and the commit
      works. Nothing else in the tables changes. */
  lemma DeletedAccount(s: State, id: nat, f: DeleteFaults)
    ensures var s' := DeleteStep(s, id, f);
            && s'.members == s.members && s'.users == s.users
            && s'.nextAccount == s.nextAccount && s'.nextMember == s.nextMember
            && if AsksToDelete(s, id, f) && Succeeds(f.client, s.accounts[id].name in s.queues) && !f.commit
               then s'.accounts == s.accounts[id := s.accounts[id].(deleted := true)]
               else s'.accounts == s.accounts
    ensures DeleteCommits(s, id, f) <==>
              AsksToDelete(s, id, f) && Succeeds(f.client, s.accounts[id].name in s.queues) && !f.commit
  {
  }

  /** The queue goes even if its reply is lost or the commit fails, and no other queue does. */
  lemma DeletedQueue(s: State, id: nat, f: DeleteFaults, q: string)
    ensures var s' := DeleteStep(s, id, f);
            && (q in s'.queues ==> q in s.queues && s'.queues[q] == s.queues[q])
            && (q in s.queues && q !in s'.queues <==>
                  AsksToDelete(s, id, f) && q == s.accounts[id].name && TakesEffect(f.client, q in s.queues))
  {
  }

  /******* Members *******/

  /** An add succeeds if account and user exist and role and mode parse; membership is not asked. */
  lemma AddedIff(s: State, account: nat, user: nat, req: MemberReq, fault: bool)
    ensures AddOk(s, account, user, req, fault) <==>
              && account in s.accounts && !s.accounts[account].deleted && user in s.users
              && req.role != None && req.mode != None && !fault
    ensures !AddOk(s, account, user, req, fault) ==> AddStep(s, account, user, req, fault) == s
  {
  }

  /** The new row has the role and the access mode of the request, cut to eight bits, and the
      request's list as capability. Only the members change. */
  lemma AddedMember(s: State, account: nat, user: nat, req: MemberReq, fault: bool)
    requires AddOk(s, account, user, req, fault)
    ensures var s' := AddStep(s, account, user, req, fault);
            && s' == s.(members := s'.members, nextMember := s.nextMember + 1)
            && s.nextMember in s'.members
            && var row := s'.members[s.nextMember];
            && row.account == account && row.user == user && !row.deleted
            && row.role == req.role.value % 256 && row.mode == req.mode.value % 256
            && row.quota.guaranteed == map[] && row.quota.deserved == map[] && Carries(row.quota.capability, req.quota)
    ensures var s' := AddStep(s, account, user, req, fault);
            forall m :: m != s.nextMember ==>
              (m in s'.members <==> m in s.members) && (m in s.members ==> s'.members[m] == s.members[m])
  {
  }

  predicate OfPair(s: State, account: nat, user: nat, m: nat) {
    m in s.members && !s.members[m].deleted && s.members[m].account == account && s.members[m].user == user
  }

  /** The live row of the pair with the smallest id. */
  ghost predicate First(s: State, account: nat, user: nat, m: nat) {
    OfPair(s, account, user, m) && forall k :: OfPair(s, account, user, k) ==> m <= k
  }

  /** A removal marks the first row of the pair as deleted, if account and user exist, there is
      such a row and the write works, and changes nothing else. */
  lemma RemovedMember(s: State, account: nat, user: nat, fault: bool)
    ensures RemoveOk(s, account, user, fault) <==>
              && account in s.accounts && !s.accounts[account].deleted && user in s.users && !fault
              && exists m :: First(s, account, user, m)
    ensures forall m :: RemoveOk(s, account, user, fault) && First(s, account, user, m) ==>
              RemoveStep(s, account, user, fault) == s.(members := s.members[m := s.members[m].(deleted := true)])
    ensures !RemoveOk(s, account, user, fault) ==> RemoveStep(s, account, user, fault) == s
  {
    var rows := Rows(s.members, account, user);
    assert forall m :: m in rows <==> OfPair(s, account, user, m);
    if rows != {} {
      assert First(s, account, user, Least(rows));
    }
    forall m | First(s, account, user, m)
      ensures m in rows && m == Least(rows)
    {
      assert OfPair(s, account, user, Least(rows));
    }
  }

  /******* Views *******/

  /** Row `m` makes the user, who exists, a live member of the account with these rights. */
  predicate Gives(s: State, m: nat, account: nat, user: nat, role: nat, mode: nat, quota: Quota) {
    && OfPair(s, account, user, m) && user in s.users
    && s.members[m].role == role && s.members[m].mode == mode && s.members[m].quota == quota
  }

  /** The inside view shows user, role, access mode and quota of the live rows of the account
      whose user exists, and nothing else. */
  lemma InsideShows(s: State, account: nat, view: seq<InsideRow>, user: nat, role: nat, mode: nat, quota: Quota)
    requires IsInsideView(s, account, view)
    ensures (exists row :: && row in view && row.user == user && row.role == role && row.mode == mode
                           && row.quota == quota)
       <==> exists m :: Gives(s, m, account, user, role, mode, quota)
  {
    if m: nat :| Gives(s, m, account, user, role, mode, quota) {
      assert Joined(s, account, m);
      assert Shown(s.members[m]) in view;
    }
    if row :| row in view && row.user == user && row.role == role && row.mode == mode && row.quota == quota {
      var m :| Joined(s, account, m) && Shown(s.members[m]) == row;
      assert Gives(s, m, account, user, role, mode, quota);
    }
  }

  /** After an add the inside view lists the user with the role and mode of the request. */
  lemma AddedIsShown(s: State, account: nat, user: nat, req: MemberReq, view: seq<InsideRow>)
    requires AddOk(s, account, user, req, false)
    requires IsInsideView(AddStep(s, account, user, req, false), account, view)
    ensures exists row :: && row in view && row.user == user && Carries(row.quota.capability, req.quota)
                          && row.role == req.role.value % 256 && row.mode == req.mode.value % 256
  {
    var s' := AddStep(s, account, user, req, false);
    AddedMember(s, account, user, req, false);
    var row := s'.members[s.nextMember];
    assert Gives(s', s.nextMember, account, user, row.role, row.mode, row.quota);
    InsideShows(s', account, view, user, row.role, row.mode, row.quota);
  }
}
