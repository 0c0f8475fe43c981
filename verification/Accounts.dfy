/** Accounts, memberships and Volcano queues: the tables, the queue store and what each
    handler does to them. Handlers are atomic; every database error, queue-store error and
    failed commit is an input of the step. */
module Accounts {
  import opened Decimal
  import opened Options
  import opened Listings

  type ResourceList = map<string, int>

  /** A stored quota. An absent list and an empty one are stored alike. */
  datatype Quota = Quota(guaranteed: ResourceList, deserved: ResourceList, capability: ResourceList)

  const EMPTY_QUOTA: Quota := Quota(map[], map[], map[])

  function OrEmpty(l: Option<ResourceList>): ResourceList {
    if l.Some? then l.value else map[]
  }

  /** A quota as it arrives in a request, where a list may be absent. */
  datatype QuotaReq = QuotaReq(
    guaranteed: Option<ResourceList>, deserved: Option<ResourceList>, capability: Option<ResourceList>)
  {
    // Go's zero value, which a struct update skips.
    predicate IsZero() { guaranteed.None? && deserved.None? && capability.None? }

    function Stored(): Quota { Quota(OrEmpty(guaranteed), OrEmpty(deserved), OrEmpty(capability)) }
  }

  datatype Account = Account(
    name: string, nickname: string, space: string, quota: Quota, expiredAt: Option<int>, deleted: bool)

  datatype Member = Member(user: nat, account: nat, role: nat, mode: nat, quota: Quota, deleted: bool)

  datatype Queue = Queue(quota: Quota, createdBy: string)

  const ROLE_ADMIN: nat := 3
  const MODE_RW: nat := 3

  /** Deleted rows stay in the tables: the unique indexes on name and space still see them. */
  datatype State = State(
    accounts: map<nat, Account>, members: map<nat, Member>, nextAccount: nat, nextMember: nat,
    users: set<nat>, queues: map<string, Queue>)

  predicate Live(accounts: map<nat, Account>, id: nat) {
    id in accounts && !accounts[id].deleted
  }

  /** Another row has the name or the space. */
  predicate Taken(accounts: map<nat, Account>, id: nat, name: string) {
    exists other :: other in accounts && other != id && (accounts[other].name == name || accounts[other].space == name)
  }

  /** The live membership rows of a user in an account. */
  function Rows(members: map<nat, Member>, account: nat, user: nat): set<nat> {
    set m | m in members && !members[m].deleted && members[m].account == account && members[m].user == user
  }

  function Count(members: map<nat, Member>, account: nat, user: nat): nat {
    |Rows(members, account, user)|
  }

  predicate HasMembers(members: map<nat, Member>, account: nat) {
    exists m :: m in members && !members[m].deleted && members[m].account == account
  }

  /******* Creating an account *******/

  datatype AccountReq = AccountReq(
    nickname: string, quota: QuotaReq, withoutVolcano: bool, admins: seq<nat>, expiredAt: Option<int>)

  /** How a call to the queue store ends: it works, it fails without effect, or it takes effect
      and the caller is told that it failed. */
  datatype Call = Works | Fails | ReplyLost

  // `member` is the index of the membership insert that fails, if any.
  datatype CreateFaults = CreateFaults(insert: bool, member: Option<nat>, update: bool, client: Call, commit: bool)

  datatype CreateReply = Rejected | Failed | Created(id: nat)

  predicate ValidCreate(req: AccountReq) {
    req.nickname != "" && req.admins != []
  }

  /** The queue store makes the new queue. */
  predicate QueueMade(queues: map<string, Queue>, name: string, client: Call) {
    client != Fails && name !in queues
  }

  /** Every database statement of the transaction succeeds. */
  predicate TablesOk(s: State, req: AccountReq, f: CreateFaults) {
    && !f.insert && !Taken(s.accounts, s.nextAccount, "")
    && (f.member.Some? ==> f.member.value >= |req.admins|)
    && !f.update && !Taken(s.accounts, s.nextAccount, QueueName(s.nextAccount))
  }

  /** The create makes a queue in the queue store. */
  predicate CreateActs(s: State, req: AccountReq, f: CreateFaults) {
    && ValidCreate(req) && TablesOk(s, req, f)
    && !req.withoutVolcano && QueueMade(s.queues, QueueName(s.nextAccount), f.client)
  }

  /** The body of the transaction reports success. */
  predicate CreateBodyOk(s: State, req: AccountReq, f: CreateFaults) {
    && TablesOk(s, req, f)
    && (req.withoutVolcano || (QueueMade(s.queues, QueueName(s.nextAccount), f.client) && f.client == Works))
  }

  /** The row as it is first inserted, before its id is known. */
  function BlankAccount(req: AccountReq): Account {
    Account("", req.nickname, "", EMPTY_QUOTA, None, false)
  }

  function NewAccount(id: nat, req: AccountReq): Account {
    Account(QueueName(id), req.nickname, QueueName(id), req.quota.Stored(), req.expiredAt, false)
  }

  function AdminMember(user: nat, account: nat): Member {
    Member(user, account, ROLE_ADMIN, MODE_RW, EMPTY_QUOTA, false)
  }

  /** The rows after one administrator row per listed user, with ids from `base`. */
  function AddAdmins(members: map<nat, Member>, base: nat, admins: seq<nat>, account: nat): map<nat, Member> {
    if admins == [] then members
    else
      var n := |admins| - 1;
      AddAdmins(members, base, admins[..n], account)[base + n := AdminMember(admins[n], account)]
  }

  /** Membership inserts attempted; a failed or rolled-back insert still uses up its id. */
  function Attempts(s: State, req: AccountReq, f: CreateFaults): nat {
    if f.insert || Taken(s.accounts, s.nextAccount, "") then 0
    else if f.member.Some? && f.member.value < |req.admins| then f.member.value + 1
    else |req.admins|
  }

  function CreateStep(s: State, username: string, req: AccountReq, f: CreateFaults): State {
    if !ValidCreate(req) then s
    else
      var id, ok := s.nextAccount, CreateBodyOk(s, req, f);
      State(if ok && !f.commit then s.accounts[id := NewAccount(id, req)] else s.accounts,
            if ok && !f.commit then AddAdmins(s.members, s.nextMember, req.admins, id) else s.members,
            id + 1, s.nextMember + Attempts(s, req, f), s.users,
            if CreateActs(s, req, f) then s.queues[QueueName(id) := Queue(req.quota.Stored(), username)] else s.queues)
  }

  function CreateReplyOf(s: State, req: AccountReq, f: CreateFaults): CreateReply {
    if !ValidCreate(req) then Rejected
    else if CreateBodyOk(s, req, f) && !f.commit then Created(s.nextAccount)
    else Failed
  }

  /******* Updating an account: the table first, then the queue, without a transaction *******/

  datatype UpdateFaults = UpdateFaults(write: bool, client: Call)

  predicate UpdateWrites(s: State, id: nat, req: AccountReq, f: UpdateFaults) {
    req.nickname != "" && Live(s.accounts, id) && !f.write
  }

  predicate UpdateReachesQueue(s: State, id: nat, req: AccountReq, f: UpdateFaults) {
    UpdateWrites(s, id, req, f) && !req.withoutVolcano && f.client != Fails && s.accounts[id].name in s.queues
  }

  predicate UpdateOk(s: State, id: nat, req: AccountReq, f: UpdateFaults) {
    UpdateWrites(s, id, req, f) && (req.withoutVolcano || (UpdateReachesQueue(s, id, req, f) && f.client == Works))
  }

  function MergeAccount(a: Account, req: AccountReq): Account {
    a.(nickname := req.nickname,
       quota := if req.quota.IsZero() then a.quota else req.quota.Stored(),
       expiredAt := if req.expiredAt.Some? then req.expiredAt else a.expiredAt)
  }

  function UpdateStep(s: State, id: nat, req: AccountReq, f: UpdateFaults): State {
    if !UpdateWrites(s, id, req, f) then s
    else
      var a := s.accounts[id];
      s.(accounts := s.accounts[id := MergeAccount(a, req)],
         queues := if UpdateReachesQueue(s, id, req, f)
                   then s.queues[a.name := s.queues[a.name].(quota := req.quota.Stored())]
                   else s.queues)
  }

  /******* Deleting an account *******/

  datatype DeleteFaults = DeleteFaults(read: bool, write: bool, client: Call, running: bool, commit: bool)

  /** The delete removes the queue from the queue store. */
  predicate DeleteActs(s: State, id: nat, f: DeleteFaults) {
    && !f.read && !HasMembers(s.members, id)
    && Live(s.accounts, id) && !f.write
    && s.accounts[id].name in s.queues && !f.running && f.client != Fails
  }

  /** The transaction of the delete commits. */
  predicate DeleteCommits(s: State, id: nat, f: DeleteFaults) {
    DeleteActs(s, id, f) && f.client == Works && !f.commit
  }

  function DeleteStep(s: State, id: nat, f: DeleteFaults): State {
    if !DeleteActs(s, id, f) then s
    else
      var a := s.accounts[id];
      s.(accounts := if DeleteCommits(s, id, f) then s.accounts[id := a.(deleted := true)] else s.accounts,
         queues := s.queues - {a.name})
  }

  /******* Membership *******/

  // A role or access mode that does not parse is None; a parsed one is cut to eight bits.
  datatype MemberReq = MemberReq(role: Option<nat>, mode: Option<nat>, quota: Option<ResourceList>)

  predicate AddOk(s: State, account: nat, user: nat, req: MemberReq, fault: bool) {
    Live(s.accounts, account) && user in s.users && req.role.Some? && req.mode.Some? && !fault
  }

  function NewMember(account: nat, user: nat, req: MemberReq): Member
    requires req.role.Some? && req.mode.Some?
  {
    Member(user, account, req.role.value % 256, req.mode.value % 256, Quota(map[], map[], OrEmpty(req.quota)), false)
  }

  function AddStep(s: State, account: nat, user: nat, req: MemberReq, fault: bool): State {
    if !AddOk(s, account, user, req, fault) then s
    else s.(members := s.members[s.nextMember := NewMember(account, user, req)], nextMember := s.nextMember + 1)
  }

  predicate RemoveOk(s: State, account: nat, user: nat, fault: bool) {
    Live(s.accounts, account) && user in s.users && Rows(s.members, account, user) != {} && !fault
  }

  lemma {:induction false} LeastExists(s: set<nat>, x: nat)
    requires x in s
    ensures exists least :: least in s && forall y :: y in s ==> least <= y
    decreases x
  {
    if exists y :: y in s && y < x {
      var y :| y in s && y < x;
      LeastExists(s, y);
    }
  }

  /** The row that a query ordered by primary key returns first. */
  function Least(s: set<nat>): (x: nat)
    requires s != {}
    ensures x in s && forall y :: y in s ==> x <= y
  {
    assert exists x :: x in s && forall y :: y in s ==> x <= y by {
      var x :| x in s;
      LeastExists(s, x);
    }
    var x :| x in s && forall y :: y in s ==> x <= y;
    x
  }

  function RemoveStep(s: State, account: nat, user: nat, fault: bool): State {
    if !RemoveOk(s, account, user, fault) then s
    else
      var m := Least(Rows(s.members, account, user));
      s.(members := s.members[m := s.members[m].(deleted := true)])
  }

  /******* The two membership views *******/

  // What the inside view shows of a membership row. Name and attributes come from the user row,
  // so the user's id stands for them.
  datatype InsideRow = InsideRow(user: nat, role: nat, mode: nat, quota: Quota)

  function Shown(m: Member): InsideRow {
    InsideRow(m.user, m.role, m.mode, m.quota)
  }

  /** The row belongs to the account's inside view: it is live and its user exists. */
  predicate Joined(s: State, account: nat, m: nat) {
    m in s.members && !s.members[m].deleted && s.members[m].account == account && s.members[m].user in s.users
  }

  /** The inside view: every combination of user, role, mode and quota among the joined rows,
      once. */
  ghost predicate IsInsideView(s: State, account: nat, view: seq<InsideRow>) {
    && Distinct(view)
    && forall row :: row in view <==> exists m :: Joined(s, account, m) && Shown(s.members[m]) == row
  }

  function MemberIds(members: map<nat, Member>, account: nat): set<nat> {
    set m | m in members && !members[m].deleted && members[m].account == account :: members[m].user
  }

  /** The outside view: the existing users whose id is in no live row of the account, once. */
  ghost predicate IsOutsideView(s: State, account: nat, view: seq<nat>) {
    && Distinct(view)
    && forall u :: u in view <==> u in s.users && u !in MemberIds(s.members, account)
  }
}
