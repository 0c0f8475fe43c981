/** The quota view of a user in an account: exact sums over the user's jobs, rounded once,
    merged with the capability of the membership row; and what of it depends on the order in
    which the jobs are fetched. */
module UserQuota {
  import opened Quantities
  import opened Labels
  import opened QuotaResponse
  import opened Options
  import opened Listings
  import opened AccountQuota

  /** Add one job's requests to the running totals. */
  function AddRequests(total: ResourceList, request: ResourceList): ResourceList {
    map name | name in total.Keys + request.Keys ::
      if name !in request then total[name]
      else if name in total then Plus(total[name], request[name])
      else request[name]
  }

  function Total(jobs: seq<ResourceList>): ResourceList {
    if jobs == [] then map[] else AddRequests(Total(jobs[..|jobs| - 1]), jobs[|jobs| - 1])
  }

  /** What one job requests of a resource. */
  function Request(job: ResourceList, name: string): real {
    if name in job then job[name].amount else 0.0
  }

  /** The exact sum of the requests. */
  function Sum(jobs: seq<ResourceList>, name: string): real {
    if jobs == [] then 0.0 else Sum(jobs[..|jobs| - 1], name) + Request(jobs[|jobs| - 1], name)
  }

  function SumOfValues(jobs: seq<ResourceList>, name: string): int {
    if jobs == [] then 0 else SumOfValues(jobs[..|jobs| - 1], name) + Value(Request(jobs[|jobs| - 1], name))
  }

  predicate Requested(jobs: seq<ResourceList>, name: string) {
    exists i :: 0 <= i < |jobs| && name in jobs[i]
  }

  /** The inner loop over one job's request, in arbitrary order. */
  method AddJob(total0: ResourceList, request: ResourceList) returns (total: ResourceList)
    ensures total == AddRequests(total0, request)
  {
    total := total0;
    var left := request.Keys;
    while left != {}
      invariant left <= request.Keys
      invariant total.Keys == total0.Keys + (request.Keys - left)
      invariant forall name :: name in total ==>
                  total[name] == if name !in request || name in left then total0[name]
                                 else if name in total0 then Plus(total0[name], request[name]) else request[name]
      decreases left
    {
      var name :| name in left;
      if name in total {
        total := total[name := Plus(total[name], request[name])];
      } else {
        total := total[name := request[name]];
      }
      left := left - {name};
    }
  }

  method Aggregate(jobs: seq<ResourceList>) returns (total: ResourceList)
    ensures total == Total(jobs)
  {
    total := map[];
    for i := 0 to |jobs|
      invariant total == Total(jobs[..i])
    {
      total := AddJob(total, jobs[i]);
      assert jobs[..i + 1][..i] == jobs[..i];
    }
    assert jobs[..|jobs|] == jobs;
  }

  /** The total of a resource is present if and only if some job requests it, and its amount is
      the exact sum. */
  lemma {:induction false} TotalIsSum(jobs: seq<ResourceList>, name: string)
    ensures name in Total(jobs) <==> Requested(jobs, name)
    ensures name in Total(jobs) ==> Total(jobs)[name].amount == Sum(jobs, name)
    ensures name !in Total(jobs) ==> Sum(jobs, name) == 0.0
  {
    if jobs != [] {
      var n := |jobs| - 1;
      TotalIsSum(jobs[..n], name);
      if Requested(jobs[..n], name) {
        var i :| 0 <= i < n && name in jobs[..n][i];
        assert name in jobs[i];
      }
    }
  }

  /** No job requests a negative amount of the resource. */
  predicate NonNegative(jobs: seq<ResourceList>, name: string) {
    forall i :: 0 <= i < |jobs| && name in jobs[i] ==> jobs[i][name].amount >= 0.0
  }

  lemma {:induction false} ValuesAreAbove(jobs: seq<ResourceList>, name: string)
    requires NonNegative(jobs, name)
    ensures 0.0 <= Sum(jobs, name) <= SumOfValues(jobs, name) as real
  {
    if jobs != [] {
      ValuesAreAbove(jobs[..|jobs| - 1], name);
    }
  }

  /** The table of the view before the accelerators are collected. */
  function UserTable(jobs: seq<ResourceList>, capability: ResourceList): Table {
    Merged(Total(jobs), map[], map[], capability, map[])
  }

  /** One entry of the table. */
  lemma TableAt(jobs: seq<ResourceList>, capability: ResourceList, name: string)
    ensures name in UserTable(jobs, capability) <==> Kept(name) && name in Total(jobs)
    ensures name in UserTable(jobs, capability) ==>
              UserTable(jobs, capability)[name] ==
                Resource(name, Some(BaseOf(Total(jobs)[name])), None, None, Listed(capability, name))
  {
  }

  /** Rounding happens once: the reported amount is the exact sum rounded, so it is less than
      one away from the sum. Requests that are not negative are rounded up, and then the amount
      is never above the sum of the per-job roundings. */
  lemma ReportedAmount(jobs: seq<ResourceList>, capability: ResourceList, name: string)
    requires Kept(name)
    ensures name in UserTable(jobs, capability) <==> Requested(jobs, name)
    ensures Requested(jobs, name) ==>
              var b := UserTable(jobs, capability)[name].used;
              && b.Some? && b.value.amount == Value(Sum(jobs, name))
              && Sum(jobs, name) - 1.0 < b.value.amount as real < Sum(jobs, name) + 1.0
              && (NonNegative(jobs, name) ==>
                    Sum(jobs, name) <= b.value.amount as real && b.value.amount <= SumOfValues(jobs, name))
  {
    TableAt(jobs, capability, name);
    TotalIsSum(jobs, name);
    if NonNegative(jobs, name) {
      ValuesAreAbove(jobs, name);
    }
  }

  /** The last job that asks for the resource while the sum so far is zero. */
  ghost predicate Decides(jobs: seq<ResourceList>, name: string, j: nat) {
    && j < |jobs| && name in jobs[j] && Sum(jobs[..j], name) == 0.0
    && forall k :: j < k < |jobs| && name in jobs[k] ==> Sum(jobs[..k], name) != 0.0
  }

  /** The format of a total is that of the request which decides it. */
  lemma {:induction false} FormatIsDecided(jobs: seq<ResourceList>, name: string) returns (j: nat)
    requires name in Total(jobs)
    ensures Decides(jobs, name, j) && Total(jobs)[name].format == jobs[j][name].format
  {
    var n := |jobs| - 1;
    var init := jobs[..n];
    TotalIsSum(init, name);
    if name in jobs[n] && Sum(init, name) == 0.0 {
      j := n;
    } else {
      j := FormatIsDecided(init, name);
      assert jobs[..j] == init[..j];
      forall k | j < k < |jobs| && name in jobs[k]
        ensures Sum(jobs[..k], name) != 0.0
      {
        if k < n {
          assert jobs[..k] == init[..k] && name in init[k];
        }
      }
    }
  }

  /******* What is shown *******/

  /** The entry has the exact sum of the requests, rounded, in the format of the deciding
      request, the capability of the membership row, and nothing else. */
  ghost predicate Sums(x: Resource, jobs: seq<ResourceList>, capability: ResourceList, name: string) {
    && x.used.Some? && x.used.value.amount == Value(Sum(jobs, name))
    && (forall j: nat :: Decides(jobs, name, j) ==> x.used.value.format == jobs[j][name].format)
    && x.guarantee == None && x.deserved == None && Amount(x.capability, capability, name)
  }

  /** What a total contributes is determined by the requests. */
  lemma SumsIff(x: Resource, jobs: seq<ResourceList>, capability: ResourceList, name: string)
    requires name in Total(jobs)
    ensures Describes(x, name, Total(jobs), map[], map[], capability, map[]) <==> Sums(x, jobs, capability, name)
  {
    TotalIsSum(jobs, name);
    var j := FormatIsDecided(jobs, name);
    forall k: nat | Decides(jobs, name, k)
      ensures k == j
    {
    }
  }

  /** CPU and memory are shown with the sums of the jobs, and empty if no job asks for them. */
  lemma ShownSums(jobs: seq<ResourceList>, capability: ResourceList, r: Response)
    requires IsResponse(UserTable(jobs, capability), r)
    ensures r.cpu.tag == "cpu" && r.memory.tag == "mem"
    ensures if Requested(jobs, "cpu") then Sums(r.cpu, jobs, capability, "cpu")
            else r.cpu == Resource("cpu", None, None, None, None)
    ensures if Requested(jobs, "memory") then Sums(r.memory, jobs, capability, "memory")
            else r.memory == Resource("mem", None, None, None, None)
  {
    ShownCpuAndMemory(Total(jobs), map[], map[], capability, map[], r);
    TotalIsSum(jobs, "cpu");
    TotalIsSum(jobs, "memory");
    if Requested(jobs, "cpu") {
      SumsIff(r.cpu, jobs, capability, "cpu");
    }
    if Requested(jobs, "memory") {
      SumsIff(r.memory, jobs, capability, "memory");
    }
  }

  /** The requested names with a slash that the entry shows, under their label. */
  ghost function SummedAs(x: Resource, jobs: seq<ResourceList>, capability: ResourceList): set<string> {
    set name | name in Total(jobs) && '/' in name && x.tag == LabelOf(name) && Sums(x, jobs, capability, name)
  }

  lemma ShownAreSummed(x: Resource, jobs: seq<ResourceList>, capability: ResourceList)
    ensures ShownAs(x, Total(jobs), map[], map[], capability, map[]) == SummedAs(x, jobs, capability)
  {
    forall name
      ensures name in ShownAs(x, Total(jobs), map[], map[], capability, map[]) <==>
                name in SummedAs(x, jobs, capability)
    {
      if name in Total(jobs) {
        SumsIff(x, jobs, capability, name);
      }
    }
  }

  /** The accelerator list has one entry for each requested name with a slash, under its label
      and with its sum, and no other entry; it is sorted by label. */
  lemma ShownAcceleratorSums(jobs: seq<ResourceList>, capability: ResourceList, r: Response)
    requires IsResponse(UserTable(jobs, capability), r)
    ensures forall x :: multiset(r.gpus)[x] == |SummedAs(x, jobs, capability)|
    ensures |r.gpus| == |set name | name in Total(jobs) && '/' in name|
    ensures forall i, j :: 0 <= i < j < |r.gpus| ==> AtMost(r.gpus[i].tag, r.gpus[j].tag)
  {
    ShownAccelerators(Total(jobs), map[], map[], capability, map[], r);
    forall x
      ensures multiset(r.gpus)[x] == |SummedAs(x, jobs, capability)|
    {
      ShownAreSummed(x, jobs, capability);
    }
  }

  /******* The order of the jobs *******/

  lemma AssociateLast(sum: real, x: real, last: real)
    ensures (sum + x) + last == (sum + last) + x
  {
  }

  lemma SumSnoc(jobs: seq<ResourceList>, last: ResourceList, name: string)
    ensures Sum(jobs + [last], name) == Sum(jobs, name) + Request(last, name)
  {
    assert (jobs + [last])[..|jobs|] == jobs;
  }

  lemma {:induction false} SumWithout(jobs: seq<ResourceList>, i: nat, name: string)
    requires i < |jobs|
    ensures Sum(jobs, name) == Sum(Without(jobs, i), name) + Request(jobs[i], name)
  {
    var n := |jobs| - 1;
    var last := jobs[n];
    if i < n {
      SumWithout(jobs[..n], i, name);
      assert Without(jobs, i) == Without(jobs[..n], i) + [last];
      SumSnoc(Without(jobs[..n], i), last, name);
      AssociateLast(Sum(Without(jobs[..n], i), name), Request(jobs[i], name), Request(last, name));
    } else {
      assert Without(jobs, i) == jobs[..n];
    }
  }

  lemma SameWithout(a: seq<ResourceList>, i: nat, b: seq<ResourceList>, j: nat)
    requires i < |a| && j < |b| && a[i] == b[j] && multiset(a) == multiset(b)
    ensures multiset(Without(a, i)) == multiset(Without(b, j))
  {
    WithoutOne(a, i);
    WithoutOne(b, j);
    assert multiset(Without(a, i)) == multiset(a) - multiset{a[i]} == multiset(Without(b, j));
  }

  /** The sum does not depend on the order of the jobs. */
  lemma {:induction false} SumOrderFree(a: seq<ResourceList>, b: seq<ResourceList>, name: string)
    requires multiset(a) == multiset(b)
    ensures Sum(a, name) == Sum(b, name)
    decreases |a|
  {
    if a == [] {
      assert |multiset(b)| == |b|;
    } else {
      var n := |a| - 1;
      assert a[n] in multiset(b);
      var j :| 0 <= j < |b| && b[j] == a[n];
      SameWithout(a, n, b, j);
      SumOrderFree(Without(a, n), Without(b, j), name);
      SumWithout(a, n, name);
      SumWithout(b, j, name);
    }
  }

  lemma SameRequests(a: seq<ResourceList>, b: seq<ResourceList>, name: string)
    requires multiset(a) == multiset(b)
    ensures Requested(a, name) <==> Requested(b, name)
  {
    if i :| 0 <= i < |a| && name in a[i] {
      assert a[i] in multiset(b);
    }
    if j :| 0 <= j < |b| && name in b[j] {
      assert b[j] in multiset(a);
    }
  }

  /** Which resources are reported, their amounts and their capabilities do not depend on the
      order of the jobs: two tables of the same jobs differ at most in formats. */
  lemma AmountsAreOrderFree(a: seq<ResourceList>, b: seq<ResourceList>, capability: ResourceList)
    requires multiset(a) == multiset(b)
    ensures UserTable(a, capability).Keys == UserTable(b, capability).Keys
    ensures forall name :: name in UserTable(a, capability) ==>
              var r, r' := UserTable(a, capability)[name], UserTable(b, capability)[name];
              && r.used.Some? && r'.used.Some? && r.used.value.amount == r'.used.value.amount
              && r.(used := None) == r'.(used := None)
  {
    forall name
      ensures name in UserTable(a, capability) <==> name in UserTable(b, capability)
      ensures name in UserTable(a, capability) ==>
                var r, r' := UserTable(a, capability)[name], UserTable(b, capability)[name];
                && r.used.Some? && r'.used.Some? && r.used.value.amount == r'.used.value.amount
                && r.(used := None) == r'.(used := None)
    {
      TableAt(a, capability, name);
      TableAt(b, capability, name);
      TotalIsSum(a, name);
      TotalIsSum(b, name);
      SameRequests(a, b, name);
      SumOrderFree(a, b, name);
    }
  }

  predicate AllZero(jobs: seq<ResourceList>, name: string) {
    forall i :: 0 <= i < |jobs| && name in jobs[i] ==> jobs[i][name].amount == 0.0
  }

  /** The request of job `i` can decide the format of the total: it is not zero, or all are. */
  predicate Weighs(jobs: seq<ResourceList>, name: string, i: nat) {
    i < |jobs| && name in jobs[i] && (jobs[i][name].amount != 0.0 || AllZero(jobs, name))
  }

  /** All requests that can decide the format have the same one. */
  ghost predicate Settled(jobs: seq<ResourceList>, name: string) {
    forall i: nat, j: nat :: Weighs(jobs, name, i) && Weighs(jobs, name, j) ==>
      jobs[i][name].format == jobs[j][name].format
  }

  lemma {:induction false} ZeroSumIff(jobs: seq<ResourceList>, name: string)
    requires NonNegative(jobs, name)
    ensures Sum(jobs, name) >= 0.0
    ensures Sum(jobs, name) == 0.0 <==> AllZero(jobs, name)
  {
    if jobs != [] {
      var n := |jobs| - 1;
      ZeroSumIff(jobs[..n], name);
      assert AllZero(jobs, name) <==> AllZero(jobs[..n], name) && Request(jobs[n], name) == 0.0 by {
        forall i | 0 <= i < n
          ensures jobs[..n][i] == jobs[i]
        {
        }
      }
    }
  }

  /** The format of a total is that of a request that can decide it. */
  lemma {:induction false} FormatIsOfSome(jobs: seq<ResourceList>, name: string) returns (i: nat)
    requires NonNegative(jobs, name) && name in Total(jobs)
    ensures Weighs(jobs, name, i) && Total(jobs)[name].format == jobs[i][name].format
  {
    var n := |jobs| - 1;
    var init := jobs[..n];
    ZeroSumIff(init, name);
    TotalIsSum(init, name);
    if name in jobs[n] && (name !in Total(init) || Total(init)[name].amount == 0.0) {
      i := n;
      assert AllZero(init, name);
      assert jobs[n][name].amount != 0.0 || AllZero(jobs, name);
    } else {
      i := FormatIsOfSome(init, name);
      assert init[i] == jobs[i];
      assert name !in jobs[n] && AllZero(init, name) ==> AllZero(jobs, name);
    }
  }

  /** A non-zero request decides the format when its job comes first. */
  lemma {:induction false} FirstDecides(first: ResourceList, rest: seq<ResourceList>, name: string)
    requires name in first && first[name].amount > 0.0 && NonNegative(rest, name)
    ensures var total := Total([first] + rest);
            name in total && total[name].amount > 0.0 && total[name].format == first[name].format
  {
    var jobs := [first] + rest;
    var n := |jobs| - 1;
    if rest == [] {
      assert jobs[..n] == [];
    } else {
      assert jobs[..n] == [first] + rest[..n - 1];
      assert jobs[n] == rest[n - 1];
      FirstDecides(first, rest[..n - 1], name);
    }
  }

  /** Among zero requests the last one decides. */
  lemma LastDecides(init: seq<ResourceList>, last: ResourceList, name: string)
    requires name in last && AllZero(init, name)
    ensures name in Total(init + [last]) && Total(init + [last])[name].format == last[name].format
  {
    assert (init + [last])[..|init|] == init;
    TotalIsSum(init, name);
    ZeroSumIff(init, name);
  }

  /** Every request that can decide the format does so for some order of the jobs. */
  lemma FormatIsReached(jobs: seq<ResourceList>, name: string, i: nat) returns (order: seq<ResourceList>)
    requires NonNegative(jobs, name) && Weighs(jobs, name, i)
    ensures multiset(order) == multiset(jobs)
    ensures name in Total(order) && Total(order)[name].format == jobs[i][name].format
  {
    var rest := Without(jobs, i);
    WithoutOne(jobs, i);
    if jobs[i][name].amount != 0.0 {
      order := [jobs[i]] + rest;
      FirstDecides(jobs[i], rest, name);
    } else {
      order := rest + [jobs[i]];
      LastDecides(rest, jobs[i], name);
    }
  }

  predicate Reorders(order: seq<ResourceList>, jobs: seq<ResourceList>) {
    multiset(order) == multiset(jobs)
  }

  ghost predicate OrderFree(jobs: seq<ResourceList>, capability: ResourceList) {
    forall order :: Reorders(order, jobs) ==> UserTable(order, capability) == UserTable(jobs, capability)
  }

  lemma NonNegativeCarries(a: seq<ResourceList>, b: seq<ResourceList>, name: string)
    requires multiset(a) == multiset(b) && NonNegative(a, name)
    ensures NonNegative(b, name)
  {
    forall j | 0 <= j < |b| && name in b[j]
      ensures b[j][name].amount >= 0.0
    {
      assert b[j] in multiset(a);
    }
  }

  lemma WeighsCarries(a: seq<ResourceList>, b: seq<ResourceList>, name: string, i: nat) returns (j: nat)
    requires multiset(a) == multiset(b) && Weighs(a, name, i)
    ensures Weighs(b, name, j) && b[j] == a[i]
  {
    assert a[i] in multiset(b);
    j :| 0 <= j < |b| && b[j] == a[i];
    if AllZero(a, name) {
      forall k | 0 <= k < |b| && name in b[k]
        ensures b[k][name].amount == 0.0
      {
        assert b[k] in multiset(a);
      }
    }
  }

  /** Reordering the jobs keeps what a settled total is. */
  lemma SettledTotal(jobs: seq<ResourceList>, order: seq<ResourceList>, name: string)
    requires multiset(order) == multiset(jobs) && NonNegative(jobs, name)
    requires Requested(jobs, name) ==> Settled(jobs, name)
    ensures name in Total(order) <==> name in Total(jobs)
    ensures name in Total(jobs) ==> Total(order)[name] == Total(jobs)[name]
  {
    TotalIsSum(jobs, name);
    TotalIsSum(order, name);
    SameRequests(jobs, order, name);
    SumOrderFree(jobs, order, name);
    if name in Total(jobs) {
      NonNegativeCarries(jobs, order, name);
      var i := FormatIsOfSome(jobs, name);
      var j := FormatIsOfSome(order, name);
      var k := WeighsCarries(order, jobs, name, j);
      assert Weighs(jobs, name, i) && Weighs(jobs, name, k);
    }
  }

  /** For each reported resource, the requests that are not zero have one format, and all
      requests do when every one of them is zero. */
  ghost predicate AllSettled(jobs: seq<ResourceList>) {
    forall name :: Kept(name) && Requested(jobs, name) ==> Settled(jobs, name)
  }

  lemma SettledTable(jobs: seq<ResourceList>, order: seq<ResourceList>, capability: ResourceList)
    requires multiset(order) == multiset(jobs) && forall name :: NonNegative(jobs, name)
    requires AllSettled(jobs)
    ensures UserTable(order, capability) == UserTable(jobs, capability)
  {
    var t, t' := UserTable(jobs, capability), UserTable(order, capability);
    forall name
      ensures name in t' <==> name in t
      ensures name in t ==> t'[name] == t[name]
    {
      TableAt(jobs, capability, name);
      TableAt(order, capability, name);
      if Kept(name) {
        SettledTotal(jobs, order, name);
      }
    }
  }

  lemma UnsettledTables(jobs: seq<ResourceList>, capability: ResourceList, name: string)
    returns (a: seq<ResourceList>, b: seq<ResourceList>)
    requires NonNegative(jobs, name) && Kept(name) && !Settled(jobs, name)
    ensures multiset(a) == multiset(jobs) && multiset(b) == multiset(jobs)
    ensures var t, t' := UserTable(a, capability), UserTable(b, capability);
            name in t && name in t' && t[name] != t'[name]
  {
    var i: nat, j: nat :| Weighs(jobs, name, i) && Weighs(jobs, name, j) &&
                          jobs[i][name].format != jobs[j][name].format;
    a := FormatIsReached(jobs, name, i);
    b := FormatIsReached(jobs, name, j);
    TableAt(a, capability, name);
    TableAt(b, capability, name);
  }

  /** The whole table is the same for every order of the jobs if and only if all formats are
      settled. */
  lemma TableOrderFreeIff(jobs: seq<ResourceList>, capability: ResourceList)
    requires forall name :: NonNegative(jobs, name)
    ensures OrderFree(jobs, capability) <==> AllSettled(jobs)
  {
    if AllSettled(jobs) {
      forall order | Reorders(order, jobs)
        ensures UserTable(order, capability) == UserTable(jobs, capability)
      {
        SettledTable(jobs, order, capability);
      }
    } else {
      var name :| Kept(name) && Requested(jobs, name) && !Settled(jobs, name);
      var a, b := UnsettledTables(jobs, capability, name);
      assert Reorders(a, jobs) && Reorders(b, jobs);
    }
  }

  /** Whatever the order of the jobs, of map iteration and of the sort, the response is one. */
  ghost predicate Determined(jobs: seq<ResourceList>, capability: ResourceList) {
    forall a, b, r, r' ::
      && Reorders(a, jobs) && Reorders(b, jobs)
      && IsResponse(UserTable(a, capability), r) && IsResponse(UserTable(b, capability), r')
      ==> r == r'
  }

  lemma DeterminedSettles(jobs: seq<ResourceList>, capability: ResourceList, name: string)
    requires Determined(jobs, capability) && NonNegative(jobs, name) && Kept(name)
    ensures Settled(jobs, name)
  {
    if !Settled(jobs, name) {
      var a, b := UnsettledTables(jobs, capability, name);
      assert Reorders(a, jobs) && Reorders(b, jobs);
      var r := ResponseExists(UserTable(a, capability));
      var r' := ResponseExists(UserTable(b, capability));
      DeterminedIff(UserTable(b, capability));
      EntryIsShown(UserTable(a, capability), UserTable(b, capability), r, name);
      assert false;
    }
  }

  /** The response of the user's view is the same for every order of the jobs, of map iteration
      and of the sort if and only if all formats are settled and accelerators that share a label
      agree in every amount. */
  lemma ResponseDeterminedIff(jobs: seq<ResourceList>, capability: ResourceList)
    requires forall name :: NonNegative(jobs, name)
    ensures Determined(jobs, capability) <==> AllSettled(jobs) && LabelsAgree(UserTable(jobs, capability))
  {
    var t := UserTable(jobs, capability);
    DeterminedIff(t);
    LabelsDecideIff(t);
    if Determined(jobs, capability) {
      assert Reorders(jobs, jobs);
      forall name | Kept(name) && Requested(jobs, name)
        ensures Settled(jobs, name)
      {
        DeterminedSettles(jobs, capability, name);
      }
    } else if AllSettled(jobs) {
      var a, b, r, r' :| Reorders(a, jobs) && Reorders(b, jobs) && r != r'
        && IsResponse(UserTable(a, capability), r) && IsResponse(UserTable(b, capability), r');
      SettledTable(jobs, a, capability);
      SettledTable(jobs, b, capability);
    }
  }

  /** Two jobs that ask for the same amount in different formats are enough. */
  lemma FormatDependsOnOrder()
    ensures var x, y := map[MEMORY := Quantity(1.0, "BinarySI")], map[MEMORY := Quantity(1.0, "DecimalSI")];
            UserTable([x, y], map[]) != UserTable([y, x], map[])
  {
    var x, y := map[MEMORY := Quantity(1.0, "BinarySI")], map[MEMORY := Quantity(1.0, "DecimalSI")];
    FirstDecides(x, [y], MEMORY);
    FirstDecides(y, [x], MEMORY);
    assert [x] + [y] == [x, y] && [y] + [x] == [y, x];
    TableAt([x, y], map[], MEMORY);
    TableAt([y, x], map[], MEMORY);
    assert "BinarySI"[0] == 'B' && "DecimalSI"[0] == 'D';
  }

  /** The capability pass, which here runs over the entries and not over the list. */
  method OverlayKnown(t0: Table, capability: ResourceList) returns (t: Table)
    ensures t == Overlaid(t0, capability, Capability)
  {
    t := t0;
    var left := t0.Keys;
    while left != {}
      invariant left <= t0.Keys
      invariant t == map name | name in t0 ::
                       if name in capability && name !in left
                       then Set(t0[name], Capability, BaseOf(capability[name])) else t0[name]
      decreases left
    {
      var name :| name in left;
      left := left - {name};
      if name !in capability {
        continue;
      }
      t := t[name := t[name].(capability := Some(BaseOf(capability[name])))];
    }
  }

  /** The whole view: None when the user has no membership row. */
  method GetQuota(jobs: seq<ResourceList>, capability: Option<ResourceList>) returns (r: Option<Response>)
    ensures r.None? <==> capability.None?
    ensures r.Some? ==> IsResponse(UserTable(jobs, capability.value), r.value)
  {
    var total := Aggregate(jobs);
    var t := StartTable(total);
    if capability.None? {
      return None;
    }
    t := OverlayKnown(t, capability.value);
    OnePassMerges(total, capability.value);
    var response := BuildResponse(t);
    return Some(response);
  }
}
