/** The quota response shared by the account view and the user view: which resources go where,
    the order of the accelerator list, and when the response is determined by the data. */
module QuotaResponse {
  import opened Labels
  import opened Listings
  import opened Options

  datatype Base = Base(amount: int, format: string)

  datatype Resource = Resource(
    tag: string, used: Option<Base>, guarantee: Option<Base>, deserved: Option<Base>, capability: Option<Base>)

  // Go's zero value, read from a map for a missing key.
  const NO_RESOURCE: Resource := Resource("", None, None, None, None)

  datatype Response = Response(cpu: Resource, memory: Resource, gpus: seq<Resource>)

  type Table = map<string, Resource>

  const CPU: string := "cpu"
  const MEMORY: string := "memory"

  predicate Kept(name: string) {
    name == CPU || name == MEMORY || HasSlash(name)
  }

  function Lookup(t: Table, name: string): Resource {
    if name in t then t[name] else NO_RESOURCE
  }

  function Accelerators(t: Table): set<string> {
    set name | name in t && HasSlash(name)
  }

  function Labelled(t: Table, name: string): Resource {
    var r := Lookup(t, name);
    r.(tag := if |Split(name)| == 2 then Split(name)[1] else r.tag)
  }

  function Image(t: Table, order: seq<string>): (r: seq<Resource>)
    ensures |r| == |order|
  {
    seq(|order|, i requires 0 <= i < |order| => Labelled(t, order[i]))
  }

  lemma ImageWithout(t: Table, order: seq<string>, i: nat)
    requires i < |order|
    ensures multiset(Image(t, order)) == multiset(Image(t, Without(order, i))) + multiset{Labelled(t, order[i])}
  {
    WithoutOne(Image(t, order), i);
    assert Without(Image(t, order), i) == Image(t, Without(order, i));
  }

  /** Two enumerations of the same names have the same entries, as multisets. */
  lemma {:induction false} SameEntries(t: Table, names: set<string>, a: seq<string>, b: seq<string>)
    requires Lists(a, names) && Lists(b, names)
    ensures multiset(Image(t, a)) == multiset(Image(t, b))
    decreases |a|
  {
    if a == [] {
      assert forall i :: 0 <= i < |b| ==> b[i] in names;
      assert names == {};
    } else {
      var x := a[0];
      assert x in b;
      var j :| 0 <= j < |b| && b[j] == x;
      ListsWithout(a, 0, names);
      ListsWithout(b, j, names);
      SameEntries(t, names - {x}, Without(a, 0), Without(b, j));
      ImageWithout(t, a, 0);
      ImageWithout(t, b, j);
    }
  }

  /** The accelerator entries, each name counted once. */
  ghost function Entries(t: Table): multiset<Resource> {
    assert exists order :: Lists(order, Accelerators(t)) by {
      var order := Enumerate(Accelerators(t));
    }
    var order :| Lists(order, Accelerators(t));
    multiset(Image(t, order))
  }

  lemma EntriesOf(t: Table, order: seq<string>)
    requires Lists(order, Accelerators(t))
    ensures multiset(Image(t, order)) == Entries(t)
  {
    var other :| Lists(other, Accelerators(t)) && Entries(t) == multiset(Image(t, other));
    SameEntries(t, Accelerators(t), order, other);
  }

  lemma EntryOf(t: Table, name: string)
    requires name in Accelerators(t)
    ensures Labelled(t, name) in Entries(t)
  {
    var order := Enumerate(Accelerators(t));
    EntriesOf(t, order);
    var i :| 0 <= i < |order| && order[i] == name;
    assert Image(t, order)[i] == Labelled(t, name);
  }

  /** The names among the given ones that have the entry. */
  function Carriers(t: Table, names: set<string>, x: Resource): set<string> {
    set name | name in names && Labelled(t, name) == x
  }

  lemma OneCarrier(t: Table, names: set<string>, name: string, x: Resource)
    requires name in names
    ensures |Carriers(t, names, x)| == |Carriers(t, names - {name}, x)| + if Labelled(t, name) == x then 1 else 0
  {
    var rest := Carriers(t, names - {name}, x);
    assert Carriers(t, names, x) == if Labelled(t, name) == x then rest + {name} else rest;
  }

  lemma {:induction false} ImageCount(t: Table, names: set<string>, order: seq<string>, x: Resource)
    requires Lists(order, names)
    ensures multiset(Image(t, order))[x] == |Carriers(t, names, x)|
    decreases |order|
  {
    if order == [] {
      assert Carriers(t, names, x) == {};
    } else {
      var name := order[0];
      assert name in names;
      ListsWithout(order, 0, names);
      ImageCount(t, names - {name}, Without(order, 0), x);
      ImageWithout(t, order, 0);
      OneCarrier(t, names, name, x);
    }
  }

  /** An entry occurs once for every accelerator that has it. */
  lemma EntryCount(t: Table, x: Resource)
    ensures Entries(t)[x] == |Carriers(t, Accelerators(t), x)|
  {
    var order := Enumerate(Accelerators(t));
    EntriesOf(t, order);
    ImageCount(t, Accelerators(t), order, x);
  }

  lemma EntriesNumber(t: Table)
    ensures |Entries(t)| == |Accelerators(t)|
  {
    var order := Enumerate(Accelerators(t));
    EntriesOf(t, order);
    ListsLength(order, Accelerators(t));
    assert |multiset(Image(t, order))| == |Image(t, order)|;
  }

  predicate Sorted(s: seq<Resource>) {
    forall i, j :: 0 <= i < j < |s| ==> AtMost(s[i].tag, s[j].tag)
  }

  /** What a response to the given table may be. */
  ghost predicate IsResponse(t: Table, r: Response) {
    && r.cpu == Lookup(t, CPU).(tag := "cpu")
    && r.memory == Lookup(t, MEMORY).(tag := "mem")
    && Sorted(r.gpus) && multiset(r.gpus) == Entries(t)
  }

  /** Every resource of the table is shown in exactly one place: CPU, memory or one entry of the
      accelerator list, which has one entry per accelerator. */
  lemma ShownOnce(t: Table, r: Response, name: string)
    requires IsResponse(t, r) && name in t && Kept(name)
    ensures |r.gpus| == |Accelerators(t)|
    ensures || (name == CPU && name != MEMORY && !HasSlash(name) && r.cpu == t[name].(tag := "cpu"))
            || (name != CPU && name == MEMORY && !HasSlash(name) && r.memory == t[name].(tag := "mem"))
            || (name != CPU && name != MEMORY && HasSlash(name) && Labelled(t, name) in r.gpus)
  {
    assert CPU[0] == 'c' && MEMORY[0] == 'm';
    EntriesNumber(t);
    assert |multiset(r.gpus)| == |r.gpus|;
    if HasSlash(name) {
      EntryOf(t, name);
      assert Labelled(t, name) in multiset(r.gpus);
    }
  }

  /******* Sorting *******/

  /** Where an entry goes in a sorted list. */
  method FindPlace(s: seq<Resource>, x: Resource) returns (k: nat)
    requires Sorted(s)
    ensures k <= |s|
    ensures forall i :: 0 <= i < k ==> AtMost(s[i].tag, x.tag)
    ensures forall i :: k <= i < |s| ==> AtMost(x.tag, s[i].tag)
  {
    k := 0;
    while k < |s| && AtMost(s[k].tag, x.tag)
      invariant k <= |s|
      invariant forall i :: 0 <= i < k ==> AtMost(s[i].tag, x.tag)
    {
      k := k + 1;
    }
    if k < |s| {
      AtMostTotal(s[k].tag, x.tag);
      forall i | k <= i < |s|
        ensures AtMost(x.tag, s[i].tag)
      {
        if k < i {
          AtMostTransitive(x.tag, s[k].tag, s[i].tag);
        }
      }
    }
  }

  lemma SortedInsert(s: seq<Resource>, x: Resource, k: nat)
    requires Sorted(s) && k <= |s|
    requires forall i :: 0 <= i < k ==> AtMost(s[i].tag, x.tag)
    requires forall i :: k <= i < |s| ==> AtMost(x.tag, s[i].tag)
    ensures Sorted(s[..k] + [x] + s[k..])
    ensures multiset(s[..k] + [x] + s[k..]) == multiset(s) + multiset{x}
  {
    var r := s[..k] + [x] + s[k..];
    forall i, j | 0 <= i < j < |r|
      ensures AtMost(r[i].tag, r[j].tag)
    {
      assert r[i] == if i < k then s[i] else if i == k then x else s[i - 1];
      assert r[j] == if j < k then s[j] else if j == k then x else s[j - 1];
    }
    assert s == s[..k] + s[k..];
  }

  /** The contract of the library sort: a label-sorted permutation. */
  method SortByLabel(s: seq<Resource>) returns (r: seq<Resource>)
    ensures Sorted(r) && multiset(r) == multiset(s)
  {
    r := [];
    for i := 0 to |s|
      invariant Sorted(r) && multiset(r) == multiset(s[..i])
    {
      var k := FindPlace(r, s[i]);
      SortedInsert(r, s[i], k);
      r := r[..k] + [s[i]] + r[k..];
      assert s[..i + 1] == s[..i] + [s[i]];
    }
    assert s[..|s|] == s;
  }

  lemma {:induction false} PlaceExists(s: seq<Resource>, x: Resource) returns (k: nat)
    requires Sorted(s)
    ensures k <= |s|
    ensures forall i :: 0 <= i < k ==> AtMost(s[i].tag, x.tag)
    ensures forall i :: k <= i < |s| ==> AtMost(x.tag, s[i].tag)
  {
    if s == [] {
      k := 0;
    } else {
      var n := |s| - 1;
      AtMostTotal(s[n].tag, x.tag);
      if AtMost(s[n].tag, x.tag) {
        k := |s|;
        forall i | 0 <= i < n ensures AtMost(s[i].tag, x.tag) {
          AtMostTransitive(s[i].tag, s[n].tag, x.tag);
        }
      } else {
        k := PlaceExists(s[..n], x);
      }
    }
  }

  lemma {:induction false} SortExists(s: seq<Resource>) returns (r: seq<Resource>)
    ensures Sorted(r) && multiset(r) == multiset(s)
  {
    if s == [] {
      r := [];
    } else {
      var n := |s| - 1;
      var rest := SortExists(s[..n]);
      var k := PlaceExists(rest, s[n]);
      SortedInsert(rest, s[n], k);
      r := rest[..k] + [s[n]] + rest[k..];
      assert s == s[..n] + [s[n]];
    }
  }

  /******* Determinism *******/

  /** Entries with the same label are the same. */
  ghost predicate LabelsDecide(bag: multiset<Resource>) {
    forall x, y :: x in bag && y in bag && x.tag == y.tag ==> x == y
  }

  lemma HeadIsLeast(s: seq<Resource>, x: Resource)
    requires s != [] && Sorted(s) && x in multiset(s)
    ensures AtMost(s[0].tag, x.tag)
  {
    var i :| 0 <= i < |s| && s[i] == x;
    AtMostReflexive(x.tag);
  }

  lemma SameHead(a: seq<Resource>, b: seq<Resource>, bag: multiset<Resource>)
    requires a != [] && Sorted(a) && Sorted(b) && multiset(a) == multiset(b)
    requires multiset(a) <= bag && LabelsDecide(bag)
    ensures b != [] && a[0] == b[0]
  {
    assert a[0] in multiset(b);
    assert b[0] in multiset(a);
    HeadIsLeast(a, b[0]);
    HeadIsLeast(b, a[0]);
    AtMostAntisymmetric(a[0].tag, b[0].tag);
  }

  lemma SameTail<T>(a: seq<T>, b: seq<T>)
    requires a != [] && b != [] && a[0] == b[0] && multiset(a) == multiset(b)
    ensures multiset(a[1..]) == multiset(b[1..]) && multiset(a[1..]) <= multiset(a)
  {
    assert a == [a[0]] + a[1..] && b == [b[0]] + b[1..];
    assert multiset(a[1..]) == multiset(a) - multiset{a[0]};
    assert multiset(b[1..]) == multiset(b) - multiset{b[0]};
  }

  lemma SortedTail(s: seq<Resource>)
    requires s != [] && Sorted(s)
    ensures Sorted(s[1..])
  {
  }

  lemma {:induction false} SortedUnique(a: seq<Resource>, b: seq<Resource>, bag: multiset<Resource>)
    requires Sorted(a) && Sorted(b) && multiset(a) == multiset(b)
    requires multiset(a) <= bag && LabelsDecide(bag)
    ensures a == b
  {
    if a != [] {
      SameHead(a, b, bag);
      SameTail(a, b);
      SortedTail(a);
      SortedTail(b);
      SortedUnique(a[1..], b[1..], bag);
      assert a == [a[0]] + a[1..] && b == [b[0]] + b[1..];
    } else {
      assert |multiset(b)| == |b|;
    }
  }

  lemma SwapKeeps(s: seq<Resource>, i: nat, j: nat)
    requires i < |s| && j < |s| && s[i].tag == s[j].tag && Sorted(s)
    ensures Sorted(s[i := s[j]][j := s[i]])
    ensures multiset(s[i := s[j]][j := s[i]]) == multiset(s)
  {
    var r := s[i := s[j]][j := s[i]];
    assert forall k :: 0 <= k < |s| ==> r[k].tag == s[k].tag;
  }

  /** A response with the given accelerator list. */
  function ResponseWith(t: Table, gpus: seq<Resource>): Response {
    Response(Lookup(t, CPU).(tag := "cpu"), Lookup(t, MEMORY).(tag := "mem"), gpus)
  }

  /** Two entries with one label can be listed either way round. */
  lemma TwoResponses(t: Table, x: Resource, y: Resource)
    requires x in Entries(t) && y in Entries(t) && x.tag == y.tag && x != y
    ensures exists r, r' :: IsResponse(t, r) && IsResponse(t, r') && r != r'
  {
    var order := Enumerate(Accelerators(t));
    EntriesOf(t, order);
    var gpus := SortExists(Image(t, order));
    var i :| 0 <= i < |gpus| && gpus[i] == x;
    var j :| 0 <= j < |gpus| && gpus[j] == y;
    SwapKeeps(gpus, i, j);
    var r, r' := ResponseWith(t, gpus), ResponseWith(t, gpus[i := y][j := x]);
    assert IsResponse(t, r) && IsResponse(t, r');
    assert r.gpus[i] == x && r'.gpus[i] == y;
  }

  /** The response does not depend on map iteration or on the sort if and only if accelerators
      that share a label have identical entries. */
  lemma DeterminedIff(t: Table)
    ensures (forall r, r' :: IsResponse(t, r) && IsResponse(t, r') ==> r == r') <==> LabelsDecide(Entries(t))
  {
    if LabelsDecide(Entries(t)) {
      forall r, r' | IsResponse(t, r) && IsResponse(t, r')
        ensures r == r'
      {
        SortedUnique(r.gpus, r'.gpus, Entries(t));
      }
    } else {
      var x, y :| x in Entries(t) && y in Entries(t) && x.tag == y.tag && x != y;
      TwoResponses(t, x, y);
    }
  }

  /** In a table whose entries carry their names, the label of an entry is that of its name. */
  lemma LabelOfEntry(t: Table, name: string)
    requires name in Accelerators(t) && t[name].tag == name
    ensures Labelled(t, name) == t[name].(tag := LabelOf(name))
  {
  }

  lemma NameOf(t: Table, x: Resource) returns (name: string)
    requires x in Entries(t)
    ensures name in Accelerators(t) && Labelled(t, name) == x
  {
    var order := Enumerate(Accelerators(t));
    EntriesOf(t, order);
    var i :| 0 <= i < |order| && Image(t, order)[i] == x;
    name := order[i];
    assert name in order;
  }

  predicate SameAmounts(x: Resource, y: Resource) {
    x.(tag := "") == y.(tag := "")
  }

  lemma SameButTag(x: Resource, y: Resource, tag: string)
    ensures x.(tag := tag) == y.(tag := tag) <==> SameAmounts(x, y)
  {
  }

  /** Accelerators that share a label agree in every amount. */
  ghost predicate LabelsAgree(t: Table) {
    forall a, b :: a in Accelerators(t) && b in Accelerators(t) && LabelOf(a) == LabelOf(b) ==> SameAmounts(t[a], t[b])
  }

  /** The condition on the entries, stated on the names. */
  lemma LabelsDecideIff(t: Table)
    requires forall name :: name in t ==> t[name].tag == name
    ensures LabelsDecide(Entries(t)) <==> LabelsAgree(t)
  {
    if LabelsDecide(Entries(t)) {
      forall a, b | a in Accelerators(t) && b in Accelerators(t) && LabelOf(a) == LabelOf(b)
        ensures SameAmounts(t[a], t[b])
      {
        EntryOf(t, a);
        EntryOf(t, b);
        LabelOfEntry(t, a);
        LabelOfEntry(t, b);
        SameButTag(t[a], t[b], LabelOf(a));
      }
    } else {
      var x, y :| x in Entries(t) && y in Entries(t) && x.tag == y.tag && x != y;
      var a := NameOf(t, x);
      var b := NameOf(t, y);
      LabelOfEntry(t, a);
      LabelOfEntry(t, b);
      SameButTag(t[a], t[b], LabelOf(a));
    }
  }

  lemma ResponseExists(t: Table) returns (r: Response)
    ensures IsResponse(t, r)
  {
    var order := Enumerate(Accelerators(t));
    EntriesOf(t, order);
    var gpus := SortExists(Image(t, order));
    r := ResponseWith(t, gpus);
  }

  /** A response shows every entry of its table: two tables with a common response have the same
      entry for a name, if labels decide in one of them. */
  lemma EntryIsShown(t: Table, t': Table, r: Response, name: string)
    requires IsResponse(t, r) && IsResponse(t', r) && LabelsDecide(Entries(t'))
    requires Kept(name) && name in t && name in t' && t[name].tag == name == t'[name].tag
    ensures t[name] == t'[name]
  {
    if HasSlash(name) {
      EntryOf(t, name);
      EntryOf(t', name);
      assert Entries(t) == Entries(t');
      LabelOfEntry(t, name);
      LabelOfEntry(t', name);
      SameButTag(t[name], t'[name], LabelOf(name));
    } else {
      assert SameAmounts(t[name], t'[name]) by {
        SameButTag(t[name], t'[name], if name == CPU then "cpu" else "mem");
      }
    }
  }

  /** The last part of both handlers: pick CPU and memory, collect the accelerators in map
      order, sort them. */
  method BuildResponse(t: Table) returns (r: Response)
    ensures IsResponse(t, r)
  {
    var cpu := Lookup(t, CPU).(tag := "cpu");
    var memory := Lookup(t, MEMORY).(tag := "mem");
    var gpus: seq<Resource> := [];
    ghost var order: seq<string> := [];
    var left := t.Keys;
    while left != {}
      invariant left <= t.Keys
      invariant Lists(order, Accelerators(t) - left)
      invariant gpus == Image(t, order)
      decreases left
    {
      var name :| name in left;
      if HasSlash(name) {
        var resource := t[name];
        var split := Split(name);
        if |split| == 2 {
          resource := resource.(tag := split[1]);
        }
        gpus, order := gpus + [resource], order + [name];
      }
      left := left - {name};
    }
    assert Accelerators(t) - left == Accelerators(t);
    EntriesOf(t, order);
    gpus := SortByLabel(gpus);
    r := Response(cpu, memory, gpus);
  }
}
