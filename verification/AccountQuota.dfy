/** The quota view of an account: five passes over maps, each rewriting one result map in
    place, against a pointwise description of the result. */
module AccountQuota {
  import opened Labels
  import opened Quantities
  import opened QuotaResponse
  import opened Options

  function BaseOf(q: Quantity): Base {
    Base(Value(q.amount), q.format)
  }

  function Listed(list: ResourceList, name: string): Option<Base> {
    if name in list then Some(BaseOf(list[name])) else None
  }

  /** The result: the kept names that are allocated, each with what the other lists say about
      it, the capability falling back to the resource table. `known` holds the rows that the
      table lookup finds. */
  function Merged(used: ResourceList, guarantee: ResourceList, deserved: ResourceList, capability: ResourceList,
                  known: map<string, Base>): Table
  {
    map name | name in used && Kept(name) ::
      Resource(name, Listed(used, name), Listed(guarantee, name), Listed(deserved, name),
               if name in capability then Listed(capability, name)
               else if name in known then Some(known[name]) else None)
  }

  datatype Field = Guarantee | Deserved | Capability

  function Set(r: Resource, field: Field, b: Base): Resource {
    match field
    case Guarantee => r.(guarantee := Some(b))
    case Deserved => r.(deserved := Some(b))
    case Capability => r.(capability := Some(b))
  }

  /** What the single passes do to the result map. */
  function Started(used: ResourceList): Table {
    map name | name in used && Kept(name) :: Resource(name, Listed(used, name), None, None, None)
  }

  function Overlaid(t: Table, list: ResourceList, field: Field): Table {
    map name | name in t :: if name in list then Set(t[name], field, BaseOf(list[name])) else t[name]
  }

  function Filled(t: Table, known: map<string, Base>): Table {
    map name | name in t ::
      if t[name].capability.None? && name in known then t[name].(capability := Some(known[name])) else t[name]
  }

  /** One entry on its way through the passes. */
  lemma PassesMergeAt(t1: Table, t2: Table, t3: Table, t4: Table, t5: Table,
                      used: ResourceList, guarantee: ResourceList, deserved: ResourceList, capability: ResourceList,
                      known: map<string, Base>, name: string)
    requires t1 == Started(used) && t2 == Overlaid(t1, guarantee, Guarantee) && t3 == Overlaid(t2, deserved, Deserved)
    requires t4 == Overlaid(t3, capability, Capability) && t5 == Filled(t4, known)
    requires name in t1
    ensures name in t5 && t5[name] == Merged(used, guarantee, deserved, capability, known)[name]
  {
    assert t2[name] == Resource(name, Listed(used, name), Listed(guarantee, name), None, None);
    assert t3[name] == Resource(name, Listed(used, name), Listed(guarantee, name), Listed(deserved, name), None);
    assert t4[name].capability == Listed(capability, name);
  }

  /** The five passes in sequence refine the pointwise description. */
  lemma PassesMerge(used: ResourceList, guarantee: ResourceList, deserved: ResourceList, capability: ResourceList,
                    known: map<string, Base>)
    ensures Filled(Overlaid(Overlaid(Overlaid(Started(used), guarantee, Guarantee), deserved, Deserved),
                            capability, Capability), known)
         == Merged(used, guarantee, deserved, capability, known)
  {
    var t1 := Started(used);
    var t2 := Overlaid(t1, guarantee, Guarantee);
    var t3 := Overlaid(t2, deserved, Deserved);
    var t4 := Overlaid(t3, capability, Capability);
    var t5, merged := Filled(t4, known), Merged(used, guarantee, deserved, capability, known);
    assert t5.Keys == merged.Keys;
    forall name | name in t1
      ensures t5[name] == merged[name]
    {
      PassesMergeAt(t1, t2, t3, t4, t5, used, guarantee, deserved, capability, known, name);
    }
  }

  /** Lists that are empty change nothing, so the one pass of the user view is enough. */
  lemma OnePassMerges(used: ResourceList, capability: ResourceList)
    ensures Overlaid(Started(used), capability, Capability) == Merged(used, map[], map[], capability, map[])
  {
    var t := Started(used);
    assert Overlaid(t, map[], Guarantee) == t && Overlaid(t, map[], Deserved) == t;
    assert Filled(Overlaid(t, capability, Capability), map[]) == Overlaid(t, capability, Capability);
    PassesMerge(used, map[], map[], capability, map[]);
  }

  /** The first pass: one entry per kept allocated resource. */
  method StartTable(used: ResourceList) returns (t: Table)
    ensures t == Started(used)
  {
    t := map[];
    var left := used.Keys;
    while left != {}
      invariant left <= used.Keys
      invariant t == map name | name in used && name !in left && Kept(name) ::
                       Resource(name, Listed(used, name), None, None, None)
      decreases left
    {
      var name :| name in left;
      if name == CPU || name == MEMORY || HasSlash(name) {
        t := t[name := Resource(name, Some(BaseOf(used[name])), None, None, None)];
      }
      left := left - {name};
    }
  }

  /** Passes two to four: copy one list into one field of the entries already there. */
  method Overlay(t0: Table, list: ResourceList, field: Field) returns (t: Table)
    ensures t == Overlaid(t0, list, field)
  {
    t := t0;
    var left := list.Keys;
    while left != {}
      invariant left <= list.Keys
      invariant t == map name | name in t0 ::
                       if name in list && name !in left then Set(t0[name], field, BaseOf(list[name])) else t0[name]
      decreases left
    {
      var name :| name in left;
      if name in t {
        t := t[name := Set(t[name], field, BaseOf(list[name]))];
      }
      left := left - {name};
    }
  }

  /** The fifth pass: entries without capability take the amount of the resource table. */
  method FillCapability(t0: Table, known: map<string, Base>) returns (t: Table)
    ensures t == Filled(t0, known)
  {
    t := t0;
    var left := t0.Keys;
    while left != {}
      invariant left <= t0.Keys
      invariant t == map name | name in t0 ::
                       if t0[name].capability.None? && name in known && name !in left
                       then t0[name].(capability := Some(known[name])) else t0[name]
      decreases left
    {
      var name :| name in left;
      var resource := t[name];
      if resource.capability.None? {
        if name in known {
          t := t[name := resource.(capability := Some(known[name]))];
        }
      }
      left := left - {name};
    }
  }

  /** The whole view. The maps are visited in arbitrary order; the merged table does not depend
      on it, and the response is one for that table. */
  method GetQuota(used: ResourceList, guarantee: ResourceList, deserved: ResourceList, capability: ResourceList,
                  known: map<string, Base>) returns (r: Response)
    ensures IsResponse(Merged(used, guarantee, deserved, capability, known), r)
  {
    var t := StartTable(used);
    t := Overlay(t, guarantee, Guarantee);
    t := Overlay(t, deserved, Deserved);
    t := Overlay(t, capability, Capability);
    t := FillCapability(t, known);
    PassesMerge(used, guarantee, deserved, capability, known);
    r := BuildResponse(t);
  }

  /******* What is shown *******/

  /** The amount shown is the one in the list, or none. */
  predicate Amount(b: Option<Base>, list: ResourceList, name: string) {
    if name in list then b == Some(Base(Value(list[name].amount), list[name].format)) else b == None
  }

  /** The entry has the amounts that the four lists and the resource table have for the name. */
  predicate Describes(x: Resource, name: string, used: ResourceList, guarantee: ResourceList, deserved: ResourceList,
                      capability: ResourceList, known: map<string, Base>)
  {
    && Amount(x.used, used, name) && Amount(x.guarantee, guarantee, name) && Amount(x.deserved, deserved, name)
    && (name in capability ==> Amount(x.capability, capability, name))
    && (name !in capability ==> x.capability == if name in known then Some(known[name]) else None)
  }

  /** CPU and memory are shown with their amounts when they are allocated, and empty otherwise. */
  lemma ShownCpuAndMemory(used: ResourceList, guarantee: ResourceList, deserved: ResourceList, capability: ResourceList,
                          known: map<string, Base>, r: Response)
    requires IsResponse(Merged(used, guarantee, deserved, capability, known), r)
    ensures r.cpu.tag == "cpu" && r.memory.tag == "mem"
    ensures if "cpu" in used then Describes(r.cpu, "cpu", used, guarantee, deserved, capability, known)
            else r.cpu == Resource("cpu", None, None, None, None)
    ensures if "memory" in used then Describes(r.memory, "memory", used, guarantee, deserved, capability, known)
            else r.memory == Resource("mem", None, None, None, None)
  {
  }

  /** The allocated names with a slash that the entry shows, under their label. */
  function ShownAs(x: Resource, used: ResourceList, guarantee: ResourceList, deserved: ResourceList,
                   capability: ResourceList, known: map<string, Base>): set<string>
  {
    set name | && name in used && '/' in name && x.tag == LabelOf(name)
               && Describes(x, name, used, guarantee, deserved, capability, known)
  }

  lemma EntryDescribes(x: Resource, name: string, used: ResourceList, guarantee: ResourceList, deserved: ResourceList,
                       capability: ResourceList, known: map<string, Base>)
    requires name in used && '/' in name
    ensures var t := Merged(used, guarantee, deserved, capability, known);
            name in Accelerators(t) && t[name].tag == name
            && (t[name].(tag := x.tag) == x <==> Describes(x, name, used, guarantee, deserved, capability, known))
  {
  }

  lemma CarriersAreShown(x: Resource, used: ResourceList, guarantee: ResourceList, deserved: ResourceList,
                         capability: ResourceList, known: map<string, Base>)
    ensures var t := Merged(used, guarantee, deserved, capability, known);
            Carriers(t, Accelerators(t), x) == ShownAs(x, used, guarantee, deserved, capability, known)
  {
    var t := Merged(used, guarantee, deserved, capability, known);
    assert Accelerators(t) == set name | name in used && '/' in name;
    forall name | name in used && '/' in name
      ensures Labelled(t, name) == x <==>
                x.tag == LabelOf(name) && Describes(x, name, used, guarantee, deserved, capability, known)
    {
      EntryDescribes(x, name, used, guarantee, deserved, capability, known);
      LabelOfEntry(t, name);
    }
  }

  /** The accelerator list has one entry for each allocated name with a slash, under its label
      and with its amounts, and no other entry; it is sorted by label. */
  lemma ShownAccelerators(used: ResourceList, guarantee: ResourceList, deserved: ResourceList, capability: ResourceList,
                          known: map<string, Base>, r: Response)
    requires IsResponse(Merged(used, guarantee, deserved, capability, known), r)
    ensures forall x :: multiset(r.gpus)[x] == |ShownAs(x, used, guarantee, deserved, capability, known)|
    ensures |r.gpus| == |set name | name in used && '/' in name|
    ensures forall i, j :: 0 <= i < j < |r.gpus| ==> AtMost(r.gpus[i].tag, r.gpus[j].tag)
  {
    var t := Merged(used, guarantee, deserved, capability, known);
    forall x
      ensures multiset(r.gpus)[x] == |ShownAs(x, used, guarantee, deserved, capability, known)|
    {
      EntryCount(t, x);
      CarriersAreShown(x, used, guarantee, deserved, capability, known);
    }
    EntriesNumber(t);
    assert |multiset(r.gpus)| == |r.gpus|;
    assert Accelerators(t) == set name | name in used && '/' in name;
  }

  /******* When it is determined *******/

  /** Two runs of the view on the same data, with any two iteration orders, give the same
      response if and only if accelerators that share a label agree in every amount. */
  lemma ViewDeterminedIff(used: ResourceList, guarantee: ResourceList, deserved: ResourceList, capability: ResourceList,
                          known: map<string, Base>)
    ensures var t := Merged(used, guarantee, deserved, capability, known);
            (forall r, r' :: IsResponse(t, r) && IsResponse(t, r') ==> r == r') <==>
              forall a, b :: a in used && b in used && HasSlash(a) && HasSlash(b) && LabelOf(a) == LabelOf(b) ==>
                SameAmounts(t[a], t[b])
  {
    var t := Merged(used, guarantee, deserved, capability, known);
    DeterminedIff(t);
    LabelsDecideIff(t);
  }

  lemma LabelClash(used: ResourceList, a: string, b: string)
    requires a in used && b in used && HasSlash(a) && HasSlash(b) && LabelOf(a) == LabelOf(b)
    requires BaseOf(used[a]) != BaseOf(used[b])
    ensures var t := Merged(used, map[], map[], map[], map[]);
            exists r, r' :: IsResponse(t, r) && IsResponse(t, r') && r != r'
  {
    ViewDeterminedIff(used, map[], map[], map[], map[]);
  }

  const SHARED: ResourceList := map["a/x" := Quantity(1.0, "D"), "b/x" := Quantity(2.0, "D")]

  lemma SharedNames()
    ensures HasSlash("a/x") && HasSlash("b/x") && LabelOf("a/x") == LabelOf("b/x") && "a/x" != "b/x"
  {
    assert "a/x" == "a" + "/" + "x" && "b/x" == "b" + "/" + "x";
    LabelAfterSlash("a", "x");
    LabelAfterSlash("b", "x");
    assert "a/x"[0] == 'a' && "b/x"[0] == 'b';
  }

  /** Shared labels do make the response depend on the order: two vendors' resources of one
      name, allocated in different amounts. */
  lemma SharedLabelIsUndetermined()
    ensures var t := Merged(SHARED, map[], map[], map[], map[]);
            exists r, r' :: IsResponse(t, r) && IsResponse(t, r') && r != r'
  {
    SharedNames();
    assert Value(1.0) == 1 && Value(2.0) == 2;
    LabelClash(SHARED, "a/x", "b/x");
  }
}
