/**
 * The factory registry as a value: a map from adaptable class name to the
 * ordered descriptor map of that class (`descriptors` in the manager), and
 * the two bulk updates that registration and unregistration perform on it.
 */
module Registry {
  import opened Wrappers
  import opened SortedMaps
  import opened Adapters

  type Registry<V> = map<string, seq<Entry<V>>>

  /** The ordered map of class `a`, empty when the class has never been registered. */
  function EntriesOf<V>(reg: Registry<V>, a: string): seq<Entry<V>> {
    if a in reg then reg[a] else []
  }

  ghost predicate AllSorted<V>(reg: Registry<V>) {
    forall a :: a in reg ==> Sorted(reg[a])
  }

  /** Every value stored anywhere in the registry. */
  ghost function Registered<V>(reg: Registry<V>): set<V> {
    set a, e | a in reg && e in reg[a] :: e.value
  }

  /**
   * The registration loop: for each adaptable name in order, fetch the
   * class's map (creating an empty one) and put `v` under `k`.
   */
  function PutAll<V>(reg: Registry<V>, names: seq<string>, k: nat, v: V): (r: Registry<V>)
    requires AllSorted(reg)
    ensures AllSorted(r)
    decreases |names|
  {
    if names == [] then reg
    else
      var prev := PutAll(reg, names[..|names| - 1], k, v);
      var a := names[|names| - 1];
      prev[a := Put(EntriesOf(prev, a), k, v)]
  }

  /**
   * Registration creates the maps of unseen classes, stores `v` under `k` in
   * the map of every listed class and changes nothing else.
   */
  lemma {:induction false} PutAllContents<V>(reg: Registry<V>, names: seq<string>, k: nat, v: V)
    requires AllSorted(reg)
    ensures var r := PutAll(reg, names, k, v);
      && r.Keys == reg.Keys + (set a | a in names)
      && (forall a :: a in names ==> Get(r[a], k) == Some(v))
      && (forall a :: a in reg && a !in names ==> r[a] == reg[a])
      && (forall a, j :: a in r && j != k ==> Get(r[a], j) == Get(EntriesOf(reg, a), j))
      && (forall a, e :: a in r && e in r[a] ==> e == Entry(k, v) || e in EntriesOf(reg, a))
    decreases |names|
  {
    if names != [] {
      var prev := PutAll(reg, names[..|names| - 1], k, v);
      PutAllContents(reg, names[..|names| - 1], k, v);
      PutContents(EntriesOf(prev, names[|names| - 1]), k, v);
      assert forall x :: x in names <==> x in names[..|names| - 1] || x == names[|names| - 1];
    }
  }

  /** What the unregistration loop leaves behind. */
  datatype Removal<V> = Removal(reg: Registry<V>, modified: bool, last: Option<V>)

  /**
   * The unregistration loop: for each adaptable name in order whose map
   * exists, remove key `k`; `modified` records that something was removed
   * and `last` is the value removed last.
   */
  function RemoveAll<V>(reg: Registry<V>, names: seq<string>, k: nat): (out: Removal<V>)
    requires AllSorted(reg)
    ensures AllSorted(out.reg) && out.reg.Keys == reg.Keys
    decreases |names|
  {
    if names == [] then Removal(reg, false, None)
    else
      var prev := RemoveAll(reg, names[..|names| - 1], k);
      var a := names[|names| - 1];
      if a in prev.reg then
        var found := Get(prev.reg[a], k);
        var reg' := prev.reg[a := Remove(prev.reg[a], k)];
        if found.Some? then Removal(reg', true, found)
        else Removal(reg', prev.modified, prev.last)
      else prev
  }

  /**
   * Unregistration takes key `k` out of the map of every listed class and
   * leaves every other key and every other class as it was.
   */
  lemma {:induction false} RemoveAllContents<V>(reg: Registry<V>, names: seq<string>, k: nat)
    requires AllSorted(reg)
    ensures var out := RemoveAll(reg, names, k);
      && (forall a :: a in names && a in reg ==> k !in Keys(out.reg[a]))
      && (forall a :: a in reg && a !in names ==> out.reg[a] == reg[a])
      && (forall a, j :: a in reg && j != k ==> Get(out.reg[a], j) == Get(reg[a], j))
      && (forall a, e :: a in reg && e in out.reg[a] ==> e in reg[a])
    decreases |names|
  {
    if names != [] {
      var prev := RemoveAll(reg, names[..|names| - 1], k);
      RemoveAllContents(reg, names[..|names| - 1], k);
      if names[|names| - 1] in prev.reg {
        RemoveContents(prev.reg[names[|names| - 1]], k);
      }
      assert forall x :: x in names <==> x in names[..|names| - 1] || x == names[|names| - 1];
    }
  }

  /** One class's map after the unregistration loop. */
  lemma RemoveAllAt<V>(reg: Registry<V>, names: seq<string>, k: nat, a: string)
    requires AllSorted(reg)
    requires a in reg
    ensures a in names ==> k !in Keys(RemoveAll(reg, names, k).reg[a])
    ensures a !in names ==> RemoveAll(reg, names, k).reg[a] == reg[a]
  {
    RemoveAllContents(reg, names, k);
  }

  /**
   * Unregistration reports a change exactly when some listed class held the
   * key, and reports a removed value exactly then; otherwise the registry is
   * left as it was.
   */
  lemma {:induction false} RemoveAllOutcome<V>(reg: Registry<V>, names: seq<string>, k: nat)
    requires AllSorted(reg)
    ensures var out := RemoveAll(reg, names, k);
      && (out.modified <==> exists a :: a in names && a in reg && k in Keys(reg[a]))
      && (out.last.Some? <==> out.modified)
      && (!out.modified ==> out.reg == reg)
    decreases |names|
  {
    if names != [] {
      var init := names[..|names| - 1];
      var a := names[|names| - 1];
      assert forall x :: x in names <==> x in init || x == a;
      RemoveAllOutcome(reg, init, k);
      var prev := RemoveAll(reg, init, k);
      if a in prev.reg {
        RemoveAllAt(reg, init, k, a);
        RemoveContents(prev.reg[a], k);
        if !prev.modified && Get(prev.reg[a], k).None? {
          assert prev.reg[a := Remove(prev.reg[a], k)] == prev.reg;
        }
      }
    }
  }

  /** The value reported as removed was stored under the key in some listed class. */
  lemma {:induction false} RemoveAllLast<V>(reg: Registry<V>, names: seq<string>, k: nat)
    requires AllSorted(reg)
    ensures var out := RemoveAll(reg, names, k);
      out.last.Some? ==> exists a :: a in names && a in reg && Get(reg[a], k) == out.last
    decreases |names|
  {
    if names != [] {
      var init := names[..|names| - 1];
      var a := names[|names| - 1];
      assert forall x :: x in names <==> x in init || x == a;
      RemoveAllLast(reg, init, k);
      var prev := RemoveAll(reg, init, k);
      if a in prev.reg && Get(prev.reg[a], k).Some? {
        RemoveAllAt(reg, init, k, a);
      }
    }
  }

  /** The value reported as removed was a registered value. */
  lemma RemovedWasRegistered<V>(reg: Registry<V>, names: seq<string>, k: nat)
    requires AllSorted(reg)
    ensures var out := RemoveAll(reg, names, k);
      out.last.Some? ==> out.last.value in Registered(reg)
  {
    var out := RemoveAll(reg, names, k);
    RemoveAllLast(reg, names, k);
    if out.last.Some? {
      var a :| a in names && a in reg && Get(reg[a], k) == out.last;
      assert Entry(k, out.last.value) in reg[a];
    }
  }

  /** Each descriptor is stored under the id of its own service reference. */
  ghost predicate KeysMatch(reg: Registry<AdapterFactoryDescriptor>) {
    forall a, e :: a in reg && e in reg[a] ==> e.key == e.value.reference.id
  }

  /**
   * Registering valid references one after the other, each with its own
   * descriptor, in order.
   */
  function PutEach(reg: Registry<AdapterFactoryDescriptor>, refs: seq<ServiceRef>, ds: seq<AdapterFactoryDescriptor>): (r: Registry<AdapterFactoryDescriptor>)
    requires AllSorted(reg)
    requires |refs| == |ds|
    requires forall i :: 0 <= i < |refs| ==> !Malformed(refs[i])
    ensures AllSorted(r)
    decreases |refs|
  {
    if refs == [] then reg
    else
      var ref := refs[|refs| - 1];
      assert !Malformed(refs[|refs| - 1]);
      PutAll(PutEach(reg, refs[..|refs| - 1], ds[..|ds| - 1]), ref.adaptables.value, ref.id, ds[|ds| - 1])
  }

  /** Registering one more reference after `refs`. */
  lemma PutEachStep(reg: Registry<AdapterFactoryDescriptor>, refs: seq<ServiceRef>, ds: seq<AdapterFactoryDescriptor>,
                    ref: ServiceRef, d: AdapterFactoryDescriptor)
    requires AllSorted(reg)
    requires |refs| == |ds|
    requires forall i :: 0 <= i < |refs| ==> !Malformed(refs[i])
    requires !Malformed(ref)
    ensures forall i :: 0 <= i < |refs + [ref]| ==> !Malformed((refs + [ref])[i])
    ensures PutEach(reg, refs + [ref], ds + [d]) == PutAll(PutEach(reg, refs, ds), ref.adaptables.value, ref.id, d)
  {
    assert (refs + [ref])[..|refs|] == refs;
    assert (ds + [d])[..|ds|] == ds;
  }

  /** Registering `v` stores no value other than `v` that was not stored before. */
  lemma RegisteredPutAll<V>(reg: Registry<V>, names: seq<string>, k: nat, v: V)
    requires AllSorted(reg)
    ensures Registered(PutAll(reg, names, k, v)) <= Registered(reg) + {v}
  {
    var r := PutAll(reg, names, k, v);
    PutAllContents(reg, names, k, v);
    forall x | x in Registered(r) ensures x in Registered(reg) + {v} {
      var a: string, e: Entry<V> :| a in r && e in r[a] && x == e.value;
      if e != Entry(k, v) {
        assert e in EntriesOf(reg, a);
      }
    }
  }

  /** Unregistering stores nothing new. */
  lemma RegisteredRemoveAll<V>(reg: Registry<V>, names: seq<string>, k: nat)
    requires AllSorted(reg)
    ensures Registered(RemoveAll(reg, names, k).reg) <= Registered(reg)
  {
    var r := RemoveAll(reg, names, k).reg;
    RemoveAllContents(reg, names, k);
    forall x | x in Registered(r) ensures x in Registered(reg) {
      var a: string, e: Entry<V> :| a in r && e in r[a] && x == e.value;
      assert e in reg[a];
    }
  }

  /** The shape the registry keeps: ordered maps, each descriptor under its own reference id. */
  ghost predicate RegistryInvariant(reg: Registry<AdapterFactoryDescriptor>) {
    AllSorted(reg) && KeysMatch(reg)
  }

  /** Registering `d` under its own id keeps the shape. */
  lemma RegisterKeepsInvariant(reg: Registry<AdapterFactoryDescriptor>, names: seq<string>, d: AdapterFactoryDescriptor)
    requires RegistryInvariant(reg)
    ensures RegistryInvariant(PutAll(reg, names, d.reference.id, d))
  {
    PutAllContents(reg, names, d.reference.id, d);
  }

  /** Unregistering keeps the shape. */
  lemma UnregisterKeepsInvariant(reg: Registry<AdapterFactoryDescriptor>, names: seq<string>, k: nat)
    requires RegistryInvariant(reg)
    ensures RegistryInvariant(RemoveAll(reg, names, k).reg)
  {
    RemoveAllContents(reg, names, k);
  }
}
