/**
 * The adapter-factory map of a class: for each target class name, the
 * descriptors to try, in order.  It is built from the descriptors registered
 * directly for the class (in service-reference order), then the maps of its
 * interfaces in declaration order, then the map of its superclass, each
 * appended behind what is already there.
 */
module Resolution {
  import opened Wrappers
  import opened SortedMaps
  import opened Adapters
  import opened Registry

  /** Target class name to candidate descriptors, in trial order. */
  type TargetMap = map<string, seq<AdapterFactoryDescriptor>>

  /** `map.get(target)`, with a missing list read as empty. */
  function ListFor(m: TargetMap, t: string): seq<AdapterFactoryDescriptor> {
    if t in m then m[t] else []
  }

  function Occurrences(t: string, names: seq<string>): (n: nat)
    ensures n > 0 <==> t in names
    decreases |names|
  {
    if names == [] then 0
    else
      assert forall x :: x in names <==> x in names[..|names| - 1] || x == names[|names| - 1];
      Occurrences(t, names[..|names| - 1]) + (if names[|names| - 1] == t then 1 else 0)
  }

  /** `n` copies of `d`. */
  function Repeat(d: AdapterFactoryDescriptor, n: nat): (r: seq<AdapterFactoryDescriptor>)
    ensures |r| == n
    ensures forall x :: x in r ==> x == d
  {
    if n == 0 then [] else Repeat(d, n - 1) + [d]
  }

  /**
   * The inner registration-walk loop: append `d` to the list of every name
   * in `names`, in order, creating the lists that do not exist yet.
   */
  function AddAdapters(m: TargetMap, d: AdapterFactoryDescriptor, names: seq<string>): TargetMap
    decreases |names|
  {
    if names == [] then m
    else
      var prev := AddAdapters(m, d, names[..|names| - 1]);
      var n := names[|names| - 1];
      prev[n := ListFor(prev, n) + [d]]
  }

  /** The walk creates a list for every name it visits and for no other. */
  lemma {:induction false} AddAdaptersKeys(m: TargetMap, d: AdapterFactoryDescriptor, names: seq<string>)
    ensures AddAdapters(m, d, names).Keys == m.Keys + set n | n in names
    decreases |names|
  {
    if names != [] {
      AddAdaptersKeys(m, d, names[..|names| - 1]);
      assert forall x :: x in names <==> x in names[..|names| - 1] || x == names[|names| - 1];
    }
  }

  /** Each target's list grows by one copy of `d` per mention of the target in `names`. */
  lemma {:induction false} AddAdaptersList(m: TargetMap, d: AdapterFactoryDescriptor, names: seq<string>, t: string)
    ensures ListFor(AddAdapters(m, d, names), t) == ListFor(m, t) + Repeat(d, Occurrences(t, names))
    decreases |names|
  {
    if names != [] {
      AddAdaptersList(m, d, names[..|names| - 1], t);
    }
  }

  /** The map of the directly registered descriptors `ds`, visited in order. */
  function DirectMap(ds: seq<AdapterFactoryDescriptor>): TargetMap
    decreases |ds|
  {
    if ds == [] then map[]
    else
      var d := ds[|ds| - 1];
      AddAdapters(DirectMap(ds[..|ds| - 1]), d, d.adapters)
  }

  /** The registry's descriptors for class `c`, in service-reference order. */
  function DirectDescriptors(reg: Registry<AdapterFactoryDescriptor>, c: string): seq<AdapterFactoryDescriptor> {
    Values(EntriesOf(reg, c))
  }

  /** The descriptors among `ds` that name target `t`, once per mention, in visiting order. */
  function DirectFor(ds: seq<AdapterFactoryDescriptor>, t: string): seq<AdapterFactoryDescriptor>
    decreases |ds|
  {
    if ds == [] then []
    else
      var d := ds[|ds| - 1];
      DirectFor(ds[..|ds| - 1], t) + Repeat(d, Occurrences(t, d.adapters))
  }

  /** Every target named by some descriptor of `ds`. */
  function DirectTargets(ds: seq<AdapterFactoryDescriptor>): set<string>
    decreases |ds|
  {
    if ds == [] then {}
    else
      var names := ds[|ds| - 1].adapters;
      DirectTargets(ds[..|ds| - 1]) + set n | n in names
  }

  /**
   * The candidate list of class `c` for target `t`: the descriptors
   * registered directly for `c`, then the candidate lists of its interfaces
   * in declaration order, then that of its superclass.  Inherited candidates
   * are appended even when `c` already has candidates of its own.
   */
  function Candidates(reg: Registry<AdapterFactoryDescriptor>, h: Hierarchy, c: string, t: string): seq<AdapterFactoryDescriptor>
    requires WellFormed(h)
    decreases Rank(h, c), |Parents(h, c)| + 1
  {
    DirectFor(DirectDescriptors(reg, c), t) + ParentCandidates(reg, h, c, t, |Parents(h, c)|)
  }

  /** The candidate lists of the first `n` parents of `c`, concatenated in visiting order. */
  function ParentCandidates(reg: Registry<AdapterFactoryDescriptor>, h: Hierarchy, c: string, t: string, n: nat): seq<AdapterFactoryDescriptor>
    requires WellFormed(h)
    requires n <= |Parents(h, c)|
    decreases Rank(h, c), n
  {
    if n == 0 then []
    else
      var p := Parents(h, c)[n - 1];
      ParentRank(h, c, p);
      ParentCandidates(reg, h, c, t, n - 1) + Candidates(reg, h, p, t)
  }

  /** The targets class `c` can be adapted to: its own and those of all its supertypes. */
  function Targets(reg: Registry<AdapterFactoryDescriptor>, h: Hierarchy, c: string): set<string>
    requires WellFormed(h)
    decreases Rank(h, c), |Parents(h, c)| + 1
  {
    DirectTargets(DirectDescriptors(reg, c)) + ParentTargets(reg, h, c, |Parents(h, c)|)
  }

  function ParentTargets(reg: Registry<AdapterFactoryDescriptor>, h: Hierarchy, c: string, n: nat): set<string>
    requires WellFormed(h)
    requires n <= |Parents(h, c)|
    decreases Rank(h, c), n
  {
    if n == 0 then {}
    else
      var p := Parents(h, c)[n - 1];
      ParentRank(h, c, p);
      ParentTargets(reg, h, c, n - 1) + Targets(reg, h, p)
  }

  /** What `createAdapterFactoryMap(c)` returns, given the registry and the hierarchy. */
  function AdapterFactoryMap(reg: Registry<AdapterFactoryDescriptor>, h: Hierarchy, c: string): TargetMap
    requires WellFormed(h)
  {
    map t | t in Targets(reg, h, c) :: Candidates(reg, h, c, t)
  }

  /**
   * `m` is the map under construction for `c` once the direct registrations
   * and the first `n` parents have been merged in.
   */
  ghost predicate PartialMap(m: TargetMap, reg: Registry<AdapterFactoryDescriptor>, h: Hierarchy, c: string, n: nat)
    requires WellFormed(h)
    requires n <= |Parents(h, c)|
  {
    && m.Keys == DirectTargets(DirectDescriptors(reg, c)) + ParentTargets(reg, h, c, n)
    && forall t :: ListFor(m, t) == DirectFor(DirectDescriptors(reg, c), t) + ParentCandidates(reg, h, c, t, n)
  }

  /** `copyAdapterFactories(dest, src)`: every list of `src` is appended to the list of the same target. */
  ghost predicate Merged(r: TargetMap, dest: TargetMap, src: TargetMap) {
    && r.Keys == dest.Keys + src.Keys
    && forall t :: ListFor(r, t) == ListFor(dest, t) + ListFor(src, t)
  }

  /** `c` and every class reachable from it through interfaces and superclasses. */
  ghost function Supertypes(h: Hierarchy, c: string): set<string>
    requires WellFormed(h)
    decreases Rank(h, c), |Parents(h, c)| + 1
  {
    {c} + ParentSupertypes(h, c, |Parents(h, c)|)
  }

  ghost function ParentSupertypes(h: Hierarchy, c: string, n: nat): set<string>
    requires WellFormed(h)
    requires n <= |Parents(h, c)|
    decreases Rank(h, c), n
  {
    if n == 0 then {}
    else
      var p := Parents(h, c)[n - 1];
      ParentRank(h, c, p);
      ParentSupertypes(h, c, n - 1) + Supertypes(h, p)
  }

  /** Service-reference order: ids never decrease along the list. */
  ghost predicate RefOrdered(ds: seq<AdapterFactoryDescriptor>) {
    forall i, j :: 0 <= i < j < |ds| ==> ds[i].reference.id <= ds[j].reference.id
  }

  /** `d` was registered directly for class `s` and lists target `t` among its adapters. */
  ghost predicate RegisteredFor(reg: Registry<AdapterFactoryDescriptor>, s: string, t: string, d: AdapterFactoryDescriptor) {
    d in DirectDescriptors(reg, s) && t in d.adapters
  }

  /** The registration walk builds, for each target, exactly the direct list of that target. */
  lemma {:induction false} DirectMapLists(ds: seq<AdapterFactoryDescriptor>)
    ensures DirectMap(ds).Keys == DirectTargets(ds)
    ensures forall t :: ListFor(DirectMap(ds), t) == DirectFor(ds, t)
    decreases |ds|
  {
    if ds != [] {
      var init, last := ds[..|ds| - 1], ds[|ds| - 1];
      DirectMapLists(init);
      AddAdaptersKeys(DirectMap(init), last, last.adapters);
      forall t ensures ListFor(DirectMap(ds), t) == DirectFor(ds, t) {
        AddAdaptersList(DirectMap(init), last, last.adapters, t);
      }
    }
  }

  /** The direct list for `t` holds exactly the descriptors of `ds` that name `t`. */
  lemma {:induction false} DirectForMembers(ds: seq<AdapterFactoryDescriptor>, t: string, d: AdapterFactoryDescriptor)
    ensures d in DirectFor(ds, t) <==> d in ds && t in d.adapters
    decreases |ds|
  {
    if ds != [] {
      var init, last := ds[..|ds| - 1], ds[|ds| - 1];
      DirectForMembers(init, t, d);
      assert forall x :: x in ds <==> x in init || x == last;
      var rep := Repeat(last, Occurrences(t, last.adapters));
      assert DirectFor(ds, t) == DirectFor(init, t) + rep;
      if t in last.adapters {
        assert rep[0] in rep;
      }
    }
  }

  /** A target is among the direct targets exactly when its direct list is not empty. */
  lemma {:induction false} DirectTargetsNonEmpty(ds: seq<AdapterFactoryDescriptor>, t: string)
    ensures t in DirectTargets(ds) <==> DirectFor(ds, t) != []
    decreases |ds|
  {
    if ds != [] {
      var last := ds[|ds| - 1];
      DirectTargetsNonEmpty(ds[..|ds| - 1], t);
      assert |Repeat(last, Occurrences(t, last.adapters))| > 0 <==> t in last.adapters;
    }
  }

  /** Visiting descriptors in service-reference order yields direct lists in that order. */
  lemma {:induction false} DirectForOrdered(ds: seq<AdapterFactoryDescriptor>, t: string)
    requires RefOrdered(ds)
    ensures RefOrdered(DirectFor(ds, t))
    decreases |ds|
  {
    if ds != [] {
      var init, last := ds[..|ds| - 1], ds[|ds| - 1];
      DirectForOrdered(init, t);
      var l := DirectFor(init, t);
      var r := Repeat(last, Occurrences(t, last.adapters));
      var lr: seq<AdapterFactoryDescriptor> := l + r;
      assert DirectFor(ds, t) == lr;
      forall i: int, j: int | 0 <= i < j < |lr|
        ensures lr[i].reference.id <= lr[j].reference.id
      {
        if i < |l| <= j {
          DirectForMembers(init, t, l[i]);
          assert l[i] in l;
          var k :| 0 <= k < |init| && init[k] == l[i];
          assert lr[j] in r;
          assert lr[j] == ds[|ds| - 1];
        } else if |l| <= i {
          assert lr[i] in r && lr[j] in r;
        }
      }
    }
  }

  /** A sorted map whose keys are its descriptors' reference ids yields its values in reference order. */
  lemma ValuesOrdered(es: seq<Entry<AdapterFactoryDescriptor>>)
    requires Sorted(es)
    requires forall e :: e in es ==> e.key == e.value.reference.id
    ensures RefOrdered(Values(es))
  {
    ValuesAt(es);
    forall i, j | 0 <= i < j < |es| ensures Values(es)[i].reference.id <= Values(es)[j].reference.id {
      assert es[i] in es && es[j] in es;
    }
  }

  /** A class has an entry for target `t` exactly when it has some candidate for `t`. */
  lemma TargetsNonEmpty(reg: Registry<AdapterFactoryDescriptor>, h: Hierarchy, c: string, t: string)
    requires WellFormed(h)
    ensures t in Targets(reg, h, c) <==> Candidates(reg, h, c, t) != []
  {
    if t in Targets(reg, h, c) {
      var s, d := TargetsSource(reg, h, c, t);
      CandidatesComplete(reg, h, c, t, d, s);
    }
    if Candidates(reg, h, c, t) != [] {
      var d := Candidates(reg, h, c, t)[0];
      var s := CandidatesSource(reg, h, c, t, d);
      TargetsComplete(reg, h, c, t, s, d);
    }
  }

  /** Reading the map of `c` at any target gives the candidate list of that target. */
  lemma FactoryMapLists(reg: Registry<AdapterFactoryDescriptor>, h: Hierarchy, c: string, t: string)
    requires WellFormed(h)
    ensures ListFor(AdapterFactoryMap(reg, h, c), t) == Candidates(reg, h, c, t)
  {
    TargetsNonEmpty(reg, h, c, t);
  }

  /**
   * In the map of `c`, every list starts with the descriptors registered
   * directly for `c` that name the target, in service-reference order; the
   * inherited descriptors follow them.
   */
  lemma DirectFirst(reg: Registry<AdapterFactoryDescriptor>, h: Hierarchy, c: string, t: string)
    requires WellFormed(h) && RegistryInvariant(reg)
    ensures var direct, list := DirectFor(DirectDescriptors(reg, c), t), ListFor(AdapterFactoryMap(reg, h, c), t);
      && |direct| <= |list| && list[..|direct|] == direct
      && RefOrdered(direct)
      && forall d :: d in direct <==> d in DirectDescriptors(reg, c) && t in d.adapters
  {
    FactoryMapLists(reg, h, c, t);
    PrefixOfAppend(DirectFor(DirectDescriptors(reg, c), t), ParentCandidates(reg, h, c, t, |Parents(h, c)|));
    DirectCandidatesOrdered(reg, c, t);
    forall d ensures d in DirectFor(DirectDescriptors(reg, c), t) <==> d in DirectDescriptors(reg, c) && t in d.adapters {
      DirectForMembers(DirectDescriptors(reg, c), t, d);
    }
  }

  /** The descriptors registered directly for `c` that name `t` come in service-reference order. */
  lemma DirectCandidatesOrdered(reg: Registry<AdapterFactoryDescriptor>, c: string, t: string)
    requires RegistryInvariant(reg)
    ensures RefOrdered(DirectFor(DirectDescriptors(reg, c), t))
  {
    var es := EntriesOf(reg, c);
    ValuesOrdered(es);
    DirectForOrdered(Values(es), t);
  }

  lemma PrefixOfAppend<T>(a: seq<T>, b: seq<T>)
    ensures |a| <= |a + b| && (a + b)[..|a|] == a
  {
  }

  /** Before any parent is merged, the map under construction is the direct map. */
  lemma DirectPartial(reg: Registry<AdapterFactoryDescriptor>, h: Hierarchy, c: string)
    requires WellFormed(h)
    ensures PartialMap(DirectMap(DirectDescriptors(reg, c)), reg, h, c, 0)
  {
    DirectMapLists(DirectDescriptors(reg, c));
  }

  /** Merging the map of the next parent advances the construction by one parent. */
  lemma PartialStep(m: TargetMap, r: TargetMap, reg: Registry<AdapterFactoryDescriptor>, h: Hierarchy, c: string, n: nat)
    requires WellFormed(h)
    requires n < |Parents(h, c)|
    requires PartialMap(m, reg, h, c, n)
    requires Merged(r, m, AdapterFactoryMap(reg, h, Parents(h, c)[n]))
    ensures PartialMap(r, reg, h, c, n + 1)
  {
    ParentTargetsStep(reg, h, c, n);
    forall t ensures ListFor(r, t) == DirectFor(DirectDescriptors(reg, c), t) + ParentCandidates(reg, h, c, t, n + 1) {
      ParentListStep(reg, h, c, t, n);
    }
  }

  lemma ParentTargetsStep(reg: Registry<AdapterFactoryDescriptor>, h: Hierarchy, c: string, n: nat)
    requires WellFormed(h)
    requires n < |Parents(h, c)|
    ensures DirectTargets(DirectDescriptors(reg, c)) + ParentTargets(reg, h, c, n + 1)
         == (DirectTargets(DirectDescriptors(reg, c)) + ParentTargets(reg, h, c, n)) + AdapterFactoryMap(reg, h, Parents(h, c)[n]).Keys
  {
    ParentRank(h, c, Parents(h, c)[n]);
  }

  /** One more parent appends its candidate list, read from its map. */
  lemma ParentListStep(reg: Registry<AdapterFactoryDescriptor>, h: Hierarchy, c: string, t: string, n: nat)
    requires WellFormed(h)
    requires n < |Parents(h, c)|
    ensures DirectFor(DirectDescriptors(reg, c), t) + ParentCandidates(reg, h, c, t, n + 1)
         == (DirectFor(DirectDescriptors(reg, c), t) + ParentCandidates(reg, h, c, t, n))
            + ListFor(AdapterFactoryMap(reg, h, Parents(h, c)[n]), t)
  {
    var p := Parents(h, c)[n];
    ParentRank(h, c, p);
    FactoryMapLists(reg, h, p, t);
    assert ParentCandidates(reg, h, c, t, n + 1) == ParentCandidates(reg, h, c, t, n) + Candidates(reg, h, p, t);
    AppendAssoc(DirectFor(DirectDescriptors(reg, c), t), ParentCandidates(reg, h, c, t, n), Candidates(reg, h, p, t));
  }

  /** Once every parent is merged, the map under construction is the map of `c`. */
  lemma PartialComplete(m: TargetMap, reg: Registry<AdapterFactoryDescriptor>, h: Hierarchy, c: string)
    requires WellFormed(h)
    requires PartialMap(m, reg, h, c, |Parents(h, c)|)
    ensures m == AdapterFactoryMap(reg, h, c)
  {
    forall t | t in m ensures m[t] == Candidates(reg, h, c, t) {
      assert ListFor(m, t) == m[t];
    }
  }

  lemma AppendAssoc<T>(a: seq<T>, b: seq<T>, c: seq<T>)
    ensures (a + b) + c == a + (b + c)
  {
  }

  /** A descriptor registered for a supertype of `c` and naming `t` is a candidate of `c` for `t`. */
  lemma {:induction false} CandidatesComplete(reg: Registry<AdapterFactoryDescriptor>, h: Hierarchy, c: string, t: string,
                                              d: AdapterFactoryDescriptor, s: string)
    requires WellFormed(h)
    requires s in Supertypes(h, c) && RegisteredFor(reg, s, t, d)
    ensures d in Candidates(reg, h, c, t)
    decreases Rank(h, c), |Parents(h, c)| + 1
  {
    if s == c {
      DirectForMembers(DirectDescriptors(reg, c), t, d);
    } else {
      ParentCandidatesComplete(reg, h, c, t, d, |Parents(h, c)|, s);
    }
  }

  lemma {:induction false} ParentCandidatesComplete(reg: Registry<AdapterFactoryDescriptor>, h: Hierarchy, c: string, t: string,
                                                    d: AdapterFactoryDescriptor, n: nat, s: string)
    requires WellFormed(h)
    requires n <= |Parents(h, c)|
    requires s in ParentSupertypes(h, c, n) && RegisteredFor(reg, s, t, d)
    ensures d in ParentCandidates(reg, h, c, t, n)
    decreases Rank(h, c), n
  {
    var p := Parents(h, c)[n - 1];
    ParentRank(h, c, p);
    if s in ParentSupertypes(h, c, n - 1) {
      ParentCandidatesComplete(reg, h, c, t, d, n - 1, s);
    } else {
      CandidatesComplete(reg, h, p, t, d, s);
    }
  }

  /** Every candidate of `c` for `t` comes from a supertype it was registered for. */
  lemma {:induction false} CandidatesSource(reg: Registry<AdapterFactoryDescriptor>, h: Hierarchy, c: string, t: string,
                                            d: AdapterFactoryDescriptor) returns (s: string)
    requires WellFormed(h)
    requires d in Candidates(reg, h, c, t)
    ensures s in Supertypes(h, c) && RegisteredFor(reg, s, t, d)
    decreases Rank(h, c), |Parents(h, c)| + 1
  {
    DirectForMembers(DirectDescriptors(reg, c), t, d);
    if d in DirectFor(DirectDescriptors(reg, c), t) {
      s := c;
    } else {
      s := ParentCandidatesSource(reg, h, c, t, d, |Parents(h, c)|);
    }
  }

  lemma {:induction false} ParentCandidatesSource(reg: Registry<AdapterFactoryDescriptor>, h: Hierarchy, c: string, t: string,
                                                  d: AdapterFactoryDescriptor, n: nat) returns (s: string)
    requires WellFormed(h)
    requires n <= |Parents(h, c)|
    requires d in ParentCandidates(reg, h, c, t, n)
    ensures s in ParentSupertypes(h, c, n) && RegisteredFor(reg, s, t, d)
    decreases Rank(h, c), n
  {
    var p := Parents(h, c)[n - 1];
    ParentRank(h, c, p);
    if d in ParentCandidates(reg, h, c, t, n - 1) {
      s := ParentCandidatesSource(reg, h, c, t, d, n - 1);
    } else {
      s := CandidatesSource(reg, h, p, t, d);
    }
  }

  /**
   * A descriptor is a candidate of `c` for `t` exactly when it was registered
   * for `c` or for one of its supertypes and lists `t`.
   */
  lemma CandidatesMembership(reg: Registry<AdapterFactoryDescriptor>, h: Hierarchy, c: string, t: string, d: AdapterFactoryDescriptor)
    requires WellFormed(h)
    ensures d in Candidates(reg, h, c, t) <==> exists s :: s in Supertypes(h, c) && RegisteredFor(reg, s, t, d)
  {
    if d in Candidates(reg, h, c, t) {
      var s := CandidatesSource(reg, h, c, t, d);
    }
    if exists s :: s in Supertypes(h, c) && RegisteredFor(reg, s, t, d) {
      var s :| s in Supertypes(h, c) && RegisteredFor(reg, s, t, d);
      CandidatesComplete(reg, h, c, t, d, s);
    }
  }

  /** A target named by a descriptor registered for a supertype of `c` is a target of `c`. */
  lemma {:induction false} TargetsComplete(reg: Registry<AdapterFactoryDescriptor>, h: Hierarchy, c: string, t: string,
                                           s: string, d: AdapterFactoryDescriptor)
    requires WellFormed(h)
    requires s in Supertypes(h, c) && RegisteredFor(reg, s, t, d)
    ensures t in Targets(reg, h, c)
    decreases Rank(h, c), |Parents(h, c)| + 1
  {
    if s == c {
      var ds := DirectDescriptors(reg, c);
      DirectForMembers(ds, t, d);
      DirectTargetsNonEmpty(ds, t);
    } else {
      ParentTargetsComplete(reg, h, c, t, |Parents(h, c)|, s, d);
    }
  }

  lemma {:induction false} ParentTargetsComplete(reg: Registry<AdapterFactoryDescriptor>, h: Hierarchy, c: string, t: string,
                                                 n: nat, s: string, d: AdapterFactoryDescriptor)
    requires WellFormed(h)
    requires n <= |Parents(h, c)|
    requires s in ParentSupertypes(h, c, n) && RegisteredFor(reg, s, t, d)
    ensures t in ParentTargets(reg, h, c, n)
    decreases Rank(h, c), n
  {
    var p := Parents(h, c)[n - 1];
    ParentRank(h, c, p);
    if s in ParentSupertypes(h, c, n - 1) {
      ParentTargetsComplete(reg, h, c, t, n - 1, s, d);
    } else {
      TargetsComplete(reg, h, p, t, s, d);
    }
  }

  /** Every target of `c` is named by a descriptor registered for one of its supertypes. */
  lemma {:induction false} TargetsSource(reg: Registry<AdapterFactoryDescriptor>, h: Hierarchy, c: string, t: string)
    returns (s: string, d: AdapterFactoryDescriptor)
    requires WellFormed(h)
    requires t in Targets(reg, h, c)
    ensures s in Supertypes(h, c) && RegisteredFor(reg, s, t, d)
    decreases Rank(h, c), |Parents(h, c)| + 1
  {
    var ds := DirectDescriptors(reg, c);
    if t in DirectTargets(ds) {
      DirectTargetsNonEmpty(ds, t);
      s, d := c, DirectFor(ds, t)[0];
      DirectForMembers(ds, t, d);
    } else {
      s, d := ParentTargetsSource(reg, h, c, t, |Parents(h, c)|);
    }
  }

  lemma {:induction false} ParentTargetsSource(reg: Registry<AdapterFactoryDescriptor>, h: Hierarchy, c: string, t: string, n: nat)
    returns (s: string, d: AdapterFactoryDescriptor)
    requires WellFormed(h)
    requires n <= |Parents(h, c)|
    requires t in ParentTargets(reg, h, c, n)
    ensures s in ParentSupertypes(h, c, n) && RegisteredFor(reg, s, t, d)
    decreases Rank(h, c), n
  {
    var p := Parents(h, c)[n - 1];
    ParentRank(h, c, p);
    if t in ParentTargets(reg, h, c, n - 1) {
      s, d := ParentTargetsSource(reg, h, c, t, n - 1);
    } else {
      s, d := TargetsSource(reg, h, p, t);
    }
  }

  /**
   * Class `c` can be adapted to `t` exactly when some descriptor registered
   * for `c` or one of its supertypes names `t`.
   */
  lemma TargetsMembership(reg: Registry<AdapterFactoryDescriptor>, h: Hierarchy, c: string, t: string)
    requires WellFormed(h)
    ensures t in Targets(reg, h, c) <==> exists s, d :: s in Supertypes(h, c) && RegisteredFor(reg, s, t, d)
  {
    if t in Targets(reg, h, c) {
      var s, d := TargetsSource(reg, h, c, t);
    }
    if exists s, d :: s in Supertypes(h, c) && RegisteredFor(reg, s, t, d) {
      var s, d :| s in Supertypes(h, c) && RegisteredFor(reg, s, t, d);
      TargetsComplete(reg, h, c, t, s, d);
    }
  }

  /** Every candidate is a descriptor stored in the registry. */
  lemma CandidatesRegistered(reg: Registry<AdapterFactoryDescriptor>, h: Hierarchy, c: string, t: string)
    requires WellFormed(h)
    ensures forall d :: d in Candidates(reg, h, c, t) ==> d in Registered(reg)
  {
    forall d | d in Candidates(reg, h, c, t) ensures d in Registered(reg) {
      var s := CandidatesSource(reg, h, c, t, d);
      var es := EntriesOf(reg, s);
      ValuesAt(es);
      var i :| 0 <= i < |Values(es)| && Values(es)[i] == d;
      assert es[i] in reg[s];
    }
  }

  /** The interfaces of `c` come first among its parents, so their supertypes are among those of all parents. */
  lemma InterfaceSupertypes(h: Hierarchy, c: string)
    requires WellFormed(h)
    ensures var k := if c in h then |h[c].interfaces| else 0;
      k <= |Parents(h, c)| && ParentSupertypes(h, c, k) <= ParentSupertypes(h, c, |Parents(h, c)|)
  {
    var k := if c in h then |h[c].interfaces| else 0;
    if k < |Parents(h, c)| {
      ParentSupertypesStep(h, c, k);
    }
  }

  /** The supertypes collected from one more parent. */
  lemma ParentSupertypesStep(h: Hierarchy, c: string, n: nat)
    requires WellFormed(h)
    requires n < |Parents(h, c)|
    ensures ParentSupertypes(h, c, n + 1) == ParentSupertypes(h, c, n) + Supertypes(h, Parents(h, c)[n])
  {
    ParentRank(h, c, Parents(h, c)[n]);
  }
}
