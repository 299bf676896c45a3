/**
 * The adapter manager: the registry of adapter factories, the queue of
 * factories bound before activation, the per-class resolution cache and the
 * `getAdapter` lookup, updated in place as the component is activated,
 * bound, unbound and asked for adapters.
 */
module Manager {
  import opened Wrappers
  import opened SortedMaps
  import opened Adapters
  import opened Registry
  import opened Resolution
  import opened Lookup

  /** The Adaption services published by registering `refs` one after the other. */
  function AdaptionsOf(refs: seq<ServiceRef>): multiset<AdaptionRegistration>
    decreases |refs|
  {
    if refs == [] then multiset{}
    else
      var last := refs[|refs| - 1];
      if Malformed(last) then AdaptionsOf(refs[..|refs| - 1])
      else AdaptionsOf(refs[..|refs| - 1]) + multiset{AdaptionFor(last)}
  }

  /** The references of `refs` that registration accepts, in order. */
  function ValidRefs(refs: seq<ServiceRef>): (r: seq<ServiceRef>)
    ensures forall i :: 0 <= i < |r| ==> !Malformed(r[i])
    decreases |refs|
  {
    if refs == [] then []
    else
      var last := refs[|refs| - 1];
      if Malformed(last) then ValidRefs(refs[..|refs| - 1])
      else ValidRefs(refs[..|refs| - 1]) + [last]
  }

  /** The service references of the descriptors `ds`, in order. */
  function ReferencesOf(ds: seq<AdapterFactoryDescriptor>): (refs: seq<ServiceRef>)
    ensures |refs| == |ds|
    decreases |ds|
  {
    if ds == [] then [] else ReferencesOf(ds[..|ds| - 1]) + [ds[|ds| - 1].reference]
  }

  /** Accepting one more reference of the queue. */
  lemma ValidRefsStep(refs: seq<ServiceRef>, i: nat)
    requires i < |refs|
    ensures Malformed(refs[i]) ==> ValidRefs(refs[..i + 1]) == ValidRefs(refs[..i])
    ensures !Malformed(refs[i]) ==> ValidRefs(refs[..i + 1]) == ValidRefs(refs[..i]) + [refs[i]]
  {
    assert refs[..i + 1][..i] == refs[..i];
  }

  /** Registering one more reference of the queue publishes its Adaption if it is accepted. */
  lemma AdaptionsStep(refs: seq<ServiceRef>, i: nat)
    requires i < |refs|
    ensures Malformed(refs[i]) ==> AdaptionsOf(refs[..i + 1]) == AdaptionsOf(refs[..i])
    ensures !Malformed(refs[i]) ==> AdaptionsOf(refs[..i + 1]) == AdaptionsOf(refs[..i]) + multiset{AdaptionFor(refs[i])}
  {
    assert refs[..i + 1][..i] == refs[..i];
  }

  /** Exactly the well-formed references are accepted. */
  lemma {:induction false} ValidRefsMembers(refs: seq<ServiceRef>, x: ServiceRef)
    ensures x in ValidRefs(refs) <==> x in refs && !Malformed(x)
    decreases |refs|
  {
    if refs != [] {
      var init := refs[..|refs| - 1];
      assert refs == init + [refs[|refs| - 1]];
      ValidRefsMembers(init, x);
    }
  }

  /** The service ids of the queued references, in queue order. */
  function Ids(q: seq<ServiceRef>): (r: seq<nat>)
    ensures |r| == |q|
  {
    if q == [] then [] else [q[0].id] + Ids(q[1..])
  }

  /**
   * `List.remove(Object)`: drop the first queued reference to the same
   * service, if any.  Service references are equal when they refer to the
   * same service, whatever its current properties, so the match is by id.
   */
  function RemoveFirst(q: seq<ServiceRef>, ref: ServiceRef): (r: seq<ServiceRef>)
    ensures ref.id !in Ids(q) ==> r == q
    ensures |r| == if ref.id in Ids(q) then |q| - 1 else |q|
  {
    if q == [] then []
    else if q[0].id == ref.id then q[1..]
    else [q[0]] + RemoveFirst(q[1..], ref)
  }

  /** Removal cuts the queue at the first reference to the service and keeps the rest in order. */
  lemma {:induction false} RemoveFirstAt(q: seq<ServiceRef>, ref: ServiceRef, i: nat)
    requires i < |q| && q[i].id == ref.id
    requires forall j :: 0 <= j < i ==> q[j].id != ref.id
    ensures RemoveFirst(q, ref) == q[..i] + q[i + 1..]
  {
    if i > 0 {
      assert q[0].id != ref.id;
      RemoveFirstAt(q[1..], ref, i - 1);
      assert q[..i] == [q[0]] + q[1..][..i - 1];
      assert q[i + 1..] == q[1..][i..];
    }
  }

  /** Removal takes away exactly one reference to the service when there is one. */
  lemma {:induction false} RemoveFirstCount(q: seq<ServiceRef>, ref: ServiceRef)
    ensures multiset(Ids(RemoveFirst(q, ref))) == multiset(Ids(q)) - multiset{ref.id}
  {
    if q != [] && q[0].id != ref.id {
      RemoveFirstCount(q[1..], ref);
      var rest := RemoveFirst(q[1..], ref);
      assert ([q[0]] + rest)[1..] == rest;
    }
  }

  /** Every cached map is the map the registry currently determines. */
  ghost predicate CacheCoherent(cache: map<string, TargetMap>, reg: Registry<AdapterFactoryDescriptor>, h: Hierarchy)
    requires WellFormed(h)
  {
    forall c :: c in cache ==> cache[c] == AdapterFactoryMap(reg, h, c)
  }

  /**
   * A lookup of class `c` through the cache: afterwards `c` is cached with
   * its map, a hit changes nothing, and only `c` and its supertypes were added.
   */
  ghost predicate CacheFilled(before: map<string, TargetMap>, after: map<string, TargetMap>,
                              reg: Registry<AdapterFactoryDescriptor>, h: Hierarchy, c: string)
    requires WellFormed(h)
  {
    && c in after && after[c] == AdapterFactoryMap(reg, h, c)
    && (c in before ==> after == before)
    && before.Keys <= after.Keys <= before.Keys + Supertypes(h, c)
  }

  /** Two rounds of cache filling add no class outside the two bounds. */
  lemma CacheGrowth(before: set<string>, middle: set<string>, after: set<string>, first: set<string>, second: set<string>)
    requires before <= middle <= before + first
    requires middle <= after <= middle + second
    ensures before <= after <= before + (first + second)
  {
  }

  /**
   * The first loop of `createAdapterFactoryMap`: every descriptor of `ds`, in
   * order, is appended to the list of each of its adapter names.
   */
  method BuildDirectMap(ds: seq<AdapterFactoryDescriptor>) returns (afm: TargetMap)
    ensures afm == DirectMap(ds)
  {
    afm := map[];
    var i := 0;
    while i < |ds|
      invariant 0 <= i <= |ds|
      invariant afm == DirectMap(ds[..i])
    {
      afm := AddDescriptor(afm, ds[i]);
      assert ds[..i + 1][..i] == ds[..i];
      i := i + 1;
    }
    assert ds[..i] == ds;
  }

  /** The inner loop: `d` is appended to the list of each of its adapter names, in order. */
  method AddDescriptor(m: TargetMap, d: AdapterFactoryDescriptor) returns (afm: TargetMap)
    ensures afm == AddAdapters(m, d, d.adapters)
  {
    afm := m;
    var adapters := d.adapters;
    var j := 0;
    while j < |adapters|
      invariant 0 <= j <= |adapters|
      invariant afm == AddAdapters(m, d, adapters[..j])
    {
      var adapter := adapters[j];
      var factoryDescriptors := if adapter in afm then afm[adapter] else [];
      afm := afm[adapter := factoryDescriptors + [d]];
      assert adapters[..j + 1][..j] == adapters[..j];
      j := j + 1;
    }
    assert adapters[..j] == adapters;
  }

  /** The innermost copy loop: every descriptor of `ys` is added behind `xs`, in order. */
  method AppendAll(xs: seq<AdapterFactoryDescriptor>, ys: seq<AdapterFactoryDescriptor>) returns (r: seq<AdapterFactoryDescriptor>)
    ensures r == xs + ys
  {
    r := xs;
    var j := 0;
    while j < |ys|
      invariant 0 <= j <= |ys|
      invariant r == xs + ys[..j]
    {
      r := r + [ys[j]];
      assert ys[..j + 1] == ys[..j] + [ys[j]];
      j := j + 1;
    }
    assert ys[..j] == ys;
  }

  /** `r` is `dest` with the lists of the targets of `src` outside `todo` appended. */
  ghost predicate MergedExcept(r: TargetMap, dest: TargetMap, src: TargetMap, todo: set<string>) {
    && todo <= src.Keys
    && (forall t :: t in r <==> t in dest || (t in src && t !in todo))
    && (forall t :: ListFor(r, t) == if t in todo then ListFor(dest, t) else ListFor(dest, t) + ListFor(src, t))
  }

  lemma MergeStep(r: TargetMap, dest: TargetMap, src: TargetMap, todo: set<string>, key: string)
    requires MergedExcept(r, dest, src, todo) && key in todo
    ensures MergedExcept(r[key := ListFor(r, key) + src[key]], dest, src, todo - {key})
  {
    var next := r[key := ListFor(r, key) + src[key]];
    forall t ensures ListFor(next, t) == if t in todo - {key} then ListFor(dest, t) else ListFor(dest, t) + ListFor(src, t) {
      if t != key {
        assert ListFor(next, t) == ListFor(r, t);
      }
    }
  }

  /**
   * The copy loop of `copyAdapterFactories`: the list of every target of
   * `src`, visited in any order, is appended to the list of the same target
   * in `dest`, which is created when missing.  Existing lists are extended,
   * not skipped.
   */
  method MergeInto(dest: TargetMap, src: TargetMap) returns (r: TargetMap)
    ensures Merged(r, dest, src)
  {
    r := dest;
    var todo := src.Keys;
    while todo != {}
      invariant MergedExcept(r, dest, src, todo)
      decreases todo
    {
      var key :| key in todo;
      var factoryDescriptors := if key in r then r[key] else [];
      factoryDescriptors := AppendAll(factoryDescriptors, src[key]);
      MergeStep(r, dest, src, todo, key);
      r := r[key := factoryDescriptors];
      todo := todo - {key};
    }
  }

  /**
   * The loop of `registerAdapterFactory`: `desc` is stored under `k` in the
   * ordered map of every adaptable name, in order, creating missing maps.
   */
  method StoreDescriptor(reg: Registry<AdapterFactoryDescriptor>, adaptables: seq<string>, k: nat, desc: AdapterFactoryDescriptor)
    returns (r: Registry<AdapterFactoryDescriptor>)
    requires AllSorted(reg)
    ensures r == PutAll(reg, adaptables, k, desc)
  {
    r := reg;
    var i := 0;
    while i < |adaptables|
      invariant 0 <= i <= |adaptables|
      invariant r == PutAll(reg, adaptables[..i], k, desc)
    {
      var adaptable := adaptables[i];
      var adfMap := EntriesOf(r, adaptable);
      r := r[adaptable := Put(adfMap, k, desc)];
      assert adaptables[..i + 1][..i] == adaptables[..i];
      i := i + 1;
    }
    assert adaptables[..i] == adaptables;
  }

  /**
   * The loop of `unregisterAdapterFactory`: key `k` is removed from the map
   * of every adaptable name that has one, noting whether anything was
   * removed and the descriptor removed last.
   */
  method RemoveDescriptors(reg: Registry<AdapterFactoryDescriptor>, adaptables: seq<string>, k: nat)
    returns (r: Registry<AdapterFactoryDescriptor>, modified: bool, removed: Option<AdapterFactoryDescriptor>)
    requires AllSorted(reg)
    ensures Removal(r, modified, removed) == RemoveAll(reg, adaptables, k)
  {
    r := reg;
    modified := false;
    removed := None;
    var i := 0;
    while i < |adaptables|
      invariant 0 <= i <= |adaptables|
      invariant Removal(r, modified, removed) == RemoveAll(reg, adaptables[..i], k)
    {
      var adaptable := adaptables[i];
      if adaptable in r {
        var adfMap := r[adaptable];
        var factoryDesc := Get(adfMap, k);
        r := r[adaptable := Remove(adfMap, k)];
        if factoryDesc.Some? {
          modified := true;
          removed := factoryDesc;
        }
      }
      assert adaptables[..i + 1][..i] == adaptables[..i];
      i := i + 1;
    }
    assert adaptables[..i] == adaptables;
  }

  class MockAdapterManager {
    /** The class table that reflection would consult. */
    const hierarchy: Hierarchy
    /** The component context; `None` while the manager is not active. */
    var context: Option<ComponentContext>
    /** `boundAdapterFactories`: references bound before activation, in binding order. */
    var pending: seq<ServiceRef>
    /** Adaptable class name to its descriptors ordered by service reference. */
    var descriptors: Registry<AdapterFactoryDescriptor>
    /** Concrete class name to its adapter-factory map, filled on demand. */
    var factoryCache: map<string, TargetMap>
    /** The Adaption services currently published on behalf of registrations. */
    ghost var published: multiset<AdaptionRegistration>

    /** The class table has no cycles and the registry keeps its shape. */
    ghost predicate RegistryValid()
      reads this`descriptors
    {
      WellFormed(hierarchy) && RegistryInvariant(descriptors)
    }

    /** In addition, every cached map is up to date. */
    ghost predicate Coherent()
      reads this`descriptors, this`factoryCache
    {
      && RegistryValid()
      && CacheCoherent(factoryCache, descriptors, hierarchy)
    }

    /** In addition, every registered descriptor holds its reference's adapter names and its Adaption. */
    ghost predicate Valid()
      reads this`descriptors, this`factoryCache, Registered(descriptors)`adaption
    {
      && Coherent()
      && forall d :: d in Registered(descriptors) ==> d.Registration()
    }

    constructor (hierarchy: Hierarchy)
      requires WellFormed(hierarchy)
      ensures Valid()
      ensures this.hierarchy == hierarchy && context.None? && pending == []
      ensures descriptors == map[] && factoryCache == map[] && published == multiset{}
    {
      this.hierarchy := hierarchy;
      context := None;
      pending := [];
      descriptors := map[];
      factoryCache := map[];
      published := multiset{};
    }

    /**
     * Activation keeps the context, empties the queue and registers the
     * queued references in queue order.
     */
    method Activate(ctx: ComponentContext) returns (ghost created: seq<AdapterFactoryDescriptor>)
      requires Valid()
      modifies this`context, this`pending, this`descriptors, this`factoryCache, this`published
      ensures Valid()
      ensures context == Some(ctx) && pending == []
      ensures ReferencesOf(created) == ValidRefs(old(pending))
      ensures forall d :: d in created ==> fresh(d) && d.context == ctx && d.factory.None? && d.Registration()
      ensures descriptors == PutEach(old(descriptors), ValidRefs(old(pending)), created)
      ensures published == old(published) + AdaptionsOf(old(pending))
      ensures factoryCache == if ValidRefs(old(pending)) == [] then old(factoryCache) else map[]
    {
      context := Some(ctx);
      var refs := pending;
      pending := [];
      created := [];
      var i := 0;
      while i < |refs|
        invariant 0 <= i <= |refs|
        invariant Valid() && context == Some(ctx)
        invariant ActivatedUpTo(refs, i, created, old(descriptors), old(published), old(factoryCache))
        invariant forall d :: d in created ==> fresh(d) && d.context == ctx && d.factory.None? && d.Registration()
        modifies this`descriptors, this`factoryCache, this`published
      {
        created := RegisterQueued(ctx, refs, i, created, old(descriptors), old(published), old(factoryCache));
        i := i + 1;
      }
      assert refs[..i] == refs;
    }

    /**
     * The activation loop has registered `refs[..i]`, creating the
     * descriptors `created`, starting from registry `reg0`, published
     * services `pub0` and cache `cache0`.
     */
    ghost predicate ActivatedUpTo(refs: seq<ServiceRef>, i: nat, created: seq<AdapterFactoryDescriptor>,
                                  reg0: Registry<AdapterFactoryDescriptor>, pub0: multiset<AdaptionRegistration>,
                                  cache0: map<string, TargetMap>)
      reads this`descriptors, this`published, this`factoryCache
    {
      && i <= |refs| && AllSorted(reg0)
      && ReferencesOf(created) == ValidRefs(refs[..i])
      && descriptors == PutEach(reg0, ValidRefs(refs[..i]), created)
      && published == pub0 + AdaptionsOf(refs[..i])
      && factoryCache == if ValidRefs(refs[..i]) == [] then cache0 else map[]
    }

    /** One turn of the activation loop: `refs[i]` is registered and the bookkeeping extended. */
    method RegisterQueued(ctx: ComponentContext, refs: seq<ServiceRef>, i: nat, ghost created: seq<AdapterFactoryDescriptor>,
                          ghost reg0: Registry<AdapterFactoryDescriptor>, ghost pub0: multiset<AdaptionRegistration>,
                          ghost cache0: map<string, TargetMap>)
      returns (ghost next: seq<AdapterFactoryDescriptor>)
      requires Valid() && context == Some(ctx) && i < |refs|
      requires ActivatedUpTo(refs, i, created, reg0, pub0, cache0)
      modifies this`descriptors, this`factoryCache, this`published
      ensures Valid()
      ensures ActivatedUpTo(refs, i + 1, next, reg0, pub0, cache0)
      ensures forall d :: d in next ==> d in created || (fresh(d) && d.context == ctx && d.factory.None? && d.Registration())
    {
      ValidRefsStep(refs, i);
      AdaptionsStep(refs, i);
      ghost var made := RegisterAdapterFactory(ctx, refs[i]);
      if made.Some? {
        PutEachStep(reg0, ValidRefs(refs[..i]), created, refs[i], made.value);
        next := created + [made.value];
        assert next[..|created|] == created;
      } else {
        next := created;
      }
    }

    method Deactivate()
      modifies this`context
      ensures context.None?
    {
      context := None;
    }

    /** Before activation the reference is queued; afterwards it is registered at once. */
    method BindAdapterFactory(ref: ServiceRef) returns (ghost created: Option<AdapterFactoryDescriptor>)
      requires Valid()
      modifies this`pending, this`descriptors, this`factoryCache, this`published
      ensures Valid()
      ensures context.None? ==> pending == old(pending) + [ref] && created.None?
                                && descriptors == old(descriptors) && factoryCache == old(factoryCache)
                                && published == old(published)
      ensures context.Some? ==> pending == old(pending)
      ensures context.Some? && Malformed(ref) ==> created.None? && descriptors == old(descriptors)
                                                  && factoryCache == old(factoryCache) && published == old(published)
      ensures context.Some? && !Malformed(ref) ==>
                && created.Some? && fresh(created.value)
                && created.value.context == context.value && created.value.reference == ref
                && created.value.adapters == ref.adapters.value
                && created.value.factory.None? && created.value.adaption == Some(AdaptionFor(ref))
                && descriptors == PutAll(old(descriptors), ref.adaptables.value, ref.id, created.value)
                && factoryCache == map[]
                && published == old(published) + multiset{AdaptionFor(ref)}
    {
      if context.None? {
        pending := pending + [ref];
        created := None;
      } else {
        created := RegisterAdapterFactory(context.value, ref);
      }
    }

    /** Unbinding drops the reference from the queue and from the maps of its adaptable classes. */
    method UnbindAdapterFactory(ref: ServiceRef)
      requires Valid()
      modifies this`pending, this`descriptors, this`factoryCache, this`published
      ensures Valid()
      ensures pending == RemoveFirst(old(pending), ref)
      ensures descriptors.Keys == old(descriptors).Keys
      ensures !Malformed(ref) ==> forall a :: a in ref.adaptables.value && a in descriptors ==> ref.id !in Keys(descriptors[a])
      ensures forall a, j :: a in descriptors && j != ref.id ==> Get(descriptors[a], j) == Get(old(descriptors)[a], j)
      ensures Malformed(ref) ==> descriptors == old(descriptors) && factoryCache == old(factoryCache)
                                 && published == old(published)
      ensures !Malformed(ref) ==>
                var out := RemoveAll(old(descriptors), ref.adaptables.value, ref.id);
                out.last.Some? ==> out.last.value in Registered(old(descriptors))
      ensures !Malformed(ref) ==>
                var out := RemoveAll(old(descriptors), ref.adaptables.value, ref.id);
                && descriptors == out.reg
                && factoryCache == (if out.modified then map[] else old(factoryCache))
                && published == if out.last.Some? then old(published) - multiset{AdaptionFor(out.last.value.reference)}
                                 else old(published)
    {
      UnregisterAdapterFactory(ref);
      if !Malformed(ref) {
        RemoveAllContents(old(descriptors), ref.adaptables.value, ref.id);
        RemovedWasRegistered(old(descriptors), ref.adaptables.value, ref.id);
      }
    }

    /**
     * A reference with a missing or empty property list is ignored.
     * Otherwise one new descriptor is stored under the reference's id in the
     * map of every adaptable class it lists, the cache is emptied and its
     * Adaption service is published.
     */
    method RegisterAdapterFactory(ctx: ComponentContext, ref: ServiceRef) returns (ghost created: Option<AdapterFactoryDescriptor>)
      requires Valid() && context.Some?
      modifies this`descriptors, this`factoryCache, this`published
      ensures Valid()
      ensures Malformed(ref) ==> created.None? && descriptors == old(descriptors)
                                 && factoryCache == old(factoryCache) && published == old(published)
      ensures !Malformed(ref) ==>
                && created.Some? && fresh(created.value)
                && created.value.context == ctx && created.value.reference == ref
                && created.value.adapters == ref.adapters.value
                && created.value.factory.None? && created.value.adaption == Some(AdaptionFor(ref))
                && descriptors == PutAll(old(descriptors), ref.adaptables.value, ref.id, created.value)
                && factoryCache == map[]
                && published == old(published) + multiset{AdaptionFor(ref)}
    {
      if Malformed(ref) {
        created := None;
        return;
      }
      var adaptables := ref.adaptables.value;
      var desc := new AdapterFactoryDescriptor(ctx, ref, ref.adapters.value);
      descriptors := StoreDescriptor(descriptors, adaptables, ref.id, desc);
      RegisterKeepsInvariant(old(descriptors), adaptables, desc);
      RegisteredPutAll(old(descriptors), adaptables, ref.id, desc);
      factoryCache := map[];
      published := published + multiset{AdaptionFor(ref)};
      desc.SetAdaption(AdaptionFor(ref));
      created := Some(desc);
      forall d | d in Registered(descriptors) ensures d.Registration() {
        if d != desc {
          assert d in Registered(old(descriptors));
        }
      }
    }

    /**
     * The reference leaves the queue and the maps of its adaptable classes;
     * the cache is emptied only when something was removed, and the
     * Adaption service of the descriptor removed last is withdrawn once.
     */
    method UnregisterAdapterFactory(ref: ServiceRef)
      requires Valid()
      modifies this`pending, this`descriptors, this`factoryCache, this`published
      ensures Valid()
      ensures pending == RemoveFirst(old(pending), ref)
      ensures Malformed(ref) ==> descriptors == old(descriptors) && factoryCache == old(factoryCache)
                                 && published == old(published)
      ensures !Malformed(ref) ==>
                var out := RemoveAll(old(descriptors), ref.adaptables.value, ref.id);
                out.last.Some? ==> out.last.value in Registered(old(descriptors))
      ensures !Malformed(ref) ==>
                var out := RemoveAll(old(descriptors), ref.adaptables.value, ref.id);
                && descriptors == out.reg
                && factoryCache == (if out.modified then map[] else old(factoryCache))
                && published == if out.last.Some? then old(published) - multiset{AdaptionFor(out.last.value.reference)}
                                 else old(published)
    {
      pending := RemoveFirst(pending, ref);
      if Malformed(ref) {
        return;
      }
      var adaptables := ref.adaptables.value;
      var modified, removed;
      descriptors, modified, removed := RemoveDescriptors(descriptors, adaptables, ref.id);
      RemoveAllOutcome(old(descriptors), adaptables, ref.id);
      RemovedWasRegistered(old(descriptors), adaptables, ref.id);
      RegisteredRemoveAll(old(descriptors), adaptables, ref.id);
      UnregisterKeepsInvariant(old(descriptors), adaptables, ref.id);
      if modified {
        factoryCache := map[];
      } else {
        assert descriptors == old(descriptors);
      }
      assert RegistryValid();
      if removed.Some? {
        published := published - multiset{removed.value.adaption.value};
      }
    }

    /**
     * The adapter-factory map of class `c`: taken from the cache, or built and
     * cached.  Only `c` and its supertypes get new cache entries, and a hit
     * leaves the cache as it was.
     */
    method GetAdapterFactories(c: string) returns (entry: TargetMap)
      requires Coherent()
      modifies this`factoryCache
      ensures Coherent()
      ensures entry == AdapterFactoryMap(descriptors, hierarchy, c)
      ensures c in factoryCache && factoryCache[c] == entry
      ensures c in old(factoryCache) ==> factoryCache == old(factoryCache)
      ensures old(factoryCache).Keys <= factoryCache.Keys <= old(factoryCache).Keys + Supertypes(hierarchy, c)
      decreases Rank(hierarchy, c), 2
    {
      if c in factoryCache {
        entry := factoryCache[c];
      } else {
        entry := CreateAdapterFactoryMap(c);
        factoryCache := factoryCache[c := entry];
      }
    }

    /**
     * `createAdapterFactoryMap`: the direct registrations of `c` in
     * service-reference order, then the maps of its interfaces, then that of
     * its superclass.
     */
    method CreateAdapterFactoryMap(c: string) returns (afm: TargetMap)
      requires Coherent()
      modifies this`factoryCache
      ensures Coherent()
      ensures afm == AdapterFactoryMap(descriptors, hierarchy, c)
      ensures old(factoryCache).Keys <= factoryCache.Keys <= old(factoryCache).Keys + ParentSupertypes(hierarchy, c, |Parents(hierarchy, c)|)
      decreases Rank(hierarchy, c), 1
    {
      afm := BuildDirectMap(DirectDescriptors(descriptors, c));
      DirectPartial(descriptors, hierarchy, c);
      afm := CopyInterfaces(c, afm);
      ghost var afterInterfaces := factoryCache.Keys;
      afm := CopySuperclass(c, afm);
      ghost var k := if c in hierarchy then |hierarchy[c].interfaces| else 0;
      InterfaceSupertypes(hierarchy, c);
      CacheGrowth(old(factoryCache).Keys, afterInterfaces, factoryCache.Keys,
                  ParentSupertypes(hierarchy, c, k), ParentSupertypes(hierarchy, c, |Parents(hierarchy, c)|));
      PartialComplete(afm, descriptors, hierarchy, c);
    }

    /** The interface loop of `createAdapterFactoryMap`: the maps of the interfaces of `c`, in declaration order. */
    method CopyInterfaces(c: string, start: TargetMap) returns (afm: TargetMap)
      requires Coherent()
      requires PartialMap(start, descriptors, hierarchy, c, 0)
      modifies this`factoryCache
      ensures Coherent()
      ensures var n := if c in hierarchy then |hierarchy[c].interfaces| else 0;
        n <= |Parents(hierarchy, c)| && PartialMap(afm, descriptors, hierarchy, c, n)
        && old(factoryCache).Keys <= factoryCache.Keys <= old(factoryCache).Keys + ParentSupertypes(hierarchy, c, n)
      decreases Rank(hierarchy, c), 0
    {
      afm := start;
      var interfaces := if c in hierarchy then hierarchy[c].interfaces else [];
      var k := 0;
      while k < |interfaces|
        invariant 0 <= k <= |interfaces| <= |Parents(hierarchy, c)|
        invariant Coherent()
        invariant PartialMap(afm, descriptors, hierarchy, c, k)
        invariant old(factoryCache).Keys <= factoryCache.Keys <= old(factoryCache).Keys + ParentSupertypes(hierarchy, c, k)
      {
        assert interfaces[k] == Parents(hierarchy, c)[k];
        ParentRank(hierarchy, c, interfaces[k]);
        ghost var before := factoryCache.Keys;
        var merged := CopyAdapterFactories(afm, interfaces[k]);
        PartialStep(afm, merged, descriptors, hierarchy, c, k);
        ParentSupertypesStep(hierarchy, c, k);
        CacheGrowth(old(factoryCache).Keys, before, factoryCache.Keys,
                    ParentSupertypes(hierarchy, c, k), Supertypes(hierarchy, interfaces[k]));
        afm := merged;
        k := k + 1;
      }
    }

    /** The superclass step of `createAdapterFactoryMap`: the map of the superclass of `c`, if it has one. */
    method CopySuperclass(c: string, start: TargetMap) returns (afm: TargetMap)
      requires Coherent()
      requires var k := if c in hierarchy then |hierarchy[c].interfaces| else 0;
        k <= |Parents(hierarchy, c)| && PartialMap(start, descriptors, hierarchy, c, k)
      modifies this`factoryCache
      ensures Coherent()
      ensures PartialMap(afm, descriptors, hierarchy, c, |Parents(hierarchy, c)|)
      ensures old(factoryCache).Keys <= factoryCache.Keys <= old(factoryCache).Keys + ParentSupertypes(hierarchy, c, |Parents(hierarchy, c)|)
      decreases Rank(hierarchy, c), 0
    {
      afm := start;
      var k := if c in hierarchy then |hierarchy[c].interfaces| else 0;
      var superclass := if c in hierarchy then hierarchy[c].superclass else None;
      if superclass.Some? {
        assert superclass.value == Parents(hierarchy, c)[k];
        ParentRank(hierarchy, c, superclass.value);
        afm := CopyAdapterFactories(start, superclass.value);
        PartialStep(start, afm, descriptors, hierarchy, c, k);
        ParentSupertypesStep(hierarchy, c, k);
      }
    }

    /** `copyAdapterFactories`: the map of `clazz`, fetched through the cache, merged into `dest`. */
    method CopyAdapterFactories(dest: TargetMap, clazz: string) returns (r: TargetMap)
      requires Coherent()
      modifies this`factoryCache
      ensures Coherent()
      ensures Merged(r, dest, AdapterFactoryMap(descriptors, hierarchy, clazz))
      ensures old(factoryCache).Keys <= factoryCache.Keys <= old(factoryCache).Keys + Supertypes(hierarchy, clazz)
      decreases Rank(hierarchy, clazz), 3
    {
      var scMap := GetAdapterFactories(clazz);
      r := MergeInto(dest, scMap);
    }

    /** The first step of `getAdapter`: the list for `target` in the map of `className`, fetched through the cache. */
    method CandidateList(className: string, target: string) returns (descList: seq<AdapterFactoryDescriptor>)
      requires Valid()
      modifies this`factoryCache
      ensures Valid()
      ensures descList == Candidates(descriptors, hierarchy, className, target)
      ensures forall d :: d in descList ==> d in Registered(descriptors)
      ensures CacheFilled(old(factoryCache), factoryCache, descriptors, hierarchy, className)
    {
      var factories := GetAdapterFactories(className);
      descList := ListFor(factories, target);
      FactoryMapLists(descriptors, hierarchy, className, target);
      CandidatesRegistered(descriptors, hierarchy, className, target);
    }

    /**
     * `getAdapter`: try the candidates of the object's class for `type` in
     * order and return the first adapter produced.  Locating a factory may
     * fill a descriptor's factory field, but never changes which factory it
     * hands out.
     */
    method GetAdapter(adaptable: Obj, target: string) returns (r: Option<Obj>)
      requires Valid()
      modifies this`factoryCache, Registered(descriptors)`factory
      ensures Valid()
      ensures r == FirstSuccess(old(Factories(Candidates(descriptors, hierarchy, adaptable.className, target))), adaptable, target)
      ensures forall d :: d in Registered(descriptors) ==> d.CurrentFactory() == old(d.CurrentFactory())
      ensures CacheFilled(old(factoryCache), factoryCache, descriptors, hierarchy, adaptable.className)
    {
      ghost var before := Factories(Candidates(descriptors, hierarchy, adaptable.className, target));
      var descList := CandidateList(adaptable.className, target);
      assert Factories(descList) == before;
      r := TryCandidates(descList, adaptable, target);
    }

    /** The second step of `getAdapter`: the loop over registered candidates, which leaves the invariant intact. */
    method TryCandidates(descList: seq<AdapterFactoryDescriptor>, adaptable: Obj, target: string) returns (r: Option<Obj>)
      requires Valid()
      requires forall d :: d in descList ==> d in Registered(descriptors)
      modifies Registered(descriptors)`factory
      ensures Valid()
      ensures r == FirstSuccess(old(Factories(descList)), adaptable, target)
      ensures forall d :: d in Registered(descriptors) ==> d.CurrentFactory() == old(d.CurrentFactory())
    {
      r := TryFactories(descList, adaptable, target);
    }
  }
}
