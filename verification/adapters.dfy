/**
 * The entities the adapter manager works with: adaptable objects, service
 * references to adapter factories, the class hierarchy the resolver walks,
 * the component context that locates factory services, and the descriptor
 * that the registry stores for each registered factory.
 */
module Adapters {
  import opened Wrappers

  /** A Java object: its runtime class name and an identity. */
  datatype Obj = Obj(className: string, identity: nat)

  /**
   * An OSGi service reference to an AdapterFactory service.  `id` stands for
   * the reference's position in the service ordering (the natural order of
   * the `TreeMap` keys); the two service properties are the results of
   * reading `adaptables` and `adapters` as string arrays, `None` when the
   * property is missing.
   */
  datatype ServiceRef = ServiceRef(
    id: nat,
    adaptables: Option<seq<string>>,
    adapters: Option<seq<string>>)

  /** A reference the manager refuses to register: a missing or empty property list. */
  predicate Malformed(ref: ServiceRef) {
    ref.adaptables.None? || |ref.adaptables.value| == 0 ||
    ref.adapters.None? || |ref.adapters.value| == 0
  }

  /**
   * What reflection tells about a class: its directly implemented interfaces
   * in declaration order and its superclass (`None` for the root and for
   * interfaces).  `depth` is a rank: every supertype has a smaller one.
   */
  datatype ClassInfo = ClassInfo(interfaces: seq<string>, superclass: Option<string>, depth: nat)

  /** The classes known to the JVM, by fully qualified name. */
  type Hierarchy = map<string, ClassInfo>

  /**
   * The supertypes the resolver visits, in visiting order: the interfaces,
   * then the superclass.  A class missing from the table has none.
   */
  function Parents(h: Hierarchy, c: string): seq<string> {
    if c !in h then []
    else if h[c].superclass.Some? then h[c].interfaces + [h[c].superclass.value]
    else h[c].interfaces
  }

  function Rank(h: Hierarchy, c: string): nat {
    if c in h then h[c].depth + 1 else 0
  }

  /** The subtype relation has no cycles: a supertype is always shallower. */
  ghost predicate WellFormed(h: Hierarchy) {
    forall c, p :: c in h && p in h && p in Parents(h, c) ==> h[p].depth < h[c].depth
  }

  lemma ParentRank(h: Hierarchy, c: string, p: string)
    requires WellFormed(h)
    requires p in Parents(h, c)
    ensures Rank(h, p) < Rank(h, c)
  {
  }

  /** An AdapterFactory service; `adapt` is its `getAdapter(adaptable, type)`, foreign code. */
  class AdapterFactory {
    const adapt: (Obj, string) -> Option<Obj>

    constructor (adapt: (Obj, string) -> Option<Obj>)
      ensures this.adapt == adapt
    {
      this.adapt := adapt;
    }
  }

  /** The OSGi component context; `locate` is `locateService("AdapterFactory", reference)`. */
  class ComponentContext {
    const locate: ServiceRef -> Option<AdapterFactory>

    constructor (locate: ServiceRef -> Option<AdapterFactory>)
      ensures this.locate == locate
    {
      this.locate := locate;
    }
  }

  /** The handle of an `Adaption` service published for one factory registration. */
  datatype AdaptionRegistration = AdaptionRegistration(reference: nat, adaptables: seq<string>, adapters: seq<string>)

  /** The Adaption service published for a valid registration of `ref`: its two property lists. */
  function AdaptionFor(ref: ServiceRef): (r: AdaptionRegistration)
    requires !Malformed(ref)
    ensures r.reference == ref.id && ServiceRef(r.reference, Some(r.adaptables), Some(r.adapters)) == ref
  {
    AdaptionRegistration(ref.id, ref.adaptables.value, ref.adapters.value)
  }

  /**
   * One registered adapter factory.  The same descriptor object is shared by
   * the ordered maps of all adaptable classes it was registered for.
   */
  class AdapterFactoryDescriptor {
    const context: ComponentContext
    const reference: ServiceRef
    const adapters: seq<string>
    /** The factory, located on first use and then kept. */
    var factory: Option<AdapterFactory>
    var adaption: Option<AdaptionRegistration>

    constructor (context: ComponentContext, reference: ServiceRef, adapters: seq<string>)
      ensures this.context == context && this.reference == reference && this.adapters == adapters
      ensures factory.None? && adaption.None?
    {
      this.context := context;
      this.reference := reference;
      this.adapters := adapters;
      factory := None;
      adaption := None;
    }

    /** The factory `GetFactory` hands out now: the cached one, else a fresh lookup. */
    function CurrentFactory(): Option<AdapterFactory>
      reads this`factory
    {
      if factory.Some? then factory else context.locate(reference)
    }

    method GetFactory() returns (f: Option<AdapterFactory>)
      modifies this`factory
      ensures f == old(CurrentFactory()) && factory == f
      ensures old(factory).Some? ==> f == old(factory)
      ensures CurrentFactory() == old(CurrentFactory())
    {
      if factory.None? {
        factory := context.locate(reference);
      }
      f := factory;
    }

    /**
     * What registration leaves in a descriptor: a well-formed reference, the
     * reference's adapter names and the Adaption published for it.
     */
    ghost predicate Registration()
      reads this`adaption
    {
      && !Malformed(reference)
      && adapters == reference.adapters.value
      && adaption == Some(AdaptionFor(reference))
    }

    method SetAdaption(registration: AdaptionRegistration)
      modifies this`adaption
      ensures adaption == Some(registration)
    {
      adaption := Some(registration);
    }
  }
}
