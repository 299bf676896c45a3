# Sling mock adapter manager, modelled in Dafny

This project models the adapter manager of the Sling mocks
(`MockAdapterManagerImpl`). The manager keeps a registry of OSGi
`AdapterFactory` services. For each adaptable class name it holds the
registered factory descriptors, ordered by service reference. Factories bound
before the component is activated wait in a queue, and activation registers
them. For each concrete class the manager resolves, and caches, a map from
target class name to the descriptors to try. That map holds the class's own
registrations, then those inherited from its interfaces in declaration order,
then those of its superclass. `getAdapter` tries the descriptors for the
requested target in order, and the first factory that produces an adapter
wins.

Modules:

- `Wrappers`: `Option`, standing for a Java reference that may be `null`.
- `SortedMaps`: the `TreeMap` behind `AdapterFactoryDescriptorMap`. It is
  an association list with strictly increasing natural-number keys, which
  stand for service references in their natural order.
- `Adapters`: service references, the class hierarchy, and the component
  context. It also holds the `AdapterFactory` and `AdapterFactoryDescriptor`
  classes. The descriptor is a class because the same object is shared by the
  maps of all its adaptable classes, and its `factory` and `adaption` fields
  are updated in place.
- `Registry`: the `descriptors` map as a value. It defines the registration
  loop (`PutAll`) and the unregistration loop (`RemoveAll`), with their
  contents and outcome lemmas.
- `Resolution`: the specification of the resolved maps.
  - `Candidates` is the list for one target; `Targets` is the key set;
    `AdapterFactoryMap` is the whole map.
  - Lemmas characterise the candidates through the supertypes a descriptor was
    registered for, and state the order of each list.
- `Lookup`: first-success search over the candidates, and the `getAdapter`
  loop.
- `ClassNames`: `getPackageName`.
- `Manager`: the `MockAdapterManager` class. Its fields are `context`,
  `pending` (`boundAdapterFactories`), `descriptors`, `factoryCache`, and a
  ghost multiset of the published Adaption services. Each method is proved
  against the functions above. A service reference is identified by its service id.
  The registry's maps are keyed by it, and the queue removes a reference by
  it, as `ServiceReference.equals` matches the same service whatever its
  current properties.

The class invariant `Valid()` has four parts:

- the class table is acyclic;
- every per-class map is sorted, and each descriptor is stored under its own
  reference's id;
- every cached map equals the map the current registry determines;
- every registered descriptor belongs to a well-formed reference, holds that
  reference's adapter names and holds the Adaption registration published
  for it.

Every public method keeps `Valid()`. For the cache part, registration empties
the cache, unregistration empties it whenever something was removed, and
`getAdapterFactories` only adds freshly computed maps. Those private
cache-filling methods need and keep only the first three parts
(`Coherent()`), since they change neither the registry nor any descriptor.
`deactivate` clears only the context. The queue, registry and cache stay as
they are, and a reference bound afterwards is queued again.

`copyAdapterFactories` (lines 490-507) appends the inherited list behind an
existing list for the same target. Its doc comment (lines 479-489) says
factories for targets already present are not copied. The model follows the
code: inherited candidates come after the direct ones and are never dropped
(`Resolution.Candidates`, `Resolution.DirectFirst`).

## Model

| member | source | states |
|---|---|---|
| SortedMaps.Get | core/src/main/java/org/apache/sling/testing/mock/sling/MockAdapterManagerImpl.java:528-532 | `TreeMap.get`: absent exactly when the key is not in the map; a found value is stored under that key |
| SortedMaps.Put | core/src/main/java/org/apache/sling/testing/mock/sling/MockAdapterManagerImpl.java:528-532 | `TreeMap.put` keeps the map sorted and adds exactly the key to the key set |
| SortedMaps.PutContents | core/src/main/java/org/apache/sling/testing/mock/sling/MockAdapterManagerImpl.java:288-290 | after `put` the key maps to the new descriptor, every other key keeps its value, and no other entry appears |
| SortedMaps.Remove | core/src/main/java/org/apache/sling/testing/mock/sling/MockAdapterManagerImpl.java:363-364 | `TreeMap.remove` keeps the map sorted and removes exactly the key from the key set |
| SortedMaps.RemoveContents | core/src/main/java/org/apache/sling/testing/mock/sling/MockAdapterManagerImpl.java:363-364 | after `remove` the key is absent, other keys keep their values, nothing is added, and a missing key leaves the map unchanged |
| SortedMaps.Values | core/src/main/java/org/apache/sling/testing/mock/sling/MockAdapterManagerImpl.java:447 | `TreeMap.values()`: the values in ascending key order, one per entry (lengths and positions in `SortedMaps.ValuesAt`) |
| Adapters.Malformed | core/src/main/java/org/apache/sling/testing/mock/sling/MockAdapterManagerImpl.java:258-260 | the refusal test: a missing or empty adaptable list or adapter list |
| Adapters.Parents | core/src/main/java/org/apache/sling/testing/mock/sling/MockAdapterManagerImpl.java:464-473 | the supertypes visited, in order: the interfaces in declaration order, then the superclass if any |
| Adapters.AdaptionFor | core/src/main/java/org/apache/sling/testing/mock/sling/MockAdapterManagerImpl.java:297-302 | the Adaption published for a valid reference carries its id and both property lists, and determines the reference |
| Registry.EntriesOf | core/src/main/java/org/apache/sling/testing/mock/sling/MockAdapterManagerImpl.java:282-286 | `descriptors.get(adaptable)` with a missing class read as an empty map; how registration and unregistration change it is stated by `PutAllContents` and `RemoveAllContents` |
| Registry.PutAll | core/src/main/java/org/apache/sling/testing/mock/sling/MockAdapterManagerImpl.java:279-291 | the registration loop keeps every per-class map sorted |
| Registry.PutAllContents | core/src/main/java/org/apache/sling/testing/mock/sling/MockAdapterManagerImpl.java:277-291 | the loop creates maps for unseen adaptable names and stores the one shared descriptor under the reference in every listed map; maps of unlisted names and other keys are unchanged |
| Registry.RemoveAll | core/src/main/java/org/apache/sling/testing/mock/sling/MockAdapterManagerImpl.java:354-378 | the unregistration loop keeps every map sorted and keeps the key set of `descriptors` |
| Registry.RemoveAllContents | core/src/main/java/org/apache/sling/testing/mock/sling/MockAdapterManagerImpl.java:358-378 | the reference's key is gone from every listed class's map; unlisted maps and all other references' descriptors are unchanged; nothing is added |
| Registry.RemoveAllAt | core/src/main/java/org/apache/sling/testing/mock/sling/MockAdapterManagerImpl.java:358-378 | one class's map after the loop: key removed when listed, unchanged when not |
| Registry.RemoveAllOutcome | core/src/main/java/org/apache/sling/testing/mock/sling/MockAdapterManagerImpl.java:354-378 | `factoriesModified` holds exactly when some listed class held the reference; a removed descriptor is reported exactly then; otherwise the registry is unchanged |
| Registry.RemoveAllLast | core/src/main/java/org/apache/sling/testing/mock/sling/MockAdapterManagerImpl.java:364-375 | the descriptor reported as removed was stored under the reference in some listed class |
| Registry.RemovedWasRegistered | core/src/main/java/org/apache/sling/testing/mock/sling/MockAdapterManagerImpl.java:364-375 | the descriptor reported as removed was a registered descriptor |
| Registry.RegisteredPutAll | core/src/main/java/org/apache/sling/testing/mock/sling/MockAdapterManagerImpl.java:277-291 | registration stores no descriptor other than the new one |
| Registry.RegisteredRemoveAll | core/src/main/java/org/apache/sling/testing/mock/sling/MockAdapterManagerImpl.java:358-378 | unregistration stores nothing new |
| Registry.PutEach | core/src/main/java/org/apache/sling/testing/mock/sling/MockAdapterManagerImpl.java:180-182 | registering accepted references one after the other keeps every map sorted |
| Registry.PutEachStep | core/src/main/java/org/apache/sling/testing/mock/sling/MockAdapterManagerImpl.java:180-182 | registering one more reference after a prefix of the queue |
| Registry.RegisterKeepsInvariant | core/src/main/java/org/apache/sling/testing/mock/sling/MockAdapterManagerImpl.java:277-291 | registration keeps the maps sorted and each descriptor under its own reference id |
| Registry.UnregisterKeepsInvariant | core/src/main/java/org/apache/sling/testing/mock/sling/MockAdapterManagerImpl.java:358-378 | unregistration keeps that shape |
| Adapters.AdapterFactoryDescriptor.CurrentFactory | core/src/main/java/org/apache/sling/testing/mock/sling/MockAdapterManagerImpl.java:564-569 | the factory `getFactory` hands out: the cached one, else the one located now |
| Adapters.AdapterFactoryDescriptor.GetFactory | core/src/main/java/org/apache/sling/testing/mock/sling/MockAdapterManagerImpl.java:564-569 | the factory is located on first use and kept; a located factory is returned again without a new lookup, and the factory handed out never changes |
| Adapters.AdapterFactoryDescriptor.SetAdaption | core/src/main/java/org/apache/sling/testing/mock/sling/MockAdapterManagerImpl.java:579-581 | the Adaption registration is stored in the descriptor |
| Adapters.AdapterFactoryDescriptor.constructor | core/src/main/java/org/apache/sling/testing/mock/sling/MockAdapterManagerImpl.java:555-562 | a descriptor keeps context, reference and adapter names, with no factory located yet |
| Resolution.Occurrences | core/src/main/java/org/apache/sling/testing/mock/sling/MockAdapterManagerImpl.java:451-459 | an adapter name is counted exactly when the descriptor lists it |
| Resolution.Repeat | core/src/main/java/org/apache/sling/testing/mock/sling/MockAdapterManagerImpl.java:451-459 | one copy of the descriptor per mention: the right length and nothing else |
| Resolution.ListFor | core/src/main/java/org/apache/sling/testing/mock/sling/MockAdapterManagerImpl.java:453-457 | `map.get(target)` with a missing list read as empty (also at lines 139 and 498); what it reads from each built map is stated by `AddAdaptersList`, `DirectMapLists` and `FactoryMapLists` |
| Resolution.DirectDescriptors | core/src/main/java/org/apache/sling/testing/mock/sling/MockAdapterManagerImpl.java:440-447 | `new ArrayList<>(afdMap.values())`: the class's own descriptors in service-reference order (`ValuesOrdered`, `DirectForMembers`) |
| Resolution.AddAdapters | core/src/main/java/org/apache/sling/testing/mock/sling/MockAdapterManagerImpl.java:451-459 | the inner loop as a function: the descriptor appended to the list of each adapter name in order (contents in `AddAdaptersKeys`, `AddAdaptersList`) |
| Resolution.DirectMap | core/src/main/java/org/apache/sling/testing/mock/sling/MockAdapterManagerImpl.java:439-461 | the first loop as a function over the direct descriptors in reference order (contents in `DirectMapLists`) |
| Resolution.Candidates | core/src/main/java/org/apache/sling/testing/mock/sling/MockAdapterManagerImpl.java:436-476 | the list for a target: own descriptors naming it, then the interfaces' lists, then the superclass's, each appended (characterised by `CandidatesMembership`, `DirectFirst`) |
| Resolution.Targets | core/src/main/java/org/apache/sling/testing/mock/sling/MockAdapterManagerImpl.java:436-476 | the keys of the map: targets named by the class's own descriptors or by those of any supertype (characterised by `TargetsMembership`) |
| Resolution.AdapterFactoryMap | core/src/main/java/org/apache/sling/testing/mock/sling/MockAdapterManagerImpl.java:436-507 | what `createAdapterFactoryMap` returns: each target mapped to its candidate list (read back by `FactoryMapLists`, `TargetsNonEmpty`) |
| Resolution.AddAdaptersKeys | core/src/main/java/org/apache/sling/testing/mock/sling/MockAdapterManagerImpl.java:451-459 | the inner loop creates a list for every adapter name it visits and for no other |
| Resolution.AddAdaptersList | core/src/main/java/org/apache/sling/testing/mock/sling/MockAdapterManagerImpl.java:451-459 | each target's list grows by one copy of the descriptor per mention of the target |
| Resolution.DirectMapLists | core/src/main/java/org/apache/sling/testing/mock/sling/MockAdapterManagerImpl.java:439-461 | the direct part of the map has exactly the targets named by the class's own descriptors, each mapped to the descriptors naming it in visiting order |
| Resolution.DirectForMembers | core/src/main/java/org/apache/sling/testing/mock/sling/MockAdapterManagerImpl.java:444-461 | a descriptor is in a target's direct list exactly when it is registered for the class and names the target |
| Resolution.DirectTargetsNonEmpty | core/src/main/java/org/apache/sling/testing/mock/sling/MockAdapterManagerImpl.java:453-458 | a target gets a direct list exactly when that list is non-empty |
| Resolution.DirectForOrdered | core/src/main/java/org/apache/sling/testing/mock/sling/MockAdapterManagerImpl.java:445-449 | visiting descriptors in service-reference order yields lists in that order |
| Resolution.ValuesOrdered | core/src/main/java/org/apache/sling/testing/mock/sling/MockAdapterManagerImpl.java:528-532 | the values of a per-class map come in service-reference order |
| Resolution.DirectCandidatesOrdered | core/src/main/java/org/apache/sling/testing/mock/sling/MockAdapterManagerImpl.java:440-461 | the direct candidates of a class for a target come in service-reference order |
| Resolution.DirectFirst | core/src/main/java/org/apache/sling/testing/mock/sling/MockAdapterManagerImpl.java:436-476 | each list of the map starts with the class's own descriptors naming the target, in service-reference order, and inherited descriptors follow them |
| Resolution.FactoryMapLists | core/src/main/java/org/apache/sling/testing/mock/sling/MockAdapterManagerImpl.java:436-476 | reading the built map at any target gives exactly the candidate list: own, then interfaces', then superclass's |
| Resolution.TargetsNonEmpty | core/src/main/java/org/apache/sling/testing/mock/sling/MockAdapterManagerImpl.java:453-458 | the map has an entry for a target exactly when the candidate list is non-empty, so no empty list is stored |
| Resolution.TargetsMembership | core/src/main/java/org/apache/sling/testing/mock/sling/MockAdapterManagerImpl.java:436-476 | a class can be adapted to a target exactly when some descriptor registered for the class or one of its supertypes names it |
| Resolution.TargetsComplete | core/src/main/java/org/apache/sling/testing/mock/sling/MockAdapterManagerImpl.java:463-473 | a target named by a descriptor registered for a supertype is a key of the map |
| Resolution.CandidatesMembership | core/src/main/java/org/apache/sling/testing/mock/sling/MockAdapterManagerImpl.java:436-476 | a descriptor is a candidate exactly when it was registered for the class or a supertype and names the target |
| Resolution.CandidatesComplete | core/src/main/java/org/apache/sling/testing/mock/sling/MockAdapterManagerImpl.java:463-473 | a descriptor registered for any supertype and naming the target is among the candidates |
| Resolution.CandidatesRegistered | core/src/main/java/org/apache/sling/testing/mock/sling/MockAdapterManagerImpl.java:436-476 | every candidate is a registered descriptor |
| Resolution.DirectPartial | core/src/main/java/org/apache/sling/testing/mock/sling/MockAdapterManagerImpl.java:439-461 | after the first loop the map under construction is the direct map |
| Resolution.PartialStep | core/src/main/java/org/apache/sling/testing/mock/sling/MockAdapterManagerImpl.java:463-473 | merging the next parent's map advances the construction by one parent |
| Resolution.PartialComplete | core/src/main/java/org/apache/sling/testing/mock/sling/MockAdapterManagerImpl.java:475 | after all interfaces and the superclass the result is the map of the class |
| Lookup.Succeeds | core/src/main/java/org/apache/sling/testing/mock/sling/MockAdapterManagerImpl.java:146-150 | a factory counts as a success when it exists and returns an adapter |
| Lookup.FirstSuccess | core/src/main/java/org/apache/sling/testing/mock/sling/MockAdapterManagerImpl.java:141-161 | the result is present exactly when some factory exists and adapts the object; it is then the adapter of the first such factory, and every earlier factory is missing or returns nothing |
| Lookup.FirstSuccessAppend | core/src/main/java/org/apache/sling/testing/mock/sling/MockAdapterManagerImpl.java:142-155 | candidates placed first take precedence: a success among them hides every later one |
| Lookup.FirstSuccessSkip | core/src/main/java/org/apache/sling/testing/mock/sling/MockAdapterManagerImpl.java:142-155 | a missing factory or a `null` result does not change the outcome of the rest |
| Lookup.Factories | core/src/main/java/org/apache/sling/testing/mock/sling/MockAdapterManagerImpl.java:142-143 | the factories the descriptors hand out, one per descriptor, in order |
| Lookup.TryFactories | core/src/main/java/org/apache/sling/testing/mock/sling/MockAdapterManagerImpl.java:139-161 | the loop returns the first adapter produced in list order, `None` for an empty list or no success, and no descriptor changes the factory it hands out |
| ClassNames.LastIndexOf | core/src/main/java/org/apache/sling/testing/mock/sling/MockAdapterManagerImpl.java:316 | `lastIndexOf`: -1 exactly when the character is absent, otherwise its last position |
| ClassNames.GetPackageName | core/src/main/java/org/apache/sling/testing/mock/sling/MockAdapterManagerImpl.java:315-318 | empty exactly when no dot occurs after index 0; otherwise a proper prefix ending right before the last dot |
| ClassNames.PackageOfQualified | core/src/main/java/org/apache/sling/testing/mock/sling/MockAdapterManagerImpl.java:315-318 | the package of `package.Simple` is `package` |
| Manager.AdaptionsOf | core/src/main/java/org/apache/sling/testing/mock/sling/MockAdapterManagerImpl.java:180-182 | the Adaption services the activation loop publishes, one per well-formed queued reference (`AdaptionsStep`, and `Activate`'s ensures) |
| Manager.ValidRefs | core/src/main/java/org/apache/sling/testing/mock/sling/MockAdapterManagerImpl.java:258-260 | the accepted references are all well formed |
| Manager.ValidRefsMembers | core/src/main/java/org/apache/sling/testing/mock/sling/MockAdapterManagerImpl.java:258-260 | exactly the well-formed references of the queue are accepted |
| Manager.ValidRefsStep | core/src/main/java/org/apache/sling/testing/mock/sling/MockAdapterManagerImpl.java:180-182 | one more queued reference is accepted exactly when it is well formed |
| Manager.AdaptionsStep | core/src/main/java/org/apache/sling/testing/mock/sling/MockAdapterManagerImpl.java:296-312 | one more queued reference publishes its Adaption exactly when it is well formed |
| Manager.ReferencesOf | core/src/main/java/org/apache/sling/testing/mock/sling/MockAdapterManagerImpl.java:277 | one reference per descriptor |
| Manager.RemoveFirst | core/src/main/java/org/apache/sling/testing/mock/sling/MockAdapterManagerImpl.java:344-346 | `List.remove`: references are matched by service id; the queue is unchanged when no queued reference has that id and one shorter otherwise |
| Manager.RemoveFirstAt | core/src/main/java/org/apache/sling/testing/mock/sling/MockAdapterManagerImpl.java:344-346 | removal cuts out the first queued reference with the same id and keeps the rest in order |
| Manager.RemoveFirstCount | core/src/main/java/org/apache/sling/testing/mock/sling/MockAdapterManagerImpl.java:344-346 | removal takes away exactly one occurrence of the service id from the queue's ids |
| Manager.AppendAll | core/src/main/java/org/apache/sling/testing/mock/sling/MockAdapterManagerImpl.java:504-506 | the innermost copy loop appends every descriptor, in order |
| Manager.MergeStep | core/src/main/java/org/apache/sling/testing/mock/sling/MockAdapterManagerImpl.java:496-507 | one more target copied: its inherited list is appended to the existing one |
| Manager.MergeInto | core/src/main/java/org/apache/sling/testing/mock/sling/MockAdapterManagerImpl.java:496-507 | the copy loop appends every list of the superclass or interface map behind the list for the same target, creating it when missing, in any visiting order |
| Manager.BuildDirectMap | core/src/main/java/org/apache/sling/testing/mock/sling/MockAdapterManagerImpl.java:440-461 | the first loop builds the direct map |
| Manager.AddDescriptor | core/src/main/java/org/apache/sling/testing/mock/sling/MockAdapterManagerImpl.java:450-459 | the inner loop appends the descriptor to the list of each adapter name |
| Manager.StoreDescriptor | core/src/main/java/org/apache/sling/testing/mock/sling/MockAdapterManagerImpl.java:279-291 | the registration loop computes `PutAll` |
| Manager.RemoveDescriptors | core/src/main/java/org/apache/sling/testing/mock/sling/MockAdapterManagerImpl.java:354-378 | the unregistration loop computes `RemoveAll`, with `factoriesModified` and the descriptor removed last |
| Manager.MockAdapterManager.constructor | core/src/main/java/org/apache/sling/testing/mock/sling/MockAdapterManagerImpl.java:83-114 | a new manager is inactive, with an empty queue, registry and cache |
| Manager.MockAdapterManager.Activate | core/src/main/java/org/apache/sling/testing/mock/sling/MockAdapterManagerImpl.java:171-187 | keeps the context, empties the queue and registers every queued reference in queue order; each new descriptor is fresh, bound to the context, has no factory yet and holds its reference's adapters and Adaption; publishes their Adaption services; empties the cache exactly when something was registered |
| Manager.MockAdapterManager.RegisterQueued | core/src/main/java/org/apache/sling/testing/mock/sling/MockAdapterManagerImpl.java:180-182 | one turn of the activation loop: the queued reference is registered with the same guarantees as `RegisterAdapterFactory` |
| Manager.MockAdapterManager.Deactivate | core/src/main/java/org/apache/sling/testing/mock/sling/MockAdapterManagerImpl.java:193-197 | the context is dropped |
| Manager.MockAdapterManager.BindAdapterFactory | core/src/main/java/org/apache/sling/testing/mock/sling/MockAdapterManagerImpl.java:203-216 | before activation the reference is queued and nothing else changes; afterwards the queue is untouched, a malformed reference changes nothing, and a valid one is registered with exactly the guarantees of `RegisterAdapterFactory` |
| Manager.MockAdapterManager.UnbindAdapterFactory | core/src/main/java/org/apache/sling/testing/mock/sling/MockAdapterManagerImpl.java:222-224 | the reference leaves the queue; otherwise exactly the guarantees of `UnregisterAdapterFactory`: a malformed one changes nothing else, a valid one leaves every listed class's map, the cache is emptied exactly when something was removed, and the Adaption of the descriptor removed last is withdrawn once |
| Manager.MockAdapterManager.RegisterAdapterFactory | core/src/main/java/org/apache/sling/testing/mock/sling/MockAdapterManagerImpl.java:253-313 | a malformed reference changes nothing and creates no descriptor; otherwise one fresh shared descriptor is stored under the reference in every listed class's map, the cache is emptied and its Adaption is published and kept in the descriptor |
| Manager.MockAdapterManager.UnregisterAdapterFactory | core/src/main/java/org/apache/sling/testing/mock/sling/MockAdapterManagerImpl.java:343-398 | the reference leaves the queue; a malformed one changes nothing else; otherwise it leaves every listed class's map, the cache is emptied exactly when something was removed, and the Adaption of the descriptor removed last, which was registered, is withdrawn once |
| Manager.MockAdapterManager.GetAdapterFactories | core/src/main/java/org/apache/sling/testing/mock/sling/MockAdapterManagerImpl.java:412-421 | returns the map the registry determines and leaves it cached; a hit leaves the cache as it was, so repeated calls return the same map; only the class and its supertypes gain entries |
| Manager.MockAdapterManager.CreateAdapterFactoryMap | core/src/main/java/org/apache/sling/testing/mock/sling/MockAdapterManagerImpl.java:436-476 | builds exactly the map of the class: own registrations, then interfaces in declaration order, then the superclass |
| Manager.MockAdapterManager.CopyInterfaces | core/src/main/java/org/apache/sling/testing/mock/sling/MockAdapterManagerImpl.java:463-467 | after the interface loop the map holds the direct part plus every interface's lists |
| Manager.MockAdapterManager.CopyAdapterFactories | core/src/main/java/org/apache/sling/testing/mock/sling/MockAdapterManagerImpl.java:490-507 | the map of the class, fetched through the cache, is appended target by target |
| Manager.MockAdapterManager.CandidateList | core/src/main/java/org/apache/sling/testing/mock/sling/MockAdapterManagerImpl.java:136-139 | the list read from the map fetched through the cache is exactly the candidate list, and holds only registered descriptors; afterwards the class is cached with its map, a hit leaves the cache as it was, and only the class and its supertypes gain entries (`CacheFilled`) |
| Manager.MockAdapterManager.CopySuperclass | core/src/main/java/org/apache/sling/testing/mock/sling/MockAdapterManagerImpl.java:469-473 | with the superclass's map appended, the map holds the direct part plus every parent's lists |
| Manager.MockAdapterManager.GetAdapter | core/src/main/java/org/apache/sling/testing/mock/sling/MockAdapterManagerImpl.java:132-162 | returns the adapter of the first candidate, in list order, whose factory exists and adapts the object, or `None`; locating factories never changes which factory a descriptor hands out; the object's class is left cached with its map, and only it and its supertypes gain cache entries |
| Manager.MockAdapterManager.TryCandidates | core/src/main/java/org/apache/sling/testing/mock/sling/MockAdapterManagerImpl.java:140-161 | the loop over registered candidates returns the first adapter produced, keeps the invariant and never changes which factory a descriptor hands out |

## Left out

- Thread safety: the `synchronized` blocks, `volatile` fields and the
  concurrent cache map are not modelled; every operation runs sequentially.
- OSGi plumbing: `locateService` is an oracle function stored in the
  component context. It is assumed to give the same answer for a reference
  at every call. So the claim that a descriptor never changes the factory it
  hands out (`GetFactory`, `TryFactories`, `GetAdapter`) rests on that
  assumption as well as on the descriptor's cache. `registerService` for Adaption is a ghost multiset of
  published registrations plus the descriptor's `adaption` field.
  `ServiceRegistration.unregister` removes one occurrence from that multiset.
- `PropertiesUtil.toStringArray`: a reference carries its two properties
  already read as optional string lists.
- Service ranking: a service reference is a natural number, and the
  `TreeMap` order is the order of those numbers.
- Reflection: `getClass`, `getInterfaces` and `getSuperclass` read a fixed,
  acyclic class table. A class missing from the table has no supertypes.
- The adapter type: `getAdapter` returns the adapter object and does not
  model the generic cast.
- Logging, the disabled `checkPackage`/PackageAdmin code and the
  `SyntheticResource` calls.
- The `desc == null` check in `getAdapter` (line 143): descriptor lists
  never hold `null`, so that branch cannot be taken.
- `getFactories`, `getFactoryCache`, `getAdapters` and `getAdaption`: plain
  field reads, used directly.
- Manager.MockAdapterManager.UnregisterAdapterFactory: it withdraws the
  Adaption of the descriptor removed last, exactly once per call. It does not
  prove that this registration is still published. A reference whose
  properties changed between registration and unregistration is modelled as
  two references with the same id. Unregistering the changed one can leave
  the descriptor in the maps of classes only the old one listed, so a later
  call withdraws the same Adaption again. The source admits this gap in its
  comment at lines 367-368.
- Manager.MockAdapterManager.Activate: a queued reference keeps the
  properties it had when it was bound. The source reads them when `activate`
  registers it (lines 255-256), so a properties update between binding and
  activation is not modelled.
- ThreadsafeMockAdapterManagerWrapper, UniqueRoot, SlingContextBuilder,
  MockSlingSettingService, MockRequestPathInfo and the tests are not part of
  this model.
