# ecspp: a Dafny model of the object property register

ecspp is a small C++ layer over the entt entity-component registry. It gives
every entity an `ObjectProperties` descriptor holding a name, a parent, a list
of children, a master handle and a cache of component names. Classes derived
from `TaggedObject` become *object types*: each registers a tag storage and a
property storage for itself. Classes derived from `ComponentSpecifier` become
*components*, reachable by name through entt's meta registry. The static
`ObjectPropertyRegister` ties these together:

- it creates objects under a free name and initialises their tags, property
  storages, start-up components and omnipresent components;
- it adds, fetches, erases and copies components by type and by name;
- it lists an object's components, copies objects with their descendants,
  and queues objects for deletion;
- it drains that queue, destroying each queued object together with its
  subtree, and then re-stamps every surviving component's master.

This project models that core in Dafny:

- the entt registry is a `Store` value. It holds the descriptor storage, the
  other storages keyed by id, the enumeration order of entities and of
  storages, and the next entity id;
- the register's static maps are a `Tables` value;
- the register itself is the class `Register.ObjectPropertyRegister`, whose
  methods update its store, its tables and its deletion queue in place;
- pure reads and each state change are functions over `Store` and `Tables`,
  and the methods are proved equal to them;
- the loops of the source (the free-name loop, `SplitString`,
  `EraseWordFromString`, the erase and drain loops of `ClearDeletingQueue`,
  `ValidateAllGameObjects`, the storage loop of `DuplicateObject`, the walk of
  `CopyObject`) are methods with loop invariants, proved against
  specification functions;
- the recursive walks (`GetAllChildren`, `IsInChildren`,
  `ForSelfAndEachChild`) are functions whose termination rests on a ghost
  rank map. The rank map witnesses that the child links have no cycle.

Where the header and the .cpp file define the same operation differently,
both are modelled. The header version carries the suffix `Inline`. The
callers in `object.h` and `ecspp.h` reach the header's definitions: the .cpp
defines its members outside `namespace ecspp`. So an object's cached
component names are refreshed with the header's listing, keyed by the hash
of the store-wide `GetObjectType()`, and the `Ecspp` facade drains and lists
through the `Inline` methods. Both
versions of the drain are proved against one reference: the union of the
subtrees of the queued handles (`Lifecycle.Subtrees`). For the header drain
this holds whenever `GetObjectType` names a type (`Detach.DrainsDeleteAlike`).

Modules, in dependency order:

- `Wrappers` (Option and Result);
- `Decimal` (`std::to_string` on naturals);
- `Handles` (`ObjectHandle`);
- `Strings` (`HelperFunctions`);
- `Naming` (the free-name loop of `CreateNew`);
- `Events` (`EventLauncher`, `FunctionSink`);
- `Components` (`Component` and the component cell);
- `Hierarchy` (`ObjectProperties` links and walks);
- `EntityStore` (the registry);
- `Registration` (the register's maps, the meta registry, `GetObjectComponents`);
- `ComponentOps` (component operations and creation);
- `Links` (descriptor links at store level);
- `Lifecycle` (destroy, the header drain, validation);
- `Duplication` (`DuplicateObject`, `CopyObject`);
- `Detach` (the .cpp `GetAllChildren` and drain);
- `Register` (the register class);
- `Objects` (`Object` and `TaggedObject`);
- `Ecspp` (the free functions of `ecspp.h`).

## Model

| member | source | states |
|---|---|---|
| Handles.FromEntity | include/object/object_properties.cpp:6-9 | a handle built from an entity wraps that id with the null flag unset |
| Handles.NullHandle | include/object/object_properties.cpp:15-18 | the registry.h default handle has the null flag set and the id `entt::null` |
| Handles.HeaderDefaultHandle | include/object/object_handle.h:16 | the object_handle.h default handle keeps the flag unset, with id `entt::null` (lines 54-55) |
| Handles.NullHandleFalsy | include/object/registry.h:61-66 | the registry.h default handle is falsy whatever is alive |
| Handles.FromEntityTruthy | include/object/registry.h:61-66 | a handle from an entity is truthy exactly when the entity is alive |
| Handles.HeaderDefaultTruthy | include/object/object_handle.h:33-38 | the object_handle.h default handle is truthy only if the null entity were alive |
| Handles.SameIgnoresNullFlag | include/object/object_properties.cpp:42-45 | equality compares ids only: a null and a non-null handle on one id compare equal while only the non-null one is truthy |
| Handles.ToString | include/object/object_handle.h:44-46 | the rendering is a non-empty string of decimal digits |
| Handles.ToStringRoundTrip | include/object/object_properties.cpp:32-35 | parsing the rendering gives back the id cast to 32 bits, and the id itself when it fits |
| Decimal.DigitChar | include/object/object_handle.h:44-46 | the character for a digit below ten is that digit |
| Decimal.Dec | include/object/object_handle.h:44-46 | `std::to_string` of an unsigned value: non-empty, all digits, no leading zero except for 0 |
| Decimal.ParseDec | include/object/object_handle.h:44-46 | reading the decimal rendering back gives the number |
| Decimal.DecInjective | include/object/object_handle.h:44-46 | distinct numbers render differently |
| Components.DefaultCell | include/components/component.h:58-59 | a fresh component has null master and null type |
| Components.DefinedCell | include/components/component_specifier.h:9-12 | a `DefineComponent` value is stamped with the hash of its class name and a null master |
| Components.AssignKeepsIdentity | include/components/component.h:28-31 | copying a component value keeps the destination's master and type, takes the source's data, and is idempotent |
| Components.SetMasterReadBack | include/components/component.h:12-22 | after `SetMaster(e)` the master handle is e, `Valid` holds iff e is alive, and type and data are untouched |
| Components.DefaultNotValid | include/components/component.h:12-14 | a component with the null master is not `Valid` while null is not alive |
| Components.HooksAreNoOps | include/components/component.h:37-43 | the default `Init`, `Destroy` and `Update` hooks leave the value unchanged, so the `Init` that `AddComponent<T>` runs after its emplace (`ComponentOps.GetOrCreate`) keeps the emplaced value |
| Hierarchy.NewDescriptor | include/object/object_properties.cpp:50-52 | a fresh descriptor has the given name, type and master, a null parent, no children and no cached names |
| Hierarchy.SetNameThenGetName | include/object/object_properties.cpp:54-62 | `SetName` then `GetName` returns the set name and changes nothing else; `SetComponentsNames` replaces the cache wholesale (lines 134-137) |
| Hierarchy.FindId | include/object/object_properties.cpp:110 | `std::find` with id equality: the first position listing the id, or none exactly when no entry lists it |
| Hierarchy.RemoveAtLists | include/object/object_properties.cpp:112 | erasing one entry of a duplicate-free list removes exactly that id and keeps the list duplicate-free |
| Hierarchy.AddChildren | include/object/object_properties.cpp:116-122 | the child is listed afterwards iff it was listed or it is alive, unlisted and of the same type; nothing else changes and no duplicate appears |
| Hierarchy.AddChildrenKeepsDistinct | include/object/object_properties.cpp:116-122 | adding a child keeps every children list free of duplicates |
| Hierarchy.RemoveChildren | include/object/object_properties.cpp:107-114 | a dead or unlisted child leaves everything unchanged; otherwise exactly that id leaves the list |
| Hierarchy.SetParent | include/object/object_properties.cpp:73-79 | with the same type id the parent becomes e and e lists self; with a different type nothing changes |
| Hierarchy.SetParentAdoptsOnce | include/object/object_properties.cpp:73-79 | after `SetParent` to an object of the same type, self is listed in e's children exactly once |
| Hierarchy.SetParentKeepsOldLink | include/object/object_properties.cpp:73-79 | the previous parent still lists self after `SetParent` to another object |
| Hierarchy.ClearParent | include/object/object_properties.cpp:81-87 | the parent always becomes the null handle; only a live parent's children list changes |
| Hierarchy.ClearParentUnlinks | include/object/object_properties.cpp:81-87 | a live parent no longer lists self afterwards, and children lists stay duplicate-free |
| Hierarchy.IsInChildrenIffPath | include/object/object_properties.cpp:89-105 | `IsInChildren` holds iff a chain of children links leads from self to obj |
| Hierarchy.IsInChildrenEmpty | include/object/object_properties.cpp:92-94 | an object without children contains nothing |
| Hierarchy.DescendantStep | include/object/object_properties.cpp:95-103 | an object contains each listed child and everything that child contains |
| Hierarchy.LiveChildren | include/object/object.cpp:80-89 | `ForEachChild` visits exactly the live entries of the children list |
| Hierarchy.PreOrderTruthy | include/object/object_property_register.h:540-551 | the header walk lists only live handles; it is empty iff the start handle is falsy, and starts with it otherwise |
| Hierarchy.ChildrenPreOrderMember | include/object/object_property_register.h:546-550 | everything the walk below a node lists comes from the walk of one of its live children |
| Hierarchy.ChildrenPreOrderIncludes | include/object/object_property_register.h:546-550 | the walk below a node lists everything each of its children's walks lists |
| Hierarchy.PreOrderNested | include/object/object_property_register.h:540-551 | the walk from anything the walk from h lists stays within the walk from h |
| Hierarchy.PreOrderClosed | include/object/object_property_register.h:540-551 | every live child of a listed node is listed |
| Hierarchy.PreOrderDescends | include/object/object_property_register.h:540-551 | every listed handle other than the start is a descendant of the start in the sense of `IsInChildren` |
| Hierarchy.CollectSubtree | include/object/object_property_register.h:540-551 | the header's `GetAllChildren` appends the pre-order of the subtree: the node first, then each live child's subtree in stored order |
| Links.Adopt | include/object/object_properties.cpp:116-122 | `AddChildren` on a descriptor of the store keeps the store well formed |
| Links.Disown | include/object/object_properties.cpp:107-114 | `RemoveChildren` keeps the store well formed |
| Links.Reparent | include/object/object_properties.cpp:73-79 | `SetParent` keeps the store well formed |
| Links.Orphan | include/object/object_properties.cpp:81-87 | `ClearParent` keeps the store well formed |
| Links.Rename | include/object/object_properties.cpp:59-62 | `SetName` keeps the store well formed |
| EntityStore.EmptyStore | include/object/registry.cpp:9 | the registry starts well formed with nothing alive |
| EntityStore.NextId | include/object/object_property_register.h:182 | `create()` hands out a larger identifier than any before, never `entt::null` |
| EntityStore.Members | include/object/object_property_register.h:596-602 | a view over one storage yields exactly the live holders of that storage, in enumeration order |
| EntityStore.CreateObject | include/object/object_property_register.h:182-196 | a fresh entity, not alive before, joins the registry with a new descriptor and nothing else changes |
| EntityStore.Emplace | include/object/object_property_register.h:356 | `emplace<T>` stores the value for the entity, creating the storage at the end of the storage order if needed, and keeps the registry well formed |
| EntityStore.Erase | include/object/object_property_register.h:466 | `storage<T>().erase(e)` removes exactly e from that storage |
| EntityStore.SetCell | include/object/object_property_register.h:477 | overwriting a stored value changes that one value only |
| EntityStore.Destroy | include/object/object_property_register.h:295 | `destroy(e)` removes e from the alive set and from every storage, leaving every other entity's values and descriptor as they were |
| EntityStore.DestroyAfterErase | include/object/object_property_register.cpp:103-114 | erasing a component before destroying the entity ends in the same registry as destroying it outright |
| EntityStore.DestroyIsLocal | include/object/object_property_register.h:295 | destroying one entity keeps every other entity's stored values |
| EntityStore.FindFromSpec | include/object/registry.cpp:27-36 | the scan from position k returns the first entity from k on, in storage order, whose name matches, and the null handle when none does |
| EntityStore.FindByNameSpec | include/object/registry.cpp:27-36 | `FindObjectByName` returns a handle to the first descriptor in storage order with that name, and the null (falsy) handle exactly when no live object has the name |
| Registration.FirstTagPool | include/object/object_property_register.h:522-526 | the position of the first storage, in storage order, that is a registered tag, or none when no storage is |
| Registration.GetObjectTypeSpec | include/object/object_property_register.h:519-533 | the header's `GetObjectType` ignores its entity: "" when no tag storage exists, otherwise the name registered for the first tag storage's type |
| Registration.FirstTagPoolExtend | include/object/object_property_register.h:519-533 | appending storages to the enumeration keeps the first tag storage, unless there was none and an appended storage is a tag |
| Registration.ObjectTypeExtend | include/object/object_property_register.h:519-533 | so `GetObjectType()` keeps its answer when storages are appended, unless no tag storage existed and an appended one is a tag |
| Registration.ListedFromSpec | include/object/object_property_register.cpp:45-55 | a name is listed from position k iff some later storage holds the entity, is not the descriptor storage, and is registered for the key |
| Registration.ListedSpec | include/object/object_property_register.cpp:42-58 | `GetObjectComponents` lists a name iff some storage holds the entity, is not the descriptor storage, and its component name is registered for the object's type |
| Registration.ListedPoolsFromSpec | include/object/object_property_register.cpp:45-55 | the listing pairs each name with the storage it came from, and misses no qualifying storage |
| Registration.ListedFromLocal | include/object/object_property_register.cpp:45-55 | the listing for an entity depends only on which storages hold that entity |
| Registration.ListedFromNone | include/object/object_property_register.cpp:52-54 | an entity held by no storage lists nothing |
| Registration.ListedFromExtend | include/object/object_property_register.cpp:45-55 | storages appended later that do not hold the entity add nothing to its listing |
| Registration.ListComponents | include/object/object_property_register.cpp:42-58 | the .cpp loop builds exactly the listing for the object's own type id |
| Registration.ListComponentsInline | include/object/object_property_register.h:213-231 | the header loop builds the listing for the type named by the header's `GetObjectType` |
| Registration.ListedResolves | include/object/object_property_register.h:319-321 | under coherent registration, every listed name resolves back to a storage holding the entity |
| Registration.ObjectTagRegistered | include/object/object_property_register.h:82-96 | after `RegisterClassAsObjectTag` the class resolves to an object type with its tag, is registered and a type of object, is named by its hash, and the other tables are untouched |
| Registration.ObjectTagIdempotent | include/object/tagged_object.h:87-92 | registering the same tag twice leaves the tables as registering it once |
| Registration.ComponentRegistered | include/object/object_property_register.h:206-211 | after `RegisterClassAsComponentOfType` the component resolves with its closures (lines 562-573), its storage is named after it, and the type's list gains it at the end, twice when registered twice |
| Registration.DefineComponentTables | include/components/component_specifier.h:35-38 | the static initializer of `DefineComponent<ComponentName, ComponentType>` passes its arguments in reverse: ComponentType's name is appended to the list filed under ComponentName's hash, ComponentType resolves to its own storage and names it, every other list is unchanged, and ComponentName becomes no more resolvable than it was (when the two hashes differ) |
| Registration.DefineComponentTwice | include/components/component_specifier.h:35-38 | a second run leaves the meta and name tables as the first left them and lists ComponentType twice under ComponentName's hash, so the once-only static initializer matters |
| Registration.ComponentRegistrationCoherent | include/object/object_property_register.h:206-211 | registering a component whose hash does not clash keeps every named storage resolving back to itself |
| Registration.ObjectTagCoherent | include/object/object_property_register.h:82-96 | registering an object tag whose hash does not clash keeps every named storage resolving back to itself |
| Registration.StartComponentAppended | include/object/object_property_register.h:604-608 | `MakeComponentPresentBackground` appends the component to the type's start-up list and leaves other types' lists alone |
| Registration.StartComponentIn | include/object/object_property_register.h:63-66 | `MakeComponentPresentIn` adds the component to every listed type's start-up list, keeps each list as a prefix, and changes nothing else |
| ComponentOps.HasComponent | include/object/object_property_register.h:332-342 | `HasComponent<T>` raises on a dead entity, and otherwise answers whether T's storage holds it |
| ComponentOps.GetOrCreate | include/object/object_property_register.h:344-365 | the value is created, with the entity as master and after its `Init` hook, only when absent, and the storage grows by one; when present nothing changes; only that entity and storage are touched |
| ComponentOps.AddByName | include/object/object_property_register.h:421-441 | empty for a dead entity or an unknown name; a component name attaches or reuses its storage's value for the entity and touches nothing else; an object type name raises and changes nothing |
| ComponentOps.AddAll | include/object/object_property_register.h:137-145 | adding a list of names by name: it raises iff some name is an object type, and otherwise every component name ends up attached |
| ComponentOps.Tagged | include/object/object_property_register.h:125-131 | the tag and property storage registered for the class are emplaced |
| ComponentOps.EmplaceDefault | include/object/object_property_register.h:73-78 | the property-storage closure leaves the entity holding a default-constructed storage and only adds to that entity |
| ComponentOps.Initialized | include/object/object_property_register.h:118-148 | `InitializeObject<T>`: tag and property storage, then every start-up and omnipresent component that names a component is attached; an object type name among them raises |
| ComponentOps.Created | include/object/object_property_register.h:178-201 | `CreateNew` once the name is chosen: exactly one new entity, holding a fresh descriptor with that name, T's type id and itself as master; every older component kept; then the initialisation above |
| ComponentOps.CreateNamed | include/object/object_property_register.h:178-201 | `CreateNew<T>(name)` keeps a free name verbatim and otherwise takes the first free variant in the candidate sequence, then creates and initialises |
| ComponentOps.CreatedAsSpec | include/object/object_property_register.h:178-201 | creation adds exactly one new live entity whose name was unused, with T's type id and itself as master, keeps every older value, and returns a truthy handle to it |
| ComponentOps.CreateFromType | include/object/object_property_register.h:97-115 | a name that is not an object type returns the falsy default handle and changes nothing; an object type creates through `CreateNew` (the .cpp copy at object_property_register.cpp:5-24 is the same) |
| ComponentOps.EraseIfPresent | include/object/object_property_register.h:457-470 | T is absent afterwards, only that entity and storage change, and the storage shrinks by one exactly when T was present |
| ComponentOps.CopyCell | include/object/object_property_register.h:477 | the destination takes the source's data and keeps its own master and type |
| ComponentOps.CopyComponent | include/object/object_property_register.h:472-483 | returns true iff both entities hold T; then only the destination changes; otherwise nothing changes; raises on a dead entity as `HasComponent` does |
| ComponentOps.SetCache | include/object/object_properties.cpp:134-137 | `SetComponentsNames` replaces the entity's cached names and nothing else |
| ComponentOps.Refresh | include/object/object.h:72 | the cache becomes the header's `GetObjectComponents(e)` (object_property_register.h:213-231): the listing keyed by the hash of `GetObjectType()`; nothing else changes |
| ComponentOps.EraseByName | include/object/object.h:95-115 | false for an unknown or non-component name; otherwise T is erased, the cache is set to the header's listing under the hash of `GetObjectType()`, true is returned, and nothing else changes |
| ComponentOps.CopyByName | include/object/object.h:44-59 | false for a name without a `Copy Component` closure; otherwise exactly the register's `CopyComponent` outcome, which on success is true |
| ComponentOps.HasByName | include/object/object.cpp:7-23 | false when the name is unregistered or has no `Has Component` closure, otherwise the closure's answer |
| ComponentOps.AddThenHasByName | include/object/object.cpp:7-23 | after adding a component by name, `HasComponent(name)` answers true |
| ComponentOps.GetHeldByName | include/object/object_property_register.h:443-455 | asking by name for a component the entity already holds returns its value and changes nothing |
| ComponentOps.AddByNameIdempotent | include/object/object_property_register.h:421-441 | adding the same name twice is adding it once |
| ComponentOps.AddThenEraseByName | include/object/object.h:95-115 | erasing a component just added by name succeeds and leaves it absent |
| ComponentOps.EraseLowersPoolCount | include/object/object_property_register.cpp:103-108 | each erase leaves the entity in one storage fewer, which bounds the .cpp erase loop |
| ComponentOps.RefreshKeepsPoolCount | include/object/object.h:101 | refreshing the cache through the header's listing changes no storage |
| Naming.Appended | include/object/object_property_register.h:186-188 | a taken name whose last character is not `)` gets `(1)` appended; one ending in `)` is kept |
| Naming.SuffixStart | include/object/object_property_register.h:193 | the position after the last `(`, or 0 when there is none (`npos + 1`) |
| Naming.Replace | include/object/object_property_register.h:193 | `std::string::replace`: the prefix up to the position is kept, the new text follows it, and the count is clipped at the end of the string |
| Naming.SuffixStartInside | include/object/object_property_register.h:186-193 | after the `(1)` step the replace position lies inside the name |
| Naming.CandidateSuffixStart | include/object/object_property_register.h:191-194 | bumping the counter never moves the last `(` |
| Naming.NextCandidate | include/object/object_property_register.h:191-194 | one turn of the loop replaces the digits of `index - 1` by those of `index`, turning candidate k into candidate k + 1 |
| Naming.BumpSuffix | include/object/object_property_register.h:192-193 | after `index++`, rewriting the digits after the last `(` from `index - 1` to `index` yields the next candidate name |
| Naming.CandidatesDistinct | include/object/object_property_register.h:191-194 | the candidates from the first bump on are pairwise distinct, so the loop cannot revisit a name |
| Naming.Tried | include/object/object_property_register.h:191-194 | the names the loop has already rejected include every earlier candidate |
| Naming.TriedOnlyEarlier | include/object/object_property_register.h:191-194 | and only earlier candidates |
| Naming.TriedGrows | include/object/object_property_register.h:191-194 | each bump reaches a name not yet tried |
| Naming.TriedShrinksRemaining | include/object/object_property_register.h:191-194 | each bump past a taken name leaves fewer taken names untried, so the loop ends over a finite set of names |
| Naming.TakenPrefixGrows | include/object/object_property_register.h:191-194 | a bump happens only past a taken name, so every candidate before the current one was taken |
| Naming.DisambiguateName | include/object/object_property_register.h:184-194 | the chosen name is free; a free name is kept verbatim; otherwise it is the first free candidate, every earlier one being taken |
| Naming.RootSequence | include/object/object_property_register.h:184-194 | a taken `Root` becomes `Root(1)`, then `Root(2)` |
| Naming.BumpCanRepeatName | include/object/object_property_register.h:184-194 | a taken `a(2)` is retried once unchanged as `a(2)` before moving on to `a(3)` |
| Naming.BumpWithoutOpenParen | include/object/object_property_register.h:186-193 | a name ending in `)` with no `(` has its first character overwritten: `Box)` becomes `2ox)` |
| Strings.Find | include/helpers/helpers.h:17 | `find(w, from)` returns the first position at or after `from` where `w` occurs, or none when there is no such position |
| Strings.LastIndexOf | include/helpers/helpers.h:51 | `find_last_of(c)` returns the last position holding `c`, or none when `c` does not occur |
| Strings.SplitString | include/helpers/helpers.h:13-36 | the loop computes the token sequence defined by `Split`, for a non-empty delimiter and for an empty delimiter with a cap of one, the only empty-delimiter case in which the loop ends |
| Strings.SplitStep | include/helpers/helpers.h:17-32 | one pass of the loop either breaks with the whole token list or moves strictly forward past the next delimiter, leaving the rest of the split unchanged and the loop still bound to end |
| Strings.SplitDropsEmptyPieces | include/helpers/helpers.h:19-26 | without a cap, no token is empty |
| Strings.SplitWithoutDelimiter | include/helpers/helpers.h:17-22 | a string without the delimiter splits into itself, or into nothing when it is empty |
| Strings.SplitEmptyDelimiter | include/helpers/helpers.h:17-31 | an empty delimiter with a cap of one yields the whole string as the single token, `[""]` for an empty string |
| Strings.SplitFromNonEmpty | include/helpers/helpers.h:19-26 | the loop only ever pushes non-empty pieces |
| Strings.NoEmptyAppend | include/helpers/helpers.h:19-26 | a piece is pushed only when it is not empty, so the token list stays free of empty tokens |
| Strings.SplitFromBounded | include/helpers/helpers.h:29-32 | with a cap of at least two, the tokens never exceed the cap |
| Strings.SplitCapped | include/helpers/helpers.h:29-32 | `max_elements >= 2` bounds the number of tokens |
| Strings.SplitCapRemainder | include/helpers/helpers.h:29-32 | the capped last token is the unsplit remainder, delimiters included, and may be a bare delimiter |
| Strings.FindInPrefix | include/helpers/helpers.h:17 | `find` in a prefix returns the whole string's first occurrence when it fits in the prefix, and npos otherwise |
| Strings.SplitPrefixLast | include/helpers/helpers.h:24-26 | cut just before the delimiter a pass finds, the uncapped split ends with that pass's piece, dropped when empty |
| Strings.SplitPrefixStep | include/helpers/helpers.h:17-28 | cut at or after the end of that delimiter, the uncapped split passes it exactly as the full split does |
| Strings.SplitFromCapShape | include/helpers/helpers.h:29-32 | the loop that reaches its cap stops right after some delimiter at i: the last token is all text after it, and the earlier tokens are the uncapped split of the text up to i |
| Strings.SplitCapShape | include/helpers/helpers.h:29-32 | for every string, non-empty delimiter and cap of at least two, a result of exactly cap tokens ends with the unsplit text after some delimiter, preceded by the uncapped split of the text before it |
| Strings.EraseWordFromString | include/helpers/helpers.cpp:36-50 | reports whether the word occurs at all, and leaves the string defined by `EraseFrom`, which resumes each search at the erase position |
| Strings.EraseOne | include/helpers/helpers.cpp:45 | `erase(iter, length)` at an occurrence removes exactly the word's length |
| Strings.FindFromStart | include/helpers/helpers.cpp:37-42 | the first search succeeds exactly when the word occurs somewhere, which is what `foundAny` reports |
| Strings.EraseLength | include/helpers/helpers.cpp:43-48 | each erase shortens the string by the word's length |
| Strings.EraseAbsent | include/helpers/helpers.cpp:36-50 | a string without the word is unchanged |
| Strings.EraseKeepsJoinedOccurrence | include/helpers/helpers.cpp:43-48 | erasing `ab` from `aabb` leaves `ab`: the search resumes at the erase position, so it sees the joined `ab` again |
| Strings.StringReplace | include/helpers/helpers.cpp:5-22 | the word is left unchanged and true is returned, whatever the arguments |
| Strings.AfterLastColon | include/helpers/helpers.h:51-53 | the suffix after the last `:`, which holds no `:` |
| Strings.ClassNameHasNoColon | include/helpers/helpers.h:46-67 | `GetClassName` and `GetClassDisplayName` never contain `:` |
| Strings.ClassNameOfPlainName | include/helpers/helpers.h:46-55 | a type name without `class `, `struct ` or `:` is its own class name |
| Strings.DisplayNameErasesComponent | include/helpers/helpers.h:57-67 | the display name is the class name of the type name with `Component` erased first |
| Events.EventLauncher.constructor | include/helpers/helpers.h:215-216 | a new launcher has no receivers |
| Events.EventLauncher.DisconnectReceiver | include/helpers/helpers.h:222-228 | true exactly when the hash was connected; it is removed and nothing else changes |
| Events.EventLauncher.AssignFrom | include/helpers/helpers.h:241-243 | assignment returns the target and copies no receivers |
| Events.KeyCounter.constructor | include/helpers/helpers.h:265 | the static counter of `Connect` starts at 1 |
| Events.FunctionSink.constructor | include/helpers/helpers.h:262 | the sink points at its launcher |
| Events.FunctionSink.Connect | include/helpers/helpers.h:264-273 | the key is the counter before the call, the counter grows by one, and the function is stored under that key |
| Events.FunctionSink.ConnectReceiver | include/helpers/helpers.h:275-299 | a receiver's function is stored under the receiver's key, replacing any earlier one |
| Events.FunctionSink.Disconnect | include/helpers/helpers.h:301-303 | delegates to the launcher: true exactly when the key was connected, and it is gone afterwards |
| Events.FunctionSink.DisconnectReceiver | include/helpers/helpers.h:305-317 | a null receiver is refused and nothing changes; otherwise true exactly when its key was connected, which is then removed |
| Events.ConnectTwice | include/helpers/helpers.h:264-273 | two connections get consecutive keys, and both functions are stored |
| Objects.CreatedObjectReads | include/object/object.cpp:38-46 | a new object's `GetName()` is the free name chosen at creation (the requested one when it was free), its `GetType()` is the name registered for its class id, it is `IsOfType<T>()` of every T whose class name is its class, and a search by its name finds an object |
| Objects.CreatedSameType | include/object/object.cpp:33-36 | `HasSameObjectTypeAs` holds between a new object and any older object created as the same class |
| Objects.ForEachOfTypeSpec | include/object/tagged_object.h:25-34 | `ForEach` visits exactly the holders of the class's tag, and nothing when the name is not a registered object type |
| Objects.CreatedHoldsTag | include/object/tagged_object.h:36-39 | an object created as a tagged class holds that class's tag |
| Objects.ForEachVisitsCreated | include/object/tagged_object.h:25-39 | after a class's registration as an object tag, `ForEach` of that class visits every object created as it |
| Objects.GetOrEmplace | include/object/tagged_object.h:80-82 | `Storage()` leaves the object holding the storage, keeps an existing value, emplaces a default one otherwise, and changes nothing else |
| Objects.StorageIdempotent | include/object/tagged_object.h:80-82 | a second `Storage()` changes nothing |
| Objects.RefreshAfter | include/object/object.h:63-74 | a change to one component of one object followed by the refresh of that object's cached names leaves its cache fresh ("fresh": equal to the header's `GetObjectComponents`, keyed by the hash of `GetObjectType()`) and touches nothing else |
| Objects.AddCached | include/object/object.h:63-74 | `AddComponent<T>` raises exactly for a dead entity |
| Objects.AddCachedSpec | include/object/object.h:63-74 | on success the object holds T, a new T takes the object as master, an existing T is kept, and the object's cached names are the header's listing for it under the hash of `GetObjectType()`; on a raise nothing changes |
| Objects.EraseCached | include/object/object.h:87-93 | `EraseComponent<T>` raises exactly for a dead entity |
| Objects.EraseCachedSpec | include/object/object.h:87-93 | on success it reports whether T was present, T is absent afterwards, and the cache is the header's listing for the object under the hash of `GetObjectType()`; on a raise nothing changes |
| Objects.CopyCached | include/object/object.h:129-136 | the static `CopyComponent<T>(from, to)` succeeds with true exactly when both objects hold T, and raises exactly as the register's `CopyComponent` does |
| Objects.CopyCachedSpec | include/object/object.h:129-136 | on true the destination takes the source's data and its cache is the header's listing for it under the hash of `GetObjectType()`; otherwise nothing changes |
| Objects.RecachedKeepsCaches | include/object/object.h:63-74 | a step that changes one object's entries, only appends storages, leaves `GetObjectType()` as it was and refreshes that object's cache keeps every object's cache fresh ("fresh": equal to the header's `GetObjectComponents`, keyed by the hash of `GetObjectType()`) |
| Objects.GetOrCreateExtends | include/object/object_property_register.h:344-365 | creating a component only appends to the enumeration of storages, and appends T's storage alone, only when it did not exist |
| Objects.RecachedInPlace | include/object/object.h:87-93 | the same for a step that keeps the enumeration of storages |
| Objects.AddCachedKeepsCaches | include/object/object.h:63-74 | `AddComponent<T>` leaves `GetObjectType()` unchanged unless it creates T's storage, T's storage is a tag storage and no tag storage existed before; whenever `GetObjectType()` is unchanged, every object's cache stays fresh |
| Objects.EraseCachedKeepsCaches | include/object/object.h:87-93 | so does `EraseComponent<T>` |
| Objects.CopyCachedKeepsCaches | include/object/object.h:129-136 | and `CopyComponent<T>` |
| Objects.RefreshFresh | include/object/object.h:72 | refreshing a cache that already equals the header's listing changes nothing |
| Objects.AddCachedIdempotent | include/object/object.h:63-74 | a second `AddComponent<T>` returns the same component and changes nothing |
| Objects.RecachedTrans | include/object/object.h:63-93 | two steps that each change only one object's entry of one storage together change only that entry |
| Objects.RecachedRestores | include/object/object.h:87-93 | a step that only touches one absent entry and leaves the cache fresh is no change at all |
| Objects.AddThenEraseRestores | include/object/object.h:63-93 | adding T to an object without it and erasing T again restores the store exactly and reports that T was present |
| Objects.Object.constructor | include/object/object.cpp:26-31 | the object wraps the given entity, alive or not |
| Objects.Object.AddComponent | include/object/object.h:63-74 | the store after the call and the answer are those of `AddCached`, whose refresh is the header's listing (`Objects.AddCachedSpec`) |
| Objects.Object.EraseComponent | include/object/object.h:87-93 | the store after the call is that of `EraseCached`, whose refresh is the header's listing (`Objects.EraseCachedSpec`); a failure is the throw the source propagates, and the boolean of a success is the register's answer, which the source's `void` member discards |
| Objects.Object.EraseComponentByName | include/object/object.h:95-115 | those of the by-name erase, whose refresh is the header's listing (`ComponentOps.EraseByName`) |
| Objects.Object.CopyComponentByName | include/object/object.h:44-59 | those of the by-name copy into this object |
| Objects.Object.AddComponentByName | include/object/object.h:77-79 | those of the register's `AddComponentByName`, with no refresh of the cache |
| Objects.Object.CopyComponent | include/object/object.h:129-136 | those of `CopyCached`, whose refresh of the destination is the header's listing (`Objects.CopyCachedSpec`) |
| Objects.Object.AddChildren | include/object/object.cpp:51-53 | the store becomes `Adopt` of the old store |
| Objects.Object.RemoveChildren | include/object/object.h:146 | the store becomes `Disown` of the old store |
| Objects.Object.SetParent | include/object/object.h:145 | the store becomes `Reparent` of the old store |
| Objects.Object.Storage | include/object/tagged_object.h:80-82 | the store becomes `GetOrEmplace` of the old store |
| Objects.Object.RegisterTagged | include/object/tagged_object.h:87-92 | the tables become `TaggedTables` of the old tables and the store is unchanged |
| Objects.TaggedTables | include/object/tagged_object.h:87-92 | after the static initializer the class resolves to an object type with its tag, reports its own name, and has its tag and storage closures |
| Objects.TaggedTablesIdempotent | include/object/tagged_object.h:87-92 | running the initializer twice is running it once |
| Objects.PropertyStorageCommutes | include/object/tagged_object.h:88-89 | registering the property storage does not disturb the tag registration, in either order |
| Lifecycle.Without | include/object/object_property_register.h:295 | the enumeration order after destroying a set of entities holds exactly the survivors |
| Lifecycle.WithoutDistinct | include/object/object_property_register.h:295 | destroying keeps the enumeration free of repeats |
| Lifecycle.RemoveWithout | include/object/object_property_register.h:295 | destroying a set and then one more entity is destroying the enlarged set |
| Lifecycle.Restrict | include/object/object_property_register.h:295 | the descriptors after a destroy are exactly those of the survivors, unchanged |
| Lifecycle.StripAll | include/object/object_property_register.h:295 | every storage keeps exactly the survivors' values, unchanged, and no storage disappears |
| Lifecycle.DestroyAll | include/object/object_property_register.h:295 | destroying a set restricts the descriptors to the survivors and keeps the storage enumeration |
| Lifecycle.DestroyAllValid | include/object/object_property_register.h:295 | destroying any set keeps the store well formed |
| Lifecycle.DestroyAllSpec | include/object/object_property_register.h:295 | after destroying a set, the live entities are the old ones minus the set, and every survivor keeps its descriptor and every value it held, while the destroyed hold none |
| Lifecycle.RestrictStep | include/object/object_property_register.h:295 | one more destroy extends the destroyed set by one (descriptors) |
| Lifecycle.StripAllStep | include/object/object_property_register.h:295 | the same for the storages |
| Lifecycle.DestroyStep | include/object/object_property_register.h:295 | destroying one live entity after a set is destroying the set with it |
| Lifecycle.EraseBeforeDestroy | include/object/object_property_register.cpp:103-114 | erasing a component right before destroying the entity makes no difference to the outcome |
| Lifecycle.RefreshBeforeDestroy | include/object/object_property_register.cpp:103-114 | neither does refreshing its cached names |
| Lifecycle.EraseByNameBeforeDestroy | include/object/object_property_register.cpp:105-114 | nor any `EraseComponentByName` before the destroy |
| Lifecycle.WithoutNothing | include/object/object_property_register.h:295 | removing nothing keeps the enumeration |
| Lifecycle.DestroyNothing | include/object/object_property_register.h:295 | destroying nothing keeps the store |
| Lifecycle.Ids | include/object/object_property_register.h:274-296 | the entities a handle list names: each handle's id, and nothing else |
| Lifecycle.IdsConcat | include/object/object_property_register.h:274-296 | the entities of two concatenated walks are the union of their entities |
| Lifecycle.RankedRestrict | include/object/object_property_register.h:295 | destroying entities cannot create a cycle of children |
| Lifecycle.PreOrderInside | include/object/object_property_register.h:540-551 | the walk from an entity of a set closed under live children stays inside the set |
| Lifecycle.ChildrenPreOrderInside | include/object/object_property_register.h:546-550 | the same for the walk over one entity's children |
| Lifecycle.PreOrderRestricted | include/object/object_property_register.h:540-551 | walking after destroying a closed set visits exactly what the walk before visited outside that set |
| Lifecycle.ChildrenPreOrderRestricted | include/object/object_property_register.h:546-550 | the same for the walk over one surviving entity's children |
| Lifecycle.SubtreesClosed | include/object/object_property_register.h:264-298 | the union of the queued handles' subtrees is a set of live entities closed under live children, and holds every truthy queued handle |
| Lifecycle.DrainStep | include/object/object_property_register.h:264-298 | after the first i queued subtrees are gone, handling the next queued handle adds exactly its remaining subtree |
| Lifecycle.IdsStep | include/object/object_property_register.h:274-296 | one more walked handle adds its one entity |
| Lifecycle.EraseViaMeta | include/object/object_property_register.h:288 | an `Erase Component` call by name removes that component when the name is a component and is a no-op otherwise; it only removes values, and it makes no difference to the destroy that follows |
| Lifecycle.EraseEachViaMeta | include/object/object_property_register.h:285-290 | erasing every listed name through the meta function makes no difference to the destroy that follows |
| Lifecycle.SubtreeWalk | include/object/object_property_register.h:270-272 | a queued handle's walk over the store its predecessors left visits only live entities, and its entities extend the deleted set as the walk over the original store restricted to the survivors would |
| Lifecycle.ObjectTypeFrame | include/object/object_property_register.h:519-533 | the header's `GetObjectType` depends only on the storage enumeration, not on the entity |
| Lifecycle.DestroyOneInline | include/object/object_property_register.h:285-295 | one object of the header's drain is erased then destroyed: the store is that with one more entity destroyed |
| Lifecycle.VisitInline | include/object/object_property_register.h:274-296 | one handle of the walk: destroyed when `GetObjectType` names a type, skipped when it answers "" |
| Lifecycle.DestroyEachInline | include/object/object_property_register.h:274-296 | the walk loop destroys every walked entity, or none when `GetObjectType` answers "" |
| Lifecycle.DrainSkip | include/object/object_property_register.h:265-269 | a queued handle already dead (deleted as part of an earlier subtree, or queued twice) is skipped and deletes nothing |
| Lifecycle.DrainLive | include/object/object_property_register.h:271-295 | for a queued handle still alive, every object `GetAllChildren` collects is alive, and deleting them (when `GetObjectType` is not blank) adds exactly that walk to the deleted set |
| Lifecycle.DrainOne | include/object/object_property_register.h:265-296 | one queued handle, skipped when no longer truthy, deletes exactly the next step of `DeletedSoFar` |
| Lifecycle.DrainQueueInline | include/object/object_property_register.h:264-298 | the header's drain loop destroys exactly `DeletedSoFar` of the whole queue and keeps the store well formed |
| Lifecycle.Restamped | include/object/object_property_register.cpp:264-277 | validation changes no descriptor, no membership of any storage and no key set; every value becomes its stamped version |
| Lifecycle.StampedCellFrame | include/object/object_property_register.cpp:266-273 | the stamped value of an entry depends only on that entity's entries and the descriptors |
| Lifecycle.RestampedOwners | include/object/object_property_register.cpp:266-273 | after validation every listed component of an entity has that entity as its master and is valid, keeping its type and data; unlisted ones are untouched |
| Lifecycle.RestampedCellStable | include/object/object_property_register.cpp:266-273 | a stamped value is its own stamped version |
| Lifecycle.RestampedIdempotent | include/object/object_property_register.cpp:264-277 | validating twice is validating once |
| Lifecycle.StampByName | include/object/object_property_register.cpp:270-271 | setting the master of a component fetched by name keeps the store well formed |
| Lifecycle.StampHeld | include/object/object_property_register.cpp:270-271 | for a held component it is exactly a `SetMaster` of that entity's value |
| Lifecycle.StampNext | include/object/object_property_register.cpp:269-273 | the invariant of the inner loop: one more listed component stamped |
| Lifecycle.StampShape | include/object/object_property_register.cpp:271 | stamping a held value keeps the shape of the store |
| Lifecycle.StampCells | include/object/object_property_register.cpp:271 | stamping one listed entry extends the stamped entries by it |
| Lifecycle.StampStep | include/object/object_property_register.cpp:269-273 | each name of the listing stamps exactly the next listed storage |
| Lifecycle.StampListed | include/object/object_property_register.cpp:269-273 | the inner loop stamps every listed component of the entity |
| Lifecycle.EntityStamped | include/object/object_property_register.cpp:266-276 | once every listed storage is stamped, the entity counts as done |
| Lifecycle.AllStamped | include/object/object_property_register.cpp:264-277 | once every live entity is done, the store is `Restamped` |
| Lifecycle.AllStampedPools | include/object/object_property_register.cpp:264-277 | the storages are then exactly the stamped storages |
| Lifecycle.StampedListing | include/object/object_property_register.cpp:269 | stamping changes no entity's listing, so the names the loop reads are those of the original store |
| Lifecycle.StampedRekey | include/object/object_property_register.cpp:266 | the invariant does not depend on which entity comes next |
| Lifecycle.SameShapeValid | include/object/object_property_register.cpp:264-277 | a store of the same shape as a well-formed one is well formed |
| Lifecycle.ValidationNames | include/object/object_property_register.cpp:269 | the names visited for an entity are its listing, by its own type in the .cpp and by `GetObjectType` in the header |
| Lifecycle.ValidateObject | include/object/object_property_register.cpp:266-276 | one entity of the `each` loop: all its listed components are stamped |
| Lifecycle.ValidateAll | include/object/object_property_register.cpp:264-277 | `ValidateAllGameObjects()` leaves exactly the `Restamped` store |
| Duplication.TagLookup | include/object/object_property_register.h:580 | `m_RegisteredTagsByType[hash]` reads the class's tag, or 0 for a class without one, which it inserts; no other entry changes |
| Duplication.CopyInto | include/object/object_property_register.h:589 | copying one component by name into the new object only adds to that object |
| Duplication.AddThenCopy | include/object/object_property_register.h:583-585 | adding then copying one component by name only adds to the new object |
| Duplication.DupStep | include/object/object_property_register.h:580-590 | one storage of the loop only adds to the new object |
| Duplication.DupFrom | include/object/object_property_register.h:579-591 | the remaining storages of the loop only add to the new object |
| Duplication.DuplicateComponents | include/object/object_property_register.h:579-591 | the loop over the storages computes `DupFrom` over the whole storage enumeration |
| Duplication.CopyIntoSpec | include/object/object_property_register.h:587-589 | when the new object already holds the component, it takes the original's data and nothing else of it changes |
| Duplication.AddThenCopySpec | include/object/object_property_register.h:583-585 | when only the original holds it, the new object gets it, with the original's data |
| Duplication.UnresolvedSpec | include/object/object_property_register.h:583-589 | a storage whose name does not resolve is left alone |
| Duplication.CoherentWithoutTags | include/object/object_property_register.h:580 | inserting into the tag map keeps the registration coherent |
| Duplication.DupStepSpec | include/object/object_property_register.h:580-590 | one storage step raises nothing, leaves every other storage's entry of the new object alone, and copies a carried component |
| Duplication.DupFromSpec | include/object/object_property_register.h:579-591 | the loop from storage k on copies every carried component there and leaves the earlier storages alone |
| Duplication.DupAllSpec | include/object/object_property_register.h:579-591 | the whole loop copies every component of the original except the descriptor and the class's tag |
| Duplication.DuplicateObject | include/object/object_property_register.h:575-594 | `DuplicateObject<T>` creates under the original's name as `CreateNew` does, then runs the storage loop |
| Duplication.DuplicatedSpec | include/object/object_property_register.h:575-594 | the result adds exactly one entity, keeps every older entity and value; creation succeeds exactly when initializing T does not throw; on success the duplicate is a root of T's type without children and its own master, named by the free-name rule from the original's name |
| Duplication.DuplicatedCopies | include/object/object_property_register.h:575-594 | under a coherent registration the duplicate succeeds exactly when creation did, that is exactly when initializing T does not throw, and then carries the original's data in every copied storage |
| Duplication.CopiesExtend | include/object/object_property_register.h:155-164 | one more clone that copies its original extends the copies kept so far |
| Duplication.SetParentOnLeaf | include/object/object_property_register.h:161 | `SetParent` of a new clone under the previous one, which has no children, sets the clone's parent and gives the previous one exactly that child |
| Duplication.AddedKeeps | include/object/object_property_register.h:155-164 | adding a new clone keeps the old entities and the chain built so far |
| Duplication.FirstClone | include/object/object_property_register.h:157-159 | the first clone starts the chain |
| Duplication.LinkLeaf | include/object/object_property_register.h:160-163 | linking a new leaf under the last clone extends the chain |
| Duplication.LinkedKeeps | include/object/object_property_register.h:160-162 | linking keeps the storages and every old entity |
| Duplication.LinkedExtends | include/object/object_property_register.h:160-163 | linking extends the chain by the new clone |
| Duplication.DuplicatedClone | include/object/object_property_register.h:575-594 | every duplicate satisfies the `CloneOf` summary |
| Duplication.DuplicateClone | include/object/object_property_register.h:575-594 | `DuplicateObject<T>` as used by `CopyObject`: its outcome satisfies `CloneOf`, which says the duplicate fails whenever initializing T throws and, under a coherent registration, only then |
| Duplication.DuplicatedKeeps | include/object/object_property_register.h:155-164 | a duplicate inside the walk keeps the progress made so far |
| Duplication.DuplicatedSpawns | include/object/object_property_register.h:156 | a successful duplicate inside the walk spawns a fresh unlinked clone carrying its original's components |
| Duplication.SpawnedCopies | include/object/object_property_register.h:156 | the components copied from the current store are those of the original store |
| Duplication.DuplicateNext | include/object/object_property_register.h:156 | one duplicate keeps the progress and, on success, spawns the next clone; it fails whenever initializing T throws and, under a coherent registration, only then |
| Duplication.InitRaisesWithoutTags | include/object/object_property_register.h:117-146 | whether initializing T throws does not depend on the tag table that a duplicate's tag lookup may grow |
| Duplication.LinkedStep | include/object/object_property_register.h:157-163 | linking the spawned clone under the previous one advances the progress by one clone |
| Duplication.CopyNext | include/object/object_property_register.h:156-163 | one visit of `ForSelfAndEachChild`: a failed duplicate keeps the progress so far; a successful one is a new, non-null entity, linked under the previous duplicate, that extends the chain by one; it fails whenever initializing T throws and, under a coherent registration, only then |
| Duplication.ProgressStart | include/object/object_property_register.h:152-153 | the walk starts with no clones and nothing changed |
| Duplication.CopyObject | include/object/object_property_register.h:150-166 | the walk over the original and its descendants (`ForSelfAndEachChild`) leaves every old entity and value in place and builds a chain of new entities of T's type, each the parent of the next and carrying its original's components; on success there is one clone per walked object and the first is returned; the copy fails whenever initializing T throws and, under a coherent registration, only then |
| Register.ObjectPropertyRegister.constructor | include/object/object_property_register.h:610-620 | a register starts with an empty registry, empty registration tables and an empty deletion queue |
| Register.ObjectPropertyRegister.RegisterClassAsObjectTag | include/object/object_property_register.h:82-96 | the tables become `WithObjectTag` of the old tables; the registry and the queue are untouched |
| Register.ObjectPropertyRegister.RegisterClassAsPropertyStorage | include/object/object_property_register.h:73-78 | the tables become `WithPropertyStorage` of the old tables |
| Register.ObjectPropertyRegister.RegisterClassAsComponent | include/object/object_property_register.h:562-573 | the meta table maps the component's hashed name to its component meta type and nothing else changes |
| Register.ObjectPropertyRegister.RegisterClassAsComponentOfType | include/object/object_property_register.h:206-211 | the tables become `WithComponentOfType` of the old tables |
| Register.DefineComponentInitializer | include/components/component_specifier.h:35-38 | the register's tables become `DefineComponentTables` of the old ones; the store and queue are untouched |
| Register.ObjectPropertyRegister.MakeComponentPresentBackground | include/object/object_property_register.h:604-608 | the component name is appended to the type's start-up list |
| Register.ObjectPropertyRegister.MakeComponentPresentIn | include/object/object_property_register.h:63-66 | the component name is appended to the start-up list of each type in turn |
| Register.ObjectPropertyRegister.MakeComponentOmnipresent | include/object/object_property_register.h:68-71 | the component name is appended to the omnipresent list |
| Register.ObjectPropertyRegister.FindObjectByName | include/object/object_property_register.h:168-176 | the scan's answer is `FindByName`: the first object in enumeration order with that name, or the null handle |
| Register.ObjectPropertyRegister.GetObjectType | include/object/object_property_register.h:519-533 | the loop returns the object name of the first enumerated storage that is a registered tag, or "" |
| Register.ObjectPropertyRegister.GetObjectComponents | include/object/object_property_register.cpp:42-58 | the names listed for the entity by its own type |
| Register.ObjectPropertyRegister.GetObjectComponentsInline | include/object/object_property_register.h:213-231 | the names listed for the entity by the type `GetObjectType` names |
| Register.ObjectPropertyRegister.Each | include/object/object_property_register.h:247-253 | the function is called once per live object, in enumeration order, with a truthy handle to it |
| Register.ObjectPropertyRegister.ForEachByTag | include/object/object_property_register.h:596-602 | the visited entities are exactly the holders of the tag, each once |
| Register.ObjectPropertyRegister.GetAllChildrenInline | include/object/object_property_register.h:540-551 | the handles appended are the pre-order walk from the handle over live children |
| Register.ObjectPropertyRegister.GetAllChildren | include/object/object_property_register.cpp:422-433 | the .cpp walk appends `DetachWalk`'s handles and leaves the descriptors with the links it clears |
| Register.ObjectPropertyRegister.CreateNew | include/object/object_property_register.h:178-201 | the store after creation and the returned handle satisfy `CreatedAs` |
| Register.ObjectPropertyRegister.CreateObjectFromType | include/object/object_property_register.cpp:5-24 | they satisfy `CreatedFromType` |
| Register.ObjectPropertyRegister.AddComponent | include/object/object_property_register.h:344-365 | raises exactly for a dead entity, and then changes nothing; otherwise the store is `GetOrCreate` of the old one, and true is returned exactly when T was absent |
| Register.ObjectPropertyRegister.GetComponent | include/object/object_property_register.h:367-390 | raises exactly for a dead entity; otherwise returns a reference to the entity's T, created when absent |
| Register.ObjectPropertyRegister.AddComponentByName | include/object/object_property_register.h:421-441 | the store and answer of `AddByName` |
| Register.ObjectPropertyRegister.EraseComponent | include/object/object_property_register.h:457-470 | raises exactly for a dead entity; otherwise reports whether T was present and leaves `EraseIfPresent` of the old store |
| Register.ObjectPropertyRegister.CopyComponent | include/object/object_property_register.h:472-483 | the store and answer of `CopyComponent` |
| Register.ObjectPropertyRegister.DuplicateObject | include/object/object_property_register.h:575-594 | the outcome satisfies `CloneOf` |
| Register.ObjectPropertyRegister.CopyObject | include/object/object_property_register.h:150-166 | the outcome satisfies `Progress` over the whole walk; on success it has one clone per walked object and returns the first; it fails whenever initializing T throws and, under a coherent registration, only then |
| Register.ObjectPropertyRegister.DeleteObject | include/object/object_property_register.cpp:77-85 | the handle is queued exactly when it is truthy, and nothing else changes |
| Register.ObjectPropertyRegister.ValidateAllGameObjects | include/object/object_property_register.cpp:264-277 | the store becomes `Restamped` of the old store, keyed by each entity's own type |
| Register.ObjectPropertyRegister.ValidateAllGameObjectsInline | include/object/object_property_register.h:506-516 | the same keyed by `GetObjectType` |
| Register.ObjectPropertyRegister.ClearDeletingQueueInline | include/object/object_property_register.h:264-303 | the header's drain: the store loses exactly `DeletedSoFar` of the queue, is then validated if the queue was not empty, and the queue is cleared |
| Register.ObjectPropertyRegister.ClearDeletingQueue | include/object/object_property_register.cpp:87-122 | the .cpp drain: before validation the store is `Pruned` by exactly the union of the queued handles' subtrees; it is validated when the queue was not empty, and the queue is cleared |
| Detach.RankedShrink | include/object/object_property_register.cpp:422-433 | dropping entities or child links cannot create a cycle of children |
| Detach.RemoveChildrenDrops | include/object/object_properties.cpp:107-114 | `RemoveChildren` only drops links, and only to the given child |
| Detach.ClearParentLoosens | include/object/object_properties.cpp:81-87 | `ClearParent` only clears this object's parent and drops links to it; no other parent changes |
| Detach.ClearParentDropsSelf | include/object/object_properties.cpp:81-87 | afterwards the old live parent no longer lists the object, given children without repeats |
| Detach.UnlinkedKept | include/object/object_properties.cpp:81-87 | once an object is gone from its old parent's children, further clearing keeps it gone |
| Detach.ClearParentDistinct | include/object/object_properties.cpp:81-87 | clearing keeps every children list free of repeats |
| Detach.ClearParentRanked | include/object/object_properties.cpp:81-87 | clearing cannot create a cycle of children |
| Detach.DetachWalk | include/object/object_property_register.cpp:422-433 | the .cpp `GetAllChildren` from a truthy handle keeps the set of objects and stays acyclic |
| Detach.DetachChildren | include/object/object_property_register.cpp:428-432 | the same for its loop over a child list |
| Detach.DetachSubtree | include/object/object_property_register.cpp:422-433 | the recursive method computes `DetachWalk`: its descriptors and its appended handles |
| Detach.DetachChild | include/object/object_property_register.cpp:426-430 | one entry of the detached children list: a truthy entry is walked into, a dead one is passed over, and the walk so far stays equal to `DetachChildren` |
| Detach.ClearParentDrops | include/object/object_properties.cpp:81-87 | the only link `ClearParent` drops is the one to the object itself |
| Detach.ClearParentParents | include/object/object_properties.cpp:86 | only the object's own parent changes, and it becomes the null handle |
| Detach.NullParentsKept | include/object/object_properties.cpp:81-87 | a cleared parent stays cleared |
| Detach.WalkLoosens | include/object/object_property_register.cpp:422-433 | the walk only clears parents and drops child links |
| Detach.ChildrenLoosen | include/object/object_property_register.cpp:428-432 | so does its loop over the children |
| Detach.WalkDrops | include/object/object_property_register.cpp:422-433 | the walk drops only links to objects it collects |
| Detach.ChildrenDrops | include/object/object_property_register.cpp:428-432 | the same for the loop |
| Detach.WalkParents | include/object/object_property_register.cpp:422-433 | only collected objects change parent, and each collected object ends with a null parent |
| Detach.ChildrenParents | include/object/object_property_register.cpp:428-432 | the same for the loop |
| Detach.WalkDistinct | include/object/object_property_register.cpp:422-433 | children lists stay free of repeats |
| Detach.ChildrenDistinctKept | include/object/object_property_register.cpp:428-432 | the same for the loop |
| Detach.WalkUnlinks | include/object/object_property_register.cpp:422-433 | every collected object is gone from its original parent's children |
| Detach.ChildrenUnlink | include/object/object_property_register.cpp:428-432 | the same for the loop |
| Detach.ChildWalkInside | include/object/object_property_register.h:546-550 | a child's pre-order walk lies inside its parent's |
| Detach.WalkInside | include/object/object_property_register.cpp:422-433 | the .cpp walk collects nothing outside the header's pre-order walk over the original links |
| Detach.ChildrenInside | include/object/object_property_register.cpp:428-432 | the same for the loop |
| Detach.ChildrenCovered | include/object/object_property_register.cpp:428-432 | every truthy child still listed when the loop reaches it is collected |
| Detach.WalkCloses | include/object/object_property_register.cpp:422-433 | the collected set is closed under the original live children, up to links dropped earlier |
| Detach.HeadCloses | include/object/object_property_register.cpp:426-432 | the object visited first is closed once its remaining children are collected |
| Detach.ChildrenClose | include/object/object_property_register.cpp:428-432 | the same closure for the loop |
| Detach.DetachWalkCollects | include/object/object_property_register.cpp:422-433 | the walk starts with the handle itself and collects exactly the objects of the header's pre-order walk, although it unlinks as it goes |
| Detach.DetachWalkUnlinks | include/object/object_property_register.cpp:422-433 | after the walk every collected object has a null parent and is gone from its original parent's children, and only links to collected objects were dropped |
| Detach.DetachWalkValid | include/object/object_property_register.cpp:422-433 | the walk keeps the store well formed |
| Detach.EraseFirstResolves | include/object/object_property_register.cpp:105-109 | erasing the first cached name by name refreshes the cache, and every cached name still resolves to a component |
| Detach.EraseFirstHolding | include/object/object_property_register.cpp:105-109 | that erase takes the object out of the storage the name resolves to and out of no other storage |
| Detach.EraseFirstShrinks | include/object/object_property_register.cpp:105-109 | the object never gains a storage, and loses one when the cache was fresh, which ends the erase loop |
| Detach.EraseCached | include/object/object_property_register.cpp:104-109 | the erase loop empties the object's cached names and makes no difference to the destroy that follows |
| Detach.CachesResolveDestroyAll | include/object/object_property_register.cpp:114 | destroying objects keeps every cached name a registered component |
| Detach.DestroyOne | include/object/object_property_register.cpp:104-114 | one collected object: erased, then destroyed; the store is that with one more entity destroyed |
| Detach.DestroyCollected | include/object/object_property_register.cpp:99-115 | the loop over the collected handles destroys exactly their entities |
| Detach.PreOrderLinksIn | include/object/object_property_register.h:540-551 | a walk over more live links visits at least as much |
| Detach.PreOrderSameLinks | include/object/object_property_register.h:540-551 | the walk depends only on the live links |
| Detach.PrunedStart | include/object/object_property_register.cpp:89 | before the drain nothing is pruned |
| Detach.PrunedWalks | include/object/object_property_register.cpp:96 | after earlier subtrees are gone, the walk of a queued handle collects what the walk over the survivors' original links would |
| Detach.PrunedDescriptors | include/object/object_property_register.cpp:96-115 | a walk then its destroy extend the pruned set by the walked objects, keeping the survivors' links to other survivors |
| Detach.PrunedLinks | include/object/object_property_register.cpp:96-115 | after a walk and its destroys, survivors list only children they listed before, and still list every old child that survives |
| Detach.PrunedUnlinks | include/object/object_property_register.cpp:96-115 | every object pruned so far, and every walked one, is no longer listed by its old parent |
| Detach.DrainWalkStep | include/object/object_property_register.cpp:89-116 | one truthy queued handle prunes exactly its current subtree and keeps the store well formed and acyclic |
| Detach.WalkLive | include/object/object_property_register.cpp:422-433 | every collected handle is truthy |
| Detach.ChildrenLive | include/object/object_property_register.cpp:428-432 | the same for the loop |
| Detach.DrainSkipPruned | include/object/object_property_register.cpp:90-93 | a queued handle already dead is skipped and adds nothing |
| Detach.PrunedCaches | include/object/object_property_register.cpp:89-116 | pruning keeps every cached name a registered component |
| Detach.DrainQueue | include/object/object_property_register.cpp:87-122 | the drain removes exactly the union of the queued handles' subtrees, leaving the survivors with their original descriptors minus the links to removed objects; it validates afterwards when the queue was not empty |
| Detach.SubtreesRequeue | include/object/object_property_register.cpp:89-93 | queuing a handle a second time deletes nothing more |
| Detach.DrainsDeleteAlike | include/object/object_property_register.h:264-303 | when `GetObjectType` names a type, the header's drain and the .cpp drain leave the same live objects, enumeration and storages |
| EntityStore.Filter | include/object/object_property_register.h:295 | filtering the enumeration keeps exactly the entities that pass, and never lengthens it |
| EntityStore.Strip | include/object/object_property_register.h:295 | `destroy` removes the entity from every storage and keeps every storage |
| EntityStore.StripAfterErase | include/object/object_property_register.cpp:107-114 | erasing a component before `destroy` makes no difference to the storages |
| EntityStore.Remove | include/object/object_property_register.h:295 | the enumeration after one `destroy` holds exactly the other entities |
| EntityStore.RemoveDistinct | include/object/object_property_register.h:295 | and stays free of repeats |
| EntityStore.WithDescriptors | include/object/object_properties.cpp:73-122 | replacing the descriptors by ones with the same entities, unrepeated children and each entity its own master keeps the store well formed |
| Hierarchy.RemoveAtDistinct | include/object/object_properties.cpp:110-113 | erasing one position of a children list without repeated ids keeps it without repeats and unlists exactly that child |
| Hierarchy.AnyChildContainsWitness | include/object/object_properties.cpp:99-103 | when the loop over the children answers true, some child from that position on contains the object |
| Hierarchy.AnyChildContainsFrom | include/object/object_properties.cpp:99-103 | and any such child makes it answer true |
| Hierarchy.ChildrenPreOrderTruthy | include/object/object_property_register.h:546-550 | the loop over the children collects only truthy handles |
| Detach.WithoutTwice | include/object/object_property_register.cpp:89-117 | destroying one set of entities and then another is destroying their union (enumeration) |
| Detach.StripAllTwice | include/object/object_property_register.cpp:89-117 | the same for the storages |
| Detach.DestroyAllTwice | include/object/object_property_register.cpp:89-117 | and for the whole store, whatever the descriptors in between |
| Ecspp.ClearDeletingQueue | include/ecspp.h:11-13 | the header's drain (object_property_register.h:264-303): the queued subtrees are destroyed, or nothing is when no tag storage exists, then validation runs through the header's listing when the queue was not empty, and the queue is emptied |
| Ecspp.CreateNewObject | include/ecspp.h:15-17 | creation of a base `Object` under the free-name rule |
| Ecspp.CreateNewObjectOfType | include/ecspp.h:20-22 | creation through the type's `Create` closure; a name that is not a registered object type yields the falsy default handle and leaves the registry unchanged |
| Ecspp.ForEachObject | include/ecspp.h:24-26 | the function is called with a truthy handle to each live object, once each, in enumeration order |
| Ecspp.GetObjectComponents | include/ecspp.h:28-30 | exactly the header's listing (object_property_register.h:213-231), repeats included: a name is listed exactly when it is the registered name of a storage, other than the descriptor storage, that holds the object and whose name is registered under the hash of `GetObjectType()` |
| Ecspp.CopyObject | include/ecspp.h:37-42 | a falsy handle yields the falsy default handle and changes nothing; otherwise the object and its descendants are copied as `Object`s, chained, and the first copy is returned; the copy fails whenever initializing `Object` throws and, under a coherent registration, only then |
| Ecspp.FindObjectByName | include/ecspp.h:44-46 | the register's scan (`FindByName`): the first object in descriptor-storage order with the name (`EntityStore.FindByNameSpec`); the null handle exactly when no object has the name |
| Ecspp.DeleteObject | include/ecspp.h:48-50 | the object is queued exactly when its entity is alive |
| Ecspp.DeleteHandle | include/ecspp.h:52-57 | a falsy handle is refused and nothing is queued; a truthy one is queued |
| Ecspp.DeleteEntity | include/ecspp.h:59-61 | the entity is queued exactly when it is alive |
| Ecspp.GetClassNameByID | include/object/object_property_register.h:233-238 | the registered object name for a known id, and "" for an unknown one |
| Ecspp.IsClassRegistered | include/object/object_property_register.h:305-307 | true exactly when the hashed class name has a meta type |

## Left out

- Serialization. The YAML serialisation and deserialisation of objects and components (include/object/object_property_register.cpp:129-262, 279-418) is not modelled: it is file and text I/O through yaml-cpp.
- `ClearEntities` (include/object/object_property_register.cpp:26-40) is not modelled. It depends on `GameObject` and an `InternalUse` tag, neither of which is part of this model.
- `RegisterComponentBaseAsDerivingFromObject`, called at include/components/component_specifier.h:51-56, is not part of this model, because its definition is not in the modelled source.
- `DefineComponent` (include/components/component_specifier.h:6-41) is modelled in parts: type stamping (`Components.DefinedCell`), `GetTypeName` (`Strings.ClassName`), `AliveCount` (`EntityStore.PoolSize`, with `ComponentOps.GetOrCreate` and `ComponentOps.EraseIfPresent` stating the count changes) and the static registration with its reversed template arguments (`Registration.DefineComponentTables`, `Register.DefineComponentInitializer`). `ForEach` (lines 22-27) has no member: it hands each value of ComponentName's storage to a callback, and a storage here is a map without entt's iteration order. `GetMasterObject` (lines 29-31) is `Components.MasterOf` wrapped in a handle.
- Meta-registry closures are not executed. Their observable effects are modelled: `ForEach` visits the tag holders and `Create` creates the object. The `Destroy` closure and `CallDestroyForObject` (include/object/object_property_register.h:492-504) call a user-defined virtual `Destroy()`, which is not visible here, so they are modelled as having no effect on the store. The same goes for `Init()` at creation and for the `Component` hooks.
- `CallMetaFunction`, `IsMetaClass` and `IsMetaFunction` are not modelled as separate members. They are modelled only through the closures the register uses: `Erase Component`, `Copy Component`, `Has Component`, `Create` and `ForEach`.
- Callback-taking operations (`Each`, `ForEachByTag`, `ForEachObject`, `TaggedObject::ForEach`, `ForEachChild`) return the sequence of objects the callback would receive. Callbacks that change the registry while it is being iterated are not modelled.
- `CreateComponent` (include/object/object_property_register.h:556-560) is `GetComponent` followed by a dereference. The `TemplatedObjectHandle` wrappers (include/object/object_property_register.h:627-652) add only a typed view of a handle. Neither has a member of its own.
- Hashing: `entt::hashed_string` is an uninterpreted function `hash` of the register, assumed neither injective nor collision-free. The 64-bit width of `std::hash<int>` in `FunctionSink::Connect` is not modelled: the key is the counter itself, as for small counters on common standard libraries.
- entt's enumeration orders (of entities, of storages, of a storage's entities) are modelled as sequences fixed by the store: new entities and new storages are appended. The actual order entt produces, including swap-and-pop reordering, is not modelled.
- Entity ids are never recycled: the store hands out increasing ids and entt's version bits are not modelled.
- Acyclic child links (`Hierarchy.Ranked`) are a precondition of every walk. The source recurses forever on a cycle, and `AddChildren` does not prevent one across objects of the same type.
- `Detach.CachesResolve` and `Registration.NamesResolve` are preconditions of the .cpp drain and of validation in both versions. They require every cached or registered component name to resolve back to its own storage. The reasons differ by version. In the .cpp, a name that does not resolve makes the erase loop (include/object/object_property_register.cpp:105-109) run forever, and makes validation dereference the null pointer `GetComponentByName` returns (include/object/object_property_register.cpp:270-271). The header's validation (include/object/object_property_register.h:506-516) skips a falsy handle instead. But its `GetComponentByName` throws `std::runtime_error` when the resolved type cannot be built from the entity (include/object/object_property_register.h:434-436). For a name that resolves to another type, it gets or creates a component in that type's storage. The model follows neither path.
- Register.ObjectPropertyRegister.GetAllChildren: requires a truthy start, as `DrainQueue` guarantees. The .cpp version dereferences the descriptor of a dead handle. Inside the walk, the loop iterates over the child list as it was on entry. The source iterates a vector that the recursive `ClearParent` calls shrink, which is undefined behaviour, so the model walks a snapshot of the list.
- Register.ObjectPropertyRegister.DuplicateObject: states the `CloneOf` summary. The exact outcome is stated by `Duplication.DuplicateObject` and `Duplication.DuplicatedSpec`.
- The descriptor storage has id 0 (`EntityStore.DescriptorPool`). For a class without a tag, `m_RegisteredTagsByType[...]` also yields 0. In the source the descriptor storage has its own type hash, so `DuplicateObject` of such a class would additionally skip any storage whose id is 0. The model cannot express that second storage.
- `m_RegisteredTagsByName` (include/object/object_property_register.h:618) is declared but never used, so it has no counterpart.
- include/object/object_property_register.cpp defines its members outside `namespace ecspp`, redefines members the header already defines in the class, and uses `GameObject`, yaml-cpp and `GuiLayer`, none of which the modelled headers declare. So `Object` (include/object/object.h) and the free functions of include/ecspp.h reach the header's definitions. The model follows them: `Object`'s cache refresh (`ComponentOps.Refresh`) uses the header's `GetObjectComponents`, keyed by the hash of `GetObjectType()`; `Ecspp.ClearDeletingQueue` drains with `ClearDeletingQueueInline`; `Ecspp.GetObjectComponents` lists with `GetObjectComponentsInline`. The .cpp's own versions (`Register.ObjectPropertyRegister.GetObjectComponents`, `ValidateAllGameObjects`, `ClearDeletingQueue` and the `Detach` module) are modelled as written, as members of their own.
- Lines that cannot compile are modelled by their evident intent:
  - `Object::ForEachComponent` (include/object/object.cpp:55-62) has no member;
  - `Object::IsInChildren` (include/object/object.cpp:76-78) is modelled from `ObjectProperties::IsInChildren`;
  - the static `Object::CopyComponent` (include/object/object.h:129-136) uses a member inside a static function; it is modelled as refreshing the destination's cache;
  - `Object(e).GetTypeOfObject()` (include/object/object_property_register.cpp:49) names no member of `Object`; the .cpp listing is modelled as keyed by the descriptor's type id;
  - `Registry().valid`, `Registry().storage` and `Registry().view` are called at include/components/component.h:13, include/components/component_specifier.h:19 and 23, and include/object/object_handle.h:37, where `Registry()` constructs a temporary of the class `Registry` (include/object/registry.h:17-28), and that class has no `valid`, `storage` or `view` member; each call is modelled as the same call on `Registry::Get()`, the one global registry;
  - `CopyObject<Object>` (include/ecspp.h:41) instantiates a template that calls `ForSelfAndEachChild`, which only `TaggedObject` has (include/object/tagged_object.h:41-51); it is modelled as copying with the base `Object` class's name.
- `Object::SetParent` and `Object::RemoveChildren` are declared (include/object/object.h:145-146) but not defined. They are modelled as forwarding to the descriptor, as `Object::AddChildren` does.
- Logging, the `DEBUG_ERROR` of the `Object` constructor, static-initialisation order across translation units, and concurrency are not modelled.
- Objects.AddCachedKeepsCaches: states that every cache stays fresh only while `GetObjectType()` keeps its answer. When `AddComponent<T>` creates the first tag storage, every other object's listing key changes, and their caches go stale.
- Strings.SplitString: requires a non-empty delimiter or a cap of one. With an empty delimiter and any other cap, every search finds "" where it starts, so the source loops forever.
- Duplication.DuplicateComponents: walks the storage enumeration as it was when the loop began. The source (include/object/object_property_register.h:579) iterates `Registry::Get().storage()` live, and `AddComponentByName` inside the loop can create a storage when a name resolves to one that does not exist yet. Whether entt's iteration then visits the new storage is not modelled.
- Strings.EraseWordFromString: requires a non-empty word. With an empty word every search finds "" at the position just erased, so include/helpers/helpers.cpp:36-50 loops forever. Every caller (include/helpers/helpers.h:49-62) passes a non-empty literal.
- Hierarchy.IsInChildren: a listed child whose descriptor is gone answers false. The source (include/object/object_properties.cpp:89-105) reads the dead child's descriptor, which is undefined behaviour.
