/**
 * The static tables of `ObjectPropertyRegister` and the read-only queries
 * over them and over the entity store. Class ids come from an uninterpreted
 * `hash` of the class name (`HashClassName`, `entt::hashed_string`), which is
 * not assumed to be injective; storage ids are plain identifiers.
 */
module Registration {
  import opened Wrappers
  import opened Handles
  import opened Components
  import opened EntityStore

  /**
   * What `entt::resolve` finds under a class id. An object type carries the
   * `ForEach`, `Create` and `Destroy` closures and no constructor; a component
   * type carries a get-or-create constructor (building `blank` in `pool`) and
   * the `Copy Component`, `Erase Component` and `Has Component` closures.
   */
  datatype MetaType =
    | ObjectMeta(className: string, tagPool: Id)
    | ComponentMeta(className: string, pool: Id, blank: Cell)

  /** Whether `resolved.func(hashed_string(f))` finds a closure. */
  predicate HasFunc(m: MetaType, f: string) {
    match m
    case ObjectMeta(_, _) => f == "ForEach" || f == "Create" || f == "Destroy"
    case ComponentMeta(_, _, _) => f == "Copy Component" || f == "Erase Component" || f == "Has Component"
  }

  /** The registration maps and lists of the register (its static members). */
  datatype Tables = Tables(
    meta: map<Id, MetaType>,                   // entt::meta, by class id
    omnipresent: seq<string>,                  // m_ComponentsToMakeOmnipresent
    propertyStorage: map<Id, Id>,              // m_PropertyStorageContainer: class id to storage
    startComponents: map<Id, seq<string>>,     // m_ComponentsToMakeAvailableAtStartByType
    tagStartFuncs: map<Id, Id>,                // m_RegisteredObjectTagsStartingFuncs: class id to tag storage
    componentsByType: map<Id, seq<string>>,    // m_RegisteredComponentsByType
    tagsByType: map<Id, Id>,                   // m_RegisteredTagsByType
    typesByTag: map<Id, Id>,                   // m_RegisteredTypesByTag
    componentNames: map<Id, string>,           // m_RegisteredComponentsNames: storage id to name
    objectNames: map<Id, string>)              // m_RegisteredObjectNames: class id to name

  function EmptyTables(): Tables {
    Tables(map[], [], map[], map[], map[], map[], map[], map[], map[], map[])
  }

  // ---------------------------------------------------------------------
  // Lookups

  /** `entt::resolve(hashed_string(name))`. */
  function Resolve(t: Tables, hash: string -> Id, name: string): Option<MetaType> {
    if hash(name) in t.meta then Some(t.meta[hash(name)]) else None
  }

  /** `IsClassRegistered(className)`. */
  predicate IsClassRegistered(t: Tables, hash: string -> Id, className: string) {
    Resolve(t, hash, className).Some?
  }

  /** `IsTypeOfObject<T>()`: T has a registered tag. */
  predicate IsTypeOfObject(t: Tables, hash: string -> Id, className: string) {
    hash(className) in t.tagsByType
  }

  /** `GetClassNameByID(id)`: the registered object name, or "". */
  function GetClassNameByID(t: Tables, id: Id): string {
    if id in t.objectNames then t.objectNames[id] else ""
  }

  /** `GetComponentNameByID(id)`: `operator[]` yields "" for an unknown id. */
  function GetComponentNameByID(t: Tables, id: Id): string {
    if id in t.componentNames then t.componentNames[id] else ""
  }

  /** `m_RegisteredComponentsByType[key]`, empty when absent. */
  function RegisteredFor(t: Tables, key: Id): seq<string> {
    if key in t.componentsByType then t.componentsByType[key] else []
  }

  /** The position of the first storage, in enumeration order, that is a registered tag. */
  function FirstTagPool(t: Tables, order: seq<Id>, k: nat): (r: Option<nat>)
    requires k <= |order|
    ensures r.Some? ==> k <= r.value < |order| && order[r.value] in t.typesByTag
    ensures r.Some? ==> forall j :: k <= j < r.value ==> order[j] !in t.typesByTag
    ensures r.None? ==> forall j :: k <= j < |order| ==> order[j] !in t.typesByTag
    decreases |order| - k
  {
    if k == |order| then None
    else if order[k] in t.typesByTag then Some(k)
    else FirstTagPool(t, order, k + 1)
  }

  /**
   * The header's `GetObjectType(e)`: it never looks at `e`, and names the type
   * of the first registered tag storage that exists, or "" when there is none.
   */
  function GetObjectType(t: Tables, s: Store): string {
    match FirstTagPool(t, s.poolOrder, 0)
    case None => ""
    case Some(i) => GetClassNameByID(t, t.typesByTag[s.poolOrder[i]])
  }

  /**
   * Without any tag storage the answer is ""; a non-empty answer is the name
   * registered for the first tag storage in storage order.
   */
  lemma GetObjectTypeSpec(t: Tables, s: Store)
    ensures var r := GetObjectType(t, s);
            && ((forall p :: p in s.poolOrder ==> p !in t.typesByTag) ==> r == "")
            && (r != "" ==> exists i :: 0 <= i < |s.poolOrder| && s.poolOrder[i] in t.typesByTag &&
                                        (forall j :: 0 <= j < i ==> s.poolOrder[j] !in t.typesByTag) &&
                                        r == GetClassNameByID(t, t.typesByTag[s.poolOrder[i]]))
  {
  }

  /**
   * Storages appended to the enumeration leave the first tag storage where
   * it was, unless there was none and one of the appended storages is a tag.
   */
  lemma FirstTagPoolExtend(t: Tables, a: seq<Id>, b: seq<Id>)
    requires |a| <= |b| && b[..|a|] == a
    requires FirstTagPool(t, a, 0).Some? || forall j :: |a| <= j < |b| ==> b[j] !in t.typesByTag
    ensures FirstTagPool(t, b, 0) == FirstTagPool(t, a, 0)
  {
    forall j | 0 <= j < |a| ensures b[j] == a[j] {
      assert b[..|a|][j] == a[j];
    }
  }

  /** The same for `GetObjectType`. */
  lemma ObjectTypeExtend(t: Tables, s: Store, r: Store)
    requires |s.poolOrder| <= |r.poolOrder| && r.poolOrder[..|s.poolOrder|] == s.poolOrder
    requires FirstTagPool(t, s.poolOrder, 0).Some? || forall j :: |s.poolOrder| <= j < |r.poolOrder| ==> r.poolOrder[j] !in t.typesByTag
    ensures GetObjectType(t, r) == GetObjectType(t, s)
  {
    FirstTagPoolExtend(t, s.poolOrder, r.poolOrder);
  }

  /** Whether storage p makes `GetObjectComponents` list a name for e under type key `key`. */
  predicate ListedPool(t: Tables, s: Store, key: Id, e: Entity, p: Id) {
    p != DescriptorPool && GetComponentNameByID(t, p) in RegisteredFor(t, key) && Has(s, p, e)
  }

  function ListedFrom(t: Tables, s: Store, key: Id, e: Entity, k: nat): seq<string>
    requires k <= |s.poolOrder|
    decreases |s.poolOrder| - k
  {
    if k == |s.poolOrder| then []
    else
      var p := s.poolOrder[k];
      (if ListedPool(t, s, key, e, p) then [GetComponentNameByID(t, p)] else []) + ListedFrom(t, s, key, e, k + 1)
  }

  /**
   * The names `GetObjectComponents(e)` returns, in storage order, when the
   * object's type is looked up under `key`.
   */
  function Listed(t: Tables, s: Store, key: Id, e: Entity): seq<string> {
    ListedFrom(t, s, key, e, 0)
  }

  lemma {:induction false} ListedFromSpec(t: Tables, s: Store, key: Id, e: Entity, k: nat, n: string)
    requires k <= |s.poolOrder|
    ensures n in ListedFrom(t, s, key, e, k) <==>
            exists j :: k <= j < |s.poolOrder| && ListedPool(t, s, key, e, s.poolOrder[j]) &&
                        n == GetComponentNameByID(t, s.poolOrder[j])
    decreases |s.poolOrder| - k
  {
    if k < |s.poolOrder| {
      ListedFromSpec(t, s, key, e, k + 1, n);
    }
  }

  /**
   * A name is listed exactly when some storage other than the descriptor
   * storage holds e and carries that name, and the name is registered for
   * the type.
   */
  lemma ListedSpec(t: Tables, s: Store, key: Id, e: Entity, n: string)
    ensures n in Listed(t, s, key, e) <==>
            exists p :: p in s.poolOrder && ListedPool(t, s, key, e, p) && n == GetComponentNameByID(t, p)
  {
    ListedFromSpec(t, s, key, e, 0, n);
  }

  /** The storages behind the names `ListedFrom` returns, in the same order. */
  function ListedPoolsFrom(t: Tables, s: Store, key: Id, e: Entity, k: nat): seq<Id>
    requires k <= |s.poolOrder|
    decreases |s.poolOrder| - k
  {
    if k == |s.poolOrder| then []
    else
      var p := s.poolOrder[k];
      (if ListedPool(t, s, key, e, p) then [p] else []) + ListedPoolsFrom(t, s, key, e, k + 1)
  }

  /** Each listed name is the name of the storage at the same position, and every listed storage appears. */
  lemma {:induction false} ListedPoolsFromSpec(t: Tables, s: Store, key: Id, e: Entity, k: nat)
    requires k <= |s.poolOrder|
    ensures var names, pools := ListedFrom(t, s, key, e, k), ListedPoolsFrom(t, s, key, e, k);
            && |names| == |pools|
            && (forall i :: 0 <= i < |pools| ==> ListedPool(t, s, key, e, pools[i]) && names[i] == GetComponentNameByID(t, pools[i]))
            && (forall j :: k <= j < |s.poolOrder| && ListedPool(t, s, key, e, s.poolOrder[j]) ==> s.poolOrder[j] in pools)
    decreases |s.poolOrder| - k
  {
    if k < |s.poolOrder| {
      ListedPoolsFromSpec(t, s, key, e, k + 1);
      var p := s.poolOrder[k];
      var names, pools := ListedFrom(t, s, key, e, k + 1), ListedPoolsFrom(t, s, key, e, k + 1);
      if ListedPool(t, s, key, e, p) {
        assert ListedFrom(t, s, key, e, k) == [GetComponentNameByID(t, p)] + names;
        assert ListedPoolsFrom(t, s, key, e, k) == [p] + pools;
      } else {
        assert ListedFrom(t, s, key, e, k) == names;
        assert ListedPoolsFrom(t, s, key, e, k) == pools;
      }
    }
  }

  /** The listing only looks at the storages holding e: other entities do not affect it. */
  lemma {:induction false} ListedFromLocal(t: Tables, s: Store, s': Store, key: Id, e: Entity, k: nat)
    requires k <= |s.poolOrder| && s'.poolOrder == s.poolOrder
    requires forall p :: Has(s, p, e) <==> Has(s', p, e)
    ensures ListedFrom(t, s, key, e, k) == ListedFrom(t, s', key, e, k)
    decreases |s.poolOrder| - k
  {
    if k < |s.poolOrder| {
      ListedFromLocal(t, s, s', key, e, k + 1);
    }
  }

  /** Storages from position k on that do not hold e list nothing for it. */
  lemma {:induction false} ListedFromNone(t: Tables, s: Store, key: Id, e: Entity, k: nat)
    requires k <= |s.poolOrder|
    requires forall j :: k <= j < |s.poolOrder| ==> !Has(s, s.poolOrder[j], e)
    ensures ListedFrom(t, s, key, e, k) == []
    decreases |s.poolOrder| - k
  {
    if k < |s.poolOrder| {
      ListedFromNone(t, s, key, e, k + 1);
    }
  }

  /**
   * Storages appended to the enumeration that do not hold e leave e's
   * listing as it was.
   */
  lemma {:induction false} ListedFromExtend(t: Tables, s: Store, s': Store, key: Id, e: Entity, k: nat)
    requires k <= |s.poolOrder| <= |s'.poolOrder| && s'.poolOrder[..|s.poolOrder|] == s.poolOrder
    requires forall p :: Has(s, p, e) <==> Has(s', p, e)
    requires forall j :: |s.poolOrder| <= j < |s'.poolOrder| ==> !Has(s', s'.poolOrder[j], e)
    ensures ListedFrom(t, s, key, e, k) == ListedFrom(t, s', key, e, k)
    decreases |s.poolOrder| - k
  {
    if k < |s.poolOrder| {
      assert s'.poolOrder[k] == s.poolOrder[k];
      ListedFromExtend(t, s, s', key, e, k + 1);
    } else {
      ListedFromNone(t, s', key, e, k);
    }
  }

  /**
   * The loop of the .cpp `GetObjectComponents(e)` over the storages: the
   * names registered for e's type id whose storages hold e, in storage order,
   * never the descriptor storage.
   */
  method ListComponents(t: Tables, s: Store, e: Entity) returns (names: seq<string>)
    requires e in s.descriptors
    ensures names == Listed(t, s, s.descriptors[e].typeId, e)
  {
    names := [];
    var key := s.descriptors[e].typeId;
    for k := 0 to |s.poolOrder|
      invariant names + ListedFrom(t, s, key, e, k) == Listed(t, s, key, e)
    {
      var id := s.poolOrder[k];
      ghost var rest := ListedFrom(t, s, key, e, k + 1);
      var n := GetComponentNameByID(t, id);
      if id != DescriptorPool && n in RegisteredFor(t, key) && Has(s, id, e) {
        assert ListedFrom(t, s, key, e, k) == [n] + rest;
        assert names + [n] + rest == names + ([n] + rest);
        names := names + [n];
      } else {
        assert ListedFrom(t, s, key, e, k) == rest;
      }
    }
  }

  /**
   * The loop of the header's `GetObjectComponents(e)`: the descriptor
   * storage is skipped, and for every other storage the type is looked up
   * anew through `GetObjectType`.
   */
  method ListComponentsInline(t: Tables, hash: string -> Id, s: Store, e: Entity) returns (names: seq<string>)
    ensures names == Listed(t, s, hash(GetObjectType(t, s)), e)
  {
    names := [];
    ghost var key := hash(GetObjectType(t, s));
    for k := 0 to |s.poolOrder|
      invariant names + ListedFrom(t, s, key, e, k) == Listed(t, s, key, e)
    {
      var id := s.poolOrder[k];
      ghost var rest := ListedFrom(t, s, key, e, k + 1);
      if id == DescriptorPool {
        assert ListedFrom(t, s, key, e, k) == rest;
        continue;
      }
      var objectType := GetObjectType(t, s);
      var n := GetComponentNameByID(t, id);
      if n in RegisteredFor(t, hash(objectType)) && Has(s, id, e) {
        assert ListedFrom(t, s, key, e, k) == [n] + rest;
        assert names + [n] + rest == names + ([n] + rest);
        names := names + [n];
      } else {
        assert ListedFrom(t, s, key, e, k) == rest;
      }
    }
  }

  // ---------------------------------------------------------------------
  // Coherence of the component registration

  /** The meta entry for the name of storage p is a component type built in p. */
  predicate ResolvesToPool(t: Tables, hash: string -> Id, n: string, p: Id) {
    hash(n) in t.meta && t.meta[hash(n)].ComponentMeta? && t.meta[hash(n)].pool == p
  }

  /**
   * Each registered component name resolves back to the storage it names,
   * and no type lists the empty name. Hash collisions between registered
   * names break this.
   */
  predicate NamesResolve(t: Tables, hash: string -> Id) {
    && (forall p :: p in t.componentNames ==> ResolvesToPool(t, hash, t.componentNames[p], p))
    && (forall k :: k in t.componentsByType ==> "" !in t.componentsByType[k])
  }

  /** Under coherence every listed name resolves to a component type whose storage holds e. */
  lemma ListedResolves(t: Tables, hash: string -> Id, s: Store, key: Id, e: Entity, n: string)
    requires NamesResolve(t, hash) && n in Listed(t, s, key, e)
    ensures exists p :: p != DescriptorPool && Has(s, p, e) && ResolvesToPool(t, hash, n, p) &&
                        GetComponentNameByID(t, p) == n
  {
    ListedSpec(t, s, key, e, n);
    var p :| p in s.poolOrder && ListedPool(t, s, key, e, p) && n == GetComponentNameByID(t, p);
  }

  // ---------------------------------------------------------------------
  // Registration, as updates of the tables

  /** `RegisterClassAsObjectTag<Tag, Attached>()`. */
  function WithObjectTag(t: Tables, hash: string -> Id, tagPool: Id, attached: string): Tables {
    var h := hash(attached);
    t.(meta := t.meta[h := ObjectMeta(attached, tagPool)],
       tagStartFuncs := t.tagStartFuncs[h := tagPool],
       typesByTag := t.typesByTag[tagPool := h],
       tagsByType := t.tagsByType[h := tagPool],
       objectNames := t.objectNames[h := attached])
  }

  /** `RegisterClassAsPropertyStorage<Storage, MainClass>()`. */
  function WithPropertyStorage(t: Tables, hash: string -> Id, storagePool: Id, mainClass: string): Tables {
    t.(propertyStorage := t.propertyStorage[hash(mainClass) := storagePool])
  }

  /** `RegisterClassAsComponentOfType<ComponentType, Component>()`. */
  function WithComponentOfType(t: Tables, hash: string -> Id, componentType: string,
                               component: string, pool: Id, blank: Cell): Tables
  {
    var k := hash(componentType);
    t.(componentsByType := t.componentsByType[k := RegisteredFor(t, k) + [component]],
       meta := t.meta[hash(component) := ComponentMeta(component, pool, blank)],
       componentNames := t.componentNames[pool := component])
  }

  /**
   * The static initializer of `DefineComponent<ComponentName, ComponentType>`:
   * it calls `RegisterClassAsComponentOfType<ComponentName, ComponentType>()`,
   * the reverse of that template's `<ComponentType, Component>` order. So
   * the list filed under ComponentName's hash gains ComponentType's name,
   * and it is ComponentType, with its own storage, that becomes resolvable
   * as a component; ComponentName itself is not registered by it.
   */
  function DefineComponentTables(t: Tables, hash: string -> Id, componentName: string, componentType: string,
                                 typePool: Id, blank: Cell): (r: Tables)
    ensures Resolve(r, hash, componentType) == Some(ComponentMeta(componentType, typePool, blank))
    ensures GetComponentNameByID(r, typePool) == componentType
    ensures RegisteredFor(r, hash(componentName)) == RegisteredFor(t, hash(componentName)) + [componentType]
    ensures forall k :: k != hash(componentName) ==> RegisteredFor(r, k) == RegisteredFor(t, k)
    ensures hash(componentName) != hash(componentType) ==> Resolve(r, hash, componentName) == Resolve(t, hash, componentName)
    ensures r.objectNames == t.objectNames && r.tagsByType == t.tagsByType && r.typesByTag == t.typesByTag
  {
    WithComponentOfType(t, hash, componentName, componentType, typePool, blank)
  }

  /**
   * A second run of that initializer leaves the meta and name tables as the
   * first left them but lists ComponentType twice under ComponentName's
   * hash; the initializer is a once-only static, so it runs once per class.
   */
  lemma DefineComponentTwice(t: Tables, hash: string -> Id, componentName: string, componentType: string,
                             typePool: Id, blank: Cell)
    ensures var once := DefineComponentTables(t, hash, componentName, componentType, typePool, blank);
            var twice := DefineComponentTables(once, hash, componentName, componentType, typePool, blank);
            && twice.meta == once.meta && twice.componentNames == once.componentNames
            && twice.(componentsByType := once.componentsByType) == once
            && RegisteredFor(twice, hash(componentName)) == RegisteredFor(t, hash(componentName)) + [componentType, componentType]
  {
  }

  /** `MakeComponentPresentBackground<Component, T>()`. */
  function WithStartComponent(t: Tables, hash: string -> Id, component: string, typeName: string): Tables {
    var k := hash(typeName);
    var old_list := if k in t.startComponents then t.startComponents[k] else [];
    t.(startComponents := t.startComponents[k := old_list + [component]])
  }

  /** The start-up components of a class, in declaration order. */
  function StartComponents(t: Tables, hash: string -> Id, className: string): seq<string> {
    if hash(className) in t.startComponents then t.startComponents[hash(className)] else []
  }

  /** An object tag registration makes the class resolvable, typed and named, and touches no component table. */
  lemma ObjectTagRegistered(t: Tables, hash: string -> Id, tagPool: Id, attached: string)
    ensures var r := WithObjectTag(t, hash, tagPool, attached);
            && Resolve(r, hash, attached) == Some(ObjectMeta(attached, tagPool))
            && IsClassRegistered(r, hash, attached) && IsTypeOfObject(r, hash, attached)
            && GetClassNameByID(r, hash(attached)) == attached
            && r.typesByTag[tagPool] == hash(attached) && r.tagStartFuncs[hash(attached)] == tagPool
            && r.componentsByType == t.componentsByType && r.componentNames == t.componentNames
            && r.startComponents == t.startComponents && r.omnipresent == t.omnipresent
            && r.propertyStorage == t.propertyStorage
            && forall id :: id != hash(attached) ==> GetClassNameByID(r, id) == GetClassNameByID(t, id)
  {
  }

  /** Registering the same object class twice is the same as registering it once. */
  lemma ObjectTagIdempotent(t: Tables, hash: string -> Id, tagPool: Id, attached: string)
    ensures var once := WithObjectTag(t, hash, tagPool, attached);
            WithObjectTag(once, hash, tagPool, attached) == once
  {
    var once := WithObjectTag(t, hash, tagPool, attached);
    var twice := WithObjectTag(once, hash, tagPool, attached);
    assert twice.meta == once.meta;
    assert twice.typesByTag == once.typesByTag;
  }

  /**
   * A component registration makes the component resolvable to its storage,
   * names the storage and appends the component to the type's list; running
   * it twice lists the component twice, which is why each registration runs
   * from a once-only static initializer.
   */
  lemma ComponentRegistered(t: Tables, hash: string -> Id, componentType: string, component: string, pool: Id, blank: Cell)
    ensures var r := WithComponentOfType(t, hash, componentType, component, pool, blank);
            && Resolve(r, hash, component) == Some(ComponentMeta(component, pool, blank))
            && GetComponentNameByID(r, pool) == component
            && RegisteredFor(r, hash(componentType)) == RegisteredFor(t, hash(componentType)) + [component]
            && r.objectNames == t.objectNames && r.tagsByType == t.tagsByType && r.typesByTag == t.typesByTag
    ensures var r2 := WithComponentOfType(WithComponentOfType(t, hash, componentType, component, pool, blank),
                                          hash, componentType, component, pool, blank);
            RegisteredFor(r2, hash(componentType)) == RegisteredFor(t, hash(componentType)) + [component, component]
  {
  }

  /**
   * A component registration keeps the tables coherent when the component
   * has a non-empty name and its hash collides with no other registered
   * component name.
   */
  lemma ComponentRegistrationCoherent(t: Tables, hash: string -> Id, componentType: string, component: string, pool: Id, blank: Cell)
    requires NamesResolve(t, hash) && component != ""
    requires forall p :: p in t.componentNames && p != pool ==> hash(t.componentNames[p]) != hash(component)
    ensures NamesResolve(WithComponentOfType(t, hash, componentType, component, pool, blank), hash)
  {
    var r := WithComponentOfType(t, hash, componentType, component, pool, blank);
    forall p | p in r.componentNames
      ensures ResolvesToPool(r, hash, r.componentNames[p], p)
    {
      if p != pool {
        assert r.componentNames[p] == t.componentNames[p];
        assert ResolvesToPool(t, hash, t.componentNames[p], p);
      }
    }
  }

  /** An object tag keeps the tables coherent unless its hash collides with a component name. */
  lemma ObjectTagCoherent(t: Tables, hash: string -> Id, tagPool: Id, attached: string)
    requires NamesResolve(t, hash)
    requires forall p :: p in t.componentNames ==> hash(t.componentNames[p]) != hash(attached)
    ensures NamesResolve(WithObjectTag(t, hash, tagPool, attached), hash)
  {
    var r := WithObjectTag(t, hash, tagPool, attached);
    forall p | p in r.componentNames
      ensures ResolvesToPool(r, hash, r.componentNames[p], p)
    {
      assert ResolvesToPool(t, hash, t.componentNames[p], p);
    }
  }

  /** Start-up components accumulate per class, in registration order. */
  lemma StartComponentAppended(t: Tables, hash: string -> Id, component: string, typeName: string, other: string)
    ensures StartComponents(WithStartComponent(t, hash, component, typeName), hash, typeName) ==
            StartComponents(t, hash, typeName) + [component]
    ensures hash(other) != hash(typeName) ==>
            StartComponents(WithStartComponent(t, hash, component, typeName), hash, other) == StartComponents(t, hash, other)
  {
  }

  /** `MakeComponentPresentIn<Component, Types...>()`: the component is appended for each type in turn. */
  function WithStartComponentIn(t: Tables, hash: string -> Id, component: string, types: seq<string>): Tables
    decreases |types|
  {
    if types == [] then t
    else WithStartComponentIn(WithStartComponent(t, hash, component, types[0]), hash, component, types[1..])
  }

  /**
   * After `MakeComponentPresentIn`, every listed type starts with the
   * component, earlier start-up components stay in place, a type not listed
   * is untouched, and no other table changes.
   */
  lemma {:induction false} StartComponentIn(t: Tables, hash: string -> Id, component: string, types: seq<string>, other: string)
    ensures var r := WithStartComponentIn(t, hash, component, types);
            && r == t.(startComponents := r.startComponents)
            && (other in types ==> component in StartComponents(r, hash, other))
            && |StartComponents(t, hash, other)| <= |StartComponents(r, hash, other)|
            && StartComponents(r, hash, other)[..|StartComponents(t, hash, other)|] == StartComponents(t, hash, other)
            && ((forall ty :: ty in types ==> hash(ty) != hash(other)) ==>
                  StartComponents(r, hash, other) == StartComponents(t, hash, other))
    decreases |types|
  {
    if types != [] {
      var t1 := WithStartComponent(t, hash, component, types[0]);
      StartComponentIn(t1, hash, component, types[1..], other);
      StartComponentAppended(t, hash, component, types[0], other);
      var r := WithStartComponentIn(t1, hash, component, types[1..]);
      var a, b, c := StartComponents(t, hash, other), StartComponents(t1, hash, other), StartComponents(r, hash, other);
      assert b == a || b == a + [component];
      assert b[..|a|] == a;
      assert c[..|a|] == c[..|b|][..|a|];
      if other in types && other != types[0] {
        assert other in types[1..];
      }
      if other == types[0] {
        assert b[|b| - 1] == component;
        assert c[..|b|][|b| - 1] == component;
      }
    }
  }
}
