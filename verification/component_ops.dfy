/**
 * The component operations of `ObjectPropertyRegister` and `Object` as
 * transitions of the entity store: get-or-create, erase, copy, the by-name
 * dispatch through the meta registry, and the refresh of an object's cached
 * component names. A call that throws `std::runtime_error` yields `Failure`.
 */
module ComponentOps {
  import opened Wrappers
  import opened Handles
  import opened Components
  import opened Hierarchy
  import opened EntityStore
  import opened Registration
  import Naming

  /** A non-null `NamedComponentHandle`: the stored component it points to. */
  datatype ComponentRef = ComponentRef(pool: Id, owner: Entity)

  /** The message of `IsHandleValid` for a dead entity. */
  const InvalidEntity: string := "Using Invalid entity!"

  /** Storages the register writes through never coincide with the descriptor storage. */
  predicate AvoidsDescriptorPool(t: Tables) {
    && (forall h :: h in t.meta && t.meta[h].ComponentMeta? ==> t.meta[h].pool != DescriptorPool)
    && (forall h :: h in t.tagStartFuncs ==> t.tagStartFuncs[h] != DescriptorPool)
    && (forall h :: h in t.propertyStorage ==> t.propertyStorage[h] != DescriptorPool)
  }

  /** Only entity e's entry of storage p may differ between the two stores. */
  ghost predicate OnlyTouches(s: Store, r: Store, p: Id, e: Entity) {
    && r.descriptors == s.descriptors && r.order == s.order
    && (forall q, x :: (q != p || x != e) ==> (Has(r, q, x) <==> Has(s, q, x)))
    && (forall q, x :: (q != p || x != e) && Has(s, q, x) ==> r.pools[q][x] == s.pools[q][x])
  }

  /** Only entity e's entries may differ between the two stores, and none of them is removed. */
  ghost predicate GrowsOnly(s: Store, r: Store, e: Entity) {
    && r.descriptors == s.descriptors && r.order == s.order
    && (forall q, x :: Has(s, q, x) ==> Has(r, q, x))
    && (forall q, x :: x != e ==> (Has(r, q, x) <==> Has(s, q, x)))
    && (forall q, x :: x != e && Has(s, q, x) ==> r.pools[q][x] == s.pools[q][x])
    && (forall q :: q in s.poolOrder ==> q in r.poolOrder)
  }

  lemma GrowsOnlyTrans(s1: Store, s2: Store, s3: Store, e: Entity)
    requires GrowsOnly(s1, s2, e) && GrowsOnly(s2, s3, e)
    ensures GrowsOnly(s1, s3, e)
  {
  }

  // ---------------------------------------------------------------------
  // HasComponent, AddComponent, GetComponent

  /** `HasComponent<T>(e)`: throws for a dead entity, else whether e holds T. */
  function HasComponent(s: Store, p: Id, e: Entity): (r: Result<bool>)
    ensures r.Failure? <==> e !in s.descriptors
    ensures r.Success? ==> (r.value <==> Has(s, p, e))
  {
    if e !in s.descriptors then Failure(InvalidEntity) else Success(Has(s, p, e))
  }

  /**
   * Get-or-create: when e holds no T, emplace `blank` with its master set to
   * e and run its `Init` hook; otherwise leave the store alone.
   */
  function GetOrCreate(s: Store, p: Id, e: Entity, blank: Cell): (r: Store)
    requires StoreValid(s) && e in s.descriptors && p != DescriptorPool
    ensures StoreValid(r) && Has(r, p, e) && OnlyTouches(s, r, p, e) && GrowsOnly(s, r, e)
    ensures Has(s, p, e) ==> r == s
    ensures !Has(s, p, e) ==> r.pools[p][e] == SetMaster(blank, e) && PoolSize(r, p) == PoolSize(s, p) + 1
    ensures r.pools[p][e].master == e || Has(s, p, e)
  {
    if Has(s, p, e) then s
    else
      assert Hook(SetMaster(blank, e)) == SetMaster(blank, e) by { HooksAreNoOps(SetMaster(blank, e)); }
      Emplace(s, p, e, Hook(SetMaster(blank, e)))
  }

  // ---------------------------------------------------------------------
  // AddComponentByName and the start-up components

  /**
   * `AddComponentByName(e, name)`: nothing for a dead entity or an unknown
   * name; an object type has no constructor, so `construct` yields nothing
   * and the call throws; a component type is got or created.
   */
  function AddByName(t: Tables, hash: string -> Id, s: Store, e: Entity, name: string): (r: (Store, Result<Option<ComponentRef>>))
    requires StoreValid(s) && AvoidsDescriptorPool(t)
    ensures StoreValid(r.0) && GrowsOnly(s, r.0, e)
    ensures e !in s.descriptors ==> r == (s, Success(None))
    ensures Resolve(t, hash, name).None? ==> r == (s, Success(None))
    ensures r.1.Failure? <==> e in s.descriptors && Resolve(t, hash, name).Some? && Resolve(t, hash, name).value.ObjectMeta?
    ensures r.1.Failure? ==> r.0 == s
    ensures r.1.Success? && r.1.value.Some? ==>
              var m := Resolve(t, hash, name).value;
              m.ComponentMeta? && r.1.value.value == ComponentRef(m.pool, e) && Has(r.0, m.pool, e) &&
              OnlyTouches(s, r.0, m.pool, e)
    ensures e in s.descriptors && Resolve(t, hash, name).Some? && Resolve(t, hash, name).value.ComponentMeta? ==> r.1 == Success(Some(ComponentRef(Resolve(t, hash, name).value.pool, e)))
  {
    if e !in s.descriptors then (s, Success(None))
    else match Resolve(t, hash, name)
      case None => (s, Success(None))
      case Some(ObjectMeta(_, _)) => (s, Failure("Couldn't add component of type: " + name))
      case Some(ComponentMeta(_, p, blank)) =>
        assert hash(name) in t.meta && t.meta[hash(name)].ComponentMeta?;
        (GetOrCreate(s, p, e, blank), Success(Some(ComponentRef(p, e))))
  }

  /** A component type that `name` resolves to. */
  predicate NamesComponent(t: Tables, hash: string -> Id, name: string) {
    Resolve(t, hash, name).Some? && Resolve(t, hash, name).value.ComponentMeta?
  }

  /** An object type that `name` resolves to: adding it by name throws. */
  predicate NamesObject(t: Tables, hash: string -> Id, name: string) {
    Resolve(t, hash, name).Some? && Resolve(t, hash, name).value.ObjectMeta?
  }

  /**
   * `AddComponentByName` over a list of names, in order; the first name that
   * throws ends the walk with its message.
   */
  function AddAll(t: Tables, hash: string -> Id, s: Store, e: Entity, names: seq<string>): (r: (Store, Option<string>))
    requires StoreValid(s) && AvoidsDescriptorPool(t) && e in s.descriptors
    ensures StoreValid(r.0) && GrowsOnly(s, r.0, e)
    ensures r.1.Some? <==> exists n :: n in names && NamesObject(t, hash, n)
    ensures r.1.None? ==> forall n :: (n in names && NamesComponent(t, hash, n)) ==>
                                      Has(r.0, Resolve(t, hash, n).value.pool, e)
    decreases |names|
  {
    if names == [] then (s, None)
    else
      var init := names[..|names| - 1];
      var last := names[|names| - 1];
      assert names == init + [last];
      var (s1, err) := AddAll(t, hash, s, e, init);
      if err.Some? then (s1, err)
      else
        var (s2, res) := AddByName(t, hash, s1, e, last);
        if res.Failure? then
          assert last in names && NamesObject(t, hash, last);
          (s2, Some(res.error))
        else (s2, None)
  }

  /** The tag of a class and its property storage, emplaced when registered. */
  function Tagged(t: Tables, hash: string -> Id, s: Store, className: string, e: Entity): (r: Store)
    requires StoreValid(s) && AvoidsDescriptorPool(t) && e in s.descriptors
    ensures StoreValid(r) && GrowsOnly(s, r, e)
    ensures hash(className) in t.tagStartFuncs ==> Has(r, t.tagStartFuncs[hash(className)], e)
    ensures hash(className) in t.propertyStorage ==> Has(r, t.propertyStorage[hash(className)], e)
  {
    var h := hash(className);
    var s1 := if h in t.tagStartFuncs then EmplaceDefault(s, t.tagStartFuncs[h], e) else s;
    var s2 := if h in t.propertyStorage then EmplaceDefault(s1, t.propertyStorage[h], e) else s1;
    GrowsOnlyTrans(s, s1, s2, e);
    s2
  }

  /** `emplace<T>(e)` of a default-constructed value. */
  function EmplaceDefault(s: Store, p: Id, e: Entity): (r: Store)
    requires StoreValid(s) && e in s.descriptors && p != DescriptorPool
    ensures StoreValid(r) && GrowsOnly(s, r, e) && Has(r, p, e) && r.pools[p][e] == DefaultCell(0)
  {
    Emplace(s, p, e, DefaultCell(0))
  }

  /**
   * Initializing the class throws: one of its start-up or omnipresent
   * component names resolves to an object type.
   */
  ghost predicate InitRaises(t: Tables, hash: string -> Id, className: string) {
    exists n :: (n in StartComponents(t, hash, className) || n in t.omnipresent) && NamesObject(t, hash, n)
  }

  /**
   * `InitializeObject<T>(e)`: the tag of T and its property storage are
   * emplaced when registered, `Init` does nothing, then every start-up
   * component of T and then every omnipresent component is added by name.
   */
  function Initialized(t: Tables, hash: string -> Id, s: Store, className: string, e: Entity): (r: (Store, Option<string>))
    requires StoreValid(s) && AvoidsDescriptorPool(t) && e in s.descriptors
    ensures StoreValid(r.0) && GrowsOnly(s, r.0, e)
    ensures hash(className) in t.tagStartFuncs ==> Has(r.0, t.tagStartFuncs[hash(className)], e)
    ensures hash(className) in t.propertyStorage ==> Has(r.0, t.propertyStorage[hash(className)], e)
    ensures r.1.Some? <==> exists n :: (n in StartComponents(t, hash, className) || n in t.omnipresent) && NamesObject(t, hash, n)
    ensures r.1.None? ==> forall n :: ((n in StartComponents(t, hash, className) || n in t.omnipresent) &&
                                       NamesComponent(t, hash, n)) ==> Has(r.0, Resolve(t, hash, n).value.pool, e)
  {
    var s2 := Tagged(t, hash, s, className, e);
    var (s3, err) := AddAll(t, hash, s2, e, StartComponents(t, hash, className));
    GrowsOnlyTrans(s, s2, s3, e);
    if err.Some? then (s3, err)
    else
      var (s4, err2) := AddAll(t, hash, s3, e, t.omnipresent);
      GrowsOnlyTrans(s, s3, s4, e);
      (s4, err2)
  }

  /**
   * A new entity with a descriptor named n and typed by the class, then
   * initialized as that class: the body of `CreateNew<T>` once the name is
   * chosen.
   */
  function Created(t: Tables, hash: string -> Id, s: Store, className: string, n: string): (r: (Store, Option<string>))
    requires StoreValid(s) && AvoidsDescriptorPool(t)
    ensures StoreValid(r.0) && s.next !in Alive(s) && Alive(r.0) == Alive(s) + {s.next}
    ensures r.0.descriptors == s.descriptors[s.next := NewDescriptor(n, hash(className), s.next)]
    ensures forall q, x :: x != s.next ==> (Has(r.0, q, x) <==> Has(s, q, x))
    ensures forall q, x :: x != s.next && Has(s, q, x) ==> Has(r.0, q, x) && r.0.pools[q][x] == s.pools[q][x]
    ensures hash(className) in t.tagStartFuncs ==> Has(r.0, t.tagStartFuncs[hash(className)], s.next)
    ensures hash(className) in t.propertyStorage ==> Has(r.0, t.propertyStorage[hash(className)], s.next)
    ensures r.1.Some? <==> exists c :: (c in StartComponents(t, hash, className) || c in t.omnipresent) && NamesObject(t, hash, c)
    ensures r.1.None? ==> forall c :: ((c in StartComponents(t, hash, className) || c in t.omnipresent) &&
                                       NamesComponent(t, hash, c)) ==> Has(r.0, Resolve(t, hash, c).value.pool, s.next)
  {
    var (s1, e) := CreateObject(s, n, hash(className));
    Initialized(t, hash, s1, className, e)
  }

  /**
   * The name `CreateNew` gives an object asked to be called `name`: a free
   * one, `name` itself when free, otherwise the first free candidate.
   */
  ghost predicate FreeNameFor(name: string, taken: set<string>, n: string) {
    && n !in taken
    && (name !in taken ==> n == name)
    && (name in taken ==> exists k: nat :: n == Naming.Candidate(name, k) &&
                                          forall j :: 0 <= j < k ==> Naming.Candidate(name, j) in taken)
  }

  /**
   * r and res are what `CreateNew<T>(name)` leaves and returns: the next
   * identifier is created under a free name and initialized as the class; a
   * failure while adding components is returned, the entity staying alive.
   */
  ghost predicate CreatedAs(t: Tables, hash: string -> Id, s: Store, className: string, name: string,
                            r: Store, res: Result<Handle>) {
    && StoreValid(s) && AvoidsDescriptorPool(t)
    && s.next in r.descriptors
    && FreeNameFor(name, Names(s), r.descriptors[s.next].name)
    && CreatedUnder(t, hash, s, className, r.descriptors[s.next].name, r, res)
  }

  /** r and res are what creating and initializing the class under the name n leave and return. */
  ghost predicate CreatedUnder(t: Tables, hash: string -> Id, s: Store, className: string, n: string,
                               r: Store, res: Result<Handle>)
    requires StoreValid(s) && AvoidsDescriptorPool(t)
  {
    var c := Created(t, hash, s, className, n);
    && r == c.0
    && res == if c.1.Some? then Failure(c.1.value) else Success(FromEntity(s.next))
  }

  /** `CreateNew<T>(name)`: the name is made free, then the entity is created and initialized under it. */
  method CreateNamed(t: Tables, hash: string -> Id, s: Store, className: string, name: string)
    returns (r: Store, res: Result<Handle>)
    requires StoreValid(s) && AvoidsDescriptorPool(t)
    ensures StoreValid(r)
    ensures CreatedAs(t, hash, s, className, name, r, res)
  {
    var n := Naming.DisambiguateName(name, Names(s));
    var c := Created(t, hash, s, className, n);
    r := c.0;
    res := if c.1.Some? then Failure(c.1.value) else Success(FromEntity(s.next));
  }

  /** What `CreatedAs` promises about the new entity. */
  lemma CreatedAsSpec(t: Tables, hash: string -> Id, s: Store, className: string, name: string,
                      r: Store, res: Result<Handle>)
    requires CreatedAs(t, hash, s, className, name, r, res)
    ensures StoreValid(r) && s.next !in Alive(s) && Alive(r) == Alive(s) + {s.next}
    ensures r.descriptors[s.next].name !in Names(s)
    ensures r.descriptors[s.next].typeId == hash(className) && r.descriptors[s.next].master == FromEntity(s.next)
    ensures forall q, x :: x != s.next && Has(s, q, x) ==> Has(r, q, x) && r.pools[q][x] == s.pools[q][x]
    ensures res.Success? ==> res.value == FromEntity(s.next) && Truthy(res.value, Alive(r))
  {
    FromEntityTruthy(s.next, Alive(r));
  }

  /**
   * `CreateObjectFromType(type, name)`: a registered object type creates
   * through its class's `CreateNew`; any other name yields a null handle and
   * changes nothing.
   */
  ghost predicate CreatedFromType(t: Tables, hash: string -> Id, s: Store, typeName: string, objectName: string,
                                  r: Store, res: Result<Handle>) {
    && StoreValid(s) && AvoidsDescriptorPool(t)
    && CreatedFromTypeCases(t, hash, s, typeName, objectName, r, res)
  }

  ghost predicate CreatedFromTypeCases(t: Tables, hash: string -> Id, s: Store, typeName: string, objectName: string,
                                       r: Store, res: Result<Handle>)
    requires StoreValid(s) && AvoidsDescriptorPool(t)
  {
    match Resolve(t, hash, typeName)
    case Some(ObjectMeta(cls, _)) => CreatedAs(t, hash, s, cls, objectName, r, res)
    case _ => r == s && res == Success(NullHandle())
  }

  method CreateFromType(t: Tables, hash: string -> Id, s: Store, typeName: string, objectName: string)
    returns (r: Store, res: Result<Handle>)
    requires StoreValid(s) && AvoidsDescriptorPool(t)
    ensures StoreValid(r)
    ensures CreatedFromType(t, hash, s, typeName, objectName, r, res)
  {
    match Resolve(t, hash, typeName)
    case Some(ObjectMeta(cls, _)) =>
      r, res := CreateNamed(t, hash, s, cls, objectName);
    case _ =>
      r, res := s, Success(NullHandle());
  }

  // ---------------------------------------------------------------------
  // Erase and copy

  /** `EraseComponent<T>(e)` on a live entity: T is removed when present (`Destroy` does nothing). */
  function EraseIfPresent(s: Store, p: Id, e: Entity): (r: Store)
    requires StoreValid(s)
    ensures StoreValid(r) && !Has(r, p, e) && OnlyTouches(s, r, p, e)
    ensures PoolSize(r, p) == if Has(s, p, e) then PoolSize(s, p) - 1 else PoolSize(s, p)
    ensures r.poolOrder == s.poolOrder
  {
    if Has(s, p, e) then Erase(s, p, e) else s
  }

  /** `secondComp = firstComp`: the destination takes the source's data and keeps its identity. */
  function CopyCell(s: Store, p: Id, from: Entity, to: Entity): (r: Store)
    requires StoreValid(s) && Has(s, p, from) && Has(s, p, to)
    ensures StoreValid(r) && OnlyTouches(s, r, p, to) && Has(r, p, to)
    ensures r.pools[p][to].payload == s.pools[p][from].payload
    ensures r.pools[p][to].master == s.pools[p][to].master && r.pools[p][to].typeId == s.pools[p][to].typeId
    ensures r.poolOrder == s.poolOrder
  {
    SetCell(s, p, to, Assign(s.pools[p][to], s.pools[p][from]))
  }

  /**
   * `CopyComponent<T>(first, second)`: the `&&` throws when `first` is dead,
   * and when `first` holds T but `second` is dead; it copies only when both
   * hold T.
   */
  function CopyComponent(s: Store, p: Id, first: Entity, second: Entity): (r: (Store, Result<bool>))
    requires StoreValid(s)
    ensures StoreValid(r.0)
    ensures r.1.Failure? <==> first !in s.descriptors || (Has(s, p, first) && second !in s.descriptors)
    ensures r.1 == Success(true) <==> Has(s, p, first) && Has(s, p, second)
    ensures r.1 != Success(true) ==> r.0 == s
    ensures r.1 == Success(true) ==> OnlyTouches(s, r.0, p, second) && Has(r.0, p, second) &&
                                      r.0.pools[p][second] == Assign(s.pools[p][second], s.pools[p][first])
    ensures r.0.poolOrder == s.poolOrder
  {
    if first !in s.descriptors then (s, Failure(InvalidEntity))
    else if !Has(s, p, first) then (s, Success(false))
    else if second !in s.descriptors then (s, Failure(InvalidEntity))
    else if !Has(s, p, second) then (s, Success(false))
    else (CopyCell(s, p, first, second), Success(true))
  }

  // ---------------------------------------------------------------------
  // The cached component names of an object

  /** `SetComponentsNames(names)` on the descriptor of e: the cache is replaced wholesale. */
  function SetCache(s: Store, e: Entity, names: seq<string>): (r: Store)
    requires StoreValid(s) && e in s.descriptors
    ensures StoreValid(r) && r == s.(descriptors := s.descriptors[e := SetComponentsNames(s.descriptors[e], names)])
  {
    var d := s.descriptors;
    var d' := d[e := SetComponentsNames(d[e], names)];
    assert ChildrenDistinct(d') by {
      forall x | x in d' ensures NoDuplicateIds(d'[x].children) {
        assert d'[x].children == d[x].children;
      }
    }
    WithDescriptors(s, d')
  }

  /**
   * `SetComponentsNames(GetObjectComponents(e))` as `Object` writes it: the
   * header's listing, keyed by the hash of `GetObjectType()`, which is the
   * same for every object of the store.
   */
  function Refresh(t: Tables, hash: string -> Id, s: Store, e: Entity): (r: Store)
    requires StoreValid(s) && e in s.descriptors
    ensures StoreValid(r) && r.pools == s.pools && r.order == s.order && r.poolOrder == s.poolOrder
    ensures r.descriptors.Keys == s.descriptors.Keys
    ensures r.descriptors[e] == s.descriptors[e].(componentNames := Listed(t, s, hash(GetObjectType(t, s)), e))
    ensures forall x :: x in s.descriptors && x != e ==> r.descriptors[x] == s.descriptors[x]
  {
    SetCache(s, e, Listed(t, s, hash(GetObjectType(t, s)), e))
  }

  /** The cache of e is what the header's listing gives for e. */
  predicate CacheFresh(t: Tables, hash: string -> Id, s: Store, e: Entity)
    requires e in s.descriptors
  {
    s.descriptors[e].componentNames == Listed(t, s, hash(GetObjectType(t, s)), e)
  }

  /**
   * `Object::EraseComponentByName(name)`: false for an unknown name or a
   * type without `Erase Component`; otherwise the erase is invoked (throwing
   * for a dead entity), its result is a non-empty `meta_any` whatever the
   * boolean inside, so the cache is refreshed and true returned.
   */
  function EraseByName(t: Tables, hash: string -> Id, s: Store, e: Entity, name: string): (r: (Store, Result<bool>))
    requires StoreValid(s)
    ensures StoreValid(r.0) && r.0.descriptors.Keys == s.descriptors.Keys && r.0.poolOrder == s.poolOrder && r.0.order == s.order
    ensures !NamesComponent(t, hash, name) ==> r == (s, Success(false))
    ensures NamesComponent(t, hash, name) && e !in s.descriptors ==> r == (s, Failure(InvalidEntity))
    ensures NamesComponent(t, hash, name) && e in s.descriptors ==>
              var p := Resolve(t, hash, name).value.pool;
              && r.1 == Success(true) && !Has(r.0, p, e) && CacheFresh(t, hash, r.0, e)
              && r.0.descriptors[e] == s.descriptors[e].(componentNames := r.0.descriptors[e].componentNames)
              && (forall x :: x in s.descriptors && x != e ==> r.0.descriptors[x] == s.descriptors[x])
              && (forall q, x :: (q != p || x != e) ==> (Has(r.0, q, x) <==> Has(s, q, x)))
              && (forall q, x :: (q != p || x != e) && Has(s, q, x) ==> r.0.pools[q][x] == s.pools[q][x])
  {
    match Resolve(t, hash, name)
    case None => (s, Success(false))
    case Some(ObjectMeta(_, _)) => (s, Success(false))
    case Some(ComponentMeta(_, p, _)) =>
      if e !in s.descriptors then (s, Failure(InvalidEntity))
      else
        var s1 := EraseIfPresent(s, p, e);
        var s2 := Refresh(t, hash, s1, e);
        ListedFromLocal(t, s1, s2, hash(GetObjectType(t, s1)), e, 0);
        (s2, Success(true))
  }

  /**
   * `Object::CopyComponentByName(name, from)` on `to`: false for an unknown
   * name or a type without `Copy Component`. The preceding `construct(*this)`
   * passes an `Object` where the registered constructor takes an entity, so
   * it builds nothing. The copy's result is a non-empty `meta_any`, so true
   * is returned whenever it did not throw.
   */
  function CopyByName(t: Tables, hash: string -> Id, s: Store, to: Entity, name: string, from: Entity): (r: (Store, Result<bool>))
    requires StoreValid(s)
    ensures StoreValid(r.0) && r.0.descriptors == s.descriptors && r.0.poolOrder == s.poolOrder
    ensures !NamesComponent(t, hash, name) ==> r == (s, Success(false))
    ensures NamesComponent(t, hash, name) ==>
              var p := Resolve(t, hash, name).value.pool;
              && (r.1.Success? ==> r.1.value)
              && r.0 == CopyComponent(s, p, from, to).0
              && (r.1.Failure? <==> CopyComponent(s, p, from, to).1.Failure?)
  {
    match Resolve(t, hash, name)
    case None => (s, Success(false))
    case Some(ObjectMeta(_, _)) => (s, Success(false))
    case Some(ComponentMeta(_, p, _)) =>
      var (s1, res) := CopyComponent(s, p, from, to);
      if res.Failure? then (s1, Failure(res.error)) else (s1, Success(true))
  }

  /**
   * `Object::HasComponent(name)`: false for an unknown name or a type without
   * `Has Component`; otherwise the closure's answer, which throws for a dead
   * entity.
   */
  function HasByName(t: Tables, hash: string -> Id, s: Store, e: Entity, name: string): (r: Result<bool>)
    ensures !NamesComponent(t, hash, name) ==> r == Success(false)
    ensures NamesComponent(t, hash, name) ==> r == HasComponent(s, Resolve(t, hash, name).value.pool, e)
  {
    match Resolve(t, hash, name)
    case None => Success(false)
    case Some(ObjectMeta(_, _)) => Success(false)
    case Some(ComponentMeta(_, p, _)) => HasComponent(s, p, e)
  }

  // ---------------------------------------------------------------------
  // Properties across operations

  /** Adding a component by name and then asking by name reports it present. */
  lemma AddThenHasByName(t: Tables, hash: string -> Id, s: Store, e: Entity, name: string)
    requires StoreValid(s) && AvoidsDescriptorPool(t) && e in s.descriptors && NamesComponent(t, hash, name)
    ensures HasByName(t, hash, AddByName(t, hash, s, e, name).0, e, name) == Success(true)
  {
  }

  /** Fetching by name a component the entity already holds changes nothing and yields that component. */
  lemma GetHeldByName(t: Tables, hash: string -> Id, s: Store, e: Entity, name: string, p: Id)
    requires StoreValid(s) && AvoidsDescriptorPool(t) && e in s.descriptors
    requires ResolvesToPool(t, hash, name, p) && Has(s, p, e)
    ensures AddByName(t, hash, s, e, name) == (s, Success(Some(ComponentRef(p, e))))
  {
  }

  /** Adding a component by name twice is the same as adding it once. */
  lemma AddByNameIdempotent(t: Tables, hash: string -> Id, s: Store, e: Entity, name: string)
    requires StoreValid(s) && AvoidsDescriptorPool(t)
    ensures AddByName(t, hash, AddByName(t, hash, s, e, name).0, e, name) == AddByName(t, hash, s, e, name)
  {
  }

  /** Erasing by name after adding by name leaves the entity without the component. */
  lemma AddThenEraseByName(t: Tables, hash: string -> Id, s: Store, e: Entity, name: string)
    requires StoreValid(s) && AvoidsDescriptorPool(t) && e in s.descriptors && NamesComponent(t, hash, name)
    ensures var s1 := AddByName(t, hash, s, e, name).0;
            var r := EraseByName(t, hash, s1, e, name);
            r.1 == Success(true) && HasByName(t, hash, r.0, e, name) == Success(false)
  {
  }

  /** The number of storages holding e. */
  function PoolCount(s: Store, e: Entity): nat {
    |Holding(s, e)|
  }

  /** The storages that hold e. */
  function Holding(s: Store, e: Entity): set<Id> {
    set p | p in s.pools && e in s.pools[p]
  }

  /** Erasing a held component lowers the number of storages holding the entity. */
  lemma EraseLowersPoolCount(s: Store, p: Id, e: Entity)
    requires StoreValid(s) && Has(s, p, e)
    ensures PoolCount(Erase(s, p, e), e) == PoolCount(s, e) - 1
  {
    var r := Erase(s, p, e);
    var a, b := Holding(s, e), Holding(r, e);
    forall q ensures q in a <==> q in b || q == p {
      if q != p && q in s.pools {
        assert r.pools[q] == s.pools[q];
      }
    }
    assert p !in b;
    assert a == b + {p};
  }

  /** Refreshing the cache leaves every storage as it was. */
  lemma RefreshKeepsPoolCount(t: Tables, hash: string -> Id, s: Store, e: Entity, x: Entity)
    requires StoreValid(s) && e in s.descriptors
    ensures PoolCount(Refresh(t, hash, s, e), x) == PoolCount(s, x)
  {
  }
}
