/**
 * `Object` and `TaggedObject`: an entity id with the operations that read
 * its descriptor, change its components and links, or walk its children.
 * An object holds nothing but its id; everything it reads or changes lives
 * in the register's store.
 */
module Objects {
  import opened Wrappers
  import opened Handles
  import opened Components
  import opened Hierarchy
  import opened EntityStore
  import opened Registration
  import opened ComponentOps
  import opened Register
  import opened Links
  import Strings

  // ---------------------------------------------------------------------
  // Reads of the descriptor

  /** `GetType()`: the object name registered for the descriptor's type id, or "". */
  function GetType(t: Tables, s: Store, e: Entity): string
    requires e in s.descriptors
  {
    GetClassNameByID(t, s.descriptors[e].typeId)
  }

  /** `IsOfType<T>()`: the class name of T is the object's type name. */
  predicate IsOfType(t: Tables, s: Store, e: Entity, typeName: string)
    requires e in s.descriptors
  {
    Strings.ClassName(typeName) == GetType(t, s, e)
  }

  /** `GetName()`. */
  function GetName(s: Store, e: Entity): string
    requires e in s.descriptors
  {
    s.descriptors[e].name
  }

  /**
   * An object created as a class registered as an object type reports that
   * class as its type and is of that type; its name is the free name chosen
   * at creation, so a search by that name finds an object.
   */
  lemma CreatedObjectReads(t: Tables, hash: string -> Id, s: Store, className: string, name: string,
                           r: Store, res: Result<Handle>)
    requires CreatedAs(t, hash, s, className, name, r, res)
    ensures s.next in r.descriptors && GetName(r, s.next) !in Names(s)
    ensures name !in Names(s) ==> GetName(r, s.next) == name
    ensures GetType(t, r, s.next) == GetClassNameByID(t, hash(className))
    ensures hash(className) in t.objectNames && t.objectNames[hash(className)] == className ==>
              GetType(t, r, s.next) == className &&
              forall typeName :: Strings.ClassName(typeName) == className ==> IsOfType(t, r, s.next, typeName)
    ensures Truthy(FindByName(r, GetName(r, s.next)), Alive(r))
  {
    CreatedAsSpec(t, hash, s, className, name, r, res);
    FindByNameSpec(r, GetName(r, s.next));
  }

  /** Two objects created as the same class have the same object type. */
  lemma CreatedSameType(t: Tables, hash: string -> Id, s: Store, className: string, name: string,
                        r: Store, res: Result<Handle>, other: Entity)
    requires CreatedAs(t, hash, s, className, name, r, res)
    requires other in s.descriptors && s.descriptors[other].typeId == hash(className)
    ensures other in r.descriptors && SameType(r.descriptors, s.next, other)
  {
    CreatedAsSpec(t, hash, s, className, name, r, res);
    assert other in Alive(r);
  }

  // ---------------------------------------------------------------------
  // TaggedObject

  /**
   * `ForEach(function)`: the `ForEach` closure of a registered object type
   * visits the holders of its tag; an unresolved name, or a component type,
   * has no such closure and nothing is visited.
   */
  function ForEachOfType(t: Tables, hash: string -> Id, s: Store, className: string): seq<Entity>
    requires StoreValid(s)
  {
    match Resolve(t, hash, className)
    case Some(ObjectMeta(_, tagPool)) => Members(s, tagPool)
    case _ => []
  }

  /**
   * The objects `ForEach` visits: exactly the holders of the class's tag,
   * and none at all for an unresolved name.
   */
  lemma ForEachOfTypeSpec(t: Tables, hash: string -> Id, s: Store, className: string)
    requires StoreValid(s)
    ensures !NamesObject(t, hash, className) ==> ForEachOfType(t, hash, s, className) == []
    ensures NamesObject(t, hash, className) ==>
              forall e :: e in ForEachOfType(t, hash, s, className) <==> Has(s, Resolve(t, hash, className).value.tagPool, e)
  {
  }

  /** An object created as a class that has a tag holds that tag. */
  lemma CreatedHoldsTag(t: Tables, hash: string -> Id, s: Store, className: string, name: string,
                        r: Store, res: Result<Handle>)
    requires CreatedAs(t, hash, s, className, name, r, res)
    requires hash(className) in t.tagStartFuncs
    ensures StoreValid(r) && s.next in Members(r, t.tagStartFuncs[hash(className)])
  {
    CreatedAsSpec(t, hash, s, className, name, r, res);
    assert r == Created(t, hash, s, className, r.descriptors[s.next].name).0;
    assert s.next in r.order;
  }

  /**
   * Registering a class as an object type and creating an object of it
   * makes `ForEach` of that class visit the new object.
   */
  lemma ForEachVisitsCreated(t: Tables, hash: string -> Id, s: Store, tagPool: Id, className: string, name: string,
                             r: Store, res: Result<Handle>)
    requires CreatedAs(WithObjectTag(t, hash, tagPool, className), hash, s, className, name, r, res)
    ensures StoreValid(r) && s.next in ForEachOfType(WithObjectTag(t, hash, tagPool, className), hash, r, className)
  {
    ObjectTagRegistered(t, hash, tagPool, className);
    CreatedHoldsTag(WithObjectTag(t, hash, tagPool, className), hash, s, className, name, r, res);
  }

  /**
   * `Storage()`: `get_or_emplace<DerivedStorage>(id)`; a missing storage
   * value is emplaced default-constructed.
   */
  function GetOrEmplace(s: Store, p: Id, e: Entity): (r: Store)
    requires StoreValid(s) && e in s.descriptors && p != DescriptorPool
    ensures StoreValid(r) && Has(r, p, e) && OnlyTouches(s, r, p, e)
    ensures r.pools[p][e] == if Has(s, p, e) then s.pools[p][e] else DefaultCell(0)
    ensures Has(s, p, e) ==> r == s
  {
    if Has(s, p, e) then s else EmplaceDefault(s, p, e)
  }

  /** A second `Storage()` call returns the same value and changes nothing. */
  lemma StorageIdempotent(s: Store, p: Id, e: Entity)
    requires StoreValid(s) && e in s.descriptors && p != DescriptorPool
    ensures GetOrEmplace(GetOrEmplace(s, p, e), p, e) == GetOrEmplace(s, p, e)
  {
  }

  // ---------------------------------------------------------------------
  // Components through an object: each change is followed by a refresh of
  // the object's cached component names

  /** Every live object's cached names match the storages that hold it. */
  ghost predicate CachesFresh(t: Tables, hash: string -> Id, s: Store) {
    forall e :: e in s.descriptors ==> CacheFresh(t, hash, s, e)
  }

  /**
   * Between s and r only e's cached names and e's entry in storage p may
   * differ.
   */
  ghost predicate Recached(s: Store, r: Store, p: Id, e: Entity) {
    && r.order == s.order && r.next == s.next && r.descriptors.Keys == s.descriptors.Keys
    && (forall x :: x in s.descriptors && x != e ==> r.descriptors[x] == s.descriptors[x])
    && (e in s.descriptors ==> r.descriptors[e] == s.descriptors[e].(componentNames := r.descriptors[e].componentNames))
    && (forall q, x :: (q != p || x != e) ==> (Has(r, q, x) <==> Has(s, q, x)))
    && (forall q, x :: (q != p || x != e) && Has(s, q, x) ==> r.pools[q][x] == s.pools[q][x])
  }

  /** A change to e's entry of storage p followed by a refresh of e's cache only changes those. */
  lemma RefreshAfter(t: Tables, hash: string -> Id, s: Store, s1: Store, p: Id, e: Entity)
    requires StoreValid(s) && StoreValid(s1) && e in s.descriptors && OnlyTouches(s, s1, p, e) && s1.next == s.next
    ensures Recached(s, Refresh(t, hash, s1, e), p, e) && CacheFresh(t, hash, Refresh(t, hash, s1, e), e)
    ensures Refresh(t, hash, s1, e).pools == s1.pools && Refresh(t, hash, s1, e).poolOrder == s1.poolOrder
  {
    ListedFromLocal(t, s1, Refresh(t, hash, s1, e), hash(GetObjectType(t, s1)), e, 0);
  }

  /**
   * `AddComponent<T>(args...)` (and `GetComponent<T>()`, whose handle is
   * always set when no exception is thrown): get-or-create T, throwing for a
   * dead entity, then the cache is set to `GetObjectComponents`.
   */
  function AddCached(t: Tables, hash: string -> Id, s: Store, p: Id, e: Entity, blank: Cell): (r: (Store, Result<Option<ComponentRef>>))
    requires StoreValid(s) && p != DescriptorPool
    ensures StoreValid(r.0)
    ensures r.1.Failure? <==> e !in s.descriptors
  {
    if e !in s.descriptors then (s, Failure(InvalidEntity))
    else (Refresh(t, hash, GetOrCreate(s, p, e, blank), e), Success(Some(ComponentRef(p, e))))
  }

  /**
   * `AddComponent<T>` throws for a dead entity and changes nothing; otherwise
   * the object holds T (the one it had, or `blank` mastered by it), its cache
   * lists what it now holds, and nothing else changes.
   */
  lemma AddCachedSpec(t: Tables, hash: string -> Id, s: Store, p: Id, e: Entity, blank: Cell)
    requires StoreValid(s) && p != DescriptorPool
    ensures var r := AddCached(t, hash, s, p, e, blank);
            && (r.1.Failure? ==> r.0 == s)
            && (r.1.Success? ==> && r.1.value == Some(ComponentRef(p, e)) && Has(r.0, p, e)
                                 && CacheFresh(t, hash, r.0, e) && Recached(s, r.0, p, e)
                                 && (Has(s, p, e) ==> r.0.pools == s.pools)
                                 && (!Has(s, p, e) ==> r.0.pools[p][e] == SetMaster(blank, e)))
  {
    if e in s.descriptors {
      RefreshAfter(t, hash, s, GetOrCreate(s, p, e, blank), p, e);
    }
  }

  /**
   * `EraseComponent<T>()`: the register's erase (throwing for a dead entity,
   * true iff T was there), then the cache is set to `GetObjectComponents`.
   */
  function EraseCached(t: Tables, hash: string -> Id, s: Store, p: Id, e: Entity): (r: (Store, Result<bool>))
    requires StoreValid(s)
    ensures StoreValid(r.0) && r.0.poolOrder == s.poolOrder
    ensures r.1.Failure? <==> e !in s.descriptors
  {
    if e !in s.descriptors then (s, Failure(InvalidEntity))
    else (Refresh(t, hash, EraseIfPresent(s, p, e), e), Success(Has(s, p, e)))
  }

  /**
   * `EraseComponent<T>` throws for a dead entity and changes nothing;
   * otherwise it answers whether T was there, T is gone, the cache lists what
   * is left, and nothing else changes.
   */
  lemma EraseCachedSpec(t: Tables, hash: string -> Id, s: Store, p: Id, e: Entity)
    requires StoreValid(s)
    ensures var r := EraseCached(t, hash, s, p, e);
            && (r.1.Failure? ==> r.0 == s)
            && (r.1.Success? ==> && (r.1.value <==> Has(s, p, e)) && !Has(r.0, p, e)
                                 && CacheFresh(t, hash, r.0, e) && Recached(s, r.0, p, e))
  {
    if e in s.descriptors {
      RefreshAfter(t, hash, s, EraseIfPresent(s, p, e), p, e);
    }
  }

  /**
   * Static `CopyComponent<T>(from, to)`: the register's copy, then on success
   * the cache of the destination is refreshed.
   */
  function CopyCached(t: Tables, hash: string -> Id, s: Store, p: Id, from: Entity, to: Entity): (r: (Store, Result<bool>))
    requires StoreValid(s)
    ensures StoreValid(r.0) && r.0.poolOrder == s.poolOrder
    ensures r.1.Failure? <==> from !in s.descriptors || (Has(s, p, from) && to !in s.descriptors)
    ensures r.1 == Success(true) <==> Has(s, p, from) && Has(s, p, to)
  {
    var (s1, res) := ComponentOps.CopyComponent(s, p, from, to);
    if res == Success(true) then (Refresh(t, hash, s1, to), res) else (s1, res)
  }

  /**
   * `CopyComponent<T>` changes nothing unless both objects hold T; then the
   * destination takes the source's data, keeps its own master and type, and
   * its cache is fresh.
   */
  lemma CopyCachedSpec(t: Tables, hash: string -> Id, s: Store, p: Id, from: Entity, to: Entity)
    requires StoreValid(s)
    ensures var r := CopyCached(t, hash, s, p, from, to);
            && (r.1 != Success(true) ==> r.0 == s)
            && (r.1 == Success(true) ==> && Recached(s, r.0, p, to) && CacheFresh(t, hash, r.0, to) && Has(r.0, p, to)
                                         && r.0.pools[p][to] == Assign(s.pools[p][to], s.pools[p][from]))
  {
    if Has(s, p, from) && Has(s, p, to) {
      RefreshAfter(t, hash, s, ComponentOps.CopyComponent(s, p, from, to).0, p, to);
    }
  }

  /**
   * A change confined to e's cached names and e's entries, after which e's
   * cache is fresh, leaves every cache fresh.
   */
  /** The conditions under which a step keeps every cache fresh. */
  ghost predicate CacheStep(t: Tables, hash: string -> Id, s: Store, r: Store, p: Id, e: Entity) {
    && StoreValid(s) && StoreValid(r) && CachesFresh(t, hash, s) && Recached(s, r, p, e)
    && |s.poolOrder| <= |r.poolOrder| && r.poolOrder[..|s.poolOrder|] == s.poolOrder
    && GetObjectType(t, r) == GetObjectType(t, s)
    && (e in r.descriptors ==> CacheFresh(t, hash, r, e))
  }

  lemma RecachedKeepsCaches(t: Tables, hash: string -> Id, s: Store, r: Store, p: Id, e: Entity)
    requires CacheStep(t, hash, s, r, p, e)
    ensures CachesFresh(t, hash, r)
  {
    forall x | x in r.descriptors && x != e ensures CacheFresh(t, hash, r, x) {
      assert forall j :: |s.poolOrder| <= j < |r.poolOrder| ==> !Has(r, r.poolOrder[j], x);
      ListedFromExtend(t, s, r, hash(GetObjectType(t, s)), x, 0);
    }
  }

  /** Get-or-create only ever appends to the storage enumeration. */
  lemma GetOrCreateExtends(s: Store, p: Id, e: Entity, blank: Cell)
    requires StoreValid(s) && e in s.descriptors && p != DescriptorPool
    ensures var r := GetOrCreate(s, p, e, blank);
            && |s.poolOrder| <= |r.poolOrder| && r.poolOrder[..|s.poolOrder|] == s.poolOrder
            && (r.poolOrder == s.poolOrder || (p !in s.pools && r.poolOrder == s.poolOrder + [p]))
  {
  }

  /** The same, for a step that keeps the storage enumeration. */
  lemma RecachedInPlace(t: Tables, hash: string -> Id, s: Store, r: Store, p: Id, e: Entity)
    requires StoreValid(s) && StoreValid(r) && CachesFresh(t, hash, s)
    requires RecachedFresh(t, hash, s, r, p, e) && r.poolOrder == s.poolOrder
    ensures CachesFresh(t, hash, r)
  {
    RecachedKeepsCaches(t, hash, s, r, p, e);
  }

  /** Only e's entries changed and e's cache is fresh afterwards. */
  ghost predicate RecachedFresh(t: Tables, hash: string -> Id, s: Store, r: Store, p: Id, e: Entity) {
    Recached(s, r, p, e) && (e in r.descriptors ==> CacheFresh(t, hash, r, e))
  }

  /**
   * `AddComponent<T>` keeps every object's cache fresh as long as the
   * header's `GetObjectType()` gives the same answer afterwards, which it
   * does unless T's storage is created by this call, is a tag storage, and
   * no tag storage existed before.
   */
  lemma AddCachedKeepsCaches(t: Tables, hash: string -> Id, s: Store, p: Id, e: Entity, blank: Cell)
    requires StoreValid(s) && p != DescriptorPool && CachesFresh(t, hash, s)
    ensures var r := AddCached(t, hash, s, p, e, blank).0;
            && (p in s.pools || p !in t.typesByTag || FirstTagPool(t, s.poolOrder, 0).Some? ==>
                  GetObjectType(t, r) == GetObjectType(t, s))
            && (GetObjectType(t, r) == GetObjectType(t, s) ==> CachesFresh(t, hash, r))
  {
    if e in s.descriptors {
      var r := AddCached(t, hash, s, p, e, blank).0;
      AddCachedSpec(t, hash, s, p, e, blank);
      GetOrCreateExtends(s, p, e, blank);
      assert r.poolOrder == GetOrCreate(s, p, e, blank).poolOrder;
      if p in s.pools || p !in t.typesByTag || FirstTagPool(t, s.poolOrder, 0).Some? {
        ObjectTypeExtend(t, s, r);
      }
      if GetObjectType(t, r) == GetObjectType(t, s) {
        RecachedKeepsCaches(t, hash, s, r, p, e);
      }
    }
  }

  /** `EraseComponent<T>` keeps every object's cache fresh. */
  lemma EraseCachedKeepsCaches(t: Tables, hash: string -> Id, s: Store, p: Id, e: Entity)
    requires StoreValid(s) && CachesFresh(t, hash, s)
    ensures CachesFresh(t, hash, EraseCached(t, hash, s, p, e).0)
  {
    if e in s.descriptors {
      EraseCachedSpec(t, hash, s, p, e);
      RecachedInPlace(t, hash, s, EraseCached(t, hash, s, p, e).0, p, e);
    }
  }

  /** `CopyComponent<T>` keeps every object's cache fresh. */
  lemma CopyCachedKeepsCaches(t: Tables, hash: string -> Id, s: Store, p: Id, from: Entity, to: Entity)
    requires StoreValid(s) && CachesFresh(t, hash, s)
    ensures CachesFresh(t, hash, CopyCached(t, hash, s, p, from, to).0)
  {
    CopyCachedSpec(t, hash, s, p, from, to);
    if Has(s, p, from) && Has(s, p, to) {
      RecachedInPlace(t, hash, s, CopyCached(t, hash, s, p, from, to).0, p, to);
    }
  }

  /** Refreshing a cache that is already fresh changes nothing. */
  lemma RefreshFresh(t: Tables, hash: string -> Id, s: Store, e: Entity)
    requires StoreValid(s) && e in s.descriptors && CacheFresh(t, hash, s, e)
    ensures Refresh(t, hash, s, e) == s
  {
    assert Refresh(t, hash, s, e).descriptors == s.descriptors;
  }

  /** A second `AddComponent<T>` finds T and changes nothing. */
  lemma AddCachedIdempotent(t: Tables, hash: string -> Id, s: Store, p: Id, e: Entity, blank: Cell, blank': Cell)
    requires StoreValid(s) && p != DescriptorPool
    ensures var r := AddCached(t, hash, s, p, e, blank);
            AddCached(t, hash, r.0, p, e, blank') == r
  {
    if e in s.descriptors {
      AddCachedSpec(t, hash, s, p, e, blank);
      var s1 := AddCached(t, hash, s, p, e, blank).0;
      RefreshFresh(t, hash, s1, e);
    }
  }

  /** Two steps that each change only e's entries change only e's entries. */
  lemma RecachedTrans(s1: Store, s2: Store, s3: Store, p: Id, e: Entity)
    requires Recached(s1, s2, p, e) && Recached(s2, s3, p, e)
    ensures Recached(s1, s3, p, e)
  {
  }

  /**
   * A change confined to e's entries that leaves e's entry of p absent, the
   * storage enumeration as it was and e's cache fresh is no change at all.
   */
  lemma RecachedRestores(t: Tables, hash: string -> Id, s: Store, r: Store, p: Id, e: Entity)
    requires StoreValid(s) && StoreValid(r) && e in s.descriptors && Recached(s, r, p, e)
    requires r.poolOrder == s.poolOrder && !Has(s, p, e) && !Has(r, p, e)
    requires CacheFresh(t, hash, s, e) && CacheFresh(t, hash, r, e)
    ensures r == s
  {
    assert r.pools.Keys == s.pools.Keys;
    forall q, x | q in s.pools ensures x in s.pools[q] <==> x in r.pools[q] {
      assert Has(r, q, x) <==> Has(s, q, x);
    }
    PoolsEqual(s.pools, r.pools);
    ListedFromLocal(t, s, r, hash(GetObjectType(t, s)), e, 0);
    assert r.descriptors[e] == s.descriptors[e];
    assert r.descriptors == s.descriptors;
  }

  /**
   * Adding T to an object without it and erasing it again restores the store
   * exactly, once T's storage exists and the object's cache was fresh.
   */
  lemma AddThenEraseRestores(t: Tables, hash: string -> Id, s: Store, p: Id, e: Entity, blank: Cell)
    requires StoreValid(s) && p != DescriptorPool && e in s.descriptors
    requires p in s.pools && !Has(s, p, e) && CacheFresh(t, hash, s, e)
    ensures EraseCached(t, hash, AddCached(t, hash, s, p, e, blank).0, p, e) == (s, Success(true))
  {
    var s2 := AddCached(t, hash, s, p, e, blank).0;
    AddCachedSpec(t, hash, s, p, e, blank);
    assert s2.poolOrder == s.poolOrder;
    var r := EraseCached(t, hash, s2, p, e);
    EraseCachedSpec(t, hash, s2, p, e);
    RecachedTrans(s, s2, r.0, p, e);
    RecachedRestores(t, hash, s, r.0, p, e);
  }

  // ---------------------------------------------------------------------
  // Object

  /**
   * `Object`: a handle on an entity of the register's store. Constructing
   * one from a dead entity only logs, so any id is accepted. The members of
   * `TaggedObject` that go beyond `Object` take the derived class's name and
   * storages as arguments.
   */
  class Object {
    const reg: ObjectPropertyRegister
    const id: Entity

    constructor(reg: ObjectPropertyRegister, ent: Entity)
      ensures this.reg == reg && this.id == ent
    {
      this.reg := reg;
      this.id := ent;
    }

    /** `Valid()`: the entity is alive. */
    predicate Valid()
      reads reg`store
    {
      id in reg.store.descriptors
    }

    /** `AddComponent<T>(args...)`. */
    method AddComponent(p: Id, blank: Cell) returns (r: Result<Option<ComponentRef>>)
      requires reg.Valid() && p != DescriptorPool
      modifies reg`store
      ensures reg.Valid() && reg.Maps() == old(reg.Maps()) && reg.toDelete == old(reg.toDelete)
      ensures (reg.store, r) == AddCached(reg.Maps(), reg.hash, old(reg.store), p, id, blank)
    {
      var res := AddCached(reg.Maps(), reg.hash, reg.store, p, id, blank);
      reg.store, r := res.0, res.1;
    }

    /** `EraseComponent<T>()`; the register's answer is passed on. */
    method EraseComponent(p: Id) returns (r: Result<bool>)
      requires reg.Valid()
      modifies reg`store
      ensures reg.Valid() && reg.Maps() == old(reg.Maps()) && reg.toDelete == old(reg.toDelete)
      ensures (reg.store, r) == EraseCached(reg.Maps(), reg.hash, old(reg.store), p, id)
    {
      var res := EraseCached(reg.Maps(), reg.hash, reg.store, p, id);
      reg.store, r := res.0, res.1;
    }

    /** `EraseComponentByName(name)`. */
    method EraseComponentByName(name: string) returns (r: Result<bool>)
      requires reg.Valid()
      modifies reg`store
      ensures reg.Valid() && reg.Maps() == old(reg.Maps()) && reg.toDelete == old(reg.toDelete)
      ensures (reg.store, r) == EraseByName(reg.Maps(), reg.hash, old(reg.store), id, name)
    {
      var res := EraseByName(reg.Maps(), reg.hash, reg.store, id, name);
      reg.store, r := res.0, res.1;
    }

    /** `CopyComponentByName(name, from)`: into this object. */
    method CopyComponentByName(name: string, from: Entity) returns (r: Result<bool>)
      requires reg.Valid()
      modifies reg`store
      ensures reg.Valid() && reg.Maps() == old(reg.Maps()) && reg.toDelete == old(reg.toDelete)
      ensures (reg.store, r) == CopyByName(reg.Maps(), reg.hash, old(reg.store), id, name, from)
    {
      var res := CopyByName(reg.Maps(), reg.hash, reg.store, id, name, from);
      reg.store, r := res.0, res.1;
    }

    /** `AddComponentByName(name)`: the register's, with no refresh of the cache. */
    method AddComponentByName(name: string) returns (r: Result<Option<ComponentRef>>)
      requires reg.Valid()
      modifies reg`store
      ensures reg.Valid() && reg.Maps() == old(reg.Maps()) && reg.toDelete == old(reg.toDelete)
      ensures (reg.store, r) == AddByName(reg.Maps(), reg.hash, old(reg.store), id, name)
    {
      r := reg.AddComponentByName(id, name);
    }

    /** Static `CopyComponent<T>(from, to)`. */
    static method CopyComponent(reg: ObjectPropertyRegister, p: Id, from: Entity, to: Entity) returns (r: Result<bool>)
      requires reg.Valid()
      modifies reg`store
      ensures reg.Valid() && reg.Maps() == old(reg.Maps()) && reg.toDelete == old(reg.toDelete)
      ensures (reg.store, r) == CopyCached(reg.Maps(), reg.hash, old(reg.store), p, from, to)
    {
      var res := CopyCached(reg.Maps(), reg.hash, reg.store, p, from, to);
      reg.store, r := res.0, res.1;
    }

    /** `AddChildren(obj)`. */
    method AddChildren(child: Entity)
      requires reg.Valid() && Valid()
      modifies reg`store
      ensures reg.Valid() && reg.Maps() == old(reg.Maps()) && reg.toDelete == old(reg.toDelete)
      ensures reg.store == Adopt(old(reg.store), id, child)
    {
      reg.store := Adopt(reg.store, id, child);
    }

    /** `RemoveChildren(obj)`. */
    method RemoveChildren(child: Entity)
      requires reg.Valid() && Valid()
      modifies reg`store
      ensures reg.Valid() && reg.Maps() == old(reg.Maps()) && reg.toDelete == old(reg.toDelete)
      ensures reg.store == Disown(old(reg.store), id, child)
    {
      reg.store := Disown(reg.store, id, child);
    }

    /** `SetParent(obj)`: both objects' descriptors are read, so both must be alive. */
    method SetParent(e: Entity)
      requires reg.Valid() && Valid() && e in reg.store.descriptors
      modifies reg`store
      ensures reg.Valid() && reg.Maps() == old(reg.Maps()) && reg.toDelete == old(reg.toDelete)
      ensures reg.store == Reparent(old(reg.store), id, e)
    {
      reg.store := Reparent(reg.store, id, e);
    }

    /** `TaggedObject::Storage()`, for the derived class's storage p. */
    method Storage(p: Id)
      requires reg.Valid() && Valid() && p != DescriptorPool
      modifies reg`store
      ensures reg.Valid() && reg.Maps() == old(reg.Maps()) && reg.toDelete == old(reg.toDelete)
      ensures reg.store == GetOrEmplace(old(reg.store), p, id)
    {
      reg.store := GetOrEmplace(reg.store, p, id);
    }

    /**
     * The static initializer of `TaggedObject<Derived, _, DerivedStorage>`:
     * the tag of Derived is registered, then its property storage.
     */
    static method RegisterTagged(reg: ObjectPropertyRegister, tagPool: Id, storagePool: Id, className: string)
      requires reg.Valid() && tagPool != DescriptorPool && storagePool != DescriptorPool
      modifies reg`meta, reg`tagStartFuncs, reg`typesByTag, reg`tagsByType, reg`objectNames, reg`propertyStorage
      ensures reg.Valid() && reg.store == old(reg.store) && reg.toDelete == old(reg.toDelete)
      ensures reg.Maps() == TaggedTables(old(reg.Maps()), reg.hash, tagPool, storagePool, className)
    {
      reg.RegisterClassAsObjectTag(tagPool, className);
      reg.RegisterClassAsPropertyStorage(storagePool, className);
    }
  }

  /** The tables after the static initializer of a tagged class. */
  function TaggedTables(t: Tables, hash: string -> Id, tagPool: Id, storagePool: Id, className: string): (r: Tables)
    ensures Resolve(r, hash, className) == Some(ObjectMeta(className, tagPool))
    ensures GetClassNameByID(r, hash(className)) == className
    ensures hash(className) in r.tagStartFuncs && r.tagStartFuncs[hash(className)] == tagPool
    ensures hash(className) in r.propertyStorage && r.propertyStorage[hash(className)] == storagePool
  {
    ObjectTagRegistered(t, hash, tagPool, className);
    WithPropertyStorage(WithObjectTag(t, hash, tagPool, className), hash, storagePool, className)
  }

  /** Running the initializer of a tagged class a second time changes nothing. */
  lemma TaggedTablesIdempotent(t: Tables, hash: string -> Id, tagPool: Id, storagePool: Id, className: string)
    ensures var r := TaggedTables(t, hash, tagPool, storagePool, className);
            TaggedTables(r, hash, tagPool, storagePool, className) == r
  {
    var r := TaggedTables(t, hash, tagPool, storagePool, className);
    var t1 := WithObjectTag(t, hash, tagPool, className);
    ObjectTagIdempotent(t, hash, tagPool, className);
    PropertyStorageCommutes(t1, hash, tagPool, storagePool, className);
    assert WithPropertyStorage(r, hash, storagePool, className) == r;
  }

  /** Registering the property storage leaves the tag registration as it was. */
  lemma PropertyStorageCommutes(t1: Tables, hash: string -> Id, tagPool: Id, storagePool: Id, className: string)
    ensures var r := WithPropertyStorage(t1, hash, storagePool, className);
            WithObjectTag(r, hash, tagPool, className) ==
            WithPropertyStorage(WithObjectTag(t1, hash, tagPool, className), hash, storagePool, className)
  {
  }
}
