/**
 * `ObjectPropertyRegister`: the static registration tables, the entity
 * store they act on and the queue of objects waiting for deletion, with the
 * operations that create, inspect, copy and delete objects.
 *
 * Where the class header and object_property_register.cpp both define an
 * operation with different bodies, the header's version carries the suffix
 * `Inline` and the .cpp version the plain name.
 */
module Register {
  import opened Wrappers
  import opened Handles
  import opened Components
  import opened Hierarchy
  import opened EntityStore
  import opened Registration
  import opened ComponentOps
  import opened Lifecycle
  import opened Duplication
  import opened Detach
  import Naming

  class ObjectPropertyRegister {
    /** `entt::hashed_string` applied to a class name (`HashClassName`). */
    const hash: string -> Id

    var store: Store                              // Registry::Get()
    var meta: map<Id, MetaType>                   // entt::meta
    var omnipresent: seq<string>                  // m_ComponentsToMakeOmnipresent
    var propertyStorage: map<Id, Id>              // m_PropertyStorageContainer
    var startComponents: map<Id, seq<string>>     // m_ComponentsToMakeAvailableAtStartByType
    var tagStartFuncs: map<Id, Id>                // m_RegisteredObjectTagsStartingFuncs
    var componentsByType: map<Id, seq<string>>    // m_RegisteredComponentsByType
    var tagsByType: map<Id, Id>                   // m_RegisteredTagsByType
    var typesByTag: map<Id, Id>                   // m_RegisteredTypesByTag
    var componentNames: map<Id, string>           // m_RegisteredComponentsNames
    var objectNames: map<Id, string>              // m_RegisteredObjectNames
    var toDelete: seq<Handle>                     // m_ObjectsToDelete

    /** The registration tables as one value. */
    function Maps(): Tables
      reads this`meta, this`omnipresent, this`propertyStorage, this`startComponents, this`tagStartFuncs
      reads this`componentsByType, this`tagsByType, this`typesByTag, this`componentNames, this`objectNames
    {
      Tables(meta, omnipresent, propertyStorage, startComponents, tagStartFuncs,
             componentsByType, tagsByType, typesByTag, componentNames, objectNames)
    }

    ghost predicate Valid()
      reads this`store, this`meta, this`omnipresent, this`propertyStorage, this`startComponents, this`tagStartFuncs
      reads this`componentsByType, this`tagsByType, this`typesByTag, this`componentNames, this`objectNames
    {
      StoreValid(store) && AvoidsDescriptorPool(Maps())
    }

    constructor(hash: string -> Id)
      ensures Valid() && this.hash == hash
      ensures store == EmptyStore() && Maps() == EmptyTables() && toDelete == []
    {
      this.hash := hash;
      store := EmptyStore();
      meta := map[];
      omnipresent := [];
      propertyStorage := map[];
      startComponents := map[];
      tagStartFuncs := map[];
      componentsByType := map[];
      tagsByType := map[];
      typesByTag := map[];
      componentNames := map[];
      objectNames := map[];
      toDelete := [];
    }

    // -------------------------------------------------------------------
    // Registration

    /** `RegisterClassAsObjectTag<Tag, Attached>()`, given the tag's storage id. */
    method RegisterClassAsObjectTag(tagPool: Id, attached: string)
      requires Valid() && tagPool != DescriptorPool
      modifies this`meta, this`tagStartFuncs, this`typesByTag, this`tagsByType, this`objectNames
      ensures Valid() && Maps() == WithObjectTag(old(Maps()), hash, tagPool, attached)
      ensures store == old(store) && toDelete == old(toDelete)
    {
      ghost var t := WithObjectTag(Maps(), hash, tagPool, attached);
      assert AvoidsDescriptorPool(t);
      var h := hash(attached);
      meta := meta[h := ObjectMeta(attached, tagPool)];
      tagStartFuncs := tagStartFuncs[h := tagPool];
      typesByTag := typesByTag[tagPool := h];
      tagsByType := tagsByType[h := tagPool];
      objectNames := objectNames[h := attached];
      assert Maps() == t;
    }

    /** `RegisterClassAsPropertyStorage<Storage, MainClass>()`, given the storage's id. */
    method RegisterClassAsPropertyStorage(storagePool: Id, mainClass: string)
      requires Valid() && storagePool != DescriptorPool
      modifies this`propertyStorage
      ensures Valid() && Maps() == WithPropertyStorage(old(Maps()), hash, storagePool, mainClass)
      ensures store == old(store) && toDelete == old(toDelete)
    {
      propertyStorage := propertyStorage[hash(mainClass) := storagePool];
    }

    /** `RegisterClassAsComponent<T>()`: the get-or-create constructor and the component closures. */
    method RegisterClassAsComponent(component: string, pool: Id, blank: Cell)
      requires Valid() && pool != DescriptorPool
      modifies this`meta
      ensures Valid() && Maps() == old(Maps()).(meta := old(meta)[hash(component) := ComponentMeta(component, pool, blank)])
      ensures store == old(store) && toDelete == old(toDelete)
    {
      meta := meta[hash(component) := ComponentMeta(component, pool, blank)];
    }

    /** `RegisterClassAsComponentOfType<ComponentType, Component>()`, given the component's storage id and initial value. */
    method RegisterClassAsComponentOfType(componentType: string, component: string, pool: Id, blank: Cell)
      requires Valid() && pool != DescriptorPool
      modifies this`componentsByType, this`meta, this`componentNames
      ensures Valid() && Maps() == WithComponentOfType(old(Maps()), hash, componentType, component, pool, blank)
      ensures store == old(store) && toDelete == old(toDelete)
    {
      var k := hash(componentType);
      var listed := if k in componentsByType then componentsByType[k] else [];
      componentsByType := componentsByType[k := listed + [component]];
      RegisterClassAsComponent(component, pool, blank);
      componentNames := componentNames[pool := component];
    }

    /** `MakeComponentPresentBackground<Component, T>()`. */
    method MakeComponentPresentBackground(component: string, typeName: string)
      requires Valid()
      modifies this`startComponents
      ensures Valid() && Maps() == WithStartComponent(old(Maps()), hash, component, typeName)
      ensures store == old(store) && toDelete == old(toDelete)
    {
      var k := hash(typeName);
      var listed := if k in startComponents then startComponents[k] else [];
      startComponents := startComponents[k := listed + [component]];
    }

    /** `MakeComponentPresentIn<Component, Types...>()`: one background registration per type, in order. */
    method MakeComponentPresentIn(component: string, types: seq<string>)
      requires Valid()
      modifies this`startComponents
      ensures Valid() && Maps() == WithStartComponentIn(old(Maps()), hash, component, types)
      ensures store == old(store) && toDelete == old(toDelete)
    {
      for i := 0 to |types|
        invariant Valid() && store == old(store) && toDelete == old(toDelete)
        invariant WithStartComponentIn(Maps(), hash, component, types[i..]) == WithStartComponentIn(old(Maps()), hash, component, types)
      {
        assert types[i..][1..] == types[i + 1..];
        MakeComponentPresentBackground(component, types[i]);
      }
    }

    /** `MakeComponentOmnipresent<T>()`. */
    method MakeComponentOmnipresent(component: string)
      requires Valid()
      modifies this`omnipresent
      ensures Valid() && Maps() == old(Maps()).(omnipresent := old(omnipresent) + [component])
      ensures store == old(store) && toDelete == old(toDelete)
    {
      omnipresent := omnipresent + [component];
    }

    // -------------------------------------------------------------------
    // Lookups

    /** `FindObjectByName(name)`: the scan over the descriptor storage. */
    method FindObjectByName(name: string) returns (h: Handle)
      requires StoreValid(store)
      ensures h == FindByName(store, name)
    {
      var i := 0;
      while i < |store.order|
        invariant 0 <= i <= |store.order|
        invariant FindFrom(store, name, i) == FindByName(store, name)
      {
        var e := store.order[i];
        if store.descriptors[e].name == name {
          return FromEntity(e);
        }
        i := i + 1;
      }
      return NullHandle();
    }

    /** The header's `GetObjectType(e)`: the name behind the first tag storage, whatever e is. */
    method GetObjectType() returns (r: string)
      ensures r == Registration.GetObjectType(Maps(), store)
    {
      for i := 0 to |store.poolOrder|
        invariant FirstTagPool(Maps(), store.poolOrder, i) == FirstTagPool(Maps(), store.poolOrder, 0)
      {
        var id := store.poolOrder[i];
        if id in typesByTag {
          return GetClassNameByID(Maps(), typesByTag[id]);
        }
      }
      return "";
    }

    /**
     * The .cpp `GetObjectComponents(e)`: the names of the storages holding e
     * that are registered for e's type, in storage order, never the
     * descriptor storage.
     */
    method GetObjectComponents(e: Entity) returns (names: seq<string>)
      requires e in store.descriptors
      ensures names == Listed(Maps(), store, store.descriptors[e].typeId, e)
    {
      names := ListComponents(Maps(), store, e);
    }

    /** The header's `GetObjectComponents(e)`: the type is looked up through `GetObjectType`. */
    method GetObjectComponentsInline(e: Entity) returns (names: seq<string>)
      ensures names == Listed(Maps(), store, hash(Registration.GetObjectType(Maps(), store)), e)
    {
      names := ListComponentsInline(Maps(), hash, store, e);
    }

    /** `Each(func)`: the handles of the live entities, in enumeration order. */
    method Each() returns (visited: seq<Handle>)
      requires StoreValid(store)
      ensures |visited| == |store.order|
      ensures forall i :: 0 <= i < |visited| ==> visited[i] == FromEntity(store.order[i])
      ensures forall h :: h in visited <==> Truthy(h, Alive(store))
    {
      visited := [];
      for i := 0 to |store.order|
        invariant |visited| == i
        invariant forall j :: 0 <= j < i ==> visited[j] == FromEntity(store.order[j])
      {
        var h := FromEntity(store.order[i]);
        if Truthy(h, Alive(store)) {
          visited := visited + [h];
        }
      }
      forall h | Truthy(h, Alive(store)) ensures h in visited {
        var j :| 0 <= j < |store.order| && store.order[j] == h.id;
        assert visited[j] == h;
      }
    }

    /** `ForEachByTag<Tag, Attached>(func)`: the holders of the tag, in enumeration order. */
    method ForEachByTag(tagPool: Id) returns (visited: seq<Entity>)
      requires StoreValid(store)
      ensures forall e :: e in visited <==> Has(store, tagPool, e)
      ensures Distinct(visited)
    {
      visited := [];
      for i := 0 to |store.order|
        invariant forall e :: e in visited <==> e in store.order[..i] && Has(store, tagPool, e)
        invariant Distinct(visited)
      {
        assert store.order[..i + 1] == store.order[..i] + [store.order[i]];
        var e := store.order[i];
        if Has(store, tagPool, e) {
          assert e !in store.order[..i];
          visited := visited + [e];
        }
      }
      assert store.order[..|store.order|] == store.order;
    }

    /**
     * The header's `GetAllChildren(current, vec)`: appends the pre-order of
     * the subtree below a truthy handle, nothing for a falsy one.
     */
    method GetAllChildrenInline(current: Handle, vec: seq<Handle>, ghost rank: map<Entity, nat>) returns (out: seq<Handle>)
      requires Ranked(store.descriptors, rank)
      ensures out == vec + PreOrder(store.descriptors, rank, current)
    {
      out := CollectSubtree(store.descriptors, current, vec, rank);
    }

    /**
     * The .cpp `GetAllChildren(current, vec)`: every object of the subtree
     * leaves its parent, and the subtree's objects are appended in the order
     * the walk reaches them.
     */
    method GetAllChildren(current: Handle, vec: seq<Handle>, ghost rank: map<Entity, nat>) returns (out: seq<Handle>)
      requires Valid() && Ranked(store.descriptors, rank) && Truthy(current, Alive(store))
      modifies this`store
      ensures Valid() && Maps() == old(Maps()) && toDelete == old(toDelete)
      ensures store == old(store).(descriptors := DetachWalk(old(store).descriptors, rank, current).0)
      ensures out == vec + DetachWalk(old(store).descriptors, rank, current).1
    {
      DetachWalkValid(store, rank, current);
      var d;
      d, out := DetachSubtree(store.descriptors, current, vec, rank);
      store := store.(descriptors := d);
    }

    // -------------------------------------------------------------------
    // Creation

    /**
     * `CreateNew<T>(name)`: a fresh entity carrying a descriptor with a free
     * name and T's type id, then `InitializeObject<T>`. A failure while
     * adding the start-up components propagates, leaving the entity created.
     */
    method CreateNew(className: string, name: string) returns (r: Result<Handle>)
      requires Valid()
      modifies this`store
      ensures Valid() && Maps() == old(Maps()) && toDelete == old(toDelete)
      ensures CreatedAs(Maps(), hash, old(store), className, name, store, r)
    {
      var t := Maps();
      store, r := CreateNamed(t, hash, store, className, name);
      assert Maps() == t;
    }

    /**
     * `CreateObjectFromType(type, name)`: only an object type has a `Create`
     * closure; it creates through `CreateNew` of the registered class.
     */
    method CreateObjectFromType(typeName: string, objectName: string) returns (r: Result<Handle>)
      requires Valid()
      modifies this`store
      ensures Valid() && Maps() == old(Maps()) && toDelete == old(toDelete)
      ensures CreatedFromType(Maps(), hash, old(store), typeName, objectName, store, r)
    {
      store, r := CreateFromType(Maps(), hash, store, typeName, objectName);
    }

    // -------------------------------------------------------------------
    // Typed component operations (T given by its storage id and initial value)

    /** `AddComponent<T>(e, args...)`: get-or-create, true only when T was absent. */
    method AddComponent(p: Id, e: Entity, blank: Cell) returns (r: Result<bool>)
      requires Valid() && p != DescriptorPool
      modifies this`store
      ensures Valid() && Maps() == old(Maps()) && toDelete == old(toDelete)
      ensures r.Failure? <==> e !in old(store).descriptors
      ensures r == Success(true) <==> e in old(store).descriptors && !Has(old(store), p, e)
      ensures r.Success? ==> store == GetOrCreate(old(store), p, e, blank)
      ensures r.Failure? ==> store == old(store)
    {
      var has := HasComponent(store, p, e);
      if has.Failure? {
        return Failure(has.error);
      }
      if !has.value {
        store := GetOrCreate(store, p, e, blank);
        return Success(true);
      }
      return Success(false);
    }

    /**
     * `GetComponent<T>(e)` and `GetComponentWithArgs<T>(e, args...)`:
     * get-or-create; `couldAdd` is never set, so the handle comes from the
     * presence test, which the add has just made true.
     */
    method GetComponent(p: Id, e: Entity, blank: Cell) returns (r: Result<Option<ComponentRef>>)
      requires Valid() && p != DescriptorPool
      modifies this`store
      ensures Valid() && Maps() == old(Maps()) && toDelete == old(toDelete)
      ensures r.Failure? <==> e !in old(store).descriptors
      ensures r.Success? ==> r.value == Some(ComponentRef(p, e)) && store == GetOrCreate(old(store), p, e, blank)
      ensures r.Failure? ==> store == old(store)
    {
      var added := AddComponent(p, e, blank);
      if added.Failure? {
        return Failure(added.error);
      }
      var couldAdd := false;
      if couldAdd {
        return Success(Some(ComponentRef(p, e)));
      }
      var has := HasComponent(store, p, e);
      if has.Success? && has.value {
        return Success(Some(ComponentRef(p, e)));
      }
      return Success(None);
    }

    /** `AddComponentByName(e, name)` and `GetComponentByName(e, name)`. */
    method AddComponentByName(e: Entity, name: string) returns (r: Result<Option<ComponentRef>>)
      requires Valid()
      modifies this`store
      ensures Valid() && Maps() == old(Maps()) && toDelete == old(toDelete)
      ensures (store, r) == AddByName(Maps(), hash, old(store), e, name)
    {
      var res := AddByName(Maps(), hash, store, e, name);
      store := res.0;
      r := res.1;
    }

    /** `EraseComponent<T>(e)`: true iff T was present; `Destroy` does nothing. */
    method EraseComponent(p: Id, e: Entity) returns (r: Result<bool>)
      requires Valid()
      modifies this`store
      ensures Valid() && Maps() == old(Maps()) && toDelete == old(toDelete)
      ensures r.Failure? <==> e !in old(store).descriptors
      ensures r.Success? ==> (r.value <==> Has(old(store), p, e)) && store == EraseIfPresent(old(store), p, e)
      ensures r.Failure? ==> store == old(store)
    {
      var has := HasComponent(store, p, e);
      if has.Failure? {
        return Failure(has.error);
      }
      if has.value {
        store := EraseIfPresent(store, p, e);
        return Success(true);
      }
      return Success(false);
    }

    /** `CopyComponent<T>(first, second)`. */
    method CopyComponent(p: Id, first: Entity, second: Entity) returns (r: Result<bool>)
      requires Valid()
      modifies this`store
      ensures Valid() && Maps() == old(Maps()) && toDelete == old(toDelete)
      ensures (store, r) == ComponentOps.CopyComponent(old(store), p, first, second)
    {
      var res := ComponentOps.CopyComponent(store, p, first, second);
      store := res.0;
      r := res.1;
    }

    // -------------------------------------------------------------------
    // Duplication

    /**
     * `DuplicateObject<T>(other)` for the class named className: a new
     * object named after other, carrying copies of other's components. The
     * tag table may gain an entry for the class.
     */
    method DuplicateObject(className: string, other: Entity) returns (res: Result<Entity>)
      requires Valid() && other in store.descriptors
      modifies this`store, this`tagsByType
      ensures Valid() && toDelete == old(toDelete)
      ensures CloneOf(old(Maps()), hash, old(store), className, other, Maps(), store, res)
    {
      var t0, s0 := Maps(), store;
      var t', r;
      t', r, res := DuplicateClone(t0, hash, s0, className, other);
      store := r;
      tagsByType := t'.tagsByType;
      assert Maps() == t';
    }

    /**
     * `CopyObject<T>(other)` for the class named className: other and its
     * descendants, in pre-order, are duplicated and the duplicates chained.
     */
    method CopyObject(className: string, other: Entity, ghost rank: map<Entity, nat>)
      returns (res: Result<Entity>, ghost clones: seq<Entity>)
      requires Valid() && other in store.descriptors && Ranked(store.descriptors, rank)
      modifies this`store, this`tagsByType
      ensures Valid() && toDelete == old(toDelete)
      ensures Progress(old(Maps()), hash, old(store), hash(className),
                       PreOrder(old(store).descriptors, rank, FromEntity(other)), Maps(), store, clones)
      ensures res.Success? ==> |clones| == |PreOrder(old(store).descriptors, rank, FromEntity(other))| && res.value == clones[0]
      ensures res.Success? ==> !InitRaises(old(Maps()), hash, className)
      ensures Coherent(old(Maps()), hash) && !InitRaises(old(Maps()), hash, className) ==> res.Success?
    {
      var t0, s0 := Maps(), store;
      var t', r;
      t', r, res, clones := Duplication.CopyObject(t0, hash, s0, className, other, rank);
      store := r;
      tagsByType := t'.tagsByType;
      assert Maps() == t';
    }

    // -------------------------------------------------------------------
    // Deletion

    /** `DeleteObject(obj)`: a truthy handle is queued. */
    method DeleteObject(h: Handle) returns (ok: bool)
      modifies this`toDelete
      ensures ok <==> Truthy(h, Alive(store))
      ensures toDelete == old(toDelete) + (if ok then [h] else [])
      ensures store == old(store) && Maps() == old(Maps())
    {
      if Truthy(h, Alive(store)) {
        toDelete := toDelete + [h];
        return true;
      }
      return false;
    }
  
    // -------------------------------------------------------------------
    // Validation

    /** The .cpp `ValidateAllGameObjects()`: components are listed by the object's type id. */
    method ValidateAllGameObjects()
      requires Valid() && NamesResolve(Maps(), hash)
      modifies this`store
      ensures Valid() && Maps() == old(Maps()) && toDelete == old(toDelete)
      ensures store == Restamped(Maps(), hash, old(store), false)
    {
      store := ValidateAll(Maps(), hash, store, false);
    }

    /** The header's `ValidateAllGameObjects()`: components are listed through the header's `GetObjectType`. */
    method ValidateAllGameObjectsInline()
      requires Valid() && NamesResolve(Maps(), hash)
      modifies this`store
      ensures Valid() && Maps() == old(Maps()) && toDelete == old(toDelete)
      ensures store == Restamped(Maps(), hash, old(store), true)
    {
      store := ValidateAll(Maps(), hash, store, true);
    }

    // -------------------------------------------------------------------
    // Draining the deletion queue

    /**
     * The header's `ClearDeletingQueue()`: the queued subtrees are deleted,
     * validation runs when the queue was not empty, and the queue is emptied.
     * The ranking witnesses that the hierarchy is acyclic.
     */
    method ClearDeletingQueueInline(ghost rank: map<Entity, nat>)
      requires Valid() && Ranked(store.descriptors, rank)
      requires toDelete != [] ==> NamesResolve(Maps(), hash)
      modifies this`store, this`toDelete
      ensures Valid() && Maps() == old(Maps()) && toDelete == []
      ensures var S1 := DestroyAll(old(store), DeletedSoFar(Maps(), old(store), rank, old(toDelete), |old(toDelete)|));
              StoreValid(S1) && store == if old(toDelete) != [] then Restamped(Maps(), hash, S1, true) else S1
    {
      store := DrainQueueInline(Maps(), hash, store, toDelete, rank);
      if |toDelete| > 0 {
        ValidateAllGameObjectsInline();
      }
      toDelete := [];
    }

    /**
     * The .cpp `ClearDeletingQueue()`: the queued subtrees are detached and
     * deleted, validation runs when the queue was not empty, and the queue is
     * emptied. `mid` is the store before validation.
     */
    method ClearDeletingQueue(ghost rank: map<Entity, nat>) returns (ghost mid: Store)
      requires Valid() && Ranked(store.descriptors, rank) && CachesResolve(Maps(), hash, store)
      requires toDelete != [] ==> NamesResolve(Maps(), hash)
      modifies this`store, this`toDelete
      ensures Valid() && Maps() == old(Maps()) && toDelete == []
      ensures StoreValid(mid) && Ranked(mid.descriptors, rank)
      ensures Pruned(old(store), mid, Subtrees(old(store).descriptors, rank, old(toDelete)))
      ensures store == if old(toDelete) != [] then Restamped(Maps(), hash, mid, false) else mid
    {
      store, mid := DrainQueue(Maps(), hash, store, toDelete, rank);
      toDelete := [];
    }
  }

  /**
   * The static initializer of `DefineComponent<ComponentName, ComponentType>`,
   * run on the register: the registration with the arguments in the order
   * the initializer passes them.
   */
  method DefineComponentInitializer(reg: ObjectPropertyRegister, componentName: string, componentType: string,
                                    typePool: Id, blank: Cell)
    requires reg.Valid() && typePool != DescriptorPool
    modifies reg`componentsByType, reg`meta, reg`componentNames
    ensures reg.Valid() && reg.store == old(reg.store) && reg.toDelete == old(reg.toDelete)
    ensures reg.Maps() == DefineComponentTables(old(reg.Maps()), reg.hash, componentName, componentType, typePool, blank)
  {
    reg.RegisterClassAsComponentOfType(componentName, componentType, typePool, blank);
  }
}
