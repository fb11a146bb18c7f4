/**
 * The public facade of `ecspp.h`: thin entry points over the object
 * property register, with the truthiness guards the facade adds of its own.
 */
module Ecspp {
  import opened Wrappers
  import opened Handles
  import opened Hierarchy
  import opened EntityStore
  import opened Registration
  import opened ComponentOps
  import opened Lifecycle
  import opened Duplication
  import opened Detach
  import opened Register
  import Objects

  /** The class name of the base `Object` type. */
  const ObjectClass: string := "Object"

  /** Whether a type name resolves to a registered object type, the only kind with a `Create` closure. */
  predicate NamesObjectType(t: Tables, hash: string -> Id, typeName: string) {
    Resolve(t, hash, typeName).Some? && Resolve(t, hash, typeName).value.ObjectMeta?
  }

  /**
   * `ClearDeletingQueue()`: the register's drain as the header defines it.
   * The queued subtrees are deleted, or nothing is when no tag storage
   * exists; validation follows when the queue was not empty.
   */
  method ClearDeletingQueue(reg: ObjectPropertyRegister, ghost rank: map<Entity, nat>)
    requires reg.Valid() && Ranked(reg.store.descriptors, rank)
    requires reg.toDelete != [] ==> NamesResolve(reg.Maps(), reg.hash)
    modifies reg`store, reg`toDelete
    ensures reg.Valid() && reg.Maps() == old(reg.Maps()) && reg.toDelete == []
    ensures var X := if GetObjectType(reg.Maps(), old(reg.store)) == "" then {}
                     else Subtrees(old(reg.store).descriptors, rank, old(reg.toDelete));
            var S1 := DestroyAll(old(reg.store), X);
            StoreValid(S1) && reg.store == if old(reg.toDelete) != [] then Restamped(reg.Maps(), reg.hash, S1, true) else S1
  {
    ghost var q := reg.toDelete;
    assert q[..|q|] == q;
    reg.ClearDeletingQueueInline(rank);
  }

  /** `CreateNewObject(name)`: a base `Object` under the first free variant of the name. */
  method CreateNewObject(reg: ObjectPropertyRegister, name: string) returns (r: Result<Handle>)
    requires reg.Valid()
    modifies reg`store
    ensures reg.Valid() && reg.Maps() == old(reg.Maps()) && reg.toDelete == old(reg.toDelete)
    ensures CreatedAs(reg.Maps(), reg.hash, old(reg.store), ObjectClass, name, reg.store, r)
  {
    r := reg.CreateNew(ObjectClass, name);
  }

  /**
   * `CreateNewObject(type, name)`: creation through the type's `Create`
   * closure; a type name that is not a registered object type yields the
   * falsy default handle and creates nothing.
   */
  method CreateNewObjectOfType(reg: ObjectPropertyRegister, typeName: string, name: string) returns (r: Result<Handle>)
    requires reg.Valid()
    modifies reg`store
    ensures reg.Valid() && reg.Maps() == old(reg.Maps()) && reg.toDelete == old(reg.toDelete)
    ensures CreatedFromType(reg.Maps(), reg.hash, old(reg.store), typeName, name, reg.store, r)
    ensures !NamesObjectType(reg.Maps(), reg.hash, typeName) ==>
              r == Success(NullHandle()) && !Truthy(r.value, Alive(reg.store)) && reg.store == old(reg.store)
  {
    r := reg.CreateObjectFromType(typeName, name);
  }

  /** `ForEachObject(func)`: the handles `func` is called with, in enumeration order. */
  method ForEachObject(reg: ObjectPropertyRegister) returns (visited: seq<Handle>)
    requires StoreValid(reg.store)
    ensures |visited| == |reg.store.order|
    ensures forall i :: 0 <= i < |visited| ==> visited[i] == FromEntity(reg.store.order[i])
    ensures forall h :: h in visited <==> Truthy(h, Alive(reg.store))
  {
    visited := reg.Each();
  }

  /**
   * `GetObjectComponents(obj)`: the header's listing for the object's
   * entity, whose type key is the hash of `GetObjectType()`.
   */
  method GetObjectComponents(obj: Objects.Object) returns (names: seq<string>)
    ensures names == Listed(obj.reg.Maps(), obj.reg.store, obj.reg.hash(GetObjectType(obj.reg.Maps(), obj.reg.store)), obj.id)
    ensures forall n :: n in names <==>
              exists p :: p in obj.reg.store.poolOrder && n == GetComponentNameByID(obj.reg.Maps(), p) &&
                          ListedPool(obj.reg.Maps(), obj.reg.store, obj.reg.hash(GetObjectType(obj.reg.Maps(), obj.reg.store)), obj.id, p)
  {
    names := obj.reg.GetObjectComponentsInline(obj.id);
    forall n ensures n in names <==>
      exists p :: p in obj.reg.store.poolOrder && n == GetComponentNameByID(obj.reg.Maps(), p) &&
                  ListedPool(obj.reg.Maps(), obj.reg.store, obj.reg.hash(GetObjectType(obj.reg.Maps(), obj.reg.store)), obj.id, p)
    {
      ListedSpec(obj.reg.Maps(), obj.reg.store, obj.reg.hash(GetObjectType(obj.reg.Maps(), obj.reg.store)), obj.id, n);
    }
  }

  /**
   * `CopyObject(handle)`: a falsy handle yields the falsy default handle and
   * creates nothing; otherwise the object and its descendants are
   * duplicated as the base `Object` type, chained, and the first duplicate
   * is returned.
   */
  method CopyObject(reg: ObjectPropertyRegister, other: Handle, ghost rank: map<Entity, nat>)
    returns (r: Result<Handle>, ghost clones: seq<Entity>)
    requires reg.Valid() && Ranked(reg.store.descriptors, rank)
    modifies reg`store, reg`tagsByType
    ensures reg.Valid() && reg.toDelete == old(reg.toDelete)
    ensures !Truthy(other, old(Alive(reg.store))) ==>
              r == Success(NullHandle()) && clones == [] && reg.store == old(reg.store) && reg.Maps() == old(reg.Maps())
    ensures Truthy(other, old(Alive(reg.store))) ==>
              && Progress(old(reg.Maps()), reg.hash, old(reg.store), reg.hash(ObjectClass),
                          PreOrder(old(reg.store).descriptors, rank, other), reg.Maps(), reg.store, clones)
              && (r.Success? ==> |clones| == |PreOrder(old(reg.store).descriptors, rank, other)| && r.value == FromEntity(clones[0]))
              && (r.Success? ==> !InitRaises(old(reg.Maps()), reg.hash, ObjectClass))
              && (Coherent(old(reg.Maps()), reg.hash) && !InitRaises(old(reg.Maps()), reg.hash, ObjectClass) ==> r.Success?)
  {
    if !Truthy(other, Alive(reg.store)) {
      return Success(NullHandle()), [];
    }
    var res;
    res, clones := reg.CopyObject(ObjectClass, other.id, rank);
    if res.Failure? {
      return Failure(res.error), clones;
    }
    r := Success(FromEntity(res.value));
  }

  /** `FindObjectByName(name)`: the register's scan. */
  method FindObjectByName(reg: ObjectPropertyRegister, name: string) returns (h: Handle)
    requires StoreValid(reg.store)
    ensures h == FindByName(reg.store, name)
    ensures h == NullHandle() <==> forall x :: x in reg.store.descriptors ==> reg.store.descriptors[x].name != name
    ensures h != NullHandle() ==> h.id in reg.store.descriptors && reg.store.descriptors[h.id].name == name
  {
    h := reg.FindObjectByName(name);
    FindFromSpec(reg.store, name, 0);
    if h == NullHandle() {
      forall x | x in reg.store.descriptors ensures reg.store.descriptors[x].name != name {
        var j :| 0 <= j < |reg.store.order| && reg.store.order[j] == x;
      }
    }
  }

  /** `DeleteObject(Object)`: the object's handle is queued when its entity is alive. */
  method DeleteObject(obj: Objects.Object) returns (ok: bool)
    modifies obj.reg`toDelete
    ensures ok <==> obj.id in Alive(obj.reg.store)
    ensures obj.reg.toDelete == old(obj.reg.toDelete) + (if ok then [FromEntity(obj.id)] else [])
    ensures obj.reg.store == old(obj.reg.store) && obj.reg.Maps() == old(obj.reg.Maps())
  {
    ok := obj.reg.DeleteObject(FromEntity(obj.id));
  }

  /** `DeleteObject(ObjectHandle)`: a falsy handle is refused before reaching the register. */
  method DeleteHandle(reg: ObjectPropertyRegister, h: Handle) returns (ok: bool)
    modifies reg`toDelete
    ensures ok <==> Truthy(h, Alive(reg.store))
    ensures reg.toDelete == old(reg.toDelete) + (if ok then [h] else [])
    ensures reg.store == old(reg.store) && reg.Maps() == old(reg.Maps())
  {
    if Truthy(h, Alive(reg.store)) {
      ok := reg.DeleteObject(FromEntity(h.id));
      return;
    }
    return false;
  }

  /** `DeleteObject(entt::entity)`: the handle built from the entity. */
  method DeleteEntity(reg: ObjectPropertyRegister, e: Entity) returns (ok: bool)
    modifies reg`toDelete
    ensures ok <==> e in Alive(reg.store)
    ensures reg.toDelete == old(reg.toDelete) + (if ok then [FromEntity(e)] else [])
    ensures reg.store == old(reg.store) && reg.Maps() == old(reg.Maps())
  {
    ok := DeleteHandle(reg, FromEntity(e));
  }

  /** `GetClassNameByID(id)`: the registered object name, or "" for an unknown id. */
  method GetClassNameByID(reg: ObjectPropertyRegister, id: Id) returns (name: string)
    ensures id in reg.objectNames ==> name == reg.objectNames[id]
    ensures id !in reg.objectNames ==> name == ""
  {
    name := Registration.GetClassNameByID(reg.Maps(), id);
  }

  /** `IsClassRegistered(className)`: whether the hashed name resolves to a registered meta type. */
  method IsClassRegistered(reg: ObjectPropertyRegister, className: string) returns (ok: bool)
    ensures ok <==> reg.hash(className) in reg.meta
  {
    ok := Registration.IsClassRegistered(reg.Maps(), reg.hash, className);
  }
}
