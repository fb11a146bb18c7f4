/**
 * The parent/child and name operations of `ObjectProperties`, applied to the
 * descriptor of a live object inside the entity store.
 */
module Links {
  import opened Handles
  import opened Hierarchy
  import opened EntityStore

  /** `AddChildren(obj)` on a live object's descriptor. */
  function Adopt(s: Store, self: Entity, child: Entity): (r: Store)
    requires StoreValid(s) && self in s.descriptors
    ensures StoreValid(r) && r == s.(descriptors := AddChildren(s.descriptors, self, child))
  {
    AddChildrenKeepsDistinct(s.descriptors, self, child);
    WithDescriptors(s, AddChildren(s.descriptors, self, child))
  }

  /** `RemoveChildren(obj)` on a live object's descriptor. */
  function Disown(s: Store, self: Entity, child: Entity): (r: Store)
    requires StoreValid(s) && self in s.descriptors
    ensures StoreValid(r) && r == s.(descriptors := RemoveChildren(s.descriptors, self, child))
  {
    WithDescriptors(s, RemoveChildren(s.descriptors, self, child))
  }

  /** `SetParent(obj)` between two live objects. */
  function Reparent(s: Store, self: Entity, e: Entity): (r: Store)
    requires StoreValid(s) && self in s.descriptors && e in s.descriptors
    ensures StoreValid(r) && r == s.(descriptors := SetParent(s.descriptors, self, e))
  {
    if SameType(s.descriptors, self, e) then
      SetParentAdoptsOnce(s.descriptors, self, e);
      WithDescriptors(s, SetParent(s.descriptors, self, e))
    else
      s
  }

  /** `ClearParent()` on a live object's descriptor. */
  function Orphan(s: Store, self: Entity): (r: Store)
    requires StoreValid(s) && self in s.descriptors
    ensures StoreValid(r) && r == s.(descriptors := ClearParent(s.descriptors, self))
  {
    WithDescriptors(s, ClearParent(s.descriptors, self))
  }

  /** `SetName(name)` on a live object's descriptor. */
  function Rename(s: Store, self: Entity, name: string): (r: Store)
    requires StoreValid(s) && self in s.descriptors
    ensures StoreValid(r) && r == s.(descriptors := s.descriptors[self := SetName(s.descriptors[self], name)])
  {
    WithDescriptors(s, s.descriptors[self := SetName(s.descriptors[self], name)])
  }
}
