/**
 * `ObjectProperties`: the descriptor every object carries (name, type id,
 * parent, children, cached component names) and the parent/child operations
 * on it. Descriptors live in the entity store, so each operation here maps
 * the descriptor table of the store to its new value.
 */
module Hierarchy {
  import opened Handles
  import opened Wrappers

  datatype Descriptor = Descriptor(
    name: string,
    typeId: Id,
    parent: Handle,
    children: seq<Handle>,
    componentNames: seq<string>,
    master: Handle)

  /** The descriptor pool: one descriptor per live object. */
  type Descriptors = map<Entity, Descriptor>

  /** `ObjectProperties(name, masterType, e)`: no parent, no children, empty name cache. */
  function NewDescriptor(name: string, typeId: Id, e: Entity): (p: Descriptor)
    ensures p.name == name && p.typeId == typeId && p.master == FromEntity(e)
    ensures p.parent == NullHandle() && p.children == [] && p.componentNames == []
  {
    Descriptor(name, typeId, NullHandle(), [], [], FromEntity(e))
  }

  /** `SetName(name)`. */
  function SetName(p: Descriptor, name: string): Descriptor {
    p.(name := name)
  }

  /** `SetComponentsNames(vec)`: the cache is replaced wholesale. */
  function SetComponentsNames(p: Descriptor, names: seq<string>): Descriptor {
    p.(componentNames := names)
  }

  /** `GetName` after `SetName` returns the set name; nothing else changes. */
  lemma SetNameThenGetName(p: Descriptor, name: string, names: seq<string>)
    ensures SetName(p, name).name == name
    ensures SetName(p, name).(name := p.name) == p
    ensures SetComponentsNames(p, names).componentNames == names
    ensures SetComponentsNames(p, names).(componentNames := p.componentNames) == p
  {
  }

  // ---------------------------------------------------------------------
  // Children lists

  /** `std::find(children, ObjectHandle(e))` succeeds: handles compare by id. */
  predicate Lists(hs: seq<Handle>, e: Entity) {
    exists i :: 0 <= i < |hs| && hs[i].id == e
  }

  predicate NoDuplicateIds(hs: seq<Handle>) {
    forall i, j :: 0 <= i < j < |hs| ==> hs[i].id != hs[j].id
  }

  /** The position `std::find` returns. */
  function FindId(hs: seq<Handle>, e: Entity): (r: Option<nat>)
    ensures r.Some? ==> r.value < |hs| && hs[r.value].id == e
    ensures r.Some? ==> forall j :: 0 <= j < r.value ==> hs[j].id != e
    ensures r.None? <==> !Lists(hs, e)
  {
    if hs == [] then None
    else if hs[0].id == e then Some(0)
    else match FindId(hs[1..], e)
      case None => (assert forall i :: 1 <= i < |hs| ==> hs[i] == hs[1..][i - 1]; None)
      case Some(i) => Some(i + 1)
  }

  /** Erasing the entry at `i` keeps every other entry, in order. */
  lemma RemoveAtLists(hs: seq<Handle>, i: nat, x: Entity)
    requires i < |hs| && NoDuplicateIds(hs)
    ensures NoDuplicateIds(hs[..i] + hs[i + 1..])
    ensures Lists(hs[..i] + hs[i + 1..], x) <==> Lists(hs, x) && x != hs[i].id
  {
    var r := hs[..i] + hs[i + 1..];
    assert forall k :: 0 <= k < |r| ==> r[k] == (if k < i then hs[k] else hs[k + 1]);
    if Lists(hs, x) && x != hs[i].id {
      var k :| 0 <= k < |hs| && hs[k].id == x;
      assert r[if k < i then k else k - 1].id == x;
    }
  }

  lemma RemoveAtDistinct(hs: seq<Handle>, i: nat)
    requires i < |hs|
    ensures NoDuplicateIds(hs) ==> NoDuplicateIds(hs[..i] + hs[i + 1..])
    ensures NoDuplicateIds(hs) ==> forall x :: Lists(hs[..i] + hs[i + 1..], x) <==> Lists(hs, x) && x != hs[i].id
  {
    if NoDuplicateIds(hs) {
      forall x ensures Lists(hs[..i] + hs[i + 1..], x) <==> Lists(hs, x) && x != hs[i].id {
        RemoveAtLists(hs, i, x);
      }
    }
  }

  /** Whether `AddChildren(child)` on `self` appends: child alive, not yet listed, same type. */
  predicate CanAdopt(d: Descriptors, self: Entity, child: Entity)
    requires self in d
  {
    child in d && !Lists(d[self].children, child) && d[child].typeId == d[self].typeId
  }

  /** `ObjectProperties::AddChildren(e)` on the descriptor of `self`. */
  function AddChildren(d: Descriptors, self: Entity, child: Entity): (d': Descriptors)
    requires self in d
    ensures d'.Keys == d.Keys && self in d'
    ensures forall y :: y in d && y != self ==> d'[y] == d[y]
    ensures d'[self] == d[self].(children := d'[self].children)
    ensures forall x :: Lists(d'[self].children, x) <==> Lists(d[self].children, x) || (x == child && CanAdopt(d, self, child))
    ensures NoDuplicateIds(d[self].children) ==> NoDuplicateIds(d'[self].children)
    ensures !CanAdopt(d, self, child) ==> d' == d
  {
    var p := d[self];
    if CanAdopt(d, self, child) then
      var ch := p.children + [FromEntity(child)];
      assert forall x :: Lists(ch, x) <==> Lists(p.children, x) || x == child by {
        forall x ensures Lists(ch, x) <==> Lists(p.children, x) || x == child {
          if Lists(p.children, x) {
            var i :| 0 <= i < |p.children| && p.children[i].id == x;
            assert ch[i] == p.children[i];
          }
          if x == child {
            assert ch[|p.children|].id == x;
          }
        }
      }
      d[self := p.(children := ch)]
    else
      d
  }

  /** `ObjectProperties::RemoveChildren(e)`: erases the first entry for a live, listed child. */
  function RemoveChildren(d: Descriptors, self: Entity, child: Entity): (d': Descriptors)
    requires self in d
    ensures d'.Keys == d.Keys && self in d'
    ensures forall y :: y in d && y != self ==> d'[y] == d[y]
    ensures d'[self] == d[self].(children := d'[self].children)
    ensures child !in d || !Lists(d[self].children, child) ==> d' == d
    ensures NoDuplicateIds(d[self].children) ==> NoDuplicateIds(d'[self].children)
    ensures NoDuplicateIds(d[self].children) ==>
              forall x :: Lists(d'[self].children, x) <==> Lists(d[self].children, x) && (x != child || child !in d)
  {
    var p := d[self];
    match FindId(p.children, child)
    case Some(i) =>
      if child in d then
        RemoveAtDistinct(p.children, i);
        d[self := p.(children := p.children[..i] + p.children[i + 1..])]
      else d
    case None => d
  }

  /** `HasSameObjectTypeAs`: both descriptors carry the same type id. */
  predicate SameType(d: Descriptors, a: Entity, b: Entity)
    requires a in d && b in d
  {
    d[a].typeId == d[b].typeId
  }

  /**
   * `ObjectProperties::SetParent(e)` on the descriptor of `self`: for an object
   * of the same type, record e as parent and adopt self into e's children; a
   * previous parent keeps its entry for self.
   */
  function SetParent(d: Descriptors, self: Entity, e: Entity): (d': Descriptors)
    requires self in d && e in d
    ensures d'.Keys == d.Keys
    ensures !SameType(d, self, e) ==> d' == d
    ensures SameType(d, self, e) ==> d'[self].parent == FromEntity(e) && Lists(d'[e].children, self)
    ensures forall y :: y in d && y != self && y != e ==> d'[y] == d[y]
  {
    if SameType(d, self, e) then
      var d1 := d[self := d[self].(parent := FromEntity(e))];
      AddChildren(d1, e, self)
    else
      d
  }

  /** `ObjectProperties::ClearParent()`: leave a live parent's children, then forget the parent. */
  function ClearParent(d: Descriptors, self: Entity): (d': Descriptors)
    requires self in d
    ensures d'.Keys == d.Keys
    ensures d'[self].parent == NullHandle()
    ensures d'[self].children == (if d[self].parent.id == self && Truthy(d[self].parent, d.Keys)
                                  then RemoveChildren(d, self, self)[self].children else d[self].children)
    ensures forall y :: y in d && y != self && (y != d[self].parent.id || !Truthy(d[self].parent, d.Keys)) ==> d'[y] == d[y]
  {
    var p := d[self].parent;
    var d1 := if Truthy(p, d.Keys) then RemoveChildren(d, p.id, self) else d;
    d1[self := d1[self].(parent := NullHandle())]
  }

  // ---------------------------------------------------------------------
  // Well-formedness of the hierarchy

  /** Children lists never repeat an id. */
  predicate ChildrenDistinct(d: Descriptors) {
    forall e :: e in d ==> NoDuplicateIds(d[e].children)
  }

  /**
   * A ranking under which every live child sits strictly below its parent:
   * the hierarchy is acyclic. The recursive walks of the source do not
   * terminate without this.
   */
  predicate Ranked(d: Descriptors, rank: map<Entity, nat>) {
    forall e :: e in d ==> (e in rank &&
      forall i :: 0 <= i < |d[e].children| && d[e].children[i].id in d ==>
        d[e].children[i].id in rank && rank[d[e].children[i].id] < rank[e])
  }

  /** `AddChildren` never creates a duplicate entry. */
  lemma AddChildrenKeepsDistinct(d: Descriptors, self: Entity, child: Entity)
    requires self in d && ChildrenDistinct(d)
    ensures ChildrenDistinct(AddChildren(d, self, child))
  {
  }

  /** After `SetParent` with the same type, self appears exactly once among e's children. */
  lemma SetParentAdoptsOnce(d: Descriptors, self: Entity, e: Entity)
    requires self in d && e in d && ChildrenDistinct(d) && SameType(d, self, e)
    ensures ChildrenDistinct(SetParent(d, self, e))
    ensures var ch := SetParent(d, self, e)[e].children;
            Lists(ch, self) && forall i, j :: 0 <= i < |ch| && 0 <= j < |ch| && ch[i].id == self && ch[j].id == self ==> i == j
  {
    var d1 := d[self := d[self].(parent := FromEntity(e))];
    assert ChildrenDistinct(d1);
    AddChildrenKeepsDistinct(d1, e, self);
  }

  /** `SetParent` does not unlink self from a previous, different parent. */
  lemma SetParentKeepsOldLink(d: Descriptors, self: Entity, e: Entity, old_parent: Entity)
    requires self in d && e in d && old_parent in d
    requires old_parent != e && old_parent != self && Lists(d[old_parent].children, self)
    ensures Lists(SetParent(d, self, e)[old_parent].children, self)
  {
  }

  /** After `ClearParent`, a live parent (other than self) no longer lists self. */
  lemma ClearParentUnlinks(d: Descriptors, self: Entity)
    requires self in d && ChildrenDistinct(d)
    requires Truthy(d[self].parent, d.Keys) && d[self].parent.id != self
    ensures !Lists(ClearParent(d, self)[d[self].parent.id].children, self)
    ensures ChildrenDistinct(ClearParent(d, self))
  {
  }

  // ---------------------------------------------------------------------
  // IsInChildren

  /** `IsInChildren(obj)`: a direct child, or inside the subtree of some child. */
  function IsInChildren(d: Descriptors, rank: map<Entity, nat>, self: Entity, obj: Entity): bool
    requires self in d && Ranked(d, rank)
    decreases rank[self], 1, 0
  {
    var ch := d[self].children;
    if |ch| == 0 then false
    else if Lists(ch, obj) then true
    else AnyChildContains(d, rank, self, 0, obj)
  }

  /**
   * The loop over the children: a child whose descriptor is gone answers
   * false (reading it is undefined in the source).
   */
  function AnyChildContains(d: Descriptors, rank: map<Entity, nat>, self: Entity, k: nat, obj: Entity): bool
    requires self in d && Ranked(d, rank) && k <= |d[self].children|
    decreases rank[self], 0, |d[self].children| - k
  {
    var ch := d[self].children;
    if k == |ch| then false
    else (ch[k].id in d && IsInChildren(d, rank, ch[k].id, obj)) || AnyChildContains(d, rank, self, k + 1, obj)
  }

  /** A chain of parent-to-child links through live descriptors, from p[0] down to the last entry. */
  predicate ChildPath(d: Descriptors, p: seq<Entity>) {
    |p| >= 2 && forall i :: 0 <= i < |p| - 1 ==> p[i] in d && Lists(d[p[i]].children, p[i + 1])
  }

  lemma {:induction false} AnyChildContainsWitness(d: Descriptors, rank: map<Entity, nat>, self: Entity, k: nat, obj: Entity)
    requires self in d && Ranked(d, rank) && k <= |d[self].children|
    requires AnyChildContains(d, rank, self, k, obj)
    ensures exists i :: k <= i < |d[self].children| && d[self].children[i].id in d &&
                        IsInChildren(d, rank, d[self].children[i].id, obj)
    decreases |d[self].children| - k
  {
    var ch := d[self].children;
    if !(ch[k].id in d && IsInChildren(d, rank, ch[k].id, obj)) {
      AnyChildContainsWitness(d, rank, self, k + 1, obj);
    }
  }

  lemma {:induction false} AnyChildContainsFrom(d: Descriptors, rank: map<Entity, nat>, self: Entity, k: nat, i: nat, obj: Entity)
    requires self in d && Ranked(d, rank) && k <= i < |d[self].children|
    requires d[self].children[i].id in d && IsInChildren(d, rank, d[self].children[i].id, obj)
    ensures AnyChildContains(d, rank, self, k, obj)
    decreases i - k
  {
    if k < i {
      AnyChildContainsFrom(d, rank, self, k + 1, i, obj);
    }
  }

  /** `IsInChildren` holds exactly when a chain of child links leads from self to obj. */
  lemma {:induction false} IsInChildrenIffPath(d: Descriptors, rank: map<Entity, nat>, self: Entity, obj: Entity)
    requires self in d && Ranked(d, rank)
    ensures IsInChildren(d, rank, self, obj) <==> exists p :: ChildPath(d, p) && p[0] == self && p[|p| - 1] == obj
    decreases rank[self]
  {
    var ch := d[self].children;
    if IsInChildren(d, rank, self, obj) {
      if Lists(ch, obj) {
        assert ChildPath(d, [self, obj]);
      } else {
        AnyChildContainsWitness(d, rank, self, 0, obj);
        var i :| 0 <= i < |ch| && ch[i].id in d && IsInChildren(d, rank, ch[i].id, obj);
        IsInChildrenIffPath(d, rank, ch[i].id, obj);
        var q :| ChildPath(d, q) && q[0] == ch[i].id && q[|q| - 1] == obj;
        var p := [self] + q;
        assert forall j :: 1 <= j < |p| ==> p[j] == q[j - 1];
        assert ChildPath(d, p);
      }
    }
    if exists p :: ChildPath(d, p) && p[0] == self && p[|p| - 1] == obj {
      var p :| ChildPath(d, p) && p[0] == self && p[|p| - 1] == obj;
      if !Lists(ch, obj) {
        assert Lists(ch, p[1]);
        var i :| 0 <= i < |ch| && ch[i].id == p[1];
        assert |p| > 2;
        var q := p[1..];
        assert forall j :: 0 <= j < |q| ==> q[j] == p[j + 1];
        assert ChildPath(d, q);
        IsInChildrenIffPath(d, rank, ch[i].id, obj);
        AnyChildContainsFrom(d, rank, self, 0, i, obj);
      }
    }
  }

  /** No children, no descendants. */
  lemma IsInChildrenEmpty(d: Descriptors, rank: map<Entity, nat>, self: Entity, obj: Entity)
    requires self in d && Ranked(d, rank) && d[self].children == []
    ensures !IsInChildren(d, rank, self, obj)
  {
  }

  // ---------------------------------------------------------------------
  // Pre-order walks

  function Measure(d: Descriptors, rank: map<Entity, nat>, h: Handle): nat
    requires Ranked(d, rank)
  {
    if h.id in d then rank[h.id] + 1 else 0
  }

  /**
   * The node (when its handle is truthy) followed by the pre-order of each
   * truthy child, in stored order.
   */
  function PreOrder(d: Descriptors, rank: map<Entity, nat>, h: Handle): seq<Handle>
    requires Ranked(d, rank)
    decreases Measure(d, rank, h), 1, 0
  {
    if !Truthy(h, d.Keys) then [] else [h] + ChildrenPreOrder(d, rank, h.id, 0)
  }

  function ChildrenPreOrder(d: Descriptors, rank: map<Entity, nat>, parent: Entity, k: nat): seq<Handle>
    requires Ranked(d, rank) && parent in d && k <= |d[parent].children|
    decreases rank[parent] + 1, 0, |d[parent].children| - k
  {
    var ch := d[parent].children;
    if k == |ch| then [] else PreOrder(d, rank, ch[k]) + ChildrenPreOrder(d, rank, parent, k + 1)
  }

  /** The truthy children, in stored order (`ForEachChild`). */
  function LiveChildren(d: Descriptors, hs: seq<Handle>): (r: seq<Handle>)
    ensures forall c :: c in r <==> c in hs && Truthy(c, d.Keys)
    ensures |r| <= |hs|
  {
    if hs == [] then []
    else (if Truthy(hs[0], d.Keys) then [hs[0]] else []) + LiveChildren(d, hs[1..])
  }

  /** Every listed node is truthy, and a truthy start comes first. */
  lemma {:induction false} PreOrderTruthy(d: Descriptors, rank: map<Entity, nat>, h: Handle)
    requires Ranked(d, rank)
    ensures forall x :: x in PreOrder(d, rank, h) ==> Truthy(x, d.Keys)
    ensures Truthy(h, d.Keys) <==> PreOrder(d, rank, h) != []
    ensures Truthy(h, d.Keys) ==> PreOrder(d, rank, h)[0] == h
    decreases Measure(d, rank, h), 1, 0
  {
    if Truthy(h, d.Keys) {
      ChildrenPreOrderTruthy(d, rank, h.id, 0);
    }
  }

  lemma {:induction false} ChildrenPreOrderTruthy(d: Descriptors, rank: map<Entity, nat>, parent: Entity, k: nat)
    requires Ranked(d, rank) && parent in d && k <= |d[parent].children|
    ensures forall x :: x in ChildrenPreOrder(d, rank, parent, k) ==> Truthy(x, d.Keys)
    decreases rank[parent] + 1, 0, |d[parent].children| - k
  {
    var ch := d[parent].children;
    if k < |ch| {
      PreOrderTruthy(d, rank, ch[k]);
      ChildrenPreOrderTruthy(d, rank, parent, k + 1);
    }
  }

  /** A node listed under a parent lies in the subtree of one of the parent's truthy children. */
  lemma {:induction false} ChildrenPreOrderMember(d: Descriptors, rank: map<Entity, nat>, parent: Entity, k: nat, x: Handle)
    requires Ranked(d, rank) && parent in d && k <= |d[parent].children|
    requires x in ChildrenPreOrder(d, rank, parent, k)
    ensures exists i :: k <= i < |d[parent].children| && Truthy(d[parent].children[i], d.Keys) &&
                        x in PreOrder(d, rank, d[parent].children[i])
    decreases |d[parent].children| - k
  {
    var ch := d[parent].children;
    if x !in PreOrder(d, rank, ch[k]) {
      ChildrenPreOrderMember(d, rank, parent, k + 1, x);
    }
  }

  lemma {:induction false} ChildrenPreOrderIncludes(d: Descriptors, rank: map<Entity, nat>, parent: Entity, k: nat, i: nat)
    requires Ranked(d, rank) && parent in d && k <= i < |d[parent].children|
    ensures forall x :: x in PreOrder(d, rank, d[parent].children[i]) ==> x in ChildrenPreOrder(d, rank, parent, k)
    decreases i - k
  {
    if k < i {
      ChildrenPreOrderIncludes(d, rank, parent, k + 1, i);
    }
  }

  /** The walk from any listed node stays inside the walk from the start. */
  lemma {:induction false} PreOrderNested(d: Descriptors, rank: map<Entity, nat>, h: Handle, y: Handle)
    requires Ranked(d, rank) && y in PreOrder(d, rank, h)
    ensures forall x :: x in PreOrder(d, rank, y) ==> x in PreOrder(d, rank, h)
    decreases Measure(d, rank, h)
  {
    if y != h {
      ChildrenPreOrderMember(d, rank, h.id, 0, y);
      var i :| 0 <= i < |d[h.id].children| && Truthy(d[h.id].children[i], d.Keys) &&
               y in PreOrder(d, rank, d[h.id].children[i]);
      PreOrderNested(d, rank, d[h.id].children[i], y);
      ChildrenPreOrderIncludes(d, rank, h.id, 0, i);
    }
  }

  /** The walk is closed under truthy children: deleting it leaves no live child behind. */
  lemma PreOrderClosed(d: Descriptors, rank: map<Entity, nat>, h: Handle, x: Handle, i: nat)
    requires Ranked(d, rank) && x in PreOrder(d, rank, h) && x.id in d
    requires i < |d[x.id].children| && Truthy(d[x.id].children[i], d.Keys)
    ensures d[x.id].children[i] in PreOrder(d, rank, h)
  {
    PreOrderTruthy(d, rank, h);
    PreOrderNested(d, rank, h, x);
    var c := d[x.id].children[i];
    PreOrderTruthy(d, rank, c);
    assert c in PreOrder(d, rank, c);
    ChildrenPreOrderIncludes(d, rank, x.id, 0, i);
    assert PreOrder(d, rank, x) == [x] + ChildrenPreOrder(d, rank, x.id, 0);
    assert c in PreOrder(d, rank, x);
  }

  /** One child link in front of a descendant (or of the child itself) gives a descendant. */
  lemma DescendantStep(d: Descriptors, rank: map<Entity, nat>, h: Entity, c: Entity, x: Entity)
    requires Ranked(d, rank) && h in d && c in d && Lists(d[h].children, c)
    requires x == c || IsInChildren(d, rank, c, x)
    ensures IsInChildren(d, rank, h, x)
  {
    if x == c {
      assert ChildPath(d, [h, c]);
    } else {
      IsInChildrenIffPath(d, rank, c, x);
      var q :| ChildPath(d, q) && q[0] == c && q[|q| - 1] == x;
      var p := [h] + q;
      assert forall j :: 1 <= j < |p| ==> p[j] == q[j - 1];
      assert ChildPath(d, p);
    }
    IsInChildrenIffPath(d, rank, h, x);
  }

  /** Every node after the first is a descendant of the start, as `IsInChildren` sees it. */
  lemma {:induction false} PreOrderDescends(d: Descriptors, rank: map<Entity, nat>, h: Handle, x: Handle)
    requires Ranked(d, rank) && x in PreOrder(d, rank, h) && x != h
    ensures h.id in d && IsInChildren(d, rank, h.id, x.id)
    decreases Measure(d, rank, h)
  {
    ChildrenPreOrderMember(d, rank, h.id, 0, x);
    var ch := d[h.id].children;
    var i :| 0 <= i < |ch| && Truthy(ch[i], d.Keys) && x in PreOrder(d, rank, ch[i]);
    if x != ch[i] {
      PreOrderDescends(d, rank, ch[i], x);
    }
    PreOrderTruthy(d, rank, ch[i]);
    assert Lists(ch, ch[i].id);
    DescendantStep(d, rank, h.id, ch[i].id, x.id);
  }

  /**
   * The recursion of the header's `GetAllChildren(current, vec)` over a
   * descriptor table: appends the pre-order of the subtree below a truthy
   * handle, nothing for a falsy one.
   */
  method CollectSubtree(d: Descriptors, current: Handle, vec: seq<Handle>, ghost rank: map<Entity, nat>)
    returns (out: seq<Handle>)
    requires Ranked(d, rank)
    ensures out == vec + PreOrder(d, rank, current)
    decreases Measure(d, rank, current)
  {
    if !Truthy(current, d.Keys) {
      return vec;
    }
    out := vec + [current];
    var children := d[current.id].children;
    for k := 0 to |children|
      invariant out + ChildrenPreOrder(d, rank, current.id, k) == vec + PreOrder(d, rank, current)
    {
      var h := children[k];
      if Truthy(h, d.Keys) {
        out := CollectSubtree(d, h, out, rank);
      }
    }
  }
}
