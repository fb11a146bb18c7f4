/**
 * `DuplicateObject<T>` and `CopyObject<T>`: cloning an object's components
 * into a new object of the same class, and cloning a subtree into a chain of
 * new objects.
 */
module Duplication {
  import opened Wrappers
  import opened Handles
  import opened Components
  import opened Hierarchy
  import opened EntityStore
  import opened Registration
  import opened ComponentOps
  import opened Links

  /**
   * `m_RegisteredTagsByType[h]`: `operator[]` inserts 0 for a class without
   * a tag, so the lookup may grow that table and nothing else.
   */
  /** The tag storage registered for class h, 0 when there is none. */
  function TagOf(t: Tables, h: Id): Id {
    if h in t.tagsByType then t.tagsByType[h] else 0
  }

  function TagLookup(t: Tables, h: Id): (r: (Tables, Id))
    ensures r.0 == t.(tagsByType := r.0.tagsByType)
    ensures h in r.0.tagsByType && r.1 == r.0.tagsByType[h] && r.1 == TagOf(t, h)
    ensures forall k :: k in t.tagsByType ==> k in r.0.tagsByType && r.0.tagsByType[k] == t.tagsByType[k]
    ensures r.0.tagsByType.Keys == t.tagsByType.Keys + {h}
    ensures h !in t.tagsByType ==> r.1 == 0
  {
    if h in t.tagsByType then (t, t.tagsByType[h]) else (t.(tagsByType := t.tagsByType[h := 0]), 0)
  }

  // ---------------------------------------------------------------------
  // The loop over the storages

  /** `CopyComponentByName(name, other)` on `obj`, a throw becoming the loop's error. */
  function CopyInto(t: Tables, hash: string -> Id, s: Store, obj: Entity, n: string, other: Entity)
    : (r: (Store, Option<string>))
    requires StoreValid(s)
    ensures StoreValid(r.0) && GrowsOnly(s, r.0, obj)
  {
    var (s1, copied) := CopyByName(t, hash, s, obj, n, other);
    (s1, if copied.Failure? then Some(copied.error) else None)
  }

  /** `AddComponentByName(name)` then `CopyComponentByName(name, other)` on `obj`. */
  function AddThenCopy(t: Tables, hash: string -> Id, s: Store, obj: Entity, n: string, other: Entity)
    : (r: (Store, Option<string>))
    requires StoreValid(s) && AvoidsDescriptorPool(t)
    ensures StoreValid(r.0) && GrowsOnly(s, r.0, obj)
  {
    var (s1, added) := AddByName(t, hash, s, obj, n);
    if added.Failure? then (s1, Some(added.error))
    else
      var r := CopyInto(t, hash, s1, obj, n, other);
      GrowsOnlyTrans(s, s1, r.0, obj);
      r
  }

  /**
   * One storage `id` of `DuplicateObject`'s loop: the descriptor storage and
   * T's tag are skipped; a component `other` holds and `obj` lacks is added
   * by name and then copied by name; one `obj` already holds is copied by
   * name. A throw ends the loop with its message.
   */
  function DupStep(t: Tables, hash: string -> Id, s: Store, id: Id, skip: Id, obj: Entity, other: Entity)
    : (r: (Store, Option<string>))
    requires StoreValid(s) && AvoidsDescriptorPool(t)
    ensures StoreValid(r.0) && GrowsOnly(s, r.0, obj)
  {
    if id == DescriptorPool || id == skip then (s, None)
    else
      var n := GetComponentNameByID(t, id);
      if Has(s, id, other) && !Has(s, id, obj) then AddThenCopy(t, hash, s, obj, n, other)
      else if Has(s, id, obj) then CopyInto(t, hash, s, obj, n, other)
      else (s, None)
  }

  /** The loop from position k of a snapshot `po` of the storage enumeration. */
  function DupFrom(t: Tables, hash: string -> Id, s: Store, po: seq<Id>, k: nat, skip: Id, obj: Entity, other: Entity)
    : (r: (Store, Option<string>))
    requires StoreValid(s) && AvoidsDescriptorPool(t) && k <= |po|
    ensures StoreValid(r.0) && GrowsOnly(s, r.0, obj)
    decreases |po| - k
  {
    if k == |po| then (s, None)
    else
      var (s1, err) := DupStep(t, hash, s, po[k], skip, obj, other);
      if err.Some? then (s1, err)
      else
        var r := DupFrom(t, hash, s1, po, k + 1, skip, obj, other);
        GrowsOnlyTrans(s, s1, r.0, obj);
        r
  }

  /**
   * The loop of `DuplicateObject` over `Registry::Get().storage()`, walking a
   * snapshot of the storage enumeration taken before the loop.
   */
  method DuplicateComponents(t: Tables, hash: string -> Id, s: Store, skip: Id, obj: Entity, other: Entity)
    returns (r: Store, err: Option<string>)
    requires StoreValid(s) && AvoidsDescriptorPool(t)
    ensures (r, err) == DupFrom(t, hash, s, s.poolOrder, 0, skip, obj, other)
  {
    var po := s.poolOrder;
    r := s;
    var i := 0;
    while i < |po|
      invariant 0 <= i <= |po| && StoreValid(r)
      invariant DupFrom(t, hash, r, po, i, skip, obj, other) == DupFrom(t, hash, s, po, 0, skip, obj, other)
      decreases |po| - i
    {
      var step := DupStep(t, hash, r, po[i], skip, obj, other);
      if step.1.Some? {
        return step.0, step.1;
      }
      r := step.0;
      i := i + 1;
    }
    err := None;
  }

  // ---------------------------------------------------------------------
  // What the loop copies

  /** The empty name, which `GetComponentNameByID` gives an unnamed storage, resolves to nothing. */
  predicate EmptyNameUnresolved(t: Tables, hash: string -> Id) {
    hash("") !in t.meta
  }

  /** Storage p is one the loop carries over: a named component storage other than T's tag. */
  predicate Carried(t: Tables, p: Id, skip: Id) {
    p != DescriptorPool && p != skip && p in t.componentNames
  }

  /** e's entry of storage q is the same in both stores. */
  ghost predicate EntryKept(s: Store, r: Store, q: Id, e: Entity) {
    (Has(r, q, e) <==> Has(s, q, e)) && (Has(s, q, e) ==> r.pools[q][e] == s.pools[q][e])
  }

  /** `obj` holds storage p with the data `other` held in s. */
  ghost predicate CopiedFrom(s: Store, r: Store, p: Id, obj: Entity, other: Entity) {
    Has(s, p, other) ==> Has(r, p, obj) && r.pools[p][obj].payload == s.pools[p][other].payload
  }

  /** The registration the loop relies on. */
  predicate Coherent(t: Tables, hash: string -> Id) {
    AvoidsDescriptorPool(t) && NamesResolve(t, hash) && EmptyNameUnresolved(t, hash)
  }

  /**
   * Copying a resolved component onto a live `obj` that holds it never
   * throws, touches only that entry, and leaves it with `other`'s data when
   * `other` holds the component too.
   */
  lemma CopyIntoSpec(t: Tables, hash: string -> Id, s: Store, obj: Entity, n: string, other: Entity, p: Id)
    requires StoreValid(s) && ResolvesToPool(t, hash, n, p)
    requires obj in s.descriptors && other in s.descriptors && obj != other && Has(s, p, obj)
    ensures var r := CopyInto(t, hash, s, obj, n, other);
            && r.1 == None
            && (forall q :: q != p ==> EntryKept(s, r.0, q, obj))
            && CopiedFrom(s, r.0, p, obj, other)
  {
    assert NamesComponent(t, hash, n);
  }

  /**
   * Adding then copying a resolved component `other` holds and a live `obj`
   * lacks never throws, creates only that entry, and gives it `other`'s data.
   */
  lemma AddThenCopySpec(t: Tables, hash: string -> Id, s: Store, obj: Entity, n: string, other: Entity, p: Id)
    requires StoreValid(s) && AvoidsDescriptorPool(t) && ResolvesToPool(t, hash, n, p)
    requires obj in s.descriptors && other in s.descriptors && obj != other
    requires Has(s, p, other) && !Has(s, p, obj)
    ensures var r := AddThenCopy(t, hash, s, obj, n, other);
            && r.1 == None
            && (forall q :: q != p ==> EntryKept(s, r.0, q, obj))
            && CopiedFrom(s, r.0, p, obj, other)
  {
    var s1 := AddByName(t, hash, s, obj, n).0;
    assert Resolve(t, hash, n) == Some(t.meta[hash(n)]);
    assert OnlyTouches(s, s1, p, obj) && Has(s1, p, obj);
    assert s1.pools[p][other] == s.pools[p][other];
    CopyIntoSpec(t, hash, s1, obj, n, other, p);
    var r := CopyInto(t, hash, s1, obj, n, other).0;
    assert AddThenCopy(t, hash, s, obj, n, other).0 == r;
    forall q | q != p ensures EntryKept(s, r, q, obj) {
      assert EntryKept(s, s1, q, obj);
      assert EntryKept(s1, r, q, obj);
    }
  }

  /** A name that resolves to nothing makes both helpers no-ops. */
  lemma UnresolvedSpec(t: Tables, hash: string -> Id, s: Store, obj: Entity, n: string, other: Entity)
    requires StoreValid(s) && AvoidsDescriptorPool(t) && Resolve(t, hash, n).None?
    ensures AddThenCopy(t, hash, s, obj, n, other) == (s, None)
    ensures CopyInto(t, hash, s, obj, n, other) == (s, None)
  {
  }

  /** Coherence does not depend on the tag table. */
  lemma CoherentWithoutTags(t: Tables, tc: Tables, hash: string -> Id)
    requires tc == t.(tagsByType := tc.tagsByType) && Coherent(t, hash)
    ensures Coherent(tc, hash)
  {
  }

  /**
   * Under a coherent registration one step never throws, touches only
   * `obj`'s entry of storage `id`, and leaves `obj` with `other`'s data when
   * `id` is carried over and `other` holds it.
   */
  lemma DupStepSpec(t: Tables, hash: string -> Id, s: Store, id: Id, skip: Id, obj: Entity, other: Entity)
    requires StoreValid(s) && Coherent(t, hash)
    requires obj in s.descriptors && other in s.descriptors && obj != other
    ensures var r := DupStep(t, hash, s, id, skip, obj, other);
            && r.1 == None
            && (forall q :: q != id ==> EntryKept(s, r.0, q, obj))
            && (Carried(t, id, skip) ==> CopiedFrom(s, r.0, id, obj, other))
  {
    if id != DescriptorPool && id != skip {
      var n := GetComponentNameByID(t, id);
      if id !in t.componentNames {
        UnresolvedSpec(t, hash, s, obj, n, other);
      } else if Has(s, id, other) && !Has(s, id, obj) {
        assert ResolvesToPool(t, hash, n, id);
        AddThenCopySpec(t, hash, s, obj, n, other, id);
      } else if Has(s, id, obj) {
        assert ResolvesToPool(t, hash, n, id);
        CopyIntoSpec(t, hash, s, obj, n, other, id);
      }
    }
  }

  /**
   * Under a coherent registration the loop from position k never throws,
   * touches `obj`'s entries only in storages from position k on, and gives
   * `obj` a copy of each carried storage `other` holds.
   */
  lemma {:induction false} DupFromSpec(t: Tables, hash: string -> Id, s: Store, po: seq<Id>, k: nat,
                                       skip: Id, obj: Entity, other: Entity)
    requires StoreValid(s) && Coherent(t, hash) && k <= |po| && Distinct(po)
    requires obj in s.descriptors && other in s.descriptors && obj != other
    ensures var r := DupFrom(t, hash, s, po, k, skip, obj, other);
            && r.1 == None
            && (forall q :: q !in po[k..] ==> EntryKept(s, r.0, q, obj))
            && (forall j :: k <= j < |po| && Carried(t, po[j], skip) ==> CopiedFrom(s, r.0, po[j], obj, other))
    decreases |po| - k
  {
    if k < |po| {
      var s1 := DupStep(t, hash, s, po[k], skip, obj, other).0;
      DupStepSpec(t, hash, s, po[k], skip, obj, other);
      DupFromSpec(t, hash, s1, po, k + 1, skip, obj, other);
      var r := DupFrom(t, hash, s, po, k, skip, obj, other).0;
      assert r == DupFrom(t, hash, s1, po, k + 1, skip, obj, other).0;
      forall q | q !in po[k..] ensures EntryKept(s, r, q, obj) {
        assert q !in po[k + 1..] && q != po[k];
        assert EntryKept(s, s1, q, obj);
        assert EntryKept(s1, r, q, obj);
      }
      forall j | k <= j < |po| && Carried(t, po[j], skip) ensures CopiedFrom(s, r, po[j], obj, other) {
        if j == k {
          assert po[k] !in po[k + 1..];
        }
      }
    }
  }

  // ---------------------------------------------------------------------
  // DuplicateObject<T>

  /** The loop meets a storage other than the descriptors, so the tag lookup runs. */
  predicate EnumeratesComponents(s: Store) {
    exists id :: id in s.poolOrder && id != DescriptorPool
  }

  /**
   * What `DuplicateObject<T>(other)` leaves once `CreateNew<T>` has left
   * `mid` and returned `created`: a throw from the creation is passed on;
   * otherwise the tag table has had its lookup and the new object `obj` has
   * gone through the loop over the storages enumerated in `mid`.
   */
  ghost predicate Duplicated(t: Tables, hash: string -> Id, className: string, other: Entity, obj: Entity,
                             mid: Store, created: Result<Handle>, t': Tables, r: Store, res: Result<Entity>)
    requires StoreValid(mid) && AvoidsDescriptorPool(t)
  {
    if created.Failure? then t' == t && r == mid && res == Failure(created.error)
    else
      var (t1, skip) := TagLookup(t, hash(className));
      var c := DupFrom(t, hash, mid, mid.poolOrder, 0, skip, obj, other);
      && t' == (if EnumeratesComponents(mid) then t1 else t)
      && r == c.0
      && res == (if c.1.Some? then Failure(c.1.value) else Success(obj))
  }

  /**
   * `DuplicateObject<T>(other)`: a new object of class T named after
   * `other`, into which each component `other` holds is added and copied.
   */
  method DuplicateObject(t: Tables, hash: string -> Id, s: Store, className: string, other: Entity)
    returns (t': Tables, r: Store, res: Result<Entity>, ghost mid: Store, ghost created: Result<Handle>)
    requires StoreValid(s) && AvoidsDescriptorPool(t) && other in s.descriptors
    ensures StoreValid(r) && StoreValid(mid) && AvoidsDescriptorPool(t')
    ensures t' == t.(tagsByType := t'.tagsByType)
    ensures CreatedAs(t, hash, s, className, s.descriptors[other].name, mid, created)
    ensures Duplicated(t, hash, className, other, s.next, mid, created, t', r, res)
  {
    var s1, made := CreateNamed(t, hash, s, className, s.descriptors[other].name);
    mid, created := s1, made;
    if made.Failure? {
      return t, s1, Failure(made.error), mid, created;
    }
    CreatedAsSpec(t, hash, s, className, s.descriptors[other].name, s1, made);
    var obj := made.value.id;
    var (t1, skip) := TagLookup(t, hash(className));
    t' := if EnumeratesComponents(s1) then t1 else t;
    var err;
    r, err := DuplicateComponents(t, hash, s1, skip, obj, other);
    res := if err.Some? then Failure(err.value) else Success(obj);
  }

  /** Only the entity n is new: every other descriptor and every other entity's entries are kept. */
  ghost predicate AddsOnly(s: Store, r: Store, n: Entity) {
    && n !in s.descriptors && r.descriptors.Keys == s.descriptors.Keys + {n}
    && (forall x :: x in s.descriptors ==> r.descriptors[x] == s.descriptors[x])
    && (forall q, x :: x != n ==> (Has(r, q, x) <==> Has(s, q, x)))
    && (forall q, x :: x != n && Has(s, q, x) ==> r.pools[q][x] == s.pools[q][x])
  }

  /**
   * The duplicate is the next identifier and nothing else is touched; on
   * success it is a fresh root of class T, without children, under a name
   * free among the existing objects and derived from `other`'s; the tag
   * table changes at most by the lookup's insertion.
   */
  lemma DuplicatedSpec(t: Tables, hash: string -> Id, s: Store, className: string, other: Entity,
                       mid: Store, created: Result<Handle>, t': Tables, r: Store, res: Result<Entity>)
    requires StoreValid(s) && AvoidsDescriptorPool(t) && other in s.descriptors
    requires CreatedAs(t, hash, s, className, s.descriptors[other].name, mid, created)
    requires Duplicated(t, hash, className, other, s.next, mid, created, t', r, res)
    ensures StoreValid(r) && AddsOnly(s, r, s.next)
    ensures t' == t.(tagsByType := t'.tagsByType) && TagOf(t', hash(className)) == TagOf(t, hash(className))
    ensures created.Success? <==> !InitRaises(t, hash, className)
    ensures res.Success? ==> created.Success? && res.value == s.next
    ensures res.Success? ==> var p := r.descriptors[s.next];
              && p.typeId == hash(className) && p.parent == NullHandle() && p.children == []
              && p.master == FromEntity(s.next)
              && FreeNameFor(s.descriptors[other].name, Names(s), p.name)
  {
    CreatedAsSpec(t, hash, s, className, s.descriptors[other].name, mid, created);
    if created.Success? {
      var skip := TagOf(t, hash(className));
      assert GrowsOnly(mid, r, s.next);
    }
  }

  /** The whole loop, run over the storages enumerated in s, under a coherent registration. */
  lemma DupAllSpec(t: Tables, hash: string -> Id, s: Store, skip: Id, obj: Entity, other: Entity)
    requires StoreValid(s) && Coherent(t, hash)
    requires obj in s.descriptors && other in s.descriptors && obj != other
    ensures var r := DupFrom(t, hash, s, s.poolOrder, 0, skip, obj, other);
            && r.1 == None
            && forall p :: Carried(t, p, skip) && Has(s, p, other) ==> CopiedFrom(s, r.0, p, obj, other)
  {
    DupFromSpec(t, hash, s, s.poolOrder, 0, skip, obj, other);
    var r := DupFrom(t, hash, s, s.poolOrder, 0, skip, obj, other).0;
    forall p | Carried(t, p, skip) && Has(s, p, other) ensures CopiedFrom(s, r, p, obj, other) {
      var j :| 0 <= j < |s.poolOrder| && s.poolOrder[j] == p;
    }
  }

  /**
   * Under a coherent registration a successful creation always gives a
   * successful duplicate, and the duplicate holds every carried component
   * of `other` with `other`'s data.
   */
  lemma DuplicatedCopies(t: Tables, hash: string -> Id, s: Store, className: string, other: Entity,
                         mid: Store, created: Result<Handle>, t': Tables, r: Store, res: Result<Entity>)
    requires StoreValid(s) && Coherent(t, hash) && other in s.descriptors
    requires CreatedAs(t, hash, s, className, s.descriptors[other].name, mid, created)
    requires Duplicated(t, hash, className, other, s.next, mid, created, t', r, res)
    ensures created.Success? <==> res.Success?
    ensures res.Success? <==> !InitRaises(t, hash, className)
    ensures res.Success? ==> forall p :: Carried(t, p, TagOf(t, hash(className))) && Has(s, p, other) ==>
              Has(r, p, s.next) && r.pools[p][s.next].payload == s.pools[p][other].payload
  {
    DuplicatedSpec(t, hash, s, className, other, mid, created, t', r, res);
    if created.Success? {
      var skip := TagOf(t, hash(className));
      DupAllSpec(t, hash, mid, skip, s.next, other);
      forall p | Carried(t, p, skip) && Has(s, p, other)
        ensures Has(r, p, s.next) && r.pools[p][s.next].payload == s.pools[p][other].payload
      {
        assert Has(mid, p, other) && mid.pools[p][other] == s.pools[p][other];
        assert CopiedFrom(mid, r, p, s.next, other);
      }
    }
  }

  // ---------------------------------------------------------------------
  // CopyObject<T>

  /** Every object of s keeps its descriptor and its entries. */
  ghost predicate KeepsOld(s: Store, r: Store) {
    && (forall x :: x in s.descriptors ==> x in r.descriptors && r.descriptors[x] == s.descriptors[x])
    && (forall q, x :: x in s.descriptors ==> (Has(r, q, x) <==> Has(s, q, x)))
    && (forall q, x :: Has(s, q, x) ==> Has(r, q, x) && r.pools[q][x] == s.pools[q][x])
  }

  /**
   * The clones are objects of one type linked into a single chain: the
   * first is a root, each later one is the only child of the one before it
   * and has it as parent, and the last has no children.
   */
  ghost predicate Linked(d: Descriptors, clones: seq<Entity>, typeId: Id) {
    && (forall i :: 0 <= i < |clones| ==> clones[i] in d && d[clones[i]].typeId == typeId)
    && (|clones| > 0 ==> d[clones[0]].parent == NullHandle() && d[clones[|clones| - 1]].children == [])
    && (forall i :: 0 < i < |clones| ==> d[clones[i]].parent == FromEntity(clones[i - 1]))
    && (forall i :: 0 <= i < |clones| - 1 ==> d[clones[i]].children == [FromEntity(clones[i + 1])])
  }

  /** The clones are distinct objects new since s, linked into a chain in r. */
  ghost predicate Chain(s: Store, r: Store, clones: seq<Entity>, typeId: Id) {
    && Distinct(clones)
    && (forall i :: 0 <= i < |clones| ==> clones[i] !in s.descriptors)
    && Linked(r.descriptors, clones, typeId)
  }

  /** The j-th clone holds each carried component of the j-th node, with that node's data. */
  ghost predicate ClonesCopy(t: Tables, s: Store, r: Store, nodes: seq<Handle>, clones: seq<Entity>, skip: Id)
    requires |clones| <= |nodes|
  {
    forall j, p :: 0 <= j < |clones| && Carried(t, p, skip) && Has(s, p, nodes[j].id) ==>
      Has(r, p, clones[j]) && r.pools[p][clones[j]].payload == s.pools[p][nodes[j].id].payload
  }

  /** A new clone that holds the carried components of the next node extends `ClonesCopy`. */
  lemma CopiesExtend(t: Tables, s: Store, r: Store, r3: Store, nodes: seq<Handle>, clones: seq<Entity>,
                     n: Entity, skip: Id)
    requires |clones| < |nodes| && n !in clones && ClonesCopy(t, s, r, nodes, clones, skip)
    requires forall q, x :: x != n && Has(r, q, x) ==> Has(r3, q, x) && r3.pools[q][x] == r.pools[q][x]
    requires forall p :: Carried(t, p, skip) && Has(s, p, nodes[|clones|].id) ==>
               Has(r3, p, n) && r3.pools[p][n].payload == s.pools[p][nodes[|clones|].id].payload
    ensures ClonesCopy(t, s, r3, nodes, clones + [n], skip)
  {
    var c := clones + [n];
    forall j, p | 0 <= j < |c| && Carried(t, p, skip) && Has(s, p, nodes[j].id)
      ensures Has(r3, p, c[j]) && r3.pools[p][c[j]].payload == s.pools[p][nodes[j].id].payload
    {
      if j < |clones| {
        assert c[j] == clones[j] && clones[j] != n;
      }
    }
  }

  /** `SetParent` onto an object without children makes self its only child. */
  lemma SetParentOnLeaf(d: Descriptors, self: Entity, e: Entity)
    requires self in d && e in d && self != e && SameType(d, self, e) && d[e].children == []
    ensures SetParent(d, self, e) == d[self := d[self].(parent := FromEntity(e))][e := d[e].(children := [FromEntity(self)])]
  {
    var d1 := d[self := d[self].(parent := FromEntity(e))];
    assert CanAdopt(d1, e, self);
    assert d1[e] == d[e];
    assert AddChildren(d1, e, self) == d1[e := d1[e].(children := d1[e].children + [FromEntity(self)])];
    assert d1[e].children + [FromEntity(self)] == [FromEntity(self)];
  }

  /** Adding one object outside s and the clones keeps what the loop has built so far. */
  lemma AddedKeeps(t: Tables, s: Store, r: Store, r2: Store, n: Entity, nodes: seq<Handle>, clones: seq<Entity>,
                   typeId: Id, skip: Id)
    requires StoreValid(r) && KeepsOld(s, r) && Chain(s, r, clones, typeId) && |clones| <= |nodes|
    requires AddsOnly(r, r2, n)
    ensures KeepsOld(s, r2) && Chain(s, r2, clones, typeId)
    ensures ClonesCopy(t, s, r, nodes, clones, skip) ==> ClonesCopy(t, s, r2, nodes, clones, skip)
  {
  }

  /** The new clone alone starts the chain. */
  lemma FirstClone(s: Store, r2: Store, n: Entity, typeId: Id)
    requires n in r2.descriptors && n !in s.descriptors
    requires r2.descriptors[n].typeId == typeId && r2.descriptors[n].parent == NullHandle() && r2.descriptors[n].children == []
    ensures Chain(s, r2, [n], typeId)
  {
  }

  /** Making the new object the only child of the chain's last object extends the chain by it. */
  lemma LinkLeaf(d: Descriptors, d3: Descriptors, n: Entity, clones: seq<Entity>, typeId: Id)
    requires Linked(d, clones, typeId) && Distinct(clones) && |clones| > 0
    requires n in d && n !in clones
    requires d[n].typeId == typeId && d[n].parent == NullHandle() && d[n].children == []
    requires var last := clones[|clones| - 1];
             d3 == d[n := d[n].(parent := FromEntity(last))][last := d[last].(children := [FromEntity(n)])]
    ensures Linked(d3, clones + [n], typeId)
  {
    var last := clones[|clones| - 1];
    var c := clones + [n];
    assert forall i :: 0 <= i < |clones| ==> c[i] == clones[i];
    forall i | 0 < i < |c| ensures d3[c[i]].parent == FromEntity(c[i - 1]) {
      if i < |clones| {
        assert d3[clones[i]].parent == d[clones[i]].parent;
      }
    }
    forall i | 0 <= i < |c| - 1 ensures d3[c[i]].children == [FromEntity(c[i + 1])] {
      if i < |clones| - 1 {
        assert clones[i] != last;
      }
    }
  }

  /** Linking the new clone under the last one keeps the store valid and the original objects untouched. */
  lemma LinkedKeeps(s: Store, r2: Store, r3: Store, n: Entity, clones: seq<Entity>, typeId: Id)
    requires StoreValid(r2) && KeepsOld(s, r2) && Chain(s, r2, clones, typeId) && |clones| > 0
    requires n in r2.descriptors && n !in s.descriptors && n !in clones
    requires r2.descriptors[n].typeId == typeId && r2.descriptors[n].children == []
    requires r3 == Reparent(r2, n, clones[|clones| - 1])
    ensures StoreValid(r3) && r3.pools == r2.pools && KeepsOld(s, r3)
  {
    SetParentOnLeaf(r2.descriptors, n, clones[|clones| - 1]);
    assert clones[|clones| - 1] !in s.descriptors;
  }

  /** Linking the new clone under the last one extends the chain by it. */
  lemma LinkedExtends(s: Store, r2: Store, r3: Store, n: Entity, clones: seq<Entity>, typeId: Id)
    requires StoreValid(r2) && Chain(s, r2, clones, typeId) && |clones| > 0
    requires n in r2.descriptors && n !in s.descriptors && n !in clones
    requires r2.descriptors[n].typeId == typeId && r2.descriptors[n].parent == NullHandle() && r2.descriptors[n].children == []
    requires r3 == Reparent(r2, n, clones[|clones| - 1])
    ensures Chain(s, r3, clones + [n], typeId)
  {
    SetParentOnLeaf(r2.descriptors, n, clones[|clones| - 1]);
    LinkLeaf(r2.descriptors, r3.descriptors, n, clones, typeId);
  }

  /**
   * What `CopyObject<T>`'s loop keeps after cloning the first |clones|
   * nodes: the store is valid, the tables differ at most in the tag table
   * (whose lookup for the class answers as before), the original objects
   * are untouched, the clones form a chain, and under a coherent
   * registration each clone carries its node's components.
   */
  ghost predicate Progress(t: Tables, hash: string -> Id, s: Store, h: Id, nodes: seq<Handle>,
                           tc: Tables, r: Store, clones: seq<Entity>) {
    && |clones| <= |nodes|
    && StoreValid(r) && AvoidsDescriptorPool(tc)
    && tc == t.(tagsByType := tc.tagsByType) && TagOf(tc, h) == TagOf(t, h)
    && KeepsOld(s, r) && Chain(s, r, clones, h)
    && (Coherent(t, hash) ==> ClonesCopy(t, s, r, nodes, clones, TagOf(t, h)))
  }

  /** The duplicate n of the next node, made before it is linked into the chain. */
  ghost predicate Spawned(t: Tables, hash: string -> Id, s: Store, h: Id, nodes: seq<Handle>,
                          r: Store, clones: seq<Entity>, n: Entity) {
    && |clones| < |nodes|
    && n != Null && n in r.descriptors && n !in s.descriptors && n !in clones
    && r.descriptors[n].typeId == h && r.descriptors[n].parent == NullHandle() && r.descriptors[n].children == []
    && (Coherent(t, hash) ==> forall p :: Carried(t, p, TagOf(t, h)) && Has(s, p, nodes[|clones|].id) ==>
          Has(r, p, n) && r.pools[p][n].payload == s.pools[p][nodes[|clones|].id].payload)
  }

  /**
   * What a `DuplicateObject<T>(other)` leaves, as the copy loop needs it:
   * only the next identifier is added, the tag table changes at most by
   * its lookup, the duplicate fails whenever initializing T throws and,
   * under a coherent registration, only then; a successful duplicate is a
   * fresh childless root of class T and, under a coherent registration,
   * holds `other`'s carried components.
   */
  ghost predicate CloneOf(t: Tables, hash: string -> Id, s: Store, className: string, other: Entity,
                          t': Tables, r: Store, res: Result<Entity>) {
    var h := hash(className);
    && StoreValid(r) && AddsOnly(s, r, s.next) && AvoidsDescriptorPool(t')
    && t' == t.(tagsByType := t'.tagsByType) && TagOf(t', h) == TagOf(t, h)
    && (res.Success? ==> !InitRaises(t, hash, className))
    && (Coherent(t, hash) && !InitRaises(t, hash, className) ==> res.Success?)
    && (res.Success? ==> res.value == s.next && s.next in r.descriptors
                         && r.descriptors[s.next].typeId == h && r.descriptors[s.next].parent == NullHandle()
                         && r.descriptors[s.next].children == [])
    && (res.Success? && Coherent(t, hash) ==>
          forall p :: Carried(t, p, TagOf(t, h)) && Has(s, p, other) ==>
            Has(r, p, s.next) && r.pools[p][s.next].payload == s.pools[p][other].payload)
  }

  lemma DuplicatedClone(t: Tables, hash: string -> Id, s: Store, className: string, other: Entity,
                        mid: Store, created: Result<Handle>, t': Tables, r: Store, res: Result<Entity>)
    requires StoreValid(s) && AvoidsDescriptorPool(t) && other in s.descriptors && AvoidsDescriptorPool(t')
    requires CreatedAs(t, hash, s, className, s.descriptors[other].name, mid, created)
    requires Duplicated(t, hash, className, other, s.next, mid, created, t', r, res)
    ensures CloneOf(t, hash, s, className, other, t', r, res)
  {
    DuplicatedSpec(t, hash, s, className, other, mid, created, t', r, res);
    if Coherent(t, hash) {
      DuplicatedCopies(t, hash, s, className, other, mid, created, t', r, res);
    }
  }

  /** `DuplicateObject<T>(other)`, seen through `CloneOf`. */
  method DuplicateClone(t: Tables, hash: string -> Id, s: Store, className: string, other: Entity)
    returns (t': Tables, r: Store, res: Result<Entity>)
    requires StoreValid(s) && AvoidsDescriptorPool(t) && other in s.descriptors
    ensures CloneOf(t, hash, s, className, other, t', r, res)
  {
    ghost var mid, created;
    t', r, res, mid, created := DuplicateObject(t, hash, s, className, other);
    DuplicatedClone(t, hash, s, className, other, mid, created, t', r, res);
  }

  /** Duplicating the next node keeps the loop's progress, whether or not it succeeds. */
  lemma DuplicatedKeeps(t: Tables, hash: string -> Id, s: Store, className: string, nodes: seq<Handle>,
                        tc: Tables, r: Store, clones: seq<Entity>, t2: Tables, r2: Store, res2: Result<Entity>)
    requires Progress(t, hash, s, hash(className), nodes, tc, r, clones) && |clones| < |nodes|
    requires CloneOf(tc, hash, r, className, nodes[|clones|].id, t2, r2, res2)
    ensures Progress(t, hash, s, hash(className), nodes, t2, r2, clones)
  {
    AddedKeeps(t, s, r, r2, r.next, nodes, clones, hash(className), TagOf(t, hash(className)));
  }

  /** A successful duplicate of the next node is a spawned clone. */
  lemma DuplicatedSpawns(t: Tables, hash: string -> Id, s: Store, className: string, nodes: seq<Handle>,
                         tc: Tables, r: Store, clones: seq<Entity>, t2: Tables, r2: Store, res2: Result<Entity>)
    requires |clones| < |nodes| && StoreValid(r) && KeepsOld(s, r) && Chain(s, r, clones, hash(className))
    requires tc == t.(tagsByType := tc.tagsByType) && TagOf(tc, hash(className)) == TagOf(t, hash(className))
    requires CloneOf(tc, hash, r, className, nodes[|clones|].id, t2, r2, res2) && res2.Success?
    ensures Spawned(t, hash, s, hash(className), nodes, r2, clones, r.next)
  {
    assert r.next !in r.descriptors;
    assert r.next !in clones;
    if Coherent(t, hash) {
      CoherentWithoutTags(t, tc, hash);
      SpawnedCopies(t, hash, s, hash(className), nodes[|clones|].id, tc, r, r2, r.next);
    }
  }

  /** The clone's copies, moved from the tables and store it was made in to the loop's start. */
  lemma SpawnedCopies(t: Tables, hash: string -> Id, s: Store, h: Id, node: Entity,
                      tc: Tables, r: Store, r2: Store, n: Entity)
    requires tc == t.(tagsByType := tc.tagsByType) && TagOf(tc, h) == TagOf(t, h)
    requires forall q, x :: Has(s, q, x) ==> Has(r, q, x) && r.pools[q][x] == s.pools[q][x]
    requires forall p :: Carried(tc, p, TagOf(tc, h)) && Has(r, p, node) ==>
               Has(r2, p, n) && r2.pools[p][n].payload == r.pools[p][node].payload
    ensures forall p :: Carried(t, p, TagOf(t, h)) && Has(s, p, node) ==>
              Has(r2, p, n) && r2.pools[p][n].payload == s.pools[p][node].payload
  {
    forall p | Carried(t, p, TagOf(t, h)) && Has(s, p, node)
      ensures Has(r2, p, n) && r2.pools[p][n].payload == s.pools[p][node].payload
    {
      assert Carried(tc, p, TagOf(tc, h));
    }
  }

  /**
   * One duplication of the loop: the next node is duplicated as a T; the
   * loop's progress is kept and, on success, the duplicate is spawned.
   */
  method DuplicateNext(t: Tables, hash: string -> Id, s: Store, className: string, nodes: seq<Handle>,
                       tc: Tables, r: Store, ghost clones: seq<Entity>, i: nat)
    returns (t2: Tables, r2: Store, res2: Result<Entity>)
    requires Progress(t, hash, s, hash(className), nodes, tc, r, clones) && i == |clones| < |nodes|
    requires nodes[i].id in s.descriptors
    ensures Progress(t, hash, s, hash(className), nodes, t2, r2, clones)
    ensures res2.Success? ==> res2.value == r.next && Spawned(t, hash, s, hash(className), nodes, r2, clones, r.next)
    ensures res2.Success? ==> !InitRaises(t, hash, className)
    ensures Coherent(t, hash) && !InitRaises(t, hash, className) ==> res2.Success?
    ensures StoreValid(r2) && forall j :: 0 <= j < |clones| ==> clones[j] in r2.descriptors
  {
    t2, r2, res2 := DuplicateClone(tc, hash, r, className, nodes[i].id);
    InitRaisesWithoutTags(t, tc, hash, className);
    if Coherent(t, hash) {
      CoherentWithoutTags(t, tc, hash);
    }
    DuplicatedKeeps(t, hash, s, className, nodes, tc, r, clones, t2, r2, res2);
    if res2.Success? {
      DuplicatedSpawns(t, hash, s, className, nodes, tc, r, clones, t2, r2, res2);
    }
  }

  /** Whether initializing a class throws does not depend on the tag table. */
  lemma InitRaisesWithoutTags(t: Tables, tc: Tables, hash: string -> Id, className: string)
    requires tc == t.(tagsByType := tc.tagsByType)
    ensures InitRaises(tc, hash, className) <==> InitRaises(t, hash, className)
  {
    assert StartComponents(tc, hash, className) == StartComponents(t, hash, className);
    assert tc.omnipresent == t.omnipresent;
    forall n ensures NamesObject(tc, hash, n) == NamesObject(t, hash, n) {
      assert Resolve(tc, hash, n) == Resolve(t, hash, n);
    }
  }

  /** Linking the spawned clone under the previous one (when there is one) extends the progress. */
  lemma LinkedStep(t: Tables, hash: string -> Id, s: Store, h: Id, nodes: seq<Handle>,
                   tc: Tables, r2: Store, r3: Store, clones: seq<Entity>, n: Entity)
    requires Progress(t, hash, s, h, nodes, tc, r2, clones) && Spawned(t, hash, s, h, nodes, r2, clones, n)
    requires |clones| == 0 ==> r3 == r2
    requires |clones| > 0 ==> r3 == Reparent(r2, n, clones[|clones| - 1])
    ensures Progress(t, hash, s, h, nodes, tc, r3, clones + [n])
  {
    if |clones| > 0 {
      LinkedKeeps(s, r2, r3, n, clones, h);
      LinkedExtends(s, r2, r3, n, clones, h);
    } else {
      FirstClone(s, r2, n, h);
    }
    if Coherent(t, hash) {
      CopiesExtend(t, s, r2, r3, nodes, clones, n, TagOf(t, h));
    }
  }

  /** Before the loop nothing is cloned yet. */
  lemma ProgressStart(t: Tables, hash: string -> Id, s: Store, h: Id, nodes: seq<Handle>)
    requires StoreValid(s) && AvoidsDescriptorPool(t)
    ensures Progress(t, hash, s, h, nodes, t, s, [])
  {
  }

  /**
   * One pass of `CopyObject`'s loop: the next node is duplicated as a T and,
   * when a previous duplicate exists, the new one is made its child. A
   * failed duplication keeps the progress made so far; a successful one
   * extends it by the new duplicate.
   */
  method CopyNext(t: Tables, hash: string -> Id, s: Store, className: string, nodes: seq<Handle>,
                  tc: Tables, r: Store, ghost clones: seq<Entity>, i: nat, last: Entity)
    returns (t2: Tables, r2: Store, res2: Result<Entity>)
    requires Progress(t, hash, s, hash(className), nodes, tc, r, clones) && i == |clones| < |nodes|
    requires nodes[i].id in s.descriptors
    requires i == 0 ==> last == Null
    requires i > 0 ==> last == clones[i - 1]
    ensures res2.Failure? ==> Progress(t, hash, s, hash(className), nodes, t2, r2, clones)
    ensures res2.Success? ==> res2.value != Null && Progress(t, hash, s, hash(className), nodes, t2, r2, clones + [res2.value])
    ensures res2.Success? ==> !InitRaises(t, hash, className)
    ensures Coherent(t, hash) && !InitRaises(t, hash, className) ==> res2.Success?
  {
    var r1;
    t2, r1, res2 := DuplicateNext(t, hash, s, className, nodes, tc, r, clones, i);
    if res2.Failure? {
      return t2, r1, res2;
    }
    var newOne := res2.value;
    r2 := r1;
    if last != Null {
      r2 := Reparent(r1, newOne, last);
    }
    LinkedStep(t, hash, s, hash(className), nodes, t2, r1, r2, clones, newOne);
  }

  /**
   * `CopyObject<T>(other)`: each object of the subtree below `other`, in the
   * order `ForSelfAndEachChild` visits it, is duplicated as a T, and every
   * duplicate after the first is made a child of the previous one; the
   * first duplicate is returned. `rank` witnesses that the subtree is
   * finite.
   */
  method CopyObject(t: Tables, hash: string -> Id, s: Store, className: string, other: Entity,
                    ghost rank: map<Entity, nat>)
    returns (t': Tables, r: Store, res: Result<Entity>, ghost clones: seq<Entity>)
    requires StoreValid(s) && AvoidsDescriptorPool(t) && other in s.descriptors && Ranked(s.descriptors, rank)
    ensures Progress(t, hash, s, hash(className), PreOrder(s.descriptors, rank, FromEntity(other)), t', r, clones)
    ensures res.Success? ==> |clones| == |PreOrder(s.descriptors, rank, FromEntity(other))| && res.value == clones[0]
    ensures res.Success? ==> !InitRaises(t, hash, className)
    ensures Coherent(t, hash) && !InitRaises(t, hash, className) ==> res.Success?
  {
    var nodes := CollectSubtree(s.descriptors, FromEntity(other), [], rank);
    assert nodes == PreOrder(s.descriptors, rank, FromEntity(other));
    PreOrderTruthy(s.descriptors, rank, FromEntity(other));
    FromEntityTruthy(other, s.descriptors.Keys);
    ghost var h := hash(className);
    var first: Entity := Null;
    var last: Entity := Null;
    t', r, clones := t, s, [];
    ProgressStart(t, hash, s, h, nodes);
    for i := 0 to |nodes|
      invariant |clones| == i && Progress(t, hash, s, h, nodes, t', r, clones)
      invariant i == 0 ==> first == Null && last == Null
      invariant i > 0 ==> first == clones[0] && last == clones[i - 1]
      invariant i > 0 ==> !InitRaises(t, hash, className)
    {
      assert Truthy(nodes[i], s.descriptors.Keys);
      var t2, r2, res2 := CopyNext(t, hash, s, className, nodes, t', r, clones, i, last);
      if res2.Failure? {
        return t2, r2, Failure(res2.error), clones;
      }
      var newOne := res2.value;
      if first == Null {
        first := newOne;
      }
      last := newOne;
      t', r, clones := t2, r2, clones + [newOne];
    }
    res := Success(first);
  }
}
