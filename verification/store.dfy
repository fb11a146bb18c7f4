/**
 * The entity store behind `Registry::Get()`: live entities with their
 * descriptors, one pool per stored type (entity to value), and the order in
 * which pools and entities are enumerated.
 */
module EntityStore {
  import opened Handles
  import opened Hierarchy
  import opened Components

  /** The storage id of the descriptor type (`type_hash<ObjectProperties>`). */
  const DescriptorPool: Id := 0

  datatype Store = Store(
    descriptors: Descriptors,               // the ObjectProperties pool
    order: seq<Entity>,                     // enumeration order of the live entities
    pools: map<Id, map<Entity, Cell>>,      // every other pool, by storage id
    poolOrder: seq<Id>,                     // enumeration order of all pools
    next: Entity)                           // the next identifier handed out

  predicate Distinct<T(==)>(s: seq<T>) {
    forall i, j :: 0 <= i < j < |s| ==> s[i] != s[j]
  }

  function Alive(s: Store): set<Entity> {
    s.descriptors.Keys
  }

  /** The invariant of the store: its enumerations, its pools and its descriptors agree. */
  predicate StoreValid(s: Store) {
    EnumerationsValid(s) && PoolsValid(s) && DescriptorsValid(s)
  }

  /** Each live entity and each pool is enumerated exactly once. */
  predicate EnumerationsValid(s: Store) {
    && Distinct(s.order)
    && (forall e :: e in s.order ==> e in s.descriptors)
    && (forall e :: e in s.descriptors ==> e in s.order)
    && Distinct(s.poolOrder)
    && (forall p :: p in s.poolOrder ==> p in s.pools || p == DescriptorPool)
    && (forall p :: p in s.pools ==> p in s.poolOrder)
    && (s.descriptors != map[] ==> DescriptorPool in s.poolOrder)
  }

  /** The descriptor pool is kept apart, and every pool holds values of live entities only. */
  predicate PoolsValid(s: Store) {
    && DescriptorPool !in s.pools
    && (forall p, e :: p in s.pools && e in s.pools[p] ==> e in s.descriptors)
  }

  /** Live identifiers are below the next one handed out, never null, and each object is its own master. */
  predicate DescriptorsValid(s: Store) {
    && Null !in s.descriptors && s.next != Null
    && (forall e :: e in s.descriptors ==> e < s.next && s.descriptors[e].master == FromEntity(e))
    && ChildrenDistinct(s.descriptors)
  }

  function EmptyStore(): (s: Store)
    ensures StoreValid(s) && Alive(s) == {}
  {
    Store(map[], [], map[], [], 0)
  }

  /** Identifiers are handed out in increasing order, skipping `entt::null`. */
  function NextId(n: Entity): (m: Entity)
    ensures m > n && m != Null
  {
    if n + 1 == Null then n + 2 else n + 1
  }

  predicate Has(s: Store, pool: Id, e: Entity) {
    pool in s.pools && e in s.pools[pool]
  }

  /** The entities of one pool, in enumeration order (a view over that pool). */
  function Members(s: Store, pool: Id): (r: seq<Entity>)
    ensures forall e :: e in r <==> e in s.order && Has(s, pool, e)
  {
    Filter(s.order, (e: Entity) => Has(s, pool, e))
  }

  function Filter(xs: seq<Entity>, keep: Entity -> bool): (r: seq<Entity>)
    ensures forall e :: e in r <==> e in xs && keep(e)
    ensures |r| <= |xs|
  {
    if xs == [] then []
    else (if keep(xs[0]) then [xs[0]] else []) + Filter(xs[1..], keep)
  }

  /** `AliveCount()`: the number of values stored in a pool. */
  function PoolSize(s: Store, pool: Id): nat {
    if pool in s.pools then |s.pools[pool]| else 0
  }

  /** `create()` followed by emplacing the descriptor. */
  function CreateObject(s: Store, name: string, typeId: Id): (r: (Store, Entity))
    requires StoreValid(s)
    ensures StoreValid(r.0)
    ensures r.1 == s.next && r.1 !in Alive(s) && Alive(r.0) == Alive(s) + {r.1}
    ensures r.0.descriptors == s.descriptors[r.1 := NewDescriptor(name, typeId, r.1)]
    ensures r.0.order == s.order + [r.1] && r.0.pools == s.pools
    ensures DescriptorPool in r.0.poolOrder
    ensures forall p :: p in s.poolOrder ==> p in r.0.poolOrder
  {
    var e := s.next;
    var po := if DescriptorPool in s.poolOrder then s.poolOrder else s.poolOrder + [DescriptorPool];
    (Store(s.descriptors[e := NewDescriptor(name, typeId, e)], s.order + [e], s.pools, po, NextId(e)), e)
  }

  /** `emplace<T>(e, value)`: the pool is created on first use. */
  function Emplace(s: Store, pool: Id, e: Entity, c: Cell): (r: Store)
    requires StoreValid(s) && e in s.descriptors && pool != DescriptorPool
    ensures StoreValid(r)
    ensures r.descriptors == s.descriptors && r.order == s.order
    ensures r.pools == s.pools[pool := (if pool in s.pools then s.pools[pool] else map[])[e := c]]
    ensures forall p :: p in s.poolOrder ==> p in r.poolOrder
    ensures r.poolOrder == if pool in s.poolOrder then s.poolOrder else s.poolOrder + [pool]
  {
    var po := if pool in s.poolOrder then s.poolOrder else s.poolOrder + [pool];
    var m := if pool in s.pools then s.pools[pool] else map[];
    s.(pools := s.pools[pool := m[e := c]], poolOrder := po)
  }

  /** `storage<T>().erase(e)`. */
  function Erase(s: Store, pool: Id, e: Entity): (r: Store)
    requires StoreValid(s) && Has(s, pool, e)
    ensures StoreValid(r)
    ensures r == s.(pools := s.pools[pool := s.pools[pool] - {e}])
  {
    s.(pools := s.pools[pool := s.pools[pool] - {e}])
  }

  /** Replaces a stored value in place. */
  function SetCell(s: Store, pool: Id, e: Entity, c: Cell): (r: Store)
    requires StoreValid(s) && Has(s, pool, e)
    ensures StoreValid(r)
    ensures r.descriptors == s.descriptors && r.order == s.order && r.poolOrder == s.poolOrder
    ensures r.pools.Keys == s.pools.Keys && r.pools[pool] == s.pools[pool][e := c]
    ensures forall p :: p in s.pools && p != pool ==> r.pools[p] == s.pools[p]
  {
    var m: map<Entity, Cell> := s.pools[pool][e := c];
    s.(pools := s.pools[pool := m])
  }

  /** `destroy(e)`: the entity leaves every pool and the enumeration. */
  function Destroy(s: Store, e: Entity): (r: Store)
    requires StoreValid(s) && e in s.descriptors
    ensures StoreValid(r)
    ensures Alive(r) == Alive(s) - {e}
    ensures forall x :: x in r.descriptors ==> r.descriptors[x] == s.descriptors[x]
    ensures r.pools.Keys == s.pools.Keys && r.poolOrder == s.poolOrder
    ensures forall p, x :: Has(r, p, x) <==> Has(s, p, x) && x != e
  {
    RemoveDistinct(s.order, e);
    Store(s.descriptors - {e}, Remove(s.order, e), Strip(s.pools, e), s.poolOrder, s.next)
  }

  /** Every pool without entity e. */
  function Strip(pools: map<Id, map<Entity, Cell>>, e: Entity): (r: map<Id, map<Entity, Cell>>)
    ensures r.Keys == pools.Keys && forall p :: p in r ==> r[p] == pools[p] - {e}
  {
    map p | p in pools :: pools[p] - {e}
  }

  lemma StripAfterErase(pools: map<Id, map<Entity, Cell>>, pool: Id, e: Entity)
    requires pool in pools
    ensures Strip(pools[pool := pools[pool] - {e}], e) == Strip(pools, e)
  {
    var a, b := Strip(pools[pool := pools[pool] - {e}], e), Strip(pools, e);
    forall p | p in a
      ensures a[p] == b[p]
    {
      if p == pool {
        assert (pools[pool] - {e}) - {e} == pools[pool] - {e};
      }
    }
  }

  /** Two pool tables holding the same values for the same entities are equal. */
  lemma PoolsEqual(a: map<Id, map<Entity, Cell>>, b: map<Id, map<Entity, Cell>>)
    requires a.Keys == b.Keys
    requires forall p, x :: p in a ==> (x in a[p] <==> x in b[p])
    requires forall p, x :: p in a && x in a[p] ==> a[p][x] == b[p][x]
    ensures a == b
  {
    forall p | p in a ensures a[p] == b[p] {
      assert a[p].Keys == b[p].Keys;
    }
  }

  /** The sequence without the occurrences of x, order kept. */
  function Remove(xs: seq<Entity>, x: Entity): (r: seq<Entity>)
    ensures forall y :: y in r <==> y in xs && y != x
  {
    if xs == [] then []
    else (if xs[0] == x then [] else [xs[0]]) + Remove(xs[1..], x)
  }

  lemma {:induction false} RemoveDistinct(xs: seq<Entity>, x: Entity)
    requires Distinct(xs)
    ensures Distinct(Remove(xs, x))
  {
    if xs != [] {
      RemoveDistinct(xs[1..], x);
      assert Distinct(xs[1..]);
      assert xs[0] !in xs[1..];
    }
  }

  /** Replaces the descriptor table by one with the same live entities. */
  function WithDescriptors(s: Store, d: Descriptors): (r: Store)
    requires StoreValid(s) && d.Keys == s.descriptors.Keys && ChildrenDistinct(d)
    requires forall e :: e in d ==> d[e].master == FromEntity(e)
    ensures StoreValid(r) && Alive(r) == Alive(s)
    ensures r == s.(descriptors := d)
  {
    s.(descriptors := d)
  }

  /** Destroying an entity after erasing some of its values ends in the same store. */
  lemma DestroyAfterErase(s: Store, pool: Id, e: Entity)
    requires StoreValid(s) && Has(s, pool, e)
    ensures Destroy(Erase(s, pool, e), e) == Destroy(s, e)
  {
    StripAfterErase(s.pools, pool, e);
  }

  /** Destroying one entity leaves every other entity's values as they were. */
  lemma DestroyIsLocal(s: Store, e: Entity, x: Entity, p: Id)
    requires StoreValid(s) && e in s.descriptors && x != e && Has(s, p, x)
    ensures Has(Destroy(s, e), p, x) && Destroy(s, e).pools[p][x] == s.pools[p][x]
  {
  }

  // ---------------------------------------------------------------------
  // Registry::FindObjectByName

  /** The names currently carried by live objects. */
  function Names(s: Store): set<string> {
    set e | e in s.descriptors :: s.descriptors[e].name
  }

  /** The first object, in descriptor enumeration order, with the given name. */
  function FindFrom(s: Store, name: string, k: nat): (h: Handle)
    requires k <= |s.order| && forall e :: e in s.order ==> e in s.descriptors
    decreases |s.order| - k
  {
    if k == |s.order| then NullHandle()
    else if s.descriptors[s.order[k]].name == name then FromEntity(s.order[k])
    else FindFrom(s, name, k + 1)
  }

  /** `Registry::FindObjectByName(name)`. */
  function FindByName(s: Store, name: string): (h: Handle)
    requires StoreValid(s)
  {
    FindFrom(s, name, 0)
  }

  lemma {:induction false} FindFromSpec(s: Store, name: string, k: nat)
    requires StoreValid(s) && k <= |s.order|
    ensures var h := FindFrom(s, name, k);
            (h == NullHandle() <==> forall j :: k <= j < |s.order| ==> s.descriptors[s.order[j]].name != name) &&
            (h != NullHandle() ==> exists j :: k <= j < |s.order| && h == FromEntity(s.order[j]) &&
                                               s.descriptors[s.order[j]].name == name &&
                                               forall i :: k <= i < j ==> s.descriptors[s.order[i]].name != name)
    decreases |s.order| - k
  {
    if k < |s.order| && s.descriptors[s.order[k]].name != name {
      FindFromSpec(s, name, k + 1);
    }
  }

  /**
   * The scan finds the first object carrying the name, and yields the null
   * handle exactly when no live object carries it.
   */
  lemma FindByNameSpec(s: Store, name: string)
    requires StoreValid(s)
    ensures var h := FindByName(s, name);
            (h.isNull <==> name !in Names(s)) &&
            (h.isNull ==> h == NullHandle()) &&
            (!h.isNull ==> h.id in s.descriptors && s.descriptors[h.id].name == name &&
                           exists j :: 0 <= j < |s.order| && s.order[j] == h.id &&
                                       forall i :: 0 <= i < j ==> s.descriptors[s.order[i]].name != name)
    ensures Truthy(FindByName(s, name), Alive(s)) <==> name in Names(s)
  {
    FindFromSpec(s, name, 0);
    var h := FindByName(s, name);
    if name in Names(s) {
      var e :| e in s.descriptors && s.descriptors[e].name == name;
      var j :| 0 <= j < |s.order| && s.order[j] == e;
      assert h != NullHandle();
    }
  }
}
