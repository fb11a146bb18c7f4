/**
 * The effect of draining the deletion queue on the entity store, as values:
 * destroying a set of entities at once, the subtrees a queue of handles
 * names, and the re-stamping of component masters that follows a drain.
 */
module Lifecycle {
  import opened Handles
  import opened Components
  import opened Hierarchy
  import opened EntityStore
  import opened Registration
  import opened ComponentOps

  // ---------------------------------------------------------------------
  // Destroying a set of entities

  /** The sequence without the members of X, order kept. */
  function Without(xs: seq<Entity>, X: set<Entity>): (r: seq<Entity>)
    ensures forall y :: y in r <==> y in xs && y !in X
  {
    if xs == [] then []
    else (if xs[0] in X then [] else [xs[0]]) + Without(xs[1..], X)
  }

  lemma {:induction false} WithoutDistinct(xs: seq<Entity>, X: set<Entity>)
    requires Distinct(xs)
    ensures Distinct(Without(xs, X))
  {
    if xs != [] {
      WithoutDistinct(xs[1..], X);
      assert Distinct(xs[1..]);
      assert xs[0] !in xs[1..];
    }
  }

  lemma {:induction false} RemoveWithout(xs: seq<Entity>, X: set<Entity>, e: Entity)
    ensures Remove(Without(xs, X), e) == Without(xs, X + {e})
  {
    if xs != [] {
      RemoveWithout(xs[1..], X, e);
      var w := Without(xs[1..], X);
      if xs[0] in X {
        assert Without(xs, X) == w;
      } else {
        assert Without(xs, X) == [xs[0]] + w;
        assert ([xs[0]] + w)[1..] == w;
      }
    }
  }

  /** The descriptors of the entities outside X. */
  function Restrict(d: Descriptors, X: set<Entity>): (r: Descriptors)
    ensures r.Keys == d.Keys - X && forall x :: x in r ==> r[x] == d[x]
  {
    map x | x in d && x !in X :: d[x]
  }

  /** Every pool without the entities of X. */
  function StripAll(pools: map<Id, map<Entity, Cell>>, X: set<Entity>): (r: map<Id, map<Entity, Cell>>)
    ensures r.Keys == pools.Keys
    ensures forall p :: p in r ==> r[p].Keys == pools[p].Keys - X && forall x :: x in r[p] ==> r[p][x] == pools[p][x]
  {
    map p | p in pools :: (map x | x in pools[p] && x !in X :: pools[p][x])
  }

  /** Every entity of X destroyed, in one step. */
  function DestroyAll(s: Store, X: set<Entity>): (r: Store)
    ensures r.descriptors == Restrict(s.descriptors, X) && r.poolOrder == s.poolOrder
  {
    Store(Restrict(s.descriptors, X), Without(s.order, X), StripAll(s.pools, X), s.poolOrder, s.next)
  }

  /** The batch destroy keeps the store well formed. */
  lemma DestroyAllValid(s: Store, X: set<Entity>)
    requires StoreValid(s)
    ensures StoreValid(DestroyAll(s, X))
  {
    var d := Restrict(s.descriptors, X);
    WithoutDistinct(s.order, X);
    assert ChildrenDistinct(d) by {
      forall x | x in d ensures NoDuplicateIds(d[x].children) {
        assert d[x] == s.descriptors[x];
      }
    }
  }

  /**
   * What the batch destroy does: the entities of X leave the store, every
   * other entity keeps its descriptor and its stored values, and no storage
   * appears or disappears.
   */
  lemma DestroyAllSpec(s: Store, X: set<Entity>)
    requires StoreValid(s)
    ensures var r := DestroyAll(s, X);
            && Alive(r) == Alive(s) - X
            && (forall x :: x in r.descriptors ==> r.descriptors[x] == s.descriptors[x])
            && r.pools.Keys == s.pools.Keys && r.next == s.next
            && (forall p, x :: Has(r, p, x) <==> Has(s, p, x) && x !in X)
            && (forall p, x :: Has(r, p, x) ==> r.pools[p][x] == s.pools[p][x])
            && StoreValid(r)
  {
    DestroyAllValid(s, X);
  }

  lemma RestrictStep(d: Descriptors, X: set<Entity>, e: Entity)
    ensures Restrict(d, X) - {e} == Restrict(d, X + {e})
  {
  }

  lemma StripAllStep(pools: map<Id, map<Entity, Cell>>, X: set<Entity>, e: Entity)
    ensures Strip(StripAll(pools, X), e) == StripAll(pools, X + {e})
  {
    var a, b := Strip(StripAll(pools, X), e), StripAll(pools, X + {e});
    forall p | p in a ensures a[p] == b[p] {
      assert a[p].Keys == b[p].Keys;
    }
  }

  /** Destroying one more entity extends the destroyed set. */
  lemma DestroyStep(s: Store, X: set<Entity>, e: Entity)
    requires StoreValid(s) && StoreValid(DestroyAll(s, X)) && e in DestroyAll(s, X).descriptors
    ensures Destroy(DestroyAll(s, X), e) == DestroyAll(s, X + {e})
  {
    RemoveWithout(s.order, X, e);
    RestrictStep(s.descriptors, X, e);
    StripAllStep(s.pools, X, e);
  }

  /** Erasing some of e's components before destroying e makes no difference. */
  lemma EraseBeforeDestroy(s: Store, p: Id, e: Entity)
    requires StoreValid(s) && e in s.descriptors
    ensures Destroy(EraseIfPresent(s, p, e), e) == Destroy(s, e)
  {
    if Has(s, p, e) {
      DestroyAfterErase(s, p, e);
    }
  }

  /** Refreshing e's cache before destroying e makes no difference. */
  lemma RefreshBeforeDestroy(t: Tables, hash: string -> Id, s: Store, e: Entity)
    requires StoreValid(s) && e in s.descriptors
    ensures Destroy(Refresh(t, hash, s, e), e) == Destroy(s, e)
  {
    var r := Refresh(t, hash, s, e);
    assert r.descriptors - {e} == s.descriptors - {e};
  }

  /** The same for an erase by name, which also refreshes e's cache. */
  lemma EraseByNameBeforeDestroy(t: Tables, hash: string -> Id, s: Store, e: Entity, name: string)
    requires StoreValid(s) && e in s.descriptors
    ensures Destroy(EraseByName(t, hash, s, e, name).0, e) == Destroy(s, e)
  {
    if NamesComponent(t, hash, name) {
      var s1 := EraseIfPresent(s, Resolve(t, hash, name).value.pool, e);
      assert EraseByName(t, hash, s, e, name).0 == Refresh(t, hash, s1, e);
      RefreshBeforeDestroy(t, hash, s1, e);
      EraseBeforeDestroy(s, Resolve(t, hash, name).value.pool, e);
    }
  }

  lemma {:induction false} WithoutNothing(xs: seq<Entity>)
    ensures Without(xs, {}) == xs
  {
    if xs != [] {
      WithoutNothing(xs[1..]);
      assert xs == [xs[0]] + xs[1..];
    }
  }

  /** Destroying no entity leaves the store as it was. */
  lemma DestroyNothing(s: Store)
    requires StoreValid(s)
    ensures DestroyAll(s, {}) == s
  {
    WithoutNothing(s.order);
    var r := DestroyAll(s, {});
    assert r.descriptors == s.descriptors;
    assert r.pools == s.pools by {
      forall p | p in r.pools ensures r.pools[p] == s.pools[p] {
        assert r.pools[p].Keys == s.pools[p].Keys;
      }
    }
  }

  // ---------------------------------------------------------------------
  // The subtrees named by the deletion queue

  /** The entities a sequence of handles refers to. */
  function Ids(hs: seq<Handle>): (r: set<Entity>)
    ensures forall h :: h in hs ==> h.id in r
    ensures forall x :: x in r ==> exists h :: h in hs && h.id == x
  {
    set h | h in hs :: h.id
  }

  lemma IdsConcat(a: seq<Handle>, b: seq<Handle>)
    ensures Ids(a + b) == Ids(a) + Ids(b)
  {
    assert forall h :: h in a + b <==> h in a || h in b;
  }

  /** No truthy child of a member of X lies outside X. */
  predicate Closed(d: Descriptors, X: set<Entity>) {
    forall x, i :: x in X && x in d && 0 <= i < |d[x].children| && Truthy(d[x].children[i], d.Keys) ==>
      d[x].children[i].id in X
  }

  /** Dropping entities keeps a ranking valid. */
  lemma RankedRestrict(d: Descriptors, rank: map<Entity, nat>, X: set<Entity>)
    requires Ranked(d, rank)
    ensures Ranked(Restrict(d, X), rank)
  {
  }

  /** The walk from a member of a closed set stays inside the set. */
  lemma {:induction false} PreOrderInside(d: Descriptors, rank: map<Entity, nat>, X: set<Entity>, h: Handle)
    requires Ranked(d, rank) && Closed(d, X) && h.id in X
    ensures Ids(PreOrder(d, rank, h)) <= X
    decreases Measure(d, rank, h), 1, 0
  {
    if Truthy(h, d.Keys) {
      ChildrenPreOrderInside(d, rank, X, h.id, 0);
      IdsConcat([h], ChildrenPreOrder(d, rank, h.id, 0));
    }
  }

  lemma {:induction false} ChildrenPreOrderInside(d: Descriptors, rank: map<Entity, nat>, X: set<Entity>, parent: Entity, k: nat)
    requires Ranked(d, rank) && Closed(d, X) && parent in X && parent in d && k <= |d[parent].children|
    ensures Ids(ChildrenPreOrder(d, rank, parent, k)) <= X
    decreases rank[parent] + 1, 0, |d[parent].children| - k
  {
    var ch := d[parent].children;
    if k < |ch| {
      if Truthy(ch[k], d.Keys) {
        PreOrderInside(d, rank, X, ch[k]);
      }
      ChildrenPreOrderInside(d, rank, X, parent, k + 1);
      IdsConcat(PreOrder(d, rank, ch[k]), ChildrenPreOrder(d, rank, parent, k + 1));
    }
  }

  /**
   * Walking a store from which a closed set of entities has been removed
   * visits exactly the entities of the full walk outside that set.
   */
  lemma {:induction false} PreOrderRestricted(d: Descriptors, rank: map<Entity, nat>, X: set<Entity>, h: Handle)
    requires Ranked(d, rank) && Closed(d, X) && Ranked(Restrict(d, X), rank)
    ensures Ids(PreOrder(Restrict(d, X), rank, h)) == Ids(PreOrder(d, rank, h)) - X
    decreases Measure(d, rank, h), 1, 0
  {
    var D := Restrict(d, X);
    if !Truthy(h, d.Keys) {
    } else if h.id in X {
      PreOrderInside(d, rank, X, h);
    } else {
      ChildrenPreOrderRestricted(d, rank, X, h.id, 0);
      IdsConcat([h], ChildrenPreOrder(d, rank, h.id, 0));
      IdsConcat([h], ChildrenPreOrder(D, rank, h.id, 0));
    }
  }

  lemma {:induction false} ChildrenPreOrderRestricted(d: Descriptors, rank: map<Entity, nat>, X: set<Entity>, parent: Entity, k: nat)
    requires Ranked(d, rank) && Closed(d, X) && Ranked(Restrict(d, X), rank)
    requires parent in d && parent !in X && k <= |d[parent].children|
    ensures parent in Restrict(d, X) && Restrict(d, X)[parent] == d[parent]
    ensures Ids(ChildrenPreOrder(Restrict(d, X), rank, parent, k)) == Ids(ChildrenPreOrder(d, rank, parent, k)) - X
    decreases rank[parent] + 1, 0, |d[parent].children| - k
  {
    var D := Restrict(d, X);
    var ch := d[parent].children;
    if k < |ch| {
      PreOrderRestricted(d, rank, X, ch[k]);
      ChildrenPreOrderRestricted(d, rank, X, parent, k + 1);
      IdsConcat(PreOrder(d, rank, ch[k]), ChildrenPreOrder(d, rank, parent, k + 1));
      IdsConcat(PreOrder(D, rank, ch[k]), ChildrenPreOrder(D, rank, parent, k + 1));
    }
  }

  /**
   * The entities in the subtrees of the queued handles, in queue order: what
   * draining the queue deletes.
   */
  function Subtrees(d: Descriptors, rank: map<Entity, nat>, hs: seq<Handle>): set<Entity>
    requires Ranked(d, rank)
  {
    if hs == [] then {} else Subtrees(d, rank, hs[..|hs| - 1]) + Ids(PreOrder(d, rank, hs[|hs| - 1]))
  }

  /** The deleted set holds only live entities and takes every live child of its members with it. */
  lemma {:induction false} SubtreesClosed(d: Descriptors, rank: map<Entity, nat>, hs: seq<Handle>)
    requires Ranked(d, rank)
    ensures Subtrees(d, rank, hs) <= d.Keys && Closed(d, Subtrees(d, rank, hs))
    ensures forall h :: h in hs && Truthy(h, d.Keys) ==> h.id in Subtrees(d, rank, hs)
  {
    if hs != [] {
      var h := hs[|hs| - 1];
      SubtreesClosed(d, rank, hs[..|hs| - 1]);
      PreOrderTruthy(d, rank, h);
      var P := PreOrder(d, rank, h);
      forall x, i | x in Ids(P) && x in d && 0 <= i < |d[x].children| && Truthy(d[x].children[i], d.Keys)
        ensures d[x].children[i].id in Ids(P)
      {
        var y :| y in P && y.id == x;
        PreOrderClosed(d, rank, h, y, i);
      }
      assert forall g :: g in hs ==> g in hs[..|hs| - 1] || g == h;
    }
  }

  /**
   * One more queued handle: the deleted set grows by the walk from it over
   * what is still alive, which the walk over the whole hierarchy, minus
   * what is already deleted, also gives.
   */
  lemma DrainStep(d: Descriptors, rank: map<Entity, nat>, q: seq<Handle>, i: nat)
    requires Ranked(d, rank) && i < |q|
    ensures Ranked(Restrict(d, Subtrees(d, rank, q[..i])), rank)
    ensures Subtrees(d, rank, q[..i + 1]) == Subtrees(d, rank, q[..i]) + Ids(PreOrder(Restrict(d, Subtrees(d, rank, q[..i])), rank, q[i]))
  {
    var X := Subtrees(d, rank, q[..i]);
    SubtreesClosed(d, rank, q[..i]);
    RankedRestrict(d, rank, X);
    PreOrderRestricted(d, rank, X, q[i]);
    assert q[..i + 1][..i] == q[..i];
  }

  /** One more handle of a walk: its entity joins the set. */
  lemma IdsStep(seg: seq<Handle>, k: nat)
    requires k < |seg|
    ensures Ids(seg[..k + 1]) == Ids(seg[..k]) + {seg[k].id}
  {
    assert seg[..k + 1] == seg[..k] + [seg[k]];
    IdsConcat(seg[..k], [seg[k]]);
  }

  /**
   * `CallMetaFunction(name, "Erase Component", e)`: the erase closure of a
   * registered component type removes its component from e when present; any
   * other name resolves to nothing and nothing happens.
   */
  function EraseViaMeta(t: Tables, hash: string -> Id, s: Store, e: Entity, name: string): (r: Store)
    requires StoreValid(s) && e in s.descriptors
    ensures StoreValid(r) && r.descriptors == s.descriptors && r.order == s.order && r.poolOrder == s.poolOrder
    ensures NamesComponent(t, hash, name) ==> !Has(r, Resolve(t, hash, name).value.pool, e)
    ensures !NamesComponent(t, hash, name) ==> r == s
    ensures forall p, x :: Has(r, p, x) ==> Has(s, p, x) && r.pools[p][x] == s.pools[p][x]
    ensures Destroy(r, e) == Destroy(s, e)
  {
    if NamesComponent(t, hash, name) then
      var p := Resolve(t, hash, name).value.pool;
      EraseBeforeDestroy(s, p, e);
      EraseIfPresent(s, p, e)
    else s
  }

  /** The erase loop of the header's drain: whatever it removes, destroying e afterwards ends the same. */
  method EraseEachViaMeta(t: Tables, hash: string -> Id, s: Store, e: Entity, names: seq<string>) returns (r: Store)
    requires StoreValid(s) && e in s.descriptors
    ensures StoreValid(r) && r.descriptors == s.descriptors && r.poolOrder == s.poolOrder
    ensures Destroy(r, e) == Destroy(s, e)
  {
    r := s;
    for i := 0 to |names|
      invariant StoreValid(r) && r.descriptors == s.descriptors && r.poolOrder == s.poolOrder
      invariant Destroy(r, e) == Destroy(s, e)
    {
      r := EraseViaMeta(t, hash, r, e, names[i]);
    }
  }

  /**
   * The walk from h over what is left after deleting X visits only live
   * objects, and adds to X what the walk over the whole hierarchy adds.
   */
  lemma SubtreeWalk(s0: Store, rank: map<Entity, nat>, X: set<Entity>, h: Handle, blank: bool)
    requires StoreValid(s0) && Ranked(s0.descriptors, rank)
    ensures var Y0 := if blank then {} else X;
            var D := DestroyAll(s0, Y0).descriptors;
            && Ranked(D, rank) && Ranked(Restrict(s0.descriptors, X), rank)
            && (forall x :: x in PreOrder(D, rank, h) ==> Truthy(x, D.Keys))
            && (if blank then Y0 else Y0 + Ids(PreOrder(D, rank, h))) ==
               (if blank then {} else X + Ids(PreOrder(Restrict(s0.descriptors, X), rank, h)))
  {
    var Y0 := if blank then {} else X;
    RankedRestrict(s0.descriptors, rank, X);
    RankedRestrict(s0.descriptors, rank, Y0);
    PreOrderTruthy(DestroyAll(s0, Y0).descriptors, rank, h);
  }

  /** The header's `GetObjectType` depends on the storages only. */
  lemma ObjectTypeFrame(t: Tables, a: Store, b: Store)
    requires a.poolOrder == b.poolOrder
    ensures GetObjectType(t, a) == GetObjectType(t, b)
  {
  }

  /**
   * One object of the header's drain: its listed components are erased
   * through the meta closures, then the entity is destroyed.
   */
  method DestroyOneInline(t: Tables, hash: string -> Id, s: Store, e: Entity, objectType: string,
                          ghost s0: Store, ghost Z: set<Entity>) returns (r: Store)
    requires StoreValid(s0) && s == DestroyAll(s0, Z) && e in s.descriptors
    ensures r == DestroyAll(s0, Z + {e})
  {
    DestroyAllValid(s0, Z);
    var names := Listed(t, s, hash(objectType), e);
    var erased := EraseEachViaMeta(t, hash, s, e, names);
    DestroyStep(s0, Z, e);
    r := Destroy(erased, e);
  }

  /**
   * One handle of the walk: a handle that is no longer truthy is skipped;
   * otherwise the object is deleted unless the header's `GetObjectType`
   * answers "" (no tag storage at all).
   */
  method VisitInline(t: Tables, hash: string -> Id, s: Store, h: Handle, ghost s0: Store, ghost W: set<Entity>)
    returns (r: Store)
    requires StoreValid(s0) && s == DestroyAll(s0, W) && Truthy(h, s0.descriptors.Keys)
    ensures r == DestroyAll(s0, if GetObjectType(t, s0) == "" then W else W + {h.id})
  {
    r := s;
    if !Truthy(h, Alive(s)) {
      assert W + {h.id} == W;
      return;
    }
    var objectType := GetObjectType(t, s);
    ObjectTypeFrame(t, s, s0);
    if objectType == "" {
      return;
    }
    r := DestroyOneInline(t, hash, s, h.id, objectType, s0, W);
  }

  /**
   * The walk loop of the header's `ClearDeletingQueue` over the handles
   * `GetAllChildren` collected.
   */
  method DestroyEachInline(t: Tables, hash: string -> Id, s: Store, seg: seq<Handle>,
                           ghost s0: Store, ghost Y: set<Entity>) returns (r: Store)
    requires StoreValid(s0) && s == DestroyAll(s0, Y)
    requires forall h :: h in seg ==> Truthy(h, Alive(s))
    ensures r == DestroyAll(s0, if GetObjectType(t, s0) == "" then Y else Y + Ids(seg))
  {
    ghost var blank := GetObjectType(t, s0) == "";
    ghost var W := Y;
    r := s;
    assert Y + Ids(seg[..0]) == Y;
    for k := 0 to |seg|
      invariant r == DestroyAll(s0, W)
      invariant W == if blank then Y else Y + Ids(seg[..k])
    {
      IdsStep(seg, k);
      assert seg[k] in seg;
      r := VisitInline(t, hash, r, seg[k], s0, W);
      W := if blank then W else W + {seg[k].id};
    }
    assert seg[..|seg|] == seg;
  }

  /**
   * What the header's drain has deleted after the first i queued handles:
   * their subtrees, or nothing at all when no tag storage exists, since the
   * header's `GetObjectType` then answers "" for every object.
   */
  ghost function DeletedSoFar(t: Tables, s0: Store, rank: map<Entity, nat>, q: seq<Handle>, i: nat): set<Entity>
    requires Ranked(s0.descriptors, rank) && i <= |q|
  {
    if GetObjectType(t, s0) == "" then {} else Subtrees(s0.descriptors, rank, q[..i])
  }

  /** A queued handle that is no longer truthy deletes nothing. */
  lemma DrainSkip(t: Tables, s0: Store, rank: map<Entity, nat>, q: seq<Handle>, i: nat)
    requires StoreValid(s0) && Ranked(s0.descriptors, rank) && i < |q|
    requires !Truthy(q[i], Alive(DestroyAll(s0, DeletedSoFar(t, s0, rank, q, i))))
    ensures DeletedSoFar(t, s0, rank, q, i + 1) == DeletedSoFar(t, s0, rank, q, i)
  {
    DrainStep(s0.descriptors, rank, q, i);
    var X := Subtrees(s0.descriptors, rank, q[..i]);
    if GetObjectType(t, s0) != "" {
      assert PreOrder(Restrict(s0.descriptors, X), rank, q[i]) == [];
    }
  }

  /**
   * A queued handle that is still truthy: the walk below it, taken in the
   * store the drain has reached, holds live objects only, and deleting them
   * (when tag storage exists) is the next step of `DeletedSoFar`.
   */
  lemma DrainLive(t: Tables, s0: Store, rank: map<Entity, nat>, q: seq<Handle>, i: nat)
    requires StoreValid(s0) && Ranked(s0.descriptors, rank) && i < |q|
    ensures var D := DestroyAll(s0, DeletedSoFar(t, s0, rank, q, i)).descriptors;
            && Ranked(D, rank)
            && (forall x :: x in PreOrder(D, rank, q[i]) ==> Truthy(x, D.Keys))
            && DeletedSoFar(t, s0, rank, q, i + 1) ==
               (if GetObjectType(t, s0) == "" then DeletedSoFar(t, s0, rank, q, i)
                else DeletedSoFar(t, s0, rank, q, i) + Ids(PreOrder(D, rank, q[i])))
  {
    var blank := GetObjectType(t, s0) == "";
    var X := Subtrees(s0.descriptors, rank, q[..i]);
    DrainStep(s0.descriptors, rank, q, i);
    SubtreeWalk(s0, rank, X, q[i], blank);
  }

  /**
   * The body of the header's drain for the queued handle q[i]: a handle that
   * is no longer truthy is skipped; otherwise the walk below it is collected
   * with `GetAllChildren` and the walk's objects are deleted.
   */
  method DrainOne(t: Tables, hash: string -> Id, s: Store, ghost rank: map<Entity, nat>, ghost s0: Store,
                  q: seq<Handle>, i: nat) returns (r: Store)
    requires StoreValid(s0) && Ranked(s0.descriptors, rank) && i < |q|
    requires s == DestroyAll(s0, DeletedSoFar(t, s0, rank, q, i))
    ensures StoreValid(r)
    ensures r == DestroyAll(s0, DeletedSoFar(t, s0, rank, q, i + 1))
  {
    DestroyAllValid(s0, DeletedSoFar(t, s0, rank, q, i));
    if !Truthy(q[i], Alive(s)) {
      DrainSkip(t, s0, rank, q, i);
      return s;
    }
    ghost var Y0 := DeletedSoFar(t, s0, rank, q, i);
    ghost var Y1 := DeletedSoFar(t, s0, rank, q, i + 1);
    DrainLive(t, s0, rank, q, i);
    var seg := CollectSubtree(s.descriptors, q[i], [], rank);
    assert seg == PreOrder(s.descriptors, rank, q[i]);
    r := DestroyEachInline(t, hash, s, seg, s0, Y0);
    assert Y1 == if GetObjectType(t, s0) == "" then Y0 else Y0 + Ids(seg);
    DestroyAllValid(s0, Y1);
  }

  /**
   * The loop of the header's `ClearDeletingQueue()` over the queued handles:
   * for each one still truthy, the subtree below it is collected with
   * `GetAllChildren` and its objects deleted.
   */
  method DrainQueueInline(t: Tables, hash: string -> Id, s: Store, queue: seq<Handle>, ghost rank: map<Entity, nat>)
    returns (r: Store)
    requires StoreValid(s) && Ranked(s.descriptors, rank)
    ensures StoreValid(r)
    ensures r == DestroyAll(s, DeletedSoFar(t, s, rank, queue, |queue|))
  {
    DestroyNothing(s);
    r := s;
    for i := 0 to |queue|
      invariant r == DestroyAll(s, DeletedSoFar(t, s, rank, queue, i))
    {
      r := DrainOne(t, hash, r, rank, s, queue, i);
    }
    DestroyAllValid(s, DeletedSoFar(t, s, rank, queue, |queue|));
  }

  // ---------------------------------------------------------------------
  // ValidateAllGameObjects

  /**
   * The type key under which the components of x are listed: the object's
   * type id in the .cpp version, the hash of the store-wide object type in
   * the header version.
   */
  function ValidationKey(t: Tables, hash: string -> Id, s: Store, x: Entity, header: bool): Id
    requires x in s.descriptors
  {
    if header then hash(GetObjectType(t, s)) else s.descriptors[x].typeId
  }

  /** The value of x's component in storage p once validation has passed over x. */
  function StampedCell(t: Tables, hash: string -> Id, s: Store, header: bool, p: Id, x: Entity): Cell
    requires Has(s, p, x) && x in s.descriptors
  {
    if ListedPool(t, s, ValidationKey(t, hash, s, x, header), x, p) then SetMaster(s.pools[p][x], x) else s.pools[p][x]
  }

  /** Every live object's listed components with the object as their master. */
  function Restamped(t: Tables, hash: string -> Id, s: Store, header: bool): (r: Store)
    requires StoreValid(s)
    ensures StoreValid(r)
    ensures r.descriptors == s.descriptors && r.order == s.order && r.poolOrder == s.poolOrder && r.next == s.next
    ensures forall p, x :: Has(r, p, x) <==> Has(s, p, x)
    ensures forall p :: p in s.pools ==> r.pools[p].Keys == s.pools[p].Keys
    ensures forall p, x :: Has(s, p, x) ==> Has(r, p, x) && r.pools[p][x] == StampedCell(t, hash, s, header, p, x)
  {
    s.(pools := RestampedPools(t, hash, s, header))
  }

  function RestampedPools(t: Tables, hash: string -> Id, s: Store, header: bool): map<Id, map<Entity, Cell>> {
    map p | p in s.pools :: (map x | x in s.pools[p] ::
      if x in s.descriptors then StampedCell(t, hash, s, header, p, x) else s.pools[p][x])
  }

  /** Validation only reads the storages e is in, the descriptors and the storage order. */
  lemma StampedCellFrame(t: Tables, hash: string -> Id, s: Store, s': Store, header: bool, p: Id, x: Entity)
    requires Has(s, p, x) && x in s.descriptors
    requires s'.descriptors == s.descriptors && s'.poolOrder == s.poolOrder
    requires forall q :: Has(s', q, x) <==> Has(s, q, x)
    requires Has(s', p, x) && s'.pools[p][x] == s.pools[p][x]
    ensures StampedCell(t, hash, s', header, p, x) == StampedCell(t, hash, s, header, p, x)
  {
  }

  /**
   * After validation every component an object lists names that object as
   * its master, so it is valid; the rest of each stored value is kept.
   */
  lemma RestampedOwners(t: Tables, hash: string -> Id, s: Store, header: bool, p: Id, x: Entity)
    requires StoreValid(s) && Has(s, p, x)
    ensures var r := Restamped(t, hash, s, header);
            && r.pools[p][x].typeId == s.pools[p][x].typeId && r.pools[p][x].payload == s.pools[p][x].payload
            && (ListedPool(t, s, ValidationKey(t, hash, s, x, header), x, p) ==>
                  MasterOf(r.pools[p][x]) == x && Components.Valid(r.pools[p][x], Alive(r)))
            && (!ListedPool(t, s, ValidationKey(t, hash, s, x, header), x, p) ==> r.pools[p][x] == s.pools[p][x])
  {
  }

  lemma RestampedCellStable(t: Tables, hash: string -> Id, s: Store, header: bool, p: Id, x: Entity)
    requires StoreValid(s) && Has(s, p, x)
    ensures var r := Restamped(t, hash, s, header);
            Has(r, p, x) && StampedCell(t, hash, r, header, p, x) == r.pools[p][x]
  {
    var r := Restamped(t, hash, s, header);
    assert FirstTagPool(t, r.poolOrder, 0) == FirstTagPool(t, s.poolOrder, 0);
    assert ValidationKey(t, hash, r, x, header) == ValidationKey(t, hash, s, x, header);
    var key := ValidationKey(t, hash, s, x, header);
    assert ListedPool(t, r, key, x, p) == ListedPool(t, s, key, x, p);
  }

  /** Validating twice is validating once. */
  lemma RestampedIdempotent(t: Tables, hash: string -> Id, s: Store, header: bool)
    requires StoreValid(s)
    ensures Restamped(t, hash, Restamped(t, hash, s, header), header) == Restamped(t, hash, s, header)
  {
    var r := Restamped(t, hash, s, header);
    var rr := Restamped(t, hash, r, header);
    forall p, x | p in rr.pools && x in rr.pools[p] ensures rr.pools[p][x] == r.pools[p][x] {
      RestampedCellStable(t, hash, s, header, p, x);
    }
    PoolsEqual(rr.pools, r.pools);
  }

  /**
   * Validation has passed over the objects in done and, for object e, over
   * the listed storages in pools; every other stored value is as in s0.
   */
  ghost predicate StampedSoFar(t: Tables, hash: string -> Id, s0: Store, s: Store, header: bool,
                               done: set<Entity>, e: Entity, pools: seq<Id>) {
    StoreValid(s0) && SameShape(s0, s) && CellsSoFar(t, hash, s0, s, header, done, e, pools)
  }

  /** s holds values for exactly the entities and storages s0 does, with the same objects. */
  ghost predicate SameShape(s0: Store, s: Store) {
    && s.descriptors == s0.descriptors && s.order == s0.order && s.poolOrder == s0.poolOrder && s.next == s0.next
    && s.pools.Keys == s0.pools.Keys
    && (forall p, x :: Has(s, p, x) <==> Has(s0, p, x))
  }

  ghost predicate CellsSoFar(t: Tables, hash: string -> Id, s0: Store, s: Store, header: bool,
                             done: set<Entity>, e: Entity, pools: seq<Id>) {
    forall p, x :: Has(s0, p, x) && x in s0.descriptors ==>
      Has(s, p, x) &&
      s.pools[p][x] == (if x in done || (x == e && p in pools)
                        then StampedCell(t, hash, s0, header, p, x) else s0.pools[p][x])
  }

  /**
   * `GetComponentByName(e, n)` followed by `SetMaster(e)` on the component
   * it yields, when it yields one.
   */
  function StampByName(t: Tables, hash: string -> Id, s: Store, e: Entity, n: string): (r: Store)
    requires StoreValid(s) && AvoidsDescriptorPool(t)
    ensures StoreValid(r)
  {
    var (s1, got) := AddByName(t, hash, s, e, n);
    if got.Success? && got.value.Some? && Has(s1, got.value.value.pool, e) then
      SetCell(s1, got.value.value.pool, e, SetMaster(s1.pools[got.value.value.pool][e], e))
    else s1
  }

  /** For a held component, the step sets that component's master and nothing else. */
  lemma StampHeld(t: Tables, hash: string -> Id, s: Store, e: Entity, n: string, p: Id)
    requires StoreValid(s) && AvoidsDescriptorPool(t) && e in s.descriptors
    requires ResolvesToPool(t, hash, n, p) && Has(s, p, e)
    ensures StampByName(t, hash, s, e, n) == SetCell(s, p, e, SetMaster(s.pools[p][e], e))
  {
    GetHeldByName(t, hash, s, e, n, p);
  }

  /** Setting the master of a listed component of e stamps exactly that component. */
  lemma StampNext(t: Tables, hash: string -> Id, s0: Store, s: Store, header: bool, done: set<Entity>,
                  e: Entity, pools: seq<Id>, p0: Id, s': Store, pools': seq<Id>)
    requires StampedSoFar(t, hash, s0, s, header, done, e, pools) && StoreValid(s)
    requires e in s0.descriptors && e !in done
    requires ListedPool(t, s0, ValidationKey(t, hash, s0, e, header), e, p0)
    requires Has(s, p0, e) ==> s' == SetCell(s, p0, e, SetMaster(s.pools[p0][e], e))
    requires pools' == pools + [p0]
    ensures Has(s, p0, e)
    ensures StampedSoFar(t, hash, s0, s', header, done, e, pools')
  {
    assert Has(s0, p0, e);
    StampShape(s0, s, s', p0, e, SetMaster(s.pools[p0][e], e));
    StampCells(t, hash, s0, s, header, done, e, pools, p0, s', pools');
  }

  lemma StampShape(s0: Store, s: Store, s': Store, p0: Id, e: Entity, c: Cell)
    requires StoreValid(s) && SameShape(s0, s) && Has(s, p0, e) && s' == SetCell(s, p0, e, c)
    ensures SameShape(s0, s')
  {
    forall p, x ensures Has(s', p, x) <==> Has(s, p, x) {
    }
  }

  lemma StampCells(t: Tables, hash: string -> Id, s0: Store, s: Store, header: bool, done: set<Entity>,
                   e: Entity, pools: seq<Id>, p0: Id, s': Store, pools': seq<Id>)
    requires CellsSoFar(t, hash, s0, s, header, done, e, pools) && SameShape(s0, s)
    requires e in s0.descriptors && e !in done
    requires ListedPool(t, s0, ValidationKey(t, hash, s0, e, header), e, p0)
    requires Has(s, p0, e) && s'.pools.Keys == s.pools.Keys
    requires s'.pools[p0] == s.pools[p0][e := SetMaster(s.pools[p0][e], e)]
    requires forall p :: p in s.pools && p != p0 ==> s'.pools[p] == s.pools[p]
    requires pools' == pools + [p0]
    ensures CellsSoFar(t, hash, s0, s', header, done, e, pools')
  {
    forall p, x | Has(s0, p, x) && x in s0.descriptors
      ensures Has(s', p, x)
      ensures s'.pools[p][x] == (if x in done || (x == e && p in pools')
                                 then StampedCell(t, hash, s0, header, p, x) else s0.pools[p][x])
    {
      if p == p0 && x == e {
        assert p in pools';
        assert StampedCell(t, hash, s0, header, p, x) == SetMaster(s0.pools[p][x], e);
        assert s'.pools[p][x] == SetMaster(s.pools[p][x], e);
      } else {
        assert x == e ==> (p in pools' <==> p in pools);
        assert s'.pools[p][x] == s.pools[p][x];
      }
    }
  }

  /** One turn of the loop below: the j-th listed name stamps the j-th listed storage. */
  lemma StampStep(t: Tables, hash: string -> Id, s0: Store, s: Store, header: bool, done: set<Entity>,
                  e: Entity, names: seq<string>, listed: seq<Id>, j: nat)
    requires NamesResolve(t, hash) && AvoidsDescriptorPool(t) && e in s0.descriptors && e !in done
    requires j < |names| == |listed|
    requires ListedPool(t, s0, ValidationKey(t, hash, s0, e, header), e, listed[j])
    requires names[j] == GetComponentNameByID(t, listed[j])
    requires StampedSoFar(t, hash, s0, s, header, done, e, listed[..j]) && StoreValid(s)
    ensures StampedSoFar(t, hash, s0, StampByName(t, hash, s, e, names[j]), header, done, e, listed[..j + 1])
  {
    var p0 := listed[j];
    assert ResolvesToPool(t, hash, names[j], p0) by {
      assert names[j] in RegisteredFor(t, ValidationKey(t, hash, s0, e, header));
      assert p0 in t.componentNames;
    }
    assert listed[..j + 1] == listed[..j] + [p0];
    assert Has(s, p0, e) ==> StampByName(t, hash, s, e, names[j]) == SetCell(s, p0, e, SetMaster(s.pools[p0][e], e)) by {
      if Has(s, p0, e) {
        StampHeld(t, hash, s, e, names[j], p0);
      }
    }
    StampNext(t, hash, s0, s, header, done, e, listed[..j], p0, StampByName(t, hash, s, e, names[j]), listed[..j + 1]);
  }

  /**
   * The loop of `ValidateAllGameObjects` over the names listed for e: each
   * listed component gets e as its master.
   */
  method StampListed(t: Tables, hash: string -> Id, s: Store, e: Entity, names: seq<string>, header: bool,
                     ghost s0: Store, ghost done: set<Entity>) returns (r: Store)
    requires NamesResolve(t, hash) && AvoidsDescriptorPool(t) && e in s0.descriptors && e !in done
    requires StampedSoFar(t, hash, s0, s, header, done, e, []) && StoreValid(s)
    requires names == Listed(t, s0, ValidationKey(t, hash, s0, e, header), e)
    ensures StampedSoFar(t, hash, s0, r, header, done + {e}, e, [])
  {
    ghost var key := ValidationKey(t, hash, s0, e, header);
    ghost var listed := ListedPoolsFrom(t, s0, key, e, 0);
    ListedPoolsFromSpec(t, s0, key, e, 0);
    r := s;
    assert listed[..0] == [];
    for j := 0 to |names|
      invariant StampedSoFar(t, hash, s0, r, header, done, e, listed[..j]) && StoreValid(r)
    {
      StampStep(t, hash, s0, r, header, done, e, names, listed, j);
      r := StampByName(t, hash, r, e, names[j]);
    }
    assert listed[..|names|] == listed;
    EntityStamped(t, hash, s0, r, header, done, e, listed, e);
  }

  /** Once every listed name of e has been handled, e counts as done. */
  lemma EntityStamped(t: Tables, hash: string -> Id, s0: Store, s: Store, header: bool, done: set<Entity>,
                      e: Entity, pools: seq<Id>, next: Entity)
    requires StampedSoFar(t, hash, s0, s, header, done, e, pools) && e in s0.descriptors
    requires forall j :: 0 <= j < |s0.poolOrder| && ListedPool(t, s0, ValidationKey(t, hash, s0, e, header), e, s0.poolOrder[j]) ==> s0.poolOrder[j] in pools
    ensures StampedSoFar(t, hash, s0, s, header, done + {e}, next, [])
  {
    forall p, x | Has(s0, p, x) && x == e && ListedPool(t, s0, ValidationKey(t, hash, s0, e, header), e, p)
      ensures p in pools
    {
      var j :| 0 <= j < |s0.poolOrder| && s0.poolOrder[j] == p;
    }
  }

  /** Once every live object is done, the store is the validated store. */
  lemma AllStamped(t: Tables, hash: string -> Id, s0: Store, s: Store, header: bool, e: Entity)
    requires StampedSoFar(t, hash, s0, s, header, Alive(s0), e, [])
    ensures s == Restamped(t, hash, s0, header)
  {
    AllStampedPools(t, hash, s0, s, header, e);
  }

  lemma AllStampedPools(t: Tables, hash: string -> Id, s0: Store, s: Store, header: bool, e: Entity)
    requires SameShape(s0, s) && CellsSoFar(t, hash, s0, s, header, Alive(s0), e, [])
    requires forall p, x :: Has(s0, p, x) ==> x in s0.descriptors
    ensures s.pools == RestampedPools(t, hash, s0, header)
  {
    var r := RestampedPools(t, hash, s0, header);
    forall p, x | p in s.pools ensures x in s.pools[p] <==> x in r[p] {
      assert Has(s, p, x) <==> Has(s0, p, x);
    }
    forall p, x | p in s.pools && x in s.pools[p] ensures s.pools[p][x] == r[p][x] {
      assert Has(s0, p, x) && x in s0.descriptors;
    }
    PoolsEqual(s.pools, r);
  }

  /** Validation changes no listing: the names listed for e are read off s0 or the current store alike. */
  lemma StampedListing(t: Tables, hash: string -> Id, s0: Store, s: Store, header: bool, done: set<Entity>,
                       e: Entity, pools: seq<Id>)
    requires StampedSoFar(t, hash, s0, s, header, done, e, pools) && e in s0.descriptors
    ensures ValidationKey(t, hash, s, e, header) == ValidationKey(t, hash, s0, e, header)
    ensures Listed(t, s, ValidationKey(t, hash, s, e, header), e) == Listed(t, s0, ValidationKey(t, hash, s0, e, header), e)
  {
    ListedFromLocal(t, s0, s, ValidationKey(t, hash, s0, e, header), e, 0);
  }

  /** With no name handled, which object is current does not matter. */
  lemma StampedRekey(t: Tables, hash: string -> Id, s0: Store, s: Store, header: bool, done: set<Entity>,
                     e: Entity, next: Entity)
    requires StampedSoFar(t, hash, s0, s, header, done, e, [])
    ensures StampedSoFar(t, hash, s0, s, header, done, next, [])
  {
  }

  /** A store of the same shape as a well-formed one is well formed. */
  lemma SameShapeValid(s0: Store, s: Store)
    requires StoreValid(s0) && SameShape(s0, s)
    ensures StoreValid(s)
  {
    forall p, e | p in s.pools && e in s.pools[p] ensures e in s.descriptors {
      assert Has(s, p, e);
    }
  }

  /** The names validation visits for e: by type id in the .cpp, through `GetObjectType()` in the header. */
  method ValidationNames(t: Tables, hash: string -> Id, s: Store, e: Entity, header: bool) returns (names: seq<string>)
    requires e in s.descriptors
    ensures names == Listed(t, s, ValidationKey(t, hash, s, e, header), e)
  {
    if header {
      names := ListComponentsInline(t, hash, s, e);
    } else {
      names := ListComponents(t, s, e);
    }
  }

  /**
   * What `ValidateAllGameObjects` does to one object: each name
   * `GetObjectComponents(e)` lists is fetched with `GetComponentByName` and
   * the component's master set to e. Under coherent registration every
   * listed name resolves to a storage that already holds e, so nothing is
   * created. The objects in done have been validated already.
   */
  method ValidateObject(t: Tables, hash: string -> Id, s: Store, e: Entity, header: bool,
                        ghost s0: Store, ghost done: set<Entity>) returns (r: Store)
    requires NamesResolve(t, hash) && AvoidsDescriptorPool(t) && e in s0.descriptors && e !in done
    requires StampedSoFar(t, hash, s0, s, header, done, e, [])
    ensures StampedSoFar(t, hash, s0, r, header, done + {e}, e, [])
  {
    SameShapeValid(s0, s);
    var names := ValidationNames(t, hash, s, e, header);
    StampedListing(t, hash, s0, s, header, done, e, []);
    r := StampListed(t, hash, s, e, names, header, s0, done);
  }

  /** `ValidateAllGameObjects()`: validation over every live object, in enumeration order. */
  method ValidateAll(t: Tables, hash: string -> Id, s: Store, header: bool) returns (r: Store)
    requires StoreValid(s) && NamesResolve(t, hash) && AvoidsDescriptorPool(t)
    ensures StoreValid(r) && r == Restamped(t, hash, s, header)
  {
    ghost var done: set<Entity> := {};
    r := s;
    var count := |s.order|;
    for i := 0 to count
      invariant forall x :: x in done <==> x in s.order[..i]
      invariant StampedSoFar(t, hash, s, r, header, done, if i < count then s.order[i] else 0, [])
    {
      var e := r.order[i];
      assert e !in s.order[..i];
      r := ValidateObject(t, hash, r, e, header, s, done);
      done := done + {e};
      assert s.order[..i + 1] == s.order[..i] + [e];
      StampedRekey(t, hash, s, r, header, done, e, if i + 1 < count then s.order[i + 1] else 0);
    }
    assert s.order[..count] == s.order;
    assert done == Alive(s);
    AllStamped(t, hash, s, r, header, 0);
  }
}
