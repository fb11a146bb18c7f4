/**
 * The deletion drain of `object_property_register.cpp`: the walk that
 * detaches each object of a subtree from its parent while collecting it,
 * the loop that erases an object's cached components one by one, and the
 * drain that destroys every collected object and then re-validates the
 * survivors.
 */
module Detach {
  import opened Handles
  import opened Components
  import opened Hierarchy
  import opened EntityStore
  import opened Registration
  import opened ComponentOps
  import opened Links
  import opened Lifecycle

  // ---------------------------------------------------------------------
  // Loosening: what the detaching walk may do to the descriptors

  /**
   * d' keeps every descriptor of d, except that a parent may be cleared and
   * children entries may be dropped.
   */
  ghost predicate Loosened(d: Descriptors, d': Descriptors) {
    && d'.Keys == d.Keys
    && forall e :: e in d ==>
         && d'[e] == d[e].(parent := d'[e].parent, children := d'[e].children)
         && (d'[e].parent == d[e].parent || d'[e].parent == NullHandle())
         && (forall c :: c in d'[e].children ==> c in d[e].children)
  }

  lemma LoosenedTrans(d1: Descriptors, d2: Descriptors, d3: Descriptors)
    requires Loosened(d1, d2) && Loosened(d2, d3)
    ensures Loosened(d1, d3)
  {
    forall e | e in d1
      ensures d3[e] == d1[e].(parent := d3[e].parent, children := d3[e].children)
      ensures d3[e].parent == d1[e].parent || d3[e].parent == NullHandle()
      ensures forall c :: c in d3[e].children ==> c in d1[e].children
    {
      assert d2[e] == d1[e].(parent := d2[e].parent, children := d2[e].children);
    }
  }

  /** Dropping children entries and entities keeps a ranking. */
  lemma RankedShrink(d: Descriptors, d': Descriptors, rank: map<Entity, nat>)
    requires Ranked(d, rank) && d'.Keys <= d.Keys
    requires forall e, c :: e in d' && c in d'[e].children ==> c in d[e].children
    ensures Ranked(d', rank)
  {
    forall e, i | e in d' && 0 <= i < |d'[e].children| && d'[e].children[i].id in d'
      ensures d'[e].children[i].id in rank && rank[d'[e].children[i].id] < rank[e]
    {
      var c := d'[e].children[i];
      assert c in d[e].children;
      var j :| 0 <= j < |d[e].children| && d[e].children[j] == c;
    }
  }

  /** The entries erasing at `i` drops: only the one at `i`. */
  lemma RemoveAtKeeps(hs: seq<Handle>, i: nat)
    requires i < |hs|
    ensures forall c :: c in hs[..i] + hs[i + 1..] ==> c in hs
    ensures forall c :: c in hs && c !in hs[..i] + hs[i + 1..] ==> c == hs[i]
  {
    var r := hs[..i] + hs[i + 1..];
    forall c | c in hs && c != hs[i] ensures c in r {
      var j :| 0 <= j < |hs| && hs[j] == c;
      if j < i { assert r[j] == c; } else { assert r[j - 1] == c; }
    }
  }

  /** `RemoveChildren` drops at most the entry for `child`. */
  lemma RemoveChildrenDrops(d: Descriptors, self: Entity, child: Entity)
    requires self in d
    ensures forall c :: c in RemoveChildren(d, self, child)[self].children ==> c in d[self].children
    ensures forall c :: c in d[self].children && c !in RemoveChildren(d, self, child)[self].children ==> c.id == child
  {
    match FindId(d[self].children, child)
    case Some(i) => RemoveAtKeeps(d[self].children, i);
    case None =>
  }

  /** The footprint of `ClearParent(self)`: self's parent cleared, one entry named self dropped. */
  lemma ClearParentLoosens(d: Descriptors, self: Entity)
    requires self in d
    ensures Loosened(d, ClearParent(d, self))
    ensures forall y :: y in d && y != self ==> ClearParent(d, self)[y].parent == d[y].parent
    ensures forall e, c :: e in d && c in d[e].children && c !in ClearParent(d, self)[e].children ==> c.id == self
  {
    var p := d[self].parent;
    if Truthy(p, d.Keys) {
      RemoveChildrenDrops(d, p.id, self);
    }
  }

  /** After `ClearParent(self)` the parent self had no longer lists it. */
  lemma ClearParentDropsSelf(d: Descriptors, self: Entity)
    requires self in d && ChildrenDistinct(d) && Truthy(d[self].parent, d.Keys)
    ensures !Lists(ClearParent(d, self)[d[self].parent.id].children, self)
  {
    if d[self].parent.id != self {
      ClearParentUnlinks(d, self);
    }
  }


  /** The parent x had in d0, when live there, does not list x in d. */
  ghost predicate Unlinked(d0: Descriptors, d: Descriptors, x: Entity) {
    x in d0 && Truthy(d0[x].parent, d0.Keys) && d0[x].parent.id in d ==> !Lists(d[d0[x].parent.id].children, x)
  }

  lemma UnlinkedKept(d0: Descriptors, d: Descriptors, d': Descriptors, x: Entity)
    requires Loosened(d, d') && Unlinked(d0, d, x)
    ensures Unlinked(d0, d', x)
  {
    if x in d0 && Truthy(d0[x].parent, d0.Keys) && d0[x].parent.id in d' {
      var q := d0[x].parent.id;
      forall i | 0 <= i < |d'[q].children|
        ensures d'[q].children[i].id != x
      {
        assert d'[q].children[i] in d[q].children;
      }
    }
  }

  /** Dropping children entries never repeats an id. */
  lemma ClearParentDistinct(d: Descriptors, self: Entity)
    requires self in d && ChildrenDistinct(d)
    ensures ChildrenDistinct(ClearParent(d, self))
  {
  }

  lemma ClearParentRanked(d: Descriptors, self: Entity, rank: map<Entity, nat>)
    requires self in d && Ranked(d, rank)
    ensures Ranked(ClearParent(d, self), rank)
  {
    ClearParentLoosens(d, self);
    RankedShrink(d, ClearParent(d, self), rank);
  }

  // ---------------------------------------------------------------------
  // The detaching walk (`GetAllChildren` of the .cpp)

  /** The children entries of `parent` name objects ranked below it. */
  predicate RankedBelow(d: Descriptors, rank: map<Entity, nat>, parent: Entity, ch: seq<Handle>) {
    parent in rank && forall i :: 0 <= i < |ch| && ch[i].id in d ==> ch[i].id in rank && rank[ch[i].id] < rank[parent]
  }

  /**
   * What `GetAllChildren(h, vec)` leaves: the descriptors once h has left
   * its parent and the walk has gone into each truthy entry of h's children
   * list as it stands after that, and the handles it appends to `vec`.
   */
  function DetachWalk(d: Descriptors, rank: map<Entity, nat>, h: Handle): (r: (Descriptors, seq<Handle>))
    requires Ranked(d, rank) && Truthy(h, d.Keys)
    ensures r.0.Keys == d.Keys && Ranked(r.0, rank)
    decreases rank[h.id], 1
  {
    var d1 := ClearParent(d, h.id);
    ClearParentRanked(d, h.id, rank);
    var b := DetachChildren(d1, rank, h.id, d1[h.id].children, 0);
    (b.0, [h] + b.1)
  }

  /** The walk into the truthy entries `ch[k..]`, each checked when its turn comes. */
  function DetachChildren(d: Descriptors, rank: map<Entity, nat>, parent: Entity, ch: seq<Handle>, k: nat)
    : (r: (Descriptors, seq<Handle>))
    requires Ranked(d, rank) && RankedBelow(d, rank, parent, ch) && k <= |ch|
    ensures r.0.Keys == d.Keys && Ranked(r.0, rank)
    decreases rank[parent], 0, |ch| - k
  {
    if k == |ch| then (d, [])
    else if Truthy(ch[k], d.Keys) then
      var a := DetachWalk(d, rank, ch[k]);
      var b := DetachChildren(a.0, rank, parent, ch, k + 1);
      (b.0, a.1 + b.1)
    else
      DetachChildren(d, rank, parent, ch, k + 1)
  }

  lemma ConcatAssoc(x: seq<Handle>, y: seq<Handle>, z: seq<Handle>)
    ensures (x + y) + z == x + (y + z)
  {
  }

  /**
   * `GetAllChildren(current, vec)` of `object_property_register.cpp`, on
   * the descriptor table: current leaves its parent and is appended, then
   * the walk recurses into each truthy entry of the children list current
   * has once detached.
   */
  method DetachSubtree(d: Descriptors, current: Handle, vec: seq<Handle>, ghost rank: map<Entity, nat>)
    returns (r: Descriptors, out: seq<Handle>)
    requires Ranked(d, rank) && Truthy(current, d.Keys)
    ensures r == DetachWalk(d, rank, current).0 && out == vec + DetachWalk(d, rank, current).1
    decreases rank[current.id], 1
  {
    ghost var whole := DetachWalk(d, rank, current);
    r := ClearParent(d, current.id);
    ClearParentRanked(d, current.id, rank);
    out := vec + [current];
    var children := r[current.id].children;
    ConcatAssoc(vec, [current], DetachChildren(r, rank, current.id, children, 0).1);
    for k := 0 to |children|
      invariant Ranked(r, rank) && r.Keys == d.Keys && RankedBelow(r, rank, current.id, children)
      invariant DetachChildren(r, rank, current.id, children, k).0 == whole.0
      invariant out + DetachChildren(r, rank, current.id, children, k).1 == vec + whole.1
    {
      r, out := DetachChild(r, rank, current.id, children, k, out);
    }
  }

  /** One pass of `DetachSubtree`'s loop: the walk into `ch[k]` when it is still truthy. */
  method DetachChild(d: Descriptors, ghost rank: map<Entity, nat>, ghost parent: Entity, ch: seq<Handle>, k: nat,
                     vec: seq<Handle>)
    returns (r: Descriptors, out: seq<Handle>)
    requires Ranked(d, rank) && RankedBelow(d, rank, parent, ch) && k < |ch|
    ensures r.Keys == d.Keys && Ranked(r, rank) && RankedBelow(r, rank, parent, ch)
    ensures DetachChildren(r, rank, parent, ch, k + 1).0 == DetachChildren(d, rank, parent, ch, k).0
    ensures out + DetachChildren(r, rank, parent, ch, k + 1).1 == vec + DetachChildren(d, rank, parent, ch, k).1
    decreases rank[parent], 0
  {
    r, out := d, vec;
    if Truthy(ch[k], d.Keys) {
      ghost var a := DetachWalk(d, rank, ch[k]);
      r, out := DetachSubtree(d, ch[k], vec, rank);
      ConcatAssoc(vec, a.1, DetachChildren(r, rank, parent, ch, k + 1).1);
    }
  }

  // ---------------------------------------------------------------------
  // What the detaching walk does

  /** Entries that left a children list between d0 and d name members of V. */
  ghost predicate DropsWithin(d0: Descriptors, d: Descriptors, V: set<Entity>) {
    forall e, c :: e in d0 && e in d && c in d0[e].children && c !in d[e].children ==> c.id in V
  }

  /** The objects whose parent changed between d0 and d are members of V. */
  ghost predicate ParentsWithin(d0: Descriptors, d: Descriptors, V: set<Entity>) {
    forall e :: e in d0 && e in d && d[e].parent != d0[e].parent ==> e in V
  }

  /** The members of V that are live in d have no parent. */
  ghost predicate NullParents(d: Descriptors, V: set<Entity>) {
    forall x :: x in V && x in d ==> d[x].parent == NullHandle()
  }

  /** Every live child entry of a member of Y names a member of X. */
  ghost predicate ClosedOver(d: Descriptors, Y: set<Entity>, X: set<Entity>) {
    forall y, i :: y in Y && y in d && 0 <= i < |d[y].children| && Truthy(d[y].children[i], d.Keys) ==>
      d[y].children[i].id in X
  }

  /** `ClearParent(self)` drops only an entry naming self ... */
  lemma ClearParentDrops(d: Descriptors, self: Entity)
    requires self in d
    ensures DropsWithin(d, ClearParent(d, self), {self})
  {
    ClearParentLoosens(d, self);
  }

  /** ... and changes only the parent of self, which it clears. */
  lemma ClearParentParents(d: Descriptors, self: Entity, V: set<Entity>)
    requires self in d && NullParents(d, V)
    ensures ParentsWithin(d, ClearParent(d, self), {self})
    ensures NullParents(ClearParent(d, self), V + {self})
  {
    ClearParentLoosens(d, self);
  }

  lemma IdsCons(h: Handle, hs: seq<Handle>)
    ensures Ids([h] + hs) == {h.id} + Ids(hs)
  {
    IdsConcat([h], hs);
    assert Ids([h]) == {h.id};
  }

  lemma DropsTrans(d0: Descriptors, d1: Descriptors, d2: Descriptors, V1: set<Entity>, V2: set<Entity>)
    requires d1.Keys == d0.Keys && DropsWithin(d0, d1, V1) && DropsWithin(d1, d2, V2)
    ensures DropsWithin(d0, d2, V1 + V2)
  {
  }

  lemma ParentsTrans(d0: Descriptors, d1: Descriptors, d2: Descriptors, V1: set<Entity>, V2: set<Entity>)
    requires d1.Keys == d0.Keys && ParentsWithin(d0, d1, V1) && ParentsWithin(d1, d2, V2)
    ensures ParentsWithin(d0, d2, V1 + V2)
  {
  }

  lemma NullParentsKept(d: Descriptors, d': Descriptors, V: set<Entity>)
    requires Loosened(d, d') && NullParents(d, V)
    ensures NullParents(d', V)
  {
  }

  lemma LoosenedRefl(d: Descriptors)
    ensures Loosened(d, d)
  {
  }

  /** The walk only clears parents and drops children entries. */
  lemma {:induction false} WalkLoosens(d: Descriptors, rank: map<Entity, nat>, h: Handle)
    requires Ranked(d, rank) && Truthy(h, d.Keys)
    ensures Loosened(d, DetachWalk(d, rank, h).0)
    decreases rank[h.id], 1
  {
    var d1 := ClearParent(d, h.id);
    ClearParentLoosens(d, h.id);
    ClearParentRanked(d, h.id, rank);
    ChildrenLoosen(d1, rank, h.id, d1[h.id].children, 0);
    LoosenedTrans(d, d1, DetachWalk(d, rank, h).0);
  }

  lemma {:induction false} ChildrenLoosen(d: Descriptors, rank: map<Entity, nat>, parent: Entity, ch: seq<Handle>, k: nat)
    requires Ranked(d, rank) && RankedBelow(d, rank, parent, ch) && k <= |ch|
    ensures Loosened(d, DetachChildren(d, rank, parent, ch, k).0)
    decreases rank[parent], 0, |ch| - k
  {
    if k == |ch| {
      LoosenedRefl(d);
    } else if Truthy(ch[k], d.Keys) {
      var a := DetachWalk(d, rank, ch[k]);
      WalkLoosens(d, rank, ch[k]);
      ChildrenLoosen(a.0, rank, parent, ch, k + 1);
      LoosenedTrans(d, a.0, DetachChildren(a.0, rank, parent, ch, k + 1).0);
    } else {
      ChildrenLoosen(d, rank, parent, ch, k + 1);
    }
  }

  /** Only entries naming visited objects leave children lists. */
  lemma {:induction false} WalkDrops(d: Descriptors, rank: map<Entity, nat>, h: Handle)
    requires Ranked(d, rank) && Truthy(h, d.Keys)
    ensures DropsWithin(d, DetachWalk(d, rank, h).0, Ids(DetachWalk(d, rank, h).1))
    decreases rank[h.id], 1
  {
    var d1 := ClearParent(d, h.id);
    ClearParentDrops(d, h.id);
    ClearParentRanked(d, h.id, rank);
    var b := DetachChildren(d1, rank, h.id, d1[h.id].children, 0);
    ChildrenDrops(d1, rank, h.id, d1[h.id].children, 0);
    IdsCons(h, b.1);
    DropsTrans(d, d1, b.0, {h.id}, Ids(b.1));
  }

  lemma {:induction false} ChildrenDrops(d: Descriptors, rank: map<Entity, nat>, parent: Entity, ch: seq<Handle>, k: nat)
    requires Ranked(d, rank) && RankedBelow(d, rank, parent, ch) && k <= |ch|
    ensures DropsWithin(d, DetachChildren(d, rank, parent, ch, k).0, Ids(DetachChildren(d, rank, parent, ch, k).1))
    decreases rank[parent], 0, |ch| - k
  {
    if k < |ch| {
      if Truthy(ch[k], d.Keys) {
        var a := DetachWalk(d, rank, ch[k]);
        var b := DetachChildren(a.0, rank, parent, ch, k + 1);
        WalkDrops(d, rank, ch[k]);
        ChildrenDrops(a.0, rank, parent, ch, k + 1);
        IdsConcat(a.1, b.1);
        DropsTrans(d, a.0, b.0, Ids(a.1), Ids(b.1));
      } else {
        ChildrenDrops(d, rank, parent, ch, k + 1);
      }
    }
  }

  /**
   * Only visited objects change parent, and each visited object ends
   * without one, as do the objects V that had none before.
   */
  lemma {:induction false} WalkParents(d: Descriptors, rank: map<Entity, nat>, h: Handle, V: set<Entity>)
    requires Ranked(d, rank) && Truthy(h, d.Keys) && NullParents(d, V)
    ensures ParentsWithin(d, DetachWalk(d, rank, h).0, Ids(DetachWalk(d, rank, h).1))
    ensures NullParents(DetachWalk(d, rank, h).0, V + Ids(DetachWalk(d, rank, h).1))
    decreases rank[h.id], 1
  {
    var d1 := ClearParent(d, h.id);
    ClearParentParents(d, h.id, V);
    ClearParentRanked(d, h.id, rank);
    var b := DetachChildren(d1, rank, h.id, d1[h.id].children, 0);
    ChildrenParents(d1, rank, h.id, d1[h.id].children, 0, V + {h.id});
    IdsCons(h, b.1);
    ParentsTrans(d, d1, b.0, {h.id}, Ids(b.1));
  }

  lemma {:induction false} ChildrenParents(d: Descriptors, rank: map<Entity, nat>, parent: Entity, ch: seq<Handle>, k: nat,
                                           V: set<Entity>)
    requires Ranked(d, rank) && RankedBelow(d, rank, parent, ch) && k <= |ch| && NullParents(d, V)
    ensures ParentsWithin(d, DetachChildren(d, rank, parent, ch, k).0, Ids(DetachChildren(d, rank, parent, ch, k).1))
    ensures NullParents(DetachChildren(d, rank, parent, ch, k).0, V + Ids(DetachChildren(d, rank, parent, ch, k).1))
    decreases rank[parent], 0, |ch| - k
  {
    if k < |ch| {
      if Truthy(ch[k], d.Keys) {
        var a := DetachWalk(d, rank, ch[k]);
        var b := DetachChildren(a.0, rank, parent, ch, k + 1);
        WalkParents(d, rank, ch[k], V);
        ChildrenParents(a.0, rank, parent, ch, k + 1, V + Ids(a.1));
        IdsConcat(a.1, b.1);
        ParentsTrans(d, a.0, b.0, Ids(a.1), Ids(b.1));
      } else {
        ChildrenParents(d, rank, parent, ch, k + 1, V);
      }
    } else {
      assert Ids([]) == {};
    }
  }

  /** The walk keeps children lists free of repeated ids. */
  lemma {:induction false} WalkDistinct(d: Descriptors, rank: map<Entity, nat>, h: Handle)
    requires Ranked(d, rank) && Truthy(h, d.Keys) && ChildrenDistinct(d)
    ensures ChildrenDistinct(DetachWalk(d, rank, h).0)
    decreases rank[h.id], 1
  {
    var d1 := ClearParent(d, h.id);
    ClearParentDistinct(d, h.id);
    ClearParentRanked(d, h.id, rank);
    ChildrenDistinctKept(d1, rank, h.id, d1[h.id].children, 0);
  }

  lemma {:induction false} ChildrenDistinctKept(d: Descriptors, rank: map<Entity, nat>, parent: Entity, ch: seq<Handle>, k: nat)
    requires Ranked(d, rank) && RankedBelow(d, rank, parent, ch) && k <= |ch| && ChildrenDistinct(d)
    ensures ChildrenDistinct(DetachChildren(d, rank, parent, ch, k).0)
    decreases rank[parent], 0, |ch| - k
  {
    if k < |ch| {
      if Truthy(ch[k], d.Keys) {
        var a := DetachWalk(d, rank, ch[k]);
        WalkDistinct(d, rank, ch[k]);
        ChildrenDistinctKept(a.0, rank, parent, ch, k + 1);
      } else {
        ChildrenDistinctKept(d, rank, parent, ch, k + 1);
      }
    }
  }

  /** Each visited object is gone from the children of the parent it had in d0. */
  lemma {:induction false} WalkUnlinks(d0: Descriptors, d: Descriptors, rank: map<Entity, nat>, h: Handle, V: set<Entity>)
    requires Ranked(d, rank) && Truthy(h, d.Keys) && ChildrenDistinct(d)
    requires Loosened(d0, d) && ParentsWithin(d0, d, V) && forall x :: x in V ==> Unlinked(d0, d, x)
    ensures forall x :: x in V + Ids(DetachWalk(d, rank, h).1) ==> Unlinked(d0, DetachWalk(d, rank, h).0, x)
    decreases rank[h.id], 1
  {
    var d1 := ClearParent(d, h.id);
    ClearParentLoosens(d, h.id);
    ClearParentRanked(d, h.id, rank);
    ClearParentDistinct(d, h.id);
    ClearParentParents(d, h.id, {});
    forall x | x in V + {h.id}
      ensures Unlinked(d0, d1, x)
    {
      if x == h.id && d[x].parent == d0[x].parent {
        if Truthy(d[x].parent, d.Keys) {
          ClearParentDropsSelf(d, x);
        }
      } else {
        UnlinkedKept(d0, d, d1, x);
      }
    }
    LoosenedTrans(d0, d, d1);
    ParentsTrans(d0, d, d1, V, {h.id});
    var b := DetachChildren(d1, rank, h.id, d1[h.id].children, 0);
    ChildrenUnlink(d0, d1, rank, h.id, d1[h.id].children, 0, V + {h.id});
    IdsCons(h, b.1);
  }

  lemma {:induction false} ChildrenUnlink(d0: Descriptors, d: Descriptors, rank: map<Entity, nat>, parent: Entity,
                                          ch: seq<Handle>, k: nat, V: set<Entity>)
    requires Ranked(d, rank) && RankedBelow(d, rank, parent, ch) && k <= |ch| && ChildrenDistinct(d)
    requires Loosened(d0, d) && ParentsWithin(d0, d, V) && forall x :: x in V ==> Unlinked(d0, d, x)
    ensures forall x :: x in V + Ids(DetachChildren(d, rank, parent, ch, k).1) ==>
              Unlinked(d0, DetachChildren(d, rank, parent, ch, k).0, x)
    decreases rank[parent], 0, |ch| - k
  {
    if k == |ch| {
      assert Ids([]) == {};
    } else if Truthy(ch[k], d.Keys) {
      var a := DetachWalk(d, rank, ch[k]);
      var b := DetachChildren(a.0, rank, parent, ch, k + 1);
      WalkUnlinks(d0, d, rank, ch[k], V);
      WalkLoosens(d, rank, ch[k]);
      LoosenedTrans(d0, d, a.0);
      WalkParents(d, rank, ch[k], {});
      ParentsTrans(d0, d, a.0, V, Ids(a.1));
      WalkDistinct(d, rank, ch[k]);
      ChildrenUnlink(d0, a.0, rank, parent, ch, k + 1, V + Ids(a.1));
      IdsConcat(a.1, b.1);
    } else {
      ChildrenUnlink(d0, d, rank, parent, ch, k + 1, V);
    }
  }

  /** The walk from a live child entry lies inside the walk from its parent. */
  lemma ChildWalkInside(d: Descriptors, rank: map<Entity, nat>, h: Handle, c: Handle)
    requires Ranked(d, rank) && Truthy(h, d.Keys) && c in d[h.id].children
    ensures Ids(PreOrder(d, rank, c)) <= Ids(PreOrder(d, rank, h))
  {
    var i :| 0 <= i < |d[h.id].children| && d[h.id].children[i] == c;
    ChildrenPreOrderIncludes(d, rank, h.id, 0, i);
    assert forall x :: x in PreOrder(d, rank, c) ==> x in PreOrder(d, rank, h);
  }

  /** Every object the walk appends belongs to the subtree of h in d0. */
  lemma {:induction false} WalkInside(d0: Descriptors, d: Descriptors, rank: map<Entity, nat>, h: Handle)
    requires Ranked(d0, rank) && Ranked(d, rank) && Loosened(d0, d) && Truthy(h, d.Keys)
    ensures Ids(DetachWalk(d, rank, h).1) <= Ids(PreOrder(d0, rank, h))
    decreases rank[h.id], 1
  {
    var d1 := ClearParent(d, h.id);
    ClearParentLoosens(d, h.id);
    ClearParentRanked(d, h.id, rank);
    LoosenedTrans(d0, d, d1);
    PreOrderTruthy(d0, rank, h);
    var b := DetachChildren(d1, rank, h.id, d1[h.id].children, 0);
    ChildrenInside(d0, d1, rank, h, d1[h.id].children, 0);
    IdsCons(h, b.1);
    assert h.id in Ids(PreOrder(d0, rank, h));
  }

  lemma {:induction false} ChildrenInside(d0: Descriptors, d: Descriptors, rank: map<Entity, nat>, ph: Handle,
                                          ch: seq<Handle>, k: nat)
    requires Ranked(d0, rank) && Ranked(d, rank) && Loosened(d0, d) && Truthy(ph, d0.Keys)
    requires RankedBelow(d, rank, ph.id, ch) && k <= |ch| && forall c :: c in ch ==> c in d0[ph.id].children
    ensures Ids(DetachChildren(d, rank, ph.id, ch, k).1) <= Ids(PreOrder(d0, rank, ph))
    decreases rank[ph.id], 0, |ch| - k
  {
    if k == |ch| {
      assert Ids([]) == {};
    } else if Truthy(ch[k], d.Keys) {
      var a := DetachWalk(d, rank, ch[k]);
      var b := DetachChildren(a.0, rank, ph.id, ch, k + 1);
      WalkInside(d0, d, rank, ch[k]);
      ChildWalkInside(d0, rank, ph, ch[k]);
      WalkLoosens(d, rank, ch[k]);
      LoosenedTrans(d0, d, a.0);
      ChildrenInside(d0, a.0, rank, ph, ch, k + 1);
      IdsConcat(a.1, b.1);
    } else {
      ChildrenInside(d0, d, rank, ph, ch, k + 1);
    }
  }

  /** Each truthy entry of `ch[k..]` is visited. */
  lemma {:induction false} ChildrenCovered(d: Descriptors, rank: map<Entity, nat>, parent: Entity, ch: seq<Handle>, k: nat)
    requires Ranked(d, rank) && RankedBelow(d, rank, parent, ch) && k <= |ch|
    ensures forall i :: k <= i < |ch| && Truthy(ch[i], d.Keys) ==> ch[i].id in Ids(DetachChildren(d, rank, parent, ch, k).1)
    decreases |ch| - k
  {
    if k < |ch| {
      if Truthy(ch[k], d.Keys) {
        var a := DetachWalk(d, rank, ch[k]);
        var b := DetachChildren(a.0, rank, parent, ch, k + 1);
        ChildrenCovered(a.0, rank, parent, ch, k + 1);
        IdsConcat(a.1, b.1);
        assert a.1[0] == ch[k];
      } else {
        ChildrenCovered(d, rank, parent, ch, k + 1);
      }
    }
  }

  lemma ClosedOverUnion(d: Descriptors, Y1: set<Entity>, Y2: set<Entity>, X1: set<Entity>, X2: set<Entity>, X: set<Entity>)
    requires ClosedOver(d, Y1, X1) && ClosedOver(d, Y2, X2) && X1 <= X && X2 <= X
    ensures ClosedOver(d, Y1 + Y2, X)
  {
  }

  /**
   * Every live child a visited object had in d0 is visited too, or was
   * visited before (V): its entry was either still listed when the walk
   * read the list, or had left it for a visited object.
   */
  lemma {:induction false} WalkCloses(d0: Descriptors, d: Descriptors, rank: map<Entity, nat>, h: Handle, V: set<Entity>)
    requires Ranked(d, rank) && Truthy(h, d.Keys) && Loosened(d0, d) && DropsWithin(d0, d, V)
    ensures ClosedOver(d0, Ids(DetachWalk(d, rank, h).1), V + Ids(DetachWalk(d, rank, h).1))
    decreases rank[h.id], 1
  {
    var d1 := ClearParent(d, h.id);
    ClearParentLoosens(d, h.id);
    ClearParentDrops(d, h.id);
    ClearParentRanked(d, h.id, rank);
    LoosenedTrans(d0, d, d1);
    DropsTrans(d0, d, d1, V, {h.id});
    var ch := d1[h.id].children;
    var b := DetachChildren(d1, rank, h.id, ch, 0);
    ChildrenCovered(d1, rank, h.id, ch, 0);
    ChildrenClose(d0, d1, rank, h.id, ch, 0, V + {h.id});
    IdsCons(h, b.1);
    HeadCloses(d0, d1, h.id, V + {h.id}, Ids(b.1));
    ClosedOverUnion(d0, {h.id}, Ids(b.1), V + {h.id} + Ids(b.1), V + {h.id} + Ids(b.1), V + Ids([h] + b.1));
  }

  /**
   * A live child entry p had in d0 is either still listed in d1, where
   * the walk visits it (B), or left for a visited object (V).
   */
  lemma HeadCloses(d0: Descriptors, d1: Descriptors, p: Entity, V: set<Entity>, B: set<Entity>)
    requires p in d0 && d1.Keys == d0.Keys && DropsWithin(d0, d1, V)
    requires forall i :: 0 <= i < |d1[p].children| && Truthy(d1[p].children[i], d1.Keys) ==> d1[p].children[i].id in B
    ensures ClosedOver(d0, {p}, V + B)
  {
    forall i | 0 <= i < |d0[p].children| && Truthy(d0[p].children[i], d0.Keys)
      ensures d0[p].children[i].id in V + B
    {
      var c := d0[p].children[i];
      if c in d1[p].children {
        var j :| 0 <= j < |d1[p].children| && d1[p].children[j] == c;
      }
    }
  }

  lemma {:induction false} ChildrenClose(d0: Descriptors, d: Descriptors, rank: map<Entity, nat>, parent: Entity,
                                         ch: seq<Handle>, k: nat, V: set<Entity>)
    requires Ranked(d, rank) && RankedBelow(d, rank, parent, ch) && k <= |ch|
    requires Loosened(d0, d) && DropsWithin(d0, d, V)
    ensures ClosedOver(d0, Ids(DetachChildren(d, rank, parent, ch, k).1), V + Ids(DetachChildren(d, rank, parent, ch, k).1))
    decreases rank[parent], 0, |ch| - k
  {
    if k == |ch| {
      assert Ids([]) == {};
    } else if Truthy(ch[k], d.Keys) {
      var a := DetachWalk(d, rank, ch[k]);
      var b := DetachChildren(a.0, rank, parent, ch, k + 1);
      WalkCloses(d0, d, rank, ch[k], V);
      WalkLoosens(d, rank, ch[k]);
      LoosenedTrans(d0, d, a.0);
      WalkDrops(d, rank, ch[k]);
      DropsTrans(d0, d, a.0, V, Ids(a.1));
      ChildrenClose(d0, a.0, rank, parent, ch, k + 1, V + Ids(a.1));
      IdsConcat(a.1, b.1);
      ClosedOverUnion(d0, Ids(a.1), Ids(b.1), V + Ids(a.1), V + Ids(a.1) + Ids(b.1), V + Ids(a.1 + b.1));
    } else {
      ChildrenClose(d0, d, rank, parent, ch, k + 1, V);
    }
  }

  /**
   * The detaching walk from a live h appends h first and then exactly the
   * objects of h's subtree, possibly more than once and not in the order
   * of `PreOrder`.
   */
  lemma DetachWalkCollects(d: Descriptors, rank: map<Entity, nat>, h: Handle)
    requires Ranked(d, rank) && Truthy(h, d.Keys)
    ensures DetachWalk(d, rank, h).1 != [] && DetachWalk(d, rank, h).1[0] == h
    ensures Ids(DetachWalk(d, rank, h).1) == Ids(PreOrder(d, rank, h))
  {
    var w := DetachWalk(d, rank, h);
    LoosenedRefl(d);
    WalkInside(d, d, rank, h);
    WalkCloses(d, d, rank, h, {});
    assert w.1[0] == h;
    PreOrderInside(d, rank, Ids(w.1), h);
  }

  /**
   * The walk only clears parents and drops children entries, of visited
   * objects only; every visited object ends without a parent and is gone
   * from the children of the parent it had.
   */
  lemma DetachWalkUnlinks(d: Descriptors, rank: map<Entity, nat>, h: Handle)
    requires Ranked(d, rank) && ChildrenDistinct(d) && Truthy(h, d.Keys)
    ensures var (d', a) := DetachWalk(d, rank, h);
      && Loosened(d, d') && ChildrenDistinct(d')
      && DropsWithin(d, d', Ids(a)) && ParentsWithin(d, d', Ids(a)) && NullParents(d', Ids(a))
      && forall x :: x in Ids(a) ==> Unlinked(d, d', x)
  {
    LoosenedRefl(d);
    WalkLoosens(d, rank, h);
    WalkDistinct(d, rank, h);
    WalkDrops(d, rank, h);
    WalkParents(d, rank, h, {});
    WalkUnlinks(d, d, rank, h, {});
  }

  /** Detaching a subtree keeps the store well formed and its objects alive. */
  lemma DetachWalkValid(s: Store, rank: map<Entity, nat>, h: Handle)
    requires StoreValid(s) && Ranked(s.descriptors, rank) && Truthy(h, Alive(s))
    ensures StoreValid(s.(descriptors := DetachWalk(s.descriptors, rank, h).0))
  {
    DetachWalkUnlinks(s.descriptors, rank, h);
  }

  // ---------------------------------------------------------------------
  // Erasing an object's cached components before it is destroyed

  /** Every cached component name of a live object names a component type. */
  ghost predicate CachesResolve(t: Tables, hash: string -> Id, s: Store) {
    forall e, n :: e in s.descriptors && n in s.descriptors[e].componentNames ==> NamesComponent(t, hash, n)
  }

  lemma CardMono<T>(A: set<T>, B: set<T>)
    requires A <= B
    ensures |A| <= |B|
  {
    if A != {} {
      var x :| x in A;
      CardMono(A - {x}, B - {x});
    }
  }

  /** Erasing the first cached name by name leaves a fresh cache whose names all resolve. */
  lemma EraseFirstResolves(t: Tables, hash: string -> Id, s: Store, e: Entity)
    requires StoreValid(s) && e in s.descriptors && s.descriptors[e].componentNames != []
    requires NamesResolve(t, hash) && CachesResolve(t, hash, s)
    ensures var r := EraseByName(t, hash, s, e, s.descriptors[e].componentNames[0]).0;
      && StoreValid(r) && e in r.descriptors && CachesResolve(t, hash, r) && CacheFresh(t, hash, r, e)
  {
    var r := EraseByName(t, hash, s, e, s.descriptors[e].componentNames[0]).0;
    forall x, n | x in r.descriptors && n in r.descriptors[x].componentNames
      ensures NamesComponent(t, hash, n)
    {
      if x == e {
        ListedResolves(t, hash, r, hash(GetObjectType(t, r)), e, n);
      }
    }
  }

  /** Erasing the first cached name by name takes the object out of that name's storage and out of no other. */
  lemma EraseFirstHolding(t: Tables, hash: string -> Id, s: Store, e: Entity)
    requires StoreValid(s) && e in s.descriptors && s.descriptors[e].componentNames != []
    requires CachesResolve(t, hash, s)
    ensures var name := s.descriptors[e].componentNames[0];
      Holding(EraseByName(t, hash, s, e, name).0, e) <= Holding(s, e) - {Resolve(t, hash, name).value.pool}
  {
    var name := s.descriptors[e].componentNames[0];
    assert name in s.descriptors[e].componentNames;
    var r := EraseByName(t, hash, s, e, name).0;
    var p := Resolve(t, hash, name).value.pool;
    forall q | q in Holding(r, e)
      ensures q in Holding(s, e) - {p}
    {
      assert Has(r, q, e);
    }
  }

  /**
   * Erasing the first cached name by name never adds a storage to the
   * object, and when the cache was fresh it removes the storage that name
   * resolves to.
   */
  lemma EraseFirstShrinks(t: Tables, hash: string -> Id, s: Store, e: Entity)
    requires StoreValid(s) && e in s.descriptors && s.descriptors[e].componentNames != []
    requires NamesResolve(t, hash) && CachesResolve(t, hash, s)
    ensures var r := EraseByName(t, hash, s, e, s.descriptors[e].componentNames[0]).0;
      PoolCount(r, e) < PoolCount(s, e) + (if CacheFresh(t, hash, s, e) then 0 else 1)
  {
    var name := s.descriptors[e].componentNames[0];
    var r := EraseByName(t, hash, s, e, name).0;
    var p := Resolve(t, hash, name).value.pool;
    EraseFirstHolding(t, hash, s, e);
    CardMono(Holding(r, e), Holding(s, e) - {p});
    if CacheFresh(t, hash, s, e) {
      ListedResolves(t, hash, s, hash(GetObjectType(t, s)), e, name);
      assert p in Holding(s, e);
    }
  }

  /**
   * The erase loop of `ClearDeletingQueue()`: while the object's cached
   * names are not empty, the first is erased by name, which refreshes the
   * cache. The loop ends because every cached name resolves (with a name
   * that does not, the source loops forever); destroying the object
   * afterwards gives what destroying it at once gives.
   */
  method EraseCached(t: Tables, hash: string -> Id, s: Store, e: Entity) returns (r: Store)
    requires StoreValid(s) && e in s.descriptors && NamesResolve(t, hash) && CachesResolve(t, hash, s)
    ensures StoreValid(r) && e in r.descriptors && r.descriptors[e].componentNames == []
    ensures CachesResolve(t, hash, r) && Destroy(r, e) == Destroy(s, e)
  {
    r := s;
    while r.descriptors[e].componentNames != []
      invariant StoreValid(r) && e in r.descriptors && CachesResolve(t, hash, r)
      invariant Destroy(r, e) == Destroy(s, e)
      decreases PoolCount(r, e) + (if CacheFresh(t, hash, r, e) then 0 else 1)
    {
      var name := r.descriptors[e].componentNames[0];
      EraseFirstResolves(t, hash, r, e);
      EraseFirstShrinks(t, hash, r, e);
      EraseByNameBeforeDestroy(t, hash, r, e, name);
      r := EraseByName(t, hash, r, e, name).0;
    }
  }

  /** Destroying an object keeps every survivor's cache. */
  lemma CachesResolveDestroyAll(t: Tables, hash: string -> Id, s: Store, X: set<Entity>)
    requires CachesResolve(t, hash, s)
    ensures CachesResolve(t, hash, DestroyAll(s, X))
  {
  }

  /**
   * One collected handle: skipped when no longer truthy (already destroyed
   * earlier in the loop); otherwise its cached components are erased and
   * it is destroyed. The `Destroy` meta function it is passed to changes
   * nothing here.
   */
  method DestroyOne(t: Tables, hash: string -> Id, s: Store, h: Handle, ghost s0: Store, ghost W: set<Entity>)
    returns (r: Store)
    requires StoreValid(s0) && s == DestroyAll(s0, W) && Truthy(h, Alive(s0))
    requires NamesResolve(t, hash) && CachesResolve(t, hash, s0)
    ensures r == DestroyAll(s0, W + {h.id})
  {
    r := s;
    if !Truthy(h, Alive(s)) {
      assert W + {h.id} == W;
      return;
    }
    DestroyAllValid(s0, W);
    CachesResolveDestroyAll(t, hash, s0, W);
    var r1 := EraseCached(t, hash, s, h.id);
    DestroyStep(s0, W, h.id);
    r := Destroy(r1, h.id);
  }

  /** The destroy loop of `ClearDeletingQueue()` over the collected handles. */
  method DestroyCollected(t: Tables, hash: string -> Id, s: Store, seg: seq<Handle>) returns (r: Store)
    requires StoreValid(s) && NamesResolve(t, hash) && CachesResolve(t, hash, s)
    requires forall h :: h in seg ==> Truthy(h, Alive(s))
    ensures r == DestroyAll(s, Ids(seg))
  {
    ghost var W: set<Entity> := {};
    r := s;
    DestroyNothing(s);
    assert Ids(seg[..0]) == {} by { assert seg[..0] == []; }
    for k := 0 to |seg|
      invariant r == DestroyAll(s, W) && W == Ids(seg[..k])
    {
      IdsStep(seg, k);
      assert seg[k] in seg;
      r := DestroyOne(t, hash, r, seg[k], s, W);
      W := W + {seg[k].id};
    }
    assert seg[..|seg|] == seg;
  }

  // ---------------------------------------------------------------------
  // The drain (`ClearDeletingQueue` of the .cpp)

  /**
   * What the drain leaves once X is deleted: X is gone from the
   * descriptors, the enumeration and every storage; each survivor keeps its
   * components and its descriptor except its children list, which keeps
   * every entry naming a survivor, gains nothing, and no longer lists a
   * deleted object whose parent the survivor was.
   */
  ghost predicate Pruned(s: Store, r: Store, X: set<Entity>) {
    && r == DestroyAll(s, X).(descriptors := r.descriptors)
    && r.descriptors.Keys == s.descriptors.Keys - X
    && (forall e :: e in r.descriptors ==> r.descriptors[e] == s.descriptors[e].(children := r.descriptors[e].children))
    && (forall e, c :: e in r.descriptors && c in r.descriptors[e].children ==> c in s.descriptors[e].children)
    && (forall e, c :: e in r.descriptors && c in s.descriptors[e].children && c.id !in X ==> c in r.descriptors[e].children)
    && (forall x :: x in X ==> Unlinked(s.descriptors, r.descriptors, x))
  }

  /** The truthy children entries of d1 are listed in d2, whose live objects are d1's. */
  ghost predicate LiveLinksIn(d1: Descriptors, d2: Descriptors) {
    && d1.Keys == d2.Keys
    && forall e, c :: e in d1 && c in d1[e].children && Truthy(c, d1.Keys) ==> c in d2[e].children
  }

  /** Walks only follow truthy entries, so d2 has every walk of d1. */
  lemma {:induction false} PreOrderLinksIn(d1: Descriptors, d2: Descriptors, rank: map<Entity, nat>, h: Handle)
    requires Ranked(d1, rank) && Ranked(d2, rank) && LiveLinksIn(d1, d2)
    ensures forall y :: y in PreOrder(d1, rank, h) ==> y in PreOrder(d2, rank, h)
    decreases Measure(d1, rank, h)
  {
    if Truthy(h, d1.Keys) {
      PreOrderTruthy(d2, rank, h);
      forall y | y in ChildrenPreOrder(d1, rank, h.id, 0)
        ensures y in PreOrder(d2, rank, h)
      {
        ChildrenPreOrderMember(d1, rank, h.id, 0, y);
        var i :| 0 <= i < |d1[h.id].children| && Truthy(d1[h.id].children[i], d1.Keys) &&
                 y in PreOrder(d1, rank, d1[h.id].children[i]);
        var c := d1[h.id].children[i];
        PreOrderLinksIn(d1, d2, rank, c);
        var j :| 0 <= j < |d2[h.id].children| && d2[h.id].children[j] == c;
        ChildrenPreOrderIncludes(d2, rank, h.id, 0, j);
      }
    }
  }

  lemma PreOrderSameLinks(d1: Descriptors, d2: Descriptors, rank: map<Entity, nat>, h: Handle)
    requires Ranked(d1, rank) && Ranked(d2, rank) && LiveLinksIn(d1, d2) && LiveLinksIn(d2, d1)
    ensures Ids(PreOrder(d1, rank, h)) == Ids(PreOrder(d2, rank, h))
  {
    PreOrderLinksIn(d1, d2, rank, h);
    PreOrderLinksIn(d2, d1, rank, h);
  }

  lemma {:induction false} WithoutTwice(xs: seq<Entity>, X: set<Entity>, V: set<Entity>)
    ensures Without(Without(xs, X), V) == Without(xs, X + V)
  {
    if xs != [] {
      WithoutTwice(xs[1..], X, V);
      var w := Without(xs[1..], X);
      if xs[0] in X {
        assert Without(xs, X) == w;
      } else {
        assert Without(xs, X) == [xs[0]] + w;
        assert ([xs[0]] + w)[1..] == w;
        assert ([xs[0]] + w)[0] == xs[0];
      }
    }
  }

  lemma StripAllTwice(pools: map<Id, map<Entity, Cell>>, X: set<Entity>, V: set<Entity>)
    ensures StripAll(StripAll(pools, X), V) == StripAll(pools, X + V)
  {
    var a, b := StripAll(StripAll(pools, X), V), StripAll(pools, X + V);
    forall p | p in a ensures a[p] == b[p] {
    }
  }

  /** Destroying V after X, from a store whose descriptors were replaced in between. */
  lemma DestroyAllTwice(s: Store, X: set<Entity>, d: Descriptors, V: set<Entity>)
    ensures DestroyAll(DestroyAll(s, X).(descriptors := d), V) == DestroyAll(s, X + V).(descriptors := Restrict(d, V))
  {
    WithoutTwice(s.order, X, V);
    StripAllTwice(s.pools, X, V);
  }

  lemma PrunedStart(s: Store)
    requires StoreValid(s)
    ensures Pruned(s, s, {})
  {
    DestroyNothing(s);
  }

  /**
   * Under Pruned, the walks over what is still alive are those over the
   * original hierarchy without X.
   */
  lemma PrunedWalks(s: Store, r: Store, X: set<Entity>, rank: map<Entity, nat>, h: Handle)
    requires Pruned(s, r, X) && Ranked(r.descriptors, rank) && Ranked(Restrict(s.descriptors, X), rank)
    ensures Ids(PreOrder(r.descriptors, rank, h)) == Ids(PreOrder(Restrict(s.descriptors, X), rank, h))
  {
    var d := Restrict(s.descriptors, X);
    assert LiveLinksIn(r.descriptors, d);
    assert LiveLinksIn(d, r.descriptors);
    PreOrderSameLinks(r.descriptors, d, rank, h);
  }

  /** The objects pruned before the walk, and those it walked, are unlisted by their old parents. */
  lemma PrunedUnlinks(s: Store, r: Store, X: set<Entity>, walked: Descriptors, V: set<Entity>)
    requires Pruned(s, r, X) && V <= r.descriptors.Keys
    requires Loosened(r.descriptors, walked) && ParentsWithin(r.descriptors, walked, V)
    requires forall x :: x in V ==> Unlinked(r.descriptors, walked, x)
    ensures forall x :: x in X + V ==> Unlinked(s.descriptors, Restrict(walked, V), x)
  {
    var d := Restrict(walked, V);
    forall x | x in X + V
      ensures Unlinked(s.descriptors, d, x)
    {
      if x in X {
        UnlinkedKept(s.descriptors, r.descriptors, walked, x);
      }
    }
  }

  /** The children lists the walk leaves to survivors: only old entries, and all those naming survivors. */
  lemma PrunedLinks(s: Store, r: Store, X: set<Entity>, walked: Descriptors, V: set<Entity>)
    requires Pruned(s, r, X) && V <= r.descriptors.Keys
    requires Loosened(r.descriptors, walked) && DropsWithin(r.descriptors, walked, V)
    ensures var d := Restrict(walked, V);
      && (forall e, c :: e in d && c in d[e].children ==> c in s.descriptors[e].children)
      && (forall e, c :: e in d && c in s.descriptors[e].children && c.id !in X + V ==> c in d[e].children)
  {
  }

  /** The descriptors after one walk and its destroys, against the original ones. */
  lemma PrunedDescriptors(s: Store, r: Store, X: set<Entity>, walked: Descriptors, V: set<Entity>)
    requires Pruned(s, r, X) && V <= r.descriptors.Keys
    requires Loosened(r.descriptors, walked) && DropsWithin(r.descriptors, walked, V)
    requires ParentsWithin(r.descriptors, walked, V) && forall x :: x in V ==> Unlinked(r.descriptors, walked, x)
    ensures var d := Restrict(walked, V);
      && d.Keys == s.descriptors.Keys - (X + V)
      && (forall e :: e in d ==> d[e] == s.descriptors[e].(children := d[e].children))
      && (forall e, c :: e in d && c in d[e].children ==> c in s.descriptors[e].children)
      && (forall e, c :: e in d && c in s.descriptors[e].children && c.id !in X + V ==> c in d[e].children)
      && (forall x :: x in X + V ==> Unlinked(s.descriptors, d, x))
  {
    PrunedLinks(s, r, X, walked, V);
    PrunedUnlinks(s, r, X, walked, V);
  }

  /** One truthy queued handle: its detaching walk, then the destroys of what it collected. */
  lemma DrainWalkStep(s: Store, r: Store, X: set<Entity>, rank: map<Entity, nat>, h: Handle)
    requires StoreValid(r) && Pruned(s, r, X) && Ranked(r.descriptors, rank) && Truthy(h, Alive(r))
    ensures var w := DetachWalk(r.descriptors, rank, h);
      && StoreValid(r.(descriptors := w.0))
      && Ids(w.1) == Ids(PreOrder(r.descriptors, rank, h))
      && Pruned(s, DestroyAll(r.(descriptors := w.0), Ids(w.1)), X + Ids(w.1))
      && Ranked(DestroyAll(r.(descriptors := w.0), Ids(w.1)).descriptors, rank)
      && (forall e :: e in w.0 ==> w.0[e].componentNames == r.descriptors[e].componentNames)
  {
    var w := DetachWalk(r.descriptors, rank, h);
    DetachWalkCollects(r.descriptors, rank, h);
    DetachWalkUnlinks(r.descriptors, rank, h);
    PreOrderTruthy(r.descriptors, rank, h);
    var V := Ids(w.1);
    var r' := DestroyAll(r.(descriptors := w.0), V);
    PrunedDescriptors(s, r, X, w.0, V);
    DestroyAllTwice(s, X, w.0, V);
    RankedRestrict(w.0, rank, V);
  }

  /** The walk collects only handles truthy in the table it starts from. */
  lemma {:induction false} WalkLive(d: Descriptors, rank: map<Entity, nat>, h: Handle)
    requires Ranked(d, rank) && Truthy(h, d.Keys)
    ensures forall g :: g in DetachWalk(d, rank, h).1 ==> Truthy(g, d.Keys)
    decreases rank[h.id], 1
  {
    var d1 := ClearParent(d, h.id);
    ClearParentRanked(d, h.id, rank);
    ChildrenLive(d1, rank, h.id, d1[h.id].children, 0);
  }

  lemma {:induction false} ChildrenLive(d: Descriptors, rank: map<Entity, nat>, parent: Entity, ch: seq<Handle>, k: nat)
    requires Ranked(d, rank) && RankedBelow(d, rank, parent, ch) && k <= |ch|
    ensures forall g :: g in DetachChildren(d, rank, parent, ch, k).1 ==> Truthy(g, d.Keys)
    decreases rank[parent], 0, |ch| - k
  {
    if k < |ch| {
      if Truthy(ch[k], d.Keys) {
        var a := DetachWalk(d, rank, ch[k]);
        WalkLive(d, rank, ch[k]);
        ChildrenLive(a.0, rank, parent, ch, k + 1);
      } else {
        ChildrenLive(d, rank, parent, ch, k + 1);
      }
    }
  }

  /** A queued handle no longer truthy: nothing more is deleted. */
  lemma DrainSkipPruned(s: Store, r: Store, rank: map<Entity, nat>, q: seq<Handle>, i: nat)
    requires StoreValid(s) && Ranked(s.descriptors, rank) && i < |q|
    requires Pruned(s, r, Subtrees(s.descriptors, rank, q[..i])) && !Truthy(q[i], Alive(r))
    ensures Subtrees(s.descriptors, rank, q[..i + 1]) == Subtrees(s.descriptors, rank, q[..i])
  {
    DrainStep(s.descriptors, rank, q, i);
    var X := Subtrees(s.descriptors, rank, q[..i]);
    assert PreOrder(Restrict(s.descriptors, X), rank, q[i]) == [];
  }

  /** The survivors' component names are the original ones, so their caches still resolve. */
  lemma PrunedCaches(t: Tables, hash: string -> Id, s: Store, r: Store, X: set<Entity>)
    requires Pruned(s, r, X) && CachesResolve(t, hash, s)
    ensures CachesResolve(t, hash, r)
  {
  }

  /**
   * `ClearDeletingQueue()` of `object_property_register.cpp`: for each
   * queued handle still truthy, `GetAllChildren` detaches and collects the
   * subtree below it over what is still alive, and each collected object
   * has its components erased and is destroyed; a non-empty queue ends with
   * `ValidateAllGameObjects()`. `mid` is the store before that validation.
   */
  method DrainQueue(t: Tables, hash: string -> Id, s: Store, queue: seq<Handle>, ghost rank: map<Entity, nat>)
    returns (r: Store, ghost mid: Store)
    requires StoreValid(s) && Ranked(s.descriptors, rank) && CachesResolve(t, hash, s)
    requires queue != [] ==> NamesResolve(t, hash) && AvoidsDescriptorPool(t)
    ensures StoreValid(r) && StoreValid(mid) && Ranked(mid.descriptors, rank)
    ensures Pruned(s, mid, Subtrees(s.descriptors, rank, queue))
    ensures r == if queue == [] then mid else Restamped(t, hash, mid, false)
  {
    PrunedStart(s);
    r := s;
    assert queue[..0] == [];
    for i := 0 to |queue|
      invariant StoreValid(r) && Ranked(r.descriptors, rank) && CachesResolve(t, hash, r)
      invariant Pruned(s, r, Subtrees(s.descriptors, rank, queue[..i]))
    {
      var h := queue[i];
      ghost var X := Subtrees(s.descriptors, rank, queue[..i]);
      if !Truthy(h, Alive(r)) {
        DrainSkipPruned(s, r, rank, queue, i);
        continue;
      }
      var walked, seg := DetachSubtree(r.descriptors, h, [], rank);
      assert seg == DetachWalk(r.descriptors, rank, h).1;
      DrainWalkStep(s, r, X, rank, h);
      WalkLive(r.descriptors, rank, h);
      DrainStep(s.descriptors, rank, queue, i);
      PrunedWalks(s, r, X, rank, h);
      var m := r.(descriptors := walked);
      r := DestroyCollected(t, hash, m, seg);
      DestroyAllValid(m, Ids(seg));
      PrunedCaches(t, hash, s, r, X + Ids(seg));
    }
    assert queue[..|queue|] == queue;
    mid := r;
    if |queue| > 0 {
      r := ValidateAll(t, hash, r, false);
    }
  }

  /**
   * Queuing a handle that is already queued (`DeleteObject` called twice on
   * one object before a drain) deletes nothing more.
   */
  lemma SubtreesRequeue(d: Descriptors, rank: map<Entity, nat>, q: seq<Handle>, h: Handle)
    requires Ranked(d, rank) && h in q
    ensures Subtrees(d, rank, q + [h]) == Subtrees(d, rank, q)
  {
    assert (q + [h])[..|q + [h]| - 1] == q;
    if Truthy(h, d.Keys) {
      SubtreesClosed(d, rank, q);
      PreOrderInside(d, rank, Subtrees(d, rank, q), h);
    }
  }

  /**
   * The two drains delete the same objects when a tag storage exists: the
   * header's, whose walk does not clear parents, and this one. They differ
   * in the survivors' children lists, which only this one prunes.
   */
  lemma DrainsDeleteAlike(t: Tables, s: Store, rank: map<Entity, nat>, q: seq<Handle>, mid: Store)
    requires Ranked(s.descriptors, rank) && GetObjectType(t, s) != ""
    requires Pruned(s, mid, Subtrees(s.descriptors, rank, q))
    ensures var h := DestroyAll(s, DeletedSoFar(t, s, rank, q, |q|));
      Alive(mid) == Alive(h) && mid.order == h.order && mid.pools == h.pools
  {
    assert q[..|q|] == q;
  }
}
