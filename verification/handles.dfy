/**
 * Entity identifiers and the liveness-checked `ObjectHandle` value type.
 *
 * Two definitions of the handle exist in the code base: the one declared in
 * registry.h (whose out-of-line default constructor sets the null flag) and
 * the header-only one in object_handle.h (whose default constructor leaves
 * the flag unset). Both share truthiness, equality and rendering.
 */
module Handles {
  import Decimal

  /** An entity identifier of the underlying store. */
  type Entity = nat

  /** A type or storage identifier (a hashed name or a storage id). */
  type Id = nat

  /** `entt::null` as a 32-bit entity identifier. */
  const Null: Entity := 0xFFFF_FFFF

  datatype Handle = Handle(id: Entity, isNull: bool)

  /** `ObjectHandle(entt::entity)`: wraps the identifier, null flag unset. */
  function FromEntity(e: Entity): (h: Handle)
    ensures h.id == e && !h.isNull
  {
    Handle(e, false)
  }

  /** `ObjectHandle()` of registry.h: the null flag is set. */
  function NullHandle(): (h: Handle)
    ensures h.isNull && h.id == Null
  {
    Handle(Null, true)
  }

  /** `ObjectHandle()` of object_handle.h: the null flag stays unset. */
  function HeaderDefaultHandle(): (h: Handle)
    ensures !h.isNull && h.id == Null
  {
    Handle(Null, false)
  }

  /** `operator bool`: not explicitly null and the entity is alive. */
  predicate Truthy(h: Handle, alive: set<Entity>) {
    !h.isNull && h.id in alive
  }

  /** `operator==`: compares the entity identifiers only. */
  predicate Same(a: Handle, b: Handle) {
    a.id == b.id
  }

  /** `GetAs<T>()`: the stored identifier, unchecked. */
  function GetAs(h: Handle): Entity {
    h.id
  }

  /** `ToString()`: the identifier cast to 32 bits, in decimal. */
  function ToString(h: Handle): (s: string)
    ensures |s| > 0 && Decimal.AllDigits(s)
  {
    Decimal.Dec(h.id % 0x1_0000_0000)
  }

  /** A default (registry.h) handle is falsy whatever is alive. */
  lemma NullHandleFalsy(alive: set<Entity>)
    ensures !Truthy(NullHandle(), alive)
  {
  }

  /** A handle built from an entity is truthy exactly when that entity is alive. */
  lemma FromEntityTruthy(e: Entity, alive: set<Entity>)
    ensures Truthy(FromEntity(e), alive) <==> e in alive
  {
  }

  /** The header-only default handle is truthy only if the null entity were alive. */
  lemma HeaderDefaultTruthy(alive: set<Entity>)
    ensures Truthy(HeaderDefaultHandle(), alive) <==> Null in alive
  {
  }

  /** Equality ignores the null flag: a null and a non-null handle to the same id compare equal. */
  lemma SameIgnoresNullFlag(e: Entity)
    ensures Same(NullHandle(), HeaderDefaultHandle())
    ensures Same(Handle(e, true), FromEntity(e))
    ensures Truthy(FromEntity(e), {e}) && !Truthy(Handle(e, true), {e})
  {
  }

  /** The rendering reads back as the 32-bit identifier. */
  lemma ToStringRoundTrip(h: Handle)
    ensures Decimal.Parse(ToString(h)) == h.id % 0x1_0000_0000
    ensures h.id < 0x1_0000_0000 ==> Decimal.Parse(ToString(h)) == h.id
  {
    Decimal.ParseDec(h.id % 0x1_0000_0000);
  }
}
