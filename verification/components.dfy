/**
 * The `Component` base class and the `DefineComponent` wrapper, as values
 * stored in a component pool of the entity store.
 */
module Components {
  import opened Handles

  /**
   * One stored component: the base-class fields (master entity and type id)
   * and the derived class's own data, reduced to a single value.
   */
  datatype Cell = Cell(master: Entity, typeId: Id, payload: int)

  /** A freshly constructed `Component`: master and type are both `entt::null`. */
  function DefaultCell(payload: int): (c: Cell)
    ensures c.master == Null && c.typeId == Null && c.payload == payload
  {
    Cell(Null, Null, payload)
  }

  /** `DefineComponent()`: stamps the type with the hash of ComponentName's class name. */
  function DefinedCell(typeHash: Id, payload: int): (c: Cell)
    ensures c.master == Null && c.typeId == typeHash && c.payload == payload
  {
    DefaultCell(payload).(typeId := typeHash)
  }

  /** `Valid()`: the master entity is alive. */
  predicate Valid(c: Cell, alive: set<Entity>) {
    c.master in alive
  }

  /** `GetMasterHandle()`. */
  function MasterOf(c: Cell): Entity {
    c.master
  }

  /** `SetMaster(e)`. */
  function SetMaster(c: Cell, e: Entity): Cell {
    c.(master := e)
  }

  /**
   * Assignment `dst = src` of a derived component: the base operator= is a
   * no-op, so only the derived data is copied.
   */
  function Assign(dst: Cell, src: Cell): Cell {
    dst.(payload := src.payload)
  }

  /** `Init`, `Destroy` and `Update` of the base do nothing. */
  function Hook(c: Cell): Cell {
    c
  }

  /** Assignment keeps the destination's identity and takes the source's data. */
  lemma AssignKeepsIdentity(dst: Cell, src: Cell)
    ensures MasterOf(Assign(dst, src)) == MasterOf(dst)
    ensures Assign(dst, src).typeId == dst.typeId
    ensures Assign(dst, src).payload == src.payload
    ensures Assign(Assign(dst, src), src) == Assign(dst, src)
  {
  }

  /** `SetMaster(e)` makes `GetMasterHandle()` return e, and validity follows e. */
  lemma SetMasterReadBack(c: Cell, e: Entity, alive: set<Entity>)
    ensures MasterOf(SetMaster(c, e)) == e
    ensures Valid(SetMaster(c, e), alive) <==> e in alive
    ensures SetMaster(c, e).typeId == c.typeId && SetMaster(c, e).payload == c.payload
  {
  }

  /** A default component is not valid unless the null entity were alive. */
  lemma DefaultNotValid(payload: int, alive: set<Entity>)
    requires Null !in alive
    ensures !Valid(DefaultCell(payload), alive)
    ensures forall t: Id :: !Valid(DefinedCell(t, payload), alive)
  {
  }

  /** The default hooks change nothing, so the `Init` run after an emplace keeps the emplaced value. */
  lemma HooksAreNoOps(c: Cell)
    ensures Hook(c) == c
  {
  }
}
