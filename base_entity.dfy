/**
 * `BaseEntity`: the key, the audit timestamps and the soft-delete flag that
 * every stored entity carries. The entity types of the application are
 * `Entity<D>` for a payload `D` holding their own fields.
 */
module BaseEntities {
  import opened Common

  datatype Entity<+D> = Entity(
    Id: Guid,
    CreatedAt: Instant,
    UpdatedAt: Option<Instant>,
    IsDeleted: bool,
    Data: D)
  {
    /** Called by the commit hook on insertion: sets `CreatedAt` and nothing else. */
    function SetCreated(createdAt: Instant): (e: Entity<D>)
      ensures e.CreatedAt == createdAt
      ensures e.Id == Id && e.UpdatedAt == UpdatedAt && e.IsDeleted == IsDeleted && e.Data == Data
    {
      this.(CreatedAt := createdAt)
    }

    /** Called by the commit hook on update: sets `UpdatedAt` and nothing else. */
    function MarkAsUpdated(updatedAt: Instant): (e: Entity<D>)
      ensures e.UpdatedAt == Some(updatedAt)
      ensures e.Id == Id && e.CreatedAt == CreatedAt && e.IsDeleted == IsDeleted && e.Data == Data
    {
      this.(UpdatedAt := Some(updatedAt))
    }

    /** Raises the soft-delete flag; the only writer of `IsDeleted`. */
    function SoftDelete(): (e: Entity<D>)
      ensures e.IsDeleted
      ensures e.Id == Id && e.CreatedAt == CreatedAt && e.UpdatedAt == UpdatedAt && e.Data == Data
    {
      this.(IsDeleted := true)
    }

    /** The entity with its own fields replaced; key, timestamps and flag are kept. */
    function WithData(data: D): (e: Entity<D>)
      ensures e.Data == data
      ensures SameBase(e, this)
    {
      this.(Data := data)
    }
  }

  /** Two entities agree on every `BaseEntity` field. */
  predicate SameBase<D>(a: Entity<D>, b: Entity<D>) {
    a.Id == b.Id && a.CreatedAt == b.CreatedAt && a.UpdatedAt == b.UpdatedAt && a.IsDeleted == b.IsDeleted
  }

  /**
   * A newly constructed entity: the field initialisers of `BaseEntity`
   * (`IsDeleted = false`, no `UpdatedAt`, default `CreatedAt`), with the key
   * `Guid.NewGuid()` supplied by the caller.
   */
  function NewEntity<D>(id: Guid, data: D): (e: Entity<D>)
    ensures !e.IsDeleted && e.UpdatedAt == None && e.CreatedAt == DefaultInstant
    ensures e.Id == id && e.Data == data
  {
    Entity(id, DefaultInstant, None, false, data)
  }

  /** The three public mutators of `BaseEntity`, as data, to speak about an entity's lifetime. */
  datatype BaseCall = CallSetCreated(at: Instant) | CallMarkAsUpdated(at: Instant) | CallSoftDelete

  function Perform<D>(e: Entity<D>, call: BaseCall): Entity<D> {
    match call
    case CallSetCreated(t) => e.SetCreated(t)
    case CallMarkAsUpdated(t) => e.MarkAsUpdated(t)
    case CallSoftDelete => e.SoftDelete()
  }

  function PerformAll<D>(e: Entity<D>, calls: seq<BaseCall>): Entity<D>
    decreases |calls|
  {
    if calls == [] then e else PerformAll(Perform(e, calls[0]), calls[1..])
  }

  /** Deletion is terminal: no sequence of calls clears the flag once it is set. */
  lemma {:induction false} DeletionIsTerminal<D>(e: Entity<D>, calls: seq<BaseCall>)
    requires e.IsDeleted
    ensures PerformAll(e, calls).IsDeleted
    decreases |calls|
  {
    if calls != [] {
      DeletionIsTerminal(Perform(e, calls[0]), calls[1..]);
    }
  }

  /** The key and the payload never change over an entity's lifetime. */
  lemma {:induction false} IdentityIsStable<D>(e: Entity<D>, calls: seq<BaseCall>)
    ensures PerformAll(e, calls).Id == e.Id && PerformAll(e, calls).Data == e.Data
    decreases |calls|
  {
    if calls != [] {
      IdentityIsStable(Perform(e, calls[0]), calls[1..]);
    }
  }

  /** `SoftDelete` is idempotent. */
  lemma SoftDeleteIdempotent<D>(e: Entity<D>)
    ensures e.SoftDelete().SoftDelete() == e.SoftDelete()
  {
  }
}
