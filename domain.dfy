/** The link record of internal/core/domain/link.go. */
module Domain {

  /** A point in time. The clock itself is outside the model: callers supply the value. */
  type Timestamp = nat

  /** A shortened link. `id` is the storage key and `shortened` the public code;
      `visits` is the only field that changes after creation. */
  datatype Link = Link(id: string, original: string, shortened: string, createdAt: Timestamp, visits: nat)

  /** A link whose storage key and public code agree. */
  predicate WellFormed(l: Link)
  {
    l.id == l.shortened
  }

  /** Builds a fresh record for `original` under `shortCode`, created at `now`, with no visits. */
  function NewLink(original: string, shortCode: string, now: Timestamp): (l: Link)
    ensures l.id == shortCode && l.shortened == shortCode
    ensures WellFormed(l)
    ensures l.original == original
    ensures l.createdAt == now
    ensures l.visits == 0
  {
    Link(shortCode, original, shortCode, now, 0)
  }
}
