/** Polymorphic ownership, shared by the slug and translation tables. */
module Morph {
  /** The (`*_type`, `*_id`) pair of a polymorphic relation: the owner's morph class and key. */
  datatype Owner = Owner(kind: string, id: int)
}
