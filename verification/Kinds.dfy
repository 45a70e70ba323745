/** The predefined kinds of objects (boehmgc/include/private/gc_priv.h). */
module Kinds {

  datatype Kind = PtrFree | Normal | Uncollectable | AtomicUncollectable

  /** IS_UNCOLLECTABLE. */
  predicate IsUncollectable(k: Kind) {
    k.Uncollectable? || k.AtomicUncollectable?
  }
}
