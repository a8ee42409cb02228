/**
 * Interest and readiness flags of the epoll wrapper
 * (src/io/schedulers/sys_epoll.h). How the wrapper combines a mask with a
 * channel's current interest is not part of this model, so a mask is kept
 * symbolic: a set of flags, or the complement of one flag.
 */
module Epoll {

  datatype Flag = Read | Write | Termination | EdgeTriggered | Error

  datatype Mask = Of(flags: set<Flag>) | Complement(flag: Flag)

  /** `LevelTriggered` is declared as the complement of the edge-triggered bit. */
  const LevelTriggered: Mask := Complement(EdgeTriggered)

  const ReadTermination: Mask := Of({Read, Termination})

  /** Whether bit `f` is set in mask `m`. */
  predicate Has(m: Mask, f: Flag) {
    match m
    case Of(fs) => f in fs
    case Complement(g) => f != g
  }
}
