/** Cell statuses shared by both revisions (pkg/statuses/statuses.go, src/gol/grid.go). */
module Statuses {

  const ALIVE: int := 1
  const DEAD: int := 0
  /** What a read outside a non-wrapping axis yields. */
  const VOID: int := -1

  /** The statuses the stepper knows how to evolve. */
  predicate IsStatus(v: int) {
    v == ALIVE || v == DEAD
  }
}
