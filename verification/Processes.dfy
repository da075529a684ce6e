/** The pool of processes. */
module Processes {
  const POOL_NUM: nat := 50

  predicate IsPid(p: int) { 0 <= p < POOL_NUM }
}
