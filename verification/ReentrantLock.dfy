/** A re-entrant lock whose operations are atomic. */
module ReentrantLock {

  /** A thread id; `nextThreadId` (jthread.c:14) starts at 1, so 0 is nobody. */
  type Tid = nat

  const NOBODY: Tid := 0

  datatype Reentrant = Reentrant(owner: Tid, depth: nat)

  predicate Available(r: Reentrant, t: Tid) { r.owner == NOBODY || r.owner == t }

  function Acquire(r: Reentrant, t: Tid): Reentrant { Reentrant(t, r.depth + 1) }

  function Release(r: Reentrant, t: Tid): Reentrant {
    if r.owner != t then r
    else if r.depth <= 1 then Reentrant(NOBODY, 0)
    else Reentrant(t, r.depth - 1)
  }
}
