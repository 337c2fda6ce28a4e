# Dining philosophers: the semaphore grant protocol

This project models the grant protocol of `DiningPhilosopher.java`. It is the
classical semaphore solution to the dining philosophers. There are N = 3
philosophers, each THINKING, HUNGRY or EATING. One mutex serialises every write
of the shared `states` array, and every read except run's check at line 95,
which happens after the mutex is released. Each philosopher has a private semaphore
`s[i]`, created with 0 permits.

- `take_forks(i)` marks i HUNGRY and calls `tryToGetForks(i)` under the mutex.
  After releasing the mutex it blocks in `s[i].acquire()`.
- `tryToGetForks(i)` grants both forks when i is hungry and neither neighbour
  eats. It sets i EATING and releases `s[i]` once.
- `put_forks(i)` marks i THINKING under the mutex. It then retries the left
  neighbour and then the right one.
- `LEFT(i) = (i + 1 + N) % N` and `RIGHT(i) = (i - 1 + N) % N`.

Once threads are removed, each critical section is one atomic step. The model
has two layers:

- `protocol.dfy` (module `Protocol`) states the protocol on values. A `Table` is
  a snapshot of `states` and of the permit counts of `s[0..N)`. Each critical
  section is a step function: `GrantStep`, `TakeStep`, `PutStep`. The return of
  the blocking acquire is `AcquireStep`. Four invariants are proved for every
  reachable table:
  - mutual exclusion of neighbours;
  - permits consistent with states (at most one permit, and only an eating
    philosopher has one);
  - every hungry philosopher waits behind an eating neighbour;
  - deadlock freedom, which follows from the other three.

  A run is any sequence of steps whose guards hold, which includes every
  interleaving of the philosophers' `run` loops. It is an over-approximation:
  it has no per-thread program order. That is sound for safety, because the
  guards hold at every real call. An induction over runs carries the invariant from the initial table to every table a run reaches.
- `dining_philosopher.dfy` (module `DiningPhilosopher`) holds class
  `SharedTable`. It has the two arrays `states` and `permits`, updated in
  place. Each critical section is a method, and each method is proved to
  compute its step function on the arrays. `Acquire` models the blocking
  `s[i].acquire()`. It requires a permit, because the wait only returns once
  there is one. It ensures that i is EATING when the acquire returns. Run's
  later read of `states[i]` happens outside the mutex, after other threads may
  have taken steps. `Protocol.CheckAfterAcquire` proves that i is still EATING
  at that read, whatever those steps are.

Decisions:

- The mutex is not modelled. Each method is one atomic step.
- A Java `null` entry of `states` is modelled as `Thinking`. The array starts
  all null, and a null compares unequal to both HUNGRY and EATING, exactly as
  THINKING does.
- `release()` is `permits[i] := permits[i] + 1`. A returning `acquire()` is
  `permits[i] := permits[i] - 1`, enabled only when `permits[i] > 0`.
- The `TakeForks` and `PutForks` methods require `permits[i] == 0`. Every grant
  to i is consumed by i's own acquire before i's thread enters its next
  critical section, and `run` (lines 86-109) enters them in that order. This
  is the weakest condition that keeps the invariants.
- `LEFT` and `RIGHT` are modelled for indices in `[0, N)`, the only ones the
  program passes. There Java's `%` and Dafny's `%` agree, since both operands
  are non-negative.

## Model

| member | source | states |
|---|---|---|
| `Protocol.Left` | src/masteringthreads/ch4_applied_threading_techniques/solution_4_3/DiningPhilosopher.java:186-188 | LEFT maps `[0,N)` into `[0,N)`; the result is never i itself; it is i + 1, wrapping from N - 1 to 0 |
| `Protocol.Right` | src/masteringthreads/ch4_applied_threading_techniques/solution_4_3/DiningPhilosopher.java:197-199 | RIGHT maps `[0,N)` into `[0,N)`; the result is never i itself; it is i - 1, wrapping from 0 to N - 1 |
| `Protocol.NeighboursInverse` | src/masteringthreads/ch4_applied_threading_techniques/solution_4_3/DiningPhilosopher.java:186-199 | `LEFT(RIGHT(i)) == i` and `RIGHT(LEFT(i)) == i` |
| `Protocol.NeighbourSymmetry` | src/masteringthreads/ch4_applied_threading_techniques/solution_4_3/DiningPhilosopher.java:186-199 | j is the left neighbour of i exactly when i is the right neighbour of j |
| `Protocol.GrantStep` | src/masteringthreads/ch4_applied_threading_techniques/solution_4_3/DiningPhilosopher.java:164-175 | tryToGetForks(k) changes no entry but `states[k]` and `s[k]`; when k is hungry and neither neighbour eats, k becomes EATING and `s[k]` gains exactly one permit; otherwise the table is left exactly as it was |
| `Protocol.TakeStep` | src/masteringthreads/ch4_applied_threading_techniques/solution_4_3/DiningPhilosopher.java:131-136 | the locked part of take_forks(i) changes only entry i; i ends EATING with one more permit iff no neighbour eats, and HUNGRY with its permits unchanged otherwise |
| `Protocol.PutStep` | src/masteringthreads/ch4_applied_threading_techniques/solution_4_3/DiningPhilosopher.java:147-154 | put_forks(i) sets i THINKING without touching `s[i]`; any other entry that changes is LEFT(i) or RIGHT(i), and it goes from HUNGRY to EATING with one more permit; LEFT(i) is retried first and is granted exactly when it is hungry and neither of its neighbours eats once i thinks; RIGHT(i) is granted exactly when the same holds for it and LEFT(i) was not granted |
| `Protocol.AcquireStep` | src/masteringthreads/ch4_applied_threading_techniques/solution_4_3/DiningPhilosopher.java:138 | a returning `s[i].acquire()` needs a permit and consumes exactly one; states and the other semaphores are unchanged |
| `Protocol.Init` | src/masteringthreads/ch4_applied_threading_techniques/solution_4_3/DiningPhilosopher.java:29-76 | at the start every semaphore has 0 permits and every state is unwritten (Thinking) |
| `Protocol.InitSafe` | src/masteringthreads/ch4_applied_threading_techniques/solution_4_3/DiningPhilosopher.java:29-76 | the initial table satisfies all the invariants |
| `Protocol.GrantKeepsExclusive` | src/masteringthreads/ch4_applied_threading_techniques/solution_4_3/DiningPhilosopher.java:164-175 | tryToGetForks never lets two neighbours eat at once |
| `Protocol.GrantKeepsPermits` | src/masteringthreads/ch4_applied_threading_techniques/solution_4_3/DiningPhilosopher.java:168-173 | after tryToGetForks no semaphore has more than one permit, and only eating philosophers have one |
| `Protocol.GrantSettles` | src/masteringthreads/ch4_applied_threading_techniques/solution_4_3/DiningPhilosopher.java:164-175 | after tryToGetForks(k), if k is hungry it has an eating neighbour; every other hungry philosopher keeps its eating neighbour |
| `Protocol.GrantKeepsInvariant` | src/masteringthreads/ch4_applied_threading_techniques/solution_4_3/DiningPhilosopher.java:164-175 | tryToGetForks(k) keeps exclusion and permit consistency, and afterwards k no longer waits without an eating neighbour |
| `Protocol.OthersAreNeighbours` | src/masteringthreads/ch4_applied_threading_techniques/solution_4_3/DiningPhilosopher.java:24 | with three philosophers, every philosopher other than i is LEFT(i) or RIGHT(i), so put_forks retries everybody who could be waiting |
| `Protocol.TakeStepSafe` | src/masteringthreads/ch4_applied_threading_techniques/solution_4_3/DiningPhilosopher.java:131-136 | the critical section of take_forks keeps exclusion, permit consistency and "every hungry philosopher waits behind an eater" |
| `Protocol.PutStepSafe` | src/masteringthreads/ch4_applied_threading_techniques/solution_4_3/DiningPhilosopher.java:147-154 | the critical section of put_forks, with its two retries, keeps the same three invariants |
| `Protocol.AcquireStepSafe` | src/masteringthreads/ch4_applied_threading_techniques/solution_4_3/DiningPhilosopher.java:93-98 | when the acquire of line 138 returns, the philosopher is EATING and the invariants still hold |
| `Protocol.OthersKeepEating` | src/masteringthreads/ch4_applied_threading_techniques/solution_4_3/DiningPhilosopher.java:131-175 | no step of another philosopher's thread (take, put or acquire) changes an EATING philosopher's state |
| `Protocol.EatingUntilOwnStep` | src/masteringthreads/ch4_applied_threading_techniques/solution_4_3/DiningPhilosopher.java:131-175 | an EATING philosopher stays EATING through any sequence of the other threads' steps |
| `Protocol.CheckAfterAcquire` | src/masteringthreads/ch4_applied_threading_techniques/solution_4_3/DiningPhilosopher.java:93-98 | after i's acquire returns, and any steps of the other threads run before run reads `states[i]`, that read sees EATING, so the `IllegalStateException` is never thrown |
| `Protocol.HungryWaitsBehindEater` | src/masteringthreads/ch4_applied_threading_techniques/solution_4_3/DiningPhilosopher.java:131-139 | between critical sections a hungry philosopher has 0 permits, so it is blocked in its acquire, and it has an eating neighbour |
| `Protocol.DeadlockFree` | src/masteringthreads/ch4_applied_threading_techniques/solution_4_3/DiningPhilosopher.java:131-175 | under the invariants someone eats unless nobody is hungry, so some philosopher is not blocked |
| `Protocol.ApplySafe` | src/masteringthreads/ch4_applied_threading_techniques/solution_4_3/DiningPhilosopher.java:131-175 | every enabled step of any thread keeps the invariants |
| `Protocol.RunSafe` | src/masteringthreads/ch4_applied_threading_techniques/solution_4_3/DiningPhilosopher.java:86-109 | any interleaving of enabled steps from a safe table ends in a safe table |
| `Protocol.ReachableSafe` | src/masteringthreads/ch4_applied_threading_techniques/solution_4_3/DiningPhilosopher.java:72-109 | every table reachable from the start has mutual exclusion, and in it some philosopher is not blocked |
| `Protocol.HandOver` | src/masteringthreads/ch4_applied_threading_techniques/solution_4_3/DiningPhilosopher.java:131-175 | 0 eats; 1 asks for its forks and stays HUNGRY; when 0 puts its forks down, 1 gets them with one permit on `s[1]` |
| `DiningPhilosopher.SharedTable.constructor` | src/masteringthreads/ch4_applied_threading_techniques/solution_4_3/DiningPhilosopher.java:72-76 | the arrays are fresh, with all states Thinking and all permits 0, and the invariant holds |
| `DiningPhilosopher.SharedTable.TryToGetForks` | src/masteringthreads/ch4_applied_threading_techniques/solution_4_3/DiningPhilosopher.java:164-175 | the in-place grant leaves the arrays equal to `GrantStep` of the old arrays |
| `DiningPhilosopher.SharedTable.TakeForks` | src/masteringthreads/ch4_applied_threading_techniques/solution_4_3/DiningPhilosopher.java:131-136 | the locked part of take_forks leaves the arrays equal to `TakeStep` of the old ones and keeps the invariant |
| `DiningPhilosopher.SharedTable.Acquire` | src/masteringthreads/ch4_applied_threading_techniques/solution_4_3/DiningPhilosopher.java:138 | the wait on `s[i]` consumes one permit, as `AcquireStep` says; it keeps the invariant, and afterwards `states[i]` is EATING |
| `DiningPhilosopher.SharedTable.PutForks` | src/masteringthreads/ch4_applied_threading_techniques/solution_4_3/DiningPhilosopher.java:147-154 | put_forks leaves the arrays equal to `PutStep` of the old ones and keeps the invariant |
| `DiningPhilosopher.HandOverOnTable` | src/masteringthreads/ch4_applied_threading_techniques/solution_4_3/DiningPhilosopher.java:86-109 | a sequence of two philosophers' steps in run's order: 0 takes its forks and eats; 1 asks and waits; 0 puts its forks down; 1 returns from its wait eating. The invariant holds throughout |

## Left out

- `ThreadPool.java` is not part of this model. It is a worker pool whose behaviour is thread plumbing over a library FIFO list.
- Thread creation in `triggerPhilosophers` (lines 78-82) and the interrupt-driven loop of `run` are not modelled as threads. Their effect is the arbitrary interleaving of steps in `Protocol.Executable`.
- `InterruptedException` is not modelled. A philosopher interrupted in its acquire stays HUNGRY, and a later grant can leave it EATING forever. This is cancellation, not part of the protocol.
- `action` is not modelled: a busy loop over `Math.cos(Math.random())`, so floating point, randomness and timing.
- The `System.out.println` trace lines are not modelled, because they are output only.
- The `mutex` semaphore is not modelled. Each critical section is one atomic method or step function.
- Fairness and starvation-freedom are not modelled. They are liveness properties under a scheduler, and the algorithm does not guarantee them.
- `Protocol.Left`, `Protocol.Right`: modelled only for indices in `[0, N)`. Only such indices are passed. Java's truncating `%` on negative operands is not modelled.
- N is the program's constant 3, not a parameter.
- Semaphore permits are unbounded integers, not Java `int`. No overflow is reachable, because a permit count never exceeds 1.
