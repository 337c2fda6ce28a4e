/**
  The grant protocol of the semaphore solution to the dining philosophers,
  stated on values.  A Table is a snapshot of the two shared arrays: the
  philosophers' states and the permit counts of their private semaphores.
  Each critical section guarded by the mutex is one function from a table to
  the next table; the invariants and the lemmas below are about these
  functions, and the class in module DiningPhilosopher is proved against them.
*/
module Protocol {

  /** The number of philosophers, fixed by the program. */
  const N: int := 3

  /** What a philosopher is doing.  An entry the program has not yet written
      (a Java null) behaves as Thinking in every comparison, so it is Thinking here. */
  datatype State = Thinking | Hungry | Eating

  /** The philosopher to the left of i, cyclically: LEFT(i) = (i + 1 + N) % N. */
  function Left(i: int): (l: int)
    requires 0 <= i < N
    ensures 0 <= l < N && l != i
    ensures l == i + 1 || (i == N - 1 && l == 0)
  {
    (i + 1 + N) % N
  }

  /** The philosopher to the right of i, cyclically: RIGHT(i) = (i - 1 + N) % N. */
  function Right(i: int): (r: int)
    requires 0 <= i < N
    ensures 0 <= r < N && r != i
    ensures r == i - 1 || (i == 0 && r == N - 1)
  {
    (i - 1 + N) % N
  }

  /** Left and Right undo each other. */
  lemma NeighboursInverse(i: int)
    requires 0 <= i < N
    ensures Left(Right(i)) == i && Right(Left(i)) == i
  {
  }

  /** j sits to the left of i exactly when i sits to the right of j. */
  lemma NeighbourSymmetry(i: int, j: int)
    requires 0 <= i < N && 0 <= j < N
    ensures Left(i) == j <==> Right(j) == i
  {
    NeighboursInverse(i);
    NeighboursInverse(j);
  }

  /** A snapshot of the shared arrays: states[i] and the permits of semaphore s[i]. */
  datatype Table = Table(states: seq<State>, permits: seq<nat>)

  /** Both arrays have one entry per philosopher. */
  predicate Sized(t: Table)
  {
    |t.states| == N && |t.permits| == N
  }

  /** Some neighbour of i is eating, so i cannot have both forks. */
  predicate HasEatingNeighbour(st: seq<State>, i: int)
    requires |st| == N && 0 <= i < N
  {
    st[Left(i)] == Eating || st[Right(i)] == Eating
  }

  /** The condition of tryToGetForks: i is hungry and neither neighbour is eating. */
  predicate CanEat(st: seq<State>, i: int)
    requires |st| == N && 0 <= i < N
  {
    st[i] == Hungry && !HasEatingNeighbour(st, i)
  }

  /** The table after tryToGetForks(k): grant both forks to k and release s[k] once. */
  function GrantStep(t: Table, k: int): (r: Table)
    requires Sized(t) && 0 <= k < N
    ensures Sized(r)
    ensures forall j :: 0 <= j < N && j != k ==>
      r.states[j] == t.states[j] && r.permits[j] == t.permits[j]
    ensures CanEat(t.states, k) ==> r.states[k] == Eating && r.permits[k] == t.permits[k] + 1
    ensures !CanEat(t.states, k) <==> r == t
  {
    if CanEat(t.states, k) then
      Table(t.states[k := Eating], t.permits[k := t.permits[k] + 1])
    else
      t
  }

  /** The table after the critical section of take_forks(i): i becomes hungry,
      then tries to get its forks. */
  function TakeStep(t: Table, i: int): (r: Table)
    requires Sized(t) && 0 <= i < N
    ensures Sized(r)
    ensures forall j :: 0 <= j < N && j != i ==>
      r.states[j] == t.states[j] && r.permits[j] == t.permits[j]
    ensures r.states[i] == Eating <==> !HasEatingNeighbour(t.states, i)
    ensures r.states[i] != Eating ==> r.states[i] == Hungry && r.permits[i] == t.permits[i]
    ensures r.states[i] == Eating ==> r.permits[i] == t.permits[i] + 1
  {
    GrantStep(Table(t.states[i := Hungry], t.permits), i)
  }

  /** The table after the critical section of put_forks(i): i goes back to
      thinking, then the left and then the right neighbour may get their forks. */
  function PutStep(t: Table, i: int): (r: Table)
    requires Sized(t) && 0 <= i < N
    ensures Sized(r)
    ensures r.states[i] == Thinking && r.permits[i] == t.permits[i]
    ensures forall j :: 0 <= j < N && j != i ==>
      (r.states[j] == t.states[j] && r.permits[j] == t.permits[j]) ||
      ((j == Left(i) || j == Right(i)) && t.states[j] == Hungry &&
       r.states[j] == Eating && r.permits[j] == t.permits[j] + 1)
    // The left neighbour is retried first, against the table with i thinking;
    // the right neighbour is retried next, and loses when the left one was served.
    ensures var u := t.states[i := Thinking];
      r.states[Left(i)] == (if CanEat(u, Left(i)) then Eating else t.states[Left(i)])
    ensures var u := t.states[i := Thinking];
      r.states[Right(i)] ==
        (if CanEat(u, Right(i)) && !CanEat(u, Left(i)) then Eating else t.states[Right(i)])
  {
    var released := Table(t.states[i := Thinking], t.permits);
    GrantStep(GrantStep(released, Left(i)), Right(i))
  }

  /** The table after s[i].acquire() returns: one permit of s[i] is consumed.
      The acquire blocks while s[i] has no permit, so it only returns when there is one. */
  function AcquireStep(t: Table, i: int): (r: Table)
    requires Sized(t) && 0 <= i < N && t.permits[i] > 0
    ensures Sized(r) && r.states == t.states
    ensures r.permits[i] + 1 == t.permits[i]
    ensures forall j :: 0 <= j < N && j != i ==> r.permits[j] == t.permits[j]
  {
    Table(t.states, t.permits[i := t.permits[i] - 1])
  }

  /** The program's start: every semaphore created with 0 permits, every state
      still unwritten (Thinking). */
  function Init(): (t: Table)
    ensures Sized(t)
    ensures forall i :: 0 <= i < N ==> t.states[i] == Thinking && t.permits[i] == 0
  {
    Table(seq(N, _ => Thinking), seq(N, _ => 0))
  }

  // ---------------------------------------------------------------- invariants

  /** Mutual exclusion: no philosopher eats while a neighbour eats. */
  predicate Exclusive(st: seq<State>)
    requires |st| == N
  {
    forall i :: 0 <= i < N && st[i] == Eating ==> !HasEatingNeighbour(st, i)
  }

  /** Permits agree with states: a semaphore holds at most one permit, and
      only the semaphore of an eating philosopher holds one. */
  predicate PermitsConsistent(t: Table)
    requires Sized(t)
  {
    forall i :: 0 <= i < N ==> t.permits[i] <= 1 && (t.permits[i] > 0 ==> t.states[i] == Eating)
  }

  /** Every hungry philosopher outside `pending` waits for a reason: a
      neighbour is eating.  Inside a critical section, `pending` holds the
      philosophers whose retry is still to come. */
  predicate WaitsFor(t: Table, pending: set<int>)
    requires Sized(t)
  {
    forall i :: 0 <= i < N && i !in pending && t.states[i] == Hungry ==>
      HasEatingNeighbour(t.states, i)
  }

  /** The invariant that holds between critical sections. */
  predicate Safe(t: Table)
  {
    Sized(t) && Exclusive(t.states) && PermitsConsistent(t) && WaitsFor(t, {})
  }

  /** Philosopher i is stuck in s[i].acquire(): hungry, and no permit to take. */
  predicate Blocked(t: Table, i: int)
    requires Sized(t) && 0 <= i < N
  {
    t.states[i] == Hungry && t.permits[i] == 0
  }

  // ---------------------------------------------------------------- lemmas

  lemma InitSafe()
    ensures Safe(Init())
  {
  }

  /** tryToGetForks never breaks mutual exclusion. */
  lemma GrantKeepsExclusive(t: Table, k: int)
    requires Sized(t) && 0 <= k < N && Exclusive(t.states)
    ensures Exclusive(GrantStep(t, k).states)
  {
    var r := GrantStep(t, k);
    if CanEat(t.states, k) {
      forall i | 0 <= i < N && r.states[i] == Eating
        ensures !HasEatingNeighbour(r.states, i)
      {
        NeighbourSymmetry(i, k);
        NeighbourSymmetry(k, i);
      }
    }
  }

  /** tryToGetForks keeps permits consistent with states: it only releases
      s[k] when k was hungry, hence had no permit. */
  lemma GrantKeepsPermits(t: Table, k: int)
    requires Sized(t) && 0 <= k < N && PermitsConsistent(t)
    ensures PermitsConsistent(GrantStep(t, k))
  {
  }

  /** After tryToGetForks(k), k is either not hungry or waits for an eating
      neighbour; every other philosopher that had a reason to wait keeps it. */
  lemma GrantSettles(t: Table, k: int, pending: set<int>)
    requires Sized(t) && 0 <= k < N && WaitsFor(t, pending)
    ensures WaitsFor(GrantStep(t, k), pending - {k})
  {
    var r := GrantStep(t, k);
    forall i | 0 <= i < N && i !in pending - {k} && r.states[i] == Hungry
      ensures HasEatingNeighbour(r.states, i)
    {
      if i != k {
        assert t.states[i] == Hungry;
        assert t.states[Left(i)] == Eating ==> r.states[Left(i)] == Eating;
        assert t.states[Right(i)] == Eating ==> r.states[Right(i)] == Eating;
      }
    }
  }

  /** The critical section of take_forks keeps the invariant, provided the
      caller holds no unconsumed permit (it has returned from its last acquire). */
  lemma TakeStepSafe(t: Table, i: int)
    requires Safe(t) && 0 <= i < N && t.permits[i] == 0
    ensures Safe(TakeStep(t, i))
  {
    var hungry := Table(t.states[i := Hungry], t.permits);
    if t.states[i] == Eating {
      // i already had both forks, so its neighbours are not eating and the
      // grant hands the forks straight back: nothing changes but the permit.
      assert CanEat(hungry.states, i);
      assert TakeStep(t, i).states == t.states;
    } else {
      assert WaitsFor(hungry, {i}) by {
        forall j | 0 <= j < N && j != i && hungry.states[j] == Hungry
          ensures HasEatingNeighbour(hungry.states, j)
        {
          assert HasEatingNeighbour(t.states, j);
        }
      }
      GrantKeepsInvariant(hungry, i, {i});
      assert {i} - {i} == {};
    }
  }

  /** tryToGetForks(k) keeps exclusion and permit consistency, and settles k. */
  lemma GrantKeepsInvariant(t: Table, k: int, pending: set<int>)
    requires Sized(t) && 0 <= k < N
    requires Exclusive(t.states) && PermitsConsistent(t) && WaitsFor(t, pending)
    ensures var r := GrantStep(t, k);
      Exclusive(r.states) && PermitsConsistent(r) && WaitsFor(r, pending - {k})
  {
    GrantKeepsExclusive(t, k);
    GrantKeepsPermits(t, k);
    GrantSettles(t, k, pending);
  }

  /** With three philosophers everybody but i is a neighbour of i. */
  lemma OthersAreNeighbours(i: int, j: int)
    requires 0 <= i < N && 0 <= j < N && j != i
    ensures j == Left(i) || j == Right(i)
  {
  }

  /** The critical section of put_forks keeps the invariant, provided the
      caller has consumed the permit of its grant. */
  lemma PutStepSafe(t: Table, i: int)
    requires Safe(t) && 0 <= i < N && t.permits[i] == 0
    ensures Safe(PutStep(t, i))
  {
    var released := Table(t.states[i := Thinking], t.permits);
    var pending := {Left(i), Right(i)};
    // Every hungry philosopher is a neighbour of i, so its retry is still to come.
    forall j | 0 <= j < N && j != i
      ensures j in pending
    {
      OthersAreNeighbours(i, j);
    }
    assert WaitsFor(released, pending);
    assert PermitsConsistent(released);
    GrantKeepsInvariant(released, Left(i), pending);
    var afterLeft := GrantStep(released, Left(i));
    GrantKeepsInvariant(afterLeft, Right(i), pending - {Left(i)});
    assert pending - {Left(i)} - {Right(i)} == {};
  }

  /** A returning acquire keeps the invariant, and the philosopher it
      releases is eating.  The check of run, which comes later, is CheckAfterAcquire. */
  lemma AcquireStepSafe(t: Table, i: int)
    requires Safe(t) && 0 <= i < N && t.permits[i] > 0
    ensures t.states[i] == Eating
    ensures Safe(AcquireStep(t, i))
  {
  }

  /** Between critical sections every hungry philosopher is blocked on its
      semaphore behind an eating neighbour. */
  lemma HungryWaitsBehindEater(t: Table, i: int)
    requires Safe(t) && 0 <= i < N && t.states[i] == Hungry
    ensures Blocked(t, i) && HasEatingNeighbour(t.states, i)
  {
  }

  /** Deadlock freedom: somebody eats unless nobody is hungry, so the
      philosophers are never all blocked at once. */
  lemma DeadlockFree(t: Table)
    requires Safe(t)
    ensures (exists i :: 0 <= i < N && t.states[i] == Eating) ||
            (forall i :: 0 <= i < N ==> t.states[i] != Hungry)
    ensures exists i :: 0 <= i < N && !Blocked(t, i)
  {
    if t.states[0] == Hungry {
      var e := if t.states[Left(0)] == Eating then Left(0) else Right(0);
      assert t.states[e] == Eating && !Blocked(t, e);
    } else {
      assert !Blocked(t, 0);
      if exists i :: 0 <= i < N && t.states[i] == Hungry {
        var h :| 0 <= h < N && t.states[h] == Hungry;
        var e := if t.states[Left(h)] == Eating then Left(h) else Right(h);
        assert t.states[e] == Eating;
      }
    }
  }

  // ---------------------------------------------------------------- runs

  /** One atomic step of some philosopher's thread. */
  datatype Step = Take(i: int) | Put(i: int) | Acquire(i: int)

  /** Whether thread i can take step s now: take_forks and put_forks are
      entered with every earlier grant consumed, and acquire returns only
      when s[i] has a permit. */
  predicate Enabled(t: Table, s: Step)
    requires Sized(t)
  {
    0 <= s.i < N &&
    match s
    case Take(i) => t.permits[i] == 0
    case Put(i) => t.permits[i] == 0
    case Acquire(i) => t.permits[i] > 0
  }

  function Apply(t: Table, s: Step): (r: Table)
    requires Sized(t) && Enabled(t, s)
    ensures Sized(r)
  {
    match s
    case Take(i) => TakeStep(t, i)
    case Put(i) => PutStep(t, i)
    case Acquire(i) => AcquireStep(t, i)
  }

  /** Every step of `steps` is enabled when its turn comes. */
  predicate Executable(t: Table, steps: seq<Step>)
    requires Sized(t)
    decreases |steps|
  {
    steps == [] || (Enabled(t, steps[0]) && Executable(Apply(t, steps[0]), steps[1..]))
  }

  /** The table after all of `steps`. */
  function Final(t: Table, steps: seq<Step>): (r: Table)
    requires Sized(t) && Executable(t, steps)
    ensures Sized(r)
    decreases |steps|
  {
    if steps == [] then t else Final(Apply(t, steps[0]), steps[1..])
  }

  /** Every step keeps the invariant. */
  lemma ApplySafe(t: Table, s: Step)
    requires Safe(t) && Enabled(t, s)
    ensures Safe(Apply(t, s))
  {
    match s
    case Take(i) => TakeStepSafe(t, i);
    case Put(i) => PutStepSafe(t, i);
    case Acquire(i) => AcquireStepSafe(t, i);
  }

  /** The invariant holds after any interleaving of the threads' steps from a
      safe table, in particular from the start. */
  lemma {:induction false} RunSafe(t: Table, steps: seq<Step>)
    requires Safe(t) && Executable(t, steps)
    ensures Safe(Final(t, steps))
    decreases |steps|
  {
    if steps != [] {
      ApplySafe(t, steps[0]);
      RunSafe(Apply(t, steps[0]), steps[1..]);
    }
  }

  /** A step of another thread never takes the forks from an eating philosopher. */
  lemma OthersKeepEating(t: Table, s: Step, i: int)
    requires Sized(t) && Enabled(t, s) && 0 <= i < N && s.i != i && t.states[i] == Eating
    ensures Apply(t, s).states[i] == Eating
  {
  }

  /** An eating philosopher stays eating through any steps of the other threads. */
  lemma {:induction false} EatingUntilOwnStep(t: Table, steps: seq<Step>, i: int)
    requires Sized(t) && Executable(t, steps) && 0 <= i < N && t.states[i] == Eating
    requires forall k :: 0 <= k < |steps| ==> steps[k].i != i
    ensures Final(t, steps).states[i] == Eating
    decreases |steps|
  {
    if steps != [] {
      OthersKeepEating(t, steps[0], i);
      EatingUntilOwnStep(Apply(t, steps[0]), steps[1..], i);
    }
  }

  /** The check of run after take_forks: whatever the other threads do between
      the return of s[i].acquire() and the read of states[i], i is eating then. */
  lemma CheckAfterAcquire(t: Table, i: int, others: seq<Step>)
    requires Safe(t) && 0 <= i < N && t.permits[i] > 0
    requires Executable(AcquireStep(t, i), others)
    requires forall k :: 0 <= k < |others| ==> others[k].i != i
    ensures Final(AcquireStep(t, i), others).states[i] == Eating
  {
    AcquireStepSafe(t, i);
    EatingUntilOwnStep(AcquireStep(t, i), others, i);
  }

  /** Exclusion and deadlock freedom hold in every table the program reaches. */
  lemma ReachableSafe(steps: seq<Step>)
    requires Executable(Init(), steps)
    ensures Safe(Final(Init(), steps))
    ensures Exclusive(Final(Init(), steps).states)
    ensures exists i :: 0 <= i < N && !Blocked(Final(Init(), steps), i)
  {
    InitSafe();
    RunSafe(Init(), steps);
    DeadlockFree(Final(Init(), steps));
  }

  /** The hand-over of the forks from 0 to 1: 0 eats, 1 asks and must wait,
      0 puts its forks down and 1 is granted them with one permit. */
  lemma HandOver()
    ensures var eating0 := Table([Eating, Thinking, Thinking], [0, 0, 0]);
            var asked := TakeStep(eating0, 1);
            asked.states == [Eating, Hungry, Thinking] && asked.permits == [0, 0, 0] &&
            PutStep(asked, 0) == Table([Thinking, Eating, Thinking], [0, 1, 0])
  {
  }
}
