/**
  The shared state of the dining philosophers as an object: the array of
  states and the array of semaphore permit counts, updated in place.  Every
  method is one critical section (or, for Acquire, the blocking wait that
  follows one), so the mutex itself is not represented: a method runs
  atomically.  Each method is specified by the step function of module
  Protocol that it implements.
*/
module DiningPhilosopher {
  import opened Protocol

  class SharedTable {
    /** states[i] is what philosopher i is doing. */
    const states: array<State>
    /** permits[i] is the number of permits semaphore s[i] holds. */
    const permits: array<nat>

    /** One entry per philosopher in both arrays. */
    ghost predicate Shaped()
      reads this
    {
      states.Length == N && permits.Length == N
    }

    /** The arrays as a value. */
    ghost function View(): (t: Table)
      reads this, states, permits
      requires Shaped()
      ensures Sized(t)
    {
      Table(states[..], permits[..])
    }

    /** The object invariant between critical sections. */
    ghost predicate Valid()
      reads this, states, permits
    {
      Shaped() && Safe(View())
    }

    /** The arrays as the program sets them up: states not yet written, and
        one semaphore with 0 permits per philosopher. */
    constructor ()
      ensures Valid() && fresh(states) && fresh(permits)
      ensures View() == Init()
    {
      var p := new nat[N];
      for k := 0 to N
        invariant forall j :: 0 <= j < k ==> p[j] == 0
      {
        p[k] := 0;
      }
      permits := p;
      states := new State[N](_ => Thinking);
      new;
      assert states[..] == Init().states;
      assert permits[..] == Init().permits;
      InitSafe();
    }

    /** tryToGetForks(i): if i is hungry and neither neighbour eats, i eats and
        s[i] is released once; otherwise nothing happens.  Called only from
        inside a critical section, where the invariant may be broken. */
    method TryToGetForks(i: int)
      requires Shaped() && 0 <= i < N
      modifies states, permits
      ensures Shaped()
      ensures View() == GrantStep(old(View()), i)
    {
      if states[i] == Hungry && states[Left(i)] != Eating && states[Right(i)] != Eating {
        states[i] := Eating;
        permits[i] := permits[i] + 1;
      }
    }

    /** The critical section of take_forks(i): i becomes hungry and tries to
        get its forks.  The thread of i enters it with its earlier grants
        consumed. */
    method TakeForks(i: int)
      requires Valid() && 0 <= i < N && permits[i] == 0
      modifies states, permits
      ensures Valid()
      ensures View() == TakeStep(old(View()), i)
    {
      ghost var before := View();
      states[i] := Hungry;
      assert View() == Table(before.states[i := Hungry], before.permits);
      TryToGetForks(i);
      TakeStepSafe(before, i);
    }

    /** The wait of take_forks(i) on s[i], outside the mutex.  It returns
        only once s[i] holds a permit, and takes it; at that point i is
        eating.  That i is still eating at run's later check is proved by
        Protocol.CheckAfterAcquire. */
    method Acquire(i: int)
      requires Valid() && 0 <= i < N && permits[i] > 0
      modifies permits
      ensures Valid()
      ensures View() == AcquireStep(old(View()), i)
      ensures states[i] == Eating
    {
      ghost var before := View();
      AcquireStepSafe(before, i);
      permits[i] := permits[i] - 1;
      assert View() == AcquireStep(before, i);
    }

    /** The critical section of put_forks(i): i thinks again, then its left
        and its right neighbour try to get their forks. */
    method PutForks(i: int)
      requires Valid() && 0 <= i < N && permits[i] == 0
      modifies states, permits
      ensures Valid()
      ensures View() == PutStep(old(View()), i)
    {
      ghost var before := View();
      states[i] := Thinking;
      assert View() == Table(before.states[i := Thinking], before.permits);
      TryToGetForks(Left(i));
      TryToGetForks(Right(i));
      PutStepSafe(before, i);
    }
  }

  /** One round of the scenario in which philosopher 1 waits for 0: the
      methods compose as the protocol says, and the invariant is kept. */
  method HandOverOnTable() returns (t: SharedTable)
    ensures t.Valid()
    ensures t.View() == Table([Thinking, Eating, Thinking], [0, 0, 0])
  {
    t := new SharedTable();
    t.TakeForks(0);
    t.Acquire(0);
    t.TakeForks(1);
    assert t.permits[1] == 0;
    t.PutForks(0);
    t.Acquire(1);
  }
}
