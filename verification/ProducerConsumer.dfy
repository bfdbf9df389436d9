/**
 The producer and the consumer of benchtests/bench-pthread-locks.c, as the interleaved steps of
 two threads that share a counter, a mutex and two condition variables.  Any step that is
 possible may come next, and a waiting thread may wake up without a signal at any time.
 */
module ProducerConsumer {

  datatype Thread = Producer | Consumer
  {
    function Other(): Thread {
      if Producer? then Consumer else Producer
    }
  }

  /**
   Where a thread is in its loop: before taking the mutex, about to look at the queue, waiting,
   woken up but without the mutex, about to change the queue, to signal, or to release the mutex.
   */
  datatype Place = Outside | Checking | Asleep | Awake | Acting | Signalling | Unlocking

  datatype Mutex = Free | HeldBy(t: Thread)

  /** The place of a thread and the number of rounds it still has before it. */
  datatype Local = Local(place: Place, left: int)

  /** Both threads go around `n` times. */
  datatype State = State(queued: int, mutex: Mutex, producer: Local, consumer: Local, n: nat)
  {
    function Of(t: Thread): Local {
      if t.Producer? then producer else consumer
    }

    function Put(t: Thread, l: Local): State {
      if t.Producer? then this.(producer := l) else this.(consumer := l)
    }

    function Move(t: Thread, to: Place): State {
      Put(t, Of(t).(place := to))
    }

    /** The condition for which a thread waits does not hold yet. */
    predicate Blocked(t: Thread) {
      if t.Producer? then queued > 0 else queued == 0
    }

    /** The thread has gone around as often as it should. */
    predicate Finished(t: Thread) {
      Of(t).place == Outside && Of(t).left == 0
    }
  }

  function Initial(n: nat): State {
    State(0, Free, Local(Outside, n), Local(Outside, n), n)
  }

  datatype Step = Lock(t: Thread) | Check(t: Thread) | Act(t: Thread) | Signal(t: Thread) | Unlock(t: Thread) |
                  Relock(t: Thread) | WakeUp(t: Thread)

  predicate Enabled(s: State, a: Step) {
    var at := s.Of(a.t).place;
    match a
    case Lock(t) => at == Outside && s.Of(t).left > 0 && s.mutex == Free
    case Check(t) => at == Checking
    case Act(t) => at == Acting
    case Signal(t) => at == Signalling
    case Unlock(t) => at == Unlocking
    case Relock(t) => at == Awake && s.mutex == Free
    case WakeUp(t) => at == Asleep
  }

  /** The state after a step. */
  function Next(s: State, a: Step): State
    requires Enabled(s, a)
  {
    match a
    case Lock(t) => s.Move(t, Checking).(mutex := HeldBy(t))
    case Check(t) => if s.Blocked(t) then s.Move(t, Asleep).(mutex := Free) else s.Move(t, Acting)
    case Act(t) => s.Move(t, Signalling).(queued := if t.Producer? then s.queued + 1 else s.queued - 1)
    case Signal(t) =>
      var s1 := s.Move(t, Unlocking);
      if s.Of(t.Other()).place == Asleep then s1.Move(t.Other(), Awake) else s1
    case Unlock(t) => s.Put(t, Local(Outside, s.Of(t).left - 1)).(mutex := Free)
    case Relock(t) => s.Move(t, Checking).(mutex := HeldBy(t))
    case WakeUp(t) => s.Move(t, Awake)
  }

  // ---------- The invariant ----------

  predicate HoldsMutex(p: Place) {
    p == Checking || p == Acting || p == Signalling || p == Unlocking
  }

  /** How often a thread has changed the queue. */
  function Acts(s: State, t: Thread): int {
    s.n - s.Of(t).left + if s.Of(t).place == Signalling || s.Of(t).place == Unlocking then 1 else 0
  }

  predicate ThreadOk(s: State, t: Thread) {
    var at := s.Of(t).place;
    && (HoldsMutex(at) <==> s.mutex == HeldBy(t))
    && 0 <= s.Of(t).left <= s.n && (at != Outside ==> s.Of(t).left > 0)
    && (at == Acting ==> !s.Blocked(t))
    && (at == Signalling || at == Unlocking ==> s.Blocked(t))
    // no wakeup is lost: a sleeper waits with reason, or is about to be signalled
    && (at == Asleep ==> s.Blocked(t) || s.Of(t.Other()).place == Signalling)
  }

  /** Mutual exclusion, a queue of at most one item, and every item accounted for. */
  predicate Inv(s: State) {
    && ThreadOk(s, Producer) && ThreadOk(s, Consumer)
    && 0 <= s.queued <= 1 && Acts(s, Producer) - Acts(s, Consumer) == s.queued
  }

  lemma InvStep(s: State, a: Step)
    requires Inv(s) && Enabled(s, a)
    ensures Inv(Next(s, a))
  {
  }

  /** The states reached by a run: any sequence of steps, each possible when it is taken. */
  predicate IsRun(s: State, steps: seq<Step>)
    decreases |steps|
  {
    steps == [] || (Enabled(s, steps[0]) && IsRun(Next(s, steps[0]), steps[1..]))
  }

  function After(s: State, steps: seq<Step>): State
    requires IsRun(s, steps)
    decreases |steps|
  {
    if steps == [] then s else After(Next(s, steps[0]), steps[1..])
  }

  lemma {:induction false} InvRun(s: State, steps: seq<Step>)
    requires Inv(s) && IsRun(s, steps)
    ensures Inv(After(s, steps)) && After(s, steps).n == s.n
    decreases |steps|
  {
    if steps != [] {
      InvStep(s, steps[0]);
      InvRun(Next(s, steps[0]), steps[1..]);
    }
  }

  // ---------- No deadlock ----------

  /** Some step other than a spurious wakeup is possible. */
  ghost predicate CanMove(s: State) {
    exists a: Step :: !a.WakeUp? && Enabled(s, a)
  }

  lemma StepOf(s: State, t: Thread)
    requires Inv(s) && (s.mutex == HeldBy(t) || (s.mutex == Free && s.Of(t).place != Asleep && !s.Finished(t)))
    ensures CanMove(s)
  {
    match s.Of(t).place {
      case Outside => assert Enabled(s, Lock(t));
      case Checking => assert Enabled(s, Check(t));
      case Awake => assert Enabled(s, Relock(t));
      case Acting => assert Enabled(s, Act(t));
      case Signalling => assert Enabled(s, Signal(t));
      case Unlocking => assert Enabled(s, Unlock(t));
    }
  }

  /**
   In every state of every run: the queue holds at most one item, and what was produced less
   what was consumed; the threads do not both sleep; neither sleeps once the other has finished;
   and unless both have finished, some thread can go on without a spurious wakeup.
   */
  lemma NoDeadlock(n: nat, steps: seq<Step>)
    requires IsRun(Initial(n), steps)
    ensures var s := After(Initial(n), steps);
      && 0 <= s.queued <= 1 && Acts(s, Producer) - Acts(s, Consumer) == s.queued
      && !(s.producer.place == Asleep && s.consumer.place == Asleep)
      && (forall t :: s.Finished(t) ==> s.Of(t.Other()).place != Asleep)
      && (CanMove(s) || (s.Finished(Producer) && s.Finished(Consumer)))
      && (s.Finished(Producer) && s.Finished(Consumer) ==> s.queued == 0 && Acts(s, Producer) == Acts(s, Consumer) == n)
  {
    hide CanMove;
    hide After;
    var s := After(Initial(n), steps);
    InvRun(Initial(n), steps);
    forall t | s.Finished(t) ensures s.Of(t.Other()).place != Asleep {
      assert t == Producer || t == Consumer;
    }
    if s.mutex.HeldBy? {
      StepOf(s, s.mutex.t);
    } else if s.producer.place != Asleep && !s.Finished(Producer) {
      StepOf(s, Producer);
    } else if s.consumer.place != Asleep && !s.Finished(Consumer) {
      StepOf(s, Consumer);
    }
  }

  // ---------- Every run comes to its end ----------

  function Weight(p: Place): nat {
    match p
    case Asleep => 0
    case Acting => 0
    case Checking => 1
    case Awake => 2
    case Outside => 2
    case Unlocking => 3
    case Signalling => 6
  }

  /** A bound on the steps still to come; changing the queue pays for the wakeup it causes. */
  function Work(s: State): int {
    7 * (s.n - Acts(s, Producer)) + 7 * (s.n - Acts(s, Consumer)) + Weight(s.producer.place) + Weight(s.consumer.place)
  }

  lemma WorkStep(s: State, a: Step)
    requires Inv(s) && Enabled(s, a)
    ensures 0 <= Work(Next(s, a)) <= Work(s) + if a.WakeUp? then 2 else -1
  {
  }

  function WakeUps(steps: seq<Step>): nat {
    if steps == [] then 0 else (if steps[0].WakeUp? then 1 else 0) + WakeUps(steps[1..])
  }

  lemma {:induction false} WorkRun(s: State, steps: seq<Step>)
    requires Inv(s) && IsRun(s, steps)
    ensures |steps| + Work(After(s, steps)) <= Work(s) + 3 * WakeUps(steps) && Work(After(s, steps)) >= 0
    decreases |steps|
  {
    if steps != [] {
      InvStep(s, steps[0]);
      WorkStep(s, steps[0]);
      WorkRun(Next(s, steps[0]), steps[1..]);
    }
  }

  /**
   However the threads are scheduled, a run of `n` rounds has at most 14n + 4 steps, and 3 more for
   every spurious wakeup.
   */
  lemma RunsEnd(n: nat, steps: seq<Step>)
    requires IsRun(Initial(n), steps)
    ensures |steps| <= 14 * n + 4 + 3 * WakeUps(steps)
  {
    WorkRun(Initial(n), steps);
  }
}
