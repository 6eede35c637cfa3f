/**
 * The recursive mutexes of dolphin_os.c as a state machine over any number of threads.  Each stretch with
 * interrupts disabled is one step; a thread put to sleep takes no step until the mutex is released, which
 * wakes every thread asleep on it.
 */
module MutexModel {

  /** What has happened, seen from outside: successful locks, unlocks by the owner, and release of all. */
  datatype Event<T, M> = Locked(thread: T, mutex: M) | Unlocked(thread: T, mutex: M) | UnlockedAll(thread: T)

  datatype State<T(==), M(==)> = State(
    threads: set<T>, mutexes: set<M>,
    owner: map<M, T>, count: map<M, nat>, owned: map<T, seq<M>>, asleep: map<M, set<T>>,
    trace: seq<Event<T, M>>)

  /** The number of locks of `m` by `t` not yet matched by an unlock. */
  function Depth<T(==), M(==)>(trace: seq<Event<T, M>>, t: T, m: M): nat {
    if trace == [] then 0
    else
      var d := Depth(trace[..|trace| - 1], t, m);
      match trace[|trace| - 1]
      case Locked(u, n) => if u == t && n == m then d + 1 else d
      case Unlocked(u, n) => if u == t && n == m && d > 0 then d - 1 else d
      case UnlockedAll(u) => if u == t then 0 else d
  }

  predicate NoDup<M(==)>(s: seq<M>) {
    forall i, j | 0 <= i < j < |s| :: s[i] != s[j]
  }

  predicate Shape<T(==), M(==)>(s: State<T, M>) {
    && s.owned.Keys == s.threads && s.asleep.Keys == s.mutexes
    && s.owner.Keys == s.count.Keys <= s.mutexes
    && (forall m | m in s.owner :: s.owner[m] in s.threads)
  }

  /** The owner lists hold exactly the owned mutexes, each once and under its owner only. */
  predicate Lists<T(==), M(==)>(s: State<T, M>)
    requires Shape(s)
  {
    && (forall t | t in s.threads :: NoDup(s.owned[t]))
    && (forall t, m | t in s.threads && m in s.owned[t] :: m in s.owner && s.owner[m] == t)
    && (forall m | m in s.owner :: m in s.owned[s.owner[m]])
  }

  /** The count of an owned mutex is its owner's number of unmatched locks; nobody else has any. */
  predicate Counts<T(==), M(==)>(s: State<T, M>)
    requires Shape(s)
  {
    && (forall m | m in s.owner :: s.count[m] > 0)
    && (forall t, m | t in s.threads && m in s.mutexes ::
          Depth(s.trace, t, m) == if m in s.owner && s.owner[m] == t then s.count[m] else 0)
  }

  /** No lost wake-up: a thread asleep on a mutex waits for another thread, which owns it. */
  predicate Waits<T(==), M(==)>(s: State<T, M>)
    requires Shape(s)
  {
    forall m, t | m in s.mutexes && t in s.asleep[m] :: m in s.owner && s.owner[m] != t
  }

  predicate Inv<T(==), M(==)>(s: State<T, M>) {
    Shape(s) && Lists(s) && Counts(s) && Waits(s)
  }

  function Init<T(==), M(==)>(threads: set<T>, mutexes: set<M>): State<T, M> {
    State(threads, mutexes, map[], map[], map t | t in threads :: [], map m | m in mutexes :: {}, [])
  }

  /** The first lock of a free mutex. */
  function Take<T(==), M(==)>(s: State<T, M>, t: T, m: M): State<T, M>
    requires Shape(s) && t in s.threads
  {
    s.(owner := s.owner[m := t], count := s.count[m := 1], owned := s.owned[t := s.owned[t] + [m]],
       trace := s.trace + [Locked(t, m)])
  }

  function Again<T(==), M(==)>(s: State<T, M>, t: T, m: M): State<T, M>
    requires Shape(s) && m in s.owner
  {
    s.(count := s.count[m := s.count[m] + 1], trace := s.trace + [Locked(t, m)])
  }

  /** One turn of the loop of OSLockMutex. */
  function LockStep<T(==), M(==)>(s: State<T, M>, t: T, m: M): State<T, M>
    requires Shape(s) && t in s.threads && m in s.mutexes
  {
    if m !in s.owner then Take(s, t, m)
    else if s.owner[m] == t then Again(s, t, m)
    else s.(asleep := s.asleep[m := s.asleep[m] + {t}])
  }

  /** OSTryLockMutex. */
  function TryLockStep<T(==), M(==)>(s: State<T, M>, t: T, m: M): State<T, M>
    requires Shape(s) && t in s.threads && m in s.mutexes
  {
    if m !in s.owner then Take(s, t, m) else if s.owner[m] == t then Again(s, t, m) else s
  }

  function Without<M(==)>(s: seq<M>, m: M): seq<M> {
    if s == [] then [] else if s[0] == m then s[1..] else [s[0]] + Without(s[1..], m)
  }

  /** OSUnlockMutex. */
  function UnlockStep<T(==), M(==)>(s: State<T, M>, t: T, m: M): State<T, M>
    requires Shape(s) && t in s.threads && m in s.mutexes
  {
    if m !in s.owner || s.owner[m] != t then s
    else if s.count[m] == 1 then
      s.(owner := s.owner - {m}, count := s.count - {m}, owned := s.owned[t := Without(s.owned[t], m)],
         asleep := s.asleep[m := {}], trace := s.trace + [Unlocked(t, m)])
    else s.(count := s.count[m := if s.count[m] > 0 then s.count[m] - 1 else 0], trace := s.trace + [Unlocked(t, m)])
  }

  function AsSet<M(==)>(s: seq<M>): set<M> {
    set m | m in s
  }

  /** __OSUnlockAllMutex. */
  function UnlockAllStep<T(==), M(==)>(s: State<T, M>, t: T): State<T, M>
    requires Shape(s) && t in s.threads
  {
    var gone := AsSet(s.owned[t]);
    s.(owner := s.owner - gone, count := s.count - gone, owned := s.owned[t := []],
       asleep := map m | m in s.mutexes :: (if m in gone then {} else s.asleep[m]),
       trace := s.trace + [UnlockedAll(t)])
  }

  lemma DepthAppend<T, M>(trace: seq<Event<T, M>>, e: Event<T, M>, t: T, m: M)
    ensures var d := Depth(trace, t, m);
            Depth(trace + [e], t, m) ==
            match e
            case Locked(u, n) => if u == t && n == m then d + 1 else d
            case Unlocked(u, n) => if u == t && n == m && d > 0 then d - 1 else d
            case UnlockedAll(u) => if u == t then 0 else d
  {
    assert (trace + [e])[..|trace|] == trace;
  }

  lemma DepthsAppend<T, M>(s: State<T, M>, e: Event<T, M>)
    requires Shape(s)
    ensures forall t, m | t in s.threads && m in s.mutexes ::
              Depth(s.trace + [e], t, m) ==
              var d := Depth(s.trace, t, m);
              match e
              case Locked(u, n) => if u == t && n == m then d + 1 else d
              case Unlocked(u, n) => if u == t && n == m && d > 0 then d - 1 else d
              case UnlockedAll(u) => if u == t then 0 else d
  {
    forall t, m | t in s.threads && m in s.mutexes
      ensures Depth(s.trace + [e], t, m) ==
              var d := Depth(s.trace, t, m);
              match e
              case Locked(u, n) => if u == t && n == m then d + 1 else d
              case Unlocked(u, n) => if u == t && n == m && d > 0 then d - 1 else d
              case UnlockedAll(u) => if u == t then 0 else d
    {
      DepthAppend(s.trace, e, t, m);
    }
  }

  lemma OwnedBy<T, M>(s: State<T, M>, t: T, m: M)
    requires Shape(s) && Lists(s) && t in s.threads && m in s.owned[t]
    ensures m in s.owner && s.owner[m] == t
  {}

  lemma TakeLists<T, M>(s: State<T, M>, t: T, m: M)
    requires Shape(s) && Lists(s) && t in s.threads && m in s.mutexes && m !in s.owner
    ensures Shape(Take(s, t, m)) && Lists(Take(s, t, m))
  {
    var s' := Take(s, t, m);
    forall u, n | u in s'.threads && n in s'.owned[u] ensures n in s'.owner && s'.owner[n] == u {
      assert s'.owned[u] == if u == t then s.owned[t] + [m] else s.owned[u];
      if n in s.owned[u] {
        OwnedBy(s, u, n);
      }
    }
    if m in s.owned[t] {
      OwnedBy(s, t, m);
      assert false;
    }
  }

  lemma TakeCounts<T, M>(s: State<T, M>, t: T, m: M)
    requires Shape(s) && Counts(s) && t in s.threads && m in s.mutexes && m !in s.owner && Shape(Take(s, t, m))
    ensures Counts(Take(s, t, m))
  {
    hide Depth;
    DepthsAppend(s, Locked(t, m));
  }

  lemma TakeWaits<T, M>(s: State<T, M>, t: T, m: M)
    requires Shape(s) && Waits(s) && t in s.threads && m in s.mutexes && m !in s.owner && Shape(Take(s, t, m))
    ensures Waits(Take(s, t, m))
  {}

  lemma TakeInv<T, M>(s: State<T, M>, t: T, m: M)
    requires Inv(s) && t in s.threads && m in s.mutexes && m !in s.owner
    ensures Inv(Take(s, t, m))
  {
    hide Lists, Counts, Waits, Take, Shape;
    TakeLists(s, t, m);
    TakeCounts(s, t, m);
    TakeWaits(s, t, m);
  }

  lemma AgainInv<T, M>(s: State<T, M>, t: T, m: M)
    requires Inv(s) && t in s.threads && m in s.mutexes && m in s.owner && s.owner[m] == t
    ensures Inv(Again(s, t, m))
  {
    hide Depth;
    DepthsAppend(s, Locked(t, m));
  }

  /** A thread asleep takes no step. */
  predicate Awake<T(==), M(==)>(s: State<T, M>, t: T)
    requires Shape(s)
  {
    forall m | m in s.mutexes :: t !in s.asleep[m]
  }

  lemma LockInv<T, M>(s: State<T, M>, t: T, m: M)
    requires Inv(s) && t in s.threads && m in s.mutexes
    ensures Inv(LockStep(s, t, m)) && Inv(TryLockStep(s, t, m))
  {
    hide Depth, Take, Again;
    if m !in s.owner {
      TakeInv(s, t, m);
    } else if s.owner[m] == t {
      AgainInv(s, t, m);
    }
  }

  lemma {:induction false} WithoutIs<M>(s: seq<M>, m: M)
    requires NoDup(s)
    ensures NoDup(Without(s, m)) && m !in Without(s, m)
    ensures forall x | x in Without(s, m) :: x in s && x != m
    ensures forall x | x in s && x != m :: x in Without(s, m)
  {
    if s != [] && s[0] != m {
      assert s == [s[0]] + s[1..];
      WithoutIs(s[1..], m);
      assert s[0] !in s[1..];
    } else if s != [] {
      assert s == [s[0]] + s[1..];
      assert m !in s[1..];
    }
  }

  lemma UnlockShape<T, M>(s: State<T, M>, t: T, m: M)
    requires Shape(s) && t in s.threads && m in s.mutexes
    ensures Shape(UnlockStep(s, t, m))
  {
    hide Without;
  }

  lemma UnlockLists<T, M>(s: State<T, M>, t: T, m: M)
    requires Shape(s) && Lists(s) && t in s.threads && m in s.mutexes && Shape(UnlockStep(s, t, m))
    ensures Lists(UnlockStep(s, t, m))
  {
    hide NoDup, Without;
    WithoutIs(s.owned[t], m);
    var s' := UnlockStep(s, t, m);
    var w := Without(s.owned[t], m);
    if m in s.owner && s.owner[m] == t && s.count[m] == 1 {
      assert s'.owned[t] == w;
      forall u, n | u in s'.threads && n in s'.owned[u] ensures n in s'.owner && s'.owner[n] == u {
        assert s'.owned[u] == if u == t then w else s.owned[u];
        if u == t {
          assert n in w;
          assert n in s.owned[t] && n != m;
        } else {
          assert n in s.owned[u];
        }
        OwnedBy(s, u, n);
      }
      forall n | n in s'.owner ensures n in s'.owned[s'.owner[n]] {
        assert n != m && n in s.owned[s.owner[n]];
      }
    }
  }

  lemma UnlockCounts<T, M>(s: State<T, M>, t: T, m: M)
    requires Shape(s) && Counts(s) && t in s.threads && m in s.mutexes && Shape(UnlockStep(s, t, m))
    ensures Counts(UnlockStep(s, t, m))
  {
    hide Without, Depth;
    DepthsAppend(s, Unlocked(t, m));
  }

  lemma UnlockWaits<T, M>(s: State<T, M>, t: T, m: M)
    requires Shape(s) && Waits(s) && t in s.threads && m in s.mutexes && Shape(UnlockStep(s, t, m))
    ensures Waits(UnlockStep(s, t, m))
  {
    hide Without;
  }

  lemma UnlockInv<T, M>(s: State<T, M>, t: T, m: M)
    requires Inv(s) && t in s.threads && m in s.mutexes
    ensures Inv(UnlockStep(s, t, m))
  {
    hide Lists, Counts, Waits, UnlockStep, Shape;
    UnlockShape(s, t, m);
    UnlockLists(s, t, m);
    UnlockCounts(s, t, m);
    UnlockWaits(s, t, m);
  }

  lemma UnlockAllShape<T, M>(s: State<T, M>, t: T)
    requires Shape(s) && t in s.threads
    ensures Shape(UnlockAllStep(s, t))
  {}

  lemma UnlockAllLists<T, M>(s: State<T, M>, t: T)
    requires Shape(s) && Lists(s) && t in s.threads && Shape(UnlockAllStep(s, t))
    ensures Lists(UnlockAllStep(s, t))
  {
    var s' := UnlockAllStep(s, t);
    forall u, n | u in s'.threads && n in s'.owned[u] ensures n in s'.owner && s'.owner[n] == u {
      assert u != t && n in s.owned[u];
      OwnedBy(s, u, n);
      if n in s.owned[t] {
        OwnedBy(s, t, n);
      }
    }
  }

  lemma UnlockAllCounts<T, M>(s: State<T, M>, t: T)
    requires Shape(s) && Lists(s) && Counts(s) && t in s.threads && Shape(UnlockAllStep(s, t))
    ensures Counts(UnlockAllStep(s, t))
  {
    hide Depth;
    DepthsAppend(s, UnlockedAll(t));
  }

  lemma UnlockAllWaits<T, M>(s: State<T, M>, t: T)
    requires Shape(s) && Waits(s) && t in s.threads && Shape(UnlockAllStep(s, t))
    ensures Waits(UnlockAllStep(s, t))
  {}

  lemma UnlockAllInv<T, M>(s: State<T, M>, t: T)
    requires Inv(s) && t in s.threads
    ensures Inv(UnlockAllStep(s, t))
  {
    hide Lists, Counts, Waits, UnlockAllStep, Shape;
    UnlockAllShape(s, t);
    UnlockAllLists(s, t);
    UnlockAllCounts(s, t);
    UnlockAllWaits(s, t);
  }

  // ----- runs -----

  datatype Step<T, M> = Lock(thread: T, mutex: M) | TryLock(thread: T, mutex: M) | Unlock(thread: T, mutex: M)
                      | UnlockAll(thread: T)

  /** A running thread of the system acts on one of its mutexes; UnlockAll is done on behalf of a thread. */
  predicate Allowed<T(==), M(==)>(s: State<T, M>, step: Step<T, M>)
    requires Shape(s)
  {
    step.thread in s.threads &&
    (!step.UnlockAll? ==> step.mutex in s.mutexes && Awake(s, step.thread))
  }

  function Next<T(==), M(==)>(s: State<T, M>, step: Step<T, M>): State<T, M>
    requires Shape(s) && Allowed(s, step)
  {
    match step
    case Lock(t, m) => LockStep(s, t, m)
    case TryLock(t, m) => TryLockStep(s, t, m)
    case Unlock(t, m) => UnlockStep(s, t, m)
    case UnlockAll(t) => UnlockAllStep(s, t)
  }

  predicate AllowedRun<T(==), M(==)>(s: State<T, M>, steps: seq<Step<T, M>>)
    decreases |steps|
  {
    steps == [] || (Shape(s) && Allowed(s, steps[0]) && AllowedRun(Next(s, steps[0]), steps[1..]))
  }

  function Run<T(==), M(==)>(s: State<T, M>, steps: seq<Step<T, M>>): State<T, M>
    requires AllowedRun(s, steps)
    decreases |steps|
  {
    if steps == [] then s else Run(Next(s, steps[0]), steps[1..])
  }

  lemma InitInv<T, M>(threads: set<T>, mutexes: set<M>)
    ensures Inv(Init(threads, mutexes))
  {}

  lemma StepInv<T, M>(s: State<T, M>, step: Step<T, M>)
    requires Inv(s) && Allowed(s, step)
    ensures Inv(Next(s, step))
  {
    hide Inv, LockStep, TryLockStep, UnlockStep, UnlockAllStep;
    match step
    case Lock(t, m) => LockInv(s, t, m);
    case TryLock(t, m) => LockInv(s, t, m);
    case Unlock(t, m) => UnlockInv(s, t, m);
    case UnlockAll(t) => UnlockAllInv(s, t);
  }

  /** Every interleaving of the four operations by any threads keeps the invariant. */
  lemma {:induction false} RunInv<T, M>(s: State<T, M>, steps: seq<Step<T, M>>)
    requires Inv(s) && AllowedRun(s, steps)
    ensures Inv(Run(s, steps))
    decreases |steps|
  {
    hide Inv, Next, Allowed;
    if steps != [] {
      StepInv(s, steps[0]);
      RunInv(Next(s, steps[0]), steps[1..]);
    }
  }

  /** Mutual exclusion: two threads never both have unmatched locks of one mutex. */
  lemma Exclusion<T, M>(threads: set<T>, mutexes: set<M>, steps: seq<Step<T, M>>, t: T, u: T, m: M)
    requires AllowedRun(Init(threads, mutexes), steps)
    requires var s := Run(Init(threads, mutexes), steps); t in s.threads && u in s.threads && m in s.mutexes
    requires var s := Run(Init(threads, mutexes), steps); Depth(s.trace, t, m) > 0 && Depth(s.trace, u, m) > 0
    ensures t == u
  {
    hide Depth, Run;
    InitInv(threads, mutexes);
    RunInv(Init(threads, mutexes), steps);
  }

  /** Releasing a mutex wakes everyone asleep on it, and nobody falls asleep on a free mutex. */
  lemma NoLostWakeup<T, M>(threads: set<T>, mutexes: set<M>, steps: seq<Step<T, M>>)
    requires AllowedRun(Init(threads, mutexes), steps)
    ensures var s := Run(Init(threads, mutexes), steps);
            Shape(s) && forall m, t | m in s.mutexes && t in s.asleep[m] :: m in s.owner && s.owner[m] != t
  {
    hide Run, Lists, Counts;
    InitInv(threads, mutexes);
    RunInv(Init(threads, mutexes), steps);
  }
}
