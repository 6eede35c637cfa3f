/**
 * What each call on a mutex does to the number of unmatched locks, to the owner and to the sleepers, and that
 * locks and unlocks cancel.
 */
module MutexLaws {
  import opened MutexModel

  /** Nobody else's locks change, nor any of other mutexes. */
  ghost predicate OthersKept<T, M>(s: State<T, M>, s': State<T, M>, t: T, m: M)
    requires Shape(s) && Shape(s')
  {
    && s'.threads == s.threads && s'.mutexes == s.mutexes
    && (forall u, n | u in s.threads && n in s.mutexes && (u != t || n != m) :: Depth(s'.trace, u, n) == Depth(s.trace, u, n))
    && (forall n | n in s.mutexes && n != m ::
          (n in s'.owner <==> n in s.owner) && (n in s.owner ==> s'.owner[n] == s.owner[n]) && s'.asleep[n] == s.asleep[n])
  }

  /** A lock of a mutex that is free or one's own: one unmatched lock more, and the thread owns it. */
  lemma LockTakes<T, M>(s: State<T, M>, t: T, m: M)
    requires Inv(s) && t in s.threads && m in s.mutexes && (m in s.owner ==> s.owner[m] == t)
    ensures var s' := LockStep(s, t, m);
            && s' == TryLockStep(s, t, m) && Inv(s') && OthersKept(s, s', t, m)
            && Depth(s'.trace, t, m) == Depth(s.trace, t, m) + 1
            && m in s'.owner && s'.owner[m] == t && s'.asleep[m] == s.asleep[m]
  {
    hide Depth, Lists, Waits;
    LockInv(s, t, m);
    DepthsAppend(s, Locked(t, m));
  }

  /** A lock of somebody else's mutex: the thread sleeps on it, and nothing else changes; a try does nothing. */
  lemma LockWaits<T, M>(s: State<T, M>, t: T, m: M)
    requires Inv(s) && t in s.threads && m in s.mutexes && m in s.owner && s.owner[m] != t
    ensures LockStep(s, t, m) == s.(asleep := s.asleep[m := s.asleep[m] + {t}]) && TryLockStep(s, t, m) == s
    ensures Inv(LockStep(s, t, m))
  {
    hide Inv;
    LockInv(s, t, m);
  }

  /** The owner's unlock: one unmatched lock less, and the last one frees the mutex and wakes everyone. */
  lemma UnlockReleases<T, M>(s: State<T, M>, t: T, m: M)
    requires Inv(s) && t in s.threads && m in s.mutexes && m in s.owner && s.owner[m] == t
    ensures var s' := UnlockStep(s, t, m);
            && Inv(s') && OthersKept(s, s', t, m)
            && Depth(s.trace, t, m) > 0 && Depth(s'.trace, t, m) == Depth(s.trace, t, m) - 1
            && (Depth(s'.trace, t, m) == 0 ==> m !in s'.owner && s'.asleep[m] == {})
            && (Depth(s'.trace, t, m) > 0 ==> m in s'.owner && s'.owner[m] == t && s'.asleep[m] == s.asleep[m])
  {
    hide Depth, Lists, Waits, Without;
    UnlockInv(s, t, m);
    DepthsAppend(s, Unlocked(t, m));
  }

  /** Anybody else's unlock does nothing. */
  lemma UnlockIgnored<T, M>(s: State<T, M>, t: T, m: M)
    requires Shape(s) && t in s.threads && m in s.mutexes && (m in s.owner ==> s.owner[m] != t)
    ensures UnlockStep(s, t, m) == s
  {}

  /** Releasing all: no unmatched lock of the thread is left, what it owned is free, and everyone there is awake. */
  lemma UnlockAllReleases<T, M>(s: State<T, M>, t: T)
    requires Inv(s) && t in s.threads
    ensures var s' := UnlockAllStep(s, t);
            && Inv(s') && s'.threads == s.threads && s'.mutexes == s.mutexes
            && (forall u, n | u in s.threads && n in s.mutexes ::
                  Depth(s'.trace, u, n) == if u == t then 0 else Depth(s.trace, u, n))
            && (forall n | n in s.mutexes && n in s.owner && s.owner[n] == t :: n !in s'.owner && s'.asleep[n] == {})
            && (forall n | n in s.mutexes && (n !in s.owner || s.owner[n] != t) ::
                  (n in s'.owner <==> n in s.owner) && (n in s.owner ==> s'.owner[n] == s.owner[n]) && s'.asleep[n] == s.asleep[n])
  {
    hide Depth, Counts, Waits;
    UnlockAllInv(s, t);
    DepthsAppend(s, UnlockedAll(t));
    forall n | n in s.mutexes ensures n in AsSet(s.owned[t]) <==> n in s.owner && s.owner[n] == t {
      if n in s.owned[t] {
        OwnedBy(s, t, n);
      }
    }
  }

  /** `n` locks by one thread, one after the other. */
  ghost function LockedTimes<T, M>(s: State<T, M>, t: T, m: M, n: nat): (r: State<T, M>)
    requires Inv(s) && t in s.threads && m in s.mutexes
    decreases n
  {
    if n == 0 then s
    else
      LockInv(s, t, m);
      LockedTimes(LockStep(s, t, m), t, m, n - 1)
  }

  /** `n` unlocks by one thread, one after the other. */
  ghost function UnlockedTimes<T, M>(s: State<T, M>, t: T, m: M, n: nat): (r: State<T, M>)
    requires Inv(s) && t in s.threads && m in s.mutexes
    decreases n
  {
    if n == 0 then s
    else
      UnlockInv(s, t, m);
      UnlockedTimes(UnlockStep(s, t, m), t, m, n - 1)
  }

  lemma {:induction false} LocksAddUp<T, M>(s: State<T, M>, t: T, m: M, n: nat)
    requires Inv(s) && t in s.threads && m in s.mutexes && (m in s.owner ==> s.owner[m] == t)
    ensures var r := LockedTimes(s, t, m, n);
            && Inv(r) && OthersKept(s, r, t, m) && Depth(r.trace, t, m) == Depth(s.trace, t, m) + n
            && (n > 0 ==> m in r.owner && r.owner[m] == t)
    decreases n
  {
    hide Lists, Counts, Waits, Depth, LockStep, TryLockStep;
    if n > 0 {
      LockTakes(s, t, m);
      LocksAddUp(LockStep(s, t, m), t, m, n - 1);
    }
  }

  lemma {:induction false} UnlocksCountDown<T, M>(s: State<T, M>, t: T, m: M, n: nat)
    requires Inv(s) && t in s.threads && m in s.mutexes && m in s.owner && s.owner[m] == t
    requires 0 < n == Depth(s.trace, t, m)
    ensures var r := UnlockedTimes(s, t, m, n);
            && Inv(r) && OthersKept(s, r, t, m) && Depth(r.trace, t, m) == 0 && m !in r.owner && r.asleep[m] == {}
    decreases n
  {
    hide Lists, Counts, Waits, Depth, UnlockStep;
    UnlockReleases(s, t, m);
    if n > 1 {
      UnlocksCountDown(UnlockStep(s, t, m), t, m, n - 1);
    }
  }

  /** Locking a free mutex any number of times and unlocking it as often leaves it free, with nobody asleep on it. */
  lemma LocksAndUnlocks<T, M>(s: State<T, M>, t: T, m: M, n: nat)
    requires Inv(s) && t in s.threads && m in s.mutexes && m !in s.owner && n > 0
    ensures var l := LockedTimes(s, t, m, n);
            && Inv(l) && t in l.threads && m in l.mutexes
            && var r := UnlockedTimes(l, t, m, n);
               Inv(r) && OthersKept(s, r, t, m) && m !in r.owner && r.asleep[m] == {}
  {
    hide Waits, Depth, LockedTimes, UnlockedTimes;
    LocksAddUp(s, t, m, n);
    UnlocksCountDown(LockedTimes(s, t, m, n), t, m, n);
  }
}
