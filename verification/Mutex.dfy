/** The mutexes of dolphin_os.c on the heap: intrusive doubly linked owner lists refining the state machine. */
module Mutex {
  import opened MutexModel

  /** OSMutex; `queue` is the set of threads asleep on it. */
  class Mutex {
    var thread: Thread?
    var count: nat
    var next: Mutex?
    var prev: Mutex?
    var queue: set<Thread>

    /** OSInitMutex. */
    constructor ()
      ensures thread == null && count == 0 && queue == {}
    {
      thread, count, next, prev, queue := null, 0, null, null, {};
    }
  }

  /** The parts of OSThread that matter here: the owner list and the mutex waited for. */
  class Thread {
    var head: Mutex?
    var tail: Mutex?
    var waiting: Mutex?

    constructor ()
      ensures head == tail == null
    {
      head, tail, waiting := null, null, null;
    }
  }

  /** `nodes` are the mutexes of the list from head to tail. */
  ghost predicate Dll(head: Mutex?, tail: Mutex?, nodes: seq<Mutex>)
    reads (set m | m in nodes)`next, (set m | m in nodes)`prev
  {
    && NoDup(nodes)
    && (if nodes == [] then head == null && tail == null
        else head == nodes[0] && tail == nodes[|nodes| - 1] && nodes[0].prev == null && nodes[|nodes| - 1].next == null)
    && (forall i {:trigger nodes[i].next} | 0 <= i < |nodes| - 1 :: nodes[i].next == nodes[i + 1])
    && (forall i {:trigger nodes[i].prev} | 0 < i < |nodes| :: nodes[i].prev == nodes[i - 1])
  }

  /** PushTail. */
  method PushTail(t: Thread, m: Mutex, ghost nodes: seq<Mutex>)
    requires Dll(t.head, t.tail, nodes) && m !in nodes
    modifies t`head, t`tail, (set x | x in nodes + [m])`next, (set x | x in nodes + [m])`prev
    ensures Dll(t.head, t.tail, nodes + [m])
  {
    var prev := t.tail;
    if prev == null {
      t.head := m;
    } else {
      prev.next := m;
    }
    m.prev := prev;
    m.next := null;
    t.tail := m;
  }

  /** PopHead. */
  method PopHead(t: Thread, ghost nodes: seq<Mutex>) returns (m: Mutex)
    requires Dll(t.head, t.tail, nodes) && nodes != []
    modifies t`head, t`tail, (set x | x in nodes)`next, (set x | x in nodes)`prev
    ensures m == nodes[0] && Dll(t.head, t.tail, nodes[1..])
  {
    m := t.head;
    var next := m.next;
    if next == null {
      t.tail := null;
    } else {
      next.prev := null;
    }
    t.head := next;
  }

  /** PopItem, for the `k`-th mutex of the list. */
  method PopItem(t: Thread, m: Mutex, ghost nodes: seq<Mutex>, ghost k: nat)
    requires Dll(t.head, t.tail, nodes) && k < |nodes| && nodes[k] == m
    modifies t`head, t`tail, (set x | x in nodes)`next, (set x | x in nodes)`prev
    ensures Dll(t.head, t.tail, nodes[..k] + nodes[k + 1..])
  {
    var next := m.next;
    var prev := m.prev;
    if next == null {
      t.tail := prev;
    } else {
      next.prev := prev;
    }
    if prev == null {
      t.head := next;
    } else {
      prev.next := next;
    }
  }

  lemma {:induction false} WithoutAt(s: seq<Mutex>, m: Mutex, k: nat)
    requires NoDup(s) && k < |s| && s[k] == m
    ensures Without(s, m) == s[..k] + s[k + 1..]
  {
    if k > 0 {
      assert s[0] != m;
      WithoutAt(s[1..], m, k - 1);
      assert s[..k] + s[k + 1..] == [s[0]] + (s[1..][..k - 1] + s[1..][k..]);
    }
  }

  type Machine = State<Thread, Mutex>

  /** One mutex as the machine sees it. */
  ghost predicate MutexIs(s: Machine, m: Mutex)
    requires Shape(s) && m in s.mutexes
    reads m`thread, m`count, m`queue
  {
    && (if m in s.owner then m.thread == s.owner[m] && m.count == s.count[m] else m.thread == null && m.count == 0)
    && m.queue == s.asleep[m]
  }

  ghost predicate Mirrors(s: Machine)
    requires Shape(s)
    reads s.mutexes`thread, s.mutexes`count, s.mutexes`queue
  {
    forall m | m in s.mutexes :: MutexIs(s, m)
  }

  /** The owner list of every thread is on the heap what it is in the machine. */
  ghost predicate ListsOf(s: Machine)
    requires Shape(s)
    reads s.threads`head, s.threads`tail, s.mutexes`next, s.mutexes`prev
  {
    forall t | t in s.threads :: (forall m | m in s.owned[t] :: m in s.mutexes) && Dll(t.head, t.tail, s.owned[t])
  }

  lemma ListsSame(s: Machine, s': Machine)
    requires Shape(s) && Shape(s') && s'.threads == s.threads && s'.mutexes == s.mutexes && s'.owned == s.owned
    ensures ListsOf(s) ==> ListsOf(s')
  {
    hide Dll;
  }

  /** A system of threads and mutexes. */
  class Kernel {
    ghost var st: Machine

    ghost predicate Valid()
      reads this, st.threads, st.mutexes
    {
      Inv(st) && Mirrors(st) && ListsOf(st)
    }

    constructor (ghost threads: set<Thread>, ghost mutexes: set<Mutex>)
      requires forall t | t in threads :: t.head == t.tail == null
      requires forall m | m in mutexes :: m.thread == null && m.count == 0 && m.queue == {}
      ensures Valid() && st == Init(threads, mutexes)
    {
      st := Init(threads, mutexes);
      new;
      InitInv(threads, mutexes);
    }

    /** The mutexes of one list belong to its owner. */
    lemma OwnList(t: Thread)
      requires Shape(st) && Lists(st) && t in st.threads
      ensures Apart(t)
    {
      hide Counts, Waits;
      forall m | m in st.owned[t] ensures m in st.mutexes && m in st.owner && st.owner[m] == t {
        OwnedBy(st, t, m);
      }
      forall u, m | u in st.threads && u != t && m in st.owned[u] ensures m !in st.owned[t] {
        OwnedBy(st, u, m);
      }
    }

    /** No two owner lists share a mutex, so changing one leaves the others alone. */
    ghost predicate Apart(t: Thread)
      requires Shape(st)
      reads this
    {
      && t in st.threads && NoDup(st.owned[t])
      && (forall m | m in st.owned[t] :: m in st.mutexes)
      && (forall u, m | u in st.threads && u != t && m in st.owned[u] :: m !in st.owned[t])
    }

    method PushOwned(t: Thread, m: Mutex, ghost s': Machine)
      requires Shape(st) && ListsOf(st) && Apart(t) && m in st.mutexes
      requires forall u | u in st.threads :: m !in st.owned[u]
      requires Shape(s') && s'.threads == st.threads && s'.mutexes == st.mutexes
      requires s'.owned[t] == st.owned[t] + [m] && forall u | u in st.threads && u != t :: s'.owned[u] == st.owned[u]
      modifies t`head, t`tail, st.mutexes`next, st.mutexes`prev
      ensures ListsOf(s')
    {
      hide Dll, NoDup;
      PushTail(t, m, st.owned[t]);
    }

    method PopOwned(t: Thread, m: Mutex, ghost s': Machine)
      requires Shape(st) && ListsOf(st) && Apart(t) && m in st.owned[t]
      requires Shape(s') && s'.threads == st.threads && s'.mutexes == st.mutexes
      requires s'.owned[t] == Without(st.owned[t], m) && forall u | u in st.threads && u != t :: s'.owned[u] == st.owned[u]
      modifies t`head, t`tail, st.mutexes`next, st.mutexes`prev
      ensures ListsOf(s')
    {
      hide Dll, NoDup, Without;
      ghost var k :| 0 <= k < |st.owned[t]| && st.owned[t][k] == m;
      NoDupIs(st.owned[t]);
      WithoutAt(st.owned[t], m, k);
      WithoutIs(st.owned[t], m);
      PopItem(t, m, st.owned[t], k);
    }

    lemma NoDupIs(s: seq<Mutex>)
      requires NoDup(s)
      ensures forall i, j | 0 <= i < j < |s| :: s[i] != s[j]
    {}

    /** Lines 178-179 and 227-228. */
    method SetOwner(t: Thread, m: Mutex)
      requires Inv(st) && Mirrors(st) && t in st.threads && m in st.mutexes && m !in st.owner
      modifies m`thread, m`count
      ensures Shape(Take(st, t, m)) && Mirrors(Take(st, t, m))
    {
      hide Inv, Take;
      InvShape(st);
      TakeChanges(st, t, m);
      m.thread := t;
      m.count := m.count + 1;
    }

    /** The first lock of a free mutex (lines 178-181 and 227-230). */
    method Acquire(t: Thread, m: Mutex)
      requires Valid() && t in st.threads && m in st.mutexes && m !in st.owner
      modifies this, t, st.mutexes
      ensures Valid() && st == Take(old(st), t, m) && t.waiting == old(t.waiting)
    {
      hide ListsOf, Mirrors, Inv, Take, Apart;
      InvShape(st);
      OwnList(t);
      FreeUnlisted(m);
      TakeInv(st, t, m);
      TakeChanges(st, t, m);
      SetOwner(t, m);
      PushOwned(t, m, Take(st, t, m));
      st := Take(st, t, m);
    }

    lemma TakeChanges(s: Machine, t: Thread, m: Mutex)
      requires Inv(s) && t in s.threads && m in s.mutexes && m !in s.owner
      ensures var s' := Take(s, t, m);
              && Shape(s') && s'.threads == s.threads && s'.mutexes == s.mutexes
              && s'.owned[t] == s.owned[t] + [m] && (forall u | u in s.threads && u != t :: s'.owned[u] == s.owned[u])
              && m in s'.owner && s'.owner[m] == t && s'.count[m] == 1 && s'.asleep == s.asleep
              && (forall n | n in s.mutexes && n != m :: (n in s'.owner <==> n in s.owner) &&
                    (n in s.owner ==> s'.owner[n] == s.owner[n] && s'.count[n] == s.count[n]))
    {
      hide Counts, Waits, Lists;
    }

    /** A free mutex is in no list. */
    lemma FreeUnlisted(m: Mutex)
      requires Inv(st) && m !in st.owner
      ensures forall u | u in st.threads :: m !in st.owned[u]
    {
      hide Counts, Waits;
      forall u | u in st.threads ensures m !in st.owned[u] {
        if m in st.owned[u] {
          OwnedBy(st, u, m);
        }
      }
    }

    method Relock(t: Thread, m: Mutex)
      requires Valid() && t in st.threads && m in st.mutexes && m in st.owner && st.owner[m] == t
      modifies this, m`count
      ensures Valid() && st == Again(old(st), t, m)
    {
      hide Counts, Waits, Lists, ListsOf;
      AgainInv(st, t, m);
      m.count := m.count + 1;
      ListsSame(st, Again(st, t, m));
      st := Again(st, t, m);
    }

    /** One turn of OSLockMutex: the lock is taken, or the thread goes to sleep and will try again. */
    method LockMutex(t: Thread, m: Mutex) returns (locked: bool)
      requires Valid() && t in st.threads && m in st.mutexes
      modifies this, t, st.mutexes
      ensures Valid() && st == LockStep(old(st), t, m)
      ensures locked == (m !in old(st).owner || old(st).owner[m] == t)
      ensures t.waiting == if locked then old(t.waiting) else m
    {
      hide Counts, Waits, Lists, ListsOf, Take, Again;
      LockInv(st, t, m);
      if m.thread == null {
        Acquire(t, m);
        locked := true;
      } else if m.thread == t {
        Relock(t, m);
        locked := true;
      } else {
        t.waiting := m;
        m.queue := m.queue + {t};
        ListsSame(st, LockStep(st, t, m));
        st := LockStep(st, t, m);
        locked := false;
      }
    }

    /** After a sleep: the thread waits for nothing, and turns to the mutex again. */
    method Woken(t: Thread)
      requires Valid() && t in st.threads
      modifies t`waiting
      ensures Valid() && t.waiting == null
    {
      hide Inv, Mirrors, ListsOf;
      t.waiting := null;
    }

    /** OSTryLockMutex. */
    method TryLockMutex(t: Thread, m: Mutex) returns (locked: bool)
      requires Valid() && t in st.threads && m in st.mutexes
      modifies this, t, st.mutexes
      ensures Valid() && st == TryLockStep(old(st), t, m)
      ensures locked == (m !in old(st).owner || old(st).owner[m] == t)
    {
      hide Counts, Waits, Lists, ListsOf, Take, Again;
      if m.thread == null {
        Acquire(t, m);
        locked := true;
      } else if m.thread == t {
        Relock(t, m);
        locked := true;
      } else {
        locked := false;
      }
    }

    /** OSUnlockMutex: only the owner's unlock counts, and the last one hands the mutex back. */
    method UnlockMutex(t: Thread, m: Mutex)
      requires Valid() && t in st.threads && m in st.mutexes
      modifies this, t, st.mutexes
      ensures Valid() && st == UnlockStep(old(st), t, m)
    {
      hide Waits, Lists, ListsOf, Without;
      UnlockInv(st, t, m);
      if m.thread == t {
        m.count := m.count - 1;
        if m.count == 0 {
          Release(t, m);
        } else {
          ListsSame(st, UnlockStep(st, t, m));
          st := UnlockStep(st, t, m);
        }
      }
    }

    /** Lines 201 and 206: the mutex is free, and everyone asleep on it is woken. */
    method ClearOwner(t: Thread, m: Mutex)
      requires Inv(st) && t in st.threads && m in st.mutexes && m in st.owner && st.owner[m] == t && st.count[m] == 1
      requires m.count == 0 && forall n | n in st.mutexes && n != m :: MutexIs(st, n)
      modifies m`thread, m`queue
      ensures Shape(UnlockStep(st, t, m)) && Mirrors(UnlockStep(st, t, m))
    {
      hide Inv, UnlockStep;
      InvShape(st);
      ReleaseChanges(st, t, m);
      m.thread := null;
      m.queue := {};
    }

    /** Lines 200-206. */
    method Release(t: Thread, m: Mutex)
      requires Inv(st) && t in st.threads && m in st.mutexes && m in st.owner && st.owner[m] == t && st.count[m] == 1
      requires forall n | n in st.mutexes && n != m :: MutexIs(st, n)
      requires m.count == 0 && ListsOf(st)
      modifies `st, t`head, t`tail, st.mutexes
      ensures Valid() && st == UnlockStep(old(st), t, m)
    {
      hide ListsOf, Mirrors, Without, Inv, UnlockStep, Apart;
      UnlockInv(st, t, m);
      InvShape(st);
      OwnList(t);
      Listed(m);
      ReleaseChanges(st, t, m);
      PopOwned(t, m, UnlockStep(st, t, m));
      ClearOwner(t, m);
      st := UnlockStep(st, t, m);
    }

    lemma InvShape(s: Machine)
      requires Inv(s)
      ensures Shape(s) && Lists(s)
    {}

    lemma Listed(m: Mutex)
      requires Inv(st) && m in st.owner
      ensures st.owner[m] in st.threads && m in st.owned[st.owner[m]]
    {
      hide Counts, Waits;
    }

    lemma ReleaseChanges(s: Machine, t: Thread, m: Mutex)
      requires Inv(s) && t in s.threads && m in s.mutexes && m in s.owner && s.owner[m] == t && s.count[m] == 1
      ensures var s' := UnlockStep(s, t, m);
              && Shape(s') && s'.threads == s.threads && s'.mutexes == s.mutexes
              && s'.owned[t] == Without(s.owned[t], m)
              && (forall u | u in s.threads && u != t :: s'.owned[u] == s.owned[u])
              && m !in s'.owner && s'.asleep[m] == {}
              && (forall n | n in s.mutexes && n != m :: (n in s'.owner <==> n in s.owner) && s'.asleep[n] == s.asleep[n] &&
                    (n in s.owner ==> s'.owner[n] == s.owner[n] && s'.count[n] == s.count[n]))
    {
      hide Counts, Waits, Lists, Without;
    }

    /** One round of __OSUnlockAllMutex: the head of the owner list is released. */
    ghost function ReleaseHead(s: Machine, t: Thread): Machine
      requires Shape(s) && t in s.threads && s.owned[t] != []
    {
      var m := s.owned[t][0];
      s.(owner := s.owner - {m}, count := s.count - {m}, owned := s.owned[t := s.owned[t][1..]],
         asleep := map n | n in s.mutexes :: (if n == m then {} else s.asleep[n]))
    }

    method PopHeadOwned(t: Thread, ghost s': Machine) returns (m: Mutex)
      requires Shape(st) && ListsOf(st) && Apart(t) && st.owned[t] != []
      requires Shape(s') && s'.threads == st.threads && s'.mutexes == st.mutexes
      requires s'.owned[t] == st.owned[t][1..] && forall u | u in st.threads && u != t :: s'.owned[u] == st.owned[u]
      modifies t`head, t`tail, st.mutexes`next, st.mutexes`prev
      ensures ListsOf(s') && m == st.owned[t][0] && m in st.mutexes
    {
      hide Dll, NoDup;
      m := PopHead(t, st.owned[t]);
    }

    /** Lines 216-218. */
    method ClearHead(t: Thread, m: Mutex)
      requires Shape(st) && Lists(st) && Mirrors(st) && t in st.threads && st.owned[t] != [] && m == st.owned[t][0]
      modifies m`thread, m`count, m`queue
      ensures Shape(ReleaseHead(st, t)) && Mirrors(ReleaseHead(st, t))
    {
      hide Lists;
      OwnedBy(st, t, m);
      m.count := 0;
      m.thread := null;
      m.queue := {};
    }

    lemma HeadAndTail(list: seq<Mutex>)
      requires NoDup(list) && list != []
      ensures NoDup(list[1..]) && list[0] !in list[1..]
      ensures forall n | n in list :: n == list[0] || n in list[1..]
      ensures forall n | n in list[1..] :: n in list
      ensures AsSet(list) == {list[0]} + AsSet(list[1..])
    {
      assert list == [list[0]] + list[1..];
    }

    /** Nobody else's list holds the head of `t`'s. */
    lemma ReleaseHeadOwned(s: Machine, t: Thread, u: Thread, n: Mutex)
      requires Shape(s) && Lists(s) && t in s.threads && s.owned[t] != [] && u in s.threads
      requires n in s.owned[u] && (u == t ==> n in s.owned[t][1..])
      ensures n in s.owner && s.owner[n] == u && n != s.owned[t][0]
    {
      OwnedBy(s, u, n);
      OwnedBy(s, t, s.owned[t][0]);
      HeadAndTail(s.owned[t]);
    }

    lemma ReleaseHeadListed(s: Machine, t: Thread, n: Mutex)
      requires Shape(s) && Lists(s) && t in s.threads && s.owned[t] != [] && n in s.owner && n != s.owned[t][0]
      ensures n in if s.owner[n] == t then s.owned[t][1..] else s.owned[s.owner[n]]
    {
      hide NoDup;
      HeadAndTail(s.owned[t]);
      assert n in s.owned[s.owner[n]];
    }

    lemma ReleaseHeadLists(s: Machine, t: Thread)
      requires Shape(s) && Lists(s) && t in s.threads && s.owned[t] != []
      ensures Shape(ReleaseHead(s, t)) && Lists(ReleaseHead(s, t))
    {
      hide NoDup, Lists, ReleaseHead, AsSet;
      var s' := ReleaseHead(s, t);
      ListsApart(s);
      HeadAndTail(s.owned[t]);
      ReleaseHeadParts(s, t);
      assert Shape(s');
      forall u, n | u in s.threads && n in s'.owned[u] ensures n in s'.owner && s'.owner[n] == u {
        ReleaseHeadOwned(s, t, u, n);
      }
      forall n | n in s'.owner ensures n in s'.owned[s'.owner[n]] {
        ReleaseHeadListed(s, t, n);
      }
      ListsIntro(s');
    }

    lemma ListsApart(s: Machine)
      requires Shape(s) && Lists(s)
      ensures forall t | t in s.threads :: NoDup(s.owned[t])
    {}

    lemma ListsIntro(s: Machine)
      requires Shape(s)
      requires forall t | t in s.threads :: NoDup(s.owned[t])
      requires forall t, m | t in s.threads && m in s.owned[t] :: m in s.owner && s.owner[m] == t
      requires forall m | m in s.owner :: m in s.owned[s.owner[m]]
      ensures Lists(s)
    {}

    lemma MapMinusTwice<V>(f: map<Mutex, V>, m: Mutex, rest: set<Mutex>)
      ensures f - {m} - rest == f - ({m} + rest)
    {}

    /** Releasing the head first makes no difference to releasing all. */
    lemma ReleaseHeadThenAll(s: Machine, t: Thread)
      requires Shape(s) && Lists(s) && t in s.threads && s.owned[t] != []
      requires Shape(ReleaseHead(s, t))
      ensures UnlockAllStep(ReleaseHead(s, t), t) == UnlockAllStep(s, t)
    {
      hide NoDup, AsSet;
      var m, s' := s.owned[t][0], ReleaseHead(s, t);
      HeadAndTail(s.owned[t]);
      var rest := AsSet(s.owned[t][1..]);
      MapMinusTwice(s.owner, m, rest);
      MapMinusTwice(s.count, m, rest);
      assert s'.owned[t := []] == s.owned[t := []];
      AsleepTwice(s.mutexes, s.asleep, m, rest);
    }

    lemma AsleepTwice(mutexes: set<Mutex>, asleep: map<Mutex, set<Thread>>, m: Mutex, rest: set<Mutex>)
      requires asleep.Keys == mutexes
      ensures var once := map n | n in mutexes :: (if n == m then {} else asleep[n]);
              (map n | n in mutexes :: (if n in rest then {} else once[n])) ==
              (map n | n in mutexes :: (if n in {m} + rest then {} else asleep[n]))
    {}

    lemma NothingToRelease(s: Machine, t: Thread)
      requires Shape(s) && t in s.threads && s.owned[t] == []
      ensures UnlockAllStep(s, t) == s.(trace := s.trace + [UnlockedAll(t)])
    {
      assert AsSet(s.owned[t]) == {};
      assert s.owned[t := []] == s.owned;
      assert (map m | m in s.mutexes :: (if m in AsSet(s.owned[t]) then {} else s.asleep[m])) == s.asleep;
    }

    lemma MirrorsTrace(s: Machine, s': Machine)
      requires Shape(s) && s' == s.(trace := s'.trace)
      ensures Shape(s') && (Mirrors(s) ==> Mirrors(s')) && (ListsOf(s) ==> ListsOf(s'))
    {
      hide Dll;
    }

    /** One round of the loop of __OSUnlockAllMutex. */
    method ReleaseFirst(t: Thread)
      requires t in st.threads && Shape(st) && Lists(st) && Mirrors(st) && ListsOf(st) && st.owned[t] != []
      modifies `st, t`head, t`tail, st.mutexes
      ensures st.threads == old(st).threads && st.mutexes == old(st).mutexes
      ensures Shape(st) && Lists(st) && Mirrors(st) && ListsOf(st)
      ensures UnlockAllStep(st, t) == UnlockAllStep(old(st), t) && |st.owned[t]| < |old(st).owned[t]|
    {
      hide Inv, Lists, Mirrors, ListsOf, UnlockAllStep, ReleaseHead, Apart;
      OwnList(t);
      ReleaseHeadLists(st, t);
      ReleaseHeadThenAll(st, t);
      ReleaseHeadParts(st, t);
      ghost var s' := ReleaseHead(st, t);
      var m := PopHeadOwned(t, s');
      ClearHead(t, m);
      st := s';
    }

    /** __OSUnlockAllMutex: every mutex the thread owns is released and its waiters are woken. */
    method UnlockAllMutex(t: Thread)
      requires Valid() && t in st.threads
      modifies this, t, st.mutexes
      ensures Valid() && st == UnlockAllStep(old(st), t) && t.head == null
    {
      hide Shape, Inv, Lists, Mirrors, ListsOf, UnlockAllStep;
      ghost var s := st;
      UnlockAllInv(s, t);
      InvShape(s);
      HeadMeans(t);
      while t.head != null
        modifies `st, t`head, t`tail, s.mutexes
        invariant t in st.threads && st.threads == s.threads && st.mutexes == s.mutexes
        invariant Shape(st) && Lists(st) && Mirrors(st) && ListsOf(st)
        invariant UnlockAllStep(st, t) == UnlockAllStep(s, t)
        invariant t in st.owned && (t.head == null <==> st.owned[t] == [])
        decreases if t in st.owned then |st.owned[t]| else 0
      {
        ReleaseFirst(t);
        HeadMeans(t);
      }
      NothingToRelease(st, t);
      MirrorsTrace(st, UnlockAllStep(st, t));
      st := UnlockAllStep(st, t);
    }

    lemma ReleaseHeadParts(s: Machine, t: Thread)
      requires Shape(s) && t in s.threads && s.owned[t] != []
      ensures var s' := ReleaseHead(s, t);
              && s'.threads == s.threads && s'.mutexes == s.mutexes && s'.owned.Keys == s.owned.Keys
              && s'.owned[t] == s.owned[t][1..] && (forall u | u in s.threads && u != t :: s'.owned[u] == s.owned[u])
              && s'.asleep.Keys == s.asleep.Keys && s'.owner.Keys == s.owner.Keys - {s.owned[t][0]}
              && s'.count.Keys == s.count.Keys - {s.owned[t][0]} && forall n | n in s'.owner :: s'.owner[n] == s.owner[n]
    {}

    lemma HeadMeans(t: Thread)
      requires Shape(st) && ListsOf(st) && t in st.threads
      ensures t in st.owned && (t.head == null <==> st.owned[t] == [])
    {}
  }
}
