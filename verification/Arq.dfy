/** decomp_arq.c itself: request records linked by their next pointers, refining the state machine. */
module Arq {
  import opened Bits
  import opened ArqModel

  /** The callback used when none is given (__ARQCallbackHack). */
  const HACK: nat := 1

  /** ARQRequest. */
  class Task {
    var next: Task?
    var owner: U32
    var kind: U32
    var source: U32
    var dest: U32
    var length: U32
    var callback: nat     // 0 is the null pointer

    constructor ()
    {
      next, owner, kind, source, dest, length, callback := null, 0, 0, 0, 0, 0, 0;
    }
  }

  /** The record holds what was posted. */
  ghost predicate Holds(t: Task, r: Request)
    reads t`kind, t`source, t`dest, t`length, t`callback
  {
    t.kind == r.kind && t.source == r.source && t.dest == r.dest && t.length == r.length && t.callback == r.callback
  }

  /** The record of the low request being served, after `k` chunks have been started and before the last. */
  ghost predicate HoldsFrom(t: Task, v: Serving)
    reads t
  {
    && t.kind == v.req.kind && t.callback == v.req.callback && v.started < NumChunks(v.req)
    && t.source == Wrap32(v.req.source + CHUNK * v.started)
    && t.dest == Wrap32(v.req.dest + CHUNK * v.started)
    && t.length == Wrap32(v.req.length - CHUNK * v.started)
  }

  /** A singly linked queue: head, links, and a tail that is only meaningful when the queue is not empty. */
  ghost predicate Linked(head: Task?, tail: Task?, nodes: seq<Task>, reqs: seq<Request>)
    reads nodes
  {
    && |nodes| == |reqs|
    && (nodes == [] ==> head == null)
    && (nodes != [] ==> head == nodes[0] && tail == nodes[|nodes| - 1] && nodes[|nodes| - 1].next == null)
    && (forall i {:trigger nodes[i].next} | 0 <= i < |nodes| - 1 :: nodes[i].next == nodes[i + 1])
    && (forall i | 0 <= i < |nodes| :: Holds(nodes[i], reqs[i]) && nodes[i].callback != 0)
    && (forall i, j | 0 <= i < j < |nodes| :: nodes[i] != nodes[j])
  }

  lemma LinkedPop(head: Task?, tail: Task?, nodes: seq<Task>, reqs: seq<Request>)
    requires Linked(head, tail, nodes, reqs) && nodes != []
    ensures head == nodes[0] && Holds(nodes[0], reqs[0]) && nodes[0].callback != 0 && nodes[0] !in nodes[1..]
    ensures Linked(nodes[0].next, tail, nodes[1..], reqs[1..])
  {
    hide Holds;
  }

  lemma LinkedEmpty(head: Task?, tail: Task?, nodes: seq<Task>, reqs: seq<Request>)
    requires Linked(head, tail, nodes, reqs)
    ensures |nodes| == |reqs| && (head == null <==> nodes == [])
  {
    hide Holds;
  }

  /** Lines 139-144 and 149-155: the task goes behind the tail, or becomes the head. */
  method Append(head: Task?, tail: Task?, task: Task, ghost nodes: seq<Task>, ghost reqs: seq<Request>, ghost r: Request)
    returns (head': Task)
    requires Linked(head, tail, nodes, reqs) && task !in nodes
    requires Holds(task, r) && task.callback != 0 && task.next == null
    modifies (set t | t in nodes)`next
    ensures Linked(head', task, nodes + [task], reqs + [r])
    ensures forall t | t in nodes && t != tail :: t.next == old(t.next)
  {
    hide Holds;
    if head != null {
      tail.next := task;
      head' := head;
    } else {
      head' := task;
    }
  }

  /** One call of decomp_ARQPostRequest made by a callback. */
  datatype Call = Call(task: Task, owner: U32, kind: U32, priority: U32, source: U32, dest: U32, length: U32, callback: nat)

  ghost function ToPosts(calls: seq<Call>, next: nat): (r: seq<PostArgs>)
    ensures |r| == |calls|
  {
    seq(|calls|, i requires 0 <= i < |calls| =>
      var c := calls[i];
      PostArgs(Request(next + i, c.kind, c.source, c.dest, c.length, if c.callback != 0 then c.callback else HACK), c.priority))
  }

  ghost function Tasks(calls: seq<Call>): set<Task> {
    set i | 0 <= i < |calls| :: calls[i].task
  }

  class Queue {
    var queueHi: Task?
    var tailHi: Task?
    var queueLo: Task?
    var tailLo: Task?
    var pendingHi: Task?
    var pendingLo: Task?
    var callbackHi: nat
    var callbackLo: nat
    var chunkSize: U32
    ghost var hiNodes: seq<Task>
    ghost var loNodes: seq<Task>
    ghost var st: State      // the state of the machine this refines

    /** ARQInit. */
    constructor ()
      ensures Valid() && st == INIT && hiNodes == loNodes == [] && pendingHi == pendingLo == null
    {
      queueHi, queueLo, tailHi, tailLo := null, null, null, null;
      chunkSize := CHUNK;
      pendingHi, pendingLo := null, null;
      callbackHi, callbackLo := 0, 0;
      hiNodes, loNodes, st := [], [], INIT;
    }

    ghost function Repr(): set<object> 
      reads this
    {
      (set t | t in hiNodes) + (set t | t in loNodes) + (if pendingLo != null then {pendingLo} else {})
    }

    ghost predicate Valid()
      reads this, Repr()
    {
      && chunkSize == CHUNK
      && Linked(queueHi, tailHi, hiNodes, st.hi)
      && Linked(queueLo, tailLo, loNodes, st.lo)
      && (forall i, j | 0 <= i < |hiNodes| && 0 <= j < |loNodes| :: hiNodes[i] != loNodes[j])
      && (pendingHi == null <==> st.pendHi.None?) && (callbackHi == 0 <==> pendingHi == null)
      && (st.pendHi.Some? ==> callbackHi == st.pendHi.value.callback)
      && (pendingLo == null <==> st.pendLo.None?) && (pendingLo == null ==> callbackLo == 0)
      && (st.pendLo.Some? ==>
            if callbackLo == 0 then HoldsFrom(pendingLo, st.pendLo.value) && pendingLo.callback != 0 &&
                                    pendingLo !in hiNodes && pendingLo !in loNodes
            else LastStarted(st.pendLo.value) && callbackLo == st.pendLo.value.req.callback)
    }

    /** __ARQPopTaskQueueHi. */
    method PopTaskQueueHi()
      requires Valid()
      modifies this
      ensures Valid() && st == PopHi(old(st))
      ensures hiNodes == (if old(hiNodes) == [] then [] else old(hiNodes)[1..]) && loNodes == old(loNodes)
      ensures pendingLo == old(pendingLo) && callbackLo == old(callbackLo)
      ensures pendingHi == (if old(hiNodes) == [] then old(pendingHi) else old(hiNodes)[0])
    {
      hide Linked;
      LinkedEmpty(queueHi, tailHi, hiNodes, st.hi);
      if queueHi != null {
        LinkedPop(queueHi, tailHi, hiNodes, st.hi);
        ghost var e := ArStartDma(st.hi[0].id, true, queueHi.kind, queueHi.source, queueHi.dest, queueHi.length);
        assert e == StartDma(st.hi[0], true, 0, st.hi[0].length) by { NoOffset(st.hi[0]); }
        callbackHi := queueHi.callback;
        pendingHi := queueHi;
        queueHi := queueHi.next;
        st := PopHi(st);
        hiNodes := hiNodes[1..];
      }
    }

    lemma NoOffset(r: Request)
      ensures Wrap32(r.source + 0) == r.source && Wrap32(r.dest + 0) == r.dest
    {}

    /** The arguments of ARStartDMA: main memory first, whichever side is the source. */
    ghost function ArStartDma(id: nat, high: bool, kind: U32, source: U32, dest: U32, length: U32): Event {
      if kind == 0 then Dma(id, high, kind, source, dest, length) else Dma(id, high, kind, dest, source, length)
    }

    /** Lines 46-49: the next low request becomes pending. */
    method TakeQueueLo()
      requires Valid()
      modifies `pendingLo, `queueLo, `loNodes, `st
      ensures Valid() && st == TakeLo(old(st)) && Repr() <= old(Repr())
      ensures hiNodes == old(hiNodes) && pendingHi == old(pendingHi)
      ensures forall t | t in loNodes :: t in old(loNodes)
    {
      hide Linked, NumChunks;
      LinkedEmpty(queueLo, tailLo, loNodes, st.lo);
      if pendingLo == null && queueLo != null {
        LinkedPop(queueLo, tailLo, loNodes, st.lo);
        FirstChunk(st.lo[0]);
        pendingLo := queueLo;
        queueLo := queueLo.next;
        loNodes := loNodes[1..];
        st := TakeLo(st);
      }
    }

    /** Lines 51-74: the next chunk of the pending low request is started. */
    method StartChunk()
      requires Valid() && pendingLo != null && callbackLo == 0
      modifies `callbackLo, `st, pendingLo
      ensures Valid() && pendingLo == old(pendingLo) && hiNodes == old(hiNodes) && loNodes == old(loNodes)
      ensures var v := old(st).pendLo.value;
              st == old(st).(trace := old(st).trace + [NextChunk(v)], pendLo := Some(v.(started := v.started + 1)))
    {
      hide Linked, NumChunks, StartDma, NextChunk, ArStartDma, Wrap32, INIT;
      ghost var v := st.pendLo.value;
      ChunkStep(v);
      ghost var e := ArStartDma(v.req.id, false, pendingLo.kind, pendingLo.source, pendingLo.dest,
                                if pendingLo.length <= chunkSize then pendingLo.length else chunkSize);
      assert e == NextChunk(v) by { ChunkArgs(v, pendingLo.kind, pendingLo.source, pendingLo.dest, pendingLo.length); }
      if pendingLo.length <= chunkSize {
        callbackLo := pendingLo.callback;
      }
      pendingLo.length := Wrap32(pendingLo.length - chunkSize);
      pendingLo.source := Wrap32(pendingLo.source + chunkSize);
      pendingLo.dest := Wrap32(pendingLo.dest + chunkSize);
      st := st.(trace := st.trace + [e], pendLo := Some(v.(started := v.started + 1)));
    }

    /** __ARQServiceQueueLo. */
    method ServiceQueueLo()
      requires Valid() && st.pendHi.None?
      requires st.pendLo.Some? ==> callbackLo == 0
      modifies this, Repr()
      ensures Valid() && st == ServiceLo(old(st)) && Repr() <= old(Repr())
      ensures hiNodes == old(hiNodes) && pendingHi == old(pendingHi)
      ensures forall t | t in loNodes :: t in old(loNodes)
    {
      hide Linked, NumChunks, NextChunk, HoldsFrom;
      TakeQueueLo();
      if pendingLo != null {
        StartChunk();
      }
    }

    lemma FirstChunk(r: Request)
      ensures 0 < NumChunks(r) && Wrap32(r.source + CHUNK * 0) == r.source && Wrap32(r.dest + CHUNK * 0) == r.dest
      ensures Wrap32(r.length - CHUNK * 0) == r.length
    {}

    lemma ChunkArgs(v: Serving, kind: U32, source: U32, dest: U32, length: U32)
      requires kind == v.req.kind && source == Wrap32(v.req.source + CHUNK * v.started)
      requires dest == Wrap32(v.req.dest + CHUNK * v.started) && length == Wrap32(v.req.length - CHUNK * v.started)
      ensures ArStartDma(v.req.id, false, kind, source, dest, if length <= CHUNK then length else CHUNK) == NextChunk(v)
    {}

    lemma WrapTwice(x: int, d: int)
      ensures Wrap32(Wrap32(x) + d) == Wrap32(x + d)
    {}

    /** What starting chunk `v.started` does to the fields; the length wraps exactly on the last chunk. */
    lemma ChunkStep(v: Serving)
      requires v.started < NumChunks(v.req)
      ensures var k := v.started;
              && Wrap32(Wrap32(v.req.source + CHUNK * k) + CHUNK) == Wrap32(v.req.source + CHUNK * (k + 1))
              && Wrap32(Wrap32(v.req.dest + CHUNK * k) + CHUNK) == Wrap32(v.req.dest + CHUNK * (k + 1))
              && Wrap32(Wrap32(v.req.length - CHUNK * k) - CHUNK) == Wrap32(v.req.length - CHUNK * (k + 1))
              && (Wrap32(v.req.length - CHUNK * k) <= CHUNK <==> k + 1 == NumChunks(v.req))
    {
      hide Wrap32, NumChunks;
      var k := v.started;
      WrapTwice(v.req.source + CHUNK * k, CHUNK);
      WrapTwice(v.req.dest + CHUNK * k, CHUNK);
      WrapTwice(v.req.length - CHUNK * k, 0 - CHUNK);
      LastLength(v);
    }

    lemma LastLength(v: Serving)
      requires v.started < NumChunks(v.req)
      ensures Wrap32(v.req.length - CHUNK * v.started) <= CHUNK <==> v.started + 1 == NumChunks(v.req)
    {
      var left := v.req.length - CHUNK * v.started;
      assert 0 <= left < TWO32;
      assert Wrap32(left) == left;
    }

    /** decomp_ARQPostRequest.  The record must not be queued already, nor still have chunks to be sent. */
    method PostRequest(task: Task, owner: U32, kind: U32, priority: U32, source: U32, dest: U32, length: U32, callback: nat)
      requires Valid() && task !in hiNodes && task !in loNodes && (task == pendingLo ==> callbackLo != 0)
      modifies this, task, Repr()
      ensures Valid()
      ensures st == Post(old(st), Request(old(st).next, kind, source, dest, length, if callback != 0 then callback else HACK), priority)
      ensures forall t | t in hiNodes || t in loNodes :: t == task || t in old(hiNodes) || t in old(loNodes)
      ensures old(Busy(st)) ==> pendingHi == old(pendingHi) && pendingLo == old(pendingLo) &&
                                callbackHi == old(callbackHi) && callbackLo == old(callbackLo)
      ensures Repr() <= old(Repr()) + {task}
    {
      hide Linked, Kick, HoldsFrom, Holds, LastStarted;
      Fill(task, owner, kind, source, dest, length, callback);
      AppendTask(task, priority, Request(st.next, kind, source, dest, length, if callback != 0 then callback else HACK));
      StartIfIdle();
    }

    /** Lines 122-133: the record is filled. */
    method Fill(task: Task, owner: U32, kind: U32, source: U32, dest: U32, length: U32, callback: nat)
      requires Valid() && task !in hiNodes && task !in loNodes && (task == pendingLo ==> callbackLo != 0)
      modifies task
      ensures Valid() && task.next == null && task.callback != 0
      ensures Holds(task, Request(st.next, kind, source, dest, length, if callback != 0 then callback else HACK))
    {
      hide Linked, HoldsFrom, LastStarted;
      task.next := null;
      task.owner := owner;
      task.kind := kind;
      task.source := source;
      task.dest := dest;
      task.length := length;
      task.callback := if callback != 0 then callback else HACK;
    }

    /** Lines 160-166: something is started if nothing is being served. */
    method StartIfIdle()
      requires Valid()
      modifies this, Repr()
      ensures Valid() && st == Kick(old(st)) && Repr() <= old(Repr())
      ensures forall t | t in hiNodes || t in loNodes :: t in old(hiNodes) || t in old(loNodes)
      ensures old(Busy(st)) ==> pendingHi == old(pendingHi) && pendingLo == old(pendingLo) &&
                                callbackHi == old(callbackHi) && callbackLo == old(callbackLo)
    {
      hide Linked, ServiceLo, HoldsFrom, NumChunks, LastStarted;
      if pendingHi == null && pendingLo == null {
        PopTaskQueueHi();
        if pendingHi == null {
          ServiceQueueLo();
        }
      }
    }

    /** Lines 137-158; other priorities are ignored. */
    method AppendTask(task: Task, priority: U32, ghost r: Request)
      requires Valid() && task !in hiNodes && task !in loNodes && (task == pendingLo ==> callbackLo != 0)
      requires Holds(task, r) && task.callback != 0 && task.next == null
      modifies `queueHi, `queueLo, `tailHi, `tailLo, `hiNodes, `loNodes, `st, Repr()
      ensures Valid() && st == Enqueue(old(st), r, priority)
      ensures forall t | t in hiNodes || t in loNodes :: t == task || t in old(hiNodes) || t in old(loNodes)
      ensures Repr() <= old(Repr()) + {task}
    {
      hide Linked, NumChunks, Holds, HoldsFrom, LastStarted;
      if priority == 0 {
        queueLo := Append(queueLo, tailLo, task, loNodes, st.lo, r);
        tailLo := task;
        loNodes := loNodes + [task];
      } else if priority == 1 {
        queueHi := Append(queueHi, tailHi, task, hiNodes, st.hi, r);
        tailHi := task;
        hiNodes := hiNodes + [task];
      }
      st := Enqueue(st, r, priority);
    }

    /** The posts a callback makes while its request is still pending. */
    method RunCalls(calls: seq<Call>)
      requires Valid() && Busy(st)
      requires forall i, j | 0 <= i < j < |calls| :: calls[i].task != calls[j].task
      requires forall i | 0 <= i < |calls| :: calls[i].task !in hiNodes && calls[i].task !in loNodes
      requires forall i | 0 <= i < |calls| :: calls[i].task == pendingLo ==> callbackLo != 0
      modifies this, Repr(), Tasks(calls)
      ensures Valid() && st == PostAll(old(st), ToPosts(calls, old(st).next))
      ensures pendingHi == old(pendingHi) && pendingLo == old(pendingLo)
      ensures callbackHi == old(callbackHi) && callbackLo == old(callbackLo)
      ensures Repr() <= old(Repr()) + Tasks(calls)
    {
      hide Linked, HoldsFrom, NumChunks, Post;
      ghost var s, posts := st, ToPosts(calls, st.next);
      for i := 0 to |calls|
        invariant Valid() && Busy(st) && st.next == s.next + i
        invariant pendingHi == old(pendingHi) && pendingLo == old(pendingLo)
        invariant callbackHi == old(callbackHi) && callbackLo == old(callbackLo)
        invariant PostAll(st, posts[i..]) == PostAll(s, posts)
        invariant Repr() <= old(Repr()) + Tasks(calls)
        invariant forall k | i <= k < |calls| :: calls[k].task !in hiNodes && calls[k].task !in loNodes
      {
        var c := calls[i];
        assert posts[i] == PostArgs(Request(st.next, c.kind, c.source, c.dest, c.length, if c.callback != 0 then c.callback else HACK), c.priority);
        assert c.task in Tasks(calls);
        assert posts[i..][1..] == posts[i + 1..];
        PostBusy(st, posts[i].req, posts[i].priority);
        PostRequest(c.task, c.owner, c.kind, c.priority, c.source, c.dest, c.length, c.callback);
      }
    }

    lemma PostBusy(s: State, r: Request, priority: U32)
      requires Busy(s)
      ensures Busy(Post(s, r, priority)) && Post(s, r, priority).next == s.next + 1
    {}

    /** Lines 81-90: the callback of the request just completed, if it has completed. */
    method CallBack(calls: seq<Call>)
      requires Valid() && Busy(st) && ArqModel.Between(st)
      requires forall i, j | 0 <= i < j < |calls| :: calls[i].task != calls[j].task
      requires forall i | 0 <= i < |calls| :: calls[i].task !in hiNodes && calls[i].task !in loNodes
      requires forall i | 0 <= i < |calls| :: calls[i].task == pendingLo ==> callbackLo != 0
      modifies this, Repr(), Tasks(calls)
      ensures Valid() && st == Complete(old(st), ToPosts(calls, old(st).next))
      ensures st.pendHi.None? && (st.pendLo.Some? ==> callbackLo == 0) && st.interrupts == old(st).interrupts
      ensures Repr() <= old(Repr()) + Tasks(calls)
    {
      hide Linked, HoldsFrom, NumChunks, PostAll, LastStarted, ToPosts, Tasks;
      ghost var s, posts := st, ToPosts(calls, st.next);
      LastMeans();
      if callbackHi != 0 {
        ghost var e := Callback(st.pendHi.value.id, callbackHi);
        PendingKept(s, e, posts);
        CompleteHigh(s, posts);
        st := st.(trace := st.trace + [e]);
        RunCalls(calls);
        pendingHi := null;
        callbackHi := 0;
        st := Complete(s, posts);
      } else if callbackLo != 0 {
        ghost var e := Callback(st.pendLo.value.req.id, callbackLo);
        PendingKept(s, e, posts);
        CompleteLow(s, posts);
        st := st.(trace := st.trace + [e]);
        RunCalls(calls);
        pendingLo := null;
        callbackLo := 0;
        st := Complete(s, posts);
      }
    }

    /** The low callback is set exactly when the last chunk has been started. */
    lemma LastMeans()
      requires Valid()
      ensures st.pendLo.Some? ==> (callbackLo != 0 <==> LastStarted(st.pendLo.value))
    {
      hide Linked;
    }

    lemma CompleteHigh(s: State, posts: seq<PostArgs>)
      requires s.pendHi.Some?
      ensures var r := s.pendHi.value;
              var t := PostAll(s.(trace := s.trace + [Callback(r.id, r.callback)]), posts);
              Complete(s, posts) == t.(pendHi := None, doneHi := t.doneHi + [r])
    {
      hide PostAll;
    }

    lemma CompleteLow(s: State, posts: seq<PostArgs>)
      requires s.pendHi.None? && s.pendLo.Some? && LastStarted(s.pendLo.value)
      ensures var r := s.pendLo.value.req;
              var t := PostAll(s.(trace := s.trace + [Callback(r.id, r.callback)]), posts);
              Complete(s, posts) == t.(pendLo := None, doneLo := t.doneLo + [r])
    {
      hide PostAll, LastStarted;
    }

    /** __ARQInterruptServiceRoutine; `calls` are the posts made by the callback, if one runs. */
    method InterruptServiceRoutine(calls: seq<Call>)
      requires Valid() && Busy(st) && ArqModel.Between(st)
      requires forall i, j | 0 <= i < j < |calls| :: calls[i].task != calls[j].task
      requires forall i | 0 <= i < |calls| :: calls[i].task !in hiNodes && calls[i].task !in loNodes
      requires forall i | 0 <= i < |calls| :: calls[i].task == pendingLo ==> callbackLo != 0
      modifies this, Repr(), Tasks(calls)
      ensures Valid() && st == Interrupt(old(st), ToPosts(calls, old(st).next))
    {
      hide Linked, HoldsFrom, NumChunks, ServiceLo, Complete;
      ghost var s, posts := st, ToPosts(calls, st.next);
      CallBack(calls);
      PopTaskQueueHi();
      if pendingHi == null {
        ServiceQueueLo();
      }
      st := st.(interrupts := s.interrupts + 1);
    }

    /** The posts of a callback leave what is pending alone. */
    lemma PendingKept(s: State, e: Event, posts: seq<PostArgs>)
      requires Busy(s)
      ensures var t := PostAll(s.(trace := s.trace + [e]), posts); t.pendHi == s.pendHi && t.pendLo == s.pendLo && t.interrupts == s.interrupts
    {
      PostsOnlyQueue(s.(trace := s.trace + [e]), posts);
      EnqueueAllKeeps(s.(trace := s.trace + [e]), posts);
    }

    lemma {:induction false} EnqueueAllKeeps(s: State, posts: seq<PostArgs>)
      ensures EnqueueAll(s, posts).pendHi == s.pendHi && EnqueueAll(s, posts).pendLo == s.pendLo
      ensures EnqueueAll(s, posts).interrupts == s.interrupts
      decreases |posts|
    {
      if posts != [] {
        EnqueueAllKeeps(Enqueue(s, posts[0].req, posts[0].priority), posts[1..]);
      }
    }
  }
}
