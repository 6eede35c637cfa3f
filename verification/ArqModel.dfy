/**
 * The two-priority DMA queue of decomp_arq.c as a state machine: one step posts a request, the other is
 * the completion interrupt of a DMA.  Every run keeps the invariant `Inv`.
 */
module ArqModel {
  import opened Bits

  datatype Option<T> = None | Some(value: T)

  const CHUNK: nat := 4096
  const TWO32: nat := 0x1_0000_0000

  /** A request as it was posted; `id` tells posts apart. */
  datatype Request = Request(id: nat, kind: U32, source: U32, dest: U32, length: U32, callback: nat)

  /** What the queue does to the outside: start a DMA, or call a callback. */
  datatype Event =
    | Dma(id: nat, high: bool, kind: U32, mram: U32, aram: U32, length: U32)
    | Callback(id: nat, callback: nat)

  /** The low request being served and how many of its chunks have been started. */
  datatype Serving = Serving(req: Request, started: nat)

  datatype State = State(
    next: nat,
    hi: seq<Request>, lo: seq<Request>,
    pendHi: Option<Request>, pendLo: Option<Serving>,
    trace: seq<Event>,
    // history
    postedHi: seq<Request>, postedLo: seq<Request>, doneHi: seq<Request>, doneLo: seq<Request>, interrupts: nat)

  const INIT: State := State(0, [], [], None, None, [], [], [], [], [], 0)

  function Wrap32(x: int): U32 {
    x % TWO32
  }

  /** Type 0 moves from main memory to ARAM, and `source` is then the main memory address. */
  function StartDma(r: Request, high: bool, offset: nat, length: U32): Event {
    var s, d := Wrap32(r.source + offset), Wrap32(r.dest + offset);
    if r.kind == 0 then Dma(r.id, high, r.kind, s, d, length) else Dma(r.id, high, r.kind, d, s, length)
  }

  // ----- what serving a request should look like -----

  function NumChunks(r: Request): nat {
    if r.length <= CHUNK then 1 else (r.length + CHUNK - 1) / CHUNK
  }

  function ChunkLength(r: Request, k: nat): U32
    requires k < NumChunks(r)
  {
    if k == NumChunks(r) - 1 then r.length - CHUNK * k else CHUNK
  }

  /** The DMAs of the first `k` chunks of a low request. */
  function ChunkEvents(r: Request, k: nat): seq<Event>
    requires k <= NumChunks(r)
  {
    if k == 0 then [] else ChunkEvents(r, k - 1) + [StartDma(r, false, CHUNK * (k - 1), ChunkLength(r, k - 1))]
  }

  function LowEvents(r: Request): seq<Event> {
    ChunkEvents(r, NumChunks(r)) + [Callback(r.id, r.callback)]
  }

  function HighEvents(r: Request): seq<Event> {
    [StartDma(r, true, 0, r.length), Callback(r.id, r.callback)]
  }

  /** The chunks cover the request's bytes consecutively, without gap or overlap, up to its length. */
  lemma ChunksPartition(r: Request, k: nat)
    requires k < NumChunks(r)
    ensures k + 1 < NumChunks(r) ==> CHUNK * k + ChunkLength(r, k) == CHUNK * (k + 1) < r.length
    ensures k + 1 == NumChunks(r) ==> CHUNK * k + ChunkLength(r, k) == r.length
    ensures ChunkLength(r, k) <= CHUNK && (r.length > 0 ==> ChunkLength(r, k) > 0)
  {}

  /** Every byte of the request lies in exactly one chunk. */
  lemma ByteInOneChunk(r: Request, x: nat)
    requires x < r.length
    ensures x / CHUNK < NumChunks(r) && CHUNK * (x / CHUNK) <= x < CHUNK * (x / CHUNK) + ChunkLength(r, x / CHUNK)
    ensures forall k: nat | k < NumChunks(r) && CHUNK * k <= x < CHUNK * k + ChunkLength(r, k) :: k == x / CHUNK
  {
    ChunksPartition(r, x / CHUNK);
    forall k: nat | k < NumChunks(r) && CHUNK * k <= x < CHUNK * k + ChunkLength(r, k) ensures k == x / CHUNK {
      ChunksPartition(r, k);
    }
  }

  // ----- the steps -----

  /** __ARQPopTaskQueueHi. */
  function PopHi(s: State): State {
    if s.hi == [] then s
    else s.(pendHi := Some(s.hi[0]), hi := s.hi[1..], trace := s.trace + [StartDma(s.hi[0], true, 0, s.hi[0].length)])
  }

  function TakeLo(s: State): State {
    if s.pendLo.None? && s.lo != [] then s.(pendLo := Some(Serving(s.lo[0], 0)), lo := s.lo[1..]) else s
  }

  /** The DMA of the next chunk of the request being served; after it `length` may have wrapped around. */
  function NextChunk(v: Serving): Event {
    var remaining := Wrap32(v.req.length - CHUNK * v.started);
    StartDma(v.req, false, CHUNK * v.started, if remaining <= CHUNK then remaining else CHUNK)
  }

  /** __ARQServiceQueueLo. */
  function ServiceLo(s: State): State {
    var t := TakeLo(s);
    if t.pendLo.None? then t
    else
      var v := t.pendLo.value;
      t.(trace := t.trace + [NextChunk(v)], pendLo := Some(v.(started := v.started + 1)))
  }

  function Enqueue(s: State, r: Request, priority: U32): State {
    var t := s.(next := s.next + 1);
    if priority == 0 then t.(lo := s.lo + [r], postedLo := s.postedLo + [r])
    else if priority == 1 then t.(hi := s.hi + [r], postedHi := s.postedHi + [r])
    else t
  }

  /** Start something if nothing is being served. */
  function Kick(s: State): State {
    if s.pendHi.None? && s.pendLo.None? then
      var t := PopHi(s);
      if t.pendHi.None? then ServiceLo(t) else t
    else s
  }

  /** decomp_ARQPostRequest. */
  function Post(s: State, r: Request, priority: U32): State {
    Kick(Enqueue(s, r, priority))
  }

  datatype PostArgs = PostArgs(req: Request, priority: U32)

  /** The posts a callback makes; ids are given in posting order. */
  function PostAll(s: State, posts: seq<PostArgs>): State
    decreases |posts|
  {
    if posts == [] then s else PostAll(Post(s, posts[0].req, posts[0].priority), posts[1..])
  }

  /** The callback of the low request runs once its last chunk is done: its callback pointer is set then. */
  predicate LastStarted(v: Serving) {
    v.started == NumChunks(v.req)
  }

  /** The callback part of the interrupt: the call itself, the posts it makes, and clearing what was pending. */
  function Complete(s: State, posts: seq<PostArgs>): State {
    if s.pendHi.Some? then
      var r := s.pendHi.value;
      var t := PostAll(s.(trace := s.trace + [Callback(r.id, r.callback)]), posts);
      t.(pendHi := None, doneHi := t.doneHi + [r])
    else if s.pendLo.Some? && LastStarted(s.pendLo.value) then
      var r := s.pendLo.value.req;
      var t := PostAll(s.(trace := s.trace + [Callback(r.id, r.callback)]), posts);
      t.(pendLo := None, doneLo := t.doneLo + [r])
    else s
  }

  /** __ARQInterruptServiceRoutine; `posts` is what the callback, if one runs, posts. */
  function Interrupt(s: State, posts: seq<PostArgs>): State {
    var t := PopHi(Complete(s, posts));
    var u := if t.pendHi.None? then ServiceLo(t) else t;
    u.(interrupts := s.interrupts + 1)
  }

  // ----- the invariant -----

  function Busy(s: State): bool {
    s.pendHi.Some? || s.pendLo.Some?
  }

  /** The events of one request. */
  function Of(trace: seq<Event>, id: nat): seq<Event> {
    if trace == [] then []
    else
      var e := trace[|trace| - 1];
      Of(trace[..|trace| - 1], id) + (if e.id == id then [e] else [])
  }

  function DmaCount(trace: seq<Event>): nat {
    if trace == [] then 0
    else DmaCount(trace[..|trace| - 1]) + (if trace[|trace| - 1].Dma? then 1 else 0)
  }

  function OptSeq<T>(o: Option<T>): seq<T> {
    if o.None? then [] else [o.value]
  }

  function ServingReq(o: Option<Serving>): Option<Request> {
    if o.None? then None else Some(o.value.req)
  }

  ghost predicate Fresh(s: State) {
    && (forall i | 0 <= i < |s.postedHi| :: s.postedHi[i].id < s.next)
    && (forall i | 0 <= i < |s.postedLo| :: s.postedLo[i].id < s.next)
    && (forall i, j | 0 <= i < j < |s.postedHi| :: s.postedHi[i].id != s.postedHi[j].id)
    && (forall i, j | 0 <= i < j < |s.postedLo| :: s.postedLo[i].id != s.postedLo[j].id)
    && (forall i, j | 0 <= i < |s.postedHi| && 0 <= j < |s.postedLo| :: s.postedHi[i].id != s.postedLo[j].id)
  }

  /** Requests of one priority are served and completed in posting order, none lost, none twice. */
  ghost predicate InOrder(s: State) {
    && s.postedHi == s.doneHi + OptSeq(s.pendHi) + s.hi
    && s.postedLo == s.doneLo + OptSeq(ServingReq(s.pendLo)) + s.lo
  }

  /** What has happened to each request so far. */
  ghost predicate Served(s: State) {
    && (forall r | r in s.doneHi :: Of(s.trace, r.id) == HighEvents(r))
    && (s.pendHi.Some? ==> Of(s.trace, s.pendHi.value.id) == [StartDma(s.pendHi.value, true, 0, s.pendHi.value.length)])
    && (forall r | r in s.hi :: Of(s.trace, r.id) == [])
    && (forall r | r in s.doneLo :: Of(s.trace, r.id) == LowEvents(r))
    && (s.pendLo.Some? ==>
          s.pendLo.value.started <= NumChunks(s.pendLo.value.req) &&
          Of(s.trace, s.pendLo.value.req.id) == ChunkEvents(s.pendLo.value.req, s.pendLo.value.started))
    && (forall r | r in s.lo :: Of(s.trace, r.id) == [])
    && (forall id: nat | id >= s.next :: Of(s.trace, id) == [])
  }

  /** Exactly one DMA is in flight while something is pending, none otherwise. */
  ghost predicate OneInFlight(s: State) {
    DmaCount(s.trace) == s.interrupts + (if Busy(s) then 1 else 0)
  }

  /** A low request waiting behind a high one has been interrupted between chunks. */
  ghost predicate Between(s: State) {
    && (s.pendLo.Some? ==> s.pendLo.value.started >= 1)
    && (s.pendHi.Some? && s.pendLo.Some? ==> !LastStarted(s.pendLo.value))
  }

  ghost predicate Core(s: State) {
    Fresh(s) && InOrder(s) && Served(s) && Between(s)
  }

  /** Nothing waits while the hardware is idle. */
  ghost predicate Inv(s: State) {
    Core(s) && OneInFlight(s) && (!Busy(s) ==> s.hi == [] && s.lo == [])
  }

  // ----- the steps keep the invariant -----

  lemma OfAppend(trace: seq<Event>, e: Event, id: nat)
    ensures Of(trace + [e], id) == Of(trace, id) + (if e.id == id then [e] else [])
  {
    assert (trace + [e])[..|trace|] == trace;
  }

  lemma CountAppend(trace: seq<Event>, e: Event)
    ensures DmaCount(trace + [e]) == DmaCount(trace) + (if e.Dma? then 1 else 0)
  {
    assert (trace + [e])[..|trace|] == trace;
  }

  lemma EnqueueOrder(s: State, r: Request, priority: U32)
    requires InOrder(s)
    ensures InOrder(Enqueue(s, r, priority))
  {
    if priority == 0 {
      assert s.postedLo + [r] == s.doneLo + OptSeq(ServingReq(s.pendLo)) + (s.lo + [r]);
    } else if priority == 1 {
      assert s.postedHi + [r] == s.doneHi + OptSeq(s.pendHi) + (s.hi + [r]);
    }
  }

  lemma EnqueueFresh(s: State, r: Request, priority: U32)
    requires Fresh(s) && r.id == s.next
    ensures Fresh(Enqueue(s, r, priority))
  {}

  lemma EnqueueServed(s: State, r: Request, priority: U32)
    requires Served(s) && r.id == s.next
    ensures Served(Enqueue(s, r, priority))
  {
    hide Of, NumChunks, ChunkEvents, HighEvents, LowEvents, StartDma;
    assert Of(s.trace, r.id) == [];
  }

  lemma EnqueueCore(s: State, r: Request, priority: U32)
    requires Core(s) && r.id == s.next
    ensures Core(Enqueue(s, r, priority))
  {
    hide NumChunks, LastStarted, InOrder, Fresh, Served;
    EnqueueFresh(s, r, priority);
    EnqueueServed(s, r, priority);
    EnqueueOrder(s, r, priority);
  }

  /** Requests in different places have different ids. */
  lemma HiApart(s: State)
    requires Fresh(s) && InOrder(s) && s.hi != []
    ensures forall r | r in s.doneHi || r in s.hi[1..] || r in s.doneLo || r in s.lo || Some(r) == s.pendHi || Some(r) == ServingReq(s.pendLo) ::
              r.id != s.hi[0].id
    ensures s.hi[0].id < s.next
  {
    var a, p := |s.doneHi|, |OptSeq(s.pendHi)|;
    assert s.postedHi[a + p] == s.hi[0];
    forall r | r in s.doneHi ensures r.id != s.hi[0].id {
      var i :| 0 <= i < a && s.doneHi[i] == r;
      assert s.postedHi[i] == r;
    }
    forall r | r in s.hi[1..] ensures r.id != s.hi[0].id {
      var i :| 0 <= i < |s.hi| - 1 && s.hi[1..][i] == r;
      assert s.postedHi[a + p + 1 + i] == r;
    }
    if s.pendHi.Some? { assert s.postedHi[a] == s.pendHi.value; }
    forall r | r in s.doneLo || r in s.lo || Some(r) == ServingReq(s.pendLo) ensures r.id != s.hi[0].id {
      assert r in s.postedLo;
    }
  }

  lemma LoApart(s: State)
    requires Fresh(s) && InOrder(s) && s.pendLo.Some?
    ensures forall r | r in s.doneHi || r in s.hi || r in s.doneLo || r in s.lo || Some(r) == s.pendHi ::
              r.id != s.pendLo.value.req.id
    ensures s.pendLo.value.req.id < s.next
  {
    var a := |s.doneLo|;
    assert s.postedLo[a] == s.pendLo.value.req;
    forall r | r in s.doneLo ensures r.id != s.pendLo.value.req.id {
      var i :| 0 <= i < a && s.doneLo[i] == r;
      assert s.postedLo[i] == r;
    }
    forall r | r in s.lo ensures r.id != s.pendLo.value.req.id {
      var i :| 0 <= i < |s.lo| && s.lo[i] == r;
      assert s.postedLo[a + 1 + i] == r;
    }
    forall r | r in s.doneHi || r in s.hi || Some(r) == s.pendHi ensures r.id != s.pendLo.value.req.id {
      assert r in s.postedHi;
    }
  }

  lemma PopHiCore(s: State)
    requires Core(s) && s.pendHi.None? && (s.pendLo.Some? ==> !LastStarted(s.pendLo.value))
    ensures Core(PopHi(s))
  {
    hide Of, NumChunks, ChunkEvents, LastStarted, StartDma;
    if s.hi != [] {
      var r, t := s.hi[0], PopHi(s);
      var e := StartDma(r, true, 0, r.length);
      HiApart(s);
      assert e.id == r.id by { DmaId(r, true, 0, r.length); }
      forall id: nat ensures Of(t.trace, id) == Of(s.trace, id) + (if r.id == id then [e] else []) {
        OfAppend(s.trace, e, id);
      }
      assert InOrder(t) by {
        assert s.hi == [r] + s.hi[1..];
        assert s.doneHi + [] + ([r] + s.hi[1..]) == s.doneHi + [r] + s.hi[1..];
      }
      assert Of(s.trace, r.id) == [];
    }
  }

  lemma DmaId(r: Request, high: bool, offset: nat, length: U32)
    ensures StartDma(r, high, offset, length).Dma? && StartDma(r, high, offset, length).id == r.id
    ensures StartDma(r, high, offset, length).high == high
  {}

  lemma TakeLoCore(s: State)
    requires Core(s) && s.pendHi.None?
    ensures Fresh(TakeLo(s)) && InOrder(TakeLo(s)) && Served(TakeLo(s))
  {
    hide Of, NumChunks, LastStarted;
    if s.pendLo.None? && s.lo != [] {
      var t := TakeLo(s);
      assert s.lo == [s.lo[0]] + s.lo[1..];
      assert s.doneLo + [] + ([s.lo[0]] + s.lo[1..]) == s.doneLo + [s.lo[0]] + s.lo[1..];
    }
  }

  /** The length left never wraps before the last chunk has been started. */
  lemma NextChunkIs(v: Serving)
    requires v.started < NumChunks(v.req)
    ensures NextChunk(v) == StartDma(v.req, false, CHUNK * v.started, ChunkLength(v.req, v.started))
  {
    assert Wrap32(v.req.length - CHUNK * v.started) == v.req.length - CHUNK * v.started;
  }

  /** One more chunk of the request being served has been started. */
  lemma ChunkServed(t: State, v: Serving)
    requires Fresh(t) && InOrder(t) && Served(t) && t.pendLo == Some(v) && v.started < NumChunks(v.req)
    ensures Served(t.(trace := t.trace + [NextChunk(v)], pendLo := Some(v.(started := v.started + 1))))
  {
    hide Of, NumChunks, StartDma, NextChunk, HighEvents, LowEvents, Fresh, InOrder;
    NextChunkIs(v);
    var e := NextChunk(v);
    var u := t.(trace := t.trace + [e], pendLo := Some(v.(started := v.started + 1)));
    DmaId(v.req, false, CHUNK * v.started, ChunkLength(v.req, v.started));
    LoApart(t);
    forall id: nat ensures Of(u.trace, id) == Of(t.trace, id) + (if v.req.id == id then [e] else []) {
      OfAppend(t.trace, e, id);
    }
    assert ChunkEvents(v.req, v.started + 1) == ChunkEvents(v.req, v.started) + [e];
  }

  lemma ServiceLoCore(s: State)
    requires Core(s) && s.pendHi.None? && (s.pendLo.Some? ==> !LastStarted(s.pendLo.value))
    ensures Core(ServiceLo(s))
  {
    hide NumChunks, StartDma, NextChunk, Served;
    TakeLoCore(s);
    var t := TakeLo(s);
    if t.pendLo.Some? {
      SomeChunk(t.pendLo.value.req);
      assert t.pendLo.value.started <= NumChunks(t.pendLo.value.req) by { ServedStarted(t); }
      ChunkServed(t, t.pendLo.value);
    }
  }

  lemma ServedStarted(s: State)
    requires Served(s)
    ensures s.pendLo.Some? ==> s.pendLo.value.started <= NumChunks(s.pendLo.value.req)
  {}

  lemma SomeChunk(r: Request)
    ensures NumChunks(r) >= 1
  {}

  /** PopHi and then, if no high request was waiting, ServiceLo. */
  function StartNext(s: State): State {
    var t := PopHi(s);
    if t.pendHi.None? then ServiceLo(t) else t
  }

  /** Whenever nothing is in flight, StartNext starts exactly one DMA, a high one if any waits. */
  lemma StartNextInv(s: State)
    requires Core(s) && s.pendHi.None? && (s.pendLo.Some? ==> !LastStarted(s.pendLo.value))
    ensures Core(StartNext(s))
    ensures var t := StartNext(s);
            && (Busy(t) || (t.hi == [] && t.lo == []))
            && DmaCount(t.trace) == DmaCount(s.trace) + (if Busy(t) then 1 else 0)
            && (s.hi != [] ==> t.pendHi == Some(s.hi[0]) && t.pendLo == s.pendLo)
            && t.interrupts == s.interrupts && t.next == s.next
            && t.postedHi == s.postedHi && t.postedLo == s.postedLo && t.doneHi == s.doneHi && t.doneLo == s.doneLo
  {
    hide Core, StartDma, NextChunk, LastStarted, DmaCount;
    PopHiCore(s);
    if s.hi != [] {
      DmaId(s.hi[0], true, 0, s.hi[0].length);
      CountAppend(s.trace, StartDma(s.hi[0], true, 0, s.hi[0].length));
    } else {
      ServiceLoCore(s);
      var t := TakeLo(s);
      if t.pendLo.Some? {
        ChunkIsDma(t.pendLo.value);
        CountAppend(s.trace, NextChunk(t.pendLo.value));
      }
    }
  }

  lemma ChunkIsDma(v: Serving)
    ensures NextChunk(v).Dma? && !NextChunk(v).high && NextChunk(v).id == v.req.id
  {}

  lemma {:induction false} PostInv(s: State, r: Request, priority: U32)
    requires Inv(s) && r.id == s.next
    ensures Inv(Post(s, r, priority))
  {
    hide Core, PopHi, ServiceLo;
    var t := Enqueue(s, r, priority);
    EnqueueCore(s, r, priority);
    if !Busy(s) {
      StartNextInv(t);
      KickIs(t);
    }
  }

  lemma KickIs(s: State)
    requires !Busy(s)
    ensures Kick(s) == StartNext(s)
  {}

  // ----- the interrupt -----

  function EnqueueAll(s: State, posts: seq<PostArgs>): State
    decreases |posts|
  {
    if posts == [] then s else EnqueueAll(Enqueue(s, posts[0].req, posts[0].priority), posts[1..])
  }

  /** The posts carry the ids that posting in order assigns. */
  predicate Numbered(posts: seq<PostArgs>, next: nat) {
    forall i | 0 <= i < |posts| :: posts[i].req.id == next + i
  }

  lemma {:induction false} PostsOnlyQueue(s: State, posts: seq<PostArgs>)
    requires Busy(s)
    ensures PostAll(s, posts) == EnqueueAll(s, posts)
    decreases |posts|
  {
    if posts != [] {
      PostsOnlyQueue(Enqueue(s, posts[0].req, posts[0].priority), posts[1..]);
    }
  }

  lemma {:induction false} EnqueueAllCore(s: State, posts: seq<PostArgs>)
    requires Core(s) && Numbered(posts, s.next)
    ensures Core(EnqueueAll(s, posts))
    ensures var t := EnqueueAll(s, posts);
            t.pendHi == s.pendHi && t.pendLo == s.pendLo && t.trace == s.trace && t.interrupts == s.interrupts
    decreases |posts|
  {
    hide Core;
    if posts != [] {
      EnqueueCore(s, posts[0].req, posts[0].priority);
      EnqueueAllCore(Enqueue(s, posts[0].req, posts[0].priority), posts[1..]);
    }
  }

  /** Clearing what is pending commutes with queueing. */
  lemma {:induction false} EnqueueAllCommutes(s: State, posts: seq<PostArgs>, hi: bool, r: Request)
    ensures hi ==> EnqueueAll(s.(pendHi := None, doneHi := s.doneHi + [r]), posts) ==
                   var t := EnqueueAll(s, posts); t.(pendHi := None, doneHi := t.doneHi + [r])
    ensures !hi ==> EnqueueAll(s.(pendLo := None, doneLo := s.doneLo + [r]), posts) ==
                    var t := EnqueueAll(s, posts); t.(pendLo := None, doneLo := t.doneLo + [r])
    decreases |posts|
  {
    if posts != [] {
      EnqueueAllCommutes(Enqueue(s, posts[0].req, posts[0].priority), posts[1..], hi, r);
    }
  }

  /** The request whose last DMA has just completed is done, and its callback has been called. */
  function Finish(s: State): State {
    if s.pendHi.Some? then
      var r := s.pendHi.value;
      s.(trace := s.trace + [Callback(r.id, r.callback)], pendHi := None, doneHi := s.doneHi + [r])
    else if s.pendLo.Some? && LastStarted(s.pendLo.value) then
      var r := s.pendLo.value.req;
      s.(trace := s.trace + [Callback(r.id, r.callback)], pendLo := None, doneLo := s.doneLo + [r])
    else s
  }

  lemma CompleteIs(s: State, posts: seq<PostArgs>)
    ensures Complete(s, posts) ==
            if s.pendHi.Some? || (s.pendLo.Some? && LastStarted(s.pendLo.value)) then EnqueueAll(Finish(s), posts) else s
  {
    hide LastStarted;
    if s.pendHi.Some? {
      var r := s.pendHi.value;
      var t := s.(trace := s.trace + [Callback(r.id, r.callback)]);
      PostsOnlyQueue(t, posts);
      EnqueueAllCommutes(t, posts, true, r);
    } else if s.pendLo.Some? && LastStarted(s.pendLo.value) {
      var r := s.pendLo.value.req;
      var t := s.(trace := s.trace + [Callback(r.id, r.callback)]);
      PostsOnlyQueue(t, posts);
      EnqueueAllCommutes(t, posts, false, r);
    }
  }

  lemma PendHiApart(s: State)
    requires Fresh(s) && InOrder(s) && s.pendHi.Some?
    ensures forall r | r in s.doneHi || r in s.hi || r in s.doneLo || r in s.lo || Some(r) == ServingReq(s.pendLo) ::
              r.id != s.pendHi.value.id
    ensures s.pendHi.value.id < s.next
  {
    var a := |s.doneHi|;
    assert s.postedHi[a] == s.pendHi.value;
    forall r | r in s.doneHi ensures r.id != s.pendHi.value.id {
      var i :| 0 <= i < a && s.doneHi[i] == r;
      assert s.postedHi[i] == r;
    }
    forall r | r in s.hi ensures r.id != s.pendHi.value.id {
      var i :| 0 <= i < |s.hi| && s.hi[i] == r;
      assert s.postedHi[a + 1 + i] == r;
    }
    forall r | r in s.doneLo || r in s.lo || Some(r) == ServingReq(s.pendLo) ensures r.id != s.pendHi.value.id {
      assert r in s.postedLo;
    }
  }

  lemma FinishCore(s: State)
    requires Core(s)
    ensures Core(Finish(s)) && Finish(s).next == s.next
    ensures Busy(s) ==> Finish(s).pendHi.None? && (Finish(s).pendLo.Some? ==> !LastStarted(Finish(s).pendLo.value))
    ensures DmaCount(Finish(s).trace) == DmaCount(s.trace)
  {
    hide Of, NumChunks, ChunkEvents, StartDma, DmaCount;
    var t := Finish(s);
    if s.pendHi.Some? {
      var r := s.pendHi.value;
      var e := Callback(r.id, r.callback);
      PendHiApart(s);
      CountAppend(s.trace, e);
      forall id: nat ensures Of(t.trace, id) == Of(s.trace, id) + (if r.id == id then [e] else []) {
        OfAppend(s.trace, e, id);
      }
      assert s.doneHi + [r] + s.hi == s.doneHi + [r] + [] + s.hi;
    } else if s.pendLo.Some? && LastStarted(s.pendLo.value) {
      var r := s.pendLo.value.req;
      var e := Callback(r.id, r.callback);
      LoApart(s);
      CountAppend(s.trace, e);
      forall id: nat ensures Of(t.trace, id) == Of(s.trace, id) + (if r.id == id then [e] else []) {
        OfAppend(s.trace, e, id);
      }
      assert s.doneLo + [r] + s.lo == s.doneLo + [r] + [] + s.lo;
    }
  }

  lemma InterruptInv(s: State, posts: seq<PostArgs>)
    requires Inv(s) && Busy(s) && Numbered(posts, s.next)
    ensures Inv(Interrupt(s, posts))
  {
    hide Core, PopHi, ServiceLo, Complete, LastStarted, DmaCount, EnqueueAll, Finish;
    FinishCore(s);
    CompleteIs(s, posts);
    EnqueueAllCore(Finish(s), posts);
    FinishIdle(s);
    var t := Complete(s, posts);
    StartNextInv(t);
    var u := StartNext(t);
    assert Interrupt(s, posts) == u.(interrupts := s.interrupts + 1);
    CoreCounts(u, s.interrupts + 1);
  }

  lemma FinishIdle(s: State)
    ensures !(s.pendHi.Some? || (s.pendLo.Some? && LastStarted(s.pendLo.value))) ==> Finish(s) == s
  {}

  lemma CoreCounts(s: State, n: nat)
    requires Core(s)
    ensures Core(s.(interrupts := n))
  {}

  // ----- runs -----

  datatype Step = PostStep(args: PostArgs) | InterruptStep(posts: seq<PostArgs>)

  /** Interrupts come only from a DMA in flight; ids are handed out in posting order. */
  predicate Allowed(s: State, step: Step) {
    match step
    case PostStep(args) => args.req.id == s.next
    case InterruptStep(posts) => Busy(s) && Numbered(posts, s.next)
  }

  function Next(s: State, step: Step): State {
    match step
    case PostStep(args) => Post(s, args.req, args.priority)
    case InterruptStep(posts) => Interrupt(s, posts)
  }

  predicate AllowedRun(s: State, steps: seq<Step>)
    decreases |steps|
  {
    steps == [] || (Allowed(s, steps[0]) && AllowedRun(Next(s, steps[0]), steps[1..]))
  }

  function Run(s: State, steps: seq<Step>): State
    decreases |steps|
  {
    if steps == [] then s else Run(Next(s, steps[0]), steps[1..])
  }

  lemma InitInv()
    ensures Inv(INIT)
  {}

  lemma StepInv(s: State, step: Step)
    requires Inv(s) && Allowed(s, step)
    ensures Inv(Next(s, step))
  {
    hide Inv, Post, Interrupt;
    match step
    case PostStep(args) => PostInv(s, args.req, args.priority);
    case InterruptStep(posts) => InterruptInv(s, posts);
  }

  /** Every reachable state satisfies the invariant. */
  lemma {:induction false} RunInv(s: State, steps: seq<Step>)
    requires Inv(s) && AllowedRun(s, steps)
    ensures Inv(Run(s, steps))
    decreases |steps|
  {
    hide Inv, Allowed, Next;
    if steps != [] {
      StepInv(s, steps[0]);
      RunInv(Next(s, steps[0]), steps[1..]);
    }
  }

  /**
   * What a run has done, seen from one request: a completed one has had exactly its DMAs, in order and
   * partitioning its range, and then its callback, once.
   */
  lemma CompletedRequests(steps: seq<Step>)
    requires AllowedRun(INIT, steps)
    ensures var s := Run(INIT, steps);
            && s.doneHi <= s.postedHi && s.doneLo <= s.postedLo
            && (forall r | r in s.doneHi :: Of(s.trace, r.id) == HighEvents(r))
            && (forall r | r in s.doneLo :: Of(s.trace, r.id) == LowEvents(r))
  {
    hide Run, HighEvents, LowEvents, Of, NumChunks, ChunkEvents;
    InitInv();
    RunInv(INIT, steps);
  }

  lemma StartNextEvent(s: State)
    requires s.pendHi.None?
    ensures var t := StartNext(s);
            && s.trace <= t.trace && |t.trace| <= |s.trace| + 1
            && (|t.trace| > |s.trace| ==>
                  t.trace[|s.trace|].Dma? && (!t.trace[|s.trace|].high ==> t.hi == [] && t.pendHi.None?))
  {
    hide StartDma, NextChunk;
    if s.hi != [] {
      DmaId(s.hi[0], true, 0, s.hi[0].length);
    } else if TakeLo(s).pendLo.Some? {
      ChunkIsDma(TakeLo(s).pendLo.value);
    }
  }

  lemma {:induction false} EnqueueAllTrace(s: State, posts: seq<PostArgs>)
    ensures EnqueueAll(s, posts).trace == s.trace && EnqueueAll(s, posts).pendHi == s.pendHi
    decreases |posts|
  {
    if posts != [] {
      EnqueueAllTrace(Enqueue(s, posts[0].req, posts[0].priority), posts[1..]);
    }
  }

  /** No low chunk is started while a high request waits: a step that starts one leaves no high request. */
  lemma HighFirst(s: State, step: Step, i: nat)
    requires Inv(s) && Allowed(s, step)
    requires |s.trace| <= i < |Next(s, step).trace|
    requires Next(s, step).trace[i].Dma? && !Next(s, step).trace[i].high
    ensures Next(s, step).hi == [] && Next(s, step).pendHi.None?
  {
    hide Inv, StartNext, EnqueueAll, LastStarted, Complete, PopHi, ServiceLo;
    match step
    case PostStep(args) =>
      var t := Enqueue(s, args.req, args.priority);
      if !Busy(s) {
        KickIs(t);
        StartNextEvent(t);
      }
    case InterruptStep(posts) =>
      CompleteIs(s, posts);
      EnqueueAllTrace(Finish(s), posts);
      var t := Complete(s, posts);
      InterruptIs(s, posts);
      StartNextEvent(t);
  }

  lemma InterruptIs(s: State, posts: seq<PostArgs>)
    ensures Interrupt(s, posts) == StartNext(Complete(s, posts)).(interrupts := s.interrupts + 1)
  {
    hide Complete, PopHi, ServiceLo;
  }

  // ----- progress -----

  function Chunks(rs: seq<Request>): nat {
    if rs == [] then 0 else NumChunks(rs[0]) + Chunks(rs[1..])
  }

  /** The number of DMAs that have not completed yet. */
  function Remaining(s: State): int {
    |s.hi| + Chunks(s.lo) + (if s.pendHi.Some? then 1 else 0) +
    (if s.pendLo.Some? then NumChunks(s.pendLo.value.req) - s.pendLo.value.started + (if s.pendHi.None? then 1 else 0)
     else 0)
  }

  lemma StartNextRemaining(s: State)
    requires s.pendHi.None?
    ensures Remaining(StartNext(s)) == Remaining(s) - (if s.pendLo.Some? then 1 else 0)
  {
    hide NumChunks, StartDma, NextChunk;
    if s.hi == [] && s.pendLo.None? && s.lo != [] {
      assert Chunks(s.lo) == NumChunks(s.lo[0]) + Chunks(s.lo[1..]);
    }
  }

  /** Without new posts every interrupt leaves one DMA less to do. */
  lemma InterruptProgress(s: State)
    requires Inv(s) && Busy(s)
    ensures Remaining(Interrupt(s, [])) == Remaining(s) - 1
  {
    hide NumChunks, StartNext, Of, ChunkEvents, Complete;
    InterruptIs(s, []);
    CompleteIs(s, []);
    assert EnqueueAll(Finish(s), []) == Finish(s);
    FinishIdle(s);
    StartNextRemaining(Complete(s, []));
    if s.pendHi.None? && s.pendLo.Some? && LastStarted(s.pendLo.value) {
      assert Remaining(Finish(s)) == Remaining(s) - 1;
    }
  }

  lemma {:induction false} ChunksPositive(rs: seq<Request>)
    ensures Chunks(rs) >= |rs|
  {
    hide NumChunks;
    if rs != [] {
      SomeChunk(rs[0]);
      ChunksPositive(rs[1..]);
    }
  }

  lemma RemainingZero(s: State)
    requires Inv(s)
    ensures Remaining(s) >= 0 && (Remaining(s) == 0 <==> !Busy(s))
  {
    hide NumChunks, Of, ChunkEvents;
    ChunksPositive(s.lo);
  }

  /** As many interrupts as there are DMAs left drain all queues, and then every request posted is done. */
  lemma {:induction false} Drains(s: State, n: nat) returns (steps: seq<Step>)
    requires Inv(s) && Remaining(s) == n
    ensures |steps| == n && AllowedRun(s, steps)
    ensures var t := Run(s, steps);
            && !Busy(t) && t.hi == [] && t.lo == []
            && t.doneHi == t.postedHi == s.postedHi && t.doneLo == t.postedLo == s.postedLo
    decreases n
  {
    hide Remaining, Interrupt, NumChunks, Of, ChunkEvents, Fresh;
    RemainingZero(s);
    steps := [];
    if n > 0 {
      InterruptInv(s, []);
      InterruptProgress(s);
      InterruptKeepsPosts(s);
      var rest := Drains(Interrupt(s, []), n - 1);
      steps := [InterruptStep([])] + rest;
      assert steps[1..] == rest;
    }
  }

  lemma InterruptKeepsPosts(s: State)
    requires Inv(s)
    ensures Interrupt(s, []).postedHi == s.postedHi && Interrupt(s, []).postedLo == s.postedLo
  {
    hide Inv, StartDma, NextChunk;
    assert PostAll(s, []) == s;
  }
}
