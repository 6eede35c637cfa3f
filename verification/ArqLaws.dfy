/**
 * What the DMA queue does to memory: over every run, each byte of a completed request has been moved once, in the
 * direction and between the addresses its post asked for, and requests complete in the order of their posts.
 */
module ArqLaws {
  import opened Bits
  import opened ArqModel

  /** The address `j` bytes on, modulo 2^32. */
  function Address(a: nat, j: nat): nat {
    (a + j) % 0x1_0000_0000
  }

  /** The event moves the byte at main memory address `mram` to or from the byte at ARAM address `aram`. */
  ghost predicate MovesByte(e: Event, toAram: bool, mram: nat, aram: nat) {
    && e.Dma? && (e.kind == 0 <==> toAram)
    && exists j: nat :: j < e.length && Address(e.mram, j) == mram && Address(e.aram, j) == aram
  }

  /** Byte `x` of a request: type 0 goes from main memory to ARAM, every other type back. */
  ghost predicate MovesOf(e: Event, r: Request, x: nat) {
    var from, to := Address(r.source, x), Address(r.dest, x);
    if r.kind == 0 then MovesByte(e, true, from, to) else MovesByte(e, false, to, from)
  }

  lemma AddressAdd(a: nat, b: nat, j: nat)
    ensures Address(Wrap32(a + b), j) == Address(a, b + j)
  {}

  /** Addresses wrap around, but no request is long enough to come back to its start. */
  lemma AddressApart(a: nat, x: nat, y: nat)
    requires x < 0x1_0000_0000 && y < 0x1_0000_0000 && Address(a, x) == Address(a, y)
    ensures x == y
  {
    var p, q := (a + x) / 0x1_0000_0000, (a + y) / 0x1_0000_0000;
    assert x - y == 0x1_0000_0000 * (p - q);
  }

  /** A DMA of `length` bytes at an offset moves exactly those bytes of the request. */
  lemma DmaMoves(r: Request, high: bool, offset: nat, length: U32, x: nat)
    requires x < r.length && offset + length <= r.length
    ensures MovesOf(StartDma(r, high, offset, length), r, x) <==> offset <= x < offset + length
  {
    hide Address, Wrap32;
    var e := StartDma(r, high, offset, length);
    if offset <= x < offset + length {
      var j := x - offset;
      AddressAdd(r.source, offset, j);
      AddressAdd(r.dest, offset, j);
      assert Address(e.mram, j) == if r.kind == 0 then Address(r.source, x) else Address(r.dest, x);
    }
    if MovesOf(e, r, x) {
      var a := if r.kind == 0 then r.source else r.dest;
      var j: nat :| j < e.length && Address(e.mram, j) == Address(a, x);
      AddressAdd(a, offset, j);
      AddressApart(a, x, offset + j);
    }
  }

  lemma {:induction false} ChunkEventAt(r: Request, k: nat, i: nat)
    requires i < k <= NumChunks(r)
    ensures |ChunkEvents(r, k)| == k && ChunkEvents(r, k)[i] == StartDma(r, false, CHUNK * i, ChunkLength(r, i))
  {
    hide NumChunks, StartDma, ChunkLength;
    if i < k - 1 {
      ChunkEventAt(r, k - 1, i);
    } else if k > 1 {
      ChunkEventAt(r, k - 1, 0);
    }
  }

  lemma ChunkInside(r: Request, k: nat)
    requires k < NumChunks(r)
    ensures CHUNK * k + ChunkLength(r, k) <= r.length && ChunkLength(r, k) <= 4096
    ensures k + 1 < NumChunks(r) ==> ChunkLength(r, k) == 4096
  {
    ChunksPartition(r, k);
  }

  /** The `i`-th event is the only one of them that moves byte `x`. */
  ghost predicate OnlyMover(own: seq<Event>, r: Request, x: nat, i: nat) {
    && i < |own| && MovesOf(own[i], r, x)
    && forall j | 0 <= j < |own| && j != i :: !MovesOf(own[j], r, x)
  }

  lemma LowMovesOnce(r: Request, x: nat) returns (i: nat)
    requires x < r.length
    ensures OnlyMover(LowEvents(r), r, x, i)
  {
    hide NumChunks, ChunkEvents, ChunkLength, StartDma, MovesByte, MovesOf;
    i := x / CHUNK;
    ByteInOneChunk(r, x);
    var n, own := NumChunks(r), LowEvents(r);
    ChunkEventAt(r, n, i);
    CallbackMoves(r, x);
    forall j | 0 <= j < n ensures MovesOf(own[j], r, x) <==> j == i {
      ChunkEventAt(r, n, j);
      ChunkInside(r, j);
      DmaMoves(r, false, CHUNK * j, ChunkLength(r, j), x);
    }
  }

  lemma CallbackMoves(r: Request, x: nat)
    ensures !MovesOf(Callback(r.id, r.callback), r, x)
  {}

  lemma HighMovesOnce(r: Request, x: nat)
    requires x < r.length
    ensures OnlyMover(HighEvents(r), r, x, 0)
  {
    hide StartDma, MovesByte, MovesOf;
    DmaMoves(r, true, 0, r.length, x);
    CallbackMoves(r, x);
  }

  /** In every run each byte of a completed request has been moved by exactly one of the request's DMAs. */
  lemma EachByteMoved(steps: seq<Step>, r: Request, x: nat) returns (i: nat)
    requires AllowedRun(INIT, steps) && x < r.length
    requires r in Run(INIT, steps).doneHi || r in Run(INIT, steps).doneLo
    ensures OnlyMover(Of(Run(INIT, steps).trace, r.id), r, x, i)
  {
    hide Run, Of, HighEvents, LowEvents, OnlyMover;
    CompletedRequests(steps);
    if r in Run(INIT, steps).doneHi {
      HighMovesOnce(r, x);
      i := 0;
    } else {
      i := LowMovesOnce(r, x);
    }
  }

  function MovedBytes(own: seq<Event>): nat {
    if own == [] then 0
    else MovedBytes(own[..|own| - 1]) + if own[|own| - 1].Dma? then own[|own| - 1].length else 0
  }

  lemma MovedAppend(own: seq<Event>, e: Event)
    ensures MovedBytes(own + [e]) == MovedBytes(own) + if e.Dma? then e.length else 0
  {
    assert (own + [e])[..|own|] == own;
  }

  lemma {:induction false} ChunksMove(r: Request, k: nat)
    requires k <= NumChunks(r)
    ensures MovedBytes(ChunkEvents(r, k)) == if k == NumChunks(r) then r.length else CHUNK * k
  {
    hide NumChunks, MovedBytes;
    if k == 0 {
      SomeChunk(r);
      assert MovedBytes([]) == 0 by { NothingMoved(); }
    } else {
      ChunksMove(r, k - 1);
      ChunksPartition(r, k - 1);
      MovedAppend(ChunkEvents(r, k - 1), StartDma(r, false, CHUNK * (k - 1), ChunkLength(r, k - 1)));
    }
  }

  lemma NothingMoved()
    ensures MovedBytes([]) == 0
  {}

  /**
   * The events of a completed request: DMAs that move as many bytes as it has, each at most 4096 for a low
   * request and one whole for a high one, and last of all its own callback, the only one.
   */
  lemma CompletedEvents(steps: seq<Step>, r: Request)
    requires AllowedRun(INIT, steps)
    requires r in Run(INIT, steps).doneHi || r in Run(INIT, steps).doneLo
    ensures var own := Of(Run(INIT, steps).trace, r.id);
            && |own| >= 2 && own[|own| - 1] == Callback(r.id, r.callback)
            && (forall i | 0 <= i < |own| - 1 :: own[i].Dma? && own[i].kind == r.kind)
            && MovedBytes(own) == r.length
            && (r in Run(INIT, steps).doneHi ==> |own| == 2)
            && (r !in Run(INIT, steps).doneHi ==>
                  own[|own| - 2].length <= 4096 && forall i | 0 <= i < |own| - 2 :: own[i].length == 4096)
  {
    hide Run, Of, NumChunks, ChunkLength, MovedBytes;
    CompletedRequests(steps);
    var own := Of(Run(INIT, steps).trace, r.id);
    if r in Run(INIT, steps).doneHi {
      var e, none: seq<Event> := StartDma(r, true, 0, r.length), [];
      assert own == none + [e] + [Callback(r.id, r.callback)];
      NothingMoved();
      MovedAppend(none, e);
      MovedAppend(none + [e], Callback(r.id, r.callback));
    } else {
      var n := NumChunks(r);
      SomeChunk(r);
      ChunksMove(r, n);
      MovedAppend(ChunkEvents(r, n), Callback(r.id, r.callback));
      forall i | 0 <= i < n
        ensures |own| == n + 1 && own[i] == StartDma(r, false, CHUNK * i, ChunkLength(r, i))
        ensures ChunkLength(r, i) <= 4096 && (i < n - 1 ==> ChunkLength(r, i) == 4096)
      {
        ChunkEventAt(r, n, i);
        ChunkInside(r, i);
      }
      ChunkEventAt(r, n, 0);
    }
  }

  // ----- which queue a post goes to -----

  /** The requests posted with one priority, in order. */
  function WithPriority(posts: seq<PostArgs>, priority: U32): seq<Request> {
    if posts == [] then []
    else if posts[0].priority == priority then [posts[0].req] + WithPriority(posts[1..], priority)
    else WithPriority(posts[1..], priority)
  }

  lemma ServingKeepsPosts(s: State)
    ensures Kick(s).postedHi == s.postedHi && Kick(s).postedLo == s.postedLo
    ensures PopHi(s).postedHi == s.postedHi && PopHi(s).postedLo == s.postedLo
    ensures ServiceLo(s).postedHi == s.postedHi && ServiceLo(s).postedLo == s.postedLo
  {}

  /** Priority 0 is low and 1 is high; a post with any other priority is lost. */
  lemma PostedWhere(s: State, r: Request, priority: U32)
    ensures var t := Post(s, r, priority);
            && t.postedLo == s.postedLo + (if priority == 0 then [r] else [])
            && t.postedHi == s.postedHi + (if priority == 1 then [r] else [])
  {
    hide Kick;
    ServingKeepsPosts(Enqueue(s, r, priority));
  }

  lemma {:induction false} PostedAll(s: State, posts: seq<PostArgs>)
    ensures PostAll(s, posts).postedLo == s.postedLo + WithPriority(posts, 0)
    ensures PostAll(s, posts).postedHi == s.postedHi + WithPriority(posts, 1)
    decreases |posts|
  {
    hide Post;
    if posts != [] {
      PostedWhere(s, posts[0].req, posts[0].priority);
      PostedAll(Post(s, posts[0].req, posts[0].priority), posts[1..]);
    }
  }

  /** A callback runs at the interrupt: of the high request, or of the low one behind its last chunk. */
  predicate CallbackDue(s: State) {
    s.pendHi.Some? || (s.pendLo.Some? && s.pendLo.value.started == NumChunks(s.pendLo.value.req))
  }

  /** The posts made in a step; without a callback an interrupt makes none. */
  function PostsOf(s: State, step: Step): seq<PostArgs> {
    if step.PostStep? then [step.args] else if CallbackDue(s) then step.posts else []
  }

  function AllPosts(s: State, steps: seq<Step>): seq<PostArgs>
    decreases |steps|
  {
    if steps == [] then [] else PostsOf(s, steps[0]) + AllPosts(Next(s, steps[0]), steps[1..])
  }

  lemma OnePost(args: PostArgs, priority: U32)
    ensures WithPriority([args], priority) == if args.priority == priority then [args.req] else []
  {
    assert WithPriority([args][1..], priority) == [];
  }

  lemma {:induction false} WithPriorityConcat(a: seq<PostArgs>, b: seq<PostArgs>, priority: U32)
    ensures WithPriority(a + b, priority) == WithPriority(a, priority) + WithPriority(b, priority)
  {
    if a == [] {
      assert a + b == b;
    } else {
      var x, y := WithPriority(a[1..], priority), WithPriority(b, priority);
      assert (a + b)[1..] == a[1..] + b;
      WithPriorityConcat(a[1..], b, priority);
      assert [a[0].req] + (x + y) == ([a[0].req] + x) + y;
    }
  }

  lemma CompletePosted(s: State, posts: seq<PostArgs>)
    ensures var made := if CallbackDue(s) then posts else [];
            && Complete(s, posts).postedLo == s.postedLo + WithPriority(made, 0)
            && Complete(s, posts).postedHi == s.postedHi + WithPriority(made, 1)
  {
    hide PostAll, NumChunks;
    if s.pendHi.Some? {
      PostedAll(s.(trace := s.trace + [Callback(s.pendHi.value.id, s.pendHi.value.callback)]), posts);
    } else if CallbackDue(s) {
      PostedAll(s.(trace := s.trace + [Callback(s.pendLo.value.req.id, s.pendLo.value.req.callback)]), posts);
    }
  }

  lemma StepPosted(s: State, step: Step)
    ensures Next(s, step).postedLo == s.postedLo + WithPriority(PostsOf(s, step), 0)
    ensures Next(s, step).postedHi == s.postedHi + WithPriority(PostsOf(s, step), 1)
  {
    hide PostAll, Post, PopHi, ServiceLo, Kick, Complete, WithPriority;
    match step
    case PostStep(args) =>
      PostedWhere(s, args.req, args.priority);
      OnePost(args, 0);
      OnePost(args, 1);
    case InterruptStep(posts) =>
      var c := Complete(s, posts);
      CompletePosted(s, posts);
      ServingKeepsPosts(c);
      ServingKeepsPosts(PopHi(c));
  }

  lemma {:induction false} RunPosted(s: State, steps: seq<Step>)
    ensures Run(s, steps).postedLo == s.postedLo + WithPriority(AllPosts(s, steps), 0)
    ensures Run(s, steps).postedHi == s.postedHi + WithPriority(AllPosts(s, steps), 1)
    decreases |steps|
  {
    hide Next, PostsOf;
    if steps == [] {
      assert WithPriority([], 0) == [] && WithPriority([], 1) == [];
    } else {
      var t, made, rest := Next(s, steps[0]), PostsOf(s, steps[0]), AllPosts(Next(s, steps[0]), steps[1..]);
      StepPosted(s, steps[0]);
      RunPosted(t, steps[1..]);
      WithPriorityConcat(made, rest, 0);
      WithPriorityConcat(made, rest, 1);
    }
  }

  /** In every run the requests completed are, for each priority, the first ones posted with it, in that order. */
  lemma CompletedInOrder(steps: seq<Step>)
    requires AllowedRun(INIT, steps)
    ensures Run(INIT, steps).doneLo <= WithPriority(AllPosts(INIT, steps), 0)
    ensures Run(INIT, steps).doneHi <= WithPriority(AllPosts(INIT, steps), 1)
  {
    hide Run, AllPosts, Of;
    CompletedRequests(steps);
    RunPosted(INIT, steps);
  }
}
