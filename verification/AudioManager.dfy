/** `LockFreeQueueManager` as an object used by one thread at a time: sample arrays filled in place, a rotating
    buffer counter, and the drain loop of `main`. The interleaved runs are in module AudioQueue. */
module AudioManager {
  import opened Wrappers
  import Q = LockFreeQueue
  import opened AudioQueue

  /** The C struct: two sample arrays and a count. */
  class Buffer<S(0)> {
    const raw: array<S>
    const data: array<S>
    var pos: int

    constructor (size: nat)
      ensures raw.Length == data.Length == size && pos == 0 && raw != data && fresh(raw) && fresh(data)
    {
      raw, data := new S[size], new S[size];
      pos := 0;
    }

    ghost function View(): AudioBuffer<S>
      reads this, raw, data
    {
      AudioBuffer(raw[..], data[..], pos)
    }

    /** The sample loop of `process`, and the store of the count. */
    method Fill(from: Payload<S>)
      requires raw != data && raw.Length == data.Length && from.Fits(raw.Length)
      modifies this, raw, data
      ensures View().Has(from)
    {
      var i := 0;
      while i < from.pos
        invariant 0 <= i <= |from.raw|
        invariant forall n :: 0 <= n < i ==> raw[n] == from.raw[n] && data[n] == from.data[n]
      {
        raw[i] := from.raw[i];
        data[i] := from.data[i];
        i := i + 1;
      }
      pos := from.pos;
      assert raw[..][..|from.raw|] == from.raw && data[..][..|from.data|] == from.data;
    }
  }

  /** The buffers and their arrays are all different objects. */
  ghost predicate Separate<S(0)>(pool: seq<Buffer<S>>, size: nat) {
    && |pool| == SPARE_BUFFERS
    && (forall i :: 0 <= i < |pool| ==>
          pool[i].raw != pool[i].data && pool[i].raw.Length == pool[i].data.Length == size)
    && (forall i, j :: 0 <= i < j < |pool| ==>
          && pool[i] != pool[j] && pool[i].raw != pool[j].raw && pool[i].raw != pool[j].data
          && pool[i].data != pool[j].raw && pool[i].data != pool[j].data)
  }

  ghost function Owned<S(0)>(pool: seq<Buffer<S>>): set<object> {
    (set i | 0 <= i < |pool| :: pool[i] as object)
    + (set i | 0 <= i < |pool| :: pool[i].raw as object) + (set i | 0 <= i < |pool| :: pool[i].data as object)
  }

  ghost function Views<S(0)>(pool: seq<Buffer<S>>): seq<AudioBuffer<S>>
    reads Owned(pool)
  {
    seq(|pool|, i requires 0 <= i < |pool| reads Owned(pool) => pool[i].View())
  }

  /** The queued indices are consecutive buffers, round robin, and hold the payloads of the backlog. */
  ghost predicate Tracked<S>(contents: seq<nat>, views: seq<AudioBuffer<S>>, backlog: seq<Payload<S>>, first: nat) {
    && |backlog| == |contents| && |views| == SPARE_BUFFERS
    && forall i :: 0 <= i < |backlog| ==>
         contents[i] == (first + i) % SPARE_BUFFERS && views[contents[i]].Has(backlog[i])
  }

  lemma TrackedAppend<S>(contents: seq<nat>, views: seq<AudioBuffer<S>>, backlog: seq<Payload<S>>, first: nat,
                         n: nat, view: AudioBuffer<S>, call: Payload<S>)
    requires Tracked(contents, views, backlog, first) && |backlog| < SPARE_BUFFERS
    requires n == (first + |backlog|) % SPARE_BUFFERS && view.Has(call)
    ensures Tracked(contents + [n], views[n := view], backlog + [call], first)
  {
    FillIsFree(first, first + |backlog|);
    forall i | 0 <= i < |backlog| ensures contents[i] != n {
      assert first <= first + i;
    }
  }

  lemma TrackedRest<S>(contents: seq<nat>, views: seq<AudioBuffer<S>>, backlog: seq<Payload<S>>, first: nat)
    requires Tracked(contents, views, backlog, first) && |backlog| > 0
    ensures Tracked(contents[1..], views, backlog[1..], first + 1)
    ensures contents[0] == first % SPARE_BUFFERS && contents[0] < |views| && views[contents[0]].Has(backlog[0])
  {
    assert contents[0] == (first + 0) % SPARE_BUFFERS && views[contents[0]].Has(backlog[0]);
    forall i | 0 <= i < |backlog| - 1
      ensures contents[1..][i] == (first + 1 + i) % SPARE_BUFFERS && views[contents[1..][i]].Has(backlog[1..][i])
    {
      assert first + 1 + i == first + (i + 1);
    }
  }

  /** The buffer counter after one call of `process`. */
  function NextCounter(counter: nat): nat { if counter + 1 >= SPARE_BUFFERS then 0 else counter + 1 }

  lemma CounterStep(n: nat)
    ensures (n + 1) % SPARE_BUFFERS == NextCounter(n % SPARE_BUFFERS)
  {
    NextBuffer(n);
  }

  lemma OnceRound(n: nat)
    ensures (n + SPARE_BUFFERS) % SPARE_BUFFERS == n % SPARE_BUFFERS
  {
  }

  class Manager<S(0)> {
    const queue: Q.LockFreeQueue<nat>
    const pool: seq<Buffer<S>>
    const size: nat
    const functions: nat
    var bufferCounter: nat
    /** The payloads of the queued buffers. */
    ghost var backlog: seq<Payload<S>>
    ghost var first: nat

    constructor (queue: Q.LockFreeQueue<nat>, pool: seq<Buffer<S>>, size: nat, functions: nat)
      requires queue.Valid() && queue.contents == [] && queue.capacity == SPARE_BUFFERS
      requires Separate(pool, size) && queue as object !in Owned(pool) && queue.buffer as object !in Owned(pool)
      ensures Valid() && backlog == [] && this.queue == queue && this.pool == pool && this.functions == functions
      ensures this.size == size
    {
      this.queue, this.pool, this.size, this.functions := queue, pool, size, functions;
      bufferCounter, backlog, first := 0, [], 0;
    }

    ghost predicate Valid()
      reads this, queue, queue.buffer, Owned(pool)
    {
      && Separate(pool, size) && queue.Valid() && queue.capacity == SPARE_BUFFERS
      && queue.buffer as object !in Owned(pool) && queue as object !in Owned(pool) && this !in Owned(pool)
      && |backlog| == |queue.contents| && bufferCounter == (first + |backlog|) % SPARE_BUFFERS
      && Tracked(queue.contents, Views(pool), backlog, first)
    }

    /** `process`. With room in the pool the call is queued, and nothing queued before is touched. With a full
        queue the buffer filled is that of the oldest queued call, and the push fails; the counter advances. */
    method Process(call: Payload<S>)
      requires Valid() && call.Fits(size)
      modifies this, queue, queue.buffer, Owned(pool)
      ensures first == old(first) && bufferCounter == NextCounter(old(bufferCounter))
      ensures old(|backlog|) < SPARE_BUFFERS ==> Valid() && backlog == old(backlog) + [call]
      ensures old(|backlog|) == SPARE_BUFFERS ==>
                && queue.contents == old(queue.contents) && queue.contents[0] == old(bufferCounter)
                && queue.contents[0] < |pool| && pool[queue.contents[0]].View().Has(call)
      ensures forall i :: 0 <= i < |pool| && i != old(bufferCounter) ==> pool[i].View() == old(pool[i].View())
    {
      hide Tracked, Views, AudioBuffer.Has, Payload.Fits, Q.LockFreeQueue.Valid, NextCounter;
      ghost var views := Views(pool);
      FillNext(call);
      if |backlog| < SPARE_BUFFERS {
        TrackedAppend(queue.contents, views, backlog, first, bufferCounter, pool[bufferCounter].View(), call);
      } else {
        TrackedRest(queue.contents, views, backlog, first);
        OnceRound(first);
      }
      CounterStep(first + |backlog|);
      var ok := PushNext();
      if ok {
        backlog := backlog + [call];
      }
    }

    /** The first half of `process`: one buffer is filled, the others stay as they are. */
    method FillNext(call: Payload<S>)
      requires Separate(pool, size) && call.Fits(size) && bufferCounter < |pool| && this !in Owned(pool)
      requires queue as object !in Owned(pool) && queue.buffer as object !in Owned(pool)
      modifies Owned(pool)
      ensures pool[bufferCounter].View().Has(call)
      ensures Views(pool) == old(Views(pool))[bufferCounter := pool[bufferCounter].View()]
      ensures forall i :: 0 <= i < |pool| && i != bufferCounter ==> pool[i].View() == old(pool[i].View())
    {
      ghost var views := Views(pool);
      pool[bufferCounter].Fill(call);
      assert Views(pool) == views[bufferCounter := pool[bufferCounter].View()];
    }

    /** The second half: the buffer is pushed, and the counter advances whether or not there was room. */
    method PushNext() returns (ok: bool)
      requires queue.Valid()
      modifies this`bufferCounter, queue, queue.buffer
      ensures queue.Valid() && bufferCounter == NextCounter(old(bufferCounter))
      ensures ok <==> |old(queue.contents)| < queue.capacity
      ensures queue.contents == if ok then old(queue.contents) + [old(bufferCounter)] else old(queue.contents)
    {
      ok := queue.Push(bufferCounter);
      bufferCounter := bufferCounter + 1;
      if bufferCounter >= SPARE_BUFFERS {
        bufferCounter := 0;
      }
    }

    /** The calls that `main` makes with one buffer. */
    method CallAll(b: Buffer<S>, ghost call: Payload<S>) returns (made: seq<(nat, Payload<S>)>)
      requires b.View().Has(call)
      ensures made == Round(call, functions)
    {
      SeenIs(b.View(), call);
      var payload := Payload(if b.pos < 0 then [] else b.raw[..b.pos], if b.pos < 0 then [] else b.data[..b.pos], b.pos);
      made := [];
      var j := 0;
      while j < functions
        invariant 0 <= j <= functions && made == Round(call, j)
      {
        made := made + [(j, payload)];
        j := j + 1;
      }
    }

    /** One pop, and the calls with the buffer popped. */
    method Serve() returns (popped: bool, made: seq<(nat, Payload<S>)>)
      requires Valid()
      modifies this, queue
      ensures Valid() && (popped <==> old(backlog) != [])
      ensures if popped then made == Round(old(backlog)[0], functions) && backlog == old(backlog)[1..]
              else made == [] && backlog == []
    {
      hide Tracked;
      if backlog != [] {
        TrackedRest(queue.contents, Views(pool), backlog, first);
      }
      var item := queue.Pop();
      if item.None? { return false, []; }
      made := CallAll(pool[item.value], backlog[0]);
      backlog, first := backlog[1..], first + 1;
      popped := true;
    }

    /** The inner loop of `main`: pops until the queue is empty and calls every function with every buffer. */
    method Drain() returns (delivered: seq<(nat, Payload<S>)>)
      requires Valid()
      modifies this, queue
      ensures Valid() && backlog == [] && delivered == Rounds(old(backlog), functions)
    {
      hide Valid, Round;
      delivered := [];
      ghost var all, done := backlog, 0;
      assert all[..0] == [] && all[0..] == all;
      while true
        invariant Valid() && done <= |all| && backlog == all[done..]
        invariant delivered == Rounds(all[..done], functions)
        decreases |backlog|
      {
        var popped, made := Serve();
        if !popped { break; }
        RoundsStep(all, done, functions);
        delivered := delivered + made;
        done := done + 1;
      }
      assert all[..done] == all;
    }
  }
}
