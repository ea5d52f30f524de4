/** The audio hand-off of LockFreeQueue.cpp: `process` fills pooled buffers round robin and queues pointers to
    them, `main` pops the pointers and calls the registered functions. The two threads are interleaved between
    single sample stores, single steps of the queue (module LockFreeQueue) and single callbacks. */
module AudioQueue {
  import opened Wrappers
  import Q = LockFreeQueue

  const SPARE_BUFFERS := 128
  const INDEX_BITS := 32

  /** The arguments of one call of `process`: as many samples as `pos` says, none when it is negative. */
  datatype Payload<S> = Payload(raw: seq<S>, data: seq<S>, pos: int)
  {
    predicate Fits(size: nat) {
      |raw| == |data| == (if pos < 0 then 0 else pos) && |raw| <= size
    }
  }

  /** An `AudioBuffer`: two sample arrays of the pool's size, and the number of samples that count. */
  datatype AudioBuffer<S> = AudioBuffer(raw: seq<S>, data: seq<S>, pos: int)
  {
    /** What a callback finds in the buffer. */
    function Seen(): Payload<S>
      requires pos <= |raw| && pos <= |data|
    {
      Payload(if pos < 0 then [] else raw[..pos], if pos < 0 then [] else data[..pos], pos)
    }

    ghost predicate Has(p: Payload<S>) {
      && pos == p.pos && |raw| == |data| && p.Fits(|raw|)
      && raw[..|p.raw|] == p.raw && data[..|p.data|] == p.data
    }
  }

  /** `process`: filling (with the stores of sample `i` half done or not), pushing, advancing the counter. */
  datatype Producer<S> =
    | Ready
    | Filling(p: Payload<S>, i: nat, rawStored: bool)
    | Filled
    | Pushing
    | Advancing

  /** `main`: between pops, popping, calling function `j` with buffer `b`. */
  datatype Consumer = Waiting | Popping | Calling(b: nat, j: nat)

  /** `calls` are the payloads of all calls of `process`, `delivered` what the functions were called with, in
      order, and `done` the number of buffers whose callbacks have all been made. */
  datatype Sys<S> = Sys(ring: Q.Ring<nat>, pool: seq<AudioBuffer<S>>, bufferCounter: nat, functions: nat,
                        prod: Producer<S>, main: Consumer,
                        calls: seq<Payload<S>>, delivered: seq<(nat, Payload<S>)>, done: nat)

  datatype Step<S> =
    | Process(p: Payload<S>)
    | StoreRaw
    | StoreData
    | StorePos
    | PushStart
    | PushStep(q: Q.Step<nat>)
    | Advance
    | PopStart
    | PopStep(q: Q.Step<nat>)
    | Callback
    | CallbacksDone

  /** A freshly initialised pool; what the sample memory holds does not matter. */
  predicate IsInitial<S>(s: Sys<S>, size: nat) {
    && s.ring == Q.Initial(7, INDEX_BITS) && s.bufferCounter == 0 && s.prod.Ready? && s.main == Waiting
    && |s.calls| == 0 && |s.delivered| == 0 && s.done == 0
    && |s.pool| == SPARE_BUFFERS
    && forall b :: 0 <= b < |s.pool| ==> |s.pool[b].raw| == |s.pool[b].data| == size && s.pool[b].pos == 0
  }

  predicate IsPushStep(q: Q.Step<nat>) {
    q.PLoadWrite? || q.PLoadRead? || q.PDecide? || q.PIndex? || q.PBegin? || q.PEnd? || q.PCount?
  }

  predicate IsPopStep(q: Q.Step<nat>) {
    q.CLoadRead? || q.CLoadWrite? || q.CDecide? || q.CIndex? || q.CBegin? || q.CEnd? || q.CCount?
  }

  predicate Enabled<S>(s: Sys<S>, step: Step<S>) {
    match step
    case Process(p) => s.prod.Ready? && s.bufferCounter < |s.pool| && p.Fits(|s.pool[s.bufferCounter].raw|)
    case StoreRaw =>
      s.prod.Filling? && s.bufferCounter < |s.pool| && !s.prod.rawStored && s.prod.i < |s.prod.p.raw|
      && s.prod.i < |s.pool[s.bufferCounter].raw|
    case StoreData =>
      s.prod.Filling? && s.bufferCounter < |s.pool| && s.prod.rawStored && s.prod.i < |s.prod.p.data|
      && s.prod.i < |s.pool[s.bufferCounter].data|
    case StorePos => s.prod.Filling? && s.bufferCounter < |s.pool| && !s.prod.rawStored && s.prod.i == |s.prod.p.raw|
    case PushStart => s.prod.Filled? && Q.Enabled(s.ring, Q.PCall(s.bufferCounter))
    case PushStep(q) => s.prod.Pushing? && IsPushStep(q) && Q.Enabled(s.ring, q)
    case Advance => s.prod.Advancing?
    case PopStart => s.main == Waiting && Q.Enabled(s.ring, Q.CCall(false))
    case PopStep(q) => s.main == Popping && IsPopStep(q) && Q.Enabled(s.ring, q)
    case Callback =>
      s.main.Calling? && s.main.j < s.functions && s.main.b < |s.pool|
      && s.pool[s.main.b].pos <= |s.pool[s.main.b].raw| && s.pool[s.main.b].pos <= |s.pool[s.main.b].data|
    case CallbacksDone => s.main.Calling? && s.main.j == s.functions
  }

  function Current<S>(s: Sys<S>): AudioBuffer<S>
    requires s.bufferCounter < |s.pool|
  {
    s.pool[s.bufferCounter]
  }

  function Apply<S>(s: Sys<S>, step: Step<S>): Sys<S>
    requires Enabled(s, step)
  {
    match step
    case Process(p) => s.(prod := Filling(p, 0, false), calls := s.calls + [p])
    case StoreRaw =>
      var b := Current(s);
      s.(pool := s.pool[s.bufferCounter := b.(raw := b.raw[s.prod.i := s.prod.p.raw[s.prod.i]])],
         prod := s.prod.(rawStored := true))
    case StoreData =>
      var b := Current(s);
      s.(pool := s.pool[s.bufferCounter := b.(data := b.data[s.prod.i := s.prod.p.data[s.prod.i]])],
         prod := s.prod.(i := s.prod.i + 1, rawStored := false))
    case StorePos =>
      s.(pool := s.pool[s.bufferCounter := Current(s).(pos := s.prod.p.pos)], prod := Filled)
    case PushStart => s.(ring := Q.Apply(s.ring, Q.PCall(s.bufferCounter)), prod := Pushing)
    case PushStep(q) =>
      var ring := Q.Apply(s.ring, q);
      s.(ring := ring, prod := if ring.prod.PIdle? then Advancing else Pushing)
    case Advance =>
      s.(bufferCounter := if s.bufferCounter + 1 >= SPARE_BUFFERS then 0 else s.bufferCounter + 1, prod := Ready)
    case PopStart => s.(ring := Q.Apply(s.ring, Q.CCall(false)), main := Popping)
    case PopStep(q) =>
      var ring := Q.Apply(s.ring, q);
      s.(ring := ring, main := if q.CCount? then Calling(s.ring.cons.v, 0)
                               else if ring.cons.CIdle? then Waiting else Popping)
    case Callback =>
      s.(delivered := s.delivered + [(s.main.j, s.pool[s.main.b].Seen())], main := s.main.(j := s.main.j + 1))
    case CallbacksDone => s.(main := Waiting, done := s.done + 1)
  }

  /** Buffers queued, and the one `main` holds. */
  function Outstanding<S>(s: Sys<S>): int {
    |s.ring.pushed| - |s.ring.popped| + if s.main.Calling? then 1 else 0
  }

  /** A run in which every call of `process` finds fewer than 128 buffers outstanding. */
  predicate RoomyRun<S>(s: Sys<S>, run: seq<Step<S>>)
    decreases |run|
  {
    run == [] ||
    (Enabled(s, run[0]) && (run[0].Process? ==> Outstanding(s) < SPARE_BUFFERS) && RoomyRun(Apply(s, run[0]), run[1..]))
  }

  function After<S>(s: Sys<S>, run: seq<Step<S>>): Sys<S>
    requires RoomyRun(s, run)
    decreases |run|
  {
    if run == [] then s else After(Apply(s, run[0]), run[1..])
  }

  // ---------------------------------------------------------------- invariants

  /** One call to every function with the same payload, in registration order, from function `j` back. */
  function Round<S>(p: Payload<S>, j: nat): seq<(nat, Payload<S>)> {
    if j == 0 then [] else Round(p, j - 1) + [(j - 1, p)]
  }

  /** Every payload to every function. */
  function Rounds<S>(calls: seq<Payload<S>>, functions: nat): seq<(nat, Payload<S>)> {
    if |calls| == 0 then [] else Rounds(calls[..|calls| - 1], functions) + Round(calls[|calls| - 1], functions)
  }

  ghost predicate QueueInv<S>(s: Sys<S>) {
    && Q.Inv(s.ring) && |s.ring.popped| <= |s.ring.pushed| && s.ring.k == 7 && s.ring.w == INDEX_BITS && s.ring.Cap() == SPARE_BUFFERS
    && (forall i :: 0 <= i < |s.ring.pushed| ==> s.ring.pushed[i] == i % SPARE_BUFFERS)
    && |s.calls| == |s.ring.pushed| + (if s.prod.Ready? || s.prod.Advancing? then 0 else 1)
  }

  ghost predicate ProducerInv<S>(s: Sys<S>) {
    && (s.prod.Advancing? ==> |s.ring.pushed| > 0)
    && s.bufferCounter == (if s.prod.Advancing? then |s.ring.pushed| - 1 else |s.ring.pushed|) % SPARE_BUFFERS
    && (s.prod.Pushing? <==> !s.ring.prod.PIdle?)
    && (s.prod.Filling? || s.prod.Filled? || s.prod.Pushing? ==> |s.ring.pushed| - s.done < SPARE_BUFFERS)
    && (s.ring.prod.PLoading? && s.ring.prod.lr.Some? ==> |s.ring.pushed| - s.ring.prod.pops < SPARE_BUFFERS)
    && (s.prod.Pushing? ==> ItemOf(s.ring.prod) == s.bufferCounter)
  }

  function ItemOf(p: Q.Producer<nat>): int {
    match p
    case PIdle => -1
    case PLoading(item, _, _, _) => item
    case PIndexing(item) => item
    case PStoring(item, _, _) => item
    case PCounting(item) => item
  }

  ghost predicate ConsumerInv<S>(s: Sys<S>) {
    && (s.main == Popping <==> !s.ring.cons.CIdle?)
    && (s.ring.cons.CLoading? ==> !s.ring.cons.peek) && (s.ring.cons.CIndexing? ==> !s.ring.cons.peek)
    && (s.ring.cons.CReading? ==> !s.ring.cons.peek)
    && |s.ring.popped| == s.done + (if s.main.Calling? then 1 else 0)
    && (s.main.Calling? ==> s.main.b == s.done % SPARE_BUFFERS && s.main.j <= s.functions)
  }

  /** The buffers of all calls queued or being delivered hold their calls; the one being filled holds its part. */
  ghost predicate PoolInv<S>(s: Sys<S>) {
    && |s.pool| == SPARE_BUFFERS
    && (forall b :: 0 <= b < |s.pool| ==> |s.pool[b].raw| == |s.pool[b].data| == |s.pool[0].raw|)
    && s.done <= |s.ring.pushed| <= |s.calls|
    && (forall i :: s.done <= i < |s.ring.pushed| ==> s.pool[i % SPARE_BUFFERS].Has(s.calls[i]))
    && (s.prod.Filling? ==>
          && |s.calls| == |s.ring.pushed| + 1 && s.prod.p == s.calls[|s.ring.pushed|]
          && s.prod.p.Fits(|s.pool[0].raw|) && s.prod.i <= |s.prod.p.raw| && (s.prod.rawStored ==> s.prod.i < |s.prod.p.raw|)
          && var b := s.pool[|s.ring.pushed| % SPARE_BUFFERS];
             && (forall n :: 0 <= n < s.prod.i ==> b.raw[n] == s.prod.p.raw[n] && b.data[n] == s.prod.p.data[n])
             && (s.prod.rawStored ==> b.raw[s.prod.i] == s.prod.p.raw[s.prod.i]))
    && (s.prod.Filled? || s.prod.Pushing? ==>
          |s.calls| == |s.ring.pushed| + 1 && s.pool[|s.ring.pushed| % SPARE_BUFFERS].Has(s.calls[|s.ring.pushed|]))
  }

  ghost predicate DeliveryInv<S>(s: Sys<S>) {
    && s.done <= |s.calls|
    && if s.main.Calling?
       then s.done < |s.calls| && s.delivered == Rounds(s.calls[..s.done], s.functions) + Round(s.calls[s.done], s.main.j)
       else s.delivered == Rounds(s.calls[..s.done], s.functions)
  }

  ghost predicate Inv<S>(s: Sys<S>) {
    QueueInv(s) && ProducerInv(s) && ConsumerInv(s) && PoolInv(s) && DeliveryInv(s)
  }

  // ---------------------------------------------------------------- steps of the queue

  /** A step of `push`, as the producer sees it. */
  lemma RingPush(r: Q.Ring<nat>, q: Q.Step<nat>)
    requires Q.Inv(r) && IsPushStep(q) && Q.Enabled(r, q)
    ensures var t := Q.Apply(r, q);
            && Q.Inv(t) && |t.popped| <= |t.pushed| && t.k == r.k && t.w == r.w
            && t.popped == r.popped && t.cons == r.cons
            && t.pushed == (if q.PCount? then r.pushed + [ItemOf(r.prod) as nat] else r.pushed)
            && (t.prod.PIdle? <==> q.PCount? || (q.PDecide? && |r.pushed| - r.prod.pops == r.Cap()))
            && (!t.prod.PIdle? ==> ItemOf(t.prod) == ItemOf(r.prod))
            && (t.prod.PLoading? && t.prod.lr.Some? ==> t.prod.pops == if q.PLoadRead? then |r.popped| else r.prod.pops)
            && (t.prod.PLoading? && t.prod.lr.Some? && !q.PLoadRead? ==> r.prod.PLoading? && r.prod.lr.Some?)
  {
    Q.InvStep(r, q);
    Q.DecisionsExact(r);
  }

  /** A step of `pop`, as `main` sees it. */
  lemma RingPop(r: Q.Ring<nat>, q: Q.Step<nat>)
    requires Q.Inv(r) && IsPopStep(q) && Q.Enabled(r, q)
    requires r.cons.CLoading? ==> !r.cons.peek
    requires r.cons.CIndexing? ==> !r.cons.peek
    requires r.cons.CReading? ==> !r.cons.peek
    ensures var t := Q.Apply(r, q);
            && Q.Inv(t) && |t.popped| <= |t.pushed| && t.k == r.k && t.w == r.w
            && t.pushed == r.pushed && t.prod == r.prod
            && (t.cons.CIdle? <==> q.CCount? || (q.CDecide? && r.cons.pushes == |r.popped|))
            && (t.cons.CLoading? ==> !t.cons.peek) && (t.cons.CIndexing? ==> !t.cons.peek) && (t.cons.CReading? ==> !t.cons.peek)
            && (if q.CCount?
                then |r.popped| < |r.pushed| && r.cons.v == r.pushed[|r.popped|] && |t.popped| == |r.popped| + 1
                else t.popped == r.popped)
  {
    Q.InvStep(r, q);
    Q.DecisionsExact(r);
  }

  lemma RingCalls(r: Q.Ring<nat>, item: nat)
    requires Q.Inv(r)
    ensures Q.Enabled(r, Q.PCall(item)) ==>
              var t := Q.Apply(r, Q.PCall(item)); Q.Inv(t) && t == r.(prod := Q.PLoading(item, None, None, 0))
    ensures Q.Enabled(r, Q.CCall(false)) ==>
              var t := Q.Apply(r, Q.CCall(false)); Q.Inv(t) && t == r.(cons := Q.CLoading(false, None, None, 0))
  {
    if Q.Enabled(r, Q.PCall(item)) { Q.InvStep(r, Q.PCall(item)); }
    if Q.Enabled(r, Q.CCall(false)) { Q.InvStep(r, Q.CCall(false)); }
  }

  // ---------------------------------------------------------------- steps of the hand-off

  lemma ProcessKeeps<S>(s: Sys<S>, p: Payload<S>)
    requires Inv(s) && Enabled(s, Process(p)) && Outstanding(s) < SPARE_BUFFERS
    ensures Inv(Apply(s, Process(p)))
  {
    hide Q.Inv;
    var t := Apply(s, Process(p));
    assert t.calls[..s.done] == s.calls[..s.done];
    assert s.main.Calling? ==> t.calls[s.done] == s.calls[s.done];
    assert forall i :: s.done <= i < |s.ring.pushed| ==> t.calls[i] == s.calls[i];
  }

  /** The buffer being filled is none of the outstanding ones. */
  lemma FillIsFree(done: nat, pushed: nat)
    requires pushed - done < SPARE_BUFFERS
    ensures forall i :: done <= i < pushed ==> i % SPARE_BUFFERS != pushed % SPARE_BUFFERS
  {
    forall i | done <= i < pushed ensures i % SPARE_BUFFERS != pushed % SPARE_BUFFERS {
      Q.SlotsDiffer(i, pushed, SPARE_BUFFERS);
    }
  }

  lemma StoreKeeps<S>(s: Sys<S>, step: Step<S>)
    requires Inv(s) && Enabled(s, step) && (step.StoreRaw? || step.StoreData? || step.StorePos?)
    ensures Inv(Apply(s, step))
  {
    hide Q.Inv;
    FillIsFree(s.done, |s.ring.pushed|);
    var t, n := Apply(s, step), |s.ring.pushed| % SPARE_BUFFERS;
    assert forall b :: 0 <= b < |s.pool| && b != n ==> t.pool[b] == s.pool[b];
    if step.StorePos? {
      assert t.pool[n].raw[..|s.prod.p.raw|] == s.prod.p.raw;
      assert t.pool[n].data[..|s.prod.p.data|] == s.prod.p.data;
    }
  }

  lemma PushStartKeeps<S>(s: Sys<S>)
    requires Inv(s) && Enabled(s, PushStart)
    ensures Inv(Apply(s, PushStart))
  {
    hide Q.Inv, Q.Apply;
    RingCalls(s.ring, s.bufferCounter);
  }

  /** Steps of the queue do not touch the pool: a push hands the filled buffer over to it. */
  lemma PoolSame<S>(s: Sys<S>, t: Sys<S>)
    requires PoolInv(s) && t.pool == s.pool && t.calls == s.calls && t.done == s.done
    requires (t.prod == s.prod && |t.ring.pushed| == |s.ring.pushed|)
             || (s.prod.Pushing? && t.prod.Advancing? && |t.ring.pushed| == |s.ring.pushed| + 1)
    ensures PoolInv(t)
  {
  }

  lemma DeliverySame<S>(s: Sys<S>, t: Sys<S>)
    requires DeliveryInv(s) && !s.main.Calling?
    requires t.calls == s.calls && t.done == s.done && t.delivered == s.delivered && t.functions == s.functions
    requires t.main.Calling? ==> t.main.j == 0 && s.done < |s.calls|
    ensures DeliveryInv(t)
  {
    assert Rounds(s.calls[..s.done], s.functions) + [] == Rounds(s.calls[..s.done], s.functions);
  }

  lemma PushStepKeeps<S>(s: Sys<S>, q: Q.Step<nat>)
    requires Inv(s) && Enabled(s, PushStep(q))
    ensures Inv(Apply(s, PushStep(q)))
  {
    var t := Apply(s, PushStep(q));
    RingPush(s.ring, q);
    hide Q.Inv, Q.Apply, Q.Enabled, Q.Pow2, Rounds, Round;
    PoolSame(s, t);
    hide PoolInv, DeliveryInv;
    PushDelivery(s, t);
    PushRest(s, q);
  }

  lemma PushDelivery<S>(s: Sys<S>, t: Sys<S>)
    requires DeliveryInv(s) && t == s.(ring := t.ring, prod := t.prod)
    ensures DeliveryInv(t)
  {
  }

  lemma PushRest<S>(s: Sys<S>, q: Q.Step<nat>)
    requires Inv(s) && Enabled(s, PushStep(q))
    ensures var t := Apply(s, PushStep(q)); QueueInv(t) && ProducerInv(t) && ConsumerInv(t)
  {
    RingPush(s.ring, q);
    hide Q.Inv, Q.Apply, Q.Enabled, Q.Pow2, DeliveryInv, PoolInv;
    var t := Apply(s, PushStep(q));
    SameConsumer(s, t);
    PushQueue(s, t);
    hide QueueInv;
    PushProducer(s, q);
  }

  lemma PushQueue<S>(s: Sys<S>, t: Sys<S>)
    requires QueueInv(s) && s.prod.Pushing? && t == s.(ring := t.ring, prod := t.prod) && Q.Inv(t.ring)
    requires t.ring.k == s.ring.k && t.ring.w == s.ring.w && t.ring.popped == s.ring.popped
    requires if t.prod.Advancing? then t.ring.pushed == s.ring.pushed + [|s.ring.pushed| % SPARE_BUFFERS]
             else t.prod.Pushing? && t.ring.pushed == s.ring.pushed
    ensures QueueInv(t)
  {
    hide Q.Inv, Q.Pow2;
  }

  lemma PushProducer<S>(s: Sys<S>, q: Q.Step<nat>)
    requires Inv(s) && Enabled(s, PushStep(q))
    ensures ProducerInv(Apply(s, PushStep(q)))
  {
    RingPush(s.ring, q);
    hide Q.Inv, Q.Apply, Q.Enabled, Q.Pow2, DeliveryInv, PoolInv;
  }

  lemma SameConsumer<S>(s: Sys<S>, t: Sys<S>)
    requires ConsumerInv(s) && t == s.(ring := t.ring, prod := t.prod)
    requires t.ring.cons == s.ring.cons && t.ring.popped == s.ring.popped
    ensures ConsumerInv(t)
  {
  }

  lemma AdvanceKeeps<S>(s: Sys<S>)
    requires Inv(s) && Enabled(s, Advance)
    ensures Inv(Apply(s, Advance))
  {
    hide Q.Inv;
    NextBuffer(|s.ring.pushed| - 1);
  }

  lemma NextBuffer(n: nat)
    ensures (n + 1) % SPARE_BUFFERS == if n % SPARE_BUFFERS + 1 >= SPARE_BUFFERS then 0 else n % SPARE_BUFFERS + 1
  {
  }

  lemma PopStartKeeps<S>(s: Sys<S>)
    requires Inv(s) && Enabled(s, PopStart)
    ensures Inv(Apply(s, PopStart))
  {
    hide Q.Inv, Q.Apply;
    RingCalls(s.ring, 0);
  }

  lemma PopStepKeeps<S>(s: Sys<S>, q: Q.Step<nat>)
    requires Inv(s) && Enabled(s, PopStep(q))
    ensures Inv(Apply(s, PopStep(q)))
  {
    var t := Apply(s, PopStep(q));
    RingPop(s.ring, q);
    hide Q.Inv, Q.Apply, Q.Enabled, Q.Pow2, Rounds, Round;
    assert q.CCount? ==> s.done < |s.calls|;
    PoolSame(s, t);
    DeliverySame(s, t);
    hide PoolInv, DeliveryInv;
    PopRest(s, q);
  }

  lemma PopRest<S>(s: Sys<S>, q: Q.Step<nat>)
    requires Inv(s) && Enabled(s, PopStep(q))
    ensures var t := Apply(s, PopStep(q)); QueueInv(t) && ProducerInv(t) && ConsumerInv(t)
  {
    RingPop(s.ring, q);
    hide Q.Inv, Q.Apply, Q.Enabled, Q.Pow2, DeliveryInv, PoolInv;
    var t := Apply(s, PopStep(q));
    SameProducer(s, t);
    hide ProducerInv, QueueInv;
  }

  lemma SameProducer<S>(s: Sys<S>, t: Sys<S>)
    requires QueueInv(s) && ProducerInv(s) && t == s.(ring := t.ring, main := t.main) && Q.Inv(t.ring)
    requires t.ring.k == s.ring.k && t.ring.w == s.ring.w && t.ring.pushed == s.ring.pushed && t.ring.prod == s.ring.prod
    requires |t.ring.popped| <= |t.ring.pushed|
    ensures QueueInv(t) && ProducerInv(t)
  {
    hide Q.Inv, Q.Pow2;
  }

  /** What a callback is given is the payload of its call. */
  lemma SeenIs<S>(b: AudioBuffer<S>, p: Payload<S>)
    requires b.Has(p)
    ensures b.pos <= |b.raw| && b.pos <= |b.data| && b.Seen() == p
  {
  }

  lemma CallbackKeeps<S>(s: Sys<S>)
    requires Inv(s) && Enabled(s, Callback)
    ensures Inv(Apply(s, Callback))
  {
    hide Q.Inv;
    var c := s.calls[s.done];
    assert s.pool[s.done % SPARE_BUFFERS].Has(c);
    SeenIs(s.pool[s.main.b], c);
    assert (Rounds(s.calls[..s.done], s.functions) + Round(c, s.main.j)) + [(s.main.j, c)]
        == Rounds(s.calls[..s.done], s.functions) + (Round(c, s.main.j) + [(s.main.j, c)]);
  }

  lemma CallbacksDoneKeeps<S>(s: Sys<S>)
    requires Inv(s) && Enabled(s, CallbacksDone)
    ensures Inv(Apply(s, CallbacksDone))
  {
    RoundsStep(s.calls, s.done, s.functions);
    hide Q.Inv, Rounds, Round;
  }

  lemma RoundsStep<S>(calls: seq<Payload<S>>, n: nat, functions: nat)
    ensures n < |calls| ==> Rounds(calls[..n + 1], functions) == Rounds(calls[..n], functions) + Round(calls[n], functions)
  {
    if n < |calls| {
      assert calls[..n + 1][..n] == calls[..n];
    }
  }

  lemma InvStep<S>(s: Sys<S>, step: Step<S>)
    requires Inv(s) && Enabled(s, step) && (step.Process? ==> Outstanding(s) < SPARE_BUFFERS)
    ensures Inv(Apply(s, step))
  {
    hide Inv, Enabled, Apply;
    match step {
      case Process(p) => ProcessKeeps(s, p);
      case StoreRaw => StoreKeeps(s, step);
      case StoreData => StoreKeeps(s, step);
      case StorePos => StoreKeeps(s, step);
      case PushStart => PushStartKeeps(s);
      case PushStep(q) => PushStepKeeps(s, q);
      case Advance => AdvanceKeeps(s);
      case PopStart => PopStartKeeps(s);
      case PopStep(q) => PopStepKeeps(s, q);
      case Callback => CallbackKeeps(s);
      case CallbacksDone => CallbacksDoneKeeps(s);
    }
  }

  lemma InitialInv<S>(s: Sys<S>, size: nat)
    requires IsInitial(s, size)
    ensures Inv(s)
  {
    Q.InitialInv<nat>(7, INDEX_BITS);
    assert Q.Pow2(7) == 128 by { assert Q.Pow2(4) == 16; }
    assert s.calls[..0] == [];
    assert s.ring.pushed == [];
  }

  lemma {:induction false} InvRun<S>(s: Sys<S>, run: seq<Step<S>>)
    requires Inv(s) && RoomyRun(s, run)
    ensures Inv(After(s, run)) && After(s, run).functions == s.functions
    decreases |run|
  {
    if run != [] {
      InvStep(s, run[0]);
      SameFunctions(s, run[0]);
      hide Inv, Enabled, Apply;
      InvRun(Apply(s, run[0]), run[1..]);
    }
  }

  lemma SameFunctions<S>(s: Sys<S>, step: Step<S>)
    requires Enabled(s, step)
    ensures Apply(s, step).functions == s.functions
  {
  }

  // ---------------------------------------------------------------- the results

  /** If every call of `process` finds fewer than 128 buffers queued or held, then in every run: no push fails, and
      `main` has given every function, in registration order, exactly the samples and the count of each call,
      once each and in call order. While `main` holds a buffer, it holds exactly the payload of its call, so it
      does not matter when during a callback the samples are read. */
  lemma PayloadIntegrity<S>(s0: Sys<S>, size: nat, run: seq<Step<S>>)
    requires IsInitial(s0, size) && RoomyRun(s0, run)
    ensures var s := After(s0, run);
            && s.done <= |s.calls|
            && s.delivered == Rounds(s.calls[..s.done], s0.functions)
                              + (if s.main.Calling? && s.done < |s.calls| then Round(s.calls[s.done], s.main.j) else [])
            && (s.main.Calling? ==> s.done < |s.calls| && s.main.b < |s.pool| && s.pool[s.main.b].Has(s.calls[s.done]))
            && (s.prod.Ready? ==> |s.ring.pushed| == |s.calls|)
            && (s.prod.Ready? && s.main == Waiting && s.ring.popped == s.ring.pushed ==> s.done == |s.calls|)
  {
    hide Q.Inv;
    InitialInv(s0, size);
    InvRun(s0, run);
    var s := After(s0, run);
    if s.main.Calling? {
      assert s.pool[s.done % SPARE_BUFFERS].Has(s.calls[s.done]);
    } else {
      assert Rounds(s.calls[..s.done], s.functions) + [] == Rounds(s.calls[..s.done], s.functions);
    }
  }

  // ---------------------------------------------------------------- what is called for gets done

  lemma RoomyStep<S>(s: Sys<S>, step: Step<S>, rest: seq<Step<S>>)
    requires Enabled(s, step) && (step.Process? ==> Outstanding(s) < SPARE_BUFFERS) && RoomyRun(Apply(s, step), rest)
    ensures RoomyRun(s, [step] + rest) && After(s, [step] + rest) == After(Apply(s, step), rest)
  {
    assert ([step] + rest)[1..] == rest;
  }

  lemma {:induction false} RoomyConcat<S>(s: Sys<S>, a: seq<Step<S>>, b: seq<Step<S>>)
    requires RoomyRun(s, a) && RoomyRun(After(s, a), b)
    ensures RoomyRun(s, a + b) && After(s, a + b) == After(After(s, a), b)
    decreases |a|
  {
    hide Enabled, Apply;
    if |a| == 0 {
      assert a + b == b;
    } else {
      assert (a + b)[1..] == a[1..] + b && (a + b)[0] == a[0];
      RoomyConcat(Apply(s, a[0]), a[1..], b);
    }
  }

  /** One step more, with what the following steps rely on. */
  lemma Extend<S>(s: Sys<S>, run: seq<Step<S>>, step: Step<S>) returns (longer: seq<Step<S>>)
    requires Inv(s) && RoomyRun(s, run) && Enabled(After(s, run), step)
    requires step.Process? ==> Outstanding(After(s, run)) < SPARE_BUFFERS
    ensures RoomyRun(s, longer) && After(s, longer) == Apply(After(s, run), step) && Inv(After(s, longer))
  {
    hide Inv, Enabled, Apply;
    longer := run + [step];
    var t := After(s, run);
    NoStep(Apply(t, step));
    RoomyStep(t, step, []);
    RoomyConcat(s, run, [step]);
    InvRun(s, run);
    InvStep(t, step);
  }

  lemma NoStep<S>(s: Sys<S>)
    ensures RoomyRun(s, []) && After(s, []) == s
  {
  }

  lemma InvAt<S>(s: Sys<S>, run: seq<Step<S>>)
    requires Inv(s) && RoomyRun(s, run)
    ensures Inv(After(s, run))
  {
    InvRun(s, run);
  }

  lemma PushUndisturbed<S>(s: Sys<S>, run0: seq<Step<S>>) returns (run: seq<Step<S>>)
    requires Inv(s) && RoomyRun(s, run0) && Inv(After(s, run0)) && After(s, run0).prod.Filled?
    ensures RoomyRun(s, run) && Inv(After(s, run))
    ensures var (t, u) := (After(s, run0), After(s, run));
            && u == t.(prod := Advancing, ring := u.ring)
            && u.ring.popped == t.ring.popped && |u.ring.pushed| == |t.ring.pushed| + 1
  {
    hide RoomyRun, After, PoolInv, DeliveryInv, ConsumerInv;
    var t := After(s, run0);
    run := Extend(s, run0, PushStart);
    run := Extend(s, run, PushStep(Q.PLoadWrite));
    run := Extend(s, run, PushStep(Q.PLoadRead));
    Q.DecisionsExact(After(s, run).ring);
    run := Extend(s, run, PushStep(Q.PDecide));
    run := PushStored(s, run);
  }

  lemma PushStored<S>(s: Sys<S>, run0: seq<Step<S>>) returns (run: seq<Step<S>>)
    requires Inv(s) && RoomyRun(s, run0) && Inv(After(s, run0))
    requires After(s, run0).prod.Pushing? && After(s, run0).ring.prod.PIndexing?
    ensures RoomyRun(s, run) && Inv(After(s, run))
    ensures var (t, u) := (After(s, run0), After(s, run));
            && u == t.(prod := Advancing, ring := u.ring)
            && u.ring.popped == t.ring.popped && |u.ring.pushed| == |t.ring.pushed| + 1
  {
    hide RoomyRun, After, PoolInv, DeliveryInv, ConsumerInv;
    run := Extend(s, run0, PushStep(Q.PIndex));
    run := Extend(s, run, PushStep(Q.PBegin));
    run := Extend(s, run, PushStep(Q.PEnd));
    run := Extend(s, run, PushStep(Q.PCount));
  }

  /** Neither thread is ever stuck in a call, whatever the other does. */
  lemma CanGoOn<S>(s: Sys<S>)
    requires Inv(s)
    ensures !s.prod.Ready? ==> exists step :: IsProducerStep(step) && Enabled(s, step)
    ensures s.main != Waiting ==> exists step :: !IsProducerStep(step) && Enabled(s, step)
  {
    if !s.prod.Ready? {
      ProducerGoesOn(s);
    }
    if s.main != Waiting {
      MainGoesOn(s);
    }
  }

  predicate IsProducerStep<S>(step: Step<S>) {
    step.Process? || step.StoreRaw? || step.StoreData? || step.StorePos? || step.PushStart? || step.PushStep? || step.Advance?
  }

  lemma ProducerGoesOn<S>(s: Sys<S>)
    requires Inv(s) && !s.prod.Ready?
    ensures exists step :: IsProducerStep(step) && Enabled(s, step)
  {
    hide Q.Inv, Q.Pow2;
    if s.prod.Pushing? {
      Q.CanGoOn(s.ring);
      var q :| Q.IsProducerStep(q) && Q.Enabled(s.ring, q);
      assert Enabled(s, PushStep(q));
    } else {
      var step := match s.prod
        case Filling(p, i, stored) => if stored then StoreData else if i < |p.raw| then StoreRaw else StorePos
        case Filled => PushStart
        case _ => Advance;
      assert IsProducerStep(step) && Enabled(s, step);
    }
  }

  lemma MainGoesOn<S>(s: Sys<S>)
    requires Inv(s) && s.main != Waiting
    ensures exists step :: !IsProducerStep(step) && Enabled(s, step)
  {
    hide Q.Inv, Q.Pow2;
    if s.main == Popping {
      Q.CanGoOn(s.ring);
      var q :| !Q.IsProducerStep(q) && Q.Enabled(s.ring, q);
      assert Enabled(s, PopStep(q));
    } else {
      assert s.pool[s.done % SPARE_BUFFERS].Has(s.calls[s.done]);
      SeenIs(s.pool[s.main.b], s.calls[s.done]);
      assert Enabled(s, if s.main.j < s.functions then Callback else CallbacksDone);
    }
  }

  /** The state but for the ring's consumer, `main` and what that delivers. */
  ghost predicate SameButMain<S>(t: Sys<S>, u: Sys<S>) {
    && u.prod == t.prod && u.calls == t.calls && u.pool == t.pool && u.functions == t.functions
    && u.bufferCounter == t.bufferCounter && u.ring.pushed == t.ring.pushed && u.ring.prod == t.ring.prod
  }

  /** An undisturbed pop of `main` from a queue that is not empty. */
  lemma PopUndisturbed<S>(s: Sys<S>, run0: seq<Step<S>>) returns (run: seq<Step<S>>)
    requires Inv(s) && RoomyRun(s, run0) && Inv(After(s, run0)) && After(s, run0).main == Waiting
    requires |After(s, run0).ring.popped| < |After(s, run0).ring.pushed|
    ensures RoomyRun(s, run) && Inv(After(s, run))
    ensures var (t, u) := (After(s, run0), After(s, run));
            SameButMain(t, u) && u.main.Calling? && u.main.j == 0 && u.done == t.done && |u.ring.popped| == |t.ring.popped| + 1
  {
    hide RoomyRun, After, PoolInv, DeliveryInv, ProducerInv;
    run := Extend(s, run0, PopStart);
    run := Extend(s, run, PopStep(Q.CLoadRead));
    run := Extend(s, run, PopStep(Q.CLoadWrite));
    Q.DecisionsExact(After(s, run).ring);
    run := Extend(s, run, PopStep(Q.CDecide));
    run := PopRead(s, run);
  }

  lemma PopRead<S>(s: Sys<S>, run0: seq<Step<S>>) returns (run: seq<Step<S>>)
    requires Inv(s) && RoomyRun(s, run0) && Inv(After(s, run0))
    requires After(s, run0).main == Popping && After(s, run0).ring.cons == Q.CIndexing(false)
    ensures RoomyRun(s, run) && Inv(After(s, run))
    ensures var (t, u) := (After(s, run0), After(s, run));
            SameButMain(t, u) && u.main.Calling? && u.main.j == 0 && u.done == t.done && |u.ring.popped| == |t.ring.popped| + 1
  {
    hide RoomyRun, After, PoolInv, DeliveryInv, ProducerInv, ConsumerInv, Q.Inv;
    run := Extend(s, run0, PopStep(Q.CIndex));
    run := Extend(s, run, PopStep(Q.CBegin));
    HoldsItem(After(s, run).ring);
    hide Inv;
    run := PopEnd(s, run);
  }

  lemma PopEnd<S>(s: Sys<S>, run0: seq<Step<S>>) returns (run: seq<Step<S>>)
    requires Inv(s) && RoomyRun(s, run0) && Inv(After(s, run0))
    requires After(s, run0).main == Popping && Q.Enabled(After(s, run0).ring, Q.CEnd) && !After(s, run0).ring.cons.peek
    ensures RoomyRun(s, run) && Inv(After(s, run))
    ensures var (t, u) := (After(s, run0), After(s, run));
            SameButMain(t, u) && u.main.Calling? && u.main.j == 0 && u.done == t.done && |u.ring.popped| == |t.ring.popped| + 1
  {
    hide RoomyRun, After, PoolInv, DeliveryInv, ProducerInv, ConsumerInv, Q.Inv;
    run := Extend(s, run0, PopStep(Q.CEnd));
    run := Extend(s, run, PopStep(Q.CCount));
  }

  lemma HoldsItem(r: Q.Ring<nat>)
    requires Q.Inv(r) && r.cons.CReading?
    ensures r.cons.slot < |r.buffer| && r.buffer[r.cons.slot].Holds?
  {
    assert r.buffer[|r.popped| % r.Cap()] == Q.Holds(r.pushed[|r.popped|]);
  }

  /** The callbacks that are left. */
  lemma {:induction false} CallbacksUndisturbed<S>(s: Sys<S>, run0: seq<Step<S>>) returns (run: seq<Step<S>>)
    requires Inv(s) && RoomyRun(s, run0) && Inv(After(s, run0)) && After(s, run0).main.Calling?
    ensures RoomyRun(s, run) && Inv(After(s, run))
    ensures var (t, u) := (After(s, run0), After(s, run));
            SameButMain(t, u) && u.main == Waiting && u.done == t.done + 1 && u.ring.popped == t.ring.popped
    decreases After(s, run0).functions - After(s, run0).main.j
  {
    hide RoomyRun, After, Q.Inv, DeliveryInv, ProducerInv, QueueInv;
    var t := After(s, run0);
    MainGoesOn(t);
    CallbackGoesOn(t);
    if t.main.j < t.functions {
      run := Extend(s, run0, Callback);
      run := CallbacksUndisturbed(s, run);
    } else {
      run := Extend(s, run0, CallbacksDone);
    }
  }

  lemma CallbackGoesOn<S>(s: Sys<S>)
    requires Inv(s) && s.main.Calling?
    ensures s.main.j <= s.functions && Enabled(s, if s.main.j < s.functions then Callback else CallbacksDone)
  {
    hide Q.Inv;
    assert s.pool[s.done % SPARE_BUFFERS].Has(s.calls[s.done]);
    SeenIs(s.pool[s.main.b], s.calls[s.done]);
  }

  lemma {:induction false} DrainUndisturbed<S>(s: Sys<S>, run0: seq<Step<S>>) returns (run: seq<Step<S>>)
    requires Inv(s) && RoomyRun(s, run0) && Inv(After(s, run0)) && After(s, run0).main == Waiting
    ensures RoomyRun(s, run) && Inv(After(s, run))
    ensures var (t, u) := (After(s, run0), After(s, run));
            SameButMain(t, u) && u.main == Waiting && |u.ring.popped| == |u.ring.pushed|
    decreases |After(s, run0).ring.pushed| - |After(s, run0).ring.popped|
  {
    hide RoomyRun, After, Q.Inv, DeliveryInv, ProducerInv, ConsumerInv, PoolInv;
    var t := After(s, run0);
    assert |t.ring.popped| <= |t.ring.pushed|;
    if |t.ring.popped| < |t.ring.pushed| {
      run := PopUndisturbed(s, run0);
      run := CallbacksUndisturbed(s, run);
      run := DrainUndisturbed(s, run);
    } else {
      run := run0;
    }
  }

  /** From every state of every run in which `main` waits between pops, `main` alone can deliver all that is queued:
      every function is then called with every payload pushed, once each and in call order. */
  lemma EverythingDelivered<S>(s0: Sys<S>, size: nat, run0: seq<Step<S>>) returns (run: seq<Step<S>>)
    requires IsInitial(s0, size) && RoomyRun(s0, run0) && After(s0, run0).main == Waiting
    ensures RoomyRun(s0, run)
    ensures var (t, u) := (After(s0, run0), After(s0, run));
            && u.calls == t.calls && u.main == Waiting && |u.ring.pushed| <= |u.calls|
            && u.delivered == Rounds(u.calls[..|u.ring.pushed|], s0.functions)
            && (u.prod.Ready? ==> u.delivered == Rounds(u.calls, s0.functions))
  {
    InitialInv(s0, size);
    InvRun(s0, run0);
    run := DrainUndisturbed(s0, run0);
    InvRun(s0, run);
    hide Q.Inv, Rounds;
    var u := After(s0, run);
    assert u.done == |u.ring.pushed|;
    assert u.calls[..|u.calls|] == u.calls;
  }

  /** The sample stores that are left. */
  lemma {:induction false} FillUndisturbed<S>(s: Sys<S>, run0: seq<Step<S>>) returns (run: seq<Step<S>>)
    requires Inv(s) && RoomyRun(s, run0) && Inv(After(s, run0))
    requires After(s, run0).prod.Filling? && !After(s, run0).prod.rawStored
    ensures RoomyRun(s, run) && Inv(After(s, run))
    ensures var (t, u) := (After(s, run0), After(s, run));
            && u == t.(prod := Filled, pool := u.pool) && |u.pool| == |t.pool|
            && forall b :: 0 <= b < |u.pool| ==> |u.pool[b].raw| == |t.pool[b].raw|
    decreases |After(s, run0).prod.p.raw| - After(s, run0).prod.i
  {
    hide RoomyRun, After, Q.Inv, Q.Apply, Q.Enabled, DeliveryInv, ConsumerInv;
    var t := After(s, run0);
    if t.prod.i < |t.prod.p.raw| {
      run := Extend(s, run0, StoreRaw);
      run := Extend(s, run, StoreData);
      run := FillUndisturbed(s, run);
    } else {
      run := Extend(s, run0, StorePos);
    }
  }

  /** An undisturbed call of `process`, from a state with room: whatever its payload, it is queued. */
  lemma ProcessUndisturbed<S>(s: Sys<S>, run0: seq<Step<S>>, p: Payload<S>) returns (run: seq<Step<S>>)
    requires Inv(s) && RoomyRun(s, run0)
    requires var t := After(s, run0); t.prod.Ready? && Outstanding(t) < SPARE_BUFFERS && Enabled(t, Process(p))
    ensures RoomyRun(s, run)
    ensures var (t, u) := (After(s, run0), After(s, run));
            && u.prod.Ready? && u.main == t.main && u.done == t.done && u.ring.popped == t.ring.popped
            && |u.ring.pushed| == |t.ring.pushed| + 1 && u.calls == t.calls + [p] && |u.pool| == |t.pool|
            && (forall b :: 0 <= b < |u.pool| ==> |u.pool[b].raw| == |t.pool[b].raw|)
            && u.bufferCounter == |u.ring.pushed| % SPARE_BUFFERS
  {
    hide RoomyRun, After, Q.Inv, Q.Apply, Q.Enabled;
    InvAt(s, run0);
    run := Extend(s, run0, Process(p));
    run := FillUndisturbed(s, run);
    run := PushUndisturbed(s, run);
    run := Extend(s, run, Advance);
  }

  // ---------------------------------------------------------------- the bound is sharp

  /** In every state with 128 buffers outstanding, the next call of `process` fills the buffer of the oldest call
      that is not delivered yet: its first store already destroys that call's first sample. */
  lemma FullPoolIsOverwritten<S>(s: Sys<S>, p: Payload<S>)
    requires Inv(s) && s.prod.Ready? && Outstanding(s) == SPARE_BUFFERS && Enabled(s, Process(p))
    requires s.done < |s.calls| && |p.raw| > 0 && |s.calls[s.done].raw| > 0 && p.raw[0] != s.calls[s.done].raw[0]
    ensures s.bufferCounter == s.done % SPARE_BUFFERS && s.pool[s.done % SPARE_BUFFERS].Has(s.calls[s.done])
    ensures Enabled(Apply(s, Process(p)), StoreRaw)
    ensures !Apply(Apply(s, Process(p)), StoreRaw).pool[s.done % SPARE_BUFFERS].Has(s.calls[s.done])
  {
    hide Q.Inv;
    assert s.pool[s.done % SPARE_BUFFERS].Has(s.calls[s.done]);
    var t := Apply(Apply(s, Process(p)), StoreRaw);
    var b, c := t.pool[s.done % SPARE_BUFFERS], s.calls[s.done];
    assert b.raw[..|c.raw|][0] == p.raw[0];
  }

  /** Calls that `main` does not drain. */
  lemma {:induction false} FillUp<S>(s: Sys<S>, size: nat, v: S, n: nat) returns (run: seq<Step<S>>)
    requires IsInitial(s, size) && size > 0 && n <= SPARE_BUFFERS
    ensures RoomyRun(s, run)
    ensures var t := After(s, run);
            && t.prod.Ready? && t.main == Waiting && t.done == 0 && |t.ring.popped| == 0 && |t.ring.pushed| == n
            && |t.calls| == n && (forall i :: 0 <= i < n ==> t.calls[i] == Payload([v], [v], 1))
            && |t.pool| == SPARE_BUFFERS && |t.pool[0].raw| == size
    decreases n
  {
    InitialInv(s, size);
    if n == 0 {
      run := [];
    } else {
      var before := FillUp(s, size, v, n - 1);
      InvRun(s, before);
      hide Q.Inv, IsInitial;
      run := ProcessUndisturbed(s, before, Payload([v], [v], 1));
    }
  }

  /** 128 calls without a pop bring the hand-off to a state with 128 buffers outstanding; the call after them
      destroys the payload of the first one, which is still queued. */
  lemma OverrunCorrupts<S>(s0: Sys<S>, size: nat, v: S, v': S) returns (run: seq<Step<S>>)
    requires IsInitial(s0, size) && size > 0 && v != v'
    ensures RoomyRun(s0, run)
    ensures var s, p := After(s0, run), Payload([v'], [v'], 1);
            && Outstanding(s) == SPARE_BUFFERS && Enabled(s, Process(p)) && Enabled(Apply(s, Process(p)), StoreRaw)
            && var t := Apply(Apply(s, Process(p)), StoreRaw);
               t.done == 0 && |t.ring.popped| == 0 && |t.calls| > 0 && |t.pool| > 0 && !t.pool[0].Has(t.calls[0])
  {
    run := FillUp(s0, size, v, SPARE_BUFFERS);
    InitialInv(s0, size);
    InvRun(s0, run);
    hide Q.Inv, IsInitial;
    FullPoolIsOverwritten(After(s0, run), Payload([v'], [v'], 1));
  }
}
