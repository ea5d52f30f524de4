/** The single-producer single-consumer ring of LockFreeQueue.h: wrapping counters and a mask instead of a
    remainder. First the index arithmetic, then the object used by one thread, then both threads interleaved
    between their individual loads, stores and increments. */
module LockFreeQueue {
  import opened Wrappers

  // ---------------------------------------------------------------- index arithmetic

  function Pow2(k: nat): (p: nat)
    ensures p > 0
  {
    if k == 0 then 1 else 2 * Pow2(k - 1)
  }

  /** Bitwise and. */
  function And(a: nat, b: nat): nat {
    if a == 0 || b == 0 then 0 else 2 * And(a / 2, b / 2) + if a % 2 == 1 && b % 2 == 1 then 1 else 0
  }

  /** `mask`: for a power of two the bits below it are the remainder. */
  lemma {:induction false} MaskIsRemainder(n: nat, k: nat)
    ensures And(n, Pow2(k) - 1) == n % Pow2(k)
    decreases k
  {
    if k > 0 {
      var p := Pow2(k - 1);
      MaskIsRemainder(n / 2, k - 1);
      HalfRemainder(n, p);
      assert (2 * p - 1) / 2 == p - 1 && (2 * p - 1) % 2 == 1;
    }
  }

  lemma HalfRemainder(n: nat, p: nat)
    requires p > 0
    ensures n % (2 * p) == 2 * (n / 2 % p) + n % 2
  {
    var q, r := n / 2 / p, n / 2 % p;
    assert n / 2 == q * p + r;
    assert n == q * (2 * p) + (2 * r + n % 2) by {
      assert 2 * (q * p) == q * (2 * p);
    }
    RemainderIs(n, q, 2 * p, 2 * r + n % 2);
  }

  lemma RemainderIs(n: int, q: int, d: int, r: int)
    requires 0 <= r < d && n == q * d + r
    ensures n % d == r && n / d == q
  {
    var q1, r1 := n / d, n % d;
    assert n == q1 * d + r1;
    SmallMultiple(q1 - q, d, r - r1) by {
      assert (q1 - q) * d == q1 * d - q * d;
    }
  }

  /** The only multiple of `d` strictly between `-d` and `d` is zero. */
  lemma SmallMultiple(x: int, d: int, e: int)
    requires d > 0 && -d < e < d && x * d == e
    ensures x == 0 && e == 0
  {
    MulBounds(x, d);
  }

  lemma MulBounds(x: int, d: int)
    requires d > 0
    ensures x >= 1 ==> x * d >= d
    ensures x <= -1 ==> x * d <= -d
  {
  }

  /** `isPowerOfTwo` as the static assertion evaluates it, on 32 bits. It also accepts zero. */
  predicate PassesTest(n: nat) { And(n, if n == 0 then 0xFFFF_FFFF else n - 1) == 0 }

  ghost predicate IsPower(n: nat) { exists k: nat :: n == Pow2(k) }

  lemma TestHalves(n: nat)
    requires n > 1
    ensures PassesTest(n) <==> n % 2 == 0 && PassesTest(n / 2)
  {
    if n % 2 == 0 {
      assert (n - 1) / 2 == n / 2 - 1 && (n - 1) % 2 == 1;
      assert And(n, n - 1) == 2 * And(n / 2, n / 2 - 1);
    } else {
      assert (n - 1) / 2 == n / 2 && (n - 1) % 2 == 0;
      assert And(n, n - 1) == 2 * And(n / 2, n / 2);
      AndSelf(n / 2);
    }
  }

  lemma PowerHalves(n: nat)
    requires n > 1
    ensures IsPower(n) <==> n % 2 == 0 && IsPower(n / 2)
  {
    if IsPower(n) {
      var k: nat :| n == Pow2(k);
      assert n == 2 * Pow2(k - 1) && n / 2 == Pow2(k - 1);
    }
    if n % 2 == 0 && IsPower(n / 2) {
      var k: nat :| n / 2 == Pow2(k);
      assert n == Pow2(k + 1);
    }
  }

  lemma {:induction false} TestMeansPowerOfTwo(n: nat)
    ensures PassesTest(n) <==> n == 0 || IsPower(n)
  {
    if n == 1 {
      assert n == Pow2(0) && And(1, 0) == 0;
    } else if n > 1 {
      hide PassesTest, IsPower;
      TestHalves(n);
      PowerHalves(n);
      TestMeansPowerOfTwo(n / 2);
    }
  }

  lemma {:induction false} AndSelf(n: nat)
    ensures And(n, n) == n
  {
    if n > 0 {
      AndSelf(n / 2);
    }
  }

  /** The capacity divides the index range. */
  lemma {:induction false} Pow2Sum(k: nat, w: nat)
    requires k <= w
    ensures Pow2(w) == Pow2(w - k) * Pow2(k)
    decreases w - k
  {
    if k < w {
      Pow2Sum(k, w - 1);
      Doubled(Pow2(w - 1 - k), Pow2(k));
    }
  }

  lemma Doubled(a: nat, b: nat)
    ensures 2 * (a * b) == (2 * a) * b
  {
  }

  lemma {:induction false} Pow2Grows(k: nat, w: nat)
    requires k < w
    ensures Pow2(k) < Pow2(w)
    decreases w - k
  {
    if k + 1 < w {
      Pow2Grows(k, w - 1);
    }
  }

  /** Slots survive the wrap of the counter: masking the wrapped counter is masking the unbounded one. */
  lemma SlotOf(n: nat, k: nat, w: nat)
    requires k < w
    ensures And(n % Pow2(w), Pow2(k) - 1) == n % Pow2(k)
  {
    var m, c, f := Pow2(w), Pow2(k), Pow2(w - k);
    MaskIsRemainder(n % m, k);
    Pow2Sum(k, w);
    RemainderOfRemainder(n, f, c);
  }

  lemma RemainderOfRemainder(n: nat, f: nat, c: nat)
    requires f > 0 && c > 0
    ensures f * c > 0 && n % (f * c) % c == n % c
  {
    MulBounds(f, c);
    var m := f * c;
    var q, r := n / m, n % m;
    var q2, r2 := r / c, r % c;
    assert n == q * m + r && r == q2 * c + r2;
    assert q * m == (q * f) * c;
    assert (q * f + q2) * c == (q * f) * c + q2 * c;
    RemainderIs(n, q * f + q2, c, r2);
  }

  /** Subtraction of unsigned indices. */
  function SubWrap(a: nat, b: nat, m: nat): nat
    requires m > 0
  {
    (a - b) % m
  }

  /** `size`: the wrapped difference of the counters is their true difference while that is below the range. */
  lemma SizeIs(a: nat, b: nat, m: nat)
    requires m > 0 && b <= a && a - b < m
    ensures SubWrap(a % m, b % m, m) == a - b
    ensures a % m == b % m <==> a == b
  {
    var qa, qb := a / m, b / m;
    assert a == qa * m + a % m && b == qb * m + b % m;
    assert a % m - b % m == (qb - qa) * m + (a - b) by {
      assert (qb - qa) * m == qb * m - qa * m;
    }
    RemainderIs(a % m - b % m, qb - qa, m, a - b);
    if a % m == b % m {
      SmallMultiple(qa - qb, m, a - b) by {
        assert (qa - qb) * m == qa * m - qb * m;
      }
    }
  }

  /** Adding one to a wrapped counter. */
  lemma NextIndex(n: nat, m: nat)
    requires m > 1
    ensures (n % m + 1) % m == (n + 1) % m
  {
    var q, r := n / m, n % m;
    assert n == q * m + r;
    if r + 1 < m {
      RemainderIs(n + 1, q, m, r + 1);
    } else {
      assert n + 1 == (q + 1) * m by { assert (q + 1) * m == q * m + m; }
      RemainderIs(n + 1, q + 1, m, 0);
    }
  }

  /** Two places less than a capacity apart are in different slots. */
  lemma SlotsDiffer(a: nat, b: nat, c: nat)
    requires c > 0 && a < b < a + c
    ensures a % c != b % c
  {
    SizeIs(b, a, c);
  }

  /** The worked example in the source's comment on `size` is off by one. */
  lemma CommentExample()
    ensures SubWrap(0, 150, 256) == 106
  {
  }

  // ---------------------------------------------------------------- one thread

  /** The items lie in the ring from slot `head` on. */
  ghost predicate Laid<T>(ring: seq<T>, head: nat, items: seq<T>) {
    |ring| > 0 && |items| <= |ring| && forall i :: 0 <= i < |items| ==> ring[(head + i) % |ring|] == items[i]
  }

  lemma LaidAppend<T>(ring: seq<T>, head: nat, items: seq<T>, item: T)
    requires Laid(ring, head, items) && |items| < |ring|
    ensures var slot := (head + |items|) % |ring|; Laid(ring[slot := item], head, items + [item])
  {
    var slot := (head + |items|) % |ring|;
    forall i | 0 <= i < |items| + 1 ensures ring[slot := item][(head + i) % |ring|] == (items + [item])[i] {
      if i < |items| {
        SlotsDiffer(head + i, head + |items|, |ring|);
      }
    }
  }

  lemma LaidRest<T>(ring: seq<T>, head: nat, items: seq<T>)
    requires Laid(ring, head, items) && items != []
    ensures ring[head % |ring|] == items[0] && Laid(ring, head + 1, items[1..])
  {
    assert ring[(head + 0) % |ring|] == items[0];
    forall i | 0 <= i < |items| - 1 ensures ring[(head + 1 + i) % |ring|] == items[1..][i] {
      assert ring[(head + (i + 1)) % |ring|] == items[i + 1];
    }
  }

  /** The queue object. `head` counts all pops ever made; the counters are its image and that of the tail. */
  class LockFreeQueue<T(0)> {
    ghost const k: nat
    ghost const w: nat
    const capacity: nat
    const indexRange: nat
    const buffer: array<T>
    var writeCounter: nat
    var readCounter: nat
    ghost var head: nat
    ghost var contents: seq<T>

    ghost predicate Valid()
      reads this, buffer
    {
      && k < w && capacity == Pow2(k) == buffer.Length && indexRange == Pow2(w)
      && |contents| <= capacity
      && readCounter == head % indexRange && writeCounter == (head + |contents|) % indexRange
      && Laid(buffer[..], head, contents)
    }

    constructor (ghost k: nat, ghost w: nat, capacity: nat, indexRange: nat)
      requires k < w && capacity == Pow2(k) && indexRange == Pow2(w)
      ensures Valid() && contents == [] && this.capacity == capacity && fresh(buffer)
    {
      this.k, this.w := k, w;
      this.capacity, this.indexRange := capacity, indexRange;
      buffer := new T[capacity];
      writeCounter, readCounter, head, contents := 0, 0, 0, [];
    }

    function Mask(n: nat): nat
      requires capacity > 0
    {
      And(n, capacity - 1)
    }

    method Size() returns (n: nat)
      requires Valid()
      ensures n == |contents|
    {
      Pow2Grows(k, w);
      SizeIs(head + |contents|, head, indexRange);
      n := SubWrap(writeCounter, readCounter, indexRange);
    }

    method IsEmpty() returns (b: bool)
      requires Valid()
      ensures b <==> contents == []
    {
      Pow2Grows(k, w);
      SizeIs(head + |contents|, head, indexRange);
      b := readCounter == writeCounter;
    }

    method IsFull() returns (b: bool)
      requires Valid()
      ensures b <==> |contents| == capacity
    {
      var n := Size();
      b := n == capacity;
    }

    method Push(item: T) returns (ok: bool)
      requires Valid()
      modifies this, buffer
      ensures Valid()
      ensures ok <==> |old(contents)| < capacity
      ensures contents == if ok then old(contents) + [item] else old(contents)
    {
      var full := IsFull();
      if full { return false; }
      ghost var tail := head + |contents|;
      SlotOf(tail, k, w);
      NextTail(k, w, tail);
      LaidAppend(buffer[..], head, contents, item);
      ghost var laid := buffer[..][tail % capacity := item];
      buffer[Mask(writeCounter)] := item;
      assert buffer[..] == laid;
      writeCounter := (writeCounter + 1) % indexRange;
      contents := contents + [item];
      ok := true;
    }

    method Pop() returns (val: Option<T>)
      requires Valid()
      modifies this
      ensures Valid()
      ensures val == if old(contents) == [] then None else Some(old(contents)[0])
      ensures contents == if old(contents) == [] then [] else old(contents)[1..]
    {
      var empty := IsEmpty();
      if empty { return None; }
      SlotOf(head, k, w);
      NextTail(k, w, head);
      LaidRest(buffer[..], head, contents);
      val := Some(buffer[Mask(readCounter)]);
      readCounter := (readCounter + 1) % indexRange;
      head, contents := head + 1, contents[1..];
    }

    method Peek() returns (item: Option<T>)
      requires Valid()
      ensures item == if contents == [] then None else Some(contents[0])
    {
      var empty := IsEmpty();
      if empty { return None; }
      SlotOf(head, k, w);
      LaidRest(buffer[..], head, contents);
      item := Some(buffer[Mask(readCounter)]);
    }
  }

  lemma NextTail(k: nat, w: nat, n: nat)
    requires k < w
    ensures (n % Pow2(w) + 1) % Pow2(w) == (n + 1) % Pow2(w) && n % Pow2(k) < Pow2(k)
  {
    Pow2Grows(0, w);
    NextIndex(n, Pow2(w));
  }

  // ---------------------------------------------------------------- two threads

  /** A slot in the middle of a store holds nothing usable. */
  datatype Cell<T> = Torn | Holds(v: T)

  /** `push`, between its atomic steps. The two counters are loaded in either order. With the load of the read
      counter goes, for the statements only, the number of pops made by then. */
  datatype Producer<T> =
    | PIdle
    | PLoading(item: T, lw: Option<nat>, lr: Option<nat>, pops: nat)
    | PIndexing(item: T)
    | PStoring(item: T, slot: nat, begun: bool)
    | PCounting(item: T)

  /** `pop` and `peek`; with the load of the write counter goes the number of pushes made by then. */
  datatype Consumer<T> =
    | CIdle
    | CLoading(peek: bool, lr: Option<nat>, lw: Option<nat>, pushes: nat)
    | CIndexing(peek: bool)
    | CReading(peek: bool, slot: nat, begun: bool)
    | CCounting(v: T)

  /** `pushed` and `popped` are the items of all completed pushes and pops. */
  datatype Ring<T> = Ring(k: nat, w: nat, buffer: seq<Cell<T>>, writeCounter: nat, readCounter: nat,
                          prod: Producer<T>, cons: Consumer<T>, pushed: seq<T>, popped: seq<T>)
  {
    function Cap(): nat { Pow2(k) }
    function Range(): nat { Pow2(w) }

    /** The items in the queue. */
    function Contents(): seq<T>
      requires |popped| <= |pushed|
    {
      pushed[|popped|..]
    }
  }

  datatype Step<T> =
    | PCall(item: T) | PLoadWrite | PLoadRead | PDecide | PIndex | PBegin | PEnd | PCount
    | CCall(peek: bool) | CLoadRead | CLoadWrite | CDecide | CIndex | CBegin | CEnd | CCount

  function Initial<T>(k: nat, w: nat): Ring<T> {
    Ring(k, w, seq(Pow2(k), _ => Torn), 0, 0, PIdle, CIdle, [], [])
  }

  predicate Enabled<T>(s: Ring<T>, step: Step<T>) {
    match step
    case PCall(item) => s.prod.PIdle?
    case PLoadWrite => s.prod.PLoading? && s.prod.lw.None?
    case PLoadRead => s.prod.PLoading? && s.prod.lr.None?
    case PDecide => s.prod.PLoading? && s.prod.lw.Some? && s.prod.lr.Some?
    case PIndex => s.prod.PIndexing?
    case PBegin => s.prod.PStoring? && !s.prod.begun && s.prod.slot < |s.buffer|
    case PEnd => s.prod.PStoring? && s.prod.begun && s.prod.slot < |s.buffer|
    case PCount => s.prod.PCounting?
    case CCall(peek) => s.cons.CIdle?
    case CLoadRead => s.cons.CLoading? && s.cons.lr.None?
    case CLoadWrite => s.cons.CLoading? && s.cons.lw.None?
    case CDecide => s.cons.CLoading? && s.cons.lr.Some? && s.cons.lw.Some?
    case CIndex => s.cons.CIndexing?
    case CBegin => s.cons.CReading? && !s.cons.begun
    case CEnd => s.cons.CReading? && s.cons.begun && s.cons.slot < |s.buffer| && s.buffer[s.cons.slot].Holds?
    case CCount => s.cons.CCounting?
  }

  /** The decision of `push`: full or not. */
  predicate SaysFull<T>(s: Ring<T>)
    requires Enabled(s, PDecide)
  {
    SubWrap(s.prod.lw.value, s.prod.lr.value, s.Range()) == s.Cap()
  }

  predicate SaysEmpty<T>(s: Ring<T>)
    requires Enabled(s, CDecide)
  {
    s.cons.lr.value == s.cons.lw.value
  }

  function Apply<T>(s: Ring<T>, step: Step<T>): Ring<T>
    requires Enabled(s, step)
  {
    match step
    case PCall(item) => s.(prod := PLoading(item, None, None, 0))
    case PLoadWrite => s.(prod := s.prod.(lw := Some(s.writeCounter)))
    case PLoadRead => s.(prod := s.prod.(lr := Some(s.readCounter), pops := |s.popped|))
    case PDecide => if SaysFull(s) then s.(prod := PIdle) else s.(prod := PIndexing(s.prod.item))
    case PIndex => s.(prod := PStoring(s.prod.item, And(s.writeCounter, s.Cap() - 1), false))
    case PBegin => s.(buffer := s.buffer[s.prod.slot := Torn], prod := s.prod.(begun := true))
    case PEnd => s.(buffer := s.buffer[s.prod.slot := Holds(s.prod.item)], prod := PCounting(s.prod.item))
    case PCount =>
      s.(writeCounter := (s.writeCounter + 1) % s.Range(), prod := PIdle, pushed := s.pushed + [s.prod.item])
    case CCall(peek) => s.(cons := CLoading(peek, None, None, 0))
    case CLoadRead => s.(cons := s.cons.(lr := Some(s.readCounter)))
    case CLoadWrite => s.(cons := s.cons.(lw := Some(s.writeCounter), pushes := |s.pushed|))
    case CDecide => if SaysEmpty(s) then s.(cons := CIdle) else s.(cons := CIndexing(s.cons.peek))
    case CIndex => s.(cons := CReading(s.cons.peek, And(s.readCounter, s.Cap() - 1), false))
    case CBegin => s.(cons := s.cons.(begun := true))
    case CEnd => if s.cons.peek then s.(cons := CIdle) else s.(cons := CCounting(s.buffer[s.cons.slot].v))
    case CCount =>
      s.(readCounter := (s.readCounter + 1) % s.Range(), cons := CIdle, popped := s.popped + [s.cons.v])
  }

  /** What holds of the shared state alone. */
  ghost predicate SharedInv<T>(s: Ring<T>) {
    && s.k < s.w && |s.buffer| == s.Cap()
    && |s.popped| <= |s.pushed| <= |s.popped| + s.Cap()
    && s.writeCounter == |s.pushed| % s.Range() && s.readCounter == |s.popped| % s.Range()
    && s.popped == s.pushed[..|s.popped|]
    && forall i :: |s.popped| <= i < |s.pushed| ==> s.buffer[i % s.Cap()] == Holds(s.pushed[i])
  }

  ghost predicate ProducerInv<T>(s: Ring<T>) {
    && (s.prod.PLoading? ==>
          && (s.prod.lw.Some? ==> s.prod.lw.value == |s.pushed| % s.Range())
          && (s.prod.lr.Some? ==> s.prod.lr.value == s.prod.pops % s.Range()
                                  && s.prod.pops <= |s.popped| && |s.pushed| <= s.prod.pops + s.Cap()))
    && (s.prod.PIndexing? || s.prod.PStoring? || s.prod.PCounting? ==> |s.pushed| < |s.popped| + s.Cap())
    && (s.prod.PStoring? ==>
          s.prod.slot == |s.pushed| % s.Cap() < |s.buffer| && (s.prod.begun ==> s.buffer[s.prod.slot] == Torn))
    && (s.prod.PCounting? ==> |s.buffer| == s.Cap() && s.buffer[|s.pushed| % s.Cap()] == Holds(s.prod.item))
  }

  ghost predicate ConsumerInv<T>(s: Ring<T>) {
    && (s.cons.CLoading? ==>
          && (s.cons.lr.Some? ==> s.cons.lr.value == |s.popped| % s.Range())
          && (s.cons.lw.Some? ==> s.cons.lw.value == s.cons.pushes % s.Range()
                                  && |s.popped| <= s.cons.pushes <= |s.pushed|))
    && (s.cons.CIndexing? || s.cons.CReading? || s.cons.CCounting? ==> |s.popped| < |s.pushed|)
    && (s.cons.CReading? ==> s.cons.slot == |s.popped| % s.Cap())
    && (s.cons.CCounting? ==> |s.popped| < |s.pushed| && s.cons.v == s.pushed[|s.popped|])
  }

  ghost predicate Inv<T>(s: Ring<T>) { SharedInv(s) && ProducerInv(s) && ConsumerInv(s) }

  /** Both decisions are exact for the moment of the deciding load. */
  lemma DecisionsExact<T>(s: Ring<T>)
    requires Inv(s)
    ensures Enabled(s, PDecide) ==> (SaysFull(s) <==> |s.pushed| - s.prod.pops == s.Cap())
    ensures Enabled(s, CDecide) ==> (SaysEmpty(s) <==> s.cons.pushes == |s.popped|)
  {
    Pow2Grows(s.k, s.w);
    if Enabled(s, PDecide) {
      SizeIs(|s.pushed|, s.prod.pops, s.Range());
    }
    if Enabled(s, CDecide) {
      SizeIs(s.cons.pushes, |s.popped|, s.Range());
    }
  }

  /** The slot that a push stores to is none of the occupied ones. */
  lemma StoreIsFree<T>(s: Ring<T>)
    requires Inv(s) && s.prod.PStoring?
    ensures forall i :: |s.popped| <= i < |s.pushed| ==> i % s.Cap() != s.prod.slot
  {
    forall i | |s.popped| <= i < |s.pushed| ensures i % s.Cap() != |s.pushed| % s.Cap() {
      SlotsDiffer(i, |s.pushed|, s.Cap());
    }
  }

  lemma ProducerStep<T>(s: Ring<T>, step: Step<T>)
    requires Inv(s) && Enabled(s, step)
    requires step.PCall? || step.PLoadWrite? || step.PLoadRead? || step.PDecide? || step.PIndex?
    ensures Inv(Apply(s, step))
  {
    hide Pow2, And;
    DecisionsExact(s);
    SlotOf(|s.pushed|, s.k, s.w);
  }

  lemma StoreStep<T>(s: Ring<T>, step: Step<T>)
    requires Inv(s) && Enabled(s, step)
    requires step.PBegin? || step.PEnd?
    ensures Inv(Apply(s, step))
  {
    hide Pow2, And;
    StoreIsFree(s);
  }

  lemma CountStep<T>(s: Ring<T>)
    requires Inv(s) && Enabled(s, PCount)
    ensures Inv(Apply(s, PCount))
  {
    hide Pow2, And;
    NextTail(s.k, s.w, |s.pushed|);
    var t := Apply(s, PCount);
    assert t.pushed[..|s.popped|] == s.pushed[..|s.popped|];
    forall i | |t.popped| <= i < |t.pushed| ensures t.buffer[i % t.Cap()] == Holds(t.pushed[i]) {
      assert i < |s.pushed| ==> t.pushed[i] == s.pushed[i];
    }
  }

  lemma ConsumerStep<T>(s: Ring<T>, step: Step<T>)
    requires Inv(s) && Enabled(s, step)
    requires step.CCall? || step.CLoadRead? || step.CLoadWrite? || step.CDecide? || step.CIndex? || step.CBegin? || step.CEnd?
    ensures Inv(Apply(s, step))
  {
    hide Pow2, And;
    DecisionsExact(s);
    SlotOf(|s.popped|, s.k, s.w);
    if step.CEnd? {
      assert s.buffer[|s.popped| % s.Cap()] == Holds(s.pushed[|s.popped|]);
    }
  }

  lemma CountPopStep<T>(s: Ring<T>)
    requires Inv(s) && Enabled(s, CCount)
    ensures Inv(Apply(s, CCount))
  {
    hide Pow2, And;
    NextTail(s.k, s.w, |s.popped|);
    assert s.popped + [s.pushed[|s.popped|]] == s.pushed[..|s.popped| + 1];
  }

  lemma InvStep<T>(s: Ring<T>, step: Step<T>)
    requires Inv(s) && Enabled(s, step)
    ensures Inv(Apply(s, step))
  {
    hide Inv, Apply, Enabled;
    match step {
      case PCall(_) => ProducerStep(s, step);
      case PLoadWrite => ProducerStep(s, step);
      case PLoadRead => ProducerStep(s, step);
      case PDecide => ProducerStep(s, step);
      case PIndex => ProducerStep(s, step);
      case PBegin => StoreStep(s, step);
      case PEnd => StoreStep(s, step);
      case PCount => CountStep(s);
      case CCount => CountPopStep(s);
      case _ => ConsumerStep(s, step);
    }
  }

  lemma InitialInv<T>(k: nat, w: nat)
    requires k < w
    ensures Inv(Initial<T>(k, w))
  {
  }

  predicate ValidRun<T>(s: Ring<T>, run: seq<Step<T>>)
    decreases |run|
  {
    run == [] || (Enabled(s, run[0]) && ValidRun(Apply(s, run[0]), run[1..]))
  }

  function After<T>(s: Ring<T>, run: seq<Step<T>>): Ring<T>
    requires ValidRun(s, run)
    decreases |run|
  {
    if run == [] then s else After(Apply(s, run[0]), run[1..])
  }

  lemma {:induction false} InvRun<T>(s: Ring<T>, run: seq<Step<T>>)
    requires Inv(s) && ValidRun(s, run)
    ensures Inv(After(s, run)) && After(s, run).k == s.k && After(s, run).w == s.w
    decreases |run|
  {
    if run != [] {
      InvStep(s, run[0]);
      SameSize(s, run[0]);
      hide Inv, Apply, Enabled;
      InvRun(Apply(s, run[0]), run[1..]);
    }
  }

  lemma SameSize<T>(s: Ring<T>, step: Step<T>)
    requires Enabled(s, step)
    ensures Apply(s, step).k == s.k && Apply(s, step).w == s.w
  {
  }

  // ---------------------------------------------------------------- the results

  /** For every power-of-two capacity below the index range and every run, however often the counters wrap: what
      was popped is a prefix of what was pushed, in order, and at most the capacity is outstanding. */
  lemma Fifo<T>(k: nat, w: nat, run: seq<Step<T>>)
    requires k < w && ValidRun(Initial<T>(k, w), run)
    ensures var s := After(Initial<T>(k, w), run);
            s.popped <= s.pushed && |s.pushed| - |s.popped| <= Pow2(k)
  {
    InitialInv<T>(k, w);
    InvRun(Initial<T>(k, w), run);
  }

  /** No two accesses to one slot overlap. While it is stored to, a slot holds no item; still a read always finds a
      complete one: the step that ends it is enabled whenever the consumer is there. */
  lemma NoSharedSlot<T>(k: nat, w: nat, run: seq<Step<T>>)
    requires k < w && ValidRun(Initial<T>(k, w), run)
    ensures var s := After(Initial<T>(k, w), run);
            && (s.prod.PStoring? && s.cons.CReading? ==> s.prod.slot != s.cons.slot)
            && (s.cons.CReading? && s.cons.begun ==> Enabled(s, CEnd))
            && (s.prod.PStoring? ==> s.prod.slot < |s.buffer| && (s.prod.begun ==> s.buffer[s.prod.slot] == Torn))
  {
    hide Pow2;
    InitialInv<T>(k, w);
    InvRun(Initial<T>(k, w), run);
    var s := After(Initial<T>(k, w), run);
    if s.prod.PStoring? && s.cons.CReading? {
      StoreIsFree(s);
    }
  }

  /** A linearizable queue of at most the capacity: a push takes effect at its increment and appends its item to
      a queue that is not full; a pop takes effect at its increment and removes the first item, which is the
      value it returns; a value that `peek` returns is the first item; no other step changes the contents. */
  lemma StepsAreQueueOperations<T>(k: nat, w: nat, run: seq<Step<T>>, step: Step<T>)
    requires k < w && ValidRun(Initial<T>(k, w), run)
    requires Enabled(After(Initial<T>(k, w), run), step)
    ensures var s := After(Initial<T>(k, w), run);
            var t := Apply(s, step);
            && |s.popped| <= |s.pushed| && |t.popped| <= |t.pushed|
            && match step
               case PCount => |s.Contents()| < Pow2(k) && t.Contents() == s.Contents() + [s.prod.item]
               case CCount => s.Contents() != [] && t.Contents() == s.Contents()[1..] && s.cons.v == s.Contents()[0]
               case CEnd => s.Contents() != [] && s.buffer[s.cons.slot].v == s.Contents()[0] && t.Contents() == s.Contents()
               case _ => t.Contents() == s.Contents()
  {
    hide Pow2, And;
    InitialInv<T>(k, w);
    InvRun(Initial<T>(k, w), run);
    var s := After(Initial<T>(k, w), run);
    InvStep(s, step);
    if step.CEnd? {
      assert s.buffer[|s.popped| % s.Cap()] == Holds(s.pushed[|s.popped|]);
    }
    if step.PCount? {
      assert Apply(s, step).pushed[|s.popped|..] == s.pushed[|s.popped|..] + [s.prod.item];
    }
  }

  /** `push` fails exactly if the queue was full, and `pop` or `peek` exactly if it was empty, at the moment of
      the load of the other thread's counter; otherwise they go on to the slot. Here `before` is the run up to that
      load and `after` the rest up to the decision. */
  lemma FailuresAreExact<T>(k: nat, w: nat, before: seq<Step<T>>, load: Step<T>, after: seq<Step<T>>)
    requires k < w && ValidRun(Initial<T>(k, w), before)
    requires load == PLoadRead || load == CLoadWrite
    requires Enabled(After(Initial<T>(k, w), before), load)
    requires ValidRun(Apply(After(Initial<T>(k, w), before), load), after)
    requires forall i :: 0 <= i < |after| ==> if load == PLoadRead then KeepsProducer(after[i]) else KeepsConsumer(after[i])
    ensures var s := After(Initial<T>(k, w), before);
            var d := After(Apply(s, load), after);
            && |s.popped| <= |s.pushed|
            && (load == PLoadRead && Enabled(d, PDecide) ==>
                  Apply(d, PDecide) == d.(prod := if |s.Contents()| == Pow2(k) then PIdle else PIndexing(s.prod.item)))
            && (load == CLoadWrite && Enabled(d, CDecide) ==>
                  Apply(d, CDecide) == d.(cons := if s.Contents() == [] then CIdle else CIndexing(s.cons.peek)))
  {
    hide And;
    InitialInv<T>(k, w);
    InvRun(Initial<T>(k, w), before);
    var s := After(Initial<T>(k, w), before);
    InvStep(s, load);
    var t := Apply(s, load);
    InvRun(t, after);
    var d := After(t, after);
    DecisionsExact(d);
    if load == PLoadRead { LoadKept(t, after); } else { PushesKept(t, after); }
  }

  /** Steps that are not the start or the end of a push, and of a pop or peek. */
  predicate KeepsProducer<T>(step: Step<T>) { !step.PCall? && !step.PDecide? && !step.PCount? && !step.PLoadRead? }
  predicate KeepsConsumer<T>(step: Step<T>) { !step.CCall? && !step.CDecide? && !step.CCount? && !step.CLoadWrite? }

  lemma {:induction false} LoadKept<T>(s: Ring<T>, run: seq<Step<T>>)
    requires s.prod.PLoading? && s.prod.lr.Some? && ValidRun(s, run)
    requires forall i :: 0 <= i < |run| ==> KeepsProducer(run[i])
    ensures var t := After(s, run);
            t.prod.PLoading? && t.prod.pops == s.prod.pops && t.prod.item == s.prod.item && t.pushed == s.pushed
    decreases |run|
  {
    if run != [] {
      var t := Apply(s, run[0]);
      assert t.prod.PLoading? && t.prod.lr.Some? && t.prod == s.prod.(lw := t.prod.lw) && t.pushed == s.pushed by {
        assert KeepsProducer(run[0]);
      }
      hide Apply, Enabled;
      LoadKept(t, run[1..]);
    }
  }

  lemma {:induction false} PushesKept<T>(s: Ring<T>, run: seq<Step<T>>)
    requires s.cons.CLoading? && s.cons.lw.Some? && ValidRun(s, run)
    requires forall i :: 0 <= i < |run| ==> KeepsConsumer(run[i])
    ensures var t := After(s, run);
            t.cons.CLoading? && t.cons.pushes == s.cons.pushes && t.cons.peek == s.cons.peek && t.popped == s.popped
    decreases |run|
  {
    if run != [] {
      var t := Apply(s, run[0]);
      assert t.cons.CLoading? && t.cons.lw.Some? && t.cons == s.cons.(lr := t.cons.lr) && t.popped == s.popped by {
        assert KeepsConsumer(run[0]);
      }
      hide Apply, Enabled;
      PushesKept(t, run[1..]);
    }
  }

  // ---------------------------------------------------------------- calls come to an end

  predicate IsProducerStep<T>(step: Step<T>) {
    step.PCall? || step.PLoadWrite? || step.PLoadRead? || step.PDecide? || step.PIndex? || step.PBegin? || step.PEnd?
    || step.PCount?
  }

  /** How many steps of its own a call still needs, at most. */
  function ProducerSteps<T>(p: Producer<T>): nat {
    match p
    case PIdle => 0
    case PLoading(_, lw, lr, _) => 5 + (if lw.None? then 1 else 0) + (if lr.None? then 1 else 0)
    case PIndexing(_) => 4
    case PStoring(_, _, begun) => if begun then 2 else 3
    case PCounting(_) => 1
  }

  function ConsumerSteps<T>(c: Consumer<T>): nat {
    match c
    case CIdle => 0
    case CLoading(_, lr, lw, _) => 5 + (if lw.None? then 1 else 0) + (if lr.None? then 1 else 0)
    case CIndexing(_) => 4
    case CReading(_, _, begun) => if begun then 2 else 3
    case CCounting(_) => 1
  }

  /** A thread in a call can always go on, whatever the other does, and is done after at most seven steps. */
  lemma WaitFree<T>(k: nat, w: nat, run: seq<Step<T>>)
    requires k < w && ValidRun(Initial<T>(k, w), run)
    ensures var s := After(Initial<T>(k, w), run);
            && (!s.prod.PIdle? ==> exists step :: IsProducerStep(step) && Enabled(s, step))
            && (!s.cons.CIdle? ==> exists step :: !IsProducerStep(step) && Enabled(s, step))
            && (forall step :: Enabled(s, step) && !step.PCall? && !step.CCall? ==>
                  var t := Apply(s, step);
                  if IsProducerStep(step) then ProducerSteps(t.prod) < ProducerSteps(s.prod) <= 7 && t.cons == s.cons
                  else ConsumerSteps(t.cons) < ConsumerSteps(s.cons) <= 7 && t.prod == s.prod)
  {
    hide Pow2, And;
    InitialInv<T>(k, w);
    InvRun(Initial<T>(k, w), run);
    var s := After(Initial<T>(k, w), run);
    CanGoOn(s);
    hide Enabled, Apply, ValidRun, After, Inv, ProducerSteps, ConsumerSteps;
    forall step | Enabled(s, step) && !step.PCall? && !step.CCall?
      ensures var t := Apply(s, step);
              if IsProducerStep(step) then ProducerSteps(t.prod) < ProducerSteps(s.prod) <= 7 && t.cons == s.cons
              else ConsumerSteps(t.cons) < ConsumerSteps(s.cons) <= 7 && t.prod == s.prod
    {
      FewerSteps(s, step);
    }
  }

  lemma FewerSteps<T>(s: Ring<T>, step: Step<T>)
    requires Enabled(s, step) && !step.PCall? && !step.CCall?
    ensures var t := Apply(s, step);
            if IsProducerStep(step) then ProducerSteps(t.prod) < ProducerSteps(s.prod) <= 7 && t.cons == s.cons
            else ConsumerSteps(t.cons) < ConsumerSteps(s.cons) <= 7 && t.prod == s.prod
  {
    hide Pow2, And, SubWrap;
  }

  lemma CanGoOn<T>(s: Ring<T>)
    requires Inv(s)
    ensures !s.prod.PIdle? ==> exists step :: IsProducerStep(step) && Enabled(s, step)
    ensures !s.cons.CIdle? ==> exists step :: !IsProducerStep(step) && Enabled(s, step)
  {
    hide Pow2, And;
    var p: Step<T> := match s.prod
      case PIdle => PLoadWrite
      case PLoading(_, lw, lr, _) => if lw.None? then PLoadWrite else if lr.None? then PLoadRead else PDecide
      case PIndexing(_) => PIndex
      case PStoring(_, _, begun) => if begun then PEnd else PBegin
      case PCounting(_) => PCount;
    assert !s.prod.PIdle? ==> IsProducerStep(p) && Enabled(s, p);
    var c: Step<T> := match s.cons
      case CIdle => CLoadRead
      case CLoading(_, lr, lw, _) => if lr.None? then CLoadRead else if lw.None? then CLoadWrite else CDecide
      case CIndexing(_) => CIndex
      case CReading(_, _, begun) => if begun then CEnd else CBegin
      case CCounting(_) => CCount;
    if s.cons.CReading? {
      assert s.buffer[|s.popped| % s.Cap()] == Holds(s.pushed[|s.popped|]);
    }
    assert !s.cons.CIdle? ==> !IsProducerStep(c) && Enabled(s, c);
  }

  lemma RunStep<T>(s: Ring<T>, step: Step<T>, rest: seq<Step<T>>)
    requires Enabled(s, step) && ValidRun(Apply(s, step), rest)
    ensures ValidRun(s, [step] + rest) && After(s, [step] + rest) == After(Apply(s, step), rest)
  {
    assert ([step] + rest)[1..] == rest;
  }

  lemma NoSteps<T>(s: Ring<T>)
    ensures ValidRun(s, []) && After(s, []) == s
  {
  }

  /** The steps of a call of `pop` or `peek` that is not disturbed, where it finds something and where it does not. */
  function TakeRun<T>(peek: bool, found: bool): seq<Step<T>> {
    [CCall(peek), CLoadRead, CLoadWrite, CDecide]
    + if !found then [] else [CIndex, CBegin, CEnd] + if peek then [] else [CCount]
  }

  /** The steps of a call of `push`, with room and without. */
  function PutRun<T>(item: T, room: bool): seq<Step<T>> {
    [PCall(item), PLoadWrite, PLoadRead, PDecide] + if room then [PIndex, PBegin, PEnd, PCount] else []
  }

  lemma FromIndex<T>(s: Ring<T>, peek: bool)
    requires Inv(s) && s.cons == CIndexing(peek)
    ensures var run := [CIndex, CBegin, CEnd] + if peek then [] else [CCount];
            && ValidRun(s, run) && |s.popped| < |s.pushed|
            && After(s, run) == if peek then s.(cons := CIdle)
                                else s.(cons := CIdle, readCounter := (s.readCounter + 1) % s.Range(),
                                        popped := s.popped + [s.pushed[|s.popped|]])
  {
    var s3 := ReadSlot(s, peek);
    var tail: seq<Step<T>> := if peek then [] else [CCount];
    LastOfTake(s3, peek);
    hide Apply, Enabled, Inv, Pow2, And, ValidRun, After;
    RunConcat(s, [CIndex, CBegin, CEnd], tail);
  }

  /** Up to the end of the read. */
  lemma ReadSlot<T>(s: Ring<T>, peek: bool) returns (t: Ring<T>)
    requires Inv(s) && s.cons == CIndexing(peek)
    ensures |s.popped| < |s.pushed| && ValidRun(s, [CIndex, CBegin, CEnd]) && t == After(s, [CIndex, CBegin, CEnd])
    ensures t == s.(cons := if peek then CIdle else CCounting(s.pushed[|s.popped|]))
  {
    hide Pow2, And, ValidRun, After;
    var s1 := Apply(s, CIndex);
    InvStep(s, CIndex);
    var s2 := Apply(s1, CBegin);
    InvStep(s1, CBegin);
    assert s2.buffer[|s2.popped| % s2.Cap()] == Holds(s2.pushed[|s2.popped|]);
    t := Apply(s2, CEnd);
    assert t == s.(cons := if peek then CIdle else CCounting(s.pushed[|s.popped|]));
    hide Apply, Enabled, Inv;
    NoSteps(t);
    RunStep(s2, CEnd, []);
    RunStep(s1, CBegin, [CEnd] + []);
    RunStep(s, CIndex, [CBegin] + ([CEnd] + []));
    var run: seq<Step<T>> := [CIndex, CBegin, CEnd];
    assert [CIndex] + ([CBegin] + ([CEnd] + [])) == run;
  }

  lemma LastOfTake<T>(s: Ring<T>, peek: bool)
    requires if peek then s.cons.CIdle? else s.cons.CCounting?
    ensures var run := if peek then [] else [CCount];
            && ValidRun(s, run)
            && After(s, run) == if peek then s
                                else s.(cons := CIdle, readCounter := (s.readCounter + 1) % s.Range(),
                                        popped := s.popped + [s.cons.v])
  {
    hide Pow2, ValidRun, After;
    if peek {
      NoSteps(s);
    } else {
      NoSteps(Apply(s, CCount));
      RunStep(s, CCount, []);
      var run: seq<Step<T>> := [CCount];
      assert run + [] == run;
    }
  }

  lemma UpToDecision<T>(s: Ring<T>, peek: bool)
    requires Inv(s) && s.cons.CIdle?
    ensures var run := [CCall(peek), CLoadRead, CLoadWrite, CDecide];
            && ValidRun(s, run) && |s.popped| <= |s.pushed|
            && After(s, run) == s.(cons := if s.Contents() == [] then CIdle else CIndexing(peek))
            && Inv(After(s, run))
  {
    Loads(s, peek);
    var s3 := Apply(Apply(Apply(s, CCall(peek)), CLoadRead), CLoadWrite);
    Decides(s, s3, peek);
    hide Inv, Apply, Enabled, ValidRun, After;
    FourSteps(s, CCall(peek), CLoadRead, CLoadWrite, CDecide);
  }

  lemma Loads<T>(s: Ring<T>, peek: bool)
    requires Inv(s) && s.cons.CIdle?
    ensures Enabled(s, CCall(peek)) && Enabled(Apply(s, CCall(peek)), CLoadRead)
    ensures Enabled(Apply(Apply(s, CCall(peek)), CLoadRead), CLoadWrite)
    ensures var t := Apply(Apply(Apply(s, CCall(peek)), CLoadRead), CLoadWrite);
            && Inv(t) && t == s.(cons := t.cons) && Enabled(t, CDecide)
            && t.cons.peek == peek && t.cons.pushes == |s.pushed|
  {
    hide Pow2, And;
    var s1 := Apply(s, CCall(peek));
    InvStep(s, CCall(peek));
    var s2 := Apply(s1, CLoadRead);
    InvStep(s1, CLoadRead);
    InvStep(s2, CLoadWrite);
  }

  lemma Decides<T>(s: Ring<T>, t: Ring<T>, peek: bool)
    requires Inv(t) && t == s.(cons := t.cons) && Enabled(t, CDecide) && t.cons.peek == peek && t.cons.pushes == |s.pushed|
    ensures |s.popped| <= |s.pushed|
    ensures Inv(Apply(t, CDecide)) && Apply(t, CDecide) == s.(cons := if s.Contents() == [] then CIdle else CIndexing(peek))
  {
    hide Pow2, And;
    DecisionsExact(t);
    InvStep(t, CDecide);
  }

  lemma FourSteps<T>(s: Ring<T>, a: Step<T>, b: Step<T>, c: Step<T>, d: Step<T>)
    requires Enabled(s, a) && Enabled(Apply(s, a), b) && Enabled(Apply(Apply(s, a), b), c)
    requires Enabled(Apply(Apply(Apply(s, a), b), c), d)
    ensures ValidRun(s, [a, b, c, d]) && After(s, [a, b, c, d]) == Apply(Apply(Apply(Apply(s, a), b), c), d)
  {
    hide Apply, Enabled, ValidRun, After;
    var s1, s2, s3 := Apply(s, a), Apply(Apply(s, a), b), Apply(Apply(Apply(s, a), b), c);
    NoSteps(Apply(s3, d));
    RunStep(s3, d, []);
    RunStep(s2, c, [d] + []);
    RunStep(s1, b, [c] + ([d] + []));
    RunStep(s, a, [b] + ([c] + ([d] + [])));
    assert [a] + ([b] + ([c] + ([d] + []))) == [a, b, c, d];
  }

  lemma {:induction false} RunConcat<T>(s: Ring<T>, a: seq<Step<T>>, b: seq<Step<T>>)
    requires ValidRun(s, a) && ValidRun(After(s, a), b)
    ensures ValidRun(s, a + b) && After(s, a + b) == After(After(s, a), b)
    decreases |a|
  {
    hide Enabled, Apply;
    if a == [] {
      assert a + b == b;
    } else {
      assert (a + b)[1..] == a[1..] + b && (a + b)[0] == a[0];
      RunConcat(Apply(s, a[0]), a[1..], b);
    }
  }

  /** An undisturbed `pop` in any reachable state takes the first item of a queue that is not empty and leaves the
      rest; `peek` leaves the whole state as it was; both give up exactly on an empty queue. */
  lemma TakeUndisturbed<T>(k: nat, w: nat, before: seq<Step<T>>, peek: bool)
    requires k < w && ValidRun(Initial<T>(k, w), before) && After(Initial<T>(k, w), before).cons.CIdle?
    ensures var s := After(Initial<T>(k, w), before);
            && |s.popped| <= |s.pushed|
            && var run := TakeRun(peek, s.Contents() != []);
            && ValidRun(s, run)
            && var t := After(s, run);
            && t.cons.CIdle? && t.prod == s.prod && t.pushed == s.pushed && t.buffer == s.buffer
            && if peek || s.Contents() == [] then t == s
               else t.popped == s.popped + [s.Contents()[0]] && |t.popped| <= |t.pushed| && t.Contents() == s.Contents()[1..]
  {
    hide Pow2, And;
    InitialInv<T>(k, w);
    InvRun(Initial<T>(k, w), before);
    var s := After(Initial<T>(k, w), before);
    TakeFrom(s, peek);
  }

  lemma TakeFrom<T>(s: Ring<T>, peek: bool)
    requires Inv(s) && s.cons.CIdle?
    ensures |s.popped| <= |s.pushed|
    ensures var run := TakeRun(peek, s.Contents() != []);
            && ValidRun(s, run)
            && After(s, run) == if peek || s.Contents() == [] then s
                                else s.(readCounter := (s.readCounter + 1) % s.Range(),
                                        popped := s.popped + [s.Contents()[0]])
  {
    UpToDecision(s, peek);
    var first := [CCall(peek), CLoadRead, CLoadWrite, CDecide];
    var d := After(s, first);
    hide ValidRun, After, Enabled, Apply, Inv, Pow2;
    if s.Contents() == [] {
      NoSteps(d);
      RunConcat(s, first, []);
    } else {
      FromIndex(d, peek);
      RunConcat(s, first, [CIndex, CBegin, CEnd] + if peek then [] else [CCount]);
    }
  }

  /** An undisturbed `push` appends its item to a queue with room, and leaves a full one as it was. */
  lemma PutUndisturbed<T>(k: nat, w: nat, before: seq<Step<T>>, item: T)
    requires k < w && ValidRun(Initial<T>(k, w), before) && After(Initial<T>(k, w), before).prod.PIdle?
    ensures var s := After(Initial<T>(k, w), before);
            && |s.popped| <= |s.pushed|
            && var room := |s.Contents()| < Pow2(k);
            && ValidRun(s, PutRun(item, room))
            && var t := After(s, PutRun(item, room));
            && t.prod.PIdle? && t.cons == s.cons && t.popped == s.popped && |t.popped| <= |t.pushed|
            && (!room ==> t == s) && t.Contents() == if room then s.Contents() + [item] else s.Contents()
  {
    hide Pow2, And;
    InitialInv<T>(k, w);
    InvRun(Initial<T>(k, w), before);
    var s := After(Initial<T>(k, w), before);
    PutFrom(s, item);
    assert |s.Contents()| < Pow2(k) ==> (s.pushed + [item])[|s.popped|..] == s.pushed[|s.popped|..] + [item];
  }

  lemma PutFrom<T>(s: Ring<T>, item: T)
    requires Inv(s) && s.prod.PIdle?
    ensures |s.popped| <= |s.pushed|
    ensures var room := |s.Contents()| < s.Cap();
            && ValidRun(s, PutRun(item, room))
            && var t := After(s, PutRun(item, room));
            && t.prod.PIdle? && t.cons == s.cons && t.popped == s.popped
            && (!room ==> t == s) && t.pushed == if room then s.pushed + [item] else s.pushed
  {
    UpToFull(s, item);
    var first := [PCall(item), PLoadWrite, PLoadRead, PDecide];
    var d := After(s, first);
    hide ValidRun, After, Enabled, Apply, Inv, Pow2;
    if |s.Contents()| < s.Cap() {
      FromSlot(d, item);
      RunConcat(s, first, [PIndex, PBegin, PEnd, PCount]);
    } else {
      NoSteps(d);
      RunConcat(s, first, []);
    }
  }

  lemma UpToFull<T>(s: Ring<T>, item: T)
    requires Inv(s) && s.prod.PIdle?
    ensures var run := [PCall(item), PLoadWrite, PLoadRead, PDecide];
            && ValidRun(s, run) && |s.popped| <= |s.pushed|
            && After(s, run) == s.(prod := if |s.Contents()| < s.Cap() then PIndexing(item) else PIdle)
            && Inv(After(s, run))
  {
    hide Pow2, And, ValidRun, After;
    var s1 := Apply(s, PCall(item));
    InvStep(s, PCall(item));
    var s2 := Apply(s1, PLoadWrite);
    InvStep(s1, PLoadWrite);
    var s3 := Apply(s2, PLoadRead);
    InvStep(s2, PLoadRead);
    DecisionsExact(s3);
    InvStep(s3, PDecide);
    var s4 := Apply(s3, PDecide);
    assert s4 == s.(prod := if |s.Contents()| < s.Cap() then PIndexing(item) else PIdle);
    hide Apply, Enabled, Inv;
    NoSteps(s4);
    RunStep(s3, PDecide, []);
    RunStep(s2, PLoadRead, [PDecide] + []);
    RunStep(s1, PLoadWrite, [PLoadRead] + ([PDecide] + []));
    RunStep(s, PCall(item), [PLoadWrite] + ([PLoadRead] + ([PDecide] + [])));
    assert [PCall(item)] + ([PLoadWrite] + ([PLoadRead] + ([PDecide] + []))) == [PCall(item), PLoadWrite, PLoadRead, PDecide];
  }

  lemma FromSlot<T>(s: Ring<T>, item: T)
    requires Inv(s) && s.prod == PIndexing(item)
    ensures ValidRun(s, [PIndex, PBegin, PEnd, PCount])
    ensures var t := After(s, [PIndex, PBegin, PEnd, PCount]);
            t.prod.PIdle? && t.cons == s.cons && t.popped == s.popped && t.pushed == s.pushed + [item]
  {
    hide Pow2, And, ValidRun, After;
    var s1 := Apply(s, PIndex);
    InvStep(s, PIndex);
    var s2 := Apply(s1, PBegin);
    InvStep(s1, PBegin);
    var s3 := Apply(s2, PEnd);
    var s4 := Apply(s3, PCount);
    hide Apply, Enabled, Inv;
    NoSteps(s4);
    RunStep(s3, PCount, []);
    RunStep(s2, PEnd, [PCount] + []);
    RunStep(s1, PBegin, [PEnd] + ([PCount] + []));
    RunStep(s, PIndex, [PBegin] + ([PEnd] + ([PCount] + [])));
    var run: seq<Step<T>> := [PIndex, PBegin, PEnd, PCount];
    assert [PIndex] + ([PBegin] + ([PEnd] + ([PCount] + []))) == run;
  }
}
