/** The generation-counter protocol `SetSeveralAtomicVariables` of atomic.h: one writer, any number of readers,
    every atomic operation and every access to a protected variable one step, in all interleavings. */
module Snapshot {

  /** A C `int` after wrapping around. */
  function Int32(n: int): int { (n + 0x8000_0000) % 0x1_0000_0000 - 0x8000_0000 }

  /** Where the writer is. `Raised` and `Lowered` stand between the two additions of `write_start` and
      `write_end`, after the flag was stored. */
  datatype Writer = Idle | Announced | Raised | Writing | Finishing | Lowered

  datatype Phase = Outside | SawIdle | Reading | Closing | SawIdleAgain | Done

  /** A reader: its `read_start` generation and the values read so far. The other fields record, for the
      statements only, the number of additions made to the generation at the two loads (`g0`, `g2`) and at the
      last look at the flag (`g1`), and the variables at the first load and at the second. */
  datatype Reader = Reader(phase: Phase, startGen: int, got: map<nat, int>, ok: bool,
                           g0: nat, g1: nat, g2: nat, before: seq<int>, base: seq<int>, after: seq<int>)

  /** `g` counts the additions; `generation` is what the 32-bit variable holds. `committed` are the values at the
      end of the last write section. */
  datatype Sys = Sys(g: nat, generation: int, isWriting: bool, vars: seq<int>, writer: Writer,
                     readers: seq<Reader>, committed: seq<int>)

  datatype Step =
    | Advance                          // the writer's next atomic operation
    | WriteVar(index: nat, value: int)
    | LoadFlag(r: nat)                 // one turn of the loop on the flag, in read_start
    | LoadGeneration(r: nat)           // the load that read_start returns
    | ReadVar(r: nat, index: nat)
    | CloseRead(r: nat)                // read_end is called
    | LoadFlagAgain(r: nat)
    | CompareGeneration(r: nat)

  function Initial(vars: seq<int>, n: nat): Sys {
    Sys(0, 0, false, vars, Idle, seq(n, _ => Reader(Outside, 0, map[], false, 0, 0, 0, [], [], [])), vars)
  }

  predicate Enabled(s: Sys, step: Step) {
    match step
    case Advance => true
    case WriteVar(i, v) => s.writer == Writing && i < |s.vars|
    case LoadFlag(r) => r < |s.readers| && s.readers[r].phase in {Outside, Done}
    case LoadGeneration(r) => r < |s.readers| && s.readers[r].phase == SawIdle
    case ReadVar(r, i) => r < |s.readers| && s.readers[r].phase == Reading && i < |s.vars|
    case CloseRead(r) => r < |s.readers| && s.readers[r].phase == Reading
    case LoadFlagAgain(r) => r < |s.readers| && s.readers[r].phase == Closing
    case CompareGeneration(r) => r < |s.readers| && s.readers[r].phase == SawIdleAgain
  }

  function Add(s: Sys): Sys { s.(g := s.g + 1, generation := Int32(s.generation + 1)) }

  /** `write_start` is the first three operations, `write_end` the last three. */
  function AdvanceWriter(s: Sys): Sys {
    match s.writer
    case Idle => Add(s).(writer := Announced)
    case Announced => s.(isWriting := true, writer := Raised)
    case Raised => Add(s).(writer := Writing)
    case Writing => Add(s).(writer := Finishing, committed := s.vars)
    case Finishing => s.(isWriting := false, writer := Lowered)
    case Lowered => Add(s).(writer := Idle)
  }

  function ReaderStep(s: Sys, step: Step, d: Reader): Reader {
    match step
    case LoadFlag(r) => if s.isWriting then d else d.(phase := SawIdle)
    case LoadGeneration(r) =>
      d.(phase := Reading, startGen := s.generation, got := map[], g0 := s.g, before := s.vars, base := s.committed)
    case ReadVar(r, i) => if i < |s.vars| then d.(got := d.got[i := s.vars[i]]) else d
    case CloseRead(r) => d.(phase := Closing)
    case LoadFlagAgain(r) => if s.isWriting then d else d.(phase := SawIdleAgain, g1 := s.g)
    case CompareGeneration(r) => d.(phase := Done, ok := s.generation == d.startGen, g2 := s.g, after := s.vars)
    case _ => d
  }

  function Apply(s: Sys, step: Step): (t: Sys)
    requires Enabled(s, step)
    ensures |t.readers| == |s.readers|
  {
    match step
    case Advance => AdvanceWriter(s)
    case WriteVar(i, v) => s.(vars := s.vars[i := v])
    case _ => s.(readers := s.readers[step.r := ReaderStep(s, step, s.readers[step.r])])
  }

  predicate ValidRun(s: Sys, run: seq<Step>)
    decreases |run|
  {
    run == [] || (Enabled(s, run[0]) && ValidRun(Apply(s, run[0]), run[1..]))
  }

  function After(s: Sys, run: seq<Step>): (t: Sys)
    requires ValidRun(s, run)
    ensures |t.readers| == |s.readers|
    decreases |run|
  {
    if run == [] then s else After(Apply(s, run[0]), run[1..])
  }

  // ---------------------------------------------------------------- invariants

  /** The writer's position determines the generation modulo four and the flag; the variables differ from the
      committed ones only while the generation is 2 modulo 4, and then the flag is set. */
  predicate WriterInv(s: Sys) {
    && s.generation == Int32(s.g)
    && s.g % 4 == (match s.writer case Idle => 0 case Announced => 1 case Raised => 1
                                  case Writing => 2 case Finishing => 3 case Lowered => 3)
    && (s.isWriting <==> s.writer in {Raised, Writing, Finishing})
    && (s.g % 4 != 2 ==> s.vars == s.committed)
  }

  predicate Agrees(got: map<nat, int>, vars: seq<int>) {
    forall i :: i in got ==> i < |vars| && got[i] == vars[i]
  }

  /** As long as the generation has not moved and is not 2 modulo 4, the reader has seen one committed state. */
  predicate Clean(d: Reader, g: nat, vars: seq<int>) {
    g == d.g0 && g % 4 != 2 ==> vars == d.before == d.base && Agrees(d.got, d.before)
  }

  predicate ReaderInv(s: Sys, d: Reader) {
    && (d.phase in {Reading, Closing, SawIdleAgain} ==>
          d.startGen == Int32(d.g0) && d.g0 <= s.g && Clean(d, s.g, s.vars))
    && (d.phase == SawIdleAgain ==> d.g0 <= d.g1 <= s.g && d.g1 % 4 != 2)
    && (d.phase == Done ==>
          && d.startGen == Int32(d.g0) && d.g0 <= d.g1 <= d.g2 <= s.g && d.g1 % 4 != 2
          && (d.ok <==> Int32(d.g2) == Int32(d.g0))
          && Clean(d, d.g2, d.after))
  }

  predicate Inv(s: Sys) {
    WriterInv(s) && forall r :: 0 <= r < |s.readers| ==> ReaderInv(s, s.readers[r])
  }

  lemma Int32Add(n: int)
    ensures Int32(Int32(n) + 1) == Int32(n + 1)
  {
  }

  lemma WriterStep(s: Sys)
    requires WriterInv(s)
    ensures WriterInv(AdvanceWriter(s)) && AdvanceWriter(s).g >= s.g
    ensures AdvanceWriter(s).vars == s.vars && AdvanceWriter(s).readers == s.readers
  {
    Int32Add(s.g);
  }

  /** What a step does to one reader: its own loads, or the writer moving on beside it. */
  lemma ReaderAlone(s: Sys, step: Step, d: Reader)
    requires WriterInv(s) && ReaderInv(s, d) && Enabled(s, step)
    ensures step.Advance? || step.WriteVar? ==> ReaderInv(Apply(s, step), d)
    ensures !step.Advance? && !step.WriteVar? && d == s.readers[step.r] ==> ReaderInv(s, ReaderStep(s, step, d))
  {
    hide Int32;
    if step.Advance? {
      WriterStep(s);
      hide AdvanceWriter, WriterInv;
    }
  }

  /** A reader's account speaks of the generation and the variables only. */
  lemma SameWriter(s: Sys, t: Sys, d: Reader)
    requires ReaderInv(s, d) && t == s.(readers := t.readers)
    ensures ReaderInv(t, d) && (WriterInv(s) ==> WriterInv(t))
  {
  }

  lemma WriterAlone(s: Sys, step: Step)
    requires WriterInv(s) && Enabled(s, step)
    ensures WriterInv(Apply(s, step))
  {
    if step.Advance? {
      WriterStep(s);
    }
  }

  lemma InvStep(s: Sys, step: Step)
    requires Inv(s) && Enabled(s, step)
    ensures Inv(Apply(s, step)) && |Apply(s, step).readers| == |s.readers|
  {
    WriterAlone(s, step);
    hide Int32, WriterInv, ReaderInv, ReaderStep, AdvanceWriter;
    var t := Apply(s, step);
    forall r | 0 <= r < |s.readers| ensures ReaderInv(t, t.readers[r]) {
      var d := s.readers[r];
      ReaderAlone(s, step, d);
      if !step.Advance? && !step.WriteVar? {
        SameWriter(s, t, if r == step.r then ReaderStep(s, step, d) else d);
      }
    }
  }

  lemma {:induction false} InvRun(s: Sys, run: seq<Step>)
    requires Inv(s) && ValidRun(s, run)
    ensures Inv(After(s, run)) && |After(s, run).readers| == |s.readers|
    decreases |run|
  {
    if run != [] {
      InvStep(s, run[0]);
      hide Inv, Enabled, Apply;
      InvRun(Apply(s, run[0]), run[1..]);
    }
  }

  /** Two additions counts that look the same in 32 bits are the same, unless 2^30 write sections complete
      between them. */
  lemma NoWrap(g0: nat, g2: nat)
    requires g0 <= g2 && Int32(g0) == Int32(g2)
    requires g2 / 4 - g0 / 4 < 0x4000_0000
    ensures g0 == g2
  {
    assert g2 - g0 < 0x1_0000_0000;
  }

  // ---------------------------------------------------------------- the results

  lemma DoneReader(s: Sys, d: Reader)
    requires ReaderInv(s, d) && d.phase == Done && d.g2 / 4 - d.g0 / 4 < 0x4000_0000
    ensures d.ok <==> d.g2 == d.g0
    ensures d.ok ==> d.after == d.before == d.base && Agrees(d.got, d.base)
  {
    if d.ok {
      NoWrap(d.g0, d.g2);
    }
  }

  /** Where fewer than 2^30 write sections complete during a read, `read_end` returns true exactly if the generation
      did not move between its two loads; then no variable was written, and what was read is part of one committed
      state. */
  lemma ReadIsConsistent(vars: seq<int>, n: nat, run: seq<Step>, r: nat)
    requires ValidRun(Initial(vars, n), run) && r < n
    requires var d := After(Initial(vars, n), run).readers[r]; d.phase == Done && d.g2 / 4 - d.g0 / 4 < 0x4000_0000
    ensures var d := After(Initial(vars, n), run).readers[r];
            (d.ok <==> d.g2 == d.g0) && (d.ok ==> d.after == d.before == d.base && Agrees(d.got, d.base))
  {
    hide ValidRun, After, Apply, Enabled, ReaderInv, Agrees, Initial, Inv;
    InitialInv(vars, n);
    InvRun(Initial(vars, n), run);
    var s := After(Initial(vars, n), run);
    ReaderAccounted(s, r);
    DoneReader(s, s.readers[r]);
  }

  lemma InitialInv(vars: seq<int>, n: nat)
    ensures Inv(Initial(vars, n)) && |Initial(vars, n).readers| == n
  {
  }

  lemma ReaderAccounted(s: Sys, r: nat)
    requires Inv(s) && r < |s.readers|
    ensures ReaderInv(s, s.readers[r])
  {
  }

  /** While the flag stays up, no read begins and none ends: whatever the other threads do, a reader that waits in
      `read_start` or `read_end` stays there. */
  lemma {:induction false} ReadersWait(s: Sys, run: seq<Step>, r: nat)
    requires ValidRun(s, run) && r < |s.readers| && s.isWriting && s.readers[r].phase in {Outside, Done, Closing}
    requires forall i :: 0 <= i < |run| ==> !run[i].Advance?
    ensures After(s, run).readers[r] == s.readers[r] && After(s, run).isWriting
    decreases |run|
  {
    if run != [] {
      WaitsOnce(s, run[0], r);
      hide Apply, Enabled;
      ReadersWait(Apply(s, run[0]), run[1..], r);
    }
  }

  lemma WaitsOnce(s: Sys, step: Step, r: nat)
    requires Enabled(s, step) && r < |s.readers| && s.isWriting && s.readers[r].phase in {Outside, Done, Closing}
    requires !step.Advance?
    ensures Apply(s, step).readers[r] == s.readers[r] && Apply(s, step).isWriting
  {
  }

  // ---------------------------------------------------------------- a read that nobody disturbs

  /** A whole read of the variables with these indices. */
  function ReadRun(r: nat, indices: seq<nat>): seq<Step> {
    [LoadFlag(r), LoadGeneration(r)] + (Loads(r, indices) + [CloseRead(r), LoadFlagAgain(r), CompareGeneration(r)])
  }

  function Loads(r: nat, indices: seq<nat>): seq<Step> {
    if indices == [] then [] else [ReadVar(r, indices[0])] + Loads(r, indices[1..])
  }

  lemma {:induction false} LoadsTake(s: Sys, r: nat, indices: seq<nat>)
    requires r < |s.readers| && s.readers[r].phase == Reading && forall i :: i in indices ==> i < |s.vars|
    requires Agrees(s.readers[r].got, s.vars)
    ensures ValidRun(s, Loads(r, indices))
    ensures var t := After(s, Loads(r, indices));
            && t == s.(readers := t.readers) && |t.readers| == |s.readers|
            && t.readers[r] == s.readers[r].(got := t.readers[r].got) && Agrees(t.readers[r].got, s.vars)
            && forall i :: i in t.readers[r].got <==> i in s.readers[r].got || i in indices
    decreases |indices|
  {
    if indices != [] {
      var step := ReadVar(r, indices[0]);
      hide ValidRun, After;
      assert indices[0] in indices && forall i :: i in indices[1..] ==> i in indices;
      var t := Apply(s, step);
      LoadsTake(t, r, indices[1..]);
      RunStep(s, step, Loads(r, indices[1..]));
      assert indices == [indices[0]] + indices[1..];
    }
  }

  /** From every state of every run in which the flag is down, a reader that nobody disturbs gets true for an answer
      and has read the committed values of all the variables it asked for. */
  lemma UndisturbedRead(s: Sys, r: nat, indices: seq<nat>)
    requires Inv(s) && !s.isWriting && r < |s.readers| && s.readers[r].phase in {Outside, Done}
    requires forall i :: i in indices ==> i < |s.vars|
    ensures ValidRun(s, ReadRun(r, indices))
    ensures var t := After(s, ReadRun(r, indices)); var d := t.readers[r];
            && t == s.(readers := t.readers) && d.phase == Done && d.ok
            && Agrees(d.got, s.committed) && forall i :: i in d.got <==> i in indices
  {
    var open := [LoadFlag(r), LoadGeneration(r)];
    var close := [CloseRead(r), LoadFlagAgain(r), CompareGeneration(r)];
    var u := OpenAny(s, r);
    LoadsTake(u, r, indices);
    var v := After(u, Loads(r, indices));
    var t := CloseAny(v, r);
    hide ValidRun, After, Apply, Enabled, Int32;
    RunConcat(u, Loads(r, indices), close);
    RunConcat(s, open, Loads(r, indices) + close);
  }

  lemma OpenAny(s: Sys, r: nat) returns (t: Sys)
    requires !s.isWriting && r < |s.readers| && s.readers[r].phase in {Outside, Done}
    ensures ValidRun(s, [LoadFlag(r), LoadGeneration(r)]) && t == After(s, [LoadFlag(r), LoadGeneration(r)])
    ensures t == s.(readers := t.readers) && |t.readers| == |s.readers|
    ensures t.readers[r].phase == Reading && t.readers[r].startGen == s.generation && t.readers[r].got == map[]
  {
    var s1 := Apply(s, LoadFlag(r));
    t := Apply(s1, LoadGeneration(r));
    RunStep(s1, LoadGeneration(r), []);
    RunStep(s, LoadFlag(r), [LoadGeneration(r)]);
  }

  lemma CloseAny(s: Sys, r: nat) returns (t: Sys)
    requires !s.isWriting && r < |s.readers| && s.readers[r].phase == Reading && s.generation == s.readers[r].startGen
    ensures ValidRun(s, [CloseRead(r), LoadFlagAgain(r), CompareGeneration(r)])
    ensures t == After(s, [CloseRead(r), LoadFlagAgain(r), CompareGeneration(r)])
    ensures t == s.(readers := t.readers) && |t.readers| == |s.readers|
    ensures t.readers[r].phase == Done && t.readers[r].ok && t.readers[r].got == s.readers[r].got
  {
    var s1 := Apply(s, CloseRead(r));
    var s2 := Apply(s1, LoadFlagAgain(r));
    t := Apply(s2, CompareGeneration(r));
    RunStep(s2, CompareGeneration(r), []);
    RunStep(s1, LoadFlagAgain(r), [CompareGeneration(r)]);
    RunStep(s, CloseRead(r), [LoadFlagAgain(r), CompareGeneration(r)]);
  }

  // ---------------------------------------------------------------- the bound is sharp

  /** One whole write section that stores `v` in the first two variables. */
  function SectionRun(v: int): seq<Step> {
    [Advance, Advance, Advance, WriteVar(0, v), WriteVar(1, v), Advance, Advance, Advance]
  }

  function Sections(k: nat, v: int): seq<Step> { if k == 0 then [] else SectionRun(v) + Sections(k - 1, v) }

  /** The state after `k` such sections. */
  function AfterSections(s: Sys, k: nat, v: int): Sys
    requires |s.vars| == 2
  {
    if k == 0 then s
    else s.(g := s.g + 4 * k, generation := Int32(s.g + 4 * k), vars := [v, v], committed := [v, v])
  }

  lemma {:induction false} RunConcat(s: Sys, a: seq<Step>, b: seq<Step>)
    requires ValidRun(s, a) && ValidRun(After(s, a), b)
    ensures ValidRun(s, a + b) && After(s, a + b) == After(After(s, a), b)
    decreases |a|
  {
    hide Enabled, Apply;
    if a == [] {
      assert a + b == b;
    } else {
      assert (a + b)[1..] == a[1..] + b && (a + b)[0] == a[0];
      RunConcat(Apply(s, a[0]), a[1..], b);
    }
  }

  lemma {:induction false} RunStep(s: Sys, step: Step, rest: seq<Step>)
    requires Enabled(s, step) && ValidRun(Apply(s, step), rest)
    ensures ValidRun(s, [step] + rest) && After(s, [step] + rest) == After(Apply(s, step), rest)
  {
    assert ([step] + rest)[1..] == rest;
  }

  lemma ThreeAdvances(s: Sys)
    ensures ValidRun(s, [Advance, Advance, Advance])
    ensures After(s, [Advance, Advance, Advance]) == AdvanceWriter(AdvanceWriter(AdvanceWriter(s)))
  {
    hide AdvanceWriter;
    RunStep(AdvanceWriter(AdvanceWriter(s)), Advance, []);
    RunStep(AdvanceWriter(s), Advance, [Advance]);
    RunStep(s, Advance, [Advance, Advance]);
  }

  /** What `write_start` and `write_end` do, uninterrupted. */
  lemma StartEffect(s: Sys)
    requires WriterInv(s) && s.writer == Idle
    ensures AdvanceWriter(AdvanceWriter(AdvanceWriter(s)))
         == s.(g := s.g + 2, generation := Int32(s.g + 2), isWriting := true, writer := Writing)
  {
    Int32Add(s.g);
    Int32Add(s.g + 1);
  }

  lemma EndEffect(s: Sys)
    requires s.generation == Int32(s.g) && s.writer == Writing
    ensures AdvanceWriter(AdvanceWriter(AdvanceWriter(s)))
         == s.(g := s.g + 2, generation := Int32(s.g + 2), isWriting := false, writer := Idle, committed := s.vars)
  {
    Int32Add(s.g);
    Int32Add(s.g + 1);
  }

  lemma TwoWrites(s: Sys, v: int)
    requires s.writer == Writing && |s.vars| == 2
    ensures ValidRun(s, [WriteVar(0, v), WriteVar(1, v)])
    ensures After(s, [WriteVar(0, v), WriteVar(1, v)]) == s.(vars := [v, v])
  {
    var t := Apply(s, WriteVar(0, v));
    assert Apply(t, WriteVar(1, v)).vars == [v, v];
    RunStep(t, WriteVar(1, v), []);
    RunStep(s, WriteVar(0, v), [WriteVar(1, v)]);
  }

  lemma OneSection(s: Sys, v: int)
    requires WriterInv(s) && s.writer == Idle && |s.vars| == 2
    ensures ValidRun(s, SectionRun(v)) && After(s, SectionRun(v)) == AfterSections(s, 1, v)
  {
    hide Apply, Enabled, Int32, ValidRun, After, AdvanceWriter;
    var three, two := [Advance, Advance, Advance], [WriteVar(0, v), WriteVar(1, v)];
    ThreeAdvances(s);
    StartEffect(s);
    var t := After(s, three);
    TwoWrites(t, v);
    var u := After(t, two);
    ThreeAdvances(u);
    EndEffect(u);
    RunConcat(t, two, three);
    RunConcat(s, three, two + three);
    assert SectionRun(v) == three + (two + three);
  }

  lemma {:induction false} ManySections(s: Sys, k: nat, v: int)
    requires WriterInv(s) && s.writer == Idle && |s.vars| == 2
    ensures ValidRun(s, Sections(k, v)) && After(s, Sections(k, v)) == AfterSections(s, k, v)
    decreases k
  {
    if k > 0 {
      OneSection(s, v);
      var t := AfterSections(s, 1, v);
      assert (s.g + 4) % 4 == 0;
      hide ValidRun, After, SectionRun;
      ManySections(t, k - 1, v);
      RunConcat(s, SectionRun(v), Sections(k - 1, v));
    }
  }

  /** The bound on the wrap-around is sharp: with exactly 2^30 write sections during one read, `read_end` returns
      true although the reader saw the first variable of the old state and the second of the new one. */
  lemma WrapIsSeen()
    ensures exists run :: ValidRun(Initial([0, 0], 1), run) &&
              var d := After(Initial([0, 0], 1), run).readers[0];
              d.phase == Done && d.ok && d.g2 / 4 - d.g0 / 4 == 0x4000_0000 && d.got == map[0 := 0, 1 := 1]
  {
    var run := WrappedRead();
  }

  lemma WrappedRead() returns (run: seq<Step>)
    ensures ValidRun(Initial([0, 0], 1), run)
    ensures var d := After(Initial([0, 0], 1), run).readers[0];
            d.phase == Done && d.ok && d.g2 / 4 - d.g0 / 4 == 0x4000_0000 && d.got == map[0 := 0, 1 := 1]
  {
    hide Apply, Enabled, ValidRun, After, Sections;
    var s, k := Initial([0, 0], 1), 0x4000_0000;
    var s3 := OpenRead(s);
    ManySections(s3, k, 1);
    var t := AfterSections(s3, k, 1);
    assert t.generation == 0;
    var t4 := CloseRead4(t);
    assert t4.readers[0].got == map[0 := 0, 1 := 1];
    RunConcat(s3, Sections(k, 1), CLOSE);
    RunConcat(s, OPEN, Sections(k, 1) + CLOSE);
    run := OPEN + (Sections(k, 1) + CLOSE);
  }

  const OPEN := [LoadFlag(0), LoadGeneration(0), ReadVar(0, 0)]
  const CLOSE := [ReadVar(0, 1), CloseRead(0), LoadFlagAgain(0), CompareGeneration(0)]

  lemma OpenRead(s: Sys) returns (t: Sys)
    requires s == Initial([0, 0], 1)
    ensures ValidRun(s, OPEN) && t == After(s, OPEN) && WriterInv(t) && t.writer == Idle && t.vars == [0, 0] && t.g == 0
    ensures t.readers == [Reader(Reading, 0, map[0 := 0], false, 0, 0, 0, [0, 0], [0, 0], [])]
  {
    var s1 := Apply(s, LoadFlag(0));
    var s2 := Apply(s1, LoadGeneration(0));
    t := Apply(s2, ReadVar(0, 0));
    assert t.readers[0].got == map[0 := 0];
    RunStep(s2, ReadVar(0, 0), []);
    RunStep(s1, LoadGeneration(0), [ReadVar(0, 0)]);
    RunStep(s, LoadFlag(0), [LoadGeneration(0), ReadVar(0, 0)]);
  }

  lemma CloseRead4(s: Sys) returns (t: Sys)
    requires |s.readers| == 1 && s.readers[0].phase == Reading && s.vars == [1, 1] && !s.isWriting
    ensures ValidRun(s, CLOSE) && t == After(s, CLOSE)
    ensures var d := s.readers[0];
            t.readers[0] == d.(phase := Done, got := d.got[1 := 1], ok := s.generation == d.startGen,
                               g1 := s.g, g2 := s.g, after := s.vars)
  {
    var t1 := Apply(s, ReadVar(0, 1));
    var t2 := Apply(t1, CloseRead(0));
    var t3 := Apply(t2, LoadFlagAgain(0));
    t := Apply(t3, CompareGeneration(0));
    RunStep(t3, CompareGeneration(0), []);
    RunStep(t2, LoadFlagAgain(0), [CompareGeneration(0)]);
    RunStep(t1, CloseRead(0), [LoadFlagAgain(0), CompareGeneration(0)]);
    RunStep(s, ReadVar(0, 1), [CloseRead(0), LoadFlagAgain(0), CompareGeneration(0)]);
  }

  // ---------------------------------------------------------------- the object

  class SetSeveralAtomicVariables {
    var generation: int
    var isWriting: bool

    predicate Shows(s: Sys)
      reads this
    {
      generation == s.generation && isWriting == s.isWriting
    }

    constructor ()
      ensures Shows(Initial([], 0))
    {
      generation, isWriting := 0, false;
    }

    method WriteStart(ghost s: Sys)
      requires Shows(s) && s.writer == Idle
      modifies this
      ensures ValidRun(s, [Advance, Advance, Advance]) && Shows(After(s, [Advance, Advance, Advance]))
      ensures After(s, [Advance, Advance, Advance]).writer == Writing
    {
      generation := Int32(generation + 1);
      isWriting := true;
      generation := Int32(generation + 1);
      ThreeAdvances(s);
    }

    method WriteEnd(ghost s: Sys)
      requires Shows(s) && s.writer == Writing
      modifies this
      ensures ValidRun(s, [Advance, Advance, Advance]) && Shows(After(s, [Advance, Advance, Advance]))
      ensures After(s, [Advance, Advance, Advance]).writer == Idle
    {
      generation := Int32(generation + 1);
      isWriting := false;
      generation := Int32(generation + 1);
      ThreeAdvances(s);
    }
  }
}
