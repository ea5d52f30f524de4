/** `AtomicPointerStorage` and its scoped realtime user (atomic.h): a pointer handed between a thread that
    replaces it and a thread that borrows it. Every atomic operation and every call of the free function is one
    step; the lemmas speak of all interleavings of one setter and one user. Pointers are numbers, 0 is NULL. */
module AtomicPointer {

  /** `set_new_pointer`: called; between its two exchanges; about to free the first and the second pointer. */
  datatype Setter =
    | Away
    | Called(p: nat)
    | Between(p: nat, kept: nat)
    | Freeing(a: nat, b: nat)
    | FreeingLast(b: nat)

  /** The scoped usage: not there; holding; after a failed compare-and-set; past the debug check; aborted. */
  datatype User = Absent | Holding(p: nat) | Refused(p: nat) | Storing(p: nat) | Aborted

  /** `debug` is a build with the check in force, `weak` one whose compare-and-set may fail spuriously.
      `given`, `freed` and `lost` record the pointers handed in, freed, and overwritten in the old slot. */
  datatype Sys = Sys(debug: bool, weak: bool, slot: nat, oldSlot: nat, setter: Setter, user: User,
                     destroyed: bool, given: set<nat>, freed: multiset<nat>, lost: multiset<nat>)

  datatype Step =
    | SetCall(p: nat)
    | ExchangeOld
    | ExchangeNew
    | FreeFirst
    | FreeSecond
    | UserStart
    | UserCas(spurious: bool)
    | UserCheck
    | UserStore
    | Destroy

  function Initial(debug: bool, weak: bool): Sys {
    Sys(debug, weak, 0, 0, Away, Absent, false, {}, multiset{}, multiset{})
  }

  /** A pointer passed to `set_new_pointer` is NULL or fresh. The destructor runs when both threads are away. */
  predicate Enabled(s: Sys, step: Step) {
    !s.destroyed && s.user != Aborted &&
    match step
    case SetCall(p) => s.setter == Away && p !in s.given
    case ExchangeOld => s.setter.Called?
    case ExchangeNew => s.setter.Between?
    case FreeFirst => s.setter.Freeing?
    case FreeSecond => s.setter.FreeingLast?
    case UserStart => s.user == Absent
    case UserCas(spurious) => s.user.Holding? && (spurious ==> s.weak)
    case UserCheck => s.user.Refused?
    case UserStore => s.user.Storing?
    case Destroy => s.setter == Away && s.user == Absent
  }

  /** A pointer as an inventory entry: NULL is nothing. */
  ghost function Item(p: nat): multiset<nat> { if p == 0 then multiset{} else multiset{p} }

  ghost function Apply(s: Sys, step: Step): Sys
    requires Enabled(s, step)
  {
    match step
    case SetCall(p) => s.(setter := Called(p), given := if p == 0 then s.given else s.given + {p})
    case ExchangeOld => s.(oldSlot := 0, setter := Between(s.setter.p, s.oldSlot))
    case ExchangeNew => s.(slot := s.setter.p, setter := Freeing(s.slot, s.setter.kept))
    case FreeFirst => s.(freed := s.freed + Item(s.setter.a), setter := FreeingLast(s.setter.b))
    case FreeSecond => s.(freed := s.freed + Item(s.setter.b), setter := Away)
    case UserStart => s.(user := Holding(s.slot), slot := 0)
    case UserCas(spurious) =>
      if s.slot == 0 && !spurious then s.(slot := s.user.p, user := Absent) else s.(user := Refused(s.user.p))
    case UserCheck =>
      if s.debug && s.oldSlot != 0 && s.oldSlot != s.user.p then s.(user := Aborted) else s.(user := Storing(s.user.p))
    case UserStore => s.(lost := s.lost + Item(s.oldSlot), oldSlot := s.user.p, user := Absent)
    case Destroy => s.(destroyed := true, freed := s.freed + Item(s.slot) + Item(s.oldSlot), slot := 0, oldSlot := 0)
  }

  ghost predicate ValidRun(s: Sys, run: seq<Step>)
    decreases |run|
  {
    run == [] || (Enabled(s, run[0]) && ValidRun(Apply(s, run[0]), run[1..]))
  }

  ghost function After(s: Sys, run: seq<Step>): Sys
    requires ValidRun(s, run)
    decreases |run|
  {
    if run == [] then s else After(Apply(s, run[0]), run[1..])
  }

  // ---------------------------------------------------------------- conservation

  function Is(q: nat, p: nat): nat { if q == p then 1 else 0 }

  /** How often the setter, and the user, has pointer `p` in its hands. */
  function SetterHolds(w: Setter, p: nat): nat {
    match w
    case Away => 0
    case Called(q) => Is(q, p)
    case Between(q, kept) => Is(q, p) + Is(kept, p)
    case Freeing(a, b) => Is(a, p) + Is(b, p)
    case FreeingLast(b) => Is(b, p)
  }

  function UserHolds(u: User, p: nat): nat {
    match u
    case Holding(q) => Is(q, p)
    case Refused(q) => Is(q, p)
    case Storing(q) => Is(q, p)
    case _ => 0
  }

  /** In how many places pointer `p` is: the two slots, hands, freed, overwritten. */
  function Places(s: Sys, p: nat): nat {
    Is(s.slot, p) + Is(s.oldSlot, p) + SetterHolds(s.setter, p) + UserHolds(s.user, p) + s.freed[p] + s.lost[p]
  }

  /** Every pointer ever given is in exactly one place and no other is anywhere; with the check in force none was
      overwritten. An abort ends the program with a pointer still in the user's hands. */
  ghost predicate Inv(s: Sys) {
    && 0 !in s.given
    && (s.user != Aborted ==> forall p: nat :: p != 0 ==> Places(s, p) == if p in s.given then 1 else 0)
    && s.freed[0] == 0 && s.lost[0] == 0
    && (s.debug ==> s.lost == multiset{} && (s.user.Storing? ==> s.oldSlot == 0))
  }

  /** Every step but a new call only moves pointers between places. */
  lemma PlacesStep(s: Sys, step: Step, p: nat)
    requires Enabled(s, step) && Apply(s, step).user != Aborted && p != 0
    ensures Places(Apply(s, step), p) == Places(s, p) + if step.SetCall? then Is(step.p, p) else 0
  {
    if step.SetCall? || step.ExchangeOld? || step.ExchangeNew? || step.FreeFirst? || step.FreeSecond? {
      SetterPlaces(s, step, p);
    } else {
      UserPlaces(s, step, p);
    }
  }

  lemma SetterPlaces(s: Sys, step: Step, p: nat)
    requires Enabled(s, step) && p != 0
    requires step.SetCall? || step.ExchangeOld? || step.ExchangeNew? || step.FreeFirst? || step.FreeSecond?
    ensures Places(Apply(s, step), p) == Places(s, p) + if step.SetCall? then Is(step.p, p) else 0
  {
    hide UserHolds;
  }

  lemma UserPlaces(s: Sys, step: Step, p: nat)
    requires Enabled(s, step) && Apply(s, step).user != Aborted && p != 0
    requires step.UserStart? || step.UserCas? || step.UserCheck? || step.UserStore? || step.Destroy?
    ensures Places(Apply(s, step), p) == Places(s, p)
  {
    hide SetterHolds;
  }

  /** The old slot never holds what the user holds. */
  lemma HeldOnce(s: Sys)
    requires Inv(s) && s.user.Refused? && s.user.p != 0
    ensures s.oldSlot != s.user.p
  {
    assert Places(s, s.user.p) <= 1;
  }

  lemma InvStep(s: Sys, step: Step)
    requires Inv(s) && Enabled(s, step)
    ensures Inv(Apply(s, step))
  {
    var t := Apply(s, step);
    if t.user != Aborted {
      forall p: nat | p != 0 ensures Places(t, p) == if p in t.given then 1 else 0 {
        assert Places(s, p) == if p in s.given then 1 else 0;
        PlacesStep(s, step, p);
      }
    }
    if step.UserCheck? && s.user.p != 0 {
      HeldOnce(s);
    }
  }

  lemma {:induction false} InvRun(s: Sys, run: seq<Step>)
    requires Inv(s) && ValidRun(s, run)
    ensures Inv(After(s, run)) && After(s, run).debug == s.debug && After(s, run).weak == s.weak
    decreases |run|
  {
    if run != [] {
      InvStep(s, run[0]);
      SameBuild(s, run[0]);
      hide Inv, Enabled, Apply;
      InvRun(Apply(s, run[0]), run[1..]);
    }
  }

  lemma SameBuild(s: Sys, step: Step)
    requires Enabled(s, step)
    ensures Apply(s, step).debug == s.debug && Apply(s, step).weak == s.weak
  {
  }

  /** Over every run, spurious failures included: every pointer given is in exactly one place. So nothing is freed
      twice, and what the user holds is neither freed nor reachable elsewhere; in a debug build nothing is lost. */
  lemma NothingFreedTwice(debug: bool, weak: bool, run: seq<Step>)
    requires ValidRun(Initial(debug, weak), run)
    requires After(Initial(debug, weak), run).user != Aborted
    ensures var s := After(Initial(debug, weak), run);
            && (forall p: nat :: p != 0 ==> Places(s, p) == if p in s.given then 1 else 0)
            && (forall p: nat :: s.freed[p] <= 1)
            && (forall p: nat :: p != 0 && UserHolds(s.user, p) > 0 ==>
                  p in s.given && p !in s.freed && p != s.slot && p != s.oldSlot && SetterHolds(s.setter, p) == 0)
            && (debug ==> s.lost == multiset{})
  {
    InvRun(Initial(debug, weak), run);
    var s := After(Initial(debug, weak), run);
    forall p: nat ensures s.freed[p] <= 1 {
      if p != 0 { assert Places(s, p) <= 1; }
    }
    forall p: nat | p != 0 && UserHolds(s.user, p) > 0
      ensures p in s.given && p !in s.freed && p != s.slot && p != s.oldSlot && SetterHolds(s.setter, p) == 0
    {
      assert Places(s, p) <= 1;
    }
  }

  /** Only the store into the old slot can take a pointer out of the accounting. */
  lemma OnlyTheStoreLoses(s: Sys, step: Step)
    requires Enabled(s, step) && !step.UserStore?
    ensures Apply(s, step).lost == s.lost
  {
  }

  /** Whenever both threads are away the storage may be destroyed. That frees what it still holds: every pointer given
      was freed exactly once or had been overwritten, and with the check in force every one was freed exactly once.
      No step follows. */
  lemma AllFreedAtTheEnd(debug: bool, weak: bool, run: seq<Step>)
    requires ValidRun(Initial(debug, weak), run)
    requires var s := After(Initial(debug, weak), run); s.setter == Away && s.user == Absent && !s.destroyed
    ensures var s := After(Initial(debug, weak), run);
            && Enabled(s, Destroy)
            && var t := Apply(s, Destroy);
               && t.given == s.given && t.freed + t.lost == multiset(s.given) && (debug ==> t.freed == multiset(s.given))
               && t.slot == 0 && t.oldSlot == 0 && forall step :: !Enabled(t, step)
  {
    InvRun(Initial(debug, weak), run);
    var s := After(Initial(debug, weak), run);
    var t := Apply(s, Destroy);
    forall p: nat ensures (t.freed + t.lost)[p] == multiset(s.given)[p] {
      if p != 0 { assert Places(s, p) == if p in s.given then 1 else 0; }
    }
  }

  // ---------------------------------------------------------------- exactly when a usage fails

  /** A usage that starts in such a state can fail. The old slot is full; and either the compare-and-set may fail by
      itself, or a setter stands between its exchanges and will put a pointer in the user's way. */
  predicate Armed(s: Sys) {
    s.oldSlot != 0 && (s.weak || (s.setter.Between? && s.setter.p != 0))
  }

  /** The failure: an abort in a debug build, an overwritten pointer in a release build. */
  ghost predicate Fails(s: Sys, t: Sys) { if s.debug then t.user == Aborted else t.lost != s.lost }

  ghost predicate OneUsage(s: Sys, run: seq<Step>) {
    Enabled(s, UserStart) && ValidRun(Apply(s, UserStart), run) && forall i :: 0 <= i < |run| ==> !run[i].UserStart?
  }

  ghost predicate CanFail(s: Sys) {
    exists run :: OneUsage(s, run) && Fails(s, After(Apply(s, UserStart), run))
  }

  /** During and after a usage that started unarmed, up to the next one. */
  ghost predicate Safe(s: Sys, lost: multiset<nat>) {
    && s.user != Aborted && s.lost == lost
    && (s.user.Holding? ==> s.oldSlot == 0 || (!s.weak && s.slot == 0 && (s.setter.Between? ==> s.setter.p == 0)))
    && (s.user.Refused? || s.user.Storing? ==> s.oldSlot == 0)
  }

  lemma SafeStep(s: Sys, step: Step)
    requires Safe(s, s.lost) && Enabled(s, step) && (step.UserStart? ==> !Armed(s))
    ensures Safe(Apply(s, step), s.lost)
  {
  }

  /** Whole runs in which every usage starts unarmed. */
  ghost predicate StartsUnarmed(s: Sys, run: seq<Step>)
    requires ValidRun(s, run)
    decreases |run|
  {
    run == [] || ((run[0].UserStart? ==> !Armed(s)) && StartsUnarmed(Apply(s, run[0]), run[1..]))
  }

  lemma {:induction false} UnarmedRun(s: Sys, run: seq<Step>)
    requires Safe(s, s.lost) && ValidRun(s, run) && StartsUnarmed(s, run)
    ensures Safe(After(s, run), s.lost)
    decreases |run|
  {
    if run != [] {
      SafeStep(s, run[0]);
      hide Enabled, Apply, Armed;
      UnarmedRun(Apply(s, run[0]), run[1..]);
    }
  }

  lemma {:induction false} NoStartUnarmed(s: Sys, run: seq<Step>)
    requires ValidRun(s, run) && forall i :: 0 <= i < |run| ==> !run[i].UserStart?
    ensures StartsUnarmed(s, run)
    decreases |run|
  {
    if run != [] {
      hide Enabled, Apply, Armed;
      NoStartUnarmed(Apply(s, run[0]), run[1..]);
    }
  }

  /** The shortest ways to fail. */
  lemma ArmedFails(s: Sys) returns (run: seq<Step>)
    requires Inv(s) && Enabled(s, UserStart) && Armed(s)
    ensures OneUsage(s, run) && Fails(s, After(Apply(s, UserStart), run))
  {
    var s1 := Apply(s, UserStart);
    var first := if s.weak then UserCas(true) else ExchangeNew;
    var s2 := Apply(s1, first);
    var s3 := if s.weak then s2 else Apply(s2, UserCas(false));
    assert s3.user == Refused(s.slot) && s3.oldSlot == s.oldSlot && s3.debug == s.debug && s3.lost == s.lost;
    OldIsNotHeld(s);
    var s4 := Apply(s3, UserCheck);
    var tail := if s.debug then [] else [UserStore];
    if s.debug { EmptyRun(s4); } else { OneStep(s4, UserStore); }
    hide Apply, Enabled, ValidRun, After, Inv;
    RunStep(s3, UserCheck, tail);
    run := [UserCheck] + tail;
    if !s.weak {
      RunStep(s2, UserCas(false), run);
      run := [UserCas(false)] + run;
    }
    RunStep(s1, first, run);
    run := [first] + run;
  }

  lemma OldIsNotHeld(s: Sys)
    requires Inv(s) && s.user == Absent && s.oldSlot != 0
    ensures s.oldSlot != s.slot
  {
    assert Places(s, s.oldSlot) <= 1;
  }

  /** Exactly when a usage that starts in a reachable state can fail, for both builds and both kinds of
      compare-and-set; and when it cannot, no usage of any kind of failure happens up to the next start. */
  lemma UsageFailsExactly(debug: bool, weak: bool, before: seq<Step>)
    requires ValidRun(Initial(debug, weak), before) && Enabled(After(Initial(debug, weak), before), UserStart)
    ensures var s := After(Initial(debug, weak), before); CanFail(s) <==> Armed(s)
    ensures var s := After(Initial(debug, weak), before);
            !Armed(s) ==> forall run :: OneUsage(s, run) ==>
              var t := After(Apply(s, UserStart), run); t.user != Aborted && t.lost == s.lost
  {
    InvRun(Initial(debug, weak), before);
    var s := After(Initial(debug, weak), before);
    hide ValidRun, After, Inv;
    if Armed(s) {
      var run := ArmedFails(s);
    } else {
      assert Safe(s, s.lost);
      SafeStep(s, UserStart);
      forall run | OneUsage(s, run) ensures Safe(After(Apply(s, UserStart), run), s.lost) {
        NoStartUnarmed(Apply(s, UserStart), run);
        UnarmedRun(Apply(s, UserStart), run);
      }
    }
  }

  // ---------------------------------------------------------------- when the abort is unreachable

  predicate EndsUsage(s: Sys, step: Step)
    requires Enabled(s, step)
  {
    (step.UserCas? && s.slot == 0 && !step.spurious) || step.UserStore?
  }

  /** Whether a setter that stood between its two exchanges when the last usage ended still stands there. */
  ghost predicate NextSpan(s: Sys, step: Step, span: bool)
    requires Enabled(s, step)
  {
    if EndsUsage(s, step) then Apply(s, step).setter.Between? else if step.ExchangeNew? then false else span
  }

  /** No usage starts while such a setter is there. */
  ghost predicate NoSpanningSet(s: Sys, run: seq<Step>, span: bool)
    requires ValidRun(s, run)
    decreases |run|
  {
    run == [] || ((run[0].UserStart? ==> !span) && NoSpanningSet(Apply(s, run[0]), run[1..], NextSpan(s, run[0], span)))
  }

  /** Only a usage leaves a pointer in the old slot, and every first exchange takes it out. */
  ghost predicate HistoryInv(s: Sys, span: bool) { s.oldSlot != 0 && s.setter.Between? ==> span }

  lemma HistoryStep(s: Sys, step: Step, span: bool)
    requires HistoryInv(s, span) && Enabled(s, step)
    ensures HistoryInv(Apply(s, step), NextSpan(s, step, span))
  {
  }

  lemma {:induction false} NoSpanUnarmed(s: Sys, run: seq<Step>, span: bool)
    requires !s.weak && HistoryInv(s, span) && ValidRun(s, run) && NoSpanningSet(s, run, span)
    ensures StartsUnarmed(s, run)
    decreases |run|
  {
    if run != [] {
      HistoryStep(s, run[0], span);
      SameBuild(s, run[0]);
      var t, next := Apply(s, run[0]), NextSpan(s, run[0], span);
      assert run[0].UserStart? ==> !Armed(s);
      hide Enabled, Apply, HistoryInv, NextSpan, Armed;
      NoSpanUnarmed(t, run[1..], next);
    }
  }

  /** If compare-and-set fails only on a mismatch and no `set_new_pointer` stands between its exchanges from before
      the end of one usage until the start of the next, then no run aborts and no live pointer is overwritten,
      in either build. */
  lemma NeverAborts(debug: bool, run: seq<Step>)
    requires ValidRun(Initial(debug, false), run) && NoSpanningSet(Initial(debug, false), run, false)
    ensures After(Initial(debug, false), run).user != Aborted
    ensures After(Initial(debug, false), run).lost == multiset{}
  {
    NoSpanUnarmed(Initial(debug, false), run, false);
    UnarmedRun(Initial(debug, false), run);
  }

  /** The condition in terms of whole calls: no call is in progress from before the end of one usage until after
      the start of the next. */
  ghost predicate NextBusy(s: Sys, step: Step, busy: bool)
    requires Enabled(s, step)
  {
    Apply(s, step).setter != Away && (EndsUsage(s, step) || busy)
  }

  ghost predicate NoSpanningCall(s: Sys, run: seq<Step>, busy: bool)
    requires ValidRun(s, run)
    decreases |run|
  {
    run == [] || ((run[0].UserStart? ==> !busy) && NoSpanningCall(Apply(s, run[0]), run[1..], NextBusy(s, run[0], busy)))
  }

  lemma {:induction false} CallsCoverSets(s: Sys, run: seq<Step>, busy: bool, span: bool)
    requires ValidRun(s, run) && NoSpanningCall(s, run, busy)
    requires span ==> busy && s.setter.Between?
    ensures NoSpanningSet(s, run, span)
    decreases |run|
  {
    if run != [] {
      CallsCoverSets(Apply(s, run[0]), run[1..], NextBusy(s, run[0], busy), NextSpan(s, run[0], span));
    }
  }

  // ---------------------------------------------------------------- both conditions are needed

  lemma RunStep(s: Sys, step: Step, rest: seq<Step>)
    requires Enabled(s, step) && ValidRun(Apply(s, step), rest)
    ensures ValidRun(s, [step] + rest) && After(s, [step] + rest) == After(Apply(s, step), rest)
  {
    assert ([step] + rest)[1..] == rest;
  }

  lemma {:induction false} RunConcat(s: Sys, a: seq<Step>, b: seq<Step>)
    requires ValidRun(s, a) && ValidRun(After(s, a), b)
    ensures ValidRun(s, a + b) && After(s, a + b) == After(After(s, a), b)
    decreases |a|
  {
    hide Enabled, Apply;
    if a == [] {
      assert a + b == b;
    } else {
      assert (a + b)[1..] == a[1..] + b && (a + b)[0] == a[0];
      RunConcat(Apply(s, a[0]), a[1..], b);
    }
  }

  /** An uninterrupted call of `set_new_pointer`. */
  function SetRun(p: nat): seq<Step> { [SetCall(p), ExchangeOld, ExchangeNew, FreeFirst, FreeSecond] }

  lemma WholeSet(s: Sys, p: nat)
    requires !s.destroyed && s.user != Aborted && s.setter == Away && p !in s.given
    ensures ValidRun(s, SetRun(p))
    ensures After(s, SetRun(p)) == s.(slot := p, oldSlot := 0, given := if p == 0 then s.given else s.given + {p},
                                      freed := s.freed + Item(s.slot) + Item(s.oldSlot))
  {
    var t1 := Apply(s, SetCall(p));
    var t2 := Apply(t1, ExchangeOld);
    var t3 := Apply(t2, ExchangeNew);
    var t4 := Apply(t3, FreeFirst);
    var t5 := Apply(t4, FreeSecond);
    RunStep(t4, FreeSecond, []);
    RunStep(t3, FreeFirst, [FreeSecond]);
    RunStep(t2, ExchangeNew, [FreeFirst, FreeSecond]);
    RunStep(t1, ExchangeOld, [ExchangeNew, FreeFirst, FreeSecond]);
    RunStep(s, SetCall(p), [ExchangeOld, ExchangeNew, FreeFirst, FreeSecond]);
  }

  /** The usage of pointer 1 ends, and the next one starts, while the third call stands between its exchanges. */
  const SPANNING := [SetCall(3), ExchangeOld, UserCas(false), UserCheck, UserStore, UserStart, ExchangeNew,
                     UserCas(false), UserCheck]

  lemma SpanningRun(s: Sys)
    requires !s.weak && !s.destroyed && s.setter == Away && s.user == Holding(1) && s.slot == 2 && s.oldSlot == 0 && 3 !in s.given
    ensures ValidRun(s, SPANNING)
    ensures var t := After(s, SPANNING);
            if s.debug then t.user == Aborted
            else t.user == Storing(2) && t.oldSlot == 1 && !t.destroyed && t.lost == s.lost
  {
    var t1 := Apply(s, SetCall(3));
    var t2 := Apply(t1, ExchangeOld);
    var t3 := Apply(t2, UserCas(false));
    var t4 := Apply(t3, UserCheck);
    var t5 := Apply(t4, UserStore);
    var t6 := Apply(t5, UserStart);
    var t7 := Apply(t6, ExchangeNew);
    var t8 := Apply(t7, UserCas(false));
    hide Apply, ValidRun, After;
    SpanningTail(t5, t6, t7, t8);
    RunStep(t4, UserStore, [UserStart, ExchangeNew, UserCas(false), UserCheck]);
    RunStep(t3, UserCheck, [UserStore, UserStart, ExchangeNew, UserCas(false), UserCheck]);
    RunStep(t2, UserCas(false), [UserCheck, UserStore, UserStart, ExchangeNew, UserCas(false), UserCheck]);
    RunStep(t1, ExchangeOld, [UserCas(false), UserCheck, UserStore, UserStart, ExchangeNew, UserCas(false), UserCheck]);
    RunStep(s, SetCall(3), [ExchangeOld, UserCas(false), UserCheck, UserStore, UserStart, ExchangeNew, UserCas(false), UserCheck]);
  }

  lemma SpanningTail(t5: Sys, t6: Sys, t7: Sys, t8: Sys)
    requires Enabled(t5, UserStart) && t6 == Apply(t5, UserStart)
    requires Enabled(t6, ExchangeNew) && t7 == Apply(t6, ExchangeNew)
    requires Enabled(t7, UserCas(false)) && t8 == Apply(t7, UserCas(false)) && Enabled(t8, UserCheck)
    ensures ValidRun(t5, [UserStart, ExchangeNew, UserCas(false), UserCheck])
    ensures After(t5, [UserStart, ExchangeNew, UserCas(false), UserCheck]) == Apply(t8, UserCheck)
  {
    hide Apply, Enabled;
    EmptyRun(Apply(t8, UserCheck));
    hide ValidRun, After;
    RunStep(t8, UserCheck, []);
    RunStep(t7, UserCas(false), [UserCheck]);
    RunStep(t6, ExchangeNew, [UserCas(false), UserCheck]);
    RunStep(t5, UserStart, [ExchangeNew, UserCas(false), UserCheck]);
  }

  lemma EmptyRun(s: Sys)
    ensures ValidRun(s, []) && After(s, []) == s
  {
  }

  /** Without the condition on calls: a run with a strong compare-and-set aborts in a debug build, and in a
      release build overwrites pointer 1, which nobody frees any more. */
  lemma SpanningSetLoses()
    ensures exists run :: ValidRun(Initial(true, false), run) && After(Initial(true, false), run).user == Aborted
    ensures exists run :: ValidRun(Initial(false, false), run) && 1 in After(Initial(false, false), run).lost
  {
    var aborts := SpanningExample(true);
    var loses := SpanningExample(false);
  }

  lemma SpanningExample(debug: bool) returns (run: seq<Step>)
    ensures ValidRun(Initial(debug, false), run)
    ensures var t := After(Initial(debug, false), run); if debug then t.user == Aborted else 1 in t.lost
  {
    hide ValidRun, After, SPANNING;
    var s := Initial(debug, false);
    WholeSet(s, 1);
    var s1 := After(s, SetRun(1));
    var s2 := Apply(s1, UserStart);
    OneStep(s1, UserStart);
    WholeSet(s2, 2);
    var s3 := After(s2, SetRun(2));
    SpanningRun(s3);
    var s4 := After(s3, SPANNING);
    var tail := SPANNING;
    if !debug {
      OneStep(s4, UserStore);
      RunConcat(s3, SPANNING, [UserStore]);
      tail := SPANNING + [UserStore];
    }
    RunConcat(s2, SetRun(2), tail);
    RunConcat(s1, [UserStart], SetRun(2) + tail);
    RunConcat(s, SetRun(1), [UserStart] + (SetRun(2) + tail));
    run := SetRun(1) + ([UserStart] + (SetRun(2) + tail));
  }

  lemma OneStep(s: Sys, step: Step)
    requires Enabled(s, step)
    ensures ValidRun(s, [step]) && After(s, [step]) == Apply(s, step)
  {
    EmptyRun(Apply(s, step));
    RunStep(s, step, []);
  }

  /** Without the condition on compare-and-set: two spurious failures abort a debug build although no call of
      `set_new_pointer` is in progress during or between the usages. */
  lemma SpuriousFailureAborts()
    ensures exists run :: ValidRun(Initial(true, true), run) && NoSpanningCall(Initial(true, true), run, false)
                          && After(Initial(true, true), run).user == Aborted
  {
    hide ValidRun, After, NoSpanningCall, SPURIOUS;
    var s := Initial(true, true);
    var t := SpuriousTail(s.(slot := 1, given := {1}));
    var s1 := Apply(s, SetCall(1));
    var s2 := Apply(s1, ExchangeOld);
    var s3 := Apply(s2, ExchangeNew);
    var s4 := Apply(s3, FreeFirst);
    var s5 := Apply(s4, FreeSecond);
    assert s5 == s.(slot := 1, given := {1});
    BusyStep(s4, FreeSecond, SPURIOUS, false);
    BusyStep(s3, FreeFirst, [FreeSecond] + SPURIOUS, false);
    BusyStep(s2, ExchangeNew, [FreeFirst] + ([FreeSecond] + SPURIOUS), false);
    BusyStep(s1, ExchangeOld, [ExchangeNew] + ([FreeFirst] + ([FreeSecond] + SPURIOUS)), false);
    BusyStep(s, SetCall(1), [ExchangeOld] + ([ExchangeNew] + ([FreeFirst] + ([FreeSecond] + SPURIOUS))), false);
  }

  const SPURIOUS := [UserStart, UserCas(true), UserCheck, UserStore, UserStart, UserCas(true), UserCheck]

  lemma BusyStep(s: Sys, step: Step, rest: seq<Step>, busy: bool)
    requires Enabled(s, step) && ValidRun(Apply(s, step), rest) && (step.UserStart? ==> !busy)
    requires NoSpanningCall(Apply(s, step), rest, NextBusy(s, step, busy))
    ensures ValidRun(s, [step] + rest) && NoSpanningCall(s, [step] + rest, busy)
    ensures After(s, [step] + rest) == After(Apply(s, step), rest)
  {
    assert ([step] + rest)[1..] == rest;
  }

  lemma SpuriousTail(s: Sys) returns (t: Sys)
    requires s.debug && s.weak && !s.destroyed && s.setter == Away && s.user == Absent && s.slot == 1 && s.oldSlot == 0
    ensures ValidRun(s, SPURIOUS) && NoSpanningCall(s, SPURIOUS, false)
    ensures t == After(s, SPURIOUS) && t.user == Aborted
  {
    var t1 := Apply(s, UserStart);
    var t2 := Apply(t1, UserCas(true));
    var t3 := Apply(t2, UserCheck);
    var t4 := Apply(t3, UserStore);
    var t5 := Apply(t4, UserStart);
    var t6 := Apply(t5, UserCas(true));
    t := Apply(t6, UserCheck);
    EmptyRun(t);
    BusyStep(t6, UserCheck, [], false);
    BusyStep(t5, UserCas(true), [UserCheck], false);
    BusyStep(t4, UserStart, [UserCas(true), UserCheck], false);
    BusyStep(t3, UserStore, [UserStart, UserCas(true), UserCheck], false);
    BusyStep(t2, UserCheck, [UserStore, UserStart, UserCas(true), UserCheck], false);
    BusyStep(t1, UserCas(true), [UserCheck, UserStore, UserStart, UserCas(true), UserCheck], false);
    BusyStep(s, UserStart, [UserCas(true), UserCheck, UserStore, UserStart, UserCas(true), UserCheck], false);
  }

  // ---------------------------------------------------------------- the objects

  /** The storage. `freed` stands for the calls of the free function. */
  class AtomicPointerStorage {
    var pointer: nat
    var oldPointerToBeFreed: nat
    ghost var freed: multiset<nat>

    ghost predicate Shows(s: Sys)
      reads this
    {
      pointer == s.slot && oldPointerToBeFreed == s.oldSlot && freed == s.freed
    }

    constructor ()
      ensures forall debug, weak :: Shows(Initial(debug, weak))
    {
      pointer, oldPointerToBeFreed, freed := 0, 0, multiset{};
    }

    method MaybeFreeSomething(a: nat, b: nat)
      modifies this`freed
      ensures freed == old(freed) + Item(a) + Item(b)
    {
      freed := freed + Item(a);
      freed := freed + Item(b);
    }

    method SetNewPointer(p: nat, ghost s: Sys)
      requires Shows(s) && !s.destroyed && s.user != Aborted && s.setter == Away && p !in s.given
      modifies this
      ensures ValidRun(s, SetRun(p)) && Shows(After(s, SetRun(p)))
    {
      WholeSet(s, p);
      var oldPointer := oldPointerToBeFreed;
      oldPointerToBeFreed := 0;
      var replaced := pointer;
      pointer := p;
      MaybeFreeSomething(replaced, oldPointer);
    }

    method Destruct(ghost s: Sys)
      requires Shows(s) && Enabled(s, Destroy)
      modifies this
      ensures freed == Apply(s, Destroy).freed
    {
      MaybeFreeSomething(pointer, oldPointerToBeFreed);
    }
  }

  class ScopedUsage {
    const storage: AtomicPointerStorage
    var pointer: nat

    constructor (storage: AtomicPointerStorage, ghost s: Sys)
      requires storage.Shows(s) && Enabled(s, UserStart)
      modifies storage
      ensures this.storage == storage && storage.Shows(Apply(s, UserStart)) && Apply(s, UserStart).user == Holding(pointer)
    {
      this.storage := storage;
      pointer := storage.pointer;
      new;
      storage.pointer := 0;
    }

    /** The destructor; `spurious` says whether the compare-and-set fails without a mismatch. */
    method Leave(debug: bool, spurious: bool, ghost s: Sys) returns (aborted: bool)
      requires storage.Shows(s) && s.user == Holding(pointer) && Enabled(s, UserCas(spurious)) && s.debug == debug
      modifies storage
      ensures if s.slot == 0 && !spurious then !aborted && storage.Shows(Apply(s, UserCas(spurious)))
              else
                var checked := Apply(Apply(s, UserCas(spurious)), UserCheck);
                (aborted <==> checked.user == Aborted) && (!aborted ==> storage.Shows(Apply(checked, UserStore)))
    {
      if storage.pointer == 0 && !spurious {
        storage.pointer := pointer;
        return false;
      }
      if debug && storage.oldPointerToBeFreed != 0 && storage.oldPointerToBeFreed != pointer { return true; }
      storage.oldPointerToBeFreed := pointer;
      aborted := false;
    }
  }
}
