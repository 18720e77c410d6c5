/** The effective accessibility flag: a force-enable counter, the stored system state and a mutex,
    as interleaved steps of any number of threads. Each step makes at most one shared access. */
module AccessibilityState {
  import opened Prelude

  const INT32_MAX := 0x7FFF_FFFF

  type Tid = nat

  /** Where a thread stands. `Refreshing` carries the system state it is going to store, and whether
      that came with a state-change notification or from the unlocked read. */
  datatype Pc =
    | Idle
    | Removing(current: int)
    | ToRead
    | Refreshing(value: bool, notified: bool)
    | Locked(value: bool, notified: bool)
    | Stored(value: bool)
    | Computed(effective: bool)
    | Written

  /** `latest` is history only: the last notified state that reached the store. */
  datatype State = State(count: int, system: bool, enabled: bool, lock: Option<Tid>, latest: bool, pcs: map<Tid, Pc>)
  {
    function Pc(t: Tid): Pc { if t in pcs then pcs[t] else Idle }
    function At(t: Tid, pc: Pc): State { this.(pcs := pcs[t := pc]) }
    ghost predicate Quiescent() { forall t: Tid :: Pc(t) == Idle }
    predicate Effective() { system || count > 0 }
  }

  const INITIAL_STATE := State(0, false, false, None, false, map[])

  datatype Action =
    | Add                          // counter incremented
    | Remove                       // counter loaded into a local
    | CompareExchange(weak: bool)  // may fail spuriously
    | LeaveLoop                    // the local shows nothing to remove
    | Notify(state: bool)          // flag set to the notified state, without the lock
    | ReadSystem                   // stored system state read, without the lock
    | Acquire
    | Store
    | Compute
    | Write
    | Release

  datatype Step = Step(tid: Tid, action: Action)

  predicate Enabled(s: State, step: Step) {
    var pc := s.Pc(step.tid);
    match step.action
    case Add => pc == Idle
    case Remove => pc == Idle
    case CompareExchange(_) => pc.Removing? && pc.current > 0
    case LeaveLoop => pc.Removing? && pc.current <= 0
    case Notify(_) => pc == Idle
    case ReadSystem => pc == ToRead
    case Acquire => pc.Refreshing? && s.lock == None
    case Store => pc.Locked?
    case Compute => pc.Stored?
    case Write => pc.Computed?
    case Release => pc == Written
  }

  function Next(s: State, step: Step): State
    requires Enabled(s, step)
  {
    var t := step.tid;
    var pc := s.Pc(t);
    match step.action
    case Add => s.At(t, ToRead).(count := Narrow32(s.count + 1))
    case Remove => s.At(t, Removing(s.count))
    case CompareExchange(weak) =>
      if s.count == pc.current && !weak then s.At(t, ToRead).(count := pc.current - 1)
      else s.At(t, Removing(s.count))
    case LeaveLoop => s.At(t, ToRead)
    case Notify(state) => s.At(t, Refreshing(state, true)).(enabled := state)
    case ReadSystem => s.At(t, Refreshing(s.system, false))
    case Acquire => s.At(t, Locked(pc.value, pc.notified)).(lock := Some(t))
    case Store => s.At(t, Stored(pc.value)).(system := pc.value, latest := if pc.notified then pc.value else s.latest)
    case Compute => s.At(t, Computed(pc.value || s.count > 0))
    case Write => s.At(t, Written).(enabled := pc.effective)
    case Release => s.At(t, Idle).(lock := None)
  }

  /** Which steps change what: the counter changes by an increment in 32 bits or by an exchange against the value
      that was loaded, the stored system state by a store, the flag by a write or at once by a notification. */
  lemma StepEffects(s: State, step: Step)
    requires Enabled(s, step)
    ensures var s', pc := Next(s, step), s.Pc(step.tid);
      && (step.action == Add ==> (s'.count - s.count - 1) % 0x1_0000_0000 == 0)
      && (step.action.CompareExchange? ==>
            s'.count == if s.count == pc.current && !step.action.weak then pc.current - 1 else s.count)
      && (step.action.CompareExchange? && s'.count == s.count ==> s'.Pc(step.tid) == Removing(s.count))
      && (step.action != Add && !step.action.CompareExchange? ==> s'.count == s.count)
      && s'.system == (if step.action == Store then pc.value else s.system)
      && (step.action.Notify? ==> s'.enabled == step.action.state)
      && (step.action == Write ==> s'.enabled == pc.effective)
      && (!step.action.Notify? && step.action != Write ==> s'.enabled == s.enabled)
      && (step.action == ReadSystem ==> s'.Pc(step.tid) == Refreshing(s.system, false))
      && (step.action == Compute ==> s'.Pc(step.tid) == Computed(pc.value || s.count > 0))
  {
    if step.action == Add {
      NarrowIsModular(s.count + 1);
    }
  }

  predicate ValidRun(s: State, run: seq<Step>)
    decreases |run|
  {
    run == [] || (Enabled(s, run[0]) && ValidRun(Next(s, run[0]), run[1..]))
  }

  function Final(s: State, run: seq<Step>): State
    requires ValidRun(s, run)
    decreases |run|
  {
    if run == [] then s else Final(Next(s, run[0]), run[1..])
  }

  predicate InSection(pc: Pc) {
    pc.Locked? || pc.Stored? || pc.Computed? || pc.Written?
  }

  ghost predicate OtherBusy(s: State, t: Tid) {
    exists u: Tid :: u != t && s.Pc(u) != Idle
  }

  /** What the thread in the locked part has stored, computed or written is right, unless another
      thread is still mid-operation and will refresh again. */
  ghost predicate Consistent(s: State, t: Tid) {
    match s.Pc(t)
    case Stored(value) => value == s.system
    case Computed(effective) => effective == s.Effective() || OtherBusy(s, t)
    case Written => s.enabled == s.Effective() || OtherBusy(s, t)
    case _ => true
  }

  ghost predicate Inv(s: State) {
    && (forall t: Tid :: InSection(s.Pc(t)) <==> s.lock == Some(t))
    && (forall t: Tid :: Consistent(s, t))
    && (s.Quiescent() ==> s.enabled == s.Effective())
  }

  lemma StepKeepsLock(s: State, step: Step)
    requires Enabled(s, step) && forall t: Tid :: InSection(s.Pc(t)) <==> s.lock == Some(t)
    ensures forall t: Tid :: InSection(Next(s, step).Pc(t)) <==> Next(s, step).lock == Some(t)
  {
    var s' := Next(s, step);
    forall u: Tid
      ensures InSection(s'.Pc(u)) <==> s'.lock == Some(u)
    {
      assert InSection(s.Pc(step.tid)) <==> s.lock == Some(step.tid);
      assert u != step.tid ==> s'.Pc(u) == s.Pc(u);
    }
  }

  lemma StepKeepsOthers(s: State, step: Step, u: Tid)
    requires Enabled(s, step) && u != step.tid
    ensures Next(s, step).Pc(u) == s.Pc(u)
    ensures OtherBusy(s, step.tid) ==> OtherBusy(Next(s, step), step.tid)
    ensures step.action != Release ==> OtherBusy(Next(s, step), u)
  {
    var s' := Next(s, step);
    assert step.action != Release ==> s'.Pc(step.tid) != Idle;
    if OtherBusy(s, step.tid) {
      var v :| v != step.tid && s.Pc(v) != Idle;
      assert s'.Pc(v) != Idle;
    }
  }

  lemma StepKeepsConsistent(s: State, step: Step, u: Tid)
    requires Inv(s) && Enabled(s, step)
    ensures Consistent(Next(s, step), u)
  {
    assert Consistent(s, step.tid) && Consistent(s, u);
    assert InSection(s.Pc(u)) <==> s.lock == Some(u);
    assert InSection(s.Pc(step.tid)) <==> s.lock == Some(step.tid);
    if u != step.tid {
      StepKeepsOthers(s, step, u);
    } else {
      StepKeepsOthers(s, step, step.tid + 1);
    }
  }

  lemma StepKeepsInv(s: State, step: Step)
    requires Inv(s) && Enabled(s, step)
    ensures Inv(Next(s, step))
  {
    var s' := Next(s, step);
    StepKeepsLock(s, step);
    forall u: Tid
      ensures Consistent(s', u)
    {
      StepKeepsConsistent(s, step, u);
    }
    assert Consistent(s, step.tid);
    StepKeepsOthers(s, step, step.tid + 1);
    if s'.Quiescent() {
      assert s'.Pc(step.tid) == Idle;
      assert !OtherBusy(s', step.tid);
    }
  }

  lemma {:induction false} RunKeepsInv(s: State, run: seq<Step>)
    requires Inv(s) && ValidRun(s, run)
    ensures Inv(Final(s, run))
    decreases |run|
  {
    if run != [] {
      StepKeepsInv(s, run[0]);
      RunKeepsInv(Next(s, run[0]), run[1..]);
    }
  }

  /** Whenever no thread is mid-operation, the flag is the stored system state or count > 0. */
  lemma QuiescentFlag(run: seq<Step>)
    requires ValidRun(INITIAL_STATE, run) && Final(INITIAL_STATE, run).Quiescent()
    ensures var s := Final(INITIAL_STATE, run); s.enabled == (s.system || s.count > 0)
  {
    RunKeepsInv(INITIAL_STATE, run);
  }

  /** No two threads are between Acquire and Release at once. */
  lemma MutualExclusion(run: seq<Step>, t: Tid, u: Tid)
    requires ValidRun(INITIAL_STATE, run)
    requires InSection(Final(INITIAL_STATE, run).Pc(t)) && InSection(Final(INITIAL_STATE, run).Pc(u))
    ensures t == u
  {
    RunKeepsInv(INITIAL_STATE, run);
    assert Final(INITIAL_STATE, run).lock == Some(t);
  }

  /** No request is added while the counter is at the 32-bit maximum. */
  predicate NoOverflow(s: State, run: seq<Step>)
    requires ValidRun(s, run)
    decreases |run|
  {
    run == [] || ((run[0].action == Add ==> s.count < INT32_MAX) && NoOverflow(Next(s, run[0]), run[1..]))
  }

  predicate CountNeverNegative(s: State, run: seq<Step>)
    requires ValidRun(s, run)
    decreases |run|
  {
    s.count >= 0 && (run == [] || CountNeverNegative(Next(s, run[0]), run[1..]))
  }

  /** The counter stays non-negative throughout a run exactly when it does not overflow. */
  lemma {:induction false} CountNonNegativeIff(s: State, run: seq<Step>)
    requires ValidRun(s, run) && 0 <= s.count <= INT32_MAX
    ensures CountNeverNegative(s, run) <==> NoOverflow(s, run)
    decreases |run|
  {
    if run != [] {
      var s' := Next(s, run[0]);
      if run[0].action == Add && s.count == INT32_MAX {
        assert s'.count < 0;
      } else {
        CountNonNegativeIff(s', run[1..]);
      }
    }
  }

  predicate Removes(s: State, step: Step)
    requires Enabled(s, step)
  {
    step.action.CompareExchange? && !step.action.weak && s.count == s.Pc(step.tid).current
  }

  /** Requests added minus requests taken back along a run. */
  function Balance(s: State, run: seq<Step>): int
    requires ValidRun(s, run)
    decreases |run|
  {
    if run == [] then 0
    else
      (if run[0].action == Add then 1 else if Removes(s, run[0]) then -1 else 0)
      + Balance(Next(s, run[0]), run[1..])
  }

  /** Without overflow no increment or decrement is lost. */
  lemma {:induction false} CountIsBalance(s: State, run: seq<Step>)
    requires ValidRun(s, run) && 0 <= s.count <= INT32_MAX && NoOverflow(s, run)
    ensures Final(s, run).count == s.count + Balance(s, run)
    decreases |run|
  {
    if run != [] {
      CountIsBalance(Next(s, run[0]), run[1..]);
    }
  }

  // ----- Notified changes -----

  lemma {:induction false} ValidPrefix(s: State, run: seq<Step>, k: nat)
    requires ValidRun(s, run) && k <= |run|
    ensures ValidRun(s, run[..k]) && (k < |run| ==> Enabled(Final(s, run[..k]), run[k]))
    decreases |run|
  {
    if k > 0 {
      ValidPrefix(Next(s, run[0]), run[1..], k - 1);
      assert run[..k][1..] == run[1..][..k - 1];
    }
  }

  /** The state before the k-th step of a run. */
  function At(run: seq<Step>, k: nat): State
    requires ValidRun(INITIAL_STATE, run) && k <= |run|
  {
    ValidPrefix(INITIAL_STATE, run, k);
    Final(INITIAL_STATE, run[..k])
  }

  lemma AtStep(run: seq<Step>, k: nat)
    requires ValidRun(INITIAL_STATE, run) && k < |run|
    ensures Enabled(At(run, k), run[k]) && At(run, k + 1) == Next(At(run, k), run[k])
  {
    ValidPrefix(INITIAL_STATE, run, k);
    Extend(INITIAL_STATE, run[..k], run[k]);
    PrefixStep(run, k);
  }

  /** The stored system state is the last notified one throughout. */
  ghost predicate AlwaysLatest(run: seq<Step>)
    requires ValidRun(INITIAL_STATE, run)
  {
    forall k :: 0 <= k <= |run| ==> At(run, k).system == At(run, k).latest
  }

  predicate NotifiedStore(run: seq<Step>, k: int)
    requires ValidRun(INITIAL_STATE, run)
  {
    && 0 <= k < |run| && run[k].action == Store
    && At(run, k).Pc(run[k].tid).Locked? && At(run, k).Pc(run[k].tid).notified
  }

  function NotifiedValue(run: seq<Step>, k: int): bool
    requires ValidRun(INITIAL_STATE, run) && NotifiedStore(run, k)
  {
    At(run, k).Pc(run[k].tid).value
  }

  predicate NoStoreBetween(run: seq<Step>, t: Tid, i: int, k: int) {
    forall j :: i < j < k && 0 <= j < |run| ==> run[j] != Step(t, Store)
  }

  /** A thread reads the system state at `i` and stores that reading at `k`. */
  predicate ReadThenStored(run: seq<Step>, i: int, k: int) {
    && 0 <= i < k < |run| && run[i].action == ReadSystem && run[k] == Step(run[i].tid, Store)
    && NoStoreBetween(run, run[i].tid, i, k)
  }

  /** The last notified store strictly between `i` and `k` is at `j`. */
  predicate LastNotifiedBetween(run: seq<Step>, i: int, j: int, k: int)
    requires ValidRun(INITIAL_STATE, run)
  {
    i < j < k && NotifiedStore(run, j) && NoneNotified(run, j + 1, k)
  }

  predicate NoneNotified(run: seq<Step>, from: int, to: int)
    requires ValidRun(INITIAL_STATE, run)
  {
    forall m :: from <= m < to ==> !NotifiedStore(run, m)
  }

  /** No reading is overtaken: of all notified stores between a reading and its store, the last one stored
      just what had been read. */
  ghost predicate NoReadingOvertaken(run: seq<Step>)
    requires ValidRun(INITIAL_STATE, run)
  {
    forall i, j, k :: ReadThenStored(run, i, k) && LastNotifiedBetween(run, i, j, k) ==>
      NotifiedValue(run, j) == At(run, i).system
  }

  /** A reading is carried unchanged to its store. */
  lemma {:induction false} ReadingIsCarried(run: seq<Step>, i: nat, k: nat)
    requires ValidRun(INITIAL_STATE, run) && i < k <= |run| && run[i].action == ReadSystem
    requires NoStoreBetween(run, run[i].tid, i, k)
    ensures At(run, k).Pc(run[i].tid) in {Refreshing(At(run, i).system, false), Locked(At(run, i).system, false)}
  {
    AtStep(run, k - 1);
    if k > i + 1 {
      ReadingIsCarried(run, i, k - 1);
    }
  }

  predicate HoldsReading(pc: Pc) {
    (pc.Refreshing? || pc.Locked?) && !pc.notified
  }

  lemma ReadingAfterStep(s: State, step: Step, t: Tid)
    requires Enabled(s, step) && HoldsReading(Next(s, step).Pc(t))
    ensures step == Step(t, ReadSystem) ==> Next(s, step).Pc(t).value == s.system
    ensures step != Step(t, ReadSystem) ==>
      step != Step(t, Store) && HoldsReading(s.Pc(t)) && Next(s, step).Pc(t).value == s.Pc(t).value
  {
  }

  lemma LatestAfterStep(run: seq<Step>, k: nat)
    requires ValidRun(INITIAL_STATE, run) && k < |run|
    ensures At(run, k + 1).latest == if NotifiedStore(run, k) then NotifiedValue(run, k) else At(run, k).latest
  {
    AtStep(run, k);
  }

  /** Whoever is about to store a value that was not notified read it earlier. */
  lemma {:induction false} ReadingHasOrigin(run: seq<Step>, k: nat, t: Tid) returns (i: nat)
    requires ValidRun(INITIAL_STATE, run) && k <= |run| && HoldsReading(At(run, k).Pc(t))
    ensures i < k && run[i] == Step(t, ReadSystem) && NoStoreBetween(run, t, i, k)
    ensures At(run, k).Pc(t).value == At(run, i).system
  {
    assert k > 0;
    AtStep(run, k - 1);
    ReadingAfterStep(At(run, k - 1), run[k - 1], t);
    if run[k - 1] == Step(t, ReadSystem) {
      i := k - 1;
    } else {
      i := ReadingHasOrigin(run, k - 1, t);
    }
  }

  /** What the last notified store between two positions makes of the history variable. */
  lemma {:induction false} LatestSince(run: seq<Step>, from: nat, to: nat) returns (j: Option<int>)
    requires ValidRun(INITIAL_STATE, run) && from <= to <= |run|
    ensures j.None? ==> NoneNotified(run, from, to) && At(run, to).latest == At(run, from).latest
    ensures j.Some? ==>
      && from <= j.value < to && NotifiedStore(run, j.value) && NoneNotified(run, j.value + 1, to)
      && At(run, to).latest == NotifiedValue(run, j.value)
  {
    if from == to {
      j := None;
    } else {
      LatestAfterStep(run, to - 1);
      if NotifiedStore(run, to - 1) {
        j := Some(to - 1);
      } else {
        j := LatestSince(run, from, to - 1);
      }
    }
  }

  lemma {:induction false} KeptUpTo(run: seq<Step>, k: nat)
    requires ValidRun(INITIAL_STATE, run) && NoReadingOvertaken(run) && k <= |run|
    ensures forall m :: 0 <= m <= k ==> At(run, m).system == At(run, m).latest
  {
    if k > 0 {
      var m := k - 1;
      KeptUpTo(run, m);
      AtStep(run, m);
      var t := run[m].tid;
      if run[m].action == Store && !NotifiedStore(run, m) {
        var i := ReadingHasOrigin(run, m, t);
        AtStep(run, i);
        var j := LatestSince(run, i + 1, m);
        assert ReadThenStored(run, i, m);
        assert j.Some? ==> LastNotifiedBetween(run, i, j.value, m);
      }
    }
  }

  /** The stored system state stays the last notified one exactly when no reading of it without the lock
      is overtaken by a notified change on the way to its store. */
  lemma LatestKeptIff(run: seq<Step>)
    requires ValidRun(INITIAL_STATE, run)
    ensures AlwaysLatest(run) <==> NoReadingOvertaken(run)
  {
    if NoReadingOvertaken(run) {
      KeptUpTo(run, |run|);
    }
    if AlwaysLatest(run) {
      forall i, j, k | ReadThenStored(run, i, k) && LastNotifiedBetween(run, i, j, k)
        ensures NotifiedValue(run, j) == At(run, i).system
      {
        ReadingIsCarried(run, i, k);
        var last := LatestSince(run, i + 1, k);
        AtStep(run, k);
        assert last == Some(j);
        assert At(run, k + 1).system == At(run, k + 1).latest;
      }
    }
  }

  lemma {:induction false} Extend(s: State, run: seq<Step>, step: Step)
    requires ValidRun(s, run) && Enabled(Final(s, run), step)
    ensures ValidRun(s, run + [step]) && Final(s, run + [step]) == Next(Final(s, run), step)
    decreases |run|
  {
    if run == [] {
      assert run + [step] == [step];
      assert [step][1..] == [];
    } else {
      Extend(Next(s, run[0]), run[1..], step);
      assert (run + [step])[1..] == run[1..] + [step];
    }
  }

  /** One thread's locked part, from the moment it holds the value to store. */
  lemma Refresh(s: State, run: seq<Step>, t: Tid) returns (longer: seq<Step>)
    requires ValidRun(s, run) && Final(s, run).Pc(t).Refreshing? && Final(s, run).lock == None
    ensures ValidRun(s, longer)
    ensures var before := Final(s, run);
      var pc := before.Pc(t);
      var after := Final(s, longer);
      && after.count == before.count && after.lock == None
      && after.system == pc.value && after.enabled == (pc.value || before.count > 0)
      && after.latest == (if pc.notified then pc.value else before.latest)
      && after.Pc(t) == Idle && forall u: Tid :: u != t ==> after.Pc(u) == before.Pc(u)
  {
    Extend(s, run, Step(t, Acquire));
    var r1 := run + [Step(t, Acquire)];
    Extend(s, r1, Step(t, Store));
    var r2 := r1 + [Step(t, Store)];
    Extend(s, r2, Step(t, Compute));
    var r3 := r2 + [Step(t, Compute)];
    Extend(s, r3, Step(t, Write));
    var r4 := r3 + [Step(t, Write)];
    Extend(s, r4, Step(t, Release));
    longer := r4 + [Step(t, Release)];
  }

  /** What undisturbed operations do: the effects are those of the counter and the system state alone. */
  lemma AddAlone(run: seq<Step>, t: Tid) returns (longer: seq<Step>)
    requires ValidRun(INITIAL_STATE, run)
    requires Final(INITIAL_STATE, run).Pc(t) == Idle && Final(INITIAL_STATE, run).lock == None
    ensures ValidRun(INITIAL_STATE, longer)
    ensures var before, after := Final(INITIAL_STATE, run), Final(INITIAL_STATE, longer);
      && (after.count - before.count - 1) % 0x1_0000_0000 == 0 && after.lock == None
      && after.system == before.system && after.enabled == (before.system || after.count > 0)
      && forall u: Tid :: after.Pc(u) == before.Pc(u)
  {
    Extend(INITIAL_STATE, run, Step(t, Add));
    NarrowIsModular(Final(INITIAL_STATE, run).count + 1);
    var r1 := run + [Step(t, Add)];
    Extend(INITIAL_STATE, r1, Step(t, ReadSystem));
    longer := Refresh(INITIAL_STATE, r1 + [Step(t, ReadSystem)], t);
  }

  lemma RemoveAlone(run: seq<Step>, t: Tid) returns (longer: seq<Step>)
    requires ValidRun(INITIAL_STATE, run)
    requires Final(INITIAL_STATE, run).Pc(t) == Idle && Final(INITIAL_STATE, run).lock == None
    ensures ValidRun(INITIAL_STATE, longer)
    ensures var before, after := Final(INITIAL_STATE, run), Final(INITIAL_STATE, longer);
      && after.count == (if before.count > 0 then before.count - 1 else before.count) && after.lock == None
      && after.system == before.system && after.enabled == (before.system || after.count > 0)
      && forall u: Tid :: after.Pc(u) == before.Pc(u)
  {
    var last := Step(t, if Final(INITIAL_STATE, run).count > 0 then CompareExchange(false) else LeaveLoop);
    Extend(INITIAL_STATE, run, Step(t, Remove));
    var r1 := run + [Step(t, Remove)];
    Extend(INITIAL_STATE, r1, last);
    var r2 := r1 + [last];
    Extend(INITIAL_STATE, r2, Step(t, ReadSystem));
    longer := Refresh(INITIAL_STATE, r2 + [Step(t, ReadSystem)], t);
  }

  lemma NotifyAlone(run: seq<Step>, t: Tid, state: bool) returns (longer: seq<Step>)
    requires ValidRun(INITIAL_STATE, run)
    requires Final(INITIAL_STATE, run).Pc(t) == Idle && Final(INITIAL_STATE, run).lock == None
    ensures ValidRun(INITIAL_STATE, longer)
    ensures var before, after := Final(INITIAL_STATE, run), Final(INITIAL_STATE, longer);
      && after.count == before.count && after.lock == None
      && after.system == after.latest == state && after.enabled == (state || before.count > 0)
      && forall u: Tid :: after.Pc(u) == before.Pc(u)
  {
    var step := Step(t, Notify(state));
    Extend(INITIAL_STATE, run, step);
    longer := Refresh(INITIAL_STATE, run + [step], t);
  }

  /** A notified `false` takes the flag down at once, whatever the counter says, until its refresh is through. */
  lemma NotifyDips(run: seq<Step>, t: Tid)
    requires ValidRun(INITIAL_STATE, run)
    requires Final(INITIAL_STATE, run).Pc(t) == Idle && Final(INITIAL_STATE, run).count > 0
    ensures var longer := run + [Step(t, Notify(false))];
      && ValidRun(INITIAL_STATE, longer)
      && !Final(INITIAL_STATE, longer).enabled && Final(INITIAL_STATE, longer).count > 0
  {
    Extend(INITIAL_STATE, run, Step(t, Notify(false)));
  }

  lemma StaleRead(run: seq<Step>, t: Tid) returns (longer: seq<Step>)
    requires ValidRun(INITIAL_STATE, run)
    requires Final(INITIAL_STATE, run).Pc(t) == Idle && Final(INITIAL_STATE, run).count <= 0
    ensures ValidRun(INITIAL_STATE, longer)
    ensures var before := Final(INITIAL_STATE, run);
      Final(INITIAL_STATE, longer) == before.(pcs := Final(INITIAL_STATE, longer).pcs)
      && Final(INITIAL_STATE, longer).Pc(t) == Refreshing(before.system, false)
      && forall u: Tid :: u != t ==> Final(INITIAL_STATE, longer).Pc(u) == before.Pc(u)
  {
    Extend(INITIAL_STATE, run, Step(t, Remove));
    var r1 := run + [Step(t, Remove)];
    Extend(INITIAL_STATE, r1, Step(t, LeaveLoop));
    var r2 := r1 + [Step(t, LeaveLoop)];
    Extend(INITIAL_STATE, r2, Step(t, ReadSystem));
    longer := r2 + [Step(t, ReadSystem)];
  }

  /** A state change can be lost: thread 0 takes a request back and reads `true` without the lock,
      thread 1 then stores the notified `false`, and thread 0 brings `true` back. */
  lemma StateChangeCanBeLost() returns (run: seq<Step>)
    ensures ValidRun(INITIAL_STATE, run)
    ensures var s := Final(INITIAL_STATE, run); s.Quiescent() && !s.latest && s.system && s.enabled && s.count == 0
  {
    run := NotifyAlone([], 1, true);
    run := StaleRead(run, 0);
    run := NotifyAlone(run, 1, false);
    run := Refresh(INITIAL_STATE, run, 0);
  }
}
