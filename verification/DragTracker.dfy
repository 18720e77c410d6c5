/** The synthetic drag session tracker as a state machine over its critical sections, and what
    holds over all its runs: freshness, ownership, and which session a pointer gets. */
module DragTracker {
  import opened Prelude
  import opened SessionCaches

  datatype Rotation = Rotation0 | Rotation90 | Rotation180 | Rotation270

  datatype Compensation = Compensation(
    valid: bool, sessionId: nat, pointerId: int, windowWidth: int, windowHeight: int,
    shadowWidth: int, shadowHeight: int, hotspotX: int, hotspotY: int, rotation: Rotation)

  const NO_COMPENSATION := Compensation(false, INVALID_SESSION, -1, 0, 0, 0, 0, -1, -1, Rotation0)

  datatype Tracker = Tracker(
    pointerId: int, active: bool, generator: nat, activeSession: nat,
    pending: seq<Entry>, dispatch: seq<Entry>, bindings: map<int, nat>, compensation: Compensation)

  const INITIAL_TRACKER := Tracker(-1, false, 1, INVALID_SESSION, [], [], map[], NO_COMPENSATION)

  function Binding(t: Tracker, p: int): nat {
    if p in t.bindings then t.bindings[p] else INVALID_SESSION
  }

  function LatestSession(t: Tracker, p: int): nat {
    if p < 0 then INVALID_SESSION
    else match Latest(t.pending, p) case None => INVALID_SESSION case Some(e) => e.session
  }

  // ----- The operations -----

  /** A start, or any active event of an unbound pointer, begins a new session. */
  predicate Generates(t: Tracker, p: int, active: bool, isStart: bool) {
    p >= 0 && active && (isStart || Binding(t, p) == INVALID_SESSION)
  }

  function Prepare(t: Tracker, p: int, active: bool, isStart: bool, time: int): Tracker {
    if p < 0 then t
    else if Generates(t, p, active, isStart) then
      t.(generator := t.generator + 1, bindings := t.bindings[p := t.generator],
         pending := Register(t.pending, p, time, t.generator),
         dispatch := Register(t.dispatch, p, time, t.generator))
    else if active then
      t.(pending := Register(t.pending, p, time, Binding(t, p)),
         dispatch := Register(t.dispatch, p, time, Binding(t, p)))
    else
      var session := if Binding(t, p) == INVALID_SESSION then LatestSession(t, p) else Binding(t, p);
      t.(dispatch := Register(t.dispatch, p, time, session))
  }

  function Touch(t: Tracker, p: int, active: bool): Tracker {
    if active then t.(pointerId := p, active := true)
    else if p < 0 || t.pointerId == p then t.(active := false)
    else t
  }

  /** `current` is the pointer as read before the locks were taken. */
  predicate Completes(p: int, active: bool, current: int) {
    !active && !(p >= 0 && current >= 0 && current != p)
  }

  /** The pointers a complete unbinds. */
  function Completed(p: int, current: int): set<int> {
    if p >= 0 then {current, p} else {current}
  }

  function Complete(t: Tracker, p: int, active: bool, current: int): Tracker {
    if !Completes(p, active, current) then t
    else
      t.(bindings := t.bindings - Completed(p, current),
         pending := ResetPointer(ResetPointer(t.pending, current), p),
         compensation := NO_COMPENSATION, activeSession := INVALID_SESSION, pointerId := -1)
  }

  function MatchedSession(t: Tracker, p: int): nat {
    if LatestSession(t, p) != INVALID_SESSION then LatestSession(t, p) else Binding(t, p)
  }

  function Match(t: Tracker, p: int): Tracker {
    if LatestSession(t, p) != INVALID_SESSION
    then t.(pending := WithoutKey(t.pending, Latest(t.pending, p).value.key))
    else t
  }

  predicate SyntheticFor(t: Tracker, p: int) {
    t.active && t.pointerId == p
  }

  function StartDrag(t: Tracker, p: int, hasWindow: bool): Tracker {
    if !hasWindow then t
    else if SyntheticFor(t, p) then Match(t, p).(activeSession := MatchedSession(t, p))
    else t.(activeSession := INVALID_SESSION)
  }

  /** An event's own dispatch entry, else its pointer's binding, else its pointer's latest pending entry. */
  function Resolve(t: Tracker, p: int, time: int): nat {
    if p < 0 then INVALID_SESSION
    else if time > 0 && HasKey(t.dispatch, Key(p, time)) then Lookup(t.dispatch, Key(p, time)).value
    else if p in t.bindings then t.bindings[p]
    else LatestSession(t, p)
  }

  /** Whether an update is forwarded, given the session it resolved to and the active one. */
  predicate Forwards(session: nat, activeSession: nat) {
    session != INVALID_SESSION && (activeSession == INVALID_SESSION || session == activeSession)
  }

  // ----- What each operation does, field by field -----

  /** What was registered last is in the cache. */
  lemma {:induction false} RegisteredIsFound(entries: seq<Entry>, p: int, time: int, session: nat)
    requires DistinctKeys(entries) && |entries| <= CACHE_LIMIT && p >= 0 && time > 0 && session != INVALID_SESSION
    ensures Lookup(Register(entries, p, time, session), Key(p, time)) == Some(session)
  {
    var key := Key(p, time);
    RegisterKeeps(entries, p, time, session);
    if HasKey(entries, key) {
      var i :| 0 <= i < |entries| && entries[i].key == key;
      PutPresent(entries, i, session);
      assert Register(entries, p, time, session)[i] == Entry(key, session);
    } else {
      PutFresh(entries, key, session);
      var after := Register(entries, p, time, session);
      assert after[|after| - 1] == Entry(key, session);
    }
    LookupEntry(Register(entries, p, time, session), key, session);
  }

  /** `e` is the youngest pending entry of `p`. */
  predicate Youngest(entries: seq<Entry>, p: int, e: Entry) {
    exists i :: 0 <= i < |entries| && entries[i] == e && e.key.pointerId == p
                && forall j :: i < j < |entries| ==> entries[j].key.pointerId != p
  }

  lemma YoungestIsLatest(entries: seq<Entry>, p: int, e: Entry)
    requires Youngest(entries, p, e)
    ensures Latest(entries, p) == Some(e)
  {
    var i: nat :| i < |entries| && entries[i] == e && e.key.pointerId == p
      && forall j :: i < j < |entries| ==> entries[j].key.pointerId != p;
    LatestAt(entries, p, i);
  }

  /** Whose touches count as synthetic: after a start those of its pointer; after an end those counted before,
      unless the end was for that pointer or for none. Nothing else changes. */
  lemma TouchDecides(t: Tracker, p: int, active: bool, q: int)
    ensures var after := Touch(t, p, active);
      && ((after.active && after.pointerId == q) <==>
            if active then q == p else t.active && t.pointerId == q && p >= 0 && p != q)
      && after.(active := t.active, pointerId := t.pointerId) == t
      && (active ==> after.pointerId == p) && (!active ==> after.pointerId == t.pointerId)
  {
  }

  /** What an event's preparation does to generator, bindings and caches. */
  lemma PrepareEffects(t: Tracker, p: int, active: bool, isStart: bool, time: int)
    requires DistinctKeys(t.pending) && DistinctKeys(t.dispatch)
    requires |t.pending| <= 64 && |t.dispatch| <= 64 && t.generator > 0
    requires forall q :: q in t.bindings ==> t.bindings[q] != 0
    ensures var after := Prepare(t, p, active, isStart, time);
      && after.(generator := t.generator, bindings := t.bindings, pending := t.pending, dispatch := t.dispatch) == t
      && (p < 0 ==> after == t)
      && (time <= 0 ==> after.pending == t.pending && after.dispatch == t.dispatch)
      && (!active ==> after.(dispatch := t.dispatch) == t)
      && (p >= 0 && active && (isStart || p !in t.bindings) ==>
            after.generator == t.generator + 1 && after.bindings == t.bindings[p := t.generator])
      && (active && !isStart && p in t.bindings ==> after.generator == t.generator && after.bindings == t.bindings)
      && (p >= 0 && active ==>
            && after.pending == Register(t.pending, p, time, after.bindings[p])
            && after.dispatch == Register(t.dispatch, p, time, after.bindings[p]))
      && (p >= 0 && active && time > 0 ==>
            && Lookup(after.pending, Key(p, time)) == Some(after.bindings[p])
            && Lookup(after.dispatch, Key(p, time)) == Some(after.bindings[p]))
      && (p >= 0 && !active && time > 0 && p in t.bindings ==>
            Lookup(after.dispatch, Key(p, time)) == Some(t.bindings[p]))
  {
    if p >= 0 && time > 0 {
      var session := if Generates(t, p, active, isStart) then t.generator else Binding(t, p);
      if session != 0 {
        RegisteredIsFound(t.pending, p, time, session);
        RegisteredIsFound(t.dispatch, p, time, session);
      }
    }
  }

  /** The end event of a pointer that is no longer bound: it is dispatched under the youngest pending session. */
  lemma EndOfUnbound(t: Tracker, p: int, isStart: bool, time: int)
    requires DistinctKeys(t.dispatch) && |t.dispatch| <= 64 && p >= 0 && time > 0 && p !in t.bindings
    ensures var after := Prepare(t, p, false, isStart, time);
      && (forall e :: Youngest(t.pending, p, e) && e.session != 0 ==>
            Lookup(after.dispatch, Key(p, time)) == Some(e.session))
      && ((forall e :: e in t.pending ==> e.key.pointerId != p) ==> after == t)
  {
    forall e | Youngest(t.pending, p, e) && e.session != 0
      ensures Lookup(Prepare(t, p, false, isStart, time).dispatch, Key(p, time)) == Some(e.session)
    {
      YoungestIsLatest(t.pending, p, e);
      RegisteredIsFound(t.dispatch, p, time, e.session);
    }
    if forall e :: e in t.pending ==> e.key.pointerId != p {
      NoLatest(t.pending, p);
    }
  }

  /** A match takes the youngest pending entry of its pointer and leaves all others; without one it yields the
      pointer's binding and leaves everything. */
  lemma MatchEffects(t: Tracker, p: int, e: Entry)
    requires p >= 0 && forall x :: x in t.pending ==> x.session != 0
    ensures Youngest(t.pending, p, e) ==>
      && MatchedSession(t, p) == e.session
      && Match(t, p).(pending := t.pending) == t
      && forall x :: x in Match(t, p).pending <==> x in t.pending && x.key != e.key
    ensures (forall x :: x in t.pending ==> x.key.pointerId != p) ==>
      && Match(t, p) == t
      && (p in t.bindings ==> MatchedSession(t, p) == t.bindings[p])
      && (p !in t.bindings ==> MatchedSession(t, p) == 0)
  {
    if Youngest(t.pending, p, e) {
      YoungestIsLatest(t.pending, p, e);
      WithoutKeyContents(t.pending, e.key);
    }
    if forall x :: x in t.pending ==> x.key.pointerId != p {
      NoLatest(t.pending, p);
    }
  }

  /** Starting a drag: without a window nothing happens; the active session becomes the matched one if the pointer's
      touches are synthetic, and is cleared otherwise, when nothing else changes. */
  lemma StartDragEffects(t: Tracker, p: int, hasWindow: bool)
    ensures var after := StartDrag(t, p, hasWindow);
      && (!hasWindow ==> after == t)
      && (hasWindow && t.active && t.pointerId == p ==>
            after.activeSession == MatchedSession(t, p) && after.(activeSession := t.activeSession) == Match(t, p))
      && (hasWindow && !(t.active && t.pointerId == p) ==>
            after.activeSession == 0 && after.(activeSession := t.activeSession) == t)
  {
  }

  /** An event's session: its own dispatch entry's, else its pointer's binding, else its pointer's youngest pending
      entry's, else none. */
  lemma ResolveOrder(t: Tracker, p: int, time: int)
    requires DistinctKeys(t.dispatch)
    ensures p < 0 ==> Resolve(t, p, time) == 0
    ensures forall e :: e in t.dispatch && e.key == Key(p, time) && p >= 0 && time > 0 ==>
      Resolve(t, p, time) == e.session
    ensures p >= 0 && (time <= 0 || forall e :: e in t.dispatch ==> e.key != Key(p, time)) ==>
      && (p in t.bindings ==> Resolve(t, p, time) == t.bindings[p])
      && (p !in t.bindings ==>
            && (forall e :: Youngest(t.pending, p, e) ==> Resolve(t, p, time) == e.session)
            && ((forall e :: e in t.pending ==> e.key.pointerId != p) ==> Resolve(t, p, time) == 0))
  {
    forall e | e in t.dispatch && e.key == Key(p, time) && p >= 0 && time > 0
      ensures Resolve(t, p, time) == e.session
    {
      LookupEntry(t.dispatch, e.key, e.session);
    }
    if HasKey(t.dispatch, Key(p, time)) {
      var i :| 0 <= i < |t.dispatch| && t.dispatch[i].key == Key(p, time);
      assert t.dispatch[i] in t.dispatch;
    }
    forall e | Youngest(t.pending, p, e)
      ensures Latest(t.pending, p) == Some(e)
    {
      YoungestIsLatest(t.pending, p, e);
    }
    if forall e :: e in t.pending ==> e.key.pointerId != p {
      NoLatest(t.pending, p);
    }
  }

  /** A complete while active, or for another than the current pointer, changes nothing. Any other clears the active
      session and the compensation, and what the current and the named pointer have bound and pending. */
  lemma CompleteEffects(t: Tracker, p: int, active: bool, current: int, q: int)
    requires q >= 0
    ensures var after := Complete(t, p, active, current);
      if active || (p >= 0 && current >= 0 && p != current) then after == t
      else
        && after.activeSession == 0 && after.compensation == NO_COMPENSATION && after.pointerId == -1
        && after.active == t.active && after.generator == t.generator && after.dispatch == t.dispatch
        && (q == p || q == current ==>
              q !in after.bindings && forall e :: e in after.pending ==> e.key.pointerId != q)
        && (q != p && q != current ==>
              && (q in after.bindings <==> q in t.bindings)
              && (q in t.bindings ==> after.bindings[q] == t.bindings[q])
              && forall e: Entry :: e.key.pointerId == q ==> (e in after.pending <==> e in t.pending))
  {
    WithoutPointerContents(t.pending, current);
    WithoutPointerContents(ResetPointer(t.pending, current), p);
  }

  // ----- Runs -----

  /** One critical section or atomic access. `Complete` works with any earlier reading of the current
      pointer; a touch update stores pointer and activity separately, whatever it read before; and a match
      and the store of its result are separate steps. */
  datatype Step =
    | PrepareStep(p: int, active: bool, isStart: bool, time: int)
    | PointerStep(p: int)
    | TouchStep(active: bool)
    | CompleteStep(p: int, active: bool, current: int)
    | MatchStep(p: int)
    | ActivateStep(session: nat)
    | CompensateStep(compensation: Compensation)

  /** Only sessions that exist are stored. */
  predicate Possible(t: Tracker, step: Step) {
    step.ActivateStep? ==> step.session < t.generator
  }

  function Next(t: Tracker, step: Step): Tracker {
    match step
    case PrepareStep(p, active, isStart, time) => Prepare(t, p, active, isStart, time)
    case PointerStep(p) => t.(pointerId := p)
    case TouchStep(active) => t.(active := active)
    case CompleteStep(p, active, current) => Complete(t, p, active, current)
    case MatchStep(p) => Match(t, p)
    case ActivateStep(session) => t.(activeSession := session)
    case CompensateStep(compensation) => t.(compensation := compensation)
  }

  predicate ValidRun(t: Tracker, run: seq<Step>)
    decreases |run|
  {
    run == [] || (Possible(t, run[0]) && ValidRun(Next(t, run[0]), run[1..]))
  }

  function Final(t: Tracker, run: seq<Step>): Tracker
    decreases |run|
  {
    if run == [] then t else Final(Next(t, run[0]), run[1..])
  }

  /** The pointers of the generating events of a run, in order: session k belongs to `Owners(..)[k - 1]`. */
  function Owners(t: Tracker, run: seq<Step>): seq<int>
    decreases |run|
  {
    if run == [] then []
    else
      (if run[0].PrepareStep? && Generates(t, run[0].p, run[0].active, run[0].isStart) then [run[0].p] else [])
      + Owners(Next(t, run[0]), run[1..])
  }

  // ----- Ownership -----

  predicate Owned(session: nat, p: int, owners: seq<int>) {
    1 <= session <= |owners| && owners[session - 1] == p
  }

  predicate AllOwned(entries: seq<Entry>, owners: seq<int>) {
    && DistinctKeys(entries)
    && |entries| <= CACHE_LIMIT
    && forall e :: e in entries ==> Owned(e.session, e.key.pointerId, owners)
  }

  /** Every session id in use is below the generator and belongs to the pointer it is filed under. */
  predicate Inv(t: Tracker, owners: seq<int>) {
    && t.generator == |owners| + 1
    && AllOwned(t.pending, owners)
    && AllOwned(t.dispatch, owners)
    && (forall p :: p in t.bindings ==> p >= 0 && Owned(t.bindings[p], p, owners))
    && t.activeSession < t.generator
  }

  lemma RegisterOwned(entries: seq<Entry>, p: int, time: int, session: nat, owners: seq<int>)
    requires AllOwned(entries, owners)
    requires session != INVALID_SESSION ==> Owned(session, p, owners)
    ensures AllOwned(Register(entries, p, time, session), owners)
  {
    RegisterKeeps(entries, p, time, session);
  }

  lemma MoreOwners(entries: seq<Entry>, owners: seq<int>, p: int)
    requires AllOwned(entries, owners)
    ensures AllOwned(entries, owners + [p])
  {
  }

  lemma PrepareKeepsInv(t: Tracker, owners: seq<int>, p: int, active: bool, isStart: bool, time: int)
    requires Inv(t, owners)
    ensures Inv(Prepare(t, p, active, isStart, time),
                owners + if Generates(t, p, active, isStart) then [p] else [])
  {
    assert owners + [] == owners;
    if Generates(t, p, active, isStart) {
      MoreOwners(t.pending, owners, p);
      MoreOwners(t.dispatch, owners, p);
      RegisterOwned(t.pending, p, time, t.generator, owners + [p]);
      RegisterOwned(t.dispatch, p, time, t.generator, owners + [p]);
    } else if p >= 0 {
      var session := if Binding(t, p) == INVALID_SESSION then LatestSession(t, p) else Binding(t, p);
      RegisterOwned(t.pending, p, time, Binding(t, p), owners);
      RegisterOwned(t.dispatch, p, time, session, owners);
    }
  }

  lemma ResetOwned(entries: seq<Entry>, p: int, owners: seq<int>)
    requires AllOwned(entries, owners)
    ensures AllOwned(ResetPointer(entries, p), owners)
  {
    WithoutPointerContents(entries, p);
  }

  lemma StepKeepsInv(t: Tracker, owners: seq<int>, step: Step)
    requires Inv(t, owners) && Possible(t, step)
    ensures Inv(Next(t, step), owners + Owners(t, [step]))
  {
    assert [step][1..] == [];
    assert owners + [] == owners;
    match step
    case PrepareStep(p, active, isStart, time) => PrepareKeepsInv(t, owners, p, active, isStart, time);
    case CompleteStep(p, active, current) =>
      ResetOwned(t.pending, current, owners);
      ResetOwned(ResetPointer(t.pending, current), p, owners);
    case MatchStep(p) =>
      if Latest(t.pending, p).Some? {
        WithoutKeyContents(t.pending, Latest(t.pending, p).value.key);
      }
    case PointerStep(_) =>
    case TouchStep(_) =>
    case ActivateStep(_) =>
    case CompensateStep(_) =>
  }

  lemma {:induction false} RunKeepsInv(t: Tracker, owners: seq<int>, run: seq<Step>)
    requires Inv(t, owners) && ValidRun(t, run)
    ensures Inv(Final(t, run), owners + Owners(t, run))
    decreases |run|
  {
    if run == [] {
      NothingAround(owners);
    } else {
      var own := Owners(t, [run[0]]);
      assert [run[0]][1..] == [];
      StepKeepsInv(t, owners, run[0]);
      RunKeepsInv(Next(t, run[0]), owners + own, run[1..]);
      NothingAround(if run[0].PrepareStep? && Generates(t, run[0].p, run[0].active, run[0].isStart)
                    then [run[0].p] else []);
      Assoc(owners, own, Owners(Next(t, run[0]), run[1..]));
    }
  }

  lemma ResolveOwned(t: Tracker, owners: seq<int>, p: int, time: int)
    requires Inv(t, owners) && Resolve(t, p, time) != INVALID_SESSION
    ensures Owned(Resolve(t, p, time), p, owners)
  {
  }

  /** Ids in bindings, pending and dispatch are below the generator, and one id never serves two
      pointers, whichever of the three structures it is found in. */
  lemma SessionsBelongToOnePointer(run: seq<Step>, p: int, q: int, session: nat)
    requires ValidRun(INITIAL_TRACKER, run)
    requires Uses(Final(INITIAL_TRACKER, run), p, session) && Uses(Final(INITIAL_TRACKER, run), q, session)
    ensures p == q && 1 <= session < Final(INITIAL_TRACKER, run).generator
  {
    RunKeepsInv(INITIAL_TRACKER, [], run);
  }

  predicate Uses(t: Tracker, p: int, session: nat) {
    || (exists e :: e in t.pending && e.key.pointerId == p && e.session == session)
    || (exists e :: e in t.dispatch && e.key.pointerId == p && e.session == session)
    || (p in t.bindings && t.bindings[p] == session)
  }

  /** A generated session is new: it is neither filed anywhere nor active. */
  lemma GeneratedIsFresh(run: seq<Step>, p: int)
    requires ValidRun(INITIAL_TRACKER, run)
    ensures var t := Final(INITIAL_TRACKER, run); !Uses(t, p, t.generator) && t.activeSession != t.generator
  {
    RunKeepsInv(INITIAL_TRACKER, [], run);
  }

  /** While a session is active only events of the pointer that owns it are forwarded, even when other
      steps intervene between resolving the event and reading the active session. */
  lemma ForwardsOnlyOwner(before: seq<Step>, between: seq<Step>, p: int, time: int)
    requires ValidRun(INITIAL_TRACKER, before)
    requires ValidRun(Final(INITIAL_TRACKER, before), between)
    requires var active := Final(Final(INITIAL_TRACKER, before), between).activeSession;
      active != INVALID_SESSION && Forwards(Resolve(Final(INITIAL_TRACKER, before), p, time), active)
    ensures var owners := Owners(INITIAL_TRACKER, before) + Owners(Final(INITIAL_TRACKER, before), between);
      Owned(Final(Final(INITIAL_TRACKER, before), between).activeSession, p, owners)
  {
    var t := Final(INITIAL_TRACKER, before);
    RunKeepsInv(INITIAL_TRACKER, [], before);
    assert [] + Owners(INITIAL_TRACKER, before) == Owners(INITIAL_TRACKER, before);
    ResolveOwned(t, Owners(INITIAL_TRACKER, before), p, time);
  }

  // ----- The session of a start -----

  /** `p` is bound to `session`, and its latest pending entry, if any is left, is of that session. */
  predicate Holds(t: Tracker, p: int, session: nat) {
    && p >= 0 && session != INVALID_SESSION
    && Binding(t, p) == session
    && LatestSession(t, p) in {INVALID_SESSION, session}
  }

  /** A start is filed as the pointer's latest entry: its key is new or was the latest already; or the
      pointer has no pending entry at all. */
  predicate FiledLast(t: Tracker, p: int, time: int) {
    var latest := Latest(t.pending, p);
    latest.None? || (time > 0 && (!HasKey(t.pending, Key(p, time)) || latest.value.key == Key(p, time)))
  }

  predicate FiledLastIn(entries: seq<Entry>, key: Key) {
    var latest := Latest(entries, key.pointerId);
    latest.None? || !HasKey(entries, key) || latest.value.key == key
  }

  lemma {:induction false} LatestAfterRegister(entries: seq<Entry>, p: int, time: int, session: nat, q: int)
    requires DistinctKeys(entries)
    ensures var before, after := Latest(entries, q), Latest(Register(entries, p, time, session), q);
      var filed := Some(Entry(Key(p, time), session));
      && (p != q || session == INVALID_SESSION || time <= 0 ==> after in {None, before})
      && (p == q ==> after in {None, before, filed})
      && (p == q && p >= 0 && time > 0 && session != INVALID_SESSION && FiledLastIn(entries, Key(p, time)) ==>
            after in {None, filed})
  {
    var put := Put(entries, Key(p, time), session);
    LatestAfterPut(entries, Key(p, time), session, q);
    LatestAfterTrim(put, q);
    HasKeyHasLatest(entries, Key(p, time));
  }

  lemma HasKeyHasLatest(entries: seq<Entry>, key: Key)
    ensures HasKey(entries, key) ==> Latest(entries, key.pointerId).Some?
  {
    if HasKey(entries, key) {
      var i :| 0 <= i < |entries| && entries[i].key == key;
      assert entries[i] in entries;
    }
  }

  /** The steps that leave the start of `p` alone: everything but another start of `p`, a match for `p` and a
      complete for `p`, or for no pointer, while `p` is current; a complete for another pointer is harmless. */
  predicate Spares(step: Step, p: int) {
    match step
    case PrepareStep(q, active, isStart, _) => !(q == p && active && isStart)
    case MatchStep(q) => q != p
    case CompleteStep(q, active, current) =>
      active || (q >= 0 && current >= 0 && q != current) || (q != p && current != p)
    case _ => true
  }

  lemma StepKeepsHolds(t: Tracker, owners: seq<int>, step: Step, p: int, session: nat)
    requires Inv(t, owners) && Possible(t, step) && Spares(step, p) && Holds(t, p, session)
    ensures Holds(Next(t, step), p, session)
  {
    match step
    case PrepareStep(q, active, isStart, time) =>
      var s := if Generates(t, q, active, isStart) then t.generator else Binding(t, q);
      LatestAfterRegister(t.pending, q, time, s, p);
    case CompleteStep(q, active, current) =>
      if Completes(q, active, current) {
        LatestAfterReset(t.pending, current, p);
        LatestAfterReset(ResetPointer(t.pending, current), q, p);
      }
    case MatchStep(q) =>
      if Latest(t.pending, q).Some? {
        LatestAfterWithoutKey(t.pending, Latest(t.pending, q).value.key, p);
      }
    case _ =>
  }

  lemma LatestAfterReset(entries: seq<Entry>, other: int, p: int)
    requires other != p
    ensures Latest(ResetPointer(entries, other), p) == Latest(entries, p)
  {
    LatestAfterWithoutPointer(entries, other, p);
  }

  lemma {:induction false} RunKeepsHolds(t: Tracker, owners: seq<int>, run: seq<Step>, p: int, session: nat)
    requires Inv(t, owners) && ValidRun(t, run) && Holds(t, p, session)
    requires forall i :: 0 <= i < |run| ==> Spares(run[i], p)
    ensures Holds(Final(t, run), p, session)
    decreases |run|
  {
    if run != [] {
      StepKeepsHolds(t, owners, run[0], p, session);
      StepKeepsInv(t, owners, run[0]);
      assert forall i :: 0 <= i < |run[1..]| ==> run[1..][i] == run[i + 1];
      RunKeepsHolds(Next(t, run[0]), owners + Owners(t, [run[0]]), run[1..], p, session);
    }
  }

  /** Right after a start, the pointer matches the new session exactly when the start was filed last. */
  lemma StartMatchesIff(t: Tracker, owners: seq<int>, p: int, time: int)
    requires Inv(t, owners) && p >= 0
    ensures MatchedSession(Prepare(t, p, true, true, time), p) == t.generator <==> FiledLast(t, p, time)
    ensures FiledLast(t, p, time) ==> Holds(Prepare(t, p, true, true, time), p, t.generator)
  {
    if FiledLast(t, p, time) {
      LatestAfterRegister(t.pending, p, time, t.generator, p);
    } else {
      StartFiledEarlier(t, owners, p, time);
    }
  }

  /** A start that is not filed last leaves the pointer's latest entry, of an older session, in place. */
  lemma StartFiledEarlier(t: Tracker, owners: seq<int>, p: int, time: int)
    requires Inv(t, owners) && p >= 0 && !FiledLast(t, p, time)
    ensures var after := Prepare(t, p, true, true, time);
      Latest(after.pending, p) == Latest(t.pending, p) && MatchedSession(after, p) != t.generator
  {
    LatestAfterPut(t.pending, Key(p, time), t.generator, p);
    if time > 0 {
      var i :| 0 <= i < |t.pending| && t.pending[i].key == Key(p, time);
      PutPresent(t.pending, i, t.generator);
    }
    assert Latest(t.pending, p).value in t.pending;
  }

  /** Eviction never revives an old session: after a start of `p` filed last, and any steps that spare
      it, the next match for `p` yields the session generated by that start. */
  lemma {:induction false} MatchYieldsStart(before: seq<Step>, p: int, time: int, after: seq<Step>)
    requires ValidRun(INITIAL_TRACKER, before) && p >= 0
    requires FiledLast(Final(INITIAL_TRACKER, before), p, time)
    requires ValidRun(Prepare(Final(INITIAL_TRACKER, before), p, true, true, time), after)
    requires forall i :: 0 <= i < |after| ==> Spares(after[i], p)
    ensures var t := Final(INITIAL_TRACKER, before);
      MatchedSession(Final(Prepare(t, p, true, true, time), after), p) == t.generator
  {
    var t := Final(INITIAL_TRACKER, before);
    RunKeepsInv(INITIAL_TRACKER, [], before);
    var owners := [] + Owners(INITIAL_TRACKER, before);
    StartMatchesIff(t, owners, p, time);
    PrepareKeepsInv(t, owners, p, true, true, time);
    RunKeepsHolds(Prepare(t, p, true, true, time), owners + [p], after, p, t.generator);
  }

  // ----- After a complete -----

  predicate Gone(t: Tracker, p: int) {
    p !in t.bindings && Latest(t.pending, p) == None
  }

  /** An effective complete leaves nothing of the current pointer and of the one it names, if any, but old
      dispatch entries. */
  lemma CompleteClears(t: Tracker, p: int, current: int, q: int)
    requires (p < 0 || current < 0 || p == current) && q >= 0 && q in {p, current}
    ensures var after := Complete(t, p, false, current);
      && Gone(after, q) && after.activeSession == INVALID_SESSION && after.compensation == NO_COMPENSATION
      && after.dispatch == t.dispatch
  {
    var kept := ResetPointer(t.pending, current);
    WithoutPointerContents(t.pending, current);
    WithoutPointerContents(kept, p);
    NoLatest(ResetPointer(kept, p), q);
  }

  predicate ActivePrepareFor(step: Step, p: int) {
    step.PrepareStep? && step.p == p && step.active
  }

  lemma RegisterOther(entries: seq<Entry>, q: int, time: int, session: nat, p: int)
    requires DistinctKeys(entries) && |entries| <= CACHE_LIMIT && (q != p || session == INVALID_SESSION)
    ensures forall e :: e in Register(entries, q, time, session) && e.key.pointerId == p ==> e in entries
  {
    RegisterKeeps(entries, q, time, session);
  }

  lemma StepKeepsGone(t: Tracker, owners: seq<int>, step: Step, p: int)
    requires Inv(t, owners) && Possible(t, step) && Gone(t, p) && !ActivePrepareFor(step, p)
    ensures Gone(Next(t, step), p)
    ensures forall e :: e in Next(t, step).dispatch && e.key.pointerId == p ==> e in t.dispatch
  {
    match step
    case PrepareStep(q, active, isStart, time) =>
      var s := if Generates(t, q, active, isStart) then t.generator else Binding(t, q);
      LatestAfterRegister(t.pending, q, time, s, p);
      var d := if !active && s == INVALID_SESSION then LatestSession(t, q) else s;
      RegisterOther(t.dispatch, q, time, d, p);
    case CompleteStep(q, active, current) =>
      GoneAfterReset(t.pending, current, p);
      GoneAfterReset(ResetPointer(t.pending, current), q, p);
    case MatchStep(q) =>
      if Latest(t.pending, q).Some? {
        WithoutKeyContents(t.pending, Latest(t.pending, q).value.key);
        NoLatest(WithoutKey(t.pending, Latest(t.pending, q).value.key), p);
      }
    case _ =>
  }

  lemma GoneAfterReset(entries: seq<Entry>, other: int, p: int)
    requires Latest(entries, p) == None
    ensures Latest(ResetPointer(entries, other), p) == None
  {
    WithoutPointerContents(entries, other);
    NoLatest(ResetPointer(entries, other), p);
  }

  lemma {:induction false} RunKeepsGone(t: Tracker, owners: seq<int>, run: seq<Step>, p: int)
    requires Inv(t, owners) && ValidRun(t, run) && Gone(t, p)
    requires forall i :: 0 <= i < |run| ==> !ActivePrepareFor(run[i], p)
    ensures Gone(Final(t, run), p)
    ensures forall e :: e in Final(t, run).dispatch && e.key.pointerId == p ==> e in t.dispatch
    decreases |run|
  {
    if run != [] {
      StepKeepsGone(t, owners, run[0], p);
      StepKeepsInv(t, owners, run[0]);
      assert forall i :: 0 <= i < |run[1..]| ==> run[1..][i] == run[i + 1];
      RunKeepsGone(Next(t, run[0]), owners + Owners(t, [run[0]]), run[1..], p);
    }
  }

  /** An event of a pointer with nothing bound or pending resolves by its dispatch entry alone. */
  lemma GoneResolves(before: Tracker, now: Tracker, q: int, time: int)
    requires Gone(now, q) && q >= 0 && DistinctKeys(before.dispatch)
    requires forall e :: e in now.dispatch ==> e.session != INVALID_SESSION
    requires forall e :: e in now.dispatch && e.key.pointerId == q ==> e in before.dispatch
    ensures Resolve(now, q, time) != INVALID_SESSION <==> time > 0 && HasKey(now.dispatch, Key(q, time))
    ensures HasKey(now.dispatch, Key(q, time)) ==> HasKey(before.dispatch, Key(q, time))
    ensures Resolve(now, q, time) != INVALID_SESSION ==> Resolve(now, q, time) == Resolve(before, q, time)
  {
    if HasKey(now.dispatch, Key(q, time)) {
      var session := Lookup(now.dispatch, Key(q, time)).value;
      assert Entry(Key(q, time), session) in before.dispatch;
      LookupEntry(before.dispatch, Key(q, time), session);
    }
  }

  /** Until the next active event of a completed pointer `q` is prepared, an event of `q` resolves to something
      exactly when its own dispatch entry, made before the complete, is still there. */
  lemma {:induction false} CompletedPointerResolvesIff(earlier: seq<Step>, p: int, current: int, q: int,
                                                       later: seq<Step>, time: int)
    requires ValidRun(INITIAL_TRACKER, earlier)
    requires (p < 0 || current < 0 || p == current) && q >= 0 && q in {p, current}
    requires ValidRun(Complete(Final(INITIAL_TRACKER, earlier), p, false, current), later)
    requires forall i :: 0 <= i < |later| ==> !ActivePrepareFor(later[i], q)
    ensures var before := Final(INITIAL_TRACKER, earlier);
      var now := Final(Complete(before, p, false, current), later);
      && (Resolve(now, q, time) != INVALID_SESSION <==> time > 0 && HasKey(now.dispatch, Key(q, time)))
      && (HasKey(now.dispatch, Key(q, time)) ==> HasKey(before.dispatch, Key(q, time)))
      && (Resolve(now, q, time) != INVALID_SESSION ==> Resolve(now, q, time) == Resolve(before, q, time))
  {
    var before := Final(INITIAL_TRACKER, earlier);
    RunKeepsInv(INITIAL_TRACKER, [], earlier);
    var owners := [] + Owners(INITIAL_TRACKER, earlier);
    var completed := Complete(before, p, false, current);
    CompleteClears(before, p, current, q);
    StepKeepsInv(before, owners, CompleteStep(p, false, current));
    assert owners + Owners(before, [CompleteStep(p, false, current)]) == owners by {
      assert [CompleteStep(p, false, current)][1..] == [];
    }
    RunKeepsGone(completed, owners, later, q);
    RunKeepsInv(completed, owners, later);
    GoneResolves(before, Final(completed, later), q, time);
  }

  // ----- Two runs a caller may not expect -----

  lemma {:induction false} FinalOfCons(t: Tracker, step: Step, rest: seq<Step>)
    ensures Final(t, [step] + rest) == Final(Next(t, step), rest)
  {
    assert ([step] + rest)[1..] == rest;
  }

  /** A start that reuses the action time of an earlier event of its pointer is not filed last: the
      match then yields the old session, although the binding is the new one. */
  lemma {:induction false} ReusedTimeMatchesOldSession(p: int, early: int, late: int)
    requires p >= 0 && early > 0 && late > 0 && early != late
    ensures var run := [PrepareStep(p, true, true, early), PrepareStep(p, true, false, late),
                        PrepareStep(p, true, true, early)];
      var t := Final(INITIAL_TRACKER, run);
      Binding(t, p) == 2 && MatchedSession(t, p) == 1
  {
    var a, b := PrepareStep(p, true, true, early), PrepareStep(p, true, false, late);
    var t1, t2 := Next(INITIAL_TRACKER, a), Next(Next(INITIAL_TRACKER, a), b);
    assert t1.pending == [Entry(Key(p, early), 1)];
    PutFresh(t1.pending, Key(p, late), 1);
    assert t2.pending == [Entry(Key(p, early), 1), Entry(Key(p, late), 1)];
    PutPresent(t2.pending, 0, 2);
    assert Next(t2, a).pending == [Entry(Key(p, early), 2), Entry(Key(p, late), 1)];
    LatestAt(Next(t2, a).pending, p, 1);
    FinalOfCons(INITIAL_TRACKER, a, [b, a]);
    FinalOfCons(t1, b, [a]);
    FinalOfCons(t2, a, []);
    assert [a, b, a] == [a] + [b, a] && [b, a] == [b] + [a] && [a] == [a] + [];
  }

  /** Completing a pointer does not clear its dispatch entries: from any reachable state, an event that was
      dispatched with a start is still forwarded right after the pointer is completed. */
  lemma {:induction false} DispatchOutlivesComplete(t: Tracker, owners: seq<int>, p: int, time: int)
    requires Inv(t, owners) && p >= 0 && time > 0
    ensures var after := Complete(Prepare(t, p, true, true, time), p, false, p);
      Gone(after, p) && Resolve(after, p, time) == t.generator && Forwards(Resolve(after, p, time), after.activeSession)
  {
    RegisteredIsFound(t.dispatch, p, time, t.generator);
    CompleteClears(Prepare(t, p, true, true, time), p, p, p);
  }
}
