/** The runtime state of the synthetic drag tracker, updated in place. `View` is its value as a
    `Tracker`; every method is proved to be the operation of that name on the value. */
module DragRuntime {
  import opened Prelude
  import opened SessionCaches
  import opened DragTracker
  import opened DragCompensation

  class SyntheticDragRuntimeState {
    var pointerId: int
    var active: bool
    var sessionGenerator: nat
    var activeSessionId: nat
    const pending: SessionCache
    const dispatch: SessionCache
    var bindings: map<int, nat>
    var compensation: Compensation

    ghost predicate Valid()
      reads this, pending, dispatch
    {
      && pending != dispatch
      && pending.Valid() && dispatch.Valid()
    }

    ghost function View(): Tracker
      requires Valid()
      reads this, pending, dispatch
    {
      Tracker(pointerId, active, sessionGenerator, activeSessionId,
              pending.Entries(), dispatch.Entries(), bindings, compensation)
    }

    constructor ()
      ensures Valid() && View() == INITIAL_TRACKER && fresh(pending) && fresh(dispatch)
    {
      pointerId, active, sessionGenerator, activeSessionId := -1, false, 1, INVALID_SESSION;
      bindings, compensation := map[], NO_COMPENSATION;
      pending := new SessionCache();
      dispatch := new SessionCache();
    }

    method UpdateTouchState(p: int, isActive: bool)
      requires Valid()
      modifies this
      ensures Valid() && View() == Touch(old(View()), p, isActive)
    {
      if isActive {
        pointerId := p;
        active := true;
        return;
      }
      var current := pointerId;
      if p < 0 || current == p {
        active := false;
      }
    }

    method PrepareContext(p: int, isActive: bool, isStart: bool, actionTime: int)
      requires Valid()
      modifies this, pending, dispatch
      ensures Valid() && View() == Prepare(old(View()), p, isActive, isStart, actionTime)
    {
      if p < 0 {
        return;
      }
      var sessionId := if p in bindings then bindings[p] else INVALID_SESSION;
      if isActive && (isStart || sessionId == INVALID_SESSION) {
        sessionId := sessionGenerator;
        sessionGenerator := sessionGenerator + 1;
        bindings := bindings[p := sessionId];
        pending.RegisterLocked(p, actionTime, sessionId);
      } else if isActive && sessionId != INVALID_SESSION {
        pending.RegisterLocked(p, actionTime, sessionId);
      } else if !isActive && sessionId == INVALID_SESSION {
        var latest, _ := pending.FindLatest(p);
        sessionId := latest;
      }
      dispatch.RegisterLocked(p, actionTime, sessionId);
    }

    method Unbind(current: int, p: int)
      modifies this`bindings
      ensures bindings == old(bindings) - Completed(p, current)
    {
      bindings := bindings - {current};
      if p >= 0 && p != current {
        bindings := bindings - {p};
      }
    }

    method ResetPending(current: int, p: int)
      requires Valid()
      modifies pending
      ensures Valid()
      ensures pending.Entries() == ResetPointer(ResetPointer(old(pending.Entries()), current), p)
    {
      ghost var before := pending.Entries();
      pending.ResetPointerLocked(current);
      if p >= 0 && p != current {
        pending.ResetPointerLocked(p);
      } else {
        ResetTwice(before, p);
      }
    }

    method CompleteTouchState(p: int, isActive: bool)
      requires Valid()
      modifies this, pending
      ensures Valid() && View() == Complete(old(View()), p, isActive, old(pointerId))
    {
      if isActive {
        return;
      }
      var current := pointerId;
      if p >= 0 && current >= 0 && current != p {
        return;
      }
      Unbind(current, p);
      ResetPending(current, p);
      compensation := NO_COMPENSATION;
      activeSessionId := INVALID_SESSION;
      pointerId := -1;
    }

    method MatchAndConsume(p: int, isSyntheticDrag: bool) returns (sessionId: nat)
      requires Valid()
      modifies pending
      ensures Valid()
      ensures View() == if isSyntheticDrag then Match(old(View()), p) else old(View())
      ensures sessionId == if isSyntheticDrag then MatchedSession(old(View()), p) else INVALID_SESSION
    {
      if !isSyntheticDrag {
        return INVALID_SESSION;
      }
      var found, matched := pending.FindLatest(p);
      if found != INVALID_SESSION {
        pending.Consume(matched.value);
        return found;
      }
      if p in bindings {
        return bindings[p];
      }
      return INVALID_SESSION;
    }

    /** The state part of starting a drag; the result is the status, and what the surface listener keeps. */
    method StartDrag(p: int, hasWindow: bool) returns (status: int, isSyntheticDrag: bool, sessionId: nat)
      requires Valid()
      modifies this, pending
      ensures Valid() && View() == DragTracker.StartDrag(old(View()), p, hasWindow)
      ensures status == if hasWindow then 0 else -1
      ensures isSyntheticDrag <==> hasWindow && SyntheticFor(old(View()), p)
      ensures sessionId == if isSyntheticDrag then MatchedSession(old(View()), p) else INVALID_SESSION
    {
      if !hasWindow {
        return -1, false, INVALID_SESSION;
      }
      isSyntheticDrag := active && pointerId == p;
      sessionId := MatchAndConsume(p, isSyntheticDrag);
      activeSessionId := if isSyntheticDrag then sessionId else INVALID_SESSION;
      status := 0;
    }

    method StopDrag()
      requires Valid()
      modifies this
      ensures Valid() && View() == Next(old(View()), ActivateStep(INVALID_SESSION))
    {
      activeSessionId := INVALID_SESSION;
    }

    /** Once the surface is there: compensation is set up and the start position goes through it. */
    method StartDragWindow(drag: DragData, window: Option<Size>, width: int, height: int, sessionId: nat,
                           rotation: Rotation) returns (position: Point)
      requires Valid()
      modifies this
      ensures Valid() && View() == Next(old(View()), CompensateStep(compensation))
      ensures compensation.valid && compensation.sessionId == sessionId && compensation.pointerId == drag.pointerId
      ensures position == Compensated(compensation, drag.display, drag.pointerId)
    {
      compensation := MakeCompensation(drag, window, width, height, sessionId, rotation);
      position := CompensatePoint(compensation, drag.display.x, drag.display.y, drag.pointerId);
    }

    method ResolveSession(p: int, actionTime: int) returns (sessionId: nat)
      requires Valid()
      ensures sessionId == Resolve(View(), p, actionTime)
    {
      if p < 0 {
        return INVALID_SESSION;
      }
      if actionTime > 0 {
        var found := dispatch.Find(Key(p, actionTime));
        if found.Some? {
          return found.value;
        }
      }
      if p in bindings {
        return bindings[p];
      }
      var latest, _ := pending.FindLatest(p);
      sessionId := latest;
    }

    /** The event handed on to the drag framework, if any. */
    method UpdatePointAction(event: Option<PointerEvent>, canCreate: bool) returns (forwarded: Option<PointerEvent>)
      requires Valid() && (event.Some? ==> event.value.WellFormed())
      ensures event.None? ==> forwarded.None?
      ensures event.Some? ==>
        var session := Resolve(View(), event.value.header.pointerId, event.value.header.actionTime);
        && (forwarded.Some? <==> session != 0 && (activeSessionId == 0 || session == activeSessionId))
        && (forwarded.Some? ==>
              forwarded.value == event.value ||
              (Applies(compensation, event.value, session) &&
               IsCompensatedCopy(compensation, event.value, forwarded.value)))
        && (forwarded.Some? && canCreate && Applies(compensation, event.value, session)
              && (forall id :: id in event.value.ids ==> id in event.value.items) ==>
              IsCompensatedCopy(compensation, event.value, forwarded.value))
    {
      if event.None? {
        return None;
      }
      var e := event.value;
      var session := ResolveSession(e.header.pointerId, e.header.actionTime);
      var activeSession := activeSessionId;
      if session == INVALID_SESSION {
        return None;
      }
      if activeSession != INVALID_SESSION && session != activeSession {
        return None;
      }
      var adjusted := CreateCompensatedEvent(compensation, e, session, canCreate);
      forwarded := Some(adjusted);
    }
  }

  lemma ResetTwice(entries: seq<Entry>, p: int)
    ensures ResetPointer(ResetPointer(entries, p), p) == ResetPointer(entries, p)
  {
    if p >= 0 {
      WithoutPointerContents(entries, p);
      NothingToRemove(WithoutPointer(entries, p), p);
    }
  }

  lemma {:induction false} NothingToRemove(entries: seq<Entry>, p: int)
    requires forall e :: e in entries ==> e.key.pointerId != p
    ensures WithoutPointer(entries, p) == entries
  {
    if entries != [] {
      assert entries[0] in entries;
      NothingToRemove(entries[1..], p);
    }
  }

  /** A touch update is at most two stores. */
  lemma TouchIsSteps(t: Tracker, p: int, active: bool) returns (run: seq<Step>)
    ensures ValidRun(t, run) && Final(t, run) == Touch(t, p, active)
    ensures |run| <= 2 && forall i :: 0 <= i < |run| ==> run[i] in {PointerStep(p), TouchStep(active)}
  {
    if active {
      run := [PointerStep(p), TouchStep(true)];
      var stored := Next(t, run[0]);
      assert run[1..] == [TouchStep(true)] && [TouchStep(true)][1..] == [];
      assert Final(stored, [TouchStep(true)]) == Final(Next(stored, TouchStep(true)), []);
      assert ValidRun(stored, [TouchStep(true)]);
    } else if p < 0 || t.pointerId == p {
      run := [TouchStep(false)];
      assert run[1..] == [];
      assert Final(t, run) == Final(Next(t, TouchStep(false)), []);
    } else {
      run := [];
    }
  }

  /** Starting a drag is a match followed by the store of the matched session. */
  lemma StartDragIsTwoSteps(t: Tracker, owners: seq<int>, p: int)
    requires Inv(t, owners) && SyntheticFor(t, p)
    ensures ValidRun(t, [MatchStep(p), ActivateStep(MatchedSession(t, p))])
    ensures Final(t, [MatchStep(p), ActivateStep(MatchedSession(t, p))]) == DragTracker.StartDrag(t, p, true)
  {
    var matching, activate := MatchStep(p), ActivateStep(MatchedSession(t, p));
    assert [matching, activate][1..] == [activate];
    assert [activate][1..] == [];
    assert Final(t, [matching, activate]) == Final(Next(t, matching), [activate]);
    assert ValidRun(Next(t, matching), [activate]);
  }
}
