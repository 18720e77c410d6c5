/** The walk along the chain of saved frame pointers, over memory that may fault on any read. */
module FrameWalks {
  import opened Prelude
  import opened DumpBuffers

  const MAX_STACK_DEPTH := 64
  const INSTRUCTION_LENGTH := 4

  /** The word at an address, or nothing if reading it faults. */
  type Memory = Word -> Option<Word>

  /** Memory together with the log of addresses read. */
  class Machine {
    const memory: Memory
    var accesses: seq<Word>

    constructor (memory: Memory)
      ensures this.memory == memory && accesses == []
    {
      this.memory := memory;
      accesses := [];
    }

    method Read(addr: Word) returns (word: Option<Word>)
      modifies this
      ensures word == memory(addr) && accesses == old(accesses) + [addr]
    {
      accesses := accesses + [addr];
      word := memory(addr);
    }
  }

  /** The call before the return address, in 64-bit arithmetic; 0 for a missing return address. */
  function CallSite(lr: Word): Word {
    if lr == 0 then 0 else (lr - INSTRUCTION_LENGTH) % WORD_LIMIT
  }

  predicate Walkable(fp: Word) {
    fp != 0 && fp % 16 == 0
  }

  /** Where a frame keeps its return address. */
  function ReturnSlot(fp: Word): Word
    requires Walkable(fp)
  {
    fp + 8
  }

  type FramePointer = fp: Word | Walkable(fp) witness 16

  /** The outcome of a walk: the call sites found, the frame pointers followed, every address
      read, and whether the walk ended in a faulting read. */
  datatype Walk = Walk(callSites: seq<Word>, fps: seq<FramePointer>, accesses: seq<Word>, faulted: bool)

  const STOPPED_WALK := Walk([], [], [], false)

  function FrameWalk(memory: Memory, fp: Word, idx: nat): Walk
    decreases MAX_STACK_DEPTH - idx
  {
    if idx >= MAX_STACK_DEPTH || !Walkable(fp) then STOPPED_WALK
    else match memory(ReturnSlot(fp))
      case None => Walk([], [fp], [ReturnSlot(fp)], true)
      case Some(lr) =>
        match memory(fp)
        case None => Walk([], [fp], [ReturnSlot(fp), fp], true)
        case Some(next) =>
          if CallSite(lr) == 0 then Walk([], [fp], [ReturnSlot(fp), fp], false)
          else
            var rest := if next <= fp then STOPPED_WALK else FrameWalk(memory, next, idx + 1);
            Walk([CallSite(lr)] + rest.callSites, [fp] + rest.fps, [ReturnSlot(fp), fp] + rest.accesses, rest.faulted)
  }

  /** On any memory the walk follows only nonzero, aligned, strictly rising frame pointers. */
  lemma {:induction false} WalkRises(memory: Memory, fp: Word, idx: nat)
    ensures var w := FrameWalk(memory, fp, idx);
      && (w.fps != [] ==> w.fps[0] == fp)
      && (forall i :: 0 <= i < |w.fps| ==> w.fps[i] != 0 && (w.fps[i] as int) % 16 == 0 && fp <= w.fps[i])
      && (forall i, j :: 0 <= i < j < |w.fps| ==> w.fps[i] < w.fps[j])
    decreases MAX_STACK_DEPTH - idx
  {
    if idx < MAX_STACK_DEPTH && Walkable(fp) && memory(fp).Some? {
      WalkRises(memory, memory(fp).value, idx + 1);
    }
  }

  /** It visits at most 64 frames and prints one call site per visited frame except possibly the last. */
  lemma {:induction false} WalkIsBounded(memory: Memory, fp: Word, idx: nat)
    requires idx <= MAX_STACK_DEPTH
    ensures var w := FrameWalk(memory, fp, idx);
      |w.callSites| <= |w.fps| <= 64 - idx && |w.fps| <= |w.callSites| + 1
    decreases MAX_STACK_DEPTH - idx
  {
    if idx < MAX_STACK_DEPTH && Walkable(fp) && memory(fp).Some? {
      WalkIsBounded(memory, memory(fp).value, idx + 1);
    }
  }

  /** `site` is the instruction, four bytes long, after which execution returns to the address that the frame at
      `fp` keeps in its second word. */
  predicate IsCallSite(memory: Memory, fp: Word, site: Word)
    requires fp % 16 == 0
  {
    match memory(fp + 8)
    case None => false
    case Some(lr) => lr != 0 && site != 0 && (site as int + 4) % 0x1_0000_0000_0000_0000 == lr
  }

  lemma BeforeReturn(lr: Word)
    ensures CallSite(lr) == 0 <==> lr == 0 || lr == 4
    ensures lr != 0 ==> (CallSite(lr) as int + 4) % 0x1_0000_0000_0000_0000 == lr
  {
  }

  predicate HasCallSite(memory: Memory, fp: FramePointer, site: Word) {
    memory(ReturnSlot(fp)).Some? && site == CallSite(memory(ReturnSlot(fp)).value) != 0
  }

  /** Each call site is the one before the return address that memory holds for its frame. */
  lemma CallSitesFollowMemory(memory: Memory, fp: Word, idx: nat)
    ensures var w := FrameWalk(memory, fp, idx);
      |w.callSites| <= |w.fps| && forall i :: 0 <= i < |w.callSites| ==> IsCallSite(memory, w.fps[i], w.callSites[i])
  {
    CallSitesOfFrames(memory, fp, idx);
    var w := FrameWalk(memory, fp, idx);
    forall i | 0 <= i < |w.callSites|
      ensures IsCallSite(memory, w.fps[i], w.callSites[i])
    {
      assert HasCallSite(memory, w.fps[i], w.callSites[i]);
      BeforeReturn(memory(ReturnSlot(w.fps[i])).value);
    }
  }

  lemma {:induction false} CallSitesOfFrames(memory: Memory, fp: Word, idx: nat)
    ensures var w := FrameWalk(memory, fp, idx);
      |w.callSites| <= |w.fps| && forall i :: 0 <= i < |w.callSites| ==> HasCallSite(memory, w.fps[i], w.callSites[i])
    decreases MAX_STACK_DEPTH - idx
  {
    var w := FrameWalk(memory, fp, idx);
    if w.callSites != [] {
      CallSitesOfFrames(memory, memory(fp).value, idx + 1);
    }
  }

  /** Each next frame pointer is the one memory holds in the frame before. */
  lemma {:induction false} LinksFollowMemory(memory: Memory, fp: Word, idx: nat)
    ensures var w := FrameWalk(memory, fp, idx);
      forall i :: 0 <= i < |w.fps| - 1 ==> memory(w.fps[i]) == Some(w.fps[i + 1])
    decreases MAX_STACK_DEPTH - idx
  {
    var w := FrameWalk(memory, fp, idx);
    if w.callSites != [] && memory(fp).value > fp {
      WalkStart(memory, memory(fp).value, idx + 1);
      LinksFollowMemory(memory, memory(fp).value, idx + 1);
    }
  }

  lemma WalkStart(memory: Memory, fp: Word, idx: nat)
    ensures FrameWalk(memory, fp, idx).fps != [] ==> FrameWalk(memory, fp, idx).fps[0] == fp
  {
  }

  /** Return address and saved frame pointer of each frame, in reading order. */
  function Slots(fps: seq<FramePointer>): seq<Word> {
    if fps == [] then [] else [ReturnSlot(fps[0]), fps[0]] + Slots(fps[1..])
  }

  lemma {:induction false} SlotsAre(fps: seq<FramePointer>, i: nat)
    requires i < |fps|
    ensures |Slots(fps)| == 2 * |fps|
    ensures Slots(fps)[2 * i] == fps[i] as int + 8 && Slots(fps)[2 * i + 1] == fps[i]
    decreases |fps|
  {
    if i > 0 {
      SlotsAre(fps[1..], i - 1);
    } else if |fps| > 1 {
      SlotsAre(fps[1..], 0);
    } else {
      assert Slots(fps[1..]) == [];
    }
  }

  /** Nothing but the two slots of each followed frame is read, in order. */
  lemma {:induction false} WalkReadsSlots(memory: Memory, fp: Word, idx: nat)
    ensures var w := FrameWalk(memory, fp, idx);
      w.accesses <= Slots(w.fps) && |Slots(w.fps)| <= |w.accesses| + 1
    decreases MAX_STACK_DEPTH - idx
  {
    var w := FrameWalk(memory, fp, idx);
    if w.callSites == [] {
      assert w.fps == [] || Slots(w.fps) == [ReturnSlot(fp), fp] + Slots([]);
    } else {
      var next := memory(fp).value;
      var rest := if next <= fp then STOPPED_WALK else FrameWalk(memory, next, idx + 1);
      WalkReadsSlots(memory, next, idx + 1);
      assert w.fps[1..] == rest.fps;
      assert w.accesses == [ReturnSlot(fp), fp] + rest.accesses;
    }
  }

  /** The saved return address is missing, or the call before it would be at 0. */
  predicate NoCaller(memory: Memory, fp: Word)
    requires fp % 16 == 0
  {
    memory(fp + 8) in {Some(0), Some(4)}
  }

  /** The saved frame pointer is not higher, or cannot be a frame pointer. */
  predicate NoHigherFrame(memory: Memory, fp: Word) {
    memory(fp).Some? && (memory(fp).value <= fp || memory(fp).value % 16 != 0)
  }

  /** Why a walk stops: at the depth cap, at a read that faults, at a zero or misaligned frame pointer, at a frame
      without a caller, or after a frame whose saved frame pointer is not higher. */
  predicate StopsFor(memory: Memory, fp: Word, idx: nat, w: Walk) {
    || idx + |w.callSites| == 64
    || w.faulted
    || (w.callSites == [] && (fp == 0 || fp % 16 != 0))
    || (|w.fps| == |w.callSites| + 1 && NoCaller(memory, w.fps[|w.fps| - 1]))
    || (|w.fps| == |w.callSites| > 0 && NoHigherFrame(memory, w.fps[|w.fps| - 1]))
  }

  lemma {:induction false} WalkStopsAt(memory: Memory, fp: Word, idx: nat)
    requires idx <= 64
    ensures StopsFor(memory, fp, idx, FrameWalk(memory, fp, idx))
    decreases 64 - idx
  {
    var w := FrameWalk(memory, fp, idx);
    if w.callSites != [] && memory(fp).value > fp {
      WalkStopsAt(memory, memory(fp).value, idx + 1);
      StopsLater(memory, fp, idx, w, FrameWalk(memory, memory(fp).value, idx + 1));
    }
  }

  lemma StopsLater(memory: Memory, fp: FramePointer, idx: nat, w: Walk, rest: Walk)
    requires memory(fp).Some? && StopsFor(memory, memory(fp).value, idx + 1, rest)
    requires |w.callSites| == 1 + |rest.callSites| && w.fps == [fp] + rest.fps && w.faulted == rest.faulted
    requires rest.callSites == [] && !Walkable(memory(fp).value) ==> rest.fps == []
    ensures StopsFor(memory, fp, idx, w)
  {
  }

  predicate LastReadFaults(memory: Memory, accesses: seq<Word>) {
    accesses != [] && memory(accesses[|accesses| - 1]).None?
  }

  /** The walk faults exactly when its last read does, and no earlier read faults. */
  lemma {:induction false} WalkFaultsAtEnd(memory: Memory, fp: Word, idx: nat)
    ensures var w := FrameWalk(memory, fp, idx);
      && (w.faulted <==> LastReadFaults(memory, w.accesses))
      && (forall k :: 0 <= k < |w.accesses| - 1 ==> memory(w.accesses[k]).Some?)
    decreases MAX_STACK_DEPTH - idx
  {
    var w := FrameWalk(memory, fp, idx);
    if w.callSites != [] && memory(fp).value > fp {
      WalkFaultsAtEnd(memory, memory(fp).value, idx + 1);
      PrependReads(memory, [ReturnSlot(fp), fp], FrameWalk(memory, memory(fp).value, idx + 1).accesses);
    }
  }

  lemma PrependReads(memory: Memory, first: seq<Word>, rest: seq<Word>)
    requires |first| == 2 && memory(first[0]).Some? && memory(first[1]).Some?
    requires forall k :: 0 <= k < |rest| - 1 ==> memory(rest[k]).Some?
    ensures LastReadFaults(memory, first + rest) <==> LastReadFaults(memory, rest)
    ensures forall k :: 0 <= k < |first + rest| - 1 ==> memory((first + rest)[k]).Some?
  {
    assert forall k :: 2 <= k < |first + rest| ==> (first + rest)[k] == rest[k - 2];
  }

  /** A stack frame as the calling convention lays it out. */
  datatype Frame = Frame(fp: Word, lr: Word, next: Word)

  /** `chain` is in memory, linked upwards, each frame with a caller; the last link leads nowhere. */
  predicate WellFormedChain(memory: Memory, chain: seq<Frame>) {
    && (forall i :: 0 <= i < |chain| ==>
          && chain[i].fp != 0 && chain[i].fp % 16 == 0
          && memory(chain[i].fp) == Some(chain[i].next)
          && memory(chain[i].fp + 8) == Some(chain[i].lr)
          && chain[i].lr != 0 && chain[i].lr != 4)
    && (forall i :: 0 <= i < |chain| - 1 ==> chain[i].fp < chain[i].next == chain[i + 1].fp)
    && (chain != [] ==> chain[|chain| - 1].next <= chain[|chain| - 1].fp)
  }

  /** The same in terms of what the walk tests. */
  predicate LinkedChain(memory: Memory, chain: seq<Frame>) {
    && (forall i :: 0 <= i < |chain| ==>
          && Walkable(chain[i].fp)
          && memory(chain[i].fp) == Some(chain[i].next)
          && memory(ReturnSlot(chain[i].fp)) == Some(chain[i].lr)
          && CallSite(chain[i].lr) != 0)
    && (forall i :: 0 <= i < |chain| - 1 ==> chain[i].fp < chain[i].next == chain[i + 1].fp)
    && (chain != [] ==> chain[|chain| - 1].next <= chain[|chain| - 1].fp)
  }

  /** The frames of a chain that are visited. */
  lemma {:induction false} WalkVisitsChain(memory: Memory, chain: seq<Frame>, idx: nat)
    requires chain != [] && LinkedChain(memory, chain) && idx <= MAX_STACK_DEPTH
    ensures var w := FrameWalk(memory, chain[0].fp, idx);
      && !w.faulted
      && |w.callSites| == Min(|chain|, MAX_STACK_DEPTH - idx)
      && forall i :: 0 <= i < |w.callSites| ==> w.callSites[i] == CallSite(chain[i].lr)
    decreases |chain|
  {
    if idx < MAX_STACK_DEPTH && |chain| > 1 {
      assert LinkedChain(memory, chain[1..]);
      WalkVisitsChain(memory, chain[1..], idx + 1);
      assert chain[0].next == chain[1..][0].fp;
    }
  }

  /** On a well-formed chain the walk prints the call sites in order, up to the depth cap of 64. */
  lemma WalkOfChain(memory: Memory, chain: seq<Frame>, idx: nat)
    requires chain != [] && WellFormedChain(memory, chain) && idx <= 64
    ensures var w := FrameWalk(memory, chain[0].fp, idx);
      && !w.faulted
      && |w.callSites| == Min(|chain|, 64 - idx)
      && forall i :: 0 <= i < |w.callSites| ==> (w.callSites[i] as int + 4) % 0x1_0000_0000_0000_0000 == chain[i].lr
  {
    forall i | 0 <= i < |chain|
      ensures CallSite(chain[i].lr) != 0
      ensures (CallSite(chain[i].lr) as int + 4) % 0x1_0000_0000_0000_0000 == chain[i].lr
    {
      BeforeReturn(chain[i].lr);
    }
    WalkVisitsChain(memory, chain, idx);
  }
}
