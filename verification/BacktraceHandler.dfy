/** The crash handler: it prints through the fixed-size buffer, walks the frame-pointer chain
    and flushes frame by frame. Every method is proved against the text of CrashReports. */
module BacktraceHandlers {
  import opened Prelude
  import opened Numerals
  import opened DumpBuffers
  import opened ImageTables
  import opened FrameWalks
  import opened CrashReports

  method PrintFrame(buf: DumpBuffer, table: ImageTable, idx: UInt32, pc: Word)
    requires buf.Valid()
    modifies buf, buf.data
    ensures buf.Valid() && buf.appended == old(buf.appended) + FrameLine(table.images, idx, pc)
  {
    ghost var was := buf.appended;
    buf.AppendLit("  #");
    buf.AppendDec(idx);
    buf.AppendLit(" pc=");
    buf.AppendHex0x(pc);
    PrintImage(buf, table, pc);
    buf.AppendCh('\n');
    FrameLineParts(was, table.images, idx, pc);
  }

  method PrintImage(buf: DumpBuffer, table: ImageTable, pc: Word)
    requires buf.Valid()
    modifies buf, buf.data
    ensures buf.Valid() && buf.appended == old(buf.appended) + ImagePart(table.images, pc)
  {
    ghost var was := buf.appended;
    var img := table.FindImage(pc);
    if img.Some? {
      buf.AppendLit(" ");
      buf.AppendStrN(img.value.name, MAX_NAME_LEN);
      assert img.value.name[..MAX_NAME_LEN] == img.value.name;
      buf.AppendLit("+0x");
      buf.AppendHex(Unslid(pc, img.value.slide));
      ImageParts(was, table.images, pc);
    }
  }

  lemma FrameLineParts(was: string, images: seq<ImageRecord>, idx: UInt32, pc: Word)
    ensures was + "  #" + Numeral(idx, Decimal) + " pc=" + "0x" + Numeral(pc, Hexadecimal)
      + ImagePart(images, pc) + ['\n'] == was + FrameLine(images, idx, pc)
  {
    Regroup7(was, "  #", Numeral(idx, Decimal), " pc=", "0x", Numeral(pc, Hexadecimal), ImagePart(images, pc), ['\n']);
  }

  lemma Regroup7(was: string, a: string, b: string, c: string, d: string, e: string, f: string, g: string)
    ensures was + a + b + c + d + e + f + g == was + (a + b + c + d + e + f + g)
    ensures was + a + b + c + d + e + f == was + (a + b + c + d + e + f)
    ensures was + a + b + c + d == was + (a + b + c + d)
  {
    Assoc(was, a, b);
    Assoc(was, a + b, c);
    Assoc(was, a + b + c, d);
    Assoc(was, a + b + c + d, e);
    Assoc(was, a + b + c + d + e, f);
    Assoc(was, a + b + c + d + e + f, g);
  }

  lemma ImageParts(was: string, images: seq<ImageRecord>, pc: Word)
    requires Containing(images, pc).Some?
    ensures var img := Containing(images, pc).value;
      was + " " + UpToNul(img.name) + "+0x" + Numeral(Unslid(pc, img.slide), Hexadecimal)
        == was + ImagePart(images, pc)
  {
    var img := Containing(images, pc).value;
    Regroup7(was, " ", UpToNul(img.name), "+0x", Numeral(Unslid(pc, img.slide), Hexadecimal), [], [], []);
  }

  method DumpSignalHeader(buf: DumpBuffer, sig: Int32, info: Option<SignalInfo>)
    requires buf.Valid()
    modifies buf, buf.data
    ensures buf.Valid() && buf.appended == old(buf.appended) + BANNER + SignalLine(sig, info)
  {
    ghost var was := buf.appended;
    buf.AppendLit(BANNER);
    buf.AppendLit("Fatal signal ");
    buf.AppendDec(sig % 0x1_0000_0000);
    buf.AppendLit(" (");
    PrintSignalName(buf, sig);
    buf.AppendLit("), si_code ");
    buf.AppendDecSigned(if info.Some? then info.value.code else 0);
    PrintFaultAddress(buf, info);
    buf.AppendCh('\n');
    SignalLineParts(was + BANNER, sig, info);
  }

  lemma SignalLineParts(was: string, sig: Int32, info: Option<SignalInfo>)
    ensures was + "Fatal signal " + Numeral(sig % 0x1_0000_0000, Decimal) + " (" + SignalName(sig)
      + "), si_code " + SignedNumeral(if info.Some? then info.value.code else 0) + FaultAddress(info) + ['\n']
      == was + SignalLine(sig, info)
  {
    Regroup8(was, "Fatal signal ", Numeral(sig % 0x1_0000_0000, Decimal), " (", SignalName(sig), "), si_code ",
             SignedNumeral(if info.Some? then info.value.code else 0), FaultAddress(info), ['\n']);
  }

  lemma Regroup8(was: string, a: string, b: string, c: string, d: string, e: string, f: string, g: string, h: string)
    ensures was + a + b + c + d + e + f + g + h == was + (a + b + c + d + e + f + g + h)
  {
    Regroup7(was, a, b, c, d, e, f, g);
    Assoc(was, a + b + c + d + e + f + g, h);
  }

  method PrintSignalName(buf: DumpBuffer, sig: Int32)
    requires buf.Valid()
    modifies buf, buf.data
    ensures buf.Valid() && buf.appended == old(buf.appended) + SignalName(sig)
  {
    if sig == SIGSEGV { buf.AppendLit("SIGSEGV"); }
    else if sig == SIGABRT { buf.AppendLit("SIGABRT"); }
    else if sig == SIGBUS { buf.AppendLit("SIGBUS"); }
    else if sig == SIGILL { buf.AppendLit("SIGILL"); }
    else if sig == SIGFPE { buf.AppendLit("SIGFPE"); }
    else { buf.AppendLit("?"); }
  }

  method PrintFaultAddress(buf: DumpBuffer, info: Option<SignalInfo>)
    requires buf.Valid()
    modifies buf, buf.data
    ensures buf.Valid() && buf.appended == old(buf.appended) + FaultAddress(info)
  {
    if info.Some? && info.value.address != 0 {
      ghost var was := buf.appended;
      buf.AppendLit(", fault addr ");
      buf.AppendHex0x(info.value.address);
      Assoc(was, ", fault addr ", "0x");
      Assoc(was, ", fault addr " + "0x", Numeral(info.value.address, Hexadecimal));
    }
  }

  /** How much is still to come when the walk stands at `fp` with `pending` in the buffer. */
  ghost function Todo(images: seq<ImageRecord>, memory: Memory, pending: string, script: seq<WriteOutcome>,
                      fp: Word, idx: nat): Drained
    requires idx <= MAX_STACK_DEPTH
  {
    DrainAll(Flushes(pending, LinesFrom(images, memory, fp, idx), None), script)
  }

  lemma FlushFirst(pending: string, line: string, rest: seq<string>, script: seq<WriteOutcome>)
    ensures var first := Drain(Capped(pending + line), script);
      var later := DrainAll(Flushes([], rest, None), first.script);
      DrainAll(Flushes(pending, [line] + rest, None), script) == Drained(first.text + later.text, later.script)
  {
    assert Flushes([], rest, None) == rest by {
      if rest != [] {
        assert [] + rest[0] == rest[0];
      }
    }
    assert Flushes(pending, [line] + rest, None) == [pending + line] + rest;
  }

  lemma LinesStep(images: seq<ImageRecord>, memory: Memory, fp: Word, idx: nat)
    requires idx < MAX_STACK_DEPTH && Walkable(fp) && memory(ReturnSlot(fp)).Some? && memory(fp).Some?
    requires CallSite(memory(ReturnSlot(fp)).value) != 0
    ensures var next := memory(fp).value;
      LinesFrom(images, memory, fp, idx) ==
        [FrameLine(images, idx, CallSite(memory(ReturnSlot(fp)).value))]
        + if next <= fp then [] else LinesFrom(images, memory, next, idx + 1)
  {
  }

  /** One printed and flushed frame, in terms of what is still to come. */
  lemma TodoStep(images: seq<ImageRecord>, memory: Memory, pending: string, script: seq<WriteOutcome>,
                 fp: Word, idx: nat)
    requires idx < MAX_STACK_DEPTH && Walkable(fp) && memory(ReturnSlot(fp)).Some? && memory(fp).Some?
    requires CallSite(memory(ReturnSlot(fp)).value) != 0
    ensures var next := memory(fp).value;
      var line := FrameLine(images, idx, CallSite(memory(ReturnSlot(fp)).value));
      var first := Drain(Capped(pending + line), script);
      var later := if next <= fp then Drained([], first.script)
                   else Todo(images, memory, [], first.script, next, idx + 1);
      Todo(images, memory, pending, script, fp, idx) == Drained(first.text + later.text, later.script)
  {
    LinesStep(images, memory, fp, idx);
    var next := memory(fp).value;
    FlushFirst(pending, FrameLine(images, idx, CallSite(memory(ReturnSlot(fp)).value)),
               if next <= fp then [] else LinesFrom(images, memory, next, idx + 1), script);
  }

  /** What a walk has done so far: reads, output, the text still in the buffer, and the write outcomes left. */
  datatype Progress = Progress(accesses: seq<Word>, output: string, pending: string, script: seq<WriteOutcome>)

  /** What a walk comes to in the end. */
  datatype Outcome = Outcome(done: Progress, faulted: bool)

  /** The outcome of a walk that stands at `fp` about to print line `idx`. */
  ghost function OutcomeFrom(images: seq<ImageRecord>, memory: Memory, now: Progress, fp: Word, idx: nat): Outcome
    requires idx <= MAX_STACK_DEPTH
  {
    var walk := FrameWalk(memory, fp, idx);
    var todo := Todo(images, memory, now.pending, now.script, fp, idx);
    Outcome(Progress(now.accesses + walk.accesses, now.output + todo.text,
                     if walk.callSites == [] then now.pending else [], todo.script), walk.faulted)
  }

  datatype Step = Stop | Fault | Next(fp: Word)

  ghost function OutcomeAfter(images: seq<ImageRecord>, memory: Memory, now: Progress, step: Step, idx: nat): Outcome
    requires idx < MAX_STACK_DEPTH
  {
    match step
    case Stop => Outcome(now, false)
    case Fault => Outcome(now, true)
    case Next(fp) => OutcomeFrom(images, memory, now, fp, idx + 1)
  }

  method FlushFrame(buf: DumpBuffer, err: Stderr, table: ImageTable, idx: UInt32, pc: Word)
    requires buf.Valid()
    modifies buf, buf.data, err
    ensures buf.Valid() && buf.appended == []
    ensures var drained := Drain(Capped(old(buf.appended) + FrameLine(table.images, idx, pc)), old(err.script));
      err.output == old(err.output) + drained.text && err.script == drained.script
  {
    PrintFrame(buf, table, idx, pc);
    buf.FlushDump(err);
  }

  /** A walk that stops at `fp` without printing leaves everything but the reads as it is. */
  lemma OutcomeOfStop(images: seq<ImageRecord>, memory: Memory, now: Progress, fp: Word, idx: nat)
    requires idx <= MAX_STACK_DEPTH && FrameWalk(memory, fp, idx).callSites == []
    ensures var walk := FrameWalk(memory, fp, idx);
      OutcomeFrom(images, memory, now, fp, idx)
        == Outcome(now.(accesses := now.accesses + walk.accesses), walk.faulted)
  {
    NothingAround(now.output);
  }

  /** A printed and flushed frame, then the rest of the walk. */
  lemma OutcomeOfFrame(images: seq<ImageRecord>, memory: Memory, now: Progress, fp: Word, idx: nat)
    requires idx < MAX_STACK_DEPTH && Walkable(fp) && memory(ReturnSlot(fp)).Some? && memory(fp).Some?
    requires CallSite(memory(ReturnSlot(fp)).value) != 0
    ensures var first := Drain(Capped(now.pending + FrameLine(images, idx, CallSite(memory(ReturnSlot(fp)).value))),
                               now.script);
      var after := Progress(now.accesses + [ReturnSlot(fp), fp], now.output + first.text, [], first.script);
      OutcomeFrom(images, memory, now, fp, idx) ==
        OutcomeAfter(images, memory, after, if memory(fp).value <= fp then Stop else Next(memory(fp).value), idx)
  {
    TodoStep(images, memory, now.pending, now.script, fp, idx);
    var next := memory(fp).value;
    var line := FrameLine(images, idx, CallSite(memory(ReturnSlot(fp)).value));
    var first := Drain(Capped(now.pending + line), now.script);
    var rest := if next <= fp then STOPPED_WALK else FrameWalk(memory, next, idx + 1);
    var later := if next <= fp then Drained([], first.script)
                 else Todo(images, memory, [], first.script, next, idx + 1);
    Assoc(now.accesses, [ReturnSlot(fp), fp], rest.accesses);
    Assoc(now.output, first.text, later.text);
    NothingAround(now.output + first.text);
    NothingAround(now.accesses + [ReturnSlot(fp), fp]);
  }

  ghost function Snapshot(buf: DumpBuffer, err: Stderr, machine: Machine): Progress
    reads buf, err, machine
  {
    Progress(machine.accesses, err.output, buf.appended, err.script)
  }

  /** What the two words of a frame say. */
  datatype FrameRead = Unwalkable | Unreadable | Bottom | Call(site: Word, next: Word)

  function ReadsOf(memory: Memory, fp: Word): seq<Word> {
    if !Walkable(fp) then [] else if memory(ReturnSlot(fp)).None? then [ReturnSlot(fp)] else [ReturnSlot(fp), fp]
  }

  function FrameAt(memory: Memory, fp: Word): FrameRead {
    if !Walkable(fp) then Unwalkable
    else if memory(ReturnSlot(fp)).None? || memory(fp).None? then Unreadable
    else if CallSite(memory(ReturnSlot(fp)).value) == 0 then Bottom
    else Call(CallSite(memory(ReturnSlot(fp)).value), memory(fp).value)
  }

  method ReadFrame(machine: Machine, fp: Word) returns (frame: FrameRead)
    modifies machine
    ensures frame == FrameAt(machine.memory, fp)
    ensures machine.accesses == old(machine.accesses) + ReadsOf(machine.memory, fp)
  {
    if fp == 0 || fp % 16 != 0 {
      NothingAround(machine.accesses);
      return Unwalkable;
    }
    var lr := machine.Read(fp + 8);
    if lr.None? {
      return Unreadable;
    }
    var next := machine.Read(fp);
    Assoc(old(machine.accesses), [fp + 8], [fp]);
    if next.None? {
      return Unreadable;
    }
    var callSite: Word := if lr.value != 0 then (lr.value - INSTRUCTION_LENGTH) % WORD_LIMIT else 0;
    if callSite == 0 {
      return Bottom;
    }
    return Call(callSite, next.value);
  }

  lemma OutcomeOfNoCall(images: seq<ImageRecord>, memory: Memory, now: Progress, fp: Word, idx: nat)
    requires idx < MAX_STACK_DEPTH && !FrameAt(memory, fp).Call?
    ensures OutcomeFrom(images, memory, now, fp, idx) ==
      Outcome(now.(accesses := now.accesses + ReadsOf(memory, fp)), FrameAt(memory, fp).Unreadable?)
  {
    OutcomeOfStop(images, memory, now, fp, idx);
  }

  /** One turn of the walk: two reads, then a line that goes out at once with all that is pending. */
  method WalkStep(buf: DumpBuffer, err: Stderr, machine: Machine, table: ImageTable, fp: Word, idx: nat)
      returns (step: Step)
    requires buf.Valid() && idx < MAX_STACK_DEPTH
    modifies buf, buf.data, err, machine
    ensures buf.Valid()
    ensures OutcomeAfter(table.images, machine.memory, Snapshot(buf, err, machine), step, idx)
      == OutcomeFrom(table.images, machine.memory, old(Snapshot(buf, err, machine)), fp, idx)
    ensures step.Next? ==> buf.appended == []
  {
    ghost var now := Snapshot(buf, err, machine);
    var frame := ReadFrame(machine, fp);
    if !frame.Call? {
      OutcomeOfNoCall(table.images, machine.memory, now, fp, idx);
      return if frame.Unreadable? then Fault else Stop;
    }
    OutcomeOfFrame(table.images, machine.memory, now, fp, idx);
    FlushFrame(buf, err, table, idx, frame.site);
    if frame.next <= fp {
      return Stop;
    }
    return Next(frame.next);
  }

  /** The walk. The buffer is empty at every read after the first frame. */
  method WalkFrames(buf: DumpBuffer, err: Stderr, machine: Machine, table: ImageTable, start: Word, first: nat)
      returns (faulted: bool)
    requires buf.Valid() && first <= MAX_STACK_DEPTH
    modifies buf, buf.data, err, machine
    ensures buf.Valid()
    ensures Outcome(Snapshot(buf, err, machine), faulted)
      == OutcomeFrom(table.images, machine.memory, old(Snapshot(buf, err, machine)), start, first)
  {
    ghost var images, memory := table.images, machine.memory;
    ghost var target := OutcomeFrom(images, memory, Snapshot(buf, err, machine), start, first);
    var fp, idx := start, first;
    while idx < MAX_STACK_DEPTH
      invariant first <= idx <= MAX_STACK_DEPTH && buf.Valid()
      invariant OutcomeFrom(images, memory, Snapshot(buf, err, machine), fp, idx) == target
      invariant idx > first ==> buf.appended == []
    {
      var step := WalkStep(buf, err, machine, table, fp, idx);
      if !step.Next? {
        return step.Fault?;
      }
      fp := step.fp;
      idx := idx + 1;
    }
    OutcomeOfStop(images, memory, Snapshot(buf, err, machine), fp, idx);
    NothingAround(machine.accesses);
    faulted := false;
  }

  method PrintBeforeWalk(buf: DumpBuffer, table: ImageTable, fp: Word, faultPc: Word) returns (idx: nat)
    requires buf.Valid()
    modifies buf, buf.data
    ensures buf.Valid() && buf.appended == old(buf.appended) + BeforeWalk(table.images, fp, faultPc)
    ensures idx == FirstIndex(faultPc)
  {
    ghost var was := buf.appended;
    ghost var line := if faultPc != 0 then FrameLine(table.images, 0, faultPc) else [];
    buf.AppendLit(CHAIN_TITLE);
    idx := 0;
    if faultPc != 0 {
      PrintFrame(buf, table, idx, faultPc);
      idx := idx + 1;
    }
    ghost var reason := if fp == 0 then NO_CHAIN else [];
    if fp == 0 {
      buf.AppendLit(NO_CHAIN);
    }
    BeforeWalkParts(was, CHAIN_TITLE, line, reason);
  }

  lemma BeforeWalkParts(was: string, title: string, line: string, reason: string)
    ensures was + title + line + reason == was + (title + line + reason)
    ensures line == [] ==> was + title + line == was + title
    ensures reason == [] ==> was + title + line + reason == was + title + line
  {
  }

  /** Text in the buffer on entry goes out with the first walked frame; what is in the buffer
      at the end is what no flush has taken. */
  method DumpBacktrace(buf: DumpBuffer, err: Stderr, machine: Machine, table: ImageTable, fp: Word, faultPc: Word)
      returns (faulted: bool)
    requires buf.Valid()
    modifies buf, buf.data, err, machine
    ensures buf.Valid()
    ensures var walk := FrameWalk(machine.memory, fp, FirstIndex(faultPc));
      && faulted == walk.faulted
      && machine.accesses == old(machine.accesses) + walk.accesses
    ensures var head := old(buf.appended) + BeforeWalk(table.images, fp, faultPc);
      var lines := WalkLines(table.images, machine.memory, fp, faultPc);
      var drained := DrainAll(Flushes(head, lines, None), old(err.script));
      && err.output == old(err.output) + drained.text
      && err.script == drained.script
      && buf.appended == if lines == [] then head else []
  {
    var idx := PrintBeforeWalk(buf, table, fp, faultPc);
    if fp == 0 {
      return false;
    }
    faulted := WalkFrames(buf, err, machine, table, fp, idx);
  }

  /** The end of a dump: the last flush, with whatever is still pending, unless a read faulted. */
  lemma LastFlush(head: string, lines: seq<string>, footer: string, script: seq<WriteOutcome>)
    ensures var walked := DrainAll(Flushes(head, lines, None), script);
      var last := Drain(Capped((if lines == [] then head else []) + footer), walked.script);
      DrainAll(Flushes(head, lines, Some(footer)), script) == Drained(walked.text + last.text, last.script)
  {
    var last := (if lines == [] then head else []) + footer;
    assert lines != [] ==> last == footer;
    assert Flushes(head, lines, Some(footer)) == Flushes(head, lines, None) + [last];
    DrainAllAppend(Flushes(head, lines, None), [last], script);
    var walked := DrainAll(Flushes(head, lines, None), script);
    DrainAllSingle(last, walked.script);
  }

  lemma DrainAllSingle(piece: string, script: seq<WriteOutcome>)
    ensures DrainAll([piece], script) == Drain(Capped(piece), script)
  {
    assert [piece][1..] == [];
    assert DrainAll([], Drain(Capped(piece), script).script).text == [];
  }

  method Close(buf: DumpBuffer, err: Stderr, footer: string,
               ghost output: string, ghost script: seq<WriteOutcome>, ghost head: string, ghost lines: seq<string>)
    requires buf.Valid() && buf.appended == if lines == [] then head else []
    requires var walked := DrainAll(Flushes(head, lines, None), script);
      err.output == output + walked.text && err.script == walked.script
    modifies buf, buf.data, err
    ensures var all := DrainAll(Flushes(head, lines, Some(footer)), script);
      err.output == output + all.text && err.script == all.script
  {
    LastFlush(head, lines, footer, script);
    ghost var walked := DrainAll(Flushes(head, lines, None), script);
    Assoc(output, walked.text, Drain(Capped(buf.appended + footer), walked.script).text);
    buf.AppendLit(footer);
    buf.FlushDump(err);
  }

  /** The process-wide handler state: the loaded images, standard error, and the re-entrancy guard. */
  class BacktraceHandler {
    const table: ImageTable
    const err: Stderr
    var inHandler: bool

    constructor (table: ImageTable, err: Stderr)
      ensures this.table == table && this.err == err && !inHandler
    {
      this.table, this.err, inHandler := table, err, false;
    }

    /** The common part of both entry points, after `buf` has received the opening text. */
    method DumpAndClose(buf: DumpBuffer, fp: Word, faultPc: Word, footer: string, machine: Machine)
        returns (faulted: bool)
      requires buf.Valid()
      modifies buf, buf.data, err, machine
      ensures var walk := FrameWalk(machine.memory, fp, FirstIndex(faultPc));
        var pieces := DumpFlushes(old(buf.appended), table.images, machine.memory, fp, faultPc, footer);
        && faulted == walk.faulted
        && machine.accesses == old(machine.accesses) + walk.accesses
        && err.output == old(err.output) + DrainAll(pieces, old(err.script)).text
        && err.script == DrainAll(pieces, old(err.script)).script
    {
      ghost var head := buf.appended + BeforeWalk(table.images, fp, faultPc);
      ghost var lines := WalkLines(table.images, machine.memory, fp, faultPc);
      ghost var output, script := err.output, err.script;
      faulted := DumpBacktrace(buf, err, machine, table, fp, faultPc);
      if !faulted {
        Close(buf, err, footer, output, script, head, lines);
      }
    }

    /** A dump started while another is under way outputs nothing. A faulting read ends the dump by
        way of a nested signal, which finds the guard set and is forwarded: the guard stays set. */
    method CrashHandler(sig: Int32, info: Option<SignalInfo>, context: Option<Context>, machine: Machine)
        returns (faulted: bool)
      modifies this, err, machine
      ensures old(inHandler) ==>
        && inHandler && !faulted
        && err.output == old(err.output) && err.script == old(err.script) && machine.accesses == old(machine.accesses)
      ensures !old(inHandler) ==>
        var ctx := if context.Some? then context.value else Context(0, 0);
        var walk := FrameWalk(machine.memory, ctx.fp, FirstIndex(ctx.pc));
        var opening := BANNER + SignalLine(sig, info);
        var pieces := DumpFlushes(opening, table.images, machine.memory, ctx.fp, ctx.pc, CRASH_FOOTER);
        && faulted == inHandler == walk.faulted
        && machine.accesses == old(machine.accesses) + walk.accesses
        && err.output == old(err.output) + DrainAll(pieces, old(err.script)).text
        && err.script == DrainAll(pieces, old(err.script)).script
    {
      if inHandler {
        return false;
      }
      inHandler := true;
      var fp, faultPc := 0, 0;
      if context.Some? {
        fp, faultPc := context.value.fp, context.value.pc;
      }
      var dump := new DumpBuffer();
      DumpSignalHeader(dump, sig, info);
      assert [] + BANNER == BANNER;
      faulted := DumpAndClose(dump, fp, faultPc, CRASH_FOOTER, machine);
      if !faulted {
        inHandler := false;
      }
    }

    /** A dump on request, from a given frame pointer; a zero one still prints the title and the reason. */
    method DumpBacktraceFromFp(fp: Word, machine: Machine) returns (faulted: bool)
      modifies this, err, machine
      ensures old(inHandler) ==>
        && inHandler && !faulted
        && err.output == old(err.output) && err.script == old(err.script) && machine.accesses == old(machine.accesses)
      ensures !old(inHandler) ==>
        var walk := FrameWalk(machine.memory, fp, 0);
        var pieces := DumpFlushes([], table.images, machine.memory, fp, 0, MANUAL_FOOTER);
        && faulted == inHandler == walk.faulted
        && machine.accesses == old(machine.accesses) + walk.accesses
        && err.output == old(err.output) + DrainAll(pieces, old(err.script)).text
        && err.script == DrainAll(pieces, old(err.script)).script
      ensures fp == 0 && AllReliable(old(err.script)) ==> (err.output == old(err.output) <==> old(inHandler))
    {
      if inHandler {
        return false;
      }
      inHandler := true;
      if fp == 0 && AllReliable(err.script) {
        ManualDumpOfZero(table.images, machine.memory, err.script);
        assert |CHAIN_TITLE| > 0;
      }
      var dump := new DumpBuffer();
      faulted := DumpAndClose(dump, fp, 0, MANUAL_FOOTER, machine);
      if !faulted {
        inHandler := false;
      }
    }
  }
}
