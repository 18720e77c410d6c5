/** The text of a crash report, independent of buffers and writes, and how much of it survives
    a given sequence of flushes. */
module CrashReports {
  import opened Prelude
  import opened Numerals
  import opened DumpBuffers
  import opened ImageTables
  import opened FrameWalks

  // Darwin signal numbers.
  const SIGILL := 4
  const SIGABRT := 6
  const SIGFPE := 8
  const SIGBUS := 10
  const SIGSEGV := 11

  datatype SignalInfo = SignalInfo(code: Int32, address: Word)

  /** Saved frame pointer and program counter of the interrupted thread. */
  datatype Context = Context(fp: Word, pc: Word)

  const BANNER: string := "\n================ ArkUI-x native crash ================\n"
  const CHAIN_TITLE: string := "Backtrace (frame-pointer chain):\n"
  const NO_CHAIN: string := "  fp == 0, cannot walk the chain\n"
  const CRASH_FOOTER: string := "======================================================\n"
  const MANUAL_FOOTER: string := "(end of manual backtrace)\n"

  function SignalName(sig: int): string {
    if sig == SIGSEGV then "SIGSEGV"
    else if sig == SIGABRT then "SIGABRT"
    else if sig == SIGBUS then "SIGBUS"
    else if sig == SIGILL then "SIGILL"
    else if sig == SIGFPE then "SIGFPE"
    else "?"
  }

  function FaultAddress(info: Option<SignalInfo>): string {
    if info.Some? && info.value.address != 0
    then ", fault addr " + "0x" + Numeral(info.value.address, Hexadecimal)
    else []
  }

  function SignalLine(sig: Int32, info: Option<SignalInfo>): string {
    "Fatal signal " + Numeral(sig % 0x1_0000_0000, Decimal) + " (" + SignalName(sig) + "), si_code "
    + SignedNumeral(if info.Some? then info.value.code else 0) + FaultAddress(info) + ['\n']
  }

  /** The static address of `pc`: the slide taken off, in 64-bit arithmetic. */
  function Unslid(pc: Word, slide: Int64): (vaddr: Word)
    ensures (vaddr + slide) % WORD_LIMIT == pc
  {
    (pc - slide) % WORD_LIMIT
  }

  function ImagePart(images: seq<ImageRecord>, pc: Word): string {
    match Containing(images, pc)
    case None => []
    case Some(img) => " " + UpToNul(img.name) + "+0x" + Numeral(Unslid(pc, img.slide), Hexadecimal)
  }

  function FrameLine(images: seq<ImageRecord>, idx: UInt32, pc: Word): string {
    "  #" + Numeral(idx, Decimal) + " pc=" + "0x" + Numeral(pc, Hexadecimal) + ImagePart(images, pc) + ['\n']
  }

  function FrameLines(images: seq<ImageRecord>, idx: nat, callSites: seq<Word>): (lines: seq<string>)
    requires idx + |callSites| <= MAX_STACK_DEPTH
    ensures |lines| == |callSites|
    ensures forall i :: 0 <= i < |lines| ==> lines[i] == FrameLine(images, idx + i, callSites[i])
    decreases |callSites|
  {
    if callSites == [] then []
    else [FrameLine(images, idx, callSites[0])] + FrameLines(images, idx + 1, callSites[1..])
  }

  /** The report up to the walk: the title, the faulting instruction, or why there is no walk. */
  function BeforeWalk(images: seq<ImageRecord>, fp: Word, faultPc: Word): string {
    CHAIN_TITLE
    + (if faultPc != 0 then FrameLine(images, 0, faultPc) else [])
    + (if fp == 0 then NO_CHAIN else [])
  }

  function FirstIndex(faultPc: Word): nat {
    if faultPc != 0 then 1 else 0
  }

  /** The lines of a walk from `fp` whose first line has number `idx`. */
  function LinesFrom(images: seq<ImageRecord>, memory: Memory, fp: Word, idx: nat): seq<string>
    requires idx <= MAX_STACK_DEPTH
  {
    WalkIsBounded(memory, fp, idx);
    FrameLines(images, idx, FrameWalk(memory, fp, idx).callSites)
  }

  /** Call sites are numbered after the faulting instruction, when there is one. */
  function WalkLines(images: seq<ImageRecord>, memory: Memory, fp: Word, faultPc: Word): seq<string> {
    LinesFrom(images, memory, fp, FirstIndex(faultPc))
  }

  function Concat(pieces: seq<string>): string {
    if pieces == [] then [] else pieces[0] + Concat(pieces[1..])
  }

  // ----- Reading a report back -----

  /** A line reads as its number, its address and, if an image contains the address, that image's name and an
      address that the image's slide takes back to it. */
  lemma FrameLineReads(images: seq<ImageRecord>, idx: UInt32, pc: Word)
      returns (number: string, address: string, image: string)
    ensures FrameLine(images, idx, pc) == "  #" + number + (" pc=0x" + address) + image + ['\n']
    ensures IsNumeral(number, Decimal) && ReadNumeral(number, Decimal) == idx
    ensures IsNumeral(address, Hexadecimal) && ReadNumeral(address, Hexadecimal) == pc
    ensures ImageReads(images, pc, image)
  {
    number, address, image := Numeral(idx, Decimal), Numeral(pc, Hexadecimal), ImagePart(images, pc);
    NumeralRoundTrip(idx, Decimal);
    NumeralRoundTrip(pc, Hexadecimal);
    ImagePartReads(images, pc);
    AddressMark();
    AddressRegroups("  #" + number, " pc=", "0x", " pc=0x", address);
  }

  lemma AddressMark()
    ensures " pc=" + "0x" == " pc=0x"
  {
  }

  lemma AddressRegroups(before: string, mark: string, prefix: string, joined: string, address: string)
    requires mark + prefix == joined
    ensures before + mark + prefix + address == before + (joined + address)
  {
  }

  /** The image with the highest load address not above `pc`, if any, as a name and a static address. */
  ghost predicate ImageReads(images: seq<ImageRecord>, pc: Word, text: string) {
    if forall i :: 0 <= i < |images| ==> images[i].loadAddr > pc then text == []
    else exists img, address :: Names(images, pc, text, img, address)
  }

  predicate Names(images: seq<ImageRecord>, pc: Word, text: string, img: ImageRecord, address: string) {
    && Closest(images, pc, img) && text == " " + UpToNul(img.name) + "+0x" + address
    && IsNumeral(address, Hexadecimal)
    && (ReadNumeral(address, Hexadecimal) + img.slide) % 0x1_0000_0000_0000_0000 == pc
  }

  predicate Closest(images: seq<ImageRecord>, pc: Word, img: ImageRecord) {
    && img in images && img.loadAddr <= pc
    && forall i :: 0 <= i < |images| && images[i].loadAddr <= pc ==> images[i].loadAddr <= img.loadAddr
  }

  lemma ImagePartReads(images: seq<ImageRecord>, pc: Word)
    ensures ImageReads(images, pc, ImagePart(images, pc))
  {
    var found := Containing(images, pc);
    if found.Some? {
      var i :| 0 <= i < |images| && images[i] == found.value;
      StaticAddressReads(images, pc, found.value);
    }
  }

  lemma StaticAddressReads(images: seq<ImageRecord>, pc: Word, img: ImageRecord)
    requires Containing(images, pc) == Some(img)
    ensures Names(images, pc, ImagePart(images, pc), img, Numeral(Unslid(pc, img.slide), Hexadecimal))
  {
    NumeralRoundTrip(Unslid(pc, img.slide), Hexadecimal);
  }

  /** The signal line reads as the unsigned signal number, the signed code, and the fault address if it is not 0. */
  lemma SignalLineReads(sig: Int32, info: Option<SignalInfo>) returns (number: string, code: string, fault: string)
    ensures SignalLine(sig, info)
         == "Fatal signal " + number + " (" + SignalName(sig) + "), si_code " + code + fault + ['\n']
    ensures IsNumeral(number, Decimal) && (sig - ReadNumeral(number, Decimal)) % 0x1_0000_0000 == 0
    ensures ReadNumeral(number, Decimal) < 0x1_0000_0000
    ensures ReadSigned(code) == if info.Some? then info.value.code else 0
    ensures FaultReads(info, fault)
  {
    number, fault := Numeral(sig % 0x1_0000_0000, Decimal), FaultAddress(info);
    code := SignedNumeral(if info.Some? then info.value.code else 0);
    NumeralRoundTrip(sig % 0x1_0000_0000, Decimal);
    SignedRoundTrip(if info.Some? then info.value.code else 0);
    FaultAddressReads(info);
  }

  ghost predicate FaultReads(info: Option<SignalInfo>, text: string) {
    if info.None? || info.value.address == 0 then text == []
    else
      exists address :: text == ", fault addr 0x" + address && IsNumeral(address, Hexadecimal)
                        && ReadNumeral(address, Hexadecimal) == info.value.address
  }

  lemma FaultAddressReads(info: Option<SignalInfo>)
    ensures FaultReads(info, FaultAddress(info))
  {
    if info.Some? && info.value.address != 0 {
      NumeralRoundTrip(info.value.address, Hexadecimal);
      assert ", fault addr " + "0x" == ", fault addr 0x";
    }
  }

  lemma SignalNames(sig: int)
    ensures SignalName(11) == "SIGSEGV" && SignalName(6) == "SIGABRT" && SignalName(10) == "SIGBUS"
    ensures SignalName(4) == "SIGILL" && SignalName(8) == "SIGFPE"
    ensures sig !in {4, 6, 8, 10, 11} ==> SignalName(sig) == "?"
  {
  }

  /** The walked lines are those of the call sites, in order, numbered from 0, or from 1 if the faulting instruction
      is known and has line 0; the number of lines with it is at most 64. */
  lemma WalkLinesAre(images: seq<ImageRecord>, memory: Memory, fp: Word, faultPc: Word)
    ensures var first := if faultPc != 0 then 1 else 0;
      var lines, sites := WalkLines(images, memory, fp, faultPc), FrameWalk(memory, fp, first).callSites;
      && |lines| == |sites| <= 64 - first
      && (forall i :: 0 <= i < |lines| ==> lines[i] == FrameLine(images, first + i, sites[i]))
      && BeforeWalk(images, fp, faultPc)
         == CHAIN_TITLE + (if faultPc != 0 then FrameLine(images, 0, faultPc) else [])
            + (if fp == 0 then NO_CHAIN else [])
  {
    WalkIsBounded(memory, fp, FirstIndex(faultPc));
  }

  // ----- Flushes -----

  /** What each flush of a dump carries: the first walked line takes everything before it along,
      every later line goes alone, and the end of the report goes last unless a read faulted. */
  function Flushes(head: string, lines: seq<string>, tail: Option<string>): seq<string> {
    if lines == [] then (if tail.Some? then [head + tail.value] else [])
    else [head + lines[0]] + lines[1..] + (if tail.Some? then [tail.value] else [])
  }

  /** The effect of flushing pieces one after the other over a sequence of write outcomes. */
  function DrainAll(pieces: seq<string>, script: seq<WriteOutcome>): Drained {
    if pieces == [] then Drained([], script)
    else
      var first := Drain(Capped(pieces[0]), script);
      var rest := DrainAll(pieces[1..], first.script);
      Drained(first.text + rest.text, rest.script)
  }

  lemma {:induction false} DrainAllAppend(a: seq<string>, b: seq<string>, script: seq<WriteOutcome>)
    ensures var first := DrainAll(a, script);
      var rest := DrainAll(b, first.script);
      DrainAll(a + b, script) == Drained(first.text + rest.text, rest.script)
    decreases |a|
  {
    if a == [] {
      NothingAround(b);
      NothingAround(DrainAll(b, script).text);
    } else {
      var head := Drain(Capped(a[0]), script);
      HeadOfAppend(a, b);
      DrainAllAppend(a[1..], b, head.script);
      var rest := DrainAll(a[1..], head.script);
      Assoc(head.text, rest.text, DrainAll(b, rest.script).text);
    }
  }

  lemma {:induction false} ConcatAppend(a: seq<string>, b: seq<string>)
    ensures Concat(a + b) == Concat(a) + Concat(b)
    decreases |a|
  {
    if a == [] {
      NothingAround(b);
    } else {
      HeadOfAppend(a, b);
      ConcatAppend(a[1..], b);
      Assoc(a[0], Concat(a[1..]), Concat(b));
    }
  }

  /** With reliable writes and pieces below the cap, everything comes out. */
  lemma {:induction false} DrainAllReliable(pieces: seq<string>, script: seq<WriteOutcome>)
    requires AllReliable(script)
    requires forall i :: 0 <= i < |pieces| ==> |pieces[i]| <= DUMP_BUF_SIZE - 1
    ensures DrainAll(pieces, script).text == Concat(pieces)
    ensures AllReliable(DrainAll(pieces, script).script)
    decreases |pieces|
  {
    if pieces != [] {
      DrainReliable(pieces[0], script);
      DrainAllReliable(pieces[1..], Drain(pieces[0], script).script);
    }
  }

  lemma FlushesConcat(head: string, lines: seq<string>, tail: Option<string>)
    ensures Concat(Flushes(head, lines, tail)) ==
      (if lines == [] && tail.None? then [] else head + Concat(lines)) + if tail.Some? then tail.value else []
  {
    var end := if tail.Some? then [tail.value] else [];
    assert Concat(end) == if tail.Some? then tail.value else [] by {
      if tail.Some? { ConcatSingle(tail.value); }
    }
    if lines == [] {
      if tail.Some? {
        ConcatSingle(head + tail.value);
        NothingAround(head);
      }
    } else {
      ConcatAppend([head + lines[0]] + lines[1..], end);
      ConcatCons(head + lines[0], lines[1..]);
      Assoc(head, lines[0], Concat(lines[1..]));
    }
  }

  lemma ConcatCons(first: string, rest: seq<string>)
    ensures Concat([first] + rest) == first + Concat(rest)
  {
    assert ([first] + rest)[1..] == rest;
  }

  lemma ConcatSingle(piece: string)
    ensures Concat([piece]) == piece
  {
    assert [piece][1..] == [];
    NothingAround(piece);
  }

  lemma NumeralBounds(w: Word, v: UInt32)
    ensures |Numeral(w, Hexadecimal)| <= 16 && |Numeral(v, Decimal)| <= 10
  {
    WordPowers();
    NumeralLength(w, Hexadecimal, 16);
    NumeralLength(v, Decimal, 10);
  }

  lemma FrameLineBound(images: seq<ImageRecord>, idx: UInt32, pc: Word)
    ensures |FrameLine(images, idx, pc)| <= 184
  {
    NumeralBounds(pc, idx);
    match Containing(images, pc)
    case None =>
    case Some(img) =>
      NoNulInside(img.name);
      NumeralBounds(Unslid(pc, img.slide), 0);
      assert |ImagePart(images, pc)| <= 148;
  }

  lemma SignalLineBound(sig: Int32, info: Option<SignalInfo>)
    ensures |SignalLine(sig, info)| <= 100
  {
    SignalPartBounds(sig, info);
    NumeralBounds(0, sig % 0x1_0000_0000);
    var code := if info.Some? then info.value.code else 0;
    NumeralBounds(0, if code < 0 then -code else code);
  }

  lemma SignalPartBounds(sig: int, info: Option<SignalInfo>)
    ensures |SignalName(sig)| <= 7 && |FaultAddress(info)| <= 31
  {
    NumeralBounds(if info.Some? then info.value.address else 0, 0);
  }

  lemma BeforeWalkBound(images: seq<ImageRecord>, fp: Word, faultPc: Word)
    ensures |BeforeWalk(images, fp, faultPc)| <= 300
  {
    FrameLineBound(images, 0, faultPc);
  }

  lemma {:induction false} WalkLinesBound(images: seq<ImageRecord>, memory: Memory, fp: Word, faultPc: Word)
    ensures forall i :: 0 <= i < |WalkLines(images, memory, fp, faultPc)| ==>
      |WalkLines(images, memory, fp, faultPc)[i]| <= 184
  {
    WalkIsBounded(memory, fp, FirstIndex(faultPc));
    var sites := FrameWalk(memory, fp, FirstIndex(faultPc)).callSites;
    forall i | 0 <= i < |sites|
      ensures |WalkLines(images, memory, fp, faultPc)[i]| <= 184
    {
      FrameLineBound(images, FirstIndex(faultPc) + i, sites[i]);
    }
  }

  /** The whole report of one dump, as it would be without buffer, writes or faults:
      `opening` is what precedes the backtrace and `footer` what closes it. */
  function Report(opening: string, images: seq<ImageRecord>, memory: Memory, fp: Word, faultPc: Word,
                  footer: string): string {
    opening + BeforeWalk(images, fp, faultPc) + Concat(WalkLines(images, memory, fp, faultPc)) + footer
  }

  /** The pieces flushed by one dump. */
  function DumpFlushes(opening: string, images: seq<ImageRecord>, memory: Memory, fp: Word, faultPc: Word,
                       footer: string): seq<string> {
    var faulted := FrameWalk(memory, fp, FirstIndex(faultPc)).faulted;
    Flushes(opening + BeforeWalk(images, fp, faultPc), WalkLines(images, memory, fp, faultPc),
            if faulted then None else Some(footer))
  }

  /** Between two flushes the buffer never comes near its cap, so no piece is cut. */
  lemma {:induction false} FlushesFit(opening: string, images: seq<ImageRecord>, memory: Memory, fp: Word,
                                      faultPc: Word, footer: string)
    requires |opening| <= 1000 && |footer| <= 1000
    ensures forall piece :: piece in DumpFlushes(opening, images, memory, fp, faultPc, footer) ==>
      |piece| <= 2300 < DUMP_BUF_SIZE - 1 && Capped(piece) == piece
  {
    var head := opening + BeforeWalk(images, fp, faultPc);
    var lines := WalkLines(images, memory, fp, faultPc);
    var faulted := FrameWalk(memory, fp, FirstIndex(faultPc)).faulted;
    BeforeWalkBound(images, fp, faultPc);
    WalkLinesBound(images, memory, fp, faultPc);
    PiecesFit(head, lines, if faulted then None else Some(footer));
  }

  lemma PiecesFit(head: string, lines: seq<string>, tail: Option<string>)
    requires |head| <= 1300 && (tail.Some? ==> |tail.value| <= 1000)
    requires forall i :: 0 <= i < |lines| ==> |lines[i]| <= 184
    ensures forall piece :: piece in Flushes(head, lines, tail) ==> |piece| <= 2300
  {
  }

  /** With reliable writes a dump without a fault outputs the full report; with a fault it outputs
      everything up to the fault if at least one frame was walked before, and nothing at all otherwise. */
  lemma {:induction false} DumpOutput(opening: string, images: seq<ImageRecord>, memory: Memory, fp: Word,
                                      faultPc: Word,
                   footer: string, script: seq<WriteOutcome>)
    requires |opening| <= 1000 && |footer| <= 1000 && AllReliable(script)
    ensures var walk := FrameWalk(memory, fp, FirstIndex(faultPc));
      DrainAll(DumpFlushes(opening, images, memory, fp, faultPc, footer), script).text ==
        if !walk.faulted then Report(opening, images, memory, fp, faultPc, footer)
        else if walk.callSites == [] then []
        else Report(opening, images, memory, fp, faultPc, [])
  {
    var walk := FrameWalk(memory, fp, FirstIndex(faultPc));
    WalkIsBounded(memory, fp, FirstIndex(faultPc));
    var head := opening + BeforeWalk(images, fp, faultPc);
    var lines := WalkLines(images, memory, fp, faultPc);
    var tail := if walk.faulted then None else Some(footer);
    FlushesFit(opening, images, memory, fp, faultPc, footer);
    FlushedInFull(head, lines, tail, script);
    NothingAround(head + Concat(lines));
  }

  lemma {:induction false} FlushedInFull(head: string, lines: seq<string>, tail: Option<string>,
                                         script: seq<WriteOutcome>)
    requires AllReliable(script)
    requires forall piece :: piece in Flushes(head, lines, tail) ==> |piece| <= 2300
    ensures DrainAll(Flushes(head, lines, tail), script).text ==
      if tail.Some? then head + Concat(lines) + tail.value
      else if lines == [] then []
      else head + Concat(lines)
  {
    FlushesConcat(head, lines, tail);
    DrainAllReliable(Flushes(head, lines, tail), script);
    NothingAround(head + Concat(lines));
  }

  /** Flushing frame by frame loses nothing that was reported before a fault, except when the very
      first dereference of the walk faults: then the opening and the faulting instruction are lost. */
  lemma {:induction false} FaultLosesIff(opening: string, images: seq<ImageRecord>, memory: Memory, fp: Word,
                                         faultPc: Word,
                      footer: string, script: seq<WriteOutcome>)
    requires |opening| <= 1000 && |footer| <= 1000 && AllReliable(script)
    requires FrameWalk(memory, fp, FirstIndex(faultPc)).faulted
    ensures DrainAll(DumpFlushes(opening, images, memory, fp, faultPc, footer), script).text
              == Report(opening, images, memory, fp, faultPc, [])
            <==> memory(ReturnSlot(fp)).Some? && memory(fp).Some?
  {
    DumpOutput(opening, images, memory, fp, faultPc, footer, script);
    WalkIsBounded(memory, fp, FirstIndex(faultPc));
    assert |BeforeWalk(images, fp, faultPc)| >= |CHAIN_TITLE| > 0;
  }

  /** What a crash dump outputs when writes are reliable: the whole report if no read faults, whatever the
      signal, the images and the memory; up to the fault if some frame was walked; and else nothing. */
  lemma {:induction false} CrashOutput(sig: Int32, info: Option<SignalInfo>, images: seq<ImageRecord>, memory: Memory,
                                       ctx: Context,
                    script: seq<WriteOutcome>)
    requires AllReliable(script)
    ensures var walk := FrameWalk(memory, ctx.fp, FirstIndex(ctx.pc));
      var opening := BANNER + SignalLine(sig, info);
      DrainAll(DumpFlushes(opening, images, memory, ctx.fp, ctx.pc, CRASH_FOOTER), script).text ==
        if !walk.faulted then Report(opening, images, memory, ctx.fp, ctx.pc, CRASH_FOOTER)
        else if walk.callSites == [] then []
        else Report(opening, images, memory, ctx.fp, ctx.pc, [])
  {
    SignalLineBound(sig, info);
    DumpOutput(BANNER + SignalLine(sig, info), images, memory, ctx.fp, ctx.pc, CRASH_FOOTER, script);
  }

  /** Contrary to the public header, a dump from a zero frame pointer is not a no-op: with reliable writes
      it outputs a title, a reason and a footer, and reads nothing. */
  lemma {:induction false} ManualDumpOfZero(images: seq<ImageRecord>, memory: Memory, script: seq<WriteOutcome>)
    requires AllReliable(script)
    ensures FrameWalk(memory, 0, 0) == STOPPED_WALK
    ensures DrainAll(DumpFlushes([], images, memory, 0, 0, MANUAL_FOOTER), script).text
              == CHAIN_TITLE + NO_CHAIN + MANUAL_FOOTER
  {
    DumpOutput([], images, memory, 0, 0, MANUAL_FOOTER, script);
    ReportOfZero(images, memory);
  }

  lemma ReportOfZero(images: seq<ImageRecord>, memory: Memory)
    ensures Report([], images, memory, 0, 0, MANUAL_FOOTER) == CHAIN_TITLE + NO_CHAIN + MANUAL_FOOTER
  {
    assert WalkLines(images, memory, 0, 0) == [];
    NothingAround(CHAIN_TITLE);
    NothingAround(CHAIN_TITLE + NO_CHAIN);
  }
}
