/** The paragraph fix-up of the span list and its effect on the meaning: only newlines that end a
    paragraph can change their styles, and only to those of a span that was extended over them. */
module HtmlFixUp {
  import opened Prelude
  import opened HtmlModel
  import opened HtmlMeaning

  datatype Interval = Interval(start: nat, end: nat)

  /** The intervals of all paragraphs, in list order. */
  function Paragraphs(infos: seq<SpanInfo>): seq<Interval> {
    if infos == [] then []
    else
      var last := infos[|infos| - 1];
      Paragraphs(infos[..|infos| - 1]) + if last.htmlType == Paragraph then [Interval(last.start, last.end)] else []
  }

  predicate CanExtend(info: SpanInfo) {
    info.htmlType != Paragraph && info.htmlType != Image
  }

  predicate Extendable(info: SpanInfo, end: nat) {
    CanExtend(info) && end == info.end + 1
  }

  /** The first span that ends one position before `end` is extended to it. */
  function ExtendFirst(infos: seq<SpanInfo>, end: nat): (after: seq<SpanInfo>)
    ensures |after| == |infos|
  {
    if infos == [] then []
    else if Extendable(infos[0], end) then [infos[0].(end := end)] + infos[1..]
    else [infos[0]] + ExtendFirst(infos[1..], end)
  }

  /** One turn per paragraph. */
  function ExtendAll(infos: seq<SpanInfo>, paragraphs: seq<Interval>): (after: seq<SpanInfo>)
    ensures |after| == |infos|
  {
    if paragraphs == [] then infos
    else
      var n := |paragraphs| - 1;
      ExtendFirst(ExtendAll(infos, paragraphs[..n]), paragraphs[n].end)
  }

  function FixUp(infos: seq<SpanInfo>): seq<SpanInfo> {
    ExtendAll(infos, Paragraphs(infos))
  }

  predicate IsParagraph(infos: seq<SpanInfo>, j: int, p: Interval) {
    0 <= j < |infos| && infos[j].htmlType == Paragraph && infos[j].start == p.start && infos[j].end == p.end
  }

  lemma {:induction false} ParagraphOf(infos: seq<SpanInfo>, p: Interval) returns (j: nat)
    requires p in Paragraphs(infos)
    ensures IsParagraph(infos, j, p)
    decreases |infos|
  {
    var n := |infos| - 1;
    if p in Paragraphs(infos[..n]) {
      j := ParagraphOf(infos[..n], p);
    } else {
      j := n;
    }
  }

  /** One paragraph extends at most one span, the first that ends one position before it, by one position. */
  lemma {:induction false} ExtendFirstIsOneStep(infos: seq<SpanInfo>, end: nat) returns (i: int)
    ensures -1 <= i < |infos| && forall j :: 0 <= j < (if i == -1 then |infos| else i) ==> !Extendable(infos[j], end)
    ensures i == -1 ==> ExtendFirst(infos, end) == infos
    ensures i >= 0 ==> Extendable(infos[i], end) && ExtendFirst(infos, end) == infos[i := infos[i].(end := end)]
    decreases |infos|
  {
    if infos == [] {
      i := -1;
    } else if Extendable(infos[0], end) {
      i := 0;
    } else {
      var k := ExtendFirstIsOneStep(infos[1..], end);
      i := if k == -1 then -1 else k + 1;
      assert forall j :: 0 < j < |infos| ==> infos[j] == infos[1..][j - 1];
      if k >= 0 {
        UpdateBehind(infos, k, infos[i].(end := end));
      }
    }
  }

  lemma UpdateBehind<T>(s: seq<T>, k: nat, x: T)
    requires k + 1 < |s|
    ensures [s[0]] + s[1..][k := x] == s[k + 1 := x]
  {
  }

  predicate EndsAt(paragraphs: seq<Interval>, end: nat) {
    exists p :: p in paragraphs && p.end == end
  }

  /** `after` is `infos` with some text and anchor spans extended over paragraph newlines. */
  predicate Extends(infos: seq<SpanInfo>, after: seq<SpanInfo>, paragraphs: seq<Interval>) {
    && |after| == |infos|
    && forall i :: 0 <= i < |infos| ==> SpanExtends(infos[i], after[i], paragraphs)
  }

  predicate SpanExtends(info: SpanInfo, after: SpanInfo, paragraphs: seq<Interval>) {
    && after == info.(end := after.end) && info.end <= after.end
    && (info.htmlType == Paragraph || info.htmlType == Image ==> after == info)
    && (forall e: nat :: info.end < e <= after.end ==> EndsAt(paragraphs, e))
  }

  lemma MoreParagraphs(info: SpanInfo, after: SpanInfo, paragraphs: seq<Interval>, n: nat)
    requires n <= |paragraphs| && SpanExtends(info, after, paragraphs[..n])
    ensures SpanExtends(info, after, paragraphs)
  {
    forall e: nat | info.end < e <= after.end
      ensures EndsAt(paragraphs, e)
    {
      assert EndsAt(paragraphs[..n], e);
      var p :| p in paragraphs[..n] && p.end == e;
      assert p in paragraphs;
    }
  }

  /** The fix-up keeps the list, all starts, and all paragraph and image spans, and covers no new position
      but the last of some paragraph. */
  lemma {:induction false} ExtendAllExtends(infos: seq<SpanInfo>, paragraphs: seq<Interval>)
    ensures Extends(infos, ExtendAll(infos, paragraphs), paragraphs)
    decreases |paragraphs|
  {
    if paragraphs != [] {
      var n := |paragraphs| - 1;
      ExtendAllExtends(infos, paragraphs[..n]);
      var before := ExtendAll(infos, paragraphs[..n]);
      var taken := ExtendFirstIsOneStep(before, paragraphs[n].end);
      assert paragraphs[n] in paragraphs;
      forall i | 0 <= i < |infos|
        ensures SpanExtends(infos[i], ExtendAll(infos, paragraphs)[i], paragraphs)
      {
        MoreParagraphs(infos[i], before[i], paragraphs, n);
        assert EndsAt(paragraphs, paragraphs[n].end);
      }
    }
  }

  /** No extended span passes the total length. */
  lemma FixUpInBounds(boxes: seq<Box>)
    ensures var infos := Spans(boxes, 0);
      Extends(infos, FixUp(infos), Paragraphs(infos))
      && forall i :: 0 <= i < |infos| ==> Within(FixUp(infos)[i], 0, |Flat(boxes)|)
  {
    var infos := Spans(boxes, 0);
    ExtendAllExtends(infos, Paragraphs(infos));
    SpansAreLaminar(boxes, 0);
    forall i | 0 <= i < |infos|
      ensures Within(FixUp(infos)[i], 0, |Flat(boxes)|)
    {
      var info, after := infos[i], FixUp(infos)[i];
      assert info in infos && SpanExtends(info, after, Paragraphs(infos));
      if after.end > info.end {
        assert EndsAt(Paragraphs(infos), after.end);
        var p :| p in Paragraphs(infos) && p.end == after.end;
        var j := ParagraphOf(infos, p);
        assert infos[j] in infos;
      }
    }
  }

  // ----- Which span each paragraph takes -----

  /** Later paragraphs end later, and none is without its newline. */
  predicate ParagraphsRise(infos: seq<SpanInfo>) {
    && (forall i :: 0 <= i < |infos| && infos[i].htmlType == Paragraph ==> infos[i].start < infos[i].end)
    && forall i, j :: 0 <= i < j < |infos| && infos[i].htmlType == Paragraph == infos[j].htmlType ==>
         infos[i].end < infos[j].end
  }

  /** What the walk makes of any document. */
  predicate WellOrdered(infos: seq<SpanInfo>) {
    && Laminar(infos) && ParagraphsRise(infos)
    && forall i :: 0 <= i < |infos| ==> infos[i].start <= infos[i].end
  }

  lemma {:induction false} SpansRise(boxes: seq<Box>, pos: nat)
    requires AllWellShaped(boxes)
    ensures ParagraphsRise(Spans(boxes, pos))
    decreases boxes
  {
    if boxes == [] {
      assert Spans(boxes, pos) == [];
    } else {
      var box, mid := boxes[0], pos + |FlatBox(boxes[0])|;
      var rest := Spans(boxes[1..], mid);
      assert Spans(boxes, pos) == SpansBox(box, pos) + rest;
      BoxSpansRise(box, pos);
      SpansRise(boxes[1..], mid);
      BoxSpansAreLaminar(box, pos);
      SpansAreLaminar(boxes[1..], mid);
      RiseAppend(SpansBox(box, pos), rest, pos, mid, mid + |Flat(boxes[1..])|);
    }
  }

  lemma {:induction false} BoxSpansRise(box: Box, pos: nat)
    requires box.Box? ==> WellShaped(box) && AllWellShaped(box.inner)
    ensures ParagraphsRise(SpansBox(box, pos))
    decreases box
  {
    if box.Box? {
      SpansRise(box.inner, pos);
      SpansAreLaminar(box.inner, pos);
      RiseOwn(Spans(box.inner, pos), OwnSpan(box.span, pos, pos + |FlatBox(box)|), pos, pos + |Flat(box.inner)|);
    }
  }

  lemma RiseAppend(a: seq<SpanInfo>, b: seq<SpanInfo>, lo: nat, mid: nat, hi: nat)
    requires ParagraphsRise(a) && ParagraphsRise(b) && AllWithin(a, lo, mid) && AllWithin(b, mid, hi)
    ensures ParagraphsRise(a + b)
  {
    assert forall i :: 0 <= i < |a| ==> a[i] in a;
    assert forall j :: 0 <= j < |b| ==> b[j] in b;
  }

  lemma RiseOwn(inner: seq<SpanInfo>, own: seq<SpanInfo>, lo: nat, mid: nat)
    requires ParagraphsRise(inner) && |own| <= 1 && AllWithin(inner, lo, mid)
    requires own != [] && own[0].htmlType == Paragraph ==> own[0].start <= mid < own[0].end
    ensures ParagraphsRise(inner + own)
  {
    assert forall i :: 0 <= i < |inner| ==> inner[i] in inner;
  }

  lemma SpansAreWellOrdered(boxes: seq<Box>)
    requires AllWellShaped(boxes)
    ensures WellOrdered(Spans(boxes, 0))
  {
    var infos := Spans(boxes, 0);
    SpansAreLaminar(boxes, 0);
    SpansRise(boxes, 0);
    forall i | 0 <= i < |infos|
      ensures infos[i].start <= infos[i].end
    {
      assert infos[i] in infos;
    }
  }

  predicate Rising(paragraphs: seq<Interval>) {
    && (forall p :: p in paragraphs ==> p.start < p.end)
    && forall n, m :: 0 <= n < m < |paragraphs| ==> paragraphs[n].end < paragraphs[m].end
  }

  lemma {:induction false} ParagraphsAreRising(infos: seq<SpanInfo>)
    requires ParagraphsRise(infos)
    ensures Rising(Paragraphs(infos))
    decreases |infos|
  {
    if infos != [] {
      var k := |infos| - 1;
      var before := Paragraphs(infos[..k]);
      ParagraphsAreRising(infos[..k]);
      forall n | 0 <= n < |before| && infos[k].htmlType == Paragraph
        ensures before[n].end < infos[k].end
      {
        var j := ParagraphOf(infos[..k], before[n]);
        assert infos[j].end == before[n].end;
      }
    }
  }

  /** The list after the first `n` paragraphs have had their turn. */
  function AfterTurns(infos: seq<SpanInfo>, n: nat): (after: seq<SpanInfo>)
    requires n <= |Paragraphs(infos)|
    ensures |after| == |infos|
  {
    ExtendAll(infos, Paragraphs(infos)[..n])
  }

  /** Span `i` is extended on the turn of paragraph `n`. */
  predicate TakenOn(infos: seq<SpanInfo>, n: int, i: int) {
    && 0 <= n < |Paragraphs(infos)| && 0 <= i < |infos|
    && AfterTurns(infos, n + 1)[i] != AfterTurns(infos, n)[i]
  }

  /** Where the unbroken run of positions that end paragraphs up to paragraph `n` starts. */
  function RunStart(paragraphs: seq<Interval>, n: nat): (start: int)
    requires n < |paragraphs|
    ensures start < paragraphs[n].end
  {
    if n > 0 && paragraphs[n - 1].end + 1 == paragraphs[n].end then RunStart(paragraphs, n - 1)
    else paragraphs[n].end - 1
  }

  predicate EndsWithin(info: SpanInfo, lo: int, hi: int) {
    (info.htmlType == TextSpan || info.htmlType == Anchor) && lo <= info.end < hi
  }

  /** Span `i` is the first text or anchor span that ends at `lo` or after it, and before `hi`. */
  predicate FirstEnding(infos: seq<SpanInfo>, i: int, lo: int, hi: int) {
    0 <= i < |infos| && EndsWithin(infos[i], lo, hi) && forall j :: 0 <= j < i ==> !EndsWithin(infos[j], lo, hi)
  }

  /** The list after the turn of the paragraph that ends at `end`, on which span `taken` was extended, or
      none if that is -1: of the spans that ended before, `taken` alone now ends there. */
  predicate AfterTurn(infos: seq<SpanInfo>, now: seq<SpanInfo>, end: nat, taken: int) {
    && |now| == |infos| && -1 <= taken < |infos|
    && (taken >= 0 ==> infos[taken].end < end)
    && forall i :: 0 <= i < |infos| ==> SpanAfterTurn(infos[i], now[i], end, i == taken)
  }

  predicate SpanAfterTurn(info: SpanInfo, now: SpanInfo, end: nat, taken: bool) {
    && now == info.(end := now.end)
    && (info.end >= end ==> now == info)
    && (info.end < end && CanExtend(info) ==> now.end <= end && (now.end == end <==> taken))
  }

  /** A turn takes the first of the spans that end right before the paragraph and of the one taken right
      before, if that reaches it. */
  lemma TurnStep(infos: seq<SpanInfo>, now: seq<SpanInfo>, end: nat, taken: int, end': nat) returns (taken': int)
    requires AfterTurn(infos, now, end, taken) && end < end'
    ensures AfterTurn(infos, ExtendFirst(now, end'), end', taken')
    ensures forall i :: 0 <= i < |infos| ==> (ExtendFirst(now, end')[i] != now[i] <==> i == taken')
    ensures FirstCandidate(infos, end, taken, end', taken')
  {
    taken' := ExtendFirstIsOneStep(now, end');
    forall i | 0 <= i < |infos|
      ensures Extendable(now[i], end') <==> Candidate(infos, end, taken, end', i)
    {
      assert SpanAfterTurn(infos[i], now[i], end, i == taken);
    }
    forall i | 0 <= i < |infos|
      ensures SpanAfterTurn(infos[i], ExtendFirst(now, end')[i], end', i == taken')
    {
      assert SpanAfterTurn(infos[i], now[i], end, i == taken);
    }
  }

  predicate Candidate(infos: seq<SpanInfo>, end: nat, taken: int, end': nat, i: int) {
    0 <= i < |infos| && CanExtend(infos[i]) && (infos[i].end + 1 == end' || (end + 1 == end' && i == taken))
  }

  predicate FirstCandidate(infos: seq<SpanInfo>, end: nat, taken: int, end': nat, taken': int) {
    && (taken' >= 0 ==> Candidate(infos, end, taken, end', taken'))
    && forall j :: 0 <= j < (if taken' == -1 then |infos| else taken') ==> !Candidate(infos, end, taken, end', j)
  }

  /** On the turn of paragraph `n` span `taken` is extended and no other; none if that is -1. */
  ghost predicate OnlyTaken(infos: seq<SpanInfo>, n: nat, taken: int) {
    forall i :: TakenOn(infos, n, i) <==> i == taken && i >= 0
  }

  ghost predicate OnlyFirst(infos: seq<SpanInfo>, taken: int, lo: int, hi: int) {
    forall i :: FirstEnding(infos, i, lo, hi) <==> i == taken && i >= 0
  }

  /** The turn of paragraph `n` after one on which `taken` was extended to `end`. */
  lemma TurnOf(infos: seq<SpanInfo>, n: nat, end: nat, taken: int) returns (taken': int)
    requires n < |Paragraphs(infos)| && end < Paragraphs(infos)[n].end
    requires AfterTurn(infos, AfterTurns(infos, n), end, taken)
    ensures AfterTurn(infos, AfterTurns(infos, n + 1), Paragraphs(infos)[n].end, taken')
    ensures OnlyTaken(infos, n, taken') && FirstCandidate(infos, end, taken, Paragraphs(infos)[n].end, taken')
  {
    PrefixStep(Paragraphs(infos), n);
    taken' := TurnStep(infos, AfterTurns(infos, n), end, taken, Paragraphs(infos)[n].end);
  }

  /** All turns up to `n`: what is taken is the first span ending in the run of paragraph ends. */
  lemma {:induction false} Turns(infos: seq<SpanInfo>, n: nat) returns (taken: int)
    requires Rising(Paragraphs(infos)) && n < |Paragraphs(infos)|
    ensures var ps := Paragraphs(infos);
      && AfterTurn(infos, AfterTurns(infos, n + 1), ps[n].end, taken)
      && OnlyTaken(infos, n, taken) && OnlyFirst(infos, taken, RunStart(ps, n), ps[n].end)
    decreases n
  {
    var ps := Paragraphs(infos);
    assert ps[n] in ps;
    if n == 0 {
      assert ps[..0] == [];
      taken := TurnOf(infos, n, 0, -1);
      FirstOfCandidates(infos, 0, -1, ps[n].end, taken, ps[n].end - 1);
    } else {
      var end := ps[n - 1].end;
      var before := Turns(infos, n - 1);
      taken := TurnOf(infos, n, end, before);
      FirstOfCandidates(infos, end, before, ps[n].end, taken, RunStart(ps, n));
    }
  }

  lemma {:induction false} FirstExists(infos: seq<SpanInfo>, j: nat, lo: int, hi: int) returns (i: nat)
    requires j < |infos| && EndsWithin(infos[j], lo, hi)
    ensures i <= j && FirstEnding(infos, i, lo, hi)
  {
    if k :| 0 <= k < j && EndsWithin(infos[k], lo, hi) {
      i := FirstExists(infos, k, lo, hi);
    } else {
      i := j;
    }
  }

  lemma FirstOfCandidates(infos: seq<SpanInfo>, end: nat, taken: int, end': nat, taken': int, lo: int)
    requires -1 <= taken < |infos| && -1 <= taken' < |infos| && end < end'
    requires FirstCandidate(infos, end, taken, end', taken')
    requires if lo == end' - 1 then taken == -1 || end + 1 != end'
             else lo < end && end + 1 == end' && OnlyFirst(infos, taken, lo, end)
    ensures OnlyFirst(infos, taken', lo, end')
  {
    forall j | 0 <= j < |infos| && EndsWithin(infos[j], lo, end')
      ensures 0 <= taken' <= j
    {
      if infos[j].end + 1 == end' {
        assert Candidate(infos, end, taken, end', j);
      } else {
        var i := FirstExists(infos, j, lo, end);
        assert Candidate(infos, end, taken, end', i);
      }
    }
    if taken' >= 0 {
      assert taken' == taken && lo < end' - 1 ==> FirstEnding(infos, taken, lo, end);
      assert FirstEnding(infos, taken', lo, end');
    }
  }

  /** Which span a paragraph takes can be read off the list as the walk made it: the first text or anchor span
      that ends in the unbroken run of paragraph ends before the paragraph's own. */
  lemma TakenIff(boxes: seq<Box>, n: nat, i: int)
    requires AllWellShaped(boxes) && n < |Paragraphs(Spans(boxes, 0))|
    ensures var infos := Spans(boxes, 0);
      var ps := Paragraphs(infos);
      TakenOn(infos, n, i) <==> FirstEnding(infos, i, RunStart(ps, n), ps[n].end)
  {
    SpansAreWellOrdered(boxes);
    ParagraphsAreRising(Spans(boxes, 0));
    TakenIsFirst(Spans(boxes, 0), n, i);
  }

  lemma TakenIsFirst(infos: seq<SpanInfo>, n: nat, i: int)
    requires Rising(Paragraphs(infos)) && n < |Paragraphs(infos)|
    ensures var ps := Paragraphs(infos); TakenOn(infos, n, i) <==> FirstEnding(infos, i, RunStart(ps, n), ps[n].end)
  {
    var taken := Turns(infos, n);
    var ps := Paragraphs(infos);
    assert FirstEnding(infos, i, RunStart(ps, n), ps[n].end) <==> i == taken && i >= 0;
  }

  // ----- Whether a paragraph takes a span from outside -----

  /** Every span taken starts at or after the start of the paragraph that takes it. */
  ghost predicate TakesOnlyInside(infos: seq<SpanInfo>) {
    forall n, i :: TakenOn(infos, n, i) ==> Paragraphs(infos)[n].start <= infos[i].start
  }

  /** For a paragraph with nothing but its newline: the first text or anchor span that ends in the run of
      paragraph ends before it, if there is one, starts where the paragraph does. */
  predicate EmptyTakesItsOwn(infos: seq<SpanInfo>, n: nat)
    requires n < |Paragraphs(infos)|
  {
    var ps := Paragraphs(infos);
    ps[n].end == ps[n].start + 1 ==>
      forall i :: 0 <= i < |infos| && FirstEnding(infos, i, RunStart(ps, n), ps[n].end) ==>
        infos[i].start == ps[n].start
  }

  /** A paragraph that ends one position before a wider one is nested in it. */
  lemma PreviousIsInside(infos: seq<SpanInfo>, p: Interval, q: Interval)
    requires WellOrdered(infos) && p in Paragraphs(infos) && q in Paragraphs(infos)
    requires p.end + 1 == q.end && q.end - q.start >= 2
    ensures q.start <= p.start
  {
    var i := ParagraphOf(infos, p);
    var j := ParagraphOf(infos, q);
    assert i < j;
    assert Before(infos[i], infos[j]);
  }

  lemma EndingIsInside(infos: seq<SpanInfo>, i: nat, q: Interval)
    requires Laminar(infos) && forall j :: 0 <= j < |infos| ==> infos[j].start <= infos[j].end
    requires q in Paragraphs(infos) && i < |infos|
    requires CanExtend(infos[i]) && infos[i].end + 1 == q.end && q.end - q.start >= 2
    ensures q.start <= infos[i].start
  {
    var j := ParagraphOf(infos, q);
    assert if i < j then Before(infos[i], infos[j]) else Before(infos[j], infos[i]);
  }

  lemma {:induction false} FirstIsInside(infos: seq<SpanInfo>, n: nat, i: nat)
    requires WellOrdered(infos) && Rising(Paragraphs(infos)) && n < |Paragraphs(infos)|
    requires forall m :: 0 <= m < |Paragraphs(infos)| ==> EmptyTakesItsOwn(infos, m)
    requires FirstEnding(infos, i, RunStart(Paragraphs(infos), n), Paragraphs(infos)[n].end)
    ensures Paragraphs(infos)[n].start <= infos[i].start
    decreases n
  {
    var ps := Paragraphs(infos);
    assert ps[n] in ps;
    if ps[n].end == ps[n].start + 1 {
      assert EmptyTakesItsOwn(infos, n);
    } else if infos[i].end + 1 == ps[n].end {
      EndingIsInside(infos, i, ps[n]);
    } else {
      assert FirstEnding(infos, i, RunStart(ps, n - 1), ps[n - 1].end);
      FirstIsInside(infos, n - 1, i);
      PreviousIsInside(infos, ps[n - 1], ps[n]);
    }
  }

  /** No paragraph takes a span from before its start exactly when none of the empty ones does. */
  lemma TakesOnlyInsideIff(boxes: seq<Box>)
    requires AllWellShaped(boxes)
    ensures var infos := Spans(boxes, 0);
      TakesOnlyInside(infos) <==> forall n :: 0 <= n < |Paragraphs(infos)| ==> EmptyTakesItsOwn(infos, n)
  {
    var infos := Spans(boxes, 0);
    var ps := Paragraphs(infos);
    SpansAreWellOrdered(boxes);
    ParagraphsAreRising(infos);
    if TakesOnlyInside(infos) {
      forall n, i | 0 <= n < |ps| && ps[n].end == ps[n].start + 1 && FirstEnding(infos, i, RunStart(ps, n), ps[n].end)
        ensures infos[i].start == ps[n].start
      {
        TakenIff(boxes, n, i);
        assert TakenOn(infos, n, i);
      }
    }
    if forall n :: 0 <= n < |ps| ==> EmptyTakesItsOwn(infos, n) {
      forall n, i | TakenOn(infos, n, i)
        ensures ps[n].start <= infos[i].start
      {
        TakenIff(boxes, n, i);
        FirstIsInside(infos, n, i);
      }
    }
  }

  // ----- Extended spans and the paragraphs they end up in -----

  predicate InsideParagraph(infos: seq<SpanInfo>, info: SpanInfo, end: nat) {
    exists j :: 0 <= j < |infos| && infos[j].htmlType == Paragraph && infos[j].end == end
                && infos[j].start <= info.start
  }

  lemma {:induction false} ExtendAllStaysInside(infos: seq<SpanInfo>, ps: seq<Interval>, i: nat)
    requires Laminar(infos) && i < |infos| && forall j :: 0 <= j < |infos| ==> infos[j].start <= infos[j].end
    requires forall p :: p in Paragraphs(infos) ==> p.end - p.start >= 2
    requires forall p :: p in ps ==> p in Paragraphs(infos)
    ensures var now := ExtendAll(infos, ps)[i];
      && now == infos[i].(end := now.end)
      && (now.end == infos[i].end || InsideParagraph(infos, infos[i], now.end))
    decreases |ps|
  {
    if ps != [] {
      var n := |ps| - 1;
      ExtendAllStaysInside(infos, ps[..n], i);
      var before := ExtendAll(infos, ps[..n]);
      var taken := ExtendFirstIsOneStep(before, ps[n].end);
      assert ps[n] in ps;
      if taken == i {
        var j := ParagraphOf(infos, ps[n]);
        if before[i].end == infos[i].end {
          EndingIsInside(infos, i, ps[n]);
        } else {
          var q :| 0 <= q < |infos| && infos[q].htmlType == Paragraph && infos[q].end == before[i].end
            && infos[q].start <= infos[i].start;
          assert if q < j then Before(infos[q], infos[j]) else Before(infos[j], infos[q]);
        }
        assert InsideParagraph(infos, infos[i], ps[n].end);
      }
    }
  }

  /** If every paragraph spans at least two positions, an extended span lies inside the paragraph whose
      newline it took. */
  lemma ExtendedSpanStaysInside(boxes: seq<Box>, i: nat)
    requires i < |Spans(boxes, 0)|
    requires forall p :: p in Paragraphs(Spans(boxes, 0)) ==> p.end - p.start >= 2
    ensures var infos := Spans(boxes, 0);
      FixUp(infos)[i] == infos[i] || InsideParagraph(infos, infos[i], FixUp(infos)[i].end)
  {
    var infos := Spans(boxes, 0);
    SpansAreLaminar(boxes, 0);
    assert forall j :: 0 <= j < |infos| ==> infos[j] in infos;
    ExtendAllStaysInside(infos, Paragraphs(infos), i);
  }

  /** An empty paragraph takes a span from before it: in `<b>text</b><p></p>` the bold span ends up over
      the newline of a paragraph it is not part of, whatever the text and the attributes. */
  lemma EmptyParagraphTakesOutsideSpan(text: string, attributes: seq<Attribute>)
    ensures var infos := Spans(Document([Element(B, [], [Text(text)]), Element(P, attributes, [])]), 0);
      |infos| == 2 && FixUp(infos) == [infos[0].(end := |text| + 1), infos[1]]
      && infos[0].end == |text| == infos[1].start && infos[1].htmlType == Paragraph
  {
    var bold := SpanStyle(TextSpan, TagStyles(B));
    var paragraph := SpanStyle(Paragraph, ParagraphStyles(attributes));
    BoxesOfTwo(Element(B, [], [Text(text)]), Element(P, attributes, []));
    BoldBox(text);
    SpansOfTwo(text, bold, paragraph);
    FixUpOfTwo(SpanInfo(TextSpan, 0, |text|, bold.values),
               SpanInfo(Paragraph, |text|, |text| + 1, paragraph.values));
  }

  lemma BoldBox(text: string)
    ensures BoxOf(Element(B, [], [Text(text)]), None)
              == Box(Some(SpanStyle(TextSpan, TagStyles(B))), Nothing, [Run(text)])
  {
    assert Boxes([Text(text)], Some(B)) == [Run(text)] + Boxes([Text(text)][1..], Some(B));
    NothingAround(TagStyles(B));
  }

  lemma BoxesOfTwo(a: Node, b: Node)
    ensures Document([a, b]) == [BoxOf(a, None), BoxOf(b, None)]
  {
    assert [a, b][1..] == [b] && [b][1..] == [];
    assert Boxes([b], None) == [BoxOf(b, None)] + Boxes([], None);
  }

  lemma SpansOfTwo(text: string, a: SpanStyle, b: SpanStyle)
    ensures Spans([Box(Some(a), Nothing, [Run(text)]), Box(Some(b), Newline, [])], 0)
              == [SpanInfo(a.htmlType, 0, |text|, a.values), SpanInfo(b.htmlType, |text|, |text| + 1, b.values)]
  {
    var first, second := Box(Some(a), Nothing, [Run(text)]), Box(Some(b), Newline, []);
    assert [first, second][1..] == [second] && [second][1..] == [] && [Run(text)][1..] == [];
    assert Flat([Run(text)]) == Letters(text) + Flat([]);
    assert |FlatBox(first)| == |text|;
    assert Spans([Run(text)], 0) == [] + Spans([], |text|);
    assert Spans([second], |text|) == SpansBox(second, |text|) + Spans([], |text| + 1);
  }

  lemma FixUpOfTwo(a: SpanInfo, b: SpanInfo)
    requires Extendable(a, b.end) && b.htmlType == Paragraph
    ensures FixUp([a, b]) == [a.(end := b.end), b]
  {
    assert [a, b][..1] == [a] && [a][..0] == [];
    assert Paragraphs([a]) == [];
    var ps := [Interval(b.start, b.end)];
    assert Paragraphs([a, b]) == ps && ps[..0] == [];
    assert ExtendAll([a, b], []) == [a, b];
    assert ExtendFirst([a, b], b.end) == [a.(end := b.end)] + [a, b][1..];
  }

  // ----- The meaning after the fix-up -----

  /** The span at `i` was extended over position `k`. */
  predicate Restyles(infos: seq<SpanInfo>, after: seq<SpanInfo>, k: nat, i: int)
    requires |after| == |infos|
  {
    0 <= i < |infos| && infos[i].end <= k < after[i].end
  }

  /** Where an extended list takes its style value of a kind from. */
  ghost predicate ValueExplained(infos: seq<SpanInfo>, after: seq<SpanInfo>, k: nat, kind: StyleKind,
                                 now: Styles, was: Styles)
    requires |after| == |infos| && kind in now
  {
    || (kind in was && now[kind] == was[kind])
    || exists i :: Restyles(infos, after, k, i) && Gives(infos[i], kind, now[kind])
  }

  predicate Gives(info: SpanInfo, kind: StyleKind, value: StyleText) {
    kind in Merged(info.values) && Merged(info.values)[kind] == value
  }

  lemma ExtendsTail(infos: seq<SpanInfo>, after: seq<SpanInfo>, paragraphs: seq<Interval>, k: nat)
    requires infos != [] && Extends(infos, after, paragraphs)
    ensures Extends(infos[1..], after[1..], paragraphs) && SpanExtends(infos[0], after[0], paragraphs)
    ensures forall i :: Restyles(infos[1..], after[1..], k, i) ==> Restyles(infos, after, k, i + 1)
    ensures Covers(infos[0], k) ==> Covers(after[0], k)
    ensures Covers(after[0], k) && !Covers(infos[0], k) && infos[0].start <= infos[0].end ==>
      Restyles(infos, after, k, 0)
  {
    forall i | 0 <= i < |infos[1..]|
      ensures SpanExtends(infos[1..][i], after[1..][i], paragraphs)
    {
      assert SpanExtends(infos[i + 1], after[i + 1], paragraphs);
    }
  }

  lemma {:induction false} SameStylesUnlessRestyled(infos: seq<SpanInfo>, after: seq<SpanInfo>,
                                                    paragraphs: seq<Interval>, k: nat, styles: Styles)
    requires Extends(infos, after, paragraphs)
    requires forall i :: 0 <= i < |infos| ==> infos[i].start <= infos[i].end
    requires forall i :: !Restyles(infos, after, k, i)
    ensures StylesAt(after, k, styles) == StylesAt(infos, k, styles)
    decreases |infos|
  {
    if infos != [] {
      ExtendsTail(infos, after, paragraphs, k);
      SameStylesUnlessRestyled(infos[1..], after[1..], paragraphs, k, styles);
    }
  }

  lemma {:induction false} StylesAfterExtension(infos: seq<SpanInfo>, after: seq<SpanInfo>,
                                                paragraphs: seq<Interval>, k: nat, styles: Styles, kind: StyleKind)
    requires Extends(infos, after, paragraphs)
    requires forall i :: 0 <= i < |infos| ==> infos[i].start <= infos[i].end
    ensures var now, was := StylesAt(after, k, styles), StylesAt(infos, k, styles);
      && (kind in was ==> kind in now)
      && (kind in now ==> ValueExplained(infos, after, k, kind, now, was))
    decreases |infos|
  {
    if infos != [] {
      ExtendsTail(infos, after, paragraphs, k);
      StylesAfterExtension(infos[1..], after[1..], paragraphs, k, styles, kind);
      var now, was := StylesAt(after, k, styles), StylesAt(infos, k, styles);
      var under, wasUnder := StylesAt(after[1..], k, styles), StylesAt(infos[1..], k, styles);
      if Covers(after[0], k) && kind in Merged(infos[0].values) {
        assert now[kind] == Merged(infos[0].values)[kind];
        if !Covers(infos[0], k) {
          assert Restyles(infos, after, k, 0) && Gives(infos[0], kind, now[kind]);
        }
      } else if kind in now {
        assert now[kind] == under[kind];
        if i :| Restyles(infos[1..], after[1..], k, i) && Gives(infos[1..][i], kind, under[kind]) {
          assert Restyles(infos, after, k, i + 1) && Gives(infos[i + 1], kind, now[kind]);
        }
      }
    }
  }

  /** The finished string against inheritance on the tree: the glyphs are the same everywhere; a position
      over which no span was extended has the inherited styles; any other position is a newline that ends a
      paragraph, and each of its style values is inherited or comes from a span extended over it. */
  lemma FinalMeaning(boxes: seq<Box>, k: nat)
    requires AllWellShaped(boxes) && k < |Flat(boxes)|
    ensures |Render(boxes, map[])| == |Flat(boxes)|
    ensures |FixUp(Spans(boxes, 0))| == |Spans(boxes, 0)|
    ensures var infos := Spans(boxes, 0);
      var out := Paint(Dress(Flat(boxes), map[]), FixUp(infos))[k];
      var reference := Render(boxes, map[])[k];
      && out.glyph == reference.glyph == Flat(boxes)[k]
      && ((forall i :: !Restyles(infos, FixUp(infos), k, i)) ==> out == reference)
      && (forall kind :: kind in reference.styles ==> kind in out.styles)
      && (forall kind :: kind in out.styles ==>
            ValueExplained(infos, FixUp(infos), k, kind, out.styles, reference.styles))
  {
    var infos := Spans(boxes, 0);
    var paragraphs := Paragraphs(infos);
    var cells := Dress(Flat(boxes), map[]);
    PaintIsRender(boxes);
    SpansAreLaminar(boxes, 0);
    ExtendAllExtends(infos, paragraphs);
    PaintAt(cells, infos, k);
    PaintAt(cells, FixUp(infos), k);
    assert forall i :: 0 <= i < |infos| ==> infos[i] in infos;
    if forall i :: !Restyles(infos, FixUp(infos), k, i) {
      SameStylesUnlessRestyled(infos, FixUp(infos), paragraphs, k, map[]);
    }
    forall kind: StyleKind {
      StylesAfterExtension(infos, FixUp(infos), paragraphs, k, map[], kind);
    }
  }

  // ----- The exact styles of a position -----

  predicate GivesAt(infos: seq<SpanInfo>, k: nat, kind: StyleKind, i: int) {
    0 <= i < |infos| && Covers(infos[i], k) && kind in Merged(infos[i].values)
  }

  /** Span `i` is the first in list order that covers `k` and gives the kind. */
  predicate FirstGiving(infos: seq<SpanInfo>, k: nat, kind: StyleKind, i: int) {
    GivesAt(infos, k, kind, i) && forall j :: 0 <= j < i ==> !GivesAt(infos, k, kind, j)
  }

  lemma GivesInTail(infos: seq<SpanInfo>, k: nat, kind: StyleKind, i: nat)
    requires 0 < i < |infos|
    ensures GivesAt(infos[1..], k, kind, i - 1) <==> GivesAt(infos, k, kind, i)
  {
  }

  /** The first span that gives a kind decides its value. */
  lemma {:induction false} FirstGivingDecides(infos: seq<SpanInfo>, k: nat, kind: StyleKind, styles: Styles, i: nat)
    requires FirstGiving(infos, k, kind, i)
    ensures kind in StylesAt(infos, k, styles)
    ensures StylesAt(infos, k, styles)[kind] == Merged(infos[i].values)[kind]
    decreases i
  {
    if i > 0 {
      forall j | 0 <= j < i - 1
        ensures !GivesAt(infos[1..], k, kind, j)
      {
        GivesInTail(infos, k, kind, j + 1);
      }
      GivesInTail(infos, k, kind, i);
      FirstGivingDecides(infos[1..], k, kind, styles, i - 1);
      assert !GivesAt(infos, k, kind, 0);
    }
  }

  lemma {:induction false} FirstGiver(infos: seq<SpanInfo>, k: nat, kind: StyleKind, i: nat) returns (first: nat)
    requires GivesAt(infos, k, kind, i)
    ensures FirstGiving(infos, k, kind, first)
  {
    if j :| 0 <= j < i && GivesAt(infos, k, kind, j) {
      first := FirstGiver(infos, k, kind, j);
    } else {
      first := i;
    }
  }

  /** A kind that no span gives is as it was. */
  lemma {:induction false} NoneGives(infos: seq<SpanInfo>, k: nat, kind: StyleKind, styles: Styles)
    requires forall i :: !GivesAt(infos, k, kind, i)
    ensures kind in StylesAt(infos, k, styles) <==> kind in styles
    decreases |infos|
  {
    if infos != [] {
      forall i
        ensures !GivesAt(infos[1..], k, kind, i)
      {
        if 0 <= i < |infos| - 1 {
          GivesInTail(infos, k, kind, i + 1);
        }
      }
      NoneGives(infos[1..], k, kind, styles);
      assert !GivesAt(infos, k, kind, 0);
    }
  }

  /** Some paragraph that ends right after `k` took span `i`, among the first `turns` paragraphs. */
  predicate TakenOver(infos: seq<SpanInfo>, turns: nat, k: nat, i: int) {
    exists n :: 0 <= n < turns && TakenOn(infos, n, i) && Paragraphs(infos)[n].end == k + 1
  }

  lemma TakenOverStep(infos: seq<SpanInfo>, n: nat, k: nat, i: int)
    requires n < |Paragraphs(infos)|
    ensures TakenOver(infos, n + 1, k, i) <==>
      TakenOver(infos, n, k, i) || (TakenOn(infos, n, i) && Paragraphs(infos)[n].end == k + 1)
  {
  }

  lemma CoversAfterTurn(infos: seq<SpanInfo>, n: nat, k: nat, i: nat)
    requires n < |Paragraphs(infos)| && i < |infos| && AfterTurns(infos, n)[i].start <= AfterTurns(infos, n)[i].end
    ensures var was, now := AfterTurns(infos, n)[i], AfterTurns(infos, n + 1)[i];
      && now.start == was.start <= now.end && now.htmlType == was.htmlType
      && (Covers(now, k) <==> Covers(was, k) || (TakenOn(infos, n, i) && Paragraphs(infos)[n].end == k + 1))
  {
    var ps := Paragraphs(infos);
    PrefixStep(ps, n);
    var taken := ExtendFirstIsOneStep(AfterTurns(infos, n), ps[n].end);
  }

  lemma {:induction false} CoversAfterTurns(infos: seq<SpanInfo>, turns: nat, k: nat, i: nat)
    requires turns <= |Paragraphs(infos)| && i < |infos|
    requires forall j :: 0 <= j < |infos| ==> infos[j].start <= infos[j].end
    ensures var now := AfterTurns(infos, turns)[i];
      && now.start == infos[i].start <= now.end && now.htmlType == infos[i].htmlType
      && (Covers(now, k) <==> Covers(infos[i], k) || TakenOver(infos, turns, k, i))
    decreases turns
  {
    var ps := Paragraphs(infos);
    if turns == 0 {
      assert ps[..0] == [];
    } else {
      CoversAfterTurns(infos, turns - 1, k, i);
      CoversAfterTurn(infos, turns - 1, k, i);
      TakenOverStep(infos, turns - 1, k, i);
    }
  }

  /** After the fix-up a span covers a position exactly if it did before or was taken by the paragraph that
      ends right after the position. */
  lemma CoversIff(infos: seq<SpanInfo>, k: nat, i: nat)
    requires i < |infos| && forall j :: 0 <= j < |infos| ==> infos[j].start <= infos[j].end
    ensures Covers(FixUp(infos)[i], k) <==> Covers(infos[i], k) || TakenOver(infos, |Paragraphs(infos)|, k, i)
  {
    var ps := Paragraphs(infos);
    CoversAfterTurns(infos, |ps|, k, i);
    assert ps[..|ps|] == ps;
  }

  /** The finished string, exactly: a position has a style kind if some span covers it after the fix-up and gives
      the kind, and the first such span in list order gives the value. */
  lemma FinalStyle(boxes: seq<Box>, k: nat, kind: StyleKind)
    requires k < |Flat(boxes)|
    ensures var after := FixUp(Spans(boxes, 0));
      var styles := Paint(Dress(Flat(boxes), map[]), after)[k].styles;
      && (kind in styles <==> exists i :: GivesAt(after, k, kind, i))
      && (forall i :: FirstGiving(after, k, kind, i) ==>
            kind in styles && styles[kind] == Merged(after[i].values)[kind])
  {
    var after := FixUp(Spans(boxes, 0));
    PaintAt(Dress(Flat(boxes), map[]), after, k);
    forall i | FirstGiving(after, k, kind, i) {
      FirstGivingDecides(after, k, kind, map[], i);
    }
    if i :| GivesAt(after, k, kind, i) {
      var first := FirstGiver(after, k, kind, i);
      FirstGivingDecides(after, k, kind, map[], first);
    } else {
      NoneGives(after, k, kind, map[]);
    }
  }

  /** Spans are only ever extended over newlines that end a paragraph. */
  lemma RestyledIsNewline(boxes: seq<Box>, k: nat, i: int)
    requires AllWellShaped(boxes) && |FixUp(Spans(boxes, 0))| == |Spans(boxes, 0)|
    requires Restyles(Spans(boxes, 0), FixUp(Spans(boxes, 0)), k, i)
    ensures k < |Flat(boxes)| && Flat(boxes)[k] == Letter('\n')
    ensures var infos := Spans(boxes, 0);
      exists j :: 0 <= j < |infos| && infos[j].htmlType == Paragraph && infos[j].end == k + 1
  {
    var infos := Spans(boxes, 0);
    var paragraphs := Paragraphs(infos);
    ExtendAllExtends(infos, paragraphs);
    assert SpanExtends(infos[i], FixUp(infos)[i], paragraphs);
    var e: nat := k + 1;
    assert EndsAt(paragraphs, e);
    var p :| p in paragraphs && p.end == e;
    var j := ParagraphOf(infos, p);
    assert infos[j] in infos;
    ParagraphsEndInNewlines(boxes, 0, infos[j]);
  }
}
