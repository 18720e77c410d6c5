/** What the span list means: painted onto the flat glyphs it gives every position the styles that
    top-down inheritance on the tree would, except that the paragraph fix-up restyles some newlines. */
module HtmlMeaning {
  import opened Prelude
  import opened HtmlModel

  // ----- The reference: inheritance -----

  /** The last value per kind of a list of style values. */
  function Merged(values: seq<StyleValue>): Styles {
    if values == [] then map[]
    else
      var last := values[|values| - 1];
      var before := Merged(values[..|values| - 1]);
      if last.Styled? then before[last.kind := last.value] else before
  }

  /** What the inside and the tail of a box inherit. */
  function Inherited(span: Option<SpanStyle>, styles: Styles): Styles {
    if span.None? then styles else styles + Merged(span.value.values)
  }

  function Dress(glyphs: seq<Glyph>, styles: Styles): (cells: seq<Cell>)
    ensures |cells| == |glyphs| && forall i :: 0 <= i < |glyphs| ==> cells[i] == Cell(glyphs[i], styles)
  {
    seq(|glyphs|, i requires 0 <= i < |glyphs| => Cell(glyphs[i], styles))
  }

  function Render(boxes: seq<Box>, styles: Styles): seq<Cell>
    decreases boxes
  {
    if boxes == [] then [] else RenderBox(boxes[0], styles) + Render(boxes[1..], styles)
  }

  function RenderBox(box: Box, styles: Styles): seq<Cell>
    decreases box
  {
    match box
    case Box(span, tail, inner) =>
      var inherited := Inherited(span, styles);
      Render(inner, inherited) + Dress(TailGlyphs(tail), inherited)
    case Run(text) => Dress(Letters(text), styles)
  }

  // ----- Painting -----

  predicate Covers(info: SpanInfo, k: int) {
    info.htmlType != Image && info.start <= k < info.end
  }

  function Painted(cell: Cell, info: SpanInfo, k: int): Cell {
    if Covers(info, k) then cell.(styles := cell.styles + Merged(info.values)) else cell
  }

  function PaintInfo(cells: seq<Cell>, info: SpanInfo): (painted: seq<Cell>)
    ensures |painted| == |cells| && forall k :: 0 <= k < |cells| ==> painted[k] == Painted(cells[k], info, k)
  {
    seq(|cells|, k requires 0 <= k < |cells| => Painted(cells[k], info, k))
  }

  /** Spans are painted from the last to the first, so children paint over their parents. */
  function Paint(cells: seq<Cell>, infos: seq<SpanInfo>): (painted: seq<Cell>)
    ensures |painted| == |cells|
  {
    if infos == [] then cells else PaintInfo(Paint(cells, infos[1..]), infos[0])
  }

  /** The styles one position ends up with. */
  function StylesAt(infos: seq<SpanInfo>, k: nat, styles: Styles): Styles {
    if infos == [] then styles
    else
      var under := StylesAt(infos[1..], k, styles);
      if Covers(infos[0], k) then under + Merged(infos[0].values) else under
  }

  lemma {:induction false} PaintAt(cells: seq<Cell>, infos: seq<SpanInfo>, k: nat)
    requires k < |cells|
    ensures Paint(cells, infos)[k] == cells[k].(styles := StylesAt(infos, k, cells[k].styles))
    decreases |infos|
  {
    if infos != [] {
      PaintAt(cells, infos[1..], k);
    }
  }

  lemma {:induction false} StylesAppend(a: seq<SpanInfo>, b: seq<SpanInfo>, k: nat, styles: Styles)
    ensures StylesAt(a + b, k, styles) == StylesAt(a, k, StylesAt(b, k, styles))
    decreases |a|
  {
    if a == [] {
      NothingAround(b);
    } else {
      HeadOfAppend(a, b);
      StylesAppend(a[1..], b, k, styles);
    }
  }

  lemma {:induction false} StylesOutside(infos: seq<SpanInfo>, k: nat, styles: Styles)
    requires forall info :: info in infos ==> !Covers(info, k)
    ensures StylesAt(infos, k, styles) == styles
    decreases |infos|
  {
    if infos != [] {
      assert infos[0] in infos;
      StylesOutside(infos[1..], k, styles);
    }
  }

  /** Spans leave positions outside of their boxes alone. */
  lemma StylesOutsideBoxes(boxes: seq<Box>, pos: nat, k: nat, styles: Styles)
    requires k < pos || pos + |Flat(boxes)| <= k
    ensures StylesAt(Spans(boxes, pos), k, styles) == styles
  {
    SpansAreLaminar(boxes, pos);
    forall info | info in Spans(boxes, pos)
      ensures !Covers(info, k)
    {
      assert Within(info, pos, pos + |Flat(boxes)|);
    }
    StylesOutside(Spans(boxes, pos), k, styles);
  }

  lemma StylesOutsideBox(box: Box, pos: nat, k: nat, styles: Styles)
    requires k < pos || pos + |FlatBox(box)| <= k
    ensures StylesAt(SpansBox(box, pos), k, styles) == styles
  {
    BoxSpansAreLaminar(box, pos);
    forall info | info in SpansBox(box, pos)
      ensures !Covers(info, k)
    {
      assert Within(info, pos, pos + |FlatBox(box)|);
    }
    StylesOutside(SpansBox(box, pos), k, styles);
  }

  /** A box's own span gives all its positions what its inside and its tail inherit. */
  lemma OwnStyles(box: Box, start: nat, end: nat, k: nat, styles: Styles)
    requires start <= k < end && box.Box? && WellShaped(box)
    ensures StylesAt(OwnSpan(box.span, start, end), k, styles) == Inherited(box.span, styles)
  {
    var own := OwnSpan(box.span, start, end);
    if own != [] {
      assert own[1..] == [] && StylesAt([], k, styles) == styles;
      if own[0].htmlType == Image {
        NoStylesOfImage(box.tail.attributes);
        assert styles + map[] == styles;
      }
    }
  }

  lemma NoStylesOfImage(attributes: seq<Attribute>)
    ensures Merged([ImageOptions(attributes)]) == map[]
  {
    assert [ImageOptions(attributes)][..0] == [];
  }

  lemma {:induction false} RenderIsFlat(boxes: seq<Box>, styles: Styles)
    ensures SameGlyphs(Render(boxes, styles), Flat(boxes))
    decreases boxes
  {
    if boxes != [] {
      BoxRenderIsFlat(boxes[0], styles);
      RenderIsFlat(boxes[1..], styles);
      SameGlyphsAppend(RenderBox(boxes[0], styles), FlatBox(boxes[0]), Render(boxes[1..], styles), Flat(boxes[1..]));
    }
  }

  lemma {:induction false} BoxRenderIsFlat(box: Box, styles: Styles)
    ensures SameGlyphs(RenderBox(box, styles), FlatBox(box))
    decreases box
  {
    if box.Box? {
      var inherited := Inherited(box.span, styles);
      RenderIsFlat(box.inner, inherited);
      SameGlyphsAppend(Render(box.inner, inherited), Flat(box.inner),
                       Dress(TailGlyphs(box.tail), inherited), TailGlyphs(box.tail));
    }
  }

  predicate SameGlyphs(cells: seq<Cell>, glyphs: seq<Glyph>) {
    |cells| == |glyphs| && forall k :: 0 <= k < |glyphs| ==> cells[k].glyph == glyphs[k]
  }

  lemma SameGlyphsAppend(a: seq<Cell>, b: seq<Glyph>, c: seq<Cell>, d: seq<Glyph>)
    requires SameGlyphs(a, b) && SameGlyphs(c, d)
    ensures SameGlyphs(a + c, b + d)
  {
  }

  /** At every position the spans, painted from the last to the first, give the styles that top-down
      inheritance gives. */
  lemma {:induction false} StylesAreInherited(boxes: seq<Box>, pos: nat, k: nat, styles: Styles)
    requires AllWellShaped(boxes) && pos <= k < pos + |Flat(boxes)|
    ensures |Render(boxes, styles)| == |Flat(boxes)|
    ensures StylesAt(Spans(boxes, pos), k, styles) == Render(boxes, styles)[k - pos].styles
    decreases boxes
  {
    RenderIsFlat(boxes, styles);
    BoxRenderIsFlat(boxes[0], styles);
    var mid := pos + |FlatBox(boxes[0])|;
    var a, b := SpansBox(boxes[0], pos), Spans(boxes[1..], mid);
    if k < mid {
      StylesOutsideBoxes(boxes[1..], mid, k, styles);
      BoxStylesAreInherited(boxes[0], pos, k, styles);
    } else {
      StylesAreInherited(boxes[1..], mid, k, styles);
      StylesOutsideBox(boxes[0], pos, k, StylesAt(b, k, styles));
    }
    JoinStyles(a, b, RenderBox(boxes[0], styles), Render(boxes[1..], styles), pos, k, styles);
  }

  /** Spans of two neighbours, each of which leaves the other's positions alone. */
  lemma JoinStyles(a: seq<SpanInfo>, b: seq<SpanInfo>, left: seq<Cell>, right: seq<Cell>, pos: nat, k: nat,
                   styles: Styles)
    requires pos <= k < pos + |left| + |right|
    requires k < pos + |left| ==> StylesAt(b, k, styles) == styles && StylesAt(a, k, styles) == left[k - pos].styles
    requires k >= pos + |left| ==>
      && StylesAt(b, k, styles) == right[k - pos - |left|].styles
      && StylesAt(a, k, StylesAt(b, k, styles)) == StylesAt(b, k, styles)
    ensures StylesAt(a + b, k, styles) == (left + right)[k - pos].styles
  {
    StylesAppend(a, b, k, styles);
  }

  lemma {:induction false} BoxStylesAreInherited(box: Box, pos: nat, k: nat, styles: Styles)
    requires box.Box? ==> WellShaped(box) && AllWellShaped(box.inner)
    requires pos <= k < pos + |FlatBox(box)|
    ensures |RenderBox(box, styles)| == |FlatBox(box)|
    ensures StylesAt(SpansBox(box, pos), k, styles) == RenderBox(box, styles)[k - pos].styles
    decreases box
  {
    BoxRenderIsFlat(box, styles);
    if box.Box? {
      var inherited, end := Inherited(box.span, styles), pos + |FlatBox(box)|;
      var ending := Dress(TailGlyphs(box.tail), inherited);
      OwnStyles(box, pos, end, k, styles);
      RenderIsFlat(box.inner, inherited);
      if k < pos + |Flat(box.inner)| {
        StylesAreInherited(box.inner, pos, k, inherited);
      } else {
        StylesOutsideBoxes(box.inner, pos, k, inherited);
      }
      NestStyles(Spans(box.inner, pos), OwnSpan(box.span, pos, end), Render(box.inner, inherited), ending, pos, k,
                 styles, inherited);
    }
  }

  /** Spans inside a box and then the box's own. */
  lemma NestStyles(inner: seq<SpanInfo>, own: seq<SpanInfo>, left: seq<Cell>, ending: seq<Cell>, pos: nat, k: nat,
                   styles: Styles, inherited: Styles)
    requires pos <= k < pos + |left| + |ending| && StylesAt(own, k, styles) == inherited
    requires k < pos + |left| ==> StylesAt(inner, k, inherited) == left[k - pos].styles
    requires k >= pos + |left| ==>
      StylesAt(inner, k, inherited) == inherited == ending[k - pos - |left|].styles
    ensures StylesAt(inner + own, k, styles) == (left + ending)[k - pos].styles
  {
    StylesAppend(inner, own, k, styles);
  }

  /** Painting the post-order span list onto the flat glyphs is inheritance. */
  lemma PaintIsRender(boxes: seq<Box>)
    requires AllWellShaped(boxes)
    ensures Paint(Dress(Flat(boxes), map[]), Spans(boxes, 0)) == Render(boxes, map[])
    ensures |Render(boxes, map[])| == |Flat(boxes)|
  {
    RenderIsFlat(boxes, map[]);
    forall k | 0 <= k < |Flat(boxes)|
      ensures StylesAt(Spans(boxes, 0), k, map[]) == Render(boxes, map[])[k].styles
    {
      StylesAreInherited(boxes, 0, k, map[]);
    }
    PaintMatches(Flat(boxes), Spans(boxes, 0), Render(boxes, map[]));
  }

  lemma PaintMatches(glyphs: seq<Glyph>, infos: seq<SpanInfo>, rendered: seq<Cell>)
    requires SameGlyphs(rendered, glyphs)
    requires forall k :: 0 <= k < |glyphs| ==> StylesAt(infos, k, map[]) == rendered[k].styles
    ensures Paint(Dress(glyphs, map[]), infos) == rendered
  {
    forall k | 0 <= k < |glyphs|
      ensures Paint(Dress(glyphs, map[]), infos)[k] == rendered[k]
    {
      PaintAt(Dress(glyphs, map[]), infos, k);
    }
  }

  // ----- Inserting images -----

  function Insert(cells: seq<Cell>, at: nat, cell: Cell): seq<Cell>
    requires at <= |cells|
  {
    cells[..at] + [cell] + cells[at..]
  }

  /** All images among the values of one span, each inserted at the span's start. */
  function InsertValues(cells: seq<Cell>, at: nat, values: seq<StyleValue>): (inserted: seq<Cell>)
    requires at <= |cells|
    ensures |inserted| >= |cells|
  {
    if values == [] then cells
    else
      var before := InsertValues(cells, at, values[..|values| - 1]);
      var last := values[|values| - 1];
      if last.ImageOptions? then Insert(before, at, Cell(Picture(last.attributes), map[])) else before
  }

  /** Every image start lies in the string as it is when that image is inserted. */
  predicate InRange(cells: seq<Cell>, infos: seq<SpanInfo>)
    decreases |infos|
  {
    infos == [] ||
      if infos[0].htmlType == Image
      then infos[0].start <= |cells| && InRange(InsertValues(cells, infos[0].start, infos[0].values), infos[1..])
      else InRange(cells, infos[1..])
  }

  function InsertImages(cells: seq<Cell>, infos: seq<SpanInfo>): seq<Cell>
    requires InRange(cells, infos)
    decreases |infos|
  {
    if infos == [] then cells
    else if infos[0].htmlType == Image
    then InsertImages(InsertValues(cells, infos[0].start, infos[0].values), infos[1..])
    else InsertImages(cells, infos[1..])
  }

  lemma {:induction false} InsertAppend(cells: seq<Cell>, a: seq<SpanInfo>, b: seq<SpanInfo>)
    requires InRange(cells, a) && InRange(InsertImages(cells, a), b)
    ensures InRange(cells, a + b) && InsertImages(cells, a + b) == InsertImages(InsertImages(cells, a), b)
    decreases |a|
  {
    if a == [] {
      assert a + b == b;
    } else {
      assert (a + b)[1..] == a[1..] + b;
      if a[0].htmlType == Image {
        InsertAppend(InsertValues(cells, a[0].start, a[0].values), a[1..], b);
      } else {
        InsertAppend(cells, a[1..], b);
      }
    }
  }

  /** Inserting the images of boxes into their text, in list order, is always in range and gives the
      single-pass flattening. */
  lemma {:induction false} InsertIsFlat(before: seq<Cell>, boxes: seq<Box>, after: seq<Cell>)
    requires AllWellShaped(boxes) && AllVoid(boxes)
    ensures var cells := before + Dress(Letters(PlainText(boxes)), map[]) + after;
      InRange(cells, Spans(boxes, |before|))
      && InsertImages(cells, Spans(boxes, |before|)) == before + Dress(Flat(boxes), map[]) + after
    decreases boxes
  {
    if boxes == [] {
      assert Dress(Letters(PlainText(boxes)), map[]) == Dress(Flat(boxes), map[]);
    } else {
      var left, right := Dress(Letters(PlainTextBox(boxes[0])), map[]), Dress(Letters(PlainText(boxes[1..])), map[]);
      var left', right' := Dress(FlatBox(boxes[0]), map[]), Dress(Flat(boxes[1..]), map[]);
      DressText(PlainTextBox(boxes[0]), PlainText(boxes[1..]));
      DressAppend(FlatBox(boxes[0]), Flat(boxes[1..]), map[]);
      BoxInsertIsFlat(before, boxes[0], right + after);
      InsertIsFlat(before + left', boxes[1..], after);
      InsertBoth(before, left, right, after, left', right',
                 SpansBox(boxes[0], |before|), Spans(boxes[1..], |before + left'|));
    }
  }

  lemma {:induction false} BoxInsertIsFlat(before: seq<Cell>, box: Box, after: seq<Cell>)
    requires box.Box? ==> WellShaped(box) && AllWellShaped(box.inner) && AllVoid(box.inner)
    requires box.Box? && box.tail.Placeholder? ==> box.inner == []
    ensures var cells := before + Dress(Letters(PlainTextBox(box)), map[]) + after;
      InRange(cells, SpansBox(box, |before|))
      && InsertImages(cells, SpansBox(box, |before|)) == before + Dress(FlatBox(box), map[]) + after
    decreases box
  {
    if box.Box? {
      if box.tail.Placeholder? {
        PictureInsertIsFlat(before, box, after);
      } else {
        var text, flat := Dress(Letters(PlainText(box.inner)), map[]), Dress(Flat(box.inner), map[]);
        var ending := Dress(TailGlyphs(box.tail), map[]);
        assert Letters(TailText(box.tail)) == TailGlyphs(box.tail);
        DressText(PlainText(box.inner), TailText(box.tail));
        DressAppend(Flat(box.inner), TailGlyphs(box.tail), map[]);
        InsertIsFlat(before, box.inner, ending + after);
        InsertLeft(before, text, flat, ending, after, Spans(box.inner, |before|),
                   OwnSpan(box.span, |before|, |before| + |FlatBox(box)|));
      }
    }
  }

  /** Images of the inside only: the ending stays as it is. */
  lemma InsertLeft(before: seq<Cell>, text: seq<Cell>, flat: seq<Cell>, ending: seq<Cell>, after: seq<Cell>,
                   inner: seq<SpanInfo>, own: seq<SpanInfo>)
    requires InRange(before + text + (ending + after), inner)
    requires InsertImages(before + text + (ending + after), inner) == before + flat + (ending + after)
    requires |own| <= 1 && forall info :: info in own ==> info.htmlType != Image
    ensures InRange(before + (text + ending) + after, inner + own)
    ensures InsertImages(before + (text + ending) + after, inner + own) == before + (flat + ending) + after
  {
    NothingToInsert(before + flat + (ending + after), own);
    Regroup(before, text, ending, after);
    Regroup(before, flat, ending, after);
    InsertAppend(before + text + (ending + after), inner, own);
  }

  lemma DressText(a: string, b: string)
    ensures Dress(Letters(a + b), map[]) == Dress(Letters(a), map[]) + Dress(Letters(b), map[])
  {
  }

  lemma DressAppend(a: seq<Glyph>, b: seq<Glyph>, styles: Styles)
    ensures Dress(a + b, styles) == Dress(a, styles) + Dress(b, styles)
  {
  }

  lemma InsertBoth(before: seq<Cell>, left: seq<Cell>, right: seq<Cell>, after: seq<Cell>,
                   left': seq<Cell>, right': seq<Cell>, a: seq<SpanInfo>, b: seq<SpanInfo>)
    requires InRange(before + left + (right + after), a)
    requires InsertImages(before + left + (right + after), a) == before + left' + (right + after)
    requires InRange((before + left') + right + after, b)
    requires InsertImages((before + left') + right + after, b) == (before + left') + right' + after
    ensures InRange(before + (left + right) + after, a + b)
    ensures InsertImages(before + (left + right) + after, a + b) == before + (left' + right') + after
  {
    Regroup(before, left, right, after);
    Regroup(before, left', right, after);
    Regroup(before, left', right', after);
    InsertAppend(before + (left + right) + after, a, b);
  }

  lemma {:induction false} PictureInsertIsFlat(before: seq<Cell>, box: Box, after: seq<Cell>)
    requires box.Box? && WellShaped(box) && box.tail.Placeholder? && box.inner == []
    ensures var cells := before + Dress(Letters(PlainTextBox(box)), map[]) + after;
      InRange(cells, SpansBox(box, |before|))
      && InsertImages(cells, SpansBox(box, |before|)) == before + Dress(FlatBox(box), map[]) + after
  {
    var attributes := box.tail.attributes;
    PictureShape(box, |before|);
    NothingAround(before);
    InsertOne(before, attributes, after);
    InsertSingle(before + after, SpanInfo(Image, |before|, |before| + 1, [ImageOptions(attributes)]));
  }

  lemma PictureShape(box: Box, pos: nat)
    requires box.Box? && WellShaped(box) && box.tail.Placeholder? && box.inner == []
    ensures SpansBox(box, pos) == [SpanInfo(Image, pos, pos + 1, [ImageOptions(box.tail.attributes)])]
    ensures Dress(FlatBox(box), map[]) == [Cell(Picture(box.tail.attributes), map[])]
    ensures Dress(Letters(PlainTextBox(box)), map[]) == []
  {
    assert Flat([]) == [] && Spans([], pos) == [];
  }

  lemma InsertSingle(cells: seq<Cell>, info: SpanInfo)
    requires info.htmlType == Image && info.start <= |cells|
    ensures InRange(cells, [info])
    ensures InsertImages(cells, [info]) == InsertValues(cells, info.start, info.values)
  {
    assert [info][1..] == [];
    var inserted := InsertValues(cells, info.start, info.values);
    assert InsertImages(inserted, []) == inserted;
  }

  lemma NothingToInsert(cells: seq<Cell>, infos: seq<SpanInfo>)
    requires |infos| <= 1 && forall info :: info in infos ==> info.htmlType != Image
    ensures InRange(cells, infos) && InsertImages(cells, infos) == cells
  {
    if infos != [] {
      assert infos[0] in infos && infos[1..] == [];
      assert InsertImages(cells, []) == cells;
    }
  }

  lemma InsertOne(before: seq<Cell>, attributes: seq<Attribute>, after: seq<Cell>)
    ensures InsertValues(before + after, |before|, [ImageOptions(attributes)])
              == before + [Cell(Picture(attributes), map[])] + after
  {
    assert [ImageOptions(attributes)][..0] == [];
    assert InsertValues(before + after, |before|, []) == before + after;
  }
}
