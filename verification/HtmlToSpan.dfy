/** The converter itself: the recursive walk over position, text and span list, the in-place fix-up,
    and the two-phase build of the styled string. */
module HtmlConverter {
  import opened Prelude
  import opened HtmlModel
  import opened HtmlMeaning
  import opened HtmlFixUp

  function Overwritten(cell: Cell, kind: StyleKind, value: StyleText, inside: bool): Cell {
    if inside then cell.(styles := cell.styles[kind := value]) else cell
  }

  class MutableSpanString {
    var cells: seq<Cell>

    constructor (text: string)
      ensures cells == Dress(Letters(text), map[])
    {
      cells := Dress(Letters(text), map[]);
    }

    method InsertSpanString(at: nat, cell: Cell)
      requires at <= |cells|
      modifies this
      ensures cells == Insert(old(cells), at, cell)
    {
      cells := cells[..at] + [cell] + cells[at..];
    }

    /** Overwrites one style kind over a range. */
    method AddSpan(kind: StyleKind, value: StyleText, start: nat, end: nat)
      requires start <= end <= |cells|
      modifies this
      ensures |cells| == |old(cells)|
      ensures forall k :: 0 <= k < |cells| ==> cells[k] == Overwritten(old(cells)[k], kind, value, start <= k < end)
    {
      var i := start;
      while i < end
        invariant start <= i <= end && |cells| == |old(cells)|
        invariant forall k :: 0 <= k < |cells| ==> cells[k] == Overwritten(old(cells)[k], kind, value, start <= k < i)
      {
        cells := cells[i := cells[i].(styles := cells[i].styles[kind := value])];
        i := i + 1;
      }
    }
  }

  method AttributeStyles(attributes: seq<Attribute>) returns (values: seq<StyleValue>)
    ensures values == AllStyles(attributes)
  {
    values := [];
    var i := 0;
    while i < |attributes|
      invariant i <= |attributes| && values == AllStyles(attributes[..i])
    {
      assert attributes[..i + 1][..i] == attributes[..i];
      values := values + attributes[i].styles;
      i := i + 1;
    }
    assert attributes[..i] == attributes;
  }

  /** What an element's tag implies. */
  method AddStyleSpan(tag: Tag) returns (values: seq<StyleValue>)
    ensures values == TagStyles(tag)
  {
    values := [];
    if tag == Strong || tag == B {
      values := [Styled(Font, Bold)];
    } else if tag == Sup {
      values := [Styled(Font, Superscript)];
    } else if tag == Sub {
      values := [Styled(Font, Subscript)];
    } else if tag == Del || tag == S {
      values := [Styled(Decoration, LineThrough)];
    } else if tag == U {
      values := [Styled(Decoration, Underline)];
    } else if tag == I || tag == Em {
      values := [Styled(Font, Italic)];
    }
  }

  /** Text, spans and position of the walk. */
  datatype Progress = Progress(text: string, infos: seq<SpanInfo>, pos: nat)

  function AfterBox(now: Progress, box: Box): Progress {
    Progress(now.text + PlainTextBox(box), now.infos + SpansBox(box, now.pos), now.pos + |FlatBox(box)|)
  }

  function AfterBoxes(now: Progress, boxes: seq<Box>): Progress {
    Progress(now.text + PlainText(boxes), now.infos + Spans(boxes, now.pos), now.pos + |Flat(boxes)|)
  }

  lemma AfterBoxesStep(now: Progress, nodes: seq<Node>, i: nat, parent: Option<Tag>)
    requires i < |nodes|
    ensures AfterBoxes(now, Boxes(nodes[i..], parent))
      == AfterBoxes(AfterBox(now, BoxOf(nodes[i], parent)), Boxes(nodes[i + 1..], parent))
  {
    SuffixStep(nodes, i);
    var box, rest := BoxOf(nodes[i], parent), Boxes(nodes[i + 1..], parent);
    NothingAround(rest);
    HeadOfAppend([box], rest);
    Assoc(now.text, PlainTextBox(box), PlainText(rest));
    Assoc(now.infos, SpansBox(box, now.pos), Spans(rest, now.pos + |FlatBox(box)|));
  }

  lemma AfterNothing(now: Progress)
    ensures AfterBox(now, Run([])) == now && AfterBoxes(now, []) == now
  {
    NothingAround(now.text);
    NothingAround(now.infos);
  }

  class HtmlToSpan {
    var allContent: string
    var spanInfos: seq<SpanInfo>

    constructor ()
      ensures allContent == [] && spanInfos == []
    {
      allContent, spanInfos := [], [];
    }

    method ToParagraphSpan(attributes: seq<Attribute>, len: nat, pos: nat)
      modifies this`spanInfos
      ensures spanInfos == old(spanInfos) + OwnSpan(SpanOf(P, attributes, None), pos, pos + len)
    {
      var values := [];
      if attributes == [] {
        values := [Styled(ParagraphStyle, DefaultParagraph)];
      } else {
        values := AttributeStyles(attributes);
      }
      spanInfos := spanInfos + [SpanInfo(Paragraph, pos, pos + len, values)];
    }

    method ToImage(attributes: seq<Attribute>, len: nat, pos: nat)
      modifies this`spanInfos
      ensures spanInfos == old(spanInfos) + OwnSpan(SpanOf(Img, attributes, None), pos, pos + len)
    {
      spanInfos := spanInfos + [SpanInfo(Image, pos, pos + len, [ImageOptions(attributes)])];
    }

    method ToAnchorSpan(attributes: seq<Attribute>, len: nat, pos: nat)
      modifies this`spanInfos
      ensures spanInfos == old(spanInfos) + OwnSpan(SpanOf(A, attributes, None), pos, pos + len)
    {
      var values := [];
      var i := 0;
      while i < |attributes|
        invariant i <= |attributes| && values == LinkStyles(attributes[..i])
      {
        assert attributes[..i + 1][..i] == attributes[..i];
        if attributes[i].name == Href {
          values := values + [Styled(Url, Target(attributes[i].text))];
        }
        if attributes[i].name == StyleAttribute {
          values := values + attributes[i].styles;
        }
        i := i + 1;
      }
      assert attributes[..i] == attributes;
      spanInfos := spanInfos + [SpanInfo(Anchor, pos, pos + len, values)];
    }

    method ToTextSpan(tag: Tag, attributes: seq<Attribute>, len: nat, pos: nat)
      requires tag !in {P, Img, A, Br}
      modifies this`spanInfos
      ensures spanInfos == old(spanInfos) + OwnSpan(SpanOf(tag, attributes, None), pos, pos + len)
    {
      var values := AttributeStyles(attributes);
      var styles := AddStyleSpan(tag);
      values := values + styles;
      if values == [] {
        return;
      }
      spanInfos := spanInfos + [SpanInfo(TextSpan, pos, pos + len, values)];
    }

    /** What an element adds after its children: its newline, and its span over all it contains. */
    method CloseElement(tag: Tag, attributes: seq<Attribute>, parent: Option<Tag>, pos: nat, end: nat)
        returns (childPos: nat)
      requires pos <= end
      modifies this
      ensures allContent == old(allContent) + TailText(TailOf(tag, attributes, parent))
      ensures childPos == end + |TailGlyphs(TailOf(tag, attributes, parent))|
      ensures spanInfos == old(spanInfos) + OwnSpan(SpanOf(tag, attributes, parent), pos, childPos)
    {
      childPos := end;
      NothingAround(allContent);
      NothingAround(spanInfos);
      if tag == P {
        if parent != Some(Span) {
          allContent := allContent + "\n";
          childPos := childPos + 1;
          ToParagraphSpan(attributes, childPos - pos, pos);
        }
      } else if tag == Img {
        childPos := childPos + 1;
        ToImage(attributes, childPos - pos, pos);
      } else if tag == A {
        ToAnchorSpan(attributes, childPos - pos, pos);
      } else if tag == Br {
        allContent := allContent + "\n";
        childPos := childPos + 1;
      } else {
        ToTextSpan(tag, attributes, childPos - pos, pos);
      }
    }

    ghost function Walked(pos: nat): Progress
      reads this
    {
      Progress(allContent, spanInfos, pos)
    }

    /** Appends what a node contributes and returns the position after it. */
    method ToSpan(node: Node, parent: Option<Tag>, pos: nat) returns (newPos: nat)
      requires !node.Other?
      modifies this
      ensures Walked(newPos) == AfterBox(old(Walked(pos)), BoxOf(node, parent))
      decreases node
    {
      if node.Text? {
        allContent := allContent + node.content;
        NothingAround(spanInfos);
        return pos + |node.content|;
      }
      var tag, attributes := node.tag, node.attributes;
      var childPos := ParseHtmlToSpanInfo(node.children, Some(tag), pos);
      newPos := CloseElement(tag, attributes, parent, pos, childPos);
      ghost var inner := Boxes(node.children, Some(tag));
      Assoc(old(allContent), PlainText(inner), TailText(TailOf(tag, attributes, parent)));
      Assoc(old(spanInfos), Spans(inner, pos), OwnSpan(SpanOf(tag, attributes, parent), pos, newPos));
    }

    /** The walk over a list of siblings; nodes that are neither elements nor text are skipped. */
    method ParseHtmlToSpanInfo(nodes: seq<Node>, parent: Option<Tag>, start: nat) returns (pos: nat)
      modifies this
      ensures Walked(pos) == AfterBoxes(old(Walked(start)), Boxes(nodes, parent))
      decreases nodes
    {
      pos := start;
      var i := 0;
      assert nodes[0..] == nodes;
      while i < |nodes|
        invariant i <= |nodes|
        invariant AfterBoxes(Walked(pos), Boxes(nodes[i..], parent))
          == AfterBoxes(old(Walked(start)), Boxes(nodes, parent))
      {
        AfterBoxesStep(Walked(pos), nodes, i, parent);
        if nodes[i].Element? || nodes[i].Text? {
          pos := ToSpan(nodes[i], parent, pos);
        } else {
          AfterNothing(Walked(pos));
        }
        i := i + 1;
      }
      AfterNothing(Walked(pos));
      assert nodes[i..] == [];
    }

    /** The paragraph fix-up, in place. */
    method AfterProcSpanInfos()
      modifies this`spanInfos
      ensures spanInfos == FixUp(old(spanInfos))
    {
      var paragraphPos := [];
      var i := 0;
      while i < |spanInfos|
        invariant i <= |spanInfos| && spanInfos == old(spanInfos) && paragraphPos == Paragraphs(spanInfos[..i])
      {
        assert spanInfos[..i + 1][..i] == spanInfos[..i];
        if spanInfos[i].htmlType == Paragraph {
          paragraphPos := paragraphPos + [Interval(spanInfos[i].start, spanInfos[i].end)];
        }
        i := i + 1;
      }
      assert spanInfos[..i] == spanInfos;
      var p := 0;
      while p < |paragraphPos|
        invariant p <= |paragraphPos| && spanInfos == ExtendAll(old(spanInfos), paragraphPos[..p])
      {
        PrefixStep(paragraphPos, p);
        ExtendOne(paragraphPos[p].end);
        p := p + 1;
      }
      assert paragraphPos[..p] == paragraphPos;
    }

    /** The inner loop of the fix-up. */
    method ExtendOne(end: nat)
      modifies this`spanInfos
      ensures spanInfos == ExtendFirst(old(spanInfos), end)
    {
      var i := 0;
      NothingAround(ExtendFirst(spanInfos, end));
      assert spanInfos[..0] == [] && spanInfos[0..] == spanInfos;
      while i < |spanInfos|
        invariant i <= |spanInfos| && spanInfos == old(spanInfos)
        invariant spanInfos[..i] + ExtendFirst(spanInfos[i..], end) == ExtendFirst(spanInfos, end)
      {
        var info := spanInfos[i];
        ExtendFirstAt(spanInfos, i, end);
        if info.htmlType != Paragraph && info.htmlType != Image && end == info.end + 1 {
          spanInfos := spanInfos[i := info.(end := info.end + 1)];
          return;
        }
        i := i + 1;
      }
      assert spanInfos[..i] == spanInfos && spanInfos[i..] == [];
      NothingAround(spanInfos);
    }

    method AddImageSpans(info: SpanInfo, span: MutableSpanString)
      requires info.start <= |span.cells|
      modifies span
      ensures span.cells == InsertValues(old(span.cells), info.start, info.values)
    {
      var i := 0;
      while i < |info.values|
        invariant i <= |info.values| && span.cells == InsertValues(old(span.cells), info.start, info.values[..i])
      {
        assert info.values[..i + 1][..i] == info.values[..i];
        var value := info.values[i];
        i := i + 1;
        if !value.ImageOptions? {
          continue;
        }
        span.InsertSpanString(info.start, Cell(Picture(value.attributes), map[]));
      }
      assert info.values[..i] == info.values;
    }

    method AddSpans(info: SpanInfo, span: MutableSpanString)
      requires info.htmlType != Image && info.start <= info.end <= |span.cells|
      modifies span
      ensures span.cells == PaintInfo(old(span.cells), info)
    {
      var i := 0;
      ghost var was := span.cells;
      assert PaintInfo(was, info.(values := [])) == was by {
        assert forall m: Styles :: m + map[] == m;
      }
      while i < |info.values|
        invariant i <= |info.values| && span.cells == PaintInfo(was, info.(values := info.values[..i]))
      {
        MergedStep(info.values, i);
        match info.values[i] {
          case Styled(kind, value) =>
            span.AddSpan(kind, value, info.start, info.end);
            AddedStep(was, info, i, span.cells);
          case _ =>
        }
        i := i + 1;
      }
      assert info.values[..i] == info.values;
    }

    /** Images first, in list order; then styles, from the last span to the first. */
    method GenerateSpans(content: string) returns (span: MutableSpanString)
      requires InRange(Dress(Letters(content), map[]), spanInfos)
      requires var cells := InsertImages(Dress(Letters(content), map[]), spanInfos);
        forall info :: info in spanInfos ==> info.start <= info.end <= |cells|
      ensures fresh(span)
      ensures span.cells == Paint(InsertImages(Dress(Letters(content), map[]), spanInfos), spanInfos)
    {
      span := new MutableSpanString(content);
      if spanInfos == [] {
        return;
      }
      ghost var target := InsertImages(span.cells, spanInfos);
      var i := 0;
      assert spanInfos[0..] == spanInfos;
      while i < |spanInfos|
        invariant i <= |spanInfos|
        invariant InRange(span.cells, spanInfos[i..]) && InsertImages(span.cells, spanInfos[i..]) == target
      {
        assert spanInfos[i..][0] == spanInfos[i] && spanInfos[i..][1..] == spanInfos[i + 1..];
        if spanInfos[i].htmlType == Image {
          AddImageSpans(spanInfos[i], span);
        }
        i := i + 1;
      }
      assert span.cells == target;
      i := |spanInfos| - 1;
      while i >= 0
        invariant -1 <= i < |spanInfos|
        invariant span.cells == Paint(target, spanInfos[i + 1..])
      {
        assert spanInfos[i] in spanInfos;
        assert spanInfos[i..][0] == spanInfos[i] && spanInfos[i..][1..] == spanInfos[i + 1..];
        PaintSkipsImage(span.cells, spanInfos[i]);
        if spanInfos[i].htmlType == Paragraph {
          AddSpans(spanInfos[i], span);
        } else if spanInfos[i].htmlType != Image {
          AddSpans(spanInfos[i], span);
        }
        i := i - 1;
      }
      assert spanInfos[0..] == spanInfos;
    }
  }

  /** One turn of the search for a span to extend. */
  lemma ExtendFirstAt(infos: seq<SpanInfo>, i: nat, end: nat)
    requires i < |infos|
    ensures infos[..i] + ExtendFirst(infos[i..], end) ==
      if Extendable(infos[i], end) then infos[i := infos[i].(end := end)]
      else infos[..i + 1] + ExtendFirst(infos[i + 1..], end)
  {
    SuffixStep(infos, i);
    PrefixStep(infos, i);
    Assoc(infos[..i], [infos[i]], ExtendFirst(infos[i + 1..], end));
    UpdateSplits(infos, i, infos[i].(end := end));
  }

  lemma UpdateSplits<T>(s: seq<T>, i: nat, x: T)
    requires i < |s|
    ensures s[i := x] == s[..i] + ([x] + s[i + 1..])
  {
  }

  lemma PaintSkipsImage(cells: seq<Cell>, info: SpanInfo)
    ensures info.htmlType == Image ==> PaintInfo(cells, info) == cells
  {
  }

  lemma MergedStep(values: seq<StyleValue>, i: nat)
    requires i < |values|
    ensures Merged(values[..i + 1]) ==
      if values[i].Styled? then Merged(values[..i])[values[i].kind := values[i].value] else Merged(values[..i])
  {
    assert values[..i + 1][..i] == values[..i];
  }

  /** Adding the next value of a span to a string painted with the values before it. */
  lemma AddedStep(was: seq<Cell>, info: SpanInfo, i: nat, after: seq<Cell>)
    requires i < |info.values| && info.values[i].Styled? && |after| == |was| && info.htmlType != Image
    requires var painted := PaintInfo(was, info.(values := info.values[..i]));
      forall k :: 0 <= k < |was| ==>
        after[k] == Overwritten(painted[k], info.values[i].kind, info.values[i].value, info.start <= k < info.end)
    ensures after == PaintInfo(was, info.(values := info.values[..i + 1]))
  {
    MergedStep(info.values, i);
    var now := info.(values := info.values[..i + 1]);
    forall k | 0 <= k < |was|
      ensures after[k] == Painted(was[k], now, k)
    {
      MapPut(was[k].styles, Merged(info.values[..i]), info.values[i].kind, info.values[i].value);
    }
  }

  lemma MapPut(m: Styles, n: Styles, kind: StyleKind, value: StyleText)
    ensures (m + n)[kind := value] == m + n[kind := value]
  {
  }

  // ----- The whole conversion -----

  /** The fix-up leaves the images alone. */
  lemma {:induction false} SameImages(cells: seq<Cell>, infos: seq<SpanInfo>, after: seq<SpanInfo>,
                                      paragraphs: seq<Interval>)
    requires Extends(infos, after, paragraphs) && InRange(cells, infos)
    ensures InRange(cells, after) && InsertImages(cells, after) == InsertImages(cells, infos)
    decreases |infos|
  {
    if infos != [] {
      assert SpanExtends(infos[0], after[0], paragraphs);
      ExtendsTail(infos, after, paragraphs, 0);
      if infos[0].htmlType == Image {
        SameImages(InsertValues(cells, infos[0].start, infos[0].values), infos[1..], after[1..], paragraphs);
      } else {
        SameImages(cells, infos[1..], after[1..], paragraphs);
      }
    }
  }

  /** The finished list is in bounds at every step of the build, and the image phase yields the
      single-pass flattening. */
  lemma BuildIsInBounds(boxes: seq<Box>)
    requires AllWellShaped(boxes) && AllVoid(boxes)
    ensures var cells := Dress(Letters(PlainText(boxes)), map[]);
      var infos := FixUp(Spans(boxes, 0));
      && InRange(cells, infos)
      && InsertImages(cells, infos) == Dress(Flat(boxes), map[])
      && forall info :: info in infos ==> info.start <= info.end <= |Flat(boxes)|
  {
    var infos := Spans(boxes, 0);
    InsertedDocument(boxes);
    FixUpInBounds(boxes);
    SameImages(Dress(Letters(PlainText(boxes)), map[]), infos, FixUp(infos), Paragraphs(infos));
    forall info | info in FixUp(infos)
      ensures info.start <= info.end <= |Flat(boxes)|
    {
      var i :| 0 <= i < |FixUp(infos)| && FixUp(infos)[i] == info;
      assert Within(FixUp(infos)[i], 0, |Flat(boxes)|);
    }
  }

  lemma InsertedDocument(boxes: seq<Box>)
    requires AllWellShaped(boxes) && AllVoid(boxes)
    ensures var cells := Dress(Letters(PlainText(boxes)), map[]);
      && InRange(cells, Spans(boxes, 0))
      && InsertImages(cells, Spans(boxes, 0)) == Dress(Flat(boxes), map[])
  {
    Bare(Dress(Letters(PlainText(boxes)), map[]));
    Bare(Dress(Flat(boxes), map[]));
    InsertIsFlat([], boxes, []);
  }

  lemma Bare(cells: seq<Cell>)
    ensures [] + cells + [] == cells
  {
  }

  /** The styled string of a document: at every position the glyph and the styles that inheritance on
      the tree gives, except for the styles of newlines over which the fix-up extended a span. */
  method ToSpanString(nodes: seq<Node>) returns (span: MutableSpanString)
    requires VoidImages(nodes)
    ensures span.cells == Paint(Dress(Flat(Document(nodes)), map[]), FixUp(Spans(Document(nodes), 0)))
    ensures var infos := Spans(Document(nodes), 0);
      var reference := Render(Document(nodes), map[]);
      && |span.cells| == |reference| && |FixUp(infos)| == |infos|
      && forall k: nat :: k < |reference| ==>
           (span.cells[k].glyph == reference[k].glyph
            && ((forall i :: !Restyles(infos, FixUp(infos), k, i)) ==> span.cells[k] == reference[k]))
  {
    var converter := new HtmlToSpan();
    var pos := converter.ParseHtmlToSpanInfo(nodes, None, 0);
    ghost var boxes := Document(nodes);
    NothingAround(PlainText(boxes));
    NothingAround(Spans(boxes, 0));
    converter.AfterProcSpanInfos();
    BoxesAreWellShaped(nodes, None);
    BoxesAreVoid(nodes, None);
    BuildIsInBounds(boxes);
    span := converter.GenerateSpans(converter.allContent);
    PaintIsRender(boxes);
    FixUpInBounds(boxes);
    forall k: nat | k < |Flat(boxes)| {
      FinalMeaning(boxes, k);
    }
  }
}
