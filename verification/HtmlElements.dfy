/** Which elements of a document give which text and which spans, read off the nodes themselves: tags and
    parents are compared here and not through boxes. */
module HtmlElements {
  import opened Prelude
  import opened HtmlModel
  import opened HtmlMeaning
  import opened HtmlFixUp

  // ----- Text -----

  /** An unspanned paragraph and a line break add a newline after their content, an image its placeholder. */
  function GlyphsAdded(tag: Tag, attributes: seq<Attribute>, parent: Option<Tag>): seq<Glyph> {
    if (tag == P && parent != Some(Span)) || tag == Br then [Letter('\n')]
    else if tag == Img then [Picture(attributes)]
    else []
  }

  function GlyphsOf(nodes: seq<Node>, parent: Option<Tag>): seq<Glyph>
    decreases nodes
  {
    if nodes == [] then [] else GlyphsOfNode(nodes[0], parent) + GlyphsOf(nodes[1..], parent)
  }

  function GlyphsOfNode(node: Node, parent: Option<Tag>): seq<Glyph>
    decreases node
  {
    match node
    case Element(tag, attributes, children) =>
      GlyphsOf(children, Some(tag)) + GlyphsAdded(tag, attributes, parent)
    case Text(content) => Letters(content)
    case Other => []
  }

  /** The flattening of a document is that of its nodes. */
  lemma {:induction false} FlatIsGlyphs(nodes: seq<Node>, parent: Option<Tag>)
    ensures Flat(Boxes(nodes, parent)) == GlyphsOf(nodes, parent)
    decreases nodes
  {
    if nodes != [] {
      FlatNodeIsGlyphs(nodes[0], parent);
      FlatIsGlyphs(nodes[1..], parent);
      HeadOfAppend([BoxOf(nodes[0], parent)], Boxes(nodes[1..], parent));
      NothingAround(Boxes(nodes[1..], parent));
    }
  }

  lemma {:induction false} FlatNodeIsGlyphs(node: Node, parent: Option<Tag>)
    ensures FlatBox(BoxOf(node, parent)) == GlyphsOfNode(node, parent)
    decreases node
  {
    if node.Element? {
      FlatIsGlyphs(node.children, Some(node.tag));
    }
  }

  // ----- Newlines -----

  /** Characters in text nodes. */
  function TextLength(nodes: seq<Node>): nat {
    if nodes == [] then 0
    else
      (match nodes[0]
       case Element(_, _, children) => TextLength(children)
       case Text(content) => |content|
       case Other => 0)
      + TextLength(nodes[1..])
  }

  function Breaks(nodes: seq<Node>): nat {
    if nodes == [] then 0
    else
      (if nodes[0].Element? then (if nodes[0].tag == Br then 1 else 0) + Breaks(nodes[0].children) else 0)
      + Breaks(nodes[1..])
  }

  /** The p elements whose parent is no span element. */
  function ParagraphElements(nodes: seq<Node>, parent: Option<Tag>): nat
    decreases nodes
  {
    if nodes == [] then 0
    else
      (if nodes[0].Element?
       then (if nodes[0].tag == P && parent != Some(Span) then 1 else 0)
            + ParagraphElements(nodes[0].children, Some(nodes[0].tag))
       else 0)
      + ParagraphElements(nodes[1..], parent)
  }

  /** The newlines added to the text are one per unspanned paragraph and one per line break. */
  lemma {:induction false} NewlinesAdded(nodes: seq<Node>, parent: Option<Tag>)
    ensures |PlainText(Boxes(nodes, parent))|
         == TextLength(nodes) + ParagraphElements(nodes, parent) + Breaks(nodes)
    decreases nodes
  {
    if nodes != [] {
      NewlinesAdded(nodes[1..], parent);
      HeadOfAppend([BoxOf(nodes[0], parent)], Boxes(nodes[1..], parent));
      NothingAround(Boxes(nodes[1..], parent));
      if nodes[0].Element? {
        NewlinesAdded(nodes[0].children, Some(nodes[0].tag));
      }
    }
  }

  // ----- Spans -----

  predicate ImpliesStyle(tag: Tag) {
    tag in {Strong, B, Sup, Sub, Del, S, U, I, Em}
  }

  /** Whether an element emits a span of a type. */
  predicate Emits(tag: Tag, attributes: seq<Attribute>, parent: Option<Tag>, wanted: HtmlType) {
    match wanted
    case Paragraph => tag == P && parent != Some(Span)
    case Image => tag == Img
    case Anchor => tag == A
    case TextSpan =>
      tag !in {P, Img, A, Br}
      && (ImpliesStyle(tag) || GivesStyle(attributes))
  }

  predicate GivesStyle(attributes: seq<Attribute>) {
    exists i :: 0 <= i < |attributes| && attributes[i].styles != []
  }

  function RangeIf(emitted: bool, start: nat, end: nat): seq<Interval> {
    if emitted then [Interval(start, end)] else []
  }

  /** The ranges of the elements that emit a span of a type, children before their parents: each starts where its
      element starts and ends after all the element contributes. */
  function RangesOf(nodes: seq<Node>, parent: Option<Tag>, pos: nat, wanted: HtmlType): seq<Interval>
    decreases nodes
  {
    if nodes == [] then []
    else
      RangesOfNode(nodes[0], parent, pos, wanted)
      + RangesOf(nodes[1..], parent, pos + |GlyphsOfNode(nodes[0], parent)|, wanted)
  }

  function RangesOfNode(node: Node, parent: Option<Tag>, pos: nat, wanted: HtmlType): seq<Interval>
    decreases node
  {
    match node
    case Element(tag, attributes, children) =>
      RangesOf(children, Some(tag), pos, wanted)
      + RangeIf(Emits(tag, attributes, parent, wanted), pos, pos + |GlyphsOfNode(node, parent)|)
    case _ => []
  }

  /** The ranges of the spans of a type, in list order. */
  function OfType(infos: seq<SpanInfo>, wanted: HtmlType): seq<Interval> {
    if infos == [] then []
    else
      RangeIf(infos[0].htmlType == wanted, infos[0].start, infos[0].end) + OfType(infos[1..], wanted)
  }

  lemma {:induction false} OfTypeAppend(a: seq<SpanInfo>, b: seq<SpanInfo>, wanted: HtmlType)
    ensures OfType(a + b, wanted) == OfType(a, wanted) + OfType(b, wanted)
    decreases |a|
  {
    if a == [] {
      NothingAround(b);
    } else {
      HeadOfAppend(a, b);
      OfTypeAppend(a[1..], b, wanted);
      Assoc(RangeIf(a[0].htmlType == wanted, a[0].start, a[0].end), OfType(a[1..], wanted), OfType(b, wanted));
    }
  }

  lemma {:induction false} SomeStyles(attributes: seq<Attribute>)
    ensures AllStyles(attributes) != [] <==> GivesStyle(attributes)
    decreases |attributes|
  {
    if attributes != [] {
      var n := |attributes| - 1;
      SomeStyles(attributes[..n]);
      assert attributes[..n] + [attributes[n]] == attributes;
      LastGivesStyle(attributes[..n], attributes[n]);
    }
  }

  lemma LastGivesStyle(a: seq<Attribute>, last: Attribute)
    ensures GivesStyle(a + [last]) <==> GivesStyle(a) || last.styles != []
  {
    if last.styles != [] {
      assert (a + [last])[|a|].styles != [];
    } else if i :| 0 <= i < |a| && a[i].styles != [] {
      assert (a + [last])[i].styles != [];
    }
  }

  /** The type of span an element emits, if any. */
  lemma EmitsIff(tag: Tag, attributes: seq<Attribute>, parent: Option<Tag>, wanted: HtmlType)
    ensures var span := SpanOf(tag, attributes, parent);
      Emits(tag, attributes, parent, wanted) <==> span.Some? && span.value.htmlType == wanted
  {
    if tag !in {P, Img, A, Br} {
      TextSpanIff(tag, attributes, parent);
    }
  }

  lemma TextSpanIff(tag: Tag, attributes: seq<Attribute>, parent: Option<Tag>)
    requires tag !in {P, Img, A, Br}
    ensures var span := SpanOf(tag, attributes, parent);
      && (span.Some? <==> Emits(tag, attributes, parent, TextSpan))
      && (span.Some? ==> span.value.htmlType == TextSpan)
  {
    SomeStyles(attributes);
    TagImplies(tag);
    assert AllStyles(attributes) + TagStyles(tag) == [] <==> AllStyles(attributes) == [] && TagStyles(tag) == [];
  }

  lemma TagImplies(tag: Tag)
    ensures TagStyles(tag) != [] <==> ImpliesStyle(tag)
  {
  }

  /** The same ranges, read off the boxes. */
  function RangesIn(boxes: seq<Box>, pos: nat, wanted: HtmlType): seq<Interval>
    decreases boxes
  {
    if boxes == [] then []
    else RangesInBox(boxes[0], pos, wanted) + RangesIn(boxes[1..], pos + |FlatBox(boxes[0])|, wanted)
  }

  function RangesInBox(box: Box, pos: nat, wanted: HtmlType): seq<Interval>
    decreases box
  {
    match box
    case Box(span, _, inner) => RangesIn(inner, pos, wanted) + RangeOwn(span, pos, pos + |FlatBox(box)|, wanted)
    case Run(_) => []
  }

  function RangeOwn(span: Option<SpanStyle>, start: nat, end: nat, wanted: HtmlType): seq<Interval> {
    RangeIf(span.Some? && span.value.htmlType == wanted, start, end)
  }

  lemma OwnOfType(span: Option<SpanStyle>, start: nat, end: nat, wanted: HtmlType)
    ensures OfType(OwnSpan(span, start, end), wanted) == RangeOwn(span, start, end, wanted)
  {
    var own := OwnSpan(span, start, end);
    if own != [] {
      assert own[1..] == [] && OfType([], wanted) == [];
    }
  }

  lemma {:induction false} SpansHaveRanges(boxes: seq<Box>, pos: nat, wanted: HtmlType)
    ensures OfType(Spans(boxes, pos), wanted) == RangesIn(boxes, pos, wanted)
    decreases boxes
  {
    if boxes != [] {
      var mid := pos + |FlatBox(boxes[0])|;
      BoxSpansHaveRanges(boxes[0], pos, wanted);
      SpansHaveRanges(boxes[1..], mid, wanted);
      OfTypeAppend(SpansBox(boxes[0], pos), Spans(boxes[1..], mid), wanted);
    }
  }

  lemma {:induction false} BoxSpansHaveRanges(box: Box, pos: nat, wanted: HtmlType)
    ensures OfType(SpansBox(box, pos), wanted) == RangesInBox(box, pos, wanted)
    decreases box
  {
    if box.Box? {
      var end := pos + |FlatBox(box)|;
      SpansHaveRanges(box.inner, pos, wanted);
      OwnOfType(box.span, pos, end, wanted);
      OfTypeAppend(Spans(box.inner, pos), OwnSpan(box.span, pos, end), wanted);
    }
  }

  lemma RangesInCons(first: Box, rest: seq<Box>, pos: nat, wanted: HtmlType)
    ensures RangesIn([first] + rest, pos, wanted)
         == RangesInBox(first, pos, wanted) + RangesIn(rest, pos + |FlatBox(first)|, wanted)
  {
    HeadOfAppend([first], rest);
    NothingAround(rest);
  }

  lemma {:induction false} RangesAreElements(nodes: seq<Node>, parent: Option<Tag>, pos: nat, wanted: HtmlType)
    ensures RangesIn(Boxes(nodes, parent), pos, wanted) == RangesOf(nodes, parent, pos, wanted)
    decreases nodes
  {
    if nodes != [] {
      NodeRangesAreElements(nodes[0], parent, pos, wanted);
      FlatNodeIsGlyphs(nodes[0], parent);
      RangesAreElements(nodes[1..], parent, pos + |GlyphsOfNode(nodes[0], parent)|, wanted);
      RangesInCons(BoxOf(nodes[0], parent), Boxes(nodes[1..], parent), pos, wanted);
    }
  }

  lemma {:induction false} NodeRangesAreElements(node: Node, parent: Option<Tag>, pos: nat, wanted: HtmlType)
    ensures RangesInBox(BoxOf(node, parent), pos, wanted) == RangesOfNode(node, parent, pos, wanted)
    decreases node
  {
    if node.Element? {
      RangesAreElements(node.children, Some(node.tag), pos, wanted);
      FlatNodeIsGlyphs(node, parent);
      EmitsIff(node.tag, node.attributes, parent, wanted);
    }
  }

  /** For every type: the spans of the list are those of the elements that emit one, range by range. */
  lemma SpansAreElements(nodes: seq<Node>, parent: Option<Tag>, pos: nat, wanted: HtmlType)
    ensures OfType(Spans(Boxes(nodes, parent), pos), wanted) == RangesOf(nodes, parent, pos, wanted)
  {
    SpansHaveRanges(Boxes(nodes, parent), pos, wanted);
    RangesAreElements(nodes, parent, pos, wanted);
  }

  /** Paragraphs: as many spans as p elements whose parent is no span element, each of them over the element's
      content and the newline after it. */
  lemma {:induction false} ParagraphCount(nodes: seq<Node>, parent: Option<Tag>, pos: nat)
    ensures |OfType(Spans(Boxes(nodes, parent), pos), Paragraph)| == ParagraphElements(nodes, parent)
  {
    SpansAreElements(nodes, parent, pos, Paragraph);
    RangeCount(nodes, parent, pos);
  }

  lemma {:induction false} RangeCount(nodes: seq<Node>, parent: Option<Tag>, pos: nat)
    ensures |RangesOf(nodes, parent, pos, Paragraph)| == ParagraphElements(nodes, parent)
    decreases nodes
  {
    if nodes != [] {
      RangeCount(nodes[1..], parent, pos + |GlyphsOfNode(nodes[0], parent)|);
      if nodes[0].Element? {
        RangeCount(nodes[0].children, Some(nodes[0].tag), pos);
      }
    }
  }

  /** The paragraphs that the fix-up works through are these. */
  lemma {:induction false} FixUpParagraphs(infos: seq<SpanInfo>)
    ensures Paragraphs(infos) == OfType(infos, Paragraph)
    decreases |infos|
  {
    if infos != [] {
      var n := |infos| - 1;
      FixUpParagraphs(infos[..n]);
      OfTypeAppend(infos[..n], [infos[n]], Paragraph);
      assert infos[..n] + [infos[n]] == infos;
      assert [infos[n]][1..] == [] && OfType([], Paragraph) == [];
    }
  }

  // ----- Style values -----

  /** What tags imply. */
  lemma TagsImply(tag: Tag)
    ensures |TagStyles(tag)| <= 1
    ensures Styled(Font, Bold) in TagStyles(tag) <==> tag == Strong || tag == B
    ensures Styled(Font, Italic) in TagStyles(tag) <==> tag == I || tag == Em
    ensures Styled(Font, Superscript) in TagStyles(tag) <==> tag == Sup
    ensures Styled(Font, Subscript) in TagStyles(tag) <==> tag == Sub
    ensures Styled(Decoration, LineThrough) in TagStyles(tag) <==> tag == Del || tag == S
    ensures Styled(Decoration, Underline) in TagStyles(tag) <==> tag == U
  {
  }

  /** Attribute values are taken attribute by attribute. */
  lemma {:induction false} StylesInOrder(a: seq<Attribute>, last: Attribute)
    ensures AllStyles(a + [last]) == AllStyles(a) + last.styles
    ensures LinkStyles(a + [last]) == LinkStyles(a) +
      match last.name
      case Href => [Styled(Url, Target(last.text))]
      case StyleAttribute => last.styles
      case OtherAttribute(_) => []
  {
    assert (a + [last])[..|a|] == a;
    NothingAround(LinkStyles(a));
    NothingAround(LinkStyles(a) + [Styled(Url, Target(last.text))]);
  }

  /** The values of each type of span. */
  lemma SpanValues(tag: Tag, attributes: seq<Attribute>, parent: Option<Tag>)
    requires SpanOf(tag, attributes, parent).Some?
    ensures var values := SpanOf(tag, attributes, parent).value.values;
      && (tag == P ==> values == if attributes == [] then [Styled(ParagraphStyle, DefaultParagraph)]
                                 else AllStyles(attributes))
      && (tag == Img ==> values == [ImageOptions(attributes)])
      && (tag == A ==> values == LinkStyles(attributes))
      && (tag !in {P, Img, A} ==> values == AllStyles(attributes) + TagStyles(tag))
  {
  }

  predicate Sets(value: StyleValue, kind: StyleKind) {
    value.Styled? && value.kind == kind
  }

  /** Of several values of one kind the last one counts. */
  lemma {:induction false} LastValueCounts(values: seq<StyleValue>, kind: StyleKind, i: nat)
    requires i < |values| && Sets(values[i], kind) && forall j :: i < j < |values| ==> !Sets(values[j], kind)
    ensures kind in Merged(values) && Merged(values)[kind] == values[i].value
    decreases |values|
  {
    var n := |values| - 1;
    if i < n {
      assert !Sets(values[n], kind);
      LastValueCounts(values[..n], kind, i);
    }
  }

  lemma {:induction false} UnsetKind(values: seq<StyleValue>, kind: StyleKind)
    requires forall j :: 0 <= j < |values| ==> !Sets(values[j], kind)
    ensures kind !in Merged(values)
    decreases |values|
  {
    if values != [] {
      assert !Sets(values[|values| - 1], kind);
      UnsetKind(values[..|values| - 1], kind);
    }
  }
}
