/** HTML documents, span intervals and styled text. Every element becomes a box: the span it emits over its
    whole range, if any, and what it adds after its children. Text, positions and spans are read off the boxes. */
module HtmlModel {
  import opened Prelude

  datatype StyleKind =
    | Font | Decoration | Baseline | LetterSpace | LineHeight | Shadows | ParagraphStyle | BackgroundColor | Url

  /** Style values: those that tags imply, a link target, or whatever the CSS parser makes of a text. */
  datatype StyleText =
    | DefaultParagraph | Bold | Italic | Superscript | Subscript | LineThrough | Underline
    | Target(url: string) | Css(text: string)

  /** One alternative of the style variant. */
  datatype StyleValue = Monostate | Styled(kind: StyleKind, value: StyleText) | ImageOptions(attributes: seq<Attribute>)

  datatype AttributeName = Href | StyleAttribute | OtherAttribute(name: string)

  /** An attribute with its text and the style values the CSS parser makes of that text. */
  datatype Attribute = Attribute(name: AttributeName, text: string, styles: seq<StyleValue>)

  /** Element names; the named ones are those the converter tells apart. */
  datatype Tag =
    | P | Img | A | Br | Span | Strong | B | Sup | Sub | Del | S | U | I | Em | OtherTag(name: string)

  datatype Node =
    | Element(tag: Tag, attributes: seq<Attribute>, children: seq<Node>)
    | Text(content: string)
    | Other

  datatype HtmlType = Paragraph | Image | TextSpan | Anchor

  datatype SpanInfo = SpanInfo(htmlType: HtmlType, start: nat, end: nat, values: seq<StyleValue>)

  datatype Glyph = Letter(c: char) | Picture(attributes: seq<Attribute>)

  type Styles = map<StyleKind, StyleText>

  /** One position of the styled string. */
  datatype Cell = Cell(glyph: Glyph, styles: Styles)

  // ----- Boxes -----

  datatype SpanStyle = SpanStyle(htmlType: HtmlType, values: seq<StyleValue>)

  /** What an element adds after its children. */
  datatype Tail = Nothing | Newline | Placeholder(attributes: seq<Attribute>)

  datatype Box =
    | Box(span: Option<SpanStyle>, tail: Tail, inner: seq<Box>)
    | Run(text: string)

  /** A paragraph directly inside a span element is dropped, though its children are not. */
  predicate Discarded(tag: Tag, parent: Option<Tag>) {
    tag == P && parent == Some(Span)
  }

  function TailOf(tag: Tag, attributes: seq<Attribute>, parent: Option<Tag>): Tail {
    if tag == P then (if Discarded(tag, parent) then Nothing else Newline)
    else if tag == Img then Placeholder(attributes)
    else if tag == Br then Newline
    else Nothing
  }

  function AllStyles(attributes: seq<Attribute>): seq<StyleValue> {
    if attributes == [] then [] else AllStyles(attributes[..|attributes| - 1]) + attributes[|attributes| - 1].styles
  }

  function TagStyles(tag: Tag): seq<StyleValue> {
    match tag
    case Strong => [Styled(Font, Bold)]
    case B => [Styled(Font, Bold)]
    case Sup => [Styled(Font, Superscript)]
    case Sub => [Styled(Font, Subscript)]
    case Del => [Styled(Decoration, LineThrough)]
    case S => [Styled(Decoration, LineThrough)]
    case U => [Styled(Decoration, Underline)]
    case I => [Styled(Font, Italic)]
    case Em => [Styled(Font, Italic)]
    case _ => []
  }

  function LinkStyles(attributes: seq<Attribute>): seq<StyleValue> {
    if attributes == [] then []
    else
      var last := attributes[|attributes| - 1];
      LinkStyles(attributes[..|attributes| - 1])
      + (if last.name == Href then [Styled(Url, Target(last.text))] else [])
      + (if last.name == StyleAttribute then last.styles else [])
  }

  function ParagraphStyles(attributes: seq<Attribute>): seq<StyleValue> {
    if attributes == [] then [Styled(ParagraphStyle, DefaultParagraph)] else AllStyles(attributes)
  }

  /** The span an element emits, if any. */
  function SpanOf(tag: Tag, attributes: seq<Attribute>, parent: Option<Tag>): Option<SpanStyle> {
    if tag == P then
      if Discarded(tag, parent) then None else Some(SpanStyle(Paragraph, ParagraphStyles(attributes)))
    else if tag == Img then Some(SpanStyle(Image, [ImageOptions(attributes)]))
    else if tag == A then Some(SpanStyle(Anchor, LinkStyles(attributes)))
    else if tag == Br then None
    else
      var values := AllStyles(attributes) + TagStyles(tag);
      if values == [] then None else Some(SpanStyle(TextSpan, values))
  }

  function BoxOf(node: Node, parent: Option<Tag>): Box
    decreases node
  {
    match node
    case Element(tag, attributes, children) =>
      Box(SpanOf(tag, attributes, parent), TailOf(tag, attributes, parent), Boxes(children, Some(tag)))
    case Text(content) => Run(content)
    case Other => Run([])
  }

  function Boxes(nodes: seq<Node>, parent: Option<Tag>): seq<Box>
    decreases nodes
  {
    if nodes == [] then [] else [BoxOf(nodes[0], parent)] + Boxes(nodes[1..], parent)
  }

  function Document(nodes: seq<Node>): seq<Box> {
    Boxes(nodes, None)
  }

  // ----- What boxes contribute -----

  function Letters(s: string): (glyphs: seq<Glyph>)
    ensures |glyphs| == |s| && forall i :: 0 <= i < |s| ==> glyphs[i] == Letter(s[i])
  {
    seq(|s|, i requires 0 <= i < |s| => Letter(s[i]))
  }

  function TailGlyphs(tail: Tail): seq<Glyph> {
    match tail case Nothing => [] case Newline => [Letter('\n')] case Placeholder(attributes) => [Picture(attributes)]
  }

  function TailText(tail: Tail): string {
    if tail.Newline? then "\n" else []
  }

  /** All glyphs in a single pass, with a placeholder per image. */
  function Flat(boxes: seq<Box>): seq<Glyph>
    decreases boxes
  {
    if boxes == [] then [] else FlatBox(boxes[0]) + Flat(boxes[1..])
  }

  function FlatBox(box: Box): seq<Glyph>
    decreases box
  {
    match box
    case Box(_, tail, inner) => Flat(inner) + TailGlyphs(tail)
    case Run(text) => Letters(text)
  }

  /** The text alone. */
  function PlainText(boxes: seq<Box>): string
    decreases boxes
  {
    if boxes == [] then [] else PlainTextBox(boxes[0]) + PlainText(boxes[1..])
  }

  function PlainTextBox(box: Box): string
    decreases box
  {
    match box
    case Box(_, tail, inner) => PlainText(inner) + TailText(tail)
    case Run(text) => text
  }

  function OwnSpan(span: Option<SpanStyle>, start: nat, end: nat): seq<SpanInfo> {
    if span.None? then [] else [SpanInfo(span.value.htmlType, start, end, span.value.values)]
  }

  /** The spans of boxes that start at `pos`, in post-order. */
  function Spans(boxes: seq<Box>, pos: nat): seq<SpanInfo>
    decreases boxes
  {
    if boxes == [] then [] else SpansBox(boxes[0], pos) + Spans(boxes[1..], pos + |FlatBox(boxes[0])|)
  }

  function SpansBox(box: Box, pos: nat): seq<SpanInfo>
    decreases box
  {
    match box
    case Box(span, _, inner) => Spans(inner, pos) + OwnSpan(span, pos, pos + |FlatBox(box)|)
    case Run(_) => []
  }

  function Pictures(boxes: seq<Box>): nat {
    if boxes == [] then 0
    else
      (if boxes[0].Box? then (if boxes[0].tail.Placeholder? then 1 else 0) + Pictures(boxes[0].inner) else 0)
      + Pictures(boxes[1..])
  }

  /** Position advance is characters appended plus images met. */
  lemma {:induction false} AdvanceCounts(boxes: seq<Box>)
    ensures |Flat(boxes)| == |PlainText(boxes)| + Pictures(boxes)
  {
    if boxes != [] {
      if boxes[0].Box? {
        AdvanceCounts(boxes[0].inner);
      }
      AdvanceCounts(boxes[1..]);
    }
  }

  // ----- Shapes that elements give -----

  /** Images are void elements, as the HTML parser makes them. */
  predicate VoidImages(nodes: seq<Node>) {
    nodes == [] ||
      ((nodes[0].Element? ==> (nodes[0].tag == Img ==> nodes[0].children == []) && VoidImages(nodes[0].children))
       && VoidImages(nodes[1..]))
  }

  predicate WellShaped(box: Box)
    requires box.Box?
  {
    && (box.span.Some? && box.span.value.htmlType == Paragraph ==> box.tail == Newline)
    && (box.span.Some? && box.span.value.htmlType == Image <==> box.tail.Placeholder?)
    && (box.tail.Placeholder? ==> box.span == Some(SpanStyle(Image, [ImageOptions(box.tail.attributes)])))
  }

  /** Paragraphs end in a newline, and images and placeholders go together. */
  predicate AllWellShaped(boxes: seq<Box>) {
    boxes == [] ||
      ((boxes[0].Box? ==> WellShaped(boxes[0]) && AllWellShaped(boxes[0].inner)) && AllWellShaped(boxes[1..]))
  }

  /** Placeholders have nothing inside. */
  predicate AllVoid(boxes: seq<Box>) {
    boxes == [] ||
      ((boxes[0].Box? ==> (boxes[0].tail.Placeholder? ==> boxes[0].inner == []) && AllVoid(boxes[0].inner))
       && AllVoid(boxes[1..]))
  }

  lemma {:induction false} BoxesAreWellShaped(nodes: seq<Node>, parent: Option<Tag>)
    ensures AllWellShaped(Boxes(nodes, parent))
    decreases nodes
  {
    if nodes != [] {
      BoxesAreWellShaped(nodes[1..], parent);
      HeadOfAppend([BoxOf(nodes[0], parent)], Boxes(nodes[1..], parent));
      NothingAround(Boxes(nodes[1..], parent));
      if nodes[0].Element? {
        BoxesAreWellShaped(nodes[0].children, Some(nodes[0].tag));
      }
    }
  }

  lemma {:induction false} BoxesAreVoid(nodes: seq<Node>, parent: Option<Tag>)
    requires VoidImages(nodes)
    ensures AllVoid(Boxes(nodes, parent))
    decreases nodes
  {
    if nodes != [] {
      BoxesAreVoid(nodes[1..], parent);
      HeadOfAppend([BoxOf(nodes[0], parent)], Boxes(nodes[1..], parent));
      NothingAround(Boxes(nodes[1..], parent));
      if nodes[0].Element? {
        BoxesAreVoid(nodes[0].children, Some(nodes[0].tag));
      }
    }
  }

  // ----- The span list is a post-order laminar family -----

  predicate Within(info: SpanInfo, lo: nat, hi: nat) {
    lo <= info.start <= info.end <= hi
  }

  predicate AllWithin(infos: seq<SpanInfo>, lo: nat, hi: nat) {
    forall info :: info in infos ==> Within(info, lo, hi)
  }

  predicate Before(a: SpanInfo, b: SpanInfo) {
    a.end <= b.start || (b.start <= a.start && a.end <= b.end)
  }

  predicate Laminar(infos: seq<SpanInfo>) {
    forall i, j :: 0 <= i < j < |infos| ==> Before(infos[i], infos[j])
  }

  lemma {:induction false} SpansAreLaminar(boxes: seq<Box>, pos: nat)
    ensures Laminar(Spans(boxes, pos))
    ensures AllWithin(Spans(boxes, pos), pos, pos + |Flat(boxes)|)
    decreases boxes
  {
    if boxes == [] {
      assert Spans(boxes, pos) == [];
    } else {
      var mid := pos + |FlatBox(boxes[0])|;
      assert |Flat(boxes)| == |FlatBox(boxes[0])| + |Flat(boxes[1..])|;
      assert Spans(boxes, pos) == SpansBox(boxes[0], pos) + Spans(boxes[1..], mid);
      BoxSpansAreLaminar(boxes[0], pos);
      SpansAreLaminar(boxes[1..], mid);
      LaminarNeighbours(SpansBox(boxes[0], pos), Spans(boxes[1..], mid), pos, mid, mid + |Flat(boxes[1..])|);
    }
  }

  lemma LaminarNeighbours(a: seq<SpanInfo>, b: seq<SpanInfo>, lo: nat, mid: nat, hi: nat)
    requires Laminar(a) && Laminar(b) && lo <= mid <= hi
    requires AllWithin(a, lo, mid) && AllWithin(b, mid, hi)
    ensures Laminar(a + b) && AllWithin(a + b, lo, hi)
  {
    LaminarAppend(a, b);
  }

  lemma {:induction false} BoxSpansAreLaminar(box: Box, pos: nat)
    ensures Laminar(SpansBox(box, pos))
    ensures AllWithin(SpansBox(box, pos), pos, pos + |FlatBox(box)|)
    decreases box
  {
    if box.Box? {
      SpansAreLaminar(box.inner, pos);
      LaminarAppend(Spans(box.inner, pos), OwnSpan(box.span, pos, pos + |FlatBox(box)|));
    }
  }

  lemma LaminarAppend(a: seq<SpanInfo>, b: seq<SpanInfo>)
    requires Laminar(a) && Laminar(b)
    requires forall x, y :: x in a && y in b ==> Before(x, y)
    ensures Laminar(a + b)
  {
    forall i, j | 0 <= i < j < |a + b|
      ensures Before((a + b)[i], (a + b)[j])
    {
      if i < |a| <= j {
        assert a[i] in a && b[j - |a|] in b;
      } else if i >= |a| {
        assert Before(b[i - |a|], b[j - |a|]);
      }
    }
  }

  /** A paragraph's last position is its newline. */
  lemma {:induction false} ParagraphsEndInNewlines(boxes: seq<Box>, pos: nat, info: SpanInfo)
    requires AllWellShaped(boxes) && info in Spans(boxes, pos) && info.htmlType == Paragraph
    ensures info.start < info.end && pos < info.end <= pos + |Flat(boxes)|
    ensures Flat(boxes)[info.end - 1 - pos] == Letter('\n')
    decreases boxes
  {
    var box, mid := boxes[0], pos + |FlatBox(boxes[0])|;
    if info in Spans(boxes[1..], mid) {
      ParagraphsEndInNewlines(boxes[1..], mid, info);
    } else if info in Spans(box.inner, pos) {
      ParagraphsEndInNewlines(box.inner, pos, info);
    } else {
      assert info in OwnSpan(box.span, pos, mid);
    }
  }
}
