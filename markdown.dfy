/**
 * The markdown mimetype wrap's converter from a parsed markdown tree to a
 * `Dimension`: one canvas whose texts are the root's headings and paragraphs,
 * each a run of styled spans.
 */
module MarkdownWrap {
  import opened Wrappers
  import I = Interface
  import opened Mdast

  // ---- font sizes, line height and weights ----

  const H1: real := 30.0
  const H2: real := 27.0
  const H3: real := 24.0
  const H4: real := 21.0
  const H5: real := 18.0
  const H6: real := 15.0
  const P: real := 16.0

  const LINE_HEIGHT: real := 1.5

  const NORMAL: nat := 400
  const SEMIBOLD: nat := 600
  const BOLD: nat := 700

  /** `FontSize::from_header_depth`: depths 1 to 5 step down by 3 points from
      `H1`; every other depth, 0 included, gets `H6`. */
  function FromHeaderDepth(depth: nat): (r: real)
    ensures 1 <= depth <= 5 ==> r == H1 - 3.0 * (depth - 1) as real
    ensures !(1 <= depth <= 5) ==> r == H6
  {
    match depth
    case 1 => H1
    case 2 => H2
    case 3 => H3
    case 4 => H4
    case 5 => H5
    case _ => H6
  }

  /** A deeper heading is never larger, and only a depth-6-or-more (or 0)
      heading is smaller than body text. */
  lemma HeadingSizesOrdered(d1: nat, d2: nat)
    requires 1 <= d1 <= d2
    ensures FromHeaderDepth(d2) <= FromHeaderDepth(d1)
    ensures d1 < d2 <= 6 ==> FromHeaderDepth(d2) < FromHeaderDepth(d1)
    ensures FromHeaderDepth(d1) < P <==> d1 >= 6
  {
  }

  // ---- children_to_text_spans ----

  /** `children_to_text_spans`: the spans of each child in order, flattened. */
  function TextSpans(children: seq<Node>, style: I.Style, weight: nat): seq<I.TextSpan>
    decreases children
  {
    if children == [] then []
    else NodeSpans(children[0], style, weight) + TextSpans(children[1..], style, weight)
  }

  /** The `filter_map` arm for one child: a text is one span; strong and
      emphasis recurse with the weight or the style replaced; anything else
      is dropped. */
  function NodeSpans(n: Node, style: I.Style, weight: nat): seq<I.TextSpan>
    decreases n
  {
    match n
    case Text(value) => [I.TextSpan(value, None, style, weight)]
    case Strong(cs) => TextSpans(cs, style, BOLD)
    case Emphasis(cs) => TextSpans(cs, I.Italic, weight)
    case _ => []
  }

  /** Order is kept: the spans of two runs of children are the spans of each, one after the other. */
  lemma {:induction false} TextSpansAppend(a: seq<Node>, b: seq<Node>, style: I.Style, weight: nat)
    ensures TextSpans(a + b, style, weight) == TextSpans(a, style, weight) + TextSpans(b, style, weight)
    decreases |a|
  {
    if a == [] {
      assert a + b == b;
    } else {
      assert (a + b)[0] == a[0];
      assert (a + b)[1..] == a[1..] + b;
      TextSpansAppend(a[1..], b, style, weight);
    }
  }

  /** Every span has no colour, keeps the inherited style unless an emphasis
      made it italic, and keeps the inherited weight unless a strong made it bold. */
  predicate SpanFrom(s: I.TextSpan, style: I.Style, weight: nat)
  {
    s.color.None?
    && (s.style == style || s.style == I.Italic)
    && (s.weight == weight || s.weight == BOLD)
  }

  lemma {:induction false} TextSpansInherit(children: seq<Node>, style: I.Style, weight: nat)
    ensures forall s :: s in TextSpans(children, style, weight) ==> SpanFrom(s, style, weight)
    decreases children
  {
    if children != [] {
      NodeSpansInherit(children[0], style, weight);
      TextSpansInherit(children[1..], style, weight);
    }
  }

  lemma {:induction false} NodeSpansInherit(n: Node, style: I.Style, weight: nat)
    ensures forall s :: s in NodeSpans(n, style, weight) ==> SpanFrom(s, style, weight)
    decreases n
  {
    match n
    case Text(_) =>
    case Strong(cs) =>
      TextSpansInherit(cs, style, BOLD);
    case Emphasis(cs) =>
      TextSpansInherit(cs, I.Italic, weight);
    case _ =>
  }

  /** Nesting order does not matter: strong inside emphasis and emphasis inside
      strong both give bold italic spans. */
  lemma StrongEmphasisCommute(cs: seq<Node>, style: I.Style, weight: nat)
    ensures TextSpans([Strong([Emphasis(cs)])], style, weight)
         == TextSpans([Emphasis([Strong(cs)])], style, weight)
         == TextSpans(cs, I.Italic, BOLD)
  {
    assert [Strong([Emphasis(cs)])][1..] == [];
    assert [Emphasis(cs)][1..] == [];
    assert [Emphasis([Strong(cs)])][1..] == [];
    assert [Strong(cs)][1..] == [];
    assert TextSpans([Emphasis(cs)], style, BOLD) == TextSpans(cs, I.Italic, BOLD);
    assert TextSpans([Strong(cs)], I.Italic, weight) == TextSpans(cs, I.Italic, BOLD);
  }

  /** A single text child gives exactly one span carrying its text. */
  lemma PlainText(value: string, style: I.Style, weight: nat)
    ensures TextSpans([Text(value)], style, weight) == [I.TextSpan(value, None, style, weight)]
  {
    assert [Text(value)][1..] == [];
  }

  // ---- node_to_entities and root_to_dimension ----

  /** `node_to_entities`: a heading or a paragraph becomes a black `Text` with
      line height 1.5; every other kind is "<Kind> not implemented". */
  function NodeToText(n: Node): (r: Result<I.Text, string>)
    ensures r.Ok? <==> n.Heading? || n.Paragraph?
    ensures r.Err? ==> r.error == NotImplemented(n)
    ensures r.Ok? ==> r.value.lineHeight == LINE_HEIGHT && r.value.color == I.BLACK
    ensures r.Ok? && n.Heading? ==>
      r.value.fontSize == FromHeaderDepth(n.depth) && r.value.spans == TextSpans(n.children, I.Normal, SEMIBOLD)
    ensures r.Ok? && n.Paragraph? ==>
      r.value.fontSize == P && r.value.spans == TextSpans(n.children, I.Normal, NORMAL)
  {
    match n
    case Heading(depth, cs) =>
      Ok(I.Text(TextSpans(cs, I.Normal, SEMIBOLD), FromHeaderDepth(depth), LINE_HEIGHT, I.BLACK))
    case Paragraph(cs) =>
      Ok(I.Text(TextSpans(cs, I.Normal, NORMAL), P, LINE_HEIGHT, I.BLACK))
    case _ => Err(NotImplemented(n))
  }

  /** Heading spans are semi-bold unless bolded, paragraph spans normal unless bolded. */
  lemma TextWeights(n: Node)
    requires n.Heading? || n.Paragraph?
    ensures forall s :: s in NodeToText(n).value.spans ==>
      s.color.None? && (s.weight == (if n.Heading? then SEMIBOLD else NORMAL) || s.weight == BOLD)
  {
    TextSpansInherit(n.children, I.Normal, if n.Heading? then SEMIBOLD else NORMAL);
  }

  /** The `collect::<Result<Vec<_>, _>>()`: every child converted, or the first error. */
  function CollectTexts(children: seq<Node>): (r: Result<seq<I.Text>, string>)
    ensures r.Ok? <==> forall i :: 0 <= i < |children| ==> NodeToText(children[i]).Ok?
    ensures r.Ok? ==> (|r.value| == |children|
      && forall i :: 0 <= i < |children| ==> NodeToText(children[i]) == Ok(r.value[i]))
    ensures r.Err? ==>
      exists i :: 0 <= i < |children| && NodeToText(children[i]) == Err(r.error)
        && forall j :: 0 <= j < i ==> NodeToText(children[j]).Ok?
  {
    if children == [] then Ok([])
    else
      assert forall i :: 1 <= i < |children| ==> children[i] == children[1..][i - 1];
      match NodeToText(children[0])
      case Err(e) => Err(e)
      case Ok(t) =>
        var rest := CollectTexts(children[1..]);
        match rest
        case Err(e) =>
          var k :| 0 <= k < |children[1..]| && NodeToText(children[1..][k]) == Err(e)
            && forall j :: 0 <= j < k ==> NodeToText(children[1..][j]).Ok?;
          assert NodeToText(children[k + 1]) == Err(e);
          Err(e)
        case Ok(ts) => Ok([t] + ts)
  }

  /** `root_to_dimension` over the root's children: the title and one canvas. */
  function RootToDimension(children: seq<Node>, render: Node -> string): (r: Result<I.Dimension, string>)
    ensures r.Ok? <==> forall i :: 0 <= i < |children| ==> children[i].Heading? || children[i].Paragraph?
    ensures r.Ok? ==> (r.value.title == Title(children, render)
      && |r.value.children| == 1 && r.value.children[0].Canvas?
      && |r.value.children[0].texts| == |children|
      && forall i :: 0 <= i < |children| ==> NodeToText(children[i]) == Ok(r.value.children[0].texts[i]))
    ensures r.Err? ==>
      exists i :: 0 <= i < |children| && r.error == NotImplemented(children[i])
        && !(children[i].Heading? || children[i].Paragraph?)
        && forall j :: 0 <= j < i ==> children[j].Heading? || children[j].Paragraph?
  {
    var title := Title(children, render);
    match CollectTexts(children)
    case Err(e) => Err(e)
    case Ok(texts) => Ok(I.Dimension(title, [I.Canvas(texts)]))
  }

  /** A document of one title heading and one paragraph converts to that title
      and two texts, the heading at size `H1`. */
  lemma TitledDocument(hs: seq<Node>, ps: seq<Node>, render: Node -> string)
    ensures var r := RootToDimension([Heading(1, hs), Paragraph(ps)], render);
      r.Ok? && r.value.title == ChildrenToString(hs, render)
      && r.value.children[0].texts[0].fontSize == H1
      && r.value.children[0].texts[1].fontSize == P
  {
    var none: seq<Node> := [];
    assert [Heading(1, hs), Paragraph(ps)] == none + [Heading(1, hs)] + [Paragraph(ps)];
    FirstHeadingWins(none, Heading(1, hs), [Paragraph(ps)], render);
  }
}
