/**
 * The part of a markdown syntax tree (mdast) that the two markdown mimetype
 * converters look at, and the two helpers they share word for word:
 * flattening a list of nodes into a title string and finding the title.
 *
 * The tree itself comes from the `markdown` crate's parser and a node's plain
 * text from that crate's `ToString`; neither is part of this model, so the
 * converters take the parsed children and a `render` function as inputs.
 */
module Mdast {
  import opened Wrappers

  /** The 29 node kinds that carry nothing the converters read. */
  datatype Kind =
    // parents
    | Root | BlockQuote | FootnoteDefinition | MdxJsxFlowElement | List | Delete
    | MdxJsxTextElement | Link | LinkReference | Table | TableRow | TableCell | ListItem
    // literals
    | MdxjsEsm | Toml | Yaml | InlineCode | InlineMath | MdxTextExpression | Html
    | Code | Math | MdxFlowExpression
    // voids
    | Break | FootnoteReference | Image | ImageReference | ThematicBreak | Definition

  /** An mdast node. The five kinds the converters take apart have their own
      constructors; `depth` is a `u8` in the parser's tree. */
  datatype Node =
    | Heading(depth: nat, children: seq<Node>)
    | Paragraph(children: seq<Node>)
    | Text(value: string)
    | Strong(children: seq<Node>)
    | Emphasis(children: seq<Node>)
    | Other(kind: Kind, children: seq<Node>)

  /** The Rust variant name of a node, as the "not implemented" errors spell it. */
  function KindName(n: Node): (r: string)
    ensures |r| > 0
  {
    match n
    case Heading(_, _) => "Heading"
    case Paragraph(_) => "Paragraph"
    case Text(_) => "Text"
    case Strong(_) => "Strong"
    case Emphasis(_) => "Emphasis"
    case Other(k, _) =>
      match k
      case Root => "Root"
      case BlockQuote => "BlockQuote"
      case FootnoteDefinition => "FootnoteDefinition"
      case MdxJsxFlowElement => "MdxJsxFlowElement"
      case List => "List"
      case Delete => "Delete"
      case MdxJsxTextElement => "MdxJsxTextElement"
      case Link => "Link"
      case LinkReference => "LinkReference"
      case Table => "Table"
      case TableRow => "TableRow"
      case TableCell => "TableCell"
      case ListItem => "ListItem"
      case MdxjsEsm => "MdxjsEsm"
      case Toml => "Toml"
      case Yaml => "Yaml"
      case InlineCode => "InlineCode"
      case InlineMath => "InlineMath"
      case MdxTextExpression => "MdxTextExpression"
      case Html => "Html"
      case Code => "Code"
      case Math => "Math"
      case MdxFlowExpression => "MdxFlowExpression"
      case Break => "Break"
      case FootnoteReference => "FootnoteReference"
      case Image => "Image"
      case ImageReference => "ImageReference"
      case ThematicBreak => "ThematicBreak"
      case Definition => "Definition"
  }

  /** "<Kind> not implemented", the error both converters give for a kind they skip. */
  function NotImplemented(n: Node): string
  {
    KindName(n) + " not implemented"
  }

  // ---- children_to_string ----

  /** One child's string followed by a space, unless it is empty. */
  function Padded(s: string): string
  {
    if s == [] then s else s + " "
  }

  /** The `collect` of the padded child strings. */
  function PaddedAll(children: seq<Node>, render: Node -> string): string
  {
    if children == [] then "" else Padded(render(children[0])) + PaddedAll(children[1..], render)
  }

  /** `children_to_string`: the padded strings run together, then one `pop`. */
  function ChildrenToString(children: seq<Node>, render: Node -> string): (r: string)
    ensures r == Join(NonEmpty(Rendered(children, render)))
  {
    PaddedAllIsJoin(children, render);
    var s := PaddedAll(children, render);
    if s == [] then s else s[..|s| - 1]
  }

  /** Reference definition: the rendered strings of the children, in order. */
  function Rendered(children: seq<Node>, render: Node -> string): (r: seq<string>)
    ensures |r| == |children|
    ensures forall i :: 0 <= i < |children| ==> r[i] == render(children[i])
  {
    if children == [] then [] else [render(children[0])] + Rendered(children[1..], render)
  }

  /** The non-empty strings of `ss`, in order. */
  function NonEmpty(ss: seq<string>): (r: seq<string>)
    ensures forall i :: 0 <= i < |r| ==> r[i] != []
    ensures |r| <= |ss|
  {
    if ss == [] then []
    else if ss[0] == [] then NonEmpty(ss[1..])
    else [ss[0]] + NonEmpty(ss[1..])
  }

  /** The strings joined by single spaces. */
  function Join(ss: seq<string>): string
  {
    if ss == [] then ""
    else if |ss| == 1 then ss[0]
    else ss[0] + " " + Join(ss[1..])
  }

  lemma {:induction false} PaddedAllIsJoin(children: seq<Node>, render: Node -> string)
    ensures var j := Join(NonEmpty(Rendered(children, render)));
            PaddedAll(children, render) == if NonEmpty(Rendered(children, render)) == [] then "" else j + " "
    decreases |children|
  {
    if children != [] {
      var rest := children[1..];
      PaddedAllIsJoin(rest, render);
      var x := render(children[0]);
      assert Rendered(children, render) == [x] + Rendered(rest, render);
      assert Rendered(children, render)[1..] == Rendered(rest, render);
      var ne := NonEmpty(Rendered(rest, render));
      if x != [] && ne != [] {
        assert NonEmpty(Rendered(children, render)) == [x] + ne;
        assert ([x] + ne)[1..] == ne;
        assert Join([x] + ne) == x + " " + Join(ne);
      }
    }
  }

  lemma {:induction false} NonEmptyAppend(a: seq<string>, b: seq<string>)
    ensures NonEmpty(a + b) == NonEmpty(a) + NonEmpty(b)
    decreases |a|
  {
    if a != [] {
      assert (a + b)[1..] == a[1..] + b;
      NonEmptyAppend(a[1..], b);
    } else {
      assert a + b == b;
    }
  }

  lemma RenderedAppend(a: seq<Node>, b: seq<Node>, render: Node -> string)
    ensures Rendered(a + b, render) == Rendered(a, render) + Rendered(b, render)
  {
  }

  /** A child that renders to the empty string adds nothing, not even a space. */
  lemma EmptyChildAddsNothing(a: seq<Node>, x: Node, b: seq<Node>, render: Node -> string)
    requires render(x) == []
    ensures ChildrenToString(a + [x] + b, render) == ChildrenToString(a + b, render)
  {
    RenderedAppend(a + [x], b, render);
    RenderedAppend(a, [x], render);
    RenderedAppend(a, b, render);
    NonEmptyAppend(Rendered(a, render) + Rendered([x], render), Rendered(b, render));
    NonEmptyAppend(Rendered(a, render), Rendered([x], render));
    NonEmptyAppend(Rendered(a, render), Rendered(b, render));
    assert Rendered([x], render) == [render(x)];
    assert NonEmpty(Rendered([x], render)) == [];
    assert NonEmpty(Rendered(a + [x] + b, render)) == NonEmpty(Rendered(a + b, render));
  }

  /** Two non-empty children are separated by exactly one space, with none at the ends. */
  lemma TwoChildren(x: Node, y: Node, render: Node -> string)
    requires render(x) != [] && render(y) != []
    ensures ChildrenToString([x, y], render) == render(x) + " " + render(y)
  {
    assert Rendered([x, y], render) == [render(x), render(y)];
    assert NonEmpty([render(y)]) == [render(y)];
    assert NonEmpty([render(x), render(y)]) == [render(x), render(y)];
    assert [render(x), render(y)][1..] == [render(y)];
    assert Join([render(x), render(y)]) == render(x) + " " + render(y);
  }

  // ---- the title ----

  /** A top-level heading of depth 1, the only kind that can give the title. */
  predicate IsTitleHeading(n: Node)
  {
    n.Heading? && n.depth == 1
  }

  /** The `find_map` over the root's children: the string of the first depth-1 heading. */
  function FindTitle(children: seq<Node>, render: Node -> string): (r: Option<string>)
    ensures r.None? <==> forall i :: 0 <= i < |children| ==> !IsTitleHeading(children[i])
    ensures r.Some? ==>
      exists i :: 0 <= i < |children| && IsTitleHeading(children[i])
        && (forall j :: 0 <= j < i ==> !IsTitleHeading(children[j]))
        && r.value == ChildrenToString(children[i].children, render)
  {
    if children == [] then None
    else if IsTitleHeading(children[0]) then
      Some(ChildrenToString(children[0].children, render))
    else
      var r := FindTitle(children[1..], render);
      assert forall i :: 1 <= i < |children| ==> children[i] == children[1..][i - 1];
      if r.Some? then
        var k :| 0 <= k < |children[1..]| && IsTitleHeading(children[1..][k])
          && (forall j :: 0 <= j < k ==> !IsTitleHeading(children[1..][j]))
          && r.value == ChildrenToString(children[1..][k].children, render);
        assert IsTitleHeading(children[k + 1]) && forall j :: 0 <= j < k + 1 ==> !IsTitleHeading(children[j]);
        r
      else r
  }

  /** The title: `unwrap_or("None")` of the search. */
  function Title(children: seq<Node>, render: Node -> string): string
  {
    match FindTitle(children, render)
    case Some(t) => t
    case None => "None"
  }

  /** A later depth-1 heading never overrides the first one. */
  lemma FirstHeadingWins(a: seq<Node>, h: Node, b: seq<Node>, render: Node -> string)
    requires IsTitleHeading(h)
    requires forall i :: 0 <= i < |a| ==> !IsTitleHeading(a[i])
    ensures Title(a + [h] + b, render) == ChildrenToString(h.children, render)
  {
    var c := a + [h] + b;
    assert c[|a|] == h;
    var r := FindTitle(c, render);
    var i :| 0 <= i < |c| && IsTitleHeading(c[i])
      && (forall j :: 0 <= j < i ==> !IsTitleHeading(c[j]))
      && r.value == ChildrenToString(c[i].children, render);
    assert forall j :: 0 <= j < |a| ==> c[j] == a[j];
    assert i == |a|;
  }
}
