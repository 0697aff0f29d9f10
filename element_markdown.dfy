/**
 * The older markdown element's converter. It has the same title search as the
 * wrap, but its `Dimension` holds rendering-engine entities, and every node
 * kind is still "not implemented".
 */
module MarkdownElement {
  import opened Wrappers
  import opened Mdast

  /** An entity id of the host's entity-component store. */
  datatype Entity = Entity(id: nat)

  datatype Dimension = Dimension(title: string, children: seq<Entity>)

  /** `node_to_entities`: every kind, headings and paragraphs included, is an error. */
  function NodeToEntities(n: Node): (r: Result<seq<Entity>, string>)
    ensures r.Err? && r.error == NotImplemented(n)
  {
    Err(NotImplemented(n))
  }

  /** The `collect::<Result<Vec<Vec<_>>, _>>()` followed by `flatten`, for any
      per-node conversion: the first error, or all the entities in order. */
  function CollectEntities(children: seq<Node>, convert: Node -> Result<seq<Entity>, string>)
    : (r: Result<seq<Entity>, string>)
    ensures r.Ok? <==> forall i :: 0 <= i < |children| ==> convert(children[i]).Ok?
    ensures r.Err? ==>
      exists i :: 0 <= i < |children| && convert(children[i]) == Err(r.error)
        && forall j :: 0 <= j < i ==> convert(children[j]).Ok?
  {
    if children == [] then Ok([])
    else
      assert forall i :: 1 <= i < |children| ==> children[i] == children[1..][i - 1];
      match convert(children[0])
      case Err(e) => Err(e)
      case Ok(es) =>
        match CollectEntities(children[1..], convert)
        case Err(e) =>
          var k :| 0 <= k < |children[1..]| && convert(children[1..][k]) == Err(e)
            && forall j :: 0 <= j < k ==> convert(children[1..][j]).Ok?;
          assert convert(children[k + 1]) == Err(e);
          Err(e)
        case Ok(rest) => Ok(es + rest)
  }

  /** Flattening keeps every child's entities, in order. */
  lemma CollectEntitiesConcat(a: Node, rest: seq<Node>, convert: Node -> Result<seq<Entity>, string>)
    requires convert(a).Ok? && CollectEntities(rest, convert).Ok?
    ensures CollectEntities([a] + rest, convert) == Ok(convert(a).value + CollectEntities(rest, convert).value)
  {
    assert ([a] + rest)[1..] == rest;
  }

  /** `root_to_dimension` over the root's children. */
  function RootToDimension(children: seq<Node>, render: Node -> string): (r: Result<Dimension, string>)
    ensures r.Ok? ==> r.value.title == Title(children, render)
  {
    var title := Title(children, render);
    match CollectEntities(children, NodeToEntities)
    case Err(e) => Err(e)
    case Ok(es) => Ok(Dimension(title, es))
  }

  /** Since no kind converts, a root with any child fails with its first
      child's error, and only an empty root succeeds, titled "None" and empty. */
  lemma OnlyEmptyRootConverts(children: seq<Node>, render: Node -> string)
    ensures RootToDimension(children, render).Ok? <==> children == []
    ensures children == [] ==> RootToDimension(children, render) == Ok(Dimension("None", []))
    ensures children != [] ==> RootToDimension(children, render) == Err(NotImplemented(children[0]))
  {
    if children != [] {
      var r := CollectEntities(children, NodeToEntities);
      var i :| 0 <= i < |children| && NodeToEntities(children[i]) == Err(r.error)
        && forall j :: 0 <= j < i ==> NodeToEntities(children[j]).Ok?;
      assert i == 0;
    }
  }
}
