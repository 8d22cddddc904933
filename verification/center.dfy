/**
 * The `:::center` pass: a container directive named `center` is rendered as a
 * `div` with class `centered-content`; nothing else in the tree changes.
 */
module RemarkCenter {
  import opened Wrappers
  import opened Mdast

  /** The class marker of a centered block. */
  const CenteredClass := "centered-content"

  /**
   * The data of a `center` directive after the pass: element `div`, class
   * `centered-content`, every other attribute and data field as before.
   */
  function CenterHint(d: Option<Data>): (r: Data)
    ensures r.hName == Some("div")
    ensures PropsOf(Some(r)).Keys == PropsOf(d).Keys + {"class"}
    ensures PropsOf(Some(r))["class"] == CenteredClass
    ensures forall k :: k in PropsOf(d) && k != "class" ==> PropsOf(Some(r))[k] == PropsOf(d)[k]
    ensures r.extra == d.GetOr(EmptyData).extra
  {
    WithHint(d, "div", map["class" := CenteredClass])
  }

  /** Giving the hint to data that already carries it changes nothing. */
  lemma CenterHintIdempotent(d: Option<Data>)
    ensures CenterHint(Some(CenterHint(d))) == CenterHint(d)
  {
    WithHintTwice(d, "div", map["class" := CenteredClass], map["class" := CenteredClass]);
  }

  /** The visitor, run on every container directive: only the name `center` triggers it. */
  method Visit(node: DirectiveNode)
    modifies node
    ensures node.children == old(node.children)
    ensures node.name == "center" ==> node.data == Some(CenterHint(old(node.data)))
    ensures node.name != "center" ==> node.data == old(node.data)
  {
    if node.name != "center" {
      return;
    }
    var d := node.data.GetOr(EmptyData);
    d := d.(hName := Some("div"));
    var props := d.hProperties.GetOr(map[]);
    props := props["class" := CenteredClass];
    assert props == PropsOf(node.data) + map["class" := CenteredClass];
    node.data := Some(d.(hProperties := Some(props)));
  }

  /** What the visitor does to one node, as a value. */
  function CenterNode(n: Node): Node
  {
    match n
    case ContainerDirective(name, attrs, cs, d) =>
      if name == "center" then ContainerDirective(name, attrs, cs, Some(CenterHint(d))) else n
    case _ => n
  }

  /** The whole pass over a tree: every node is visited, each `center` directive gets its hint. */
  function CenterTree(n: Node): (r: Node)
    decreases n
  {
    match n
    case Paragraph(cs, d) =>
      Paragraph(seq(|cs|, i requires 0 <= i < |cs| => CenterTree(cs[i])), d)
    case ContainerDirective(name, attrs, cs, d) =>
      CenterNode(ContainerDirective(name, attrs, seq(|cs|, i requires 0 <= i < |cs| => CenterTree(cs[i])), d))
    case Link(url, cs, d) =>
      Link(url, seq(|cs|, i requires 0 <= i < |cs| => CenterTree(cs[i])), d)
    case Other(kind, tag, cs, d) =>
      Other(kind, tag, seq(|cs|, i requires 0 <= i < |cs| => CenterTree(cs[i])), d)
    case _ => n
  }

  /** The pass keeps every node's kind, and every directive's name and attributes. */
  lemma {:induction false} CenterTreeKeepsShape(n: Node)
    ensures CenterTree(n).ContainerDirective? <==> n.ContainerDirective?
    ensures n.ContainerDirective? ==> CenterTree(n).name == n.name && CenterTree(n).attributes == n.attributes
    ensures n.Paragraph? ==> CenterTree(n) == Paragraph(CenterTree(n).children, n.data)
    ensures !n.ContainerDirective? && !n.Paragraph? && !n.Link? && !n.Other? ==> CenterTree(n) == n
  {
  }

  /** Running the pass twice gives the same tree as running it once. */
  lemma {:induction false} CenterTreeIdempotent(n: Node)
    ensures CenterTree(CenterTree(n)) == CenterTree(n)
    decreases n
  {
    match n
    case Paragraph(cs, d) =>
      forall i | 0 <= i < |cs| ensures CenterTree(CenterTree(cs[i])) == CenterTree(cs[i]) {
        CenterTreeIdempotent(cs[i]);
      }
    case ContainerDirective(name, attrs, cs, d) =>
      forall i | 0 <= i < |cs| ensures CenterTree(CenterTree(cs[i])) == CenterTree(cs[i]) {
        CenterTreeIdempotent(cs[i]);
      }
      CenterHintIdempotent(d);
    case Link(url, cs, d) =>
      forall i | 0 <= i < |cs| ensures CenterTree(CenterTree(cs[i])) == CenterTree(cs[i]) {
        CenterTreeIdempotent(cs[i]);
      }
    case Other(kind, tag, cs, d) =>
      forall i | 0 <= i < |cs| ensures CenterTree(CenterTree(cs[i])) == CenterTree(cs[i]) {
        CenterTreeIdempotent(cs[i]);
      }
    case _ =>
  }
}
