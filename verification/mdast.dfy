/**
 * The markdown syntax tree the plugins rewrite, with the optional render hint
 * (`data.hName`, `data.hProperties`) that tells the HTML renderer which element
 * and attributes to emit for a node.
 */
module Mdast {
  import opened Wrappers

  /** Presentation attributes of a render hint (`hProperties`); every value the plugins write is a string. */
  type Props = map<string, string>

  /**
   * `node.data`: the element name to render (`hName`), its attributes
   * (`hProperties`), and `extra` for every other data field, which the plugins
   * never touch.
   */
  datatype Data = Data(hName: Option<string>, hProperties: Option<Props>, extra: map<string, string>)

  /** `{}`: what `node.data = node.data || {}` creates when a node has no data yet. */
  const EmptyData := Data(None, None, map[])

  /**
   * The node kinds the plugins distinguish. `Other` stands for every remaining
   * kind (heading, list, emphasis, ...), with its type name and the `tagName`
   * some producers attach.
   */
  datatype Node =
    | Paragraph(children: seq<Node>, data: Option<Data>)
    | Image(url: string, alt: string, data: Option<Data>)
    | Text(value: string, data: Option<Data>)
    | Html(value: string)
    | ContainerDirective(name: string, attributes: Option<map<string, string>>, children: seq<Node>, data: Option<Data>)
    | Link(url: string, children: seq<Node>, data: Option<Data>)
    | InlineCode(value: string)
    | Code(value: string)
    | Other(kind: string, tagName: Option<string>, children: seq<Node>, data: Option<Data>)

  /** `attrs.k` read as a string: a missing key gives the falsy empty string. */
  function Attr(attrs: map<string, string>, k: string): (v: string)
    ensures v != "" ==> k in attrs && attrs[k] == v
    ensures k in attrs ==> v == attrs[k]
  {
    if k in attrs then attrs[k] else ""
  }

  /** `(node.data || {}).hProperties || {}`. */
  function PropsOf(d: Option<Data>): Props
  {
    d.GetOr(EmptyData).hProperties.GetOr(map[])
  }

  /**
   * The data after `node.data = node.data || {}`, `hProperties ||= {}` and one
   * assignment `hProperties[k] = v` per entry of `props`.
   */
  function WithProps(d: Option<Data>, props: Props): Data
  {
    d.GetOr(EmptyData).(hProperties := Some(PropsOf(d) + props))
  }

  /** Assigning one attribute after merging is merging the assigned attributes. */
  lemma UpdateOverUnion(base: Props, written: Props, k: string, v: string)
    ensures (base + written)[k := v] == base + written[k := v]
  {
  }

  /** As `WithProps`, and `data.hName = hName` as well. */
  function WithHint(d: Option<Data>, hName: string, props: Props): Data
  {
    WithProps(d, props).(hName := Some(hName))
  }

  /** Setting the same element name twice keeps only the second set of attributes where they overlap. */
  lemma WithHintTwice(d: Option<Data>, hName: string, p1: Props, p2: Props)
    requires p1.Keys <= p2.Keys
    ensures WithHint(Some(WithHint(d, hName, p1)), hName, p2) == WithHint(d, hName, p2)
  {
    assert PropsOf(d) + p1 + p2 == PropsOf(d) + p2;
  }

  /**
   * A container directive (`:::name{attrs}` ... `:::`) while a pass visits it:
   * the pass may reassign its `children` and `data`; its kind, name and
   * attributes are fixed.
   */
  class DirectiveNode {
    const name: string
    const attributes: Option<map<string, string>>
    var children: seq<Node>
    var data: Option<Data>

    constructor (name: string, attributes: Option<map<string, string>>, children: seq<Node>, data: Option<Data>)
      ensures this.name == name && this.attributes == attributes
      ensures this.children == children && this.data == data
    {
      this.name := name;
      this.attributes := attributes;
      this.children := children;
      this.data := data;
    }

    /** The node as a tree value. */
    function Value(): Node
      reads this
    {
      ContainerDirective(name, attributes, children, data)
    }
  }

  /** A paragraph while a pass visits it: its inline `children` and its `data` may be reassigned. */
  class ParagraphNode {
    var children: seq<Node>
    var data: Option<Data>

    constructor (children: seq<Node>, data: Option<Data>)
      ensures this.children == children && this.data == data
    {
      this.children := children;
      this.data := data;
    }

    /** The node as a tree value. */
    function Value(): Node
      reads this
    {
      Paragraph(children, data)
    }
  }

  /**
   * The parent of a visited text node: its type name, the `tagName` some
   * producers attach, and the children array a pass may splice.
   */
  class ParentNode {
    const kind: string
    const tagName: Option<string>
    var children: seq<Node>

    constructor (kind: string, tagName: Option<string>, children: seq<Node>)
      ensures this.kind == kind && this.tagName == tagName && this.children == children
    {
      this.kind := kind;
      this.tagName := tagName;
      this.children := children;
    }
  }
}
