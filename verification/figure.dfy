/**
 * The `:::figure` pass. A container directive named `figure` is rendered as a
 * `figure` element: its attributes give an inline style (width, border) and
 * the class `md-figure`; each paragraph inside is split into a paragraph of
 * its images and a `figcaption` paragraph of the rest of its content.
 */
module RemarkFigure {
  import opened Wrappers
  import opened Strings
  import opened Mdast

  /** The border a `border` attribute without a value stands for. */
  const DefaultBorder := "5px solid #ADADAD"

  /** The class of every figure, and the one a bordered figure adds. */
  const FigureClass := "md-figure"
  const BorderClass := " md-figure-border"

  /** The custom property that carries a figure's border. */
  const BorderProperty := "--figure-border: "

  /** The render hint of the caption paragraph. */
  const CaptionData := Data(Some("figcaption"), Some(map["class" := "md-figcaption"]), map[])

  /** The width declaration: `width` taken as is, else `w` as a percentage, else none. */
  function WidthStyle(attrs: map<string, string>): string
  {
    if Attr(attrs, "width") != "" then "width: " + attrs["width"] + ";"
    else if Attr(attrs, "w") != "" then "width: " + attrs["w"] + "%;"
    else ""
  }

  /** The border value: the attribute's own value, or the default when it is empty, with `_` read as space. */
  function BorderValue(attrs: map<string, string>): string
    requires "border" in attrs
  {
    ReplaceChar(if attrs["border"] != "" then attrs["border"] else DefaultBorder, '_', ' ')
  }

  /** The border declaration, present whenever the `border` attribute is, even without a value. */
  function BorderStyle(attrs: map<string, string>): string
  {
    if "border" in attrs then " " + BorderProperty + BorderValue(attrs) + ";" else ""
  }

  /** The style the attributes build, before trimming. */
  function FigureStyle(attrs: map<string, string>): string
  {
    WidthStyle(attrs) + BorderStyle(attrs)
  }

  /** The figure's class: `md-figure`, plus `md-figure-border` exactly when `border` is given. */
  function FigureClassOf(attrs: map<string, string>): (c: string)
    ensures "border" in attrs ==> c == FigureClass + BorderClass
    ensures "border" !in attrs ==> c == FigureClass
  {
    FigureClass + (if "border" in attrs then BorderClass else "")
  }

  /** The attributes the pass writes: the class, and the trimmed style when there is one. */
  function FigureProps(attrs: map<string, string>): (p: Props)
    ensures "class" in p && p["class"] == FigureClassOf(attrs)
    ensures "style" in p <==> FigureStyle(attrs) != ""
    ensures "style" in p ==> p["style"] == Trim(FigureStyle(attrs))
    ensures p.Keys <= {"class", "style"}
  {
    var p := map["class" := FigureClassOf(attrs)];
    if FigureStyle(attrs) != "" then p["style" := Trim(FigureStyle(attrs))] else p
  }

  /** The directive's data after the pass: element `figure` and the attributes above, over what it had. */
  function FigureData(d: Option<Data>, attrs: map<string, string>): Data
  {
    WithHint(d, "figure", FigureProps(attrs))
  }

  /** There is a style exactly when a width or a border is asked for. */
  lemma StyleEmptyIff(attrs: map<string, string>)
    ensures FigureStyle(attrs) == "" <==> Attr(attrs, "width") == "" && Attr(attrs, "w") == "" && "border" !in attrs
  {
    if Attr(attrs, "width") != "" {
      assert FigureStyle(attrs)[0] == 'w';
    } else if Attr(attrs, "w") != "" {
      assert FigureStyle(attrs)[0] == 'w';
    } else if "border" in attrs {
      assert FigureStyle(attrs)[0] == ' ';
    }
  }

  /** A non-empty `width` wins: the `w` attribute is then irrelevant. */
  lemma WidthBeatsW(attrs: map<string, string>, w: string)
    requires Attr(attrs, "width") != ""
    ensures FigureStyle(attrs["w" := w]) == FigureStyle(attrs)
    ensures FigureProps(attrs["w" := w]) == FigureProps(attrs)
  {
    assert Attr(attrs["w" := w], "width") == Attr(attrs, "width");
    assert BorderStyle(attrs["w" := w]) == BorderStyle(attrs);
  }

  /** A bare `border` is the default border written out. */
  lemma BareBorderIsDefault(attrs: map<string, string>)
    ensures FigureStyle(attrs["border" := ""]) == FigureStyle(attrs["border" := DefaultBorder])
    ensures FigureProps(attrs["border" := ""]) == FigureProps(attrs["border" := DefaultBorder])
  {
    assert WidthStyle(attrs["border" := ""]) == WidthStyle(attrs);
    assert WidthStyle(attrs["border" := DefaultBorder]) == WidthStyle(attrs);
  }

  /** A style that begins with the width starts and ends with a non-space, so trimming keeps it whole. */
  lemma TrimmedWidthStyle(attrs: map<string, string>)
    requires WidthStyle(attrs) != ""
    ensures Trim(FigureStyle(attrs)) == FigureStyle(attrs)
  {
    var s := FigureStyle(attrs);
    assert s[0] == 'w';
    assert s[|s| - 1] == ';';
    TrimUnchanged(s);
  }

  /** A border-only style loses exactly its leading space to trimming. */
  lemma TrimmedBorderStyle(attrs: map<string, string>)
    requires WidthStyle(attrs) == "" && "border" in attrs
    ensures Trim(FigureStyle(attrs)) == FigureStyle(attrs)[1..]
  {
    var rest := BorderProperty + BorderValue(attrs) + ";";
    BorderDeclarationEnds(BorderValue(attrs));
    TrimSpaced(rest);
    BorderOnlyStyle(attrs);
  }

  /** Without a width, the style is the border declaration behind one space. */
  lemma BorderOnlyStyle(attrs: map<string, string>)
    requires WidthStyle(attrs) == "" && "border" in attrs
    ensures FigureStyle(attrs) == " " + (BorderProperty + BorderValue(attrs) + ";")
  {
  }

  /** A border declaration starts with `-` and ends with `;`. */
  lemma BorderDeclarationEnds(value: string)
    ensures var rest := BorderProperty + value + ";";
      rest[0] == '-' && rest[|rest| - 1] == ';'
  {
    var rest := BorderProperty + value + ";";
    assert rest[0] == BorderProperty[0];
  }

  /** A string that starts and ends with non-whitespace, behind one space, trims to itself. */
  lemma TrimSpaced(rest: string)
    requires rest != [] && !IsWhitespace(rest[0]) && !IsWhitespace(rest[|rest| - 1])
    ensures Trim(" " + rest) == rest
    ensures (" " + rest)[1..] == rest
  {
    TrimLeadingSpace(rest);
    TrimUnchanged(rest);
  }

  /** The elements of `s` that satisfy `keep`, in order (`for ... if (keep(x)) out.push(x)`). */
  function Filter(s: seq<Node>, keep: Node -> bool): (r: seq<Node>)
    ensures |r| <= |s|
    ensures forall k :: 0 <= k < |r| ==> keep(r[k])
  {
    if s == [] then []
    else Filter(s[..|s| - 1], keep) + (if keep(s[|s| - 1]) then [s[|s| - 1]] else [])
  }

  /** Every element of `s` that satisfies `keep` is kept. */
  lemma {:induction false} FilterKeeps(s: seq<Node>, keep: Node -> bool, x: Node)
    requires x in s && keep(x)
    ensures x in Filter(s, keep)
  {
    var init := s[..|s| - 1];
    if x != s[|s| - 1] {
      assert x in init by {
        var k :| 0 <= k < |s| && s[k] == x;
        assert init[k] == x;
      }
      FilterKeeps(init, keep, x);
    }
  }

  /** Filtering works piece by piece over a concatenation. */
  lemma {:induction false} FilterAppend(a: seq<Node>, b: seq<Node>, keep: Node -> bool)
    ensures Filter(a + b, keep) == Filter(a, keep) + Filter(b, keep)
    decreases |b|
  {
    if b == [] {
      assert a + b == a;
    } else {
      var init := b[..|b| - 1];
      assert (a + b)[..|a + b| - 1] == a + init;
      FilterAppend(a, init, keep);
    }
  }

  /** A paragraph child that goes with the images. */
  predicate IsImage(n: Node)
  {
    n.Image?
  }

  /** Text that is nothing but whitespace, which the pass drops. */
  predicate IsBlankText(n: Node)
  {
    n.Text? && Trim(n.value) == ""
  }

  /** A paragraph child that goes into the caption: anything but an image or blank text. */
  predicate IsCaption(n: Node)
  {
    !n.Image? && !IsBlankText(n)
  }

  /** Three filters whose conditions split every element exactly one way share out the whole sequence. */
  lemma {:induction false} FilterPartition(s: seq<Node>, p: Node -> bool, q: Node -> bool, r: Node -> bool)
    requires forall x :: p(x) || q(x) || r(x)
    requires forall x :: !(p(x) && q(x)) && !(p(x) && r(x)) && !(q(x) && r(x))
    ensures multiset(Filter(s, p)) + multiset(Filter(s, q)) + multiset(Filter(s, r)) == multiset(s)
  {
    if s != [] {
      var init, last := s[..|s| - 1], s[|s| - 1];
      FilterPartition(init, p, q, r);
      assert s == init + [last];
    }
  }

  /** Each child is exactly one of image, caption content and blank text: nothing else is lost or duplicated. */
  lemma PartitionCounts(s: seq<Node>)
    ensures multiset(Filter(s, IsImage)) + multiset(Filter(s, IsCaption)) + multiset(Filter(s, IsBlankText))
            == multiset(s)
  {
    FilterPartition(s, IsImage, IsCaption, IsBlankText);
  }

  /** What one child of the figure becomes: a paragraph becomes its image and caption paragraphs, if not empty; anything else stays. */
  function Regroup(child: Node): (r: seq<Node>)
    ensures |r| <= 2
    ensures !child.Paragraph? ==> r == [child]
  {
    if child.Paragraph? then
      var images := Filter(child.children, IsImage);
      var caption := Filter(child.children, IsCaption);
      (if images != [] then [Paragraph(images, child.data)] else [])
      + (if caption != [] then [Paragraph(caption, Some(CaptionData))] else [])
    else [child]
  }

  /** The children of the paragraphs among `ns`, concatenated in order. */
  function ParagraphContents(ns: seq<Node>): seq<Node>
  {
    if ns == [] then []
    else ParagraphContents(ns[..|ns| - 1]) + (if ns[|ns| - 1].Paragraph? then ns[|ns| - 1].children else [])
  }

  /**
   * What a paragraph becomes: only non-empty paragraphs, the image paragraph
   * first with the paragraph's own data, the caption paragraph last as a
   * `figcaption`.
   */
  lemma RegroupParagraph(child: Node)
    requires child.Paragraph?
    ensures var r := Regroup(child);
      forall k :: 0 <= k < |r| ==> r[k].Paragraph? && r[k].children != []
    ensures var r := Regroup(child); var images := Filter(child.children, IsImage);
      images != [] ==> |r| > 0 && r[0] == Paragraph(images, child.data)
    ensures var r := Regroup(child); var caption := Filter(child.children, IsCaption);
      caption != [] ==> |r| > 0 && r[|r| - 1] == Paragraph(caption, Some(CaptionData))
  {
  }

  /** The paragraphs a paragraph becomes hold its images and then its caption content, each in order. */
  lemma RegroupParagraphContents(child: Node)
    requires child.Paragraph?
    ensures ParagraphContents(Regroup(child)) == Filter(child.children, IsImage) + Filter(child.children, IsCaption)
  {
    var images, caption := Filter(child.children, IsImage), Filter(child.children, IsCaption);
    ParagraphContentsPair(Paragraph(images, child.data), Paragraph(caption, Some(CaptionData)));
    if images == [] {
      assert images + caption == caption;
    }
    if caption == [] {
      assert images + caption == images;
    }
  }

  /** The only children a paragraph loses to regrouping are blank text nodes. */
  lemma RegroupLosesOnlyBlank(child: Node)
    requires child.Paragraph?
    ensures multiset(ParagraphContents(Regroup(child))) + multiset(Filter(child.children, IsBlankText))
            == multiset(child.children)
  {
    RegroupParagraphContents(child);
    PartitionCounts(child.children);
  }

  /** The contents of one or two paragraphs. */
  lemma ParagraphContentsPair(a: Node, b: Node)
    requires a.Paragraph? && b.Paragraph?
    ensures ParagraphContents([]) == []
    ensures ParagraphContents([a]) == a.children
    ensures ParagraphContents([a, b]) == a.children + b.children
  {
    assert [a, b][..1] == [a] && [a][..0] == [];
  }

  /** `f` applied to every element, the results concatenated in order. */
  function FlatMap(cs: seq<Node>, f: Node -> seq<Node>): seq<Node>
  {
    if cs == [] then [] else FlatMap(cs[..|cs| - 1], f) + f(cs[|cs| - 1])
  }

  /** Mapping works piece by piece over a concatenation. */
  lemma {:induction false} FlatMapAppend(a: seq<Node>, b: seq<Node>, f: Node -> seq<Node>)
    ensures FlatMap(a + b, f) == FlatMap(a, f) + FlatMap(b, f)
    decreases |b|
  {
    if b == [] {
      assert a + b == a;
    } else {
      var init := b[..|b| - 1];
      assert (a + b)[..|a + b| - 1] == a + init;
      assert (a + b)[|a + b| - 1] == b[|b| - 1];
      FlatMapAppend(a, init, f);
    }
  }

  /** Mapping a single element is applying `f` to it. */
  lemma FlatMapOne(c: Node, f: Node -> seq<Node>)
    ensures FlatMap([c], f) == f(c)
  {
    assert [c][..0] == [];
  }

  /** The figure's new children: every child regrouped, in order. */
  function FigureChildren(cs: seq<Node>): seq<Node>
  {
    FlatMap(cs, Regroup)
  }

  /** Regrouping works child by child. */
  lemma FigureChildrenAppend(a: seq<Node>, b: seq<Node>)
    ensures FigureChildren(a + b) == FigureChildren(a) + FigureChildren(b)
  {
    FlatMapAppend(a, b, Regroup);
  }

  /** At most two children come out per child. */
  lemma {:induction false} FigureChildrenBound(cs: seq<Node>)
    ensures |FigureChildren(cs)| <= 2 * |cs|
  {
    if cs != [] {
      FigureChildrenBound(cs[..|cs| - 1]);
    }
  }

  /** A child that is not a paragraph. */
  predicate NotParagraph(n: Node)
  {
    !n.Paragraph?
  }

  /** One child regrouped keeps itself if it is not a paragraph, and yields only paragraphs if it is one. */
  lemma RegroupNonParagraphs(c: Node)
    ensures Filter(Regroup(c), NotParagraph) == Filter([c], NotParagraph)
  {
    var r := Regroup(c);
    if c.Paragraph? {
      assert forall k :: 0 <= k < |r| ==> r[k].Paragraph?;
      FilterNone(r, NotParagraph);
      FilterNone([c], NotParagraph);
    }
  }

  /** Filtering keeps nothing of a sequence none of whose elements qualifies. */
  lemma {:induction false} FilterNone(s: seq<Node>, keep: Node -> bool)
    requires forall k :: 0 <= k < |s| ==> !keep(s[k])
    ensures Filter(s, keep) == []
  {
    if s != [] {
      FilterNone(s[..|s| - 1], keep);
    }
  }

  /** The children that are not paragraphs come out unchanged and in their order. */
  lemma {:induction false} NonParagraphsKept(cs: seq<Node>)
    ensures Filter(FigureChildren(cs), NotParagraph) == Filter(cs, NotParagraph)
  {
    if cs != [] {
      var init, last := cs[..|cs| - 1], cs[|cs| - 1];
      NonParagraphsKept(init);
      assert cs == init + [last];
      FigureChildrenAppend(init, [last]);
      FlatMapOne(last, Regroup);
      FilterAppend(FigureChildren(init), Regroup(last), NotParagraph);
      RegroupNonParagraphs(last);
      FilterAppend(init, [last], NotParagraph);
    }
  }

  /** A figure without paragraphs keeps its children. */
  lemma {:induction false} NoParagraphUnchanged(cs: seq<Node>)
    requires forall k :: 0 <= k < |cs| ==> !cs[k].Paragraph?
    ensures FigureChildren(cs) == cs
  {
    if cs != [] {
      NoParagraphUnchanged(cs[..|cs| - 1]);
    }
  }

  /** An image followed by caption text gives an image paragraph and a caption paragraph. */
  lemma ImageAndCaptionExample(image: Node, caption: string, td: Option<Data>, pd: Option<Data>)
    requires image.Image? && Trim(caption) != ""
    ensures FigureChildren([Paragraph([image, Text(caption, td)], pd)])
            == [Paragraph([image], pd), Paragraph([Text(caption, td)], Some(CaptionData))]
  {
    var cs := [image, Text(caption, td)];
    assert cs[..1] == [image];
    assert Filter(cs, IsImage) == [image];
    assert Filter(cs, IsCaption) == [Text(caption, td)];
    FlatMapOne(Paragraph(cs, pd), Regroup);
  }

  /** An image with only blank text beside it gives the image paragraph and no caption. */
  lemma ImageOnlyExample(image: Node, blank: string, td: Option<Data>, pd: Option<Data>)
    requires image.Image? && Trim(blank) == ""
    ensures FigureChildren([Paragraph([image, Text(blank, td)], pd)]) == [Paragraph([image], pd)]
  {
    var cs := [image, Text(blank, td)];
    assert cs[..1] == [image];
    assert Filter(cs, IsImage) == [image];
    assert Filter(cs, IsCaption) == [];
    FlatMapOne(Paragraph(cs, pd), Regroup);
  }

  /** An empty paragraph disappears. */
  lemma EmptyParagraphDropped(pd: Option<Data>)
    ensures FigureChildren([Paragraph([], pd)]) == []
  {
    FlatMapOne(Paragraph([], pd), Regroup);
  }

  /** The style the visitor builds, step by step. */
  method BuildStyle(attrs: map<string, string>) returns (style: string)
    ensures style == FigureStyle(attrs)
  {
    style := "";
    if Attr(attrs, "width") != "" {
      style := style + ("width: " + attrs["width"] + ";");
    } else if Attr(attrs, "w") != "" {
      style := style + ("width: " + attrs["w"] + "%;");
    }
    assert style == WidthStyle(attrs);
    if "border" in attrs {
      var borderValue := if attrs["border"] != "" then attrs["border"] else DefaultBorder;
      style := style + (" " + BorderProperty + ReplaceChar(borderValue, '_', ' ') + ";");
    }
  }

  /** The images and the caption content of one paragraph, in one pass over its children. */
  method SplitParagraph(children: seq<Node>) returns (images: seq<Node>, textNodes: seq<Node>)
    ensures images == Filter(children, IsImage)
    ensures textNodes == Filter(children, IsCaption)
  {
    images, textNodes := [], [];
    for j := 0 to |children|
      invariant images == Filter(children[..j], IsImage)
      invariant textNodes == Filter(children[..j], IsCaption)
    {
      assert children[..j + 1][..j] == children[..j];
      var sub := children[j];
      if sub.Image? {
        images := images + [sub];
      } else if sub.Text? && Trim(sub.value) != "" {
        textNodes := textNodes + [sub];
      } else if !sub.Text? || Trim(sub.value) != "" {
        textNodes := textNodes + [sub];
      }
    }
    assert children[..|children|] == children;
  }

  /** Writing the class and then the style, when there is one, over existing attributes merges `FigureProps`. */
  lemma FigurePropsWritten(base: Props, attrs: map<string, string>)
    ensures FigureStyle(attrs) != "" ==>
      base["class" := FigureClassOf(attrs)]["style" := Trim(FigureStyle(attrs))] == base + FigureProps(attrs)
    ensures FigureStyle(attrs) == "" ==> base["class" := FigureClassOf(attrs)] == base + FigureProps(attrs)
  {
  }

  /** The render hint the visitor writes on a figure directive. */
  method FigureHint(data: Option<Data>, attrs: map<string, string>) returns (d: Data)
    ensures d == FigureData(data, attrs)
  {
    var style := BuildStyle(attrs);
    d := data.GetOr(EmptyData);
    d := d.(hName := Some("figure"));
    var props := d.hProperties.GetOr(map[]);
    FigurePropsWritten(props, attrs);
    var cls := FigureClass + (if "border" in attrs then BorderClass else "");
    props := props["class" := cls];
    if style != "" {
      props := props["style" := Trim(style)];
    }
    d := d.(hProperties := Some(props));
  }

  /** The loop over the figure's children, regrouping each paragraph. */
  method RegroupAll(children: seq<Node>) returns (newChildren: seq<Node>)
    ensures newChildren == FigureChildren(children)
  {
    newChildren := [];
    for i := 0 to |children|
      invariant newChildren == FigureChildren(children[..i])
    {
      assert children[..i + 1][..i] == children[..i];
      var child := children[i];
      if child.Paragraph? {
        var images, textNodes := SplitParagraph(child.children);
        if |images| > 0 {
          newChildren := newChildren + [Paragraph(images, child.data)];
        }
        if |textNodes| > 0 {
          newChildren := newChildren + [Paragraph(textNodes, Some(CaptionData))];
        }
      } else {
        newChildren := newChildren + [child];
      }
    }
    assert children[..|children|] == children;
  }

  /** `remarkFigure`'s visitor, run on every container directive: only the name `figure` triggers it. */
  method Visit(node: DirectiveNode)
    modifies node
    ensures node.name == "figure" ==> node.data == Some(FigureData(old(node.data), node.attributes.GetOr(map[])))
    ensures node.name == "figure" ==> node.children == FigureChildren(old(node.children))
    ensures node.name != "figure" ==> node.data == old(node.data) && node.children == old(node.children)
  {
    if node.name != "figure" {
      return;
    }
    var d := FigureHint(node.data, node.attributes.GetOr(map[]));
    node.data := Some(d);
    var newChildren := RegroupAll(node.children);
    node.children := newChildren;
  }
}
