/**
 * The image-attribute pass. An image reference may carry presentation
 * attributes after a `#`, as `&`-separated parts (`./img/x.webp#w=60&border`).
 * For every paragraph, each such image gets its reference cut at the `#`, an
 * inline `style` and `data-slide-*` attributes; the paragraph becomes a `div`
 * wrapper whose class carries the alignment. A paragraph that is nothing but one
 * plain image is wrapped and centered too.
 */
module RemarkImageAttributes {
  import opened Wrappers
  import opened Strings
  import opened Mdast

  /** The border a bare `border` part stands for. */
  const DefaultBorder := "5px solid #ADADAD"

  /** The wrapper class of a plain image that is alone in its paragraph. */
  const CenteredWrapper := "img-wrapper img-align-center"

  /**
   * Whether one `&`-separated part assigns `key`: a part with `=` assigns the
   * text before its first `=`; the bare part `border` assigns `border`; any
   * other bare part assigns nothing.
   */
  predicate Defines(part: string, key: string)
  {
    var i := IndexOf(part, '=');
    if i >= 0 then part[..i] == key else part == "border" && key == "border"
  }

  /** The value a defining part assigns: the text after its first `=` with `_` read as space, or the default border. */
  function PartValue(part: string): string
  {
    var i := IndexOf(part, '=');
    if i >= 0 then ReplaceChar(part[i + 1..], '_', ' ') else DefaultBorder
  }

  /** One turn of the parsing loop: the attributes after reading `part`. */
  function ApplyPart(attrs: map<string, string>, part: string): (r: map<string, string>)
    ensures forall k :: k in r <==> k in attrs || Defines(part, k)
    ensures forall k :: Defines(part, k) ==> r[k] == PartValue(part)
    ensures forall k :: k in attrs && !Defines(part, k) ==> r[k] == attrs[k]
  {
    if '=' in part then
      var kv := Split(part, '=');
      AssignmentPart(part);
      attrs[kv[0] := ReplaceChar(Join(kv[1..], '='), '_', ' ')]
    else if part == "border" then
      BarePart(part);
      attrs["border" := DefaultBorder]
    else
      BarePart(part);
      attrs
  }

  /** A part with `=` assigns the text before its first `=` the (converted) rest of the part. */
  lemma AssignmentPart(part: string)
    requires '=' in part
    ensures forall k :: Defines(part, k) <==> k == Split(part, '=')[0]
    ensures PartValue(part) == ReplaceChar(Join(Split(part, '=')[1..], '='), '_', ' ')
  {
    SplitAtFirst(part, '=');
  }

  /** A part without `=` assigns the default border when it is `border`, and nothing otherwise. */
  lemma BarePart(part: string)
    requires '=' !in part
    ensures forall k :: Defines(part, k) <==> part == "border" && k == "border"
    ensures PartValue(part) == DefaultBorder
  {
  }

  /** The attributes the parts define, read from first to last. */
  function Attributes(parts: seq<string>): map<string, string>
  {
    if parts == [] then map[] else ApplyPart(Attributes(parts[..|parts| - 1]), parts[|parts| - 1])
  }

  /** A key is defined exactly when some part assigns it. */
  lemma {:induction false} AttributesKeys(parts: seq<string>, key: string)
    ensures key in Attributes(parts) <==> exists i :: 0 <= i < |parts| && Defines(parts[i], key)
  {
    if parts != [] {
      var init := parts[..|parts| - 1];
      var last := parts[|parts| - 1];
      AttributesKeys(init, key);
      if key in Attributes(parts) {
        if key in Attributes(init) {
          var i :| 0 <= i < |init| && Defines(init[i], key);
          assert parts[i] == init[i];
        } else {
          assert Defines(parts[|parts| - 1], key);
        }
      } else {
        forall i | 0 <= i < |parts| ensures !Defines(parts[i], key) {
          if i < |init| {
            assert parts[i] == init[i];
          }
        }
      }
    }
  }

  /** A repeated key keeps the value of the LAST part that assigns it. */
  lemma {:induction false} AttributesLastWins(parts: seq<string>, key: string, i: nat)
    requires i < |parts| && Defines(parts[i], key)
    requires forall j :: i < j < |parts| ==> !Defines(parts[j], key)
    ensures key in Attributes(parts) && Attributes(parts)[key] == PartValue(parts[i])
  {
    var init := parts[..|parts| - 1];
    if i < |parts| - 1 {
      assert init[i] == parts[i];
      forall j | i < j < |init| ensures !Defines(init[j], key) {
        assert init[j] == parts[j];
      }
      AttributesLastWins(init, key, i);
    }
  }

  /** `parseAttributes(str)`: split the fragment on `&` and read each part in turn. */
  method ParseAttributes(str: string) returns (attrs: map<string, string>)
    ensures attrs == Attributes(Split(str, '&'))
  {
    attrs := map[];
    var parts := Split(str, '&');
    for i := 0 to |parts|
      invariant attrs == Attributes(parts[..i])
    {
      assert parts[..i + 1][..i] == parts[..i];
      var part := parts[i];
      if '=' in part {
        var kv := Split(part, '=');
        var value := ReplaceChar(Join(kv[1..], '='), '_', ' ');
        attrs := attrs[kv[0] := value];
      } else if part == "border" {
        attrs := attrs["border" := DefaultBorder];
      }
    }
    assert parts[..|parts|] == parts;
  }

  /** The inline style of an annotated image: its width (`w` percent, else 100%) and, if any, its border. */
  function ImageStyle(attrs: map<string, string>): string
  {
    var w := Attr(attrs, "w");
    var border := Attr(attrs, "border");
    "width: " + (if w != "" then w + "%" else "100%") + ";"
    + (if border != "" then " border: " + border + ";" else "")
  }

  /** The render attributes written onto an annotated image. */
  function ImageProps(attrs: map<string, string>): (p: Props)
    ensures "style" in p && p["style"] == ImageStyle(attrs)
    ensures "data-slide-width" in p <==> Attr(attrs, "w") != ""
    ensures "data-slide-border" in p <==> Attr(attrs, "border") != ""
    ensures "data-slide-align" in p <==> Attr(attrs, "align") != ""
    ensures forall k :: k in p && k != "style" ==> p[k] == Attr(attrs, SlideKey(k))
    ensures p.Keys <= {"style", "data-slide-width", "data-slide-border", "data-slide-align"}
  {
    var p := map["style" := ImageStyle(attrs)];
    var p := if Attr(attrs, "w") != "" then p["data-slide-width" := Attr(attrs, "w")] else p;
    var p := if Attr(attrs, "border") != "" then p["data-slide-border" := Attr(attrs, "border")] else p;
    if Attr(attrs, "align") != "" then p["data-slide-align" := Attr(attrs, "align")] else p
  }

  /** The fragment key each `data-slide-*` attribute carries. */
  function SlideKey(prop: string): string
  {
    if prop == "data-slide-width" then "w"
    else if prop == "data-slide-border" then "border"
    else "align"
  }

  /** The paragraph class for an annotated image: its `align`, by default `center`. */
  function WrapperClass(attrs: map<string, string>): string
  {
    "img-wrapper img-align-" + (if Attr(attrs, "align") != "" then attrs["align"] else "center")
  }

  /** An image whose reference has a `#` fragment. */
  predicate Hashed(n: Node)
  {
    n.Image? && IndexOf(n.url, '#') >= 0
  }

  /** The attributes encoded in the fragment of a hashed reference. */
  function FragmentAttributes(url: string): map<string, string>
    requires IndexOf(url, '#') >= 0
  {
    Attributes(Split(url[IndexOf(url, '#') + 1..], '&'))
  }

  /**
   * What the pass does to one child of a paragraph: a hashed image loses its
   * fragment and gains the attributes it encodes; every other node is untouched.
   */
  function RewriteImage(n: Node): (r: Node)
    ensures !Hashed(n) ==> r == n
    ensures Hashed(n) ==> r.Image? && r.alt == n.alt && '#' !in r.url
    ensures Hashed(n) ==> r.url + "#" + n.url[IndexOf(n.url, '#') + 1..] == n.url
    ensures Hashed(n) ==> r.data.Some? && r.data.value.hName == n.data.GetOr(EmptyData).hName
    ensures Hashed(n) ==> r.data.Some? && r.data.value.extra == n.data.GetOr(EmptyData).extra
    ensures Hashed(n) ==> PropsOf(r.data) == PropsOf(n.data) + ImageProps(FragmentAttributes(n.url))
  {
    if Hashed(n) then
      var i := IndexOf(n.url, '#');
      assert n.url == n.url[..i] + "#" + n.url[i + 1..];
      Image(n.url[..i], n.alt, Some(WithProps(n.data, ImageProps(FragmentAttributes(n.url)))))
    else n
  }

  /**
   * One turn of the loop, on the paragraph's data: a hashed image sets the
   * wrapper class from its alignment; a plain image that is the paragraph's
   * only child sets the centered wrapper.
   */
  function WrapStep(child: Node, total: nat, d: Option<Data>): Option<Data>
  {
    if Hashed(child) then Some(WithHint(d, "div", map["class" := WrapperClass(FragmentAttributes(child.url))]))
    else if child.Image? && total == 1 then Some(WithHint(d, "div", map["class" := CenteredWrapper]))
    else d
  }

  /** The paragraph's data after the loop has visited `children`, of `total` children in all. */
  function WrapAll(children: seq<Node>, total: nat, d: Option<Data>): Option<Data>
  {
    if children == [] then d
    else WrapStep(children[|children| - 1], total, WrapAll(children[..|children| - 1], total, d))
  }

  /**
   * The work the loop does on a hashed image: cut the reference at its first
   * `#`, parse the fragment, and write the style and `data-slide-*` attributes.
   * Also returns the alignment for the wrapper class.
   */
  method AnnotateImage(image: Node) returns (r: Node, align: string)
    requires Hashed(image)
    ensures r == RewriteImage(image)
    ensures "img-wrapper img-align-" + align == WrapperClass(FragmentAttributes(image.url))
  {
    var url := image.url;
    var hashIndex := IndexOf(url, '#');
    var attributesStr := url[hashIndex + 1..];
    var cleanUrl := url[..hashIndex];
    var attributes := ParseAttributes(attributesStr);
    align := if Attr(attributes, "align") != "" then attributes["align"] else "center";
    var props := ImageAttributeProps(image.data, attributes);
    r := Image(cleanUrl, image.alt, Some(image.data.GetOr(EmptyData).(hProperties := Some(props))));
  }

  /** The inline style of an annotated image: its width (100% by default), then its border if any. */
  method BuildImageStyle(attributes: map<string, string>) returns (imgStyle: string)
    ensures imgStyle == ImageStyle(attributes)
  {
    var width := if Attr(attributes, "w") != "" then attributes["w"] + "%" else "100%";
    var border := Attr(attributes, "border");
    imgStyle := "width: " + width + ";";
    if border != "" {
      imgStyle := imgStyle + " border: " + border + ";";
    }
  }

  /** The style and `data-slide-*` assignments on an annotated image's attributes. */
  method ImageAttributeProps(data: Option<Data>, attributes: map<string, string>) returns (props: Props)
    ensures props == PropsOf(data) + ImageProps(attributes)
  {
    var imgStyle := BuildImageStyle(attributes);
    var border := Attr(attributes, "border");
    props := data.GetOr(EmptyData).hProperties.GetOr(map[]);
    ghost var base, written := props, map["style" := imgStyle];
    props := props["style" := imgStyle];
    UpdateOverUnion(base, map[], "style", imgStyle);
    if Attr(attributes, "w") != "" {
      UpdateOverUnion(base, written, "data-slide-width", attributes["w"]);
      props, written := props["data-slide-width" := attributes["w"]], written["data-slide-width" := attributes["w"]];
    }
    if border != "" {
      UpdateOverUnion(base, written, "data-slide-border", border);
      props, written := props["data-slide-border" := border], written["data-slide-border" := border];
    }
    if Attr(attributes, "align") != "" {
      UpdateOverUnion(base, written, "data-slide-align", attributes["align"]);
      props, written := props["data-slide-align" := attributes["align"]], written["data-slide-align" := attributes["align"]];
    }
    assert written == ImageProps(attributes);
  }

  /** `node.data.hName = 'div'` and the wrapper class on the paragraph. */
  method WrapParagraph(node: ParagraphNode, cls: string)
    modifies node
    ensures node.children == old(node.children)
    ensures node.data == Some(WithHint(old(node.data), "div", map["class" := cls]))
  {
    var pd := node.data.GetOr(EmptyData);
    pd := pd.(hName := Some("div"));
    var pprops := pd.hProperties.GetOr(map[]);
    pprops := pprops["class" := cls];
    assert pprops == PropsOf(node.data) + map["class" := cls];
    node.data := Some(pd.(hProperties := Some(pprops)));
  }

  /** One turn of the visitor's loop, on child `i` of a paragraph of `total` children. */
  method VisitChild(node: ParagraphNode, i: nat, total: nat)
    requires i < |node.children|
    modifies node
    ensures node.children == old(node.children)[i := RewriteImage(old(node.children)[i])]
    ensures node.data == WrapStep(old(node.children)[i], total, old(node.data))
  {
    var child := node.children[i];
    if child.Image? {
      var url := child.url;
      var hashIndex := IndexOf(url, '#');
      if hashIndex != -1 {
        var image, align := AnnotateImage(child);
        node.children := node.children[i := image];
        WrapParagraph(node, "img-wrapper img-align-" + align);
      } else if total == 1 {
        WrapParagraph(node, CenteredWrapper);
      }
    }
  }

  /** The visitor's loop over the children of a paragraph. */
  method RewriteChildren(node: ParagraphNode)
    modifies node
    ensures |node.children| == |old(node.children)|
    ensures forall i :: 0 <= i < |node.children| ==> node.children[i] == RewriteImage(old(node.children)[i])
    ensures node.data == WrapAll(old(node.children), |old(node.children)|, old(node.data))
  {
    var children := node.children;
    for i := 0 to |children|
      invariant |node.children| == |children|
      invariant forall j :: 0 <= j < i ==> node.children[j] == RewriteImage(children[j])
      invariant forall j :: i <= j < |children| ==> node.children[j] == children[j]
      invariant node.data == WrapAll(children[..i], |children|, old(node.data))
    {
      assert children[..i + 1][..i] == children[..i];
      VisitChild(node, i, |children|);
    }
    assert children[..|children|] == children;
  }

  /**
   * `remarkImageAttributes`' visitor, run on every paragraph with its index
   * and whether it has a parent; a paragraph missing either is left alone.
   */
  method Visit(node: ParagraphNode, index: Option<nat>, hasParent: bool)
    modifies node
    ensures !hasParent || index.None? ==> node.children == old(node.children) && node.data == old(node.data)
    ensures hasParent && index.Some? ==> |node.children| == |old(node.children)|
    ensures hasParent && index.Some? ==>
      forall i :: 0 <= i < |node.children| ==> node.children[i] == RewriteImage(old(node.children)[i])
    ensures hasParent && index.Some? ==> node.data == WrapAll(old(node.children), |old(node.children)|, old(node.data))
  {
    if hasParent && index.Some? {
      RewriteChildren(node);
    }
  }

  /** A later wrapper class replaces whatever the loop had set before. */
  lemma {:induction false} WrapAllAbsorbed(children: seq<Node>, total: nat, d: Option<Data>, c: string)
    ensures WithHint(WrapAll(children, total, d), "div", map["class" := c]) == WithHint(d, "div", map["class" := c])
  {
    if children != [] {
      var init := children[..|children| - 1];
      var before := WrapAll(init, total, d);
      WrapAllAbsorbed(init, total, d, c);
      var last := children[|children| - 1];
      if Hashed(last) {
        WithHintTwice(before, "div", map["class" := WrapperClass(FragmentAttributes(last.url))], map["class" := c]);
      } else if last.Image? && total == 1 {
        WithHintTwice(before, "div", map["class" := CenteredWrapper], map["class" := c]);
      }
    }
  }

  /** Children after the last hashed image of a paragraph of two or more children leave its data alone. */
  lemma {:induction false} WrapAllIdleTail(children: seq<Node>, k: nat, total: nat, d: Option<Data>)
    requires k <= |children|
    requires total != 1
    requires forall j :: k <= j < |children| ==> !Hashed(children[j])
    ensures WrapAll(children, total, d) == WrapAll(children[..k], total, d)
  {
    if |children| > k {
      var init := children[..|children| - 1];
      assert init[..k] == children[..k];
      WrapAllIdleTail(init, k, total, d);
    } else {
      assert children[..k] == children;
    }
  }

  /**
   * The paragraph's final data: the wrapper class of the LAST hashed image
   * (alignment defaulting to `center`), whatever earlier images set.
   */
  lemma LastHashedImageWins(children: seq<Node>, i: nat, d: Option<Data>)
    requires i < |children| && Hashed(children[i])
    requires forall j :: i < j < |children| ==> !Hashed(children[j])
    ensures WrapAll(children, |children|, d)
            == Some(WithHint(d, "div", map["class" := WrapperClass(FragmentAttributes(children[i].url))]))
  {
    var c := WrapperClass(FragmentAttributes(children[i].url));
    var n := |children|;
    assert children[..i + 1][..i] == children[..i];
    WrapAllAbsorbed(children[..i], n, d, c);
    if n == 1 {
      assert children[..1] == children;
    } else {
      WrapAllIdleTail(children, i + 1, n, d);
    }
  }

  /** A paragraph without hashed images is wrapped and centered iff it is one plain image, else left alone. */
  lemma NoHashedImage(children: seq<Node>, d: Option<Data>)
    requires forall j :: 0 <= j < |children| ==> !Hashed(children[j])
    ensures |children| == 1 && children[0].Image? ==> WrapAll(children, 1, d) == Some(WithHint(d, "div", map["class" := CenteredWrapper]))
    ensures !(|children| == 1 && children[0].Image?) ==> WrapAll(children, |children|, d) == d
  {
    if |children| != 1 {
      WrapAllIdleTail(children, 0, |children|, d);
    }
  }

  /** A `key=value` part assigns `value`, with `_` read as space, to `key`. */
  lemma ParsePair(attrs: map<string, string>, key: string, value: string)
    requires '=' !in key
    ensures ApplyPart(attrs, key + "=" + value) == attrs[key := ReplaceChar(value, '_', ' ')]
  {
    var part := key + "=" + value;
    IndexOfIs(part, '=', |key|);
    assert part[..|key|] == key;
    assert part[|key| + 1..] == value;
  }

  /** The bare part `border` assigns the default border. */
  lemma ParseBorder(attrs: map<string, string>)
    ensures ApplyPart(attrs, "border") == attrs["border" := DefaultBorder]
  {
  }

  /** Reading one more part is one more turn of the loop. */
  lemma AttributesAppend(parts: seq<string>, part: string)
    ensures Attributes(parts + [part]) == ApplyPart(Attributes(parts), part)
  {
    assert (parts + [part])[..|parts|] == parts;
  }

  /** A fragment with one more `&`-separated part: that part is read last. */
  lemma FragmentAppend(s: string, part: string)
    requires '&' !in part
    ensures Attributes(Split(s + "&" + part, '&')) == ApplyPart(Attributes(Split(s, '&')), part)
  {
    SplitAppend(s, part, '&');
    AttributesAppend(Split(s, '&'), part);
  }

  /** A fragment of one part is that part read on its own. */
  lemma FragmentOnePart(part: string)
    requires '&' !in part
    ensures Attributes(Split(part, '&')) == ApplyPart(map[], part)
  {
    assert Split(part, '&') == [part];
    assert [part][..0] == [];
  }

  /** An unknown bare flag (`#foo&w=50`), or an empty part, is dropped. */
  lemma UnknownFlagIgnored(s: string, flag: string)
    requires '&' !in flag && '=' !in flag && flag != "border"
    ensures Attributes(Split(s + "&" + flag, '&')) == Attributes(Split(s, '&'))
  {
    FragmentAppend(s, flag);
  }

  /** A trailing `&` (`#align=left&`) gives an empty part, which adds nothing. */
  lemma TrailingAmpersand(s: string)
    ensures Attributes(Split(s + "&", '&')) == Attributes(Split(s, '&'))
  {
    UnknownFlagIgnored(s, "");
    assert s + "&" + "" == s + "&";
  }

  /** `#w=60&border`: a `key=value` part and a bare `border` give that key and the default border. */
  lemma PairAndBorderExample(key: string, value: string)
    requires '=' !in key && '&' !in key && '&' !in value && '_' !in value
    ensures Attributes(Split(key + "=" + value + "&border", '&')) == map[key := value, "border" := DefaultBorder]
  {
    var p1 := key + "=" + value;
    assert key + "=" + value + "&border" == p1 + "&" + "border";
    FragmentAppend(p1, "border");
    FragmentOnePart(p1);
    ParsePair(map[], key, value);
    ReplaceCharAbsent(value, '_', ' ');
    ParseBorder(map[key := value]);
  }

  /** The style, slide attributes and wrapper class those attributes give (alignment defaults to `center`). */
  lemma WidthAndBorderRendering()
    ensures ImageStyle(map["w" := "60", "border" := DefaultBorder]) == "width: 60%; border: 5px solid #ADADAD;"
    ensures ImageProps(map["w" := "60", "border" := DefaultBorder])
            == map["style" := "width: 60%; border: 5px solid #ADADAD;", "data-slide-width" := "60",
                   "data-slide-border" := DefaultBorder]
    ensures WrapperClass(map["w" := "60", "border" := DefaultBorder]) == CenteredWrapper
  {
    var a := map["w" := "60", "border" := DefaultBorder];
    assert Attr(a, "w") == "60" && Attr(a, "border") == DefaultBorder && Attr(a, "align") == "";
  }

  /** An empty fragment (`x.webp#`) defines nothing. */
  lemma EmptyFragmentExample(fragment: string)
    requires fragment == ""
    ensures Attributes(Split(fragment, '&')) == map[]
  {
    assert Split(fragment, '&') == [""];
  }
}
