/**
 * The sidebar configuration helpers: which sidebar sections a URL path shows,
 * the flattening of a section's nested items into a list of links, and the
 * previous/next links of a page within that list. The configured map from
 * path prefixes to sections is a parameter.
 */
module Sidebar {
  import opened Wrappers
  import opened Strings
  import opened PathPrefix

  /**
   * One sidebar entry: a label, an optional page slug and nested entries
   * (an absent `items` array is the empty sequence, which the flattening
   * treats alike).
   */
  datatype SidebarItem = SidebarItem(text: string, slug: Option<string>, items: seq<SidebarItem>)

  /** A labelled group of sidebar entries. */
  datatype SidebarSection = SidebarSection(text: string, items: seq<SidebarItem>)

  /** `sidebarSections`: the sections configured for each path key. */
  type Sections = map<string, seq<SidebarSection>>

  /** A navigation link produced by flattening. */
  datatype NavLink = NavLink(text: string, href: string)

  /** The previous and next links of a page; `None` is `null`. */
  datatype PrevNext = PrevNext(prev: Option<NavLink>, next: Option<NavLink>)

  /** The keys the prefix search may pick: every key except the home key `/`. */
  function PrefixKeys(sections: Sections): set<string>
  {
    sections.Keys - {"/"}
  }

  /** The sections shown for `pathname`. */
  ghost function SidebarFor(sections: Sections, pathname: string): seq<SidebarSection>
  {
    var path := StripTrailingSlash(pathname);
    if path in sections then sections[path]
    else
      var best := BestPrefix(PrefixKeys(sections), path);
      if best != "" then sections[best]
      else if "/" in sections then sections["/"] else []
  }

  /**
   * `getSidebarForPath`: drop one trailing slash, return the exact entry if
   * there is one, else the entry of the longest key other than `/` that the
   * path starts with, else the `/` entry or nothing. The keys are visited in
   * an unspecified order.
   */
  method GetSidebarForPath(sections: Sections, pathname: string) returns (r: seq<SidebarSection>)
    ensures r == SidebarFor(sections, pathname)
  {
    var path := StripTrailingSlash(pathname);
    if path in sections {
      return sections[path];
    }
    var bestMatch := "";
    var remaining := sections.Keys;
    ghost var seen: set<string> := {};
    while remaining != {}
      invariant remaining + seen == sections.Keys
      invariant IsBest(seen - {"/"}, path, bestMatch)
      decreases |remaining|
    {
      var key :| key in remaining;
      SkipHomeStep(seen, path, bestMatch, key);
      if key != "/" && StartsWith(path, key) && |key| > |bestMatch| {
        bestMatch := key;
      }
      remaining := remaining - {key};
      seen := seen + {key};
    }
    assert seen - {"/"} == PrefixKeys(sections);
    BestUnique(PrefixKeys(sections), path, bestMatch, BestPrefix(PrefixKeys(sections), path));
    if bestMatch != "" {
      return sections[bestMatch];
    }
    r := if "/" in sections then sections["/"] else [];
  }

  /** One iteration of the search loop, which passes over the home key `/`. */
  lemma SkipHomeStep(seen: set<string>, path: string, best: string, key: string)
    requires IsBest(seen - {"/"}, path, best)
    ensures IsBest((seen + {key}) - {"/"}, path,
                   if key != "/" && StartsWith(path, key) && |key| > |best| then key else best)
  {
    if key != "/" {
      BestStep(seen - {"/"}, path, best, key);
      assert seen - {"/"} + {key} == (seen + {key}) - {"/"};
    } else {
      assert seen - {"/"} == (seen + {key}) - {"/"};
    }
  }

  /** A path without a trailing slash and the same path with one show the same sections. */
  lemma SidebarTrailingSlash(sections: Sections, p: string)
    requires !EndsWithSlash(p)
    ensures SidebarFor(sections, p + "/") == SidebarFor(sections, p)
  {
    assert StripTrailingSlash(p + "/") == p;
  }

  /** A configured key matching the path (after one trailing slash is dropped) selects its own entry. */
  lemma SidebarExact(sections: Sections, pathname: string, key: string)
    requires key in sections
    requires pathname == key + "/" || (pathname == key && !EndsWithSlash(key))
    ensures SidebarFor(sections, pathname) == sections[key]
  {
    if pathname == key + "/" {
      assert StripTrailingSlash(pathname) == key;
    }
  }

  /**
   * Without an exact entry, the longest key other than `/` that the
   * normalised path starts with selects the entry, at any character position:
   * key `/a` also serves `/ab`.
   */
  lemma SidebarLongestPrefix(sections: Sections, pathname: string, key: string)
    requires StripTrailingSlash(pathname) !in sections
    requires key in sections && key != "/" && key != ""
    requires StartsWith(StripTrailingSlash(pathname), key)
    requires forall k :: k in sections && k != "/" && StartsWith(StripTrailingSlash(pathname), k) ==> |k| <= |key|
    ensures SidebarFor(sections, pathname) == sections[key]
  {
    BestPrefixIs(PrefixKeys(sections), StripTrailingSlash(pathname), key);
  }

  /** With neither an exact entry nor a prefix key, the home entry is shown, or nothing. */
  lemma SidebarDefault(sections: Sections, pathname: string)
    requires StripTrailingSlash(pathname) !in sections
    requires forall k :: k in sections && k != "/" && k != "" ==> !StartsWith(StripTrailingSlash(pathname), k)
    ensures SidebarFor(sections, pathname) == (if "/" in sections then sections["/"] else [])
  {
    BestPrefixNone(PrefixKeys(sections), StripTrailingSlash(pathname));
  }

  /** `item.slug` is truthy: present and not empty. */
  predicate HasSlug(item: SidebarItem)
  {
    item.slug.Some? && item.slug.value != ""
  }

  /** The link an item contributes by itself: `/<slug>/` when it has a slug. */
  function OwnLink(item: SidebarItem): (r: seq<NavLink>)
    ensures |r| <= 1
  {
    if HasSlug(item) then [NavLink(item.text, "/" + item.slug.value + "/")] else []
  }

  /** The pre-order list of links of a forest of items. */
  function Flatten(items: seq<SidebarItem>): seq<NavLink>
    decreases items
  {
    if items == [] then []
    else OwnLink(items[0]) + Flatten(items[0].items) + Flatten(items[1..])
  }

  /** The number of items with a slug, at every depth. */
  function SluggedCount(items: seq<SidebarItem>): nat
    decreases items
  {
    if items == [] then 0
    else (if HasSlug(items[0]) then 1 else 0) + SluggedCount(items[0].items) + SluggedCount(items[1..])
  }

  /** Flattening a concatenation flattens each part in turn. */
  lemma {:induction false} FlattenAppend(a: seq<SidebarItem>, b: seq<SidebarItem>)
    ensures Flatten(a + b) == Flatten(a) + Flatten(b)
    decreases a
  {
    if a == [] {
      assert a + b == b;
    } else {
      assert (a + b)[1..] == a[1..] + b;
      FlattenAppend(a[1..], b);
    }
  }

  /**
   * An item with a slug emits its own link before its nested items; an item
   * without one emits only its nested items.
   */
  lemma FlattenItem(item: SidebarItem)
    ensures HasSlug(item) ==> Flatten([item]) == [NavLink(item.text, "/" + item.slug.value + "/")] + Flatten(item.items)
    ensures !HasSlug(item) ==> Flatten([item]) == Flatten(item.items)
  {
    assert [item][1..] == [];
  }

  /** The flattened list holds exactly one link per slugged item. */
  lemma {:induction false} FlattenLength(items: seq<SidebarItem>)
    ensures |Flatten(items)| == SluggedCount(items)
    decreases items
  {
    if items != [] {
      FlattenLength(items[0].items);
      FlattenLength(items[1..]);
    }
  }

  /** Every link is an href of the form `/<slug>/` with a non-empty slug. */
  lemma {:induction false} FlattenHrefs(items: seq<SidebarItem>)
    ensures forall l :: l in Flatten(items) ==> |l.href| >= 3 && l.href[0] == '/' && EndsWithSlash(l.href)
    decreases items
  {
    if items != [] {
      FlattenHrefs(items[0].items);
      FlattenHrefs(items[1..]);
    }
  }

  /** `flattenSidebarItems`: one pass over the items, pushing each item's link and then its flattened children. */
  method FlattenItems(items: seq<SidebarItem>) returns (result: seq<NavLink>)
    ensures result == Flatten(items)
    decreases items
  {
    result := [];
    for i := 0 to |items|
      invariant result == Flatten(items[..i])
    {
      var item := items[i];
      if HasSlug(item) {
        result := result + [NavLink(item.text, "/" + item.slug.value + "/")];
      }
      var nested := FlattenItems(item.items);
      result := result + nested;
      FlattenItem(item);
      FlattenAppend(items[..i], [item]);
      assert items[..i + 1] == items[..i] + [item];
    }
    assert items[..|items|] == items;
  }

  /** The links of a list of sections, section after section. */
  function AllLinks(sections: seq<SidebarSection>): seq<NavLink>
  {
    if sections == [] then []
    else AllLinks(sections[..|sections| - 1]) + Flatten(sections[|sections| - 1].items)
  }

  /** `links.findIndex(link => link.href === href)`. */
  function FindHref(links: seq<NavLink>, href: string): (i: int)
    ensures -1 <= i < |links|
    ensures i >= 0 ==> links[i].href == href && forall j :: 0 <= j < i ==> links[j].href != href
    ensures i == -1 <==> forall j :: 0 <= j < |links| ==> links[j].href != href
  {
    if links == [] then -1
    else if links[0].href == href then 0
    else
      var j := FindHref(links[1..], href);
      if j < 0 then -1 else j + 1
  }

  /** The neighbours of position `i`, or none when `i` is -1. */
  function Neighbours(links: seq<NavLink>, i: int): PrevNext
    requires -1 <= i < |links|
  {
    if i == -1 then PrevNext(None, None)
    else PrevNext(if i > 0 then Some(links[i - 1]) else None,
                  if i < |links| - 1 then Some(links[i + 1]) else None)
  }

  /** The previous and next links of `pathname`. */
  ghost function PrevNextFor(sections: Sections, pathname: string): PrevNext
  {
    var links := AllLinks(SidebarFor(sections, pathname));
    Neighbours(links, FindHref(links, EnsureTrailingSlash(pathname)))
  }

  /**
   * `getPrevNextLinks`: collect the links of the path's sections, find the
   * first one whose href is the path with a trailing slash, and return its
   * neighbours.
   */
  method GetPrevNextLinks(sections: Sections, pathname: string) returns (r: PrevNext)
    ensures r == PrevNextFor(sections, pathname)
  {
    var shown := GetSidebarForPath(sections, pathname);
    var allLinks := [];
    for i := 0 to |shown|
      invariant allLinks == AllLinks(shown[..i])
    {
      var links := FlattenItems(shown[i].items);
      allLinks := allLinks + links;
      assert shown[..i + 1][..i] == shown[..i];
    }
    assert shown[..|shown|] == shown;
    var normalizedPath := EnsureTrailingSlash(pathname);
    var currentIndex := FindHref(allLinks, normalizedPath);
    if currentIndex == -1 {
      return PrevNext(None, None);
    }
    r := PrevNext(if currentIndex > 0 then Some(allLinks[currentIndex - 1]) else None,
                  if currentIndex < |allLinks| - 1 then Some(allLinks[currentIndex + 1]) else None);
  }

  /** A page whose path (with a trailing slash) is no link's href has no neighbours. */
  lemma PrevNextNotListed(sections: Sections, pathname: string)
    requires forall l :: l in AllLinks(SidebarFor(sections, pathname)) ==> l.href != EnsureTrailingSlash(pathname)
    ensures PrevNextFor(sections, pathname) == PrevNext(None, None)
  {
    var links := AllLinks(SidebarFor(sections, pathname));
    assert forall j :: 0 <= j < |links| ==> links[j] in links;
  }

  /**
   * A page listed first at position `i` has the link before it as previous
   * (none at the start) and the link after it as next (none at the end).
   */
  lemma PrevNextListed(sections: Sections, pathname: string, i: nat)
    requires var links := AllLinks(SidebarFor(sections, pathname));
      i < |links| && links[i].href == EnsureTrailingSlash(pathname)
      && forall j :: 0 <= j < i ==> links[j].href != EnsureTrailingSlash(pathname)
    ensures var links := AllLinks(SidebarFor(sections, pathname));
      var r := PrevNextFor(sections, pathname);
      && r.prev == (if i > 0 then Some(links[i - 1]) else None)
      && r.next == (if i + 1 < |links| then Some(links[i + 1]) else None)
  {
    var links := AllLinks(SidebarFor(sections, pathname));
    var k := FindHref(links, EnsureTrailingSlash(pathname));
    assert k == i;
  }

  /** A path without a trailing slash and the same path with one have the same neighbours. */
  lemma PrevNextTrailingSlash(sections: Sections, p: string)
    requires !EndsWithSlash(p)
    ensures PrevNextFor(sections, p + "/") == PrevNextFor(sections, p)
  {
    SidebarTrailingSlash(sections, p);
  }
}
