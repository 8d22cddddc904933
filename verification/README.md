# FRC Software site: content plugins and navigation configuration

This project models the core of the frcsoftware.org documentation site. That
core is the part that turns Markdown into the pages' structure and decides the
navigation around each page. It has three parts.

- **Four remark plugins.** They rewrite the Markdown syntax tree (mdast) before
  it becomes HTML:
  - `remarkCenter` turns a `:::center` container directive into a centred `div`.
  - `remarkFigure` turns a `:::figure` directive into a `figure` with optional
    width and border styles. It regroups each paragraph inside into an image
    paragraph and a `figcaption`.
  - `remarkImageAttributes` reads attributes encoded in an image URL's fragment
    (`#w=60&border&align=left`). It strips the fragment and sets the image's
    style and `data-slide-*` properties. It also turns the enclosing paragraph
    into an aligned wrapper `div`.
  - `remarkGlossary` finds glossary terms in text nodes: whole words, without
    case, longest term first. It replaces each text node that has matches with
    plain text nodes and `<abbr>` HTML nodes that carry the escaped definition.
- **The glossary data.** This is the list of term/definition pairs and its two
  lookups, `getGlossaryTerm` (first entry equal without case) and
  `getGlossaryMap` (lower-cased term to definition, later entries winning).
- **Navigation configuration.**
  - `getSidebarForPath` picks a page's sidebar. It uses the exact entry if one
    exists, otherwise the longest configured prefix, otherwise the home entry.
  - `flattenSidebarItems` and `getPrevNextLinks` lay the sidebar out as a list
    of links. They find the page in that list and give its neighbours.
  - `getTocConfigForPath` decides the table of contents for a page by the same
    longest-prefix rule.

Modules, one per source file, plus shared ones:

| module | file | models |
|---|---|---|
| `Wrappers` | wrappers.dfy | `Option` |
| `Strings` | strings.dfy | the JavaScript string operations used (`indexOf`, `split`, `join`, `replace`, `trim`, `startsWith`, `toLowerCase`) |
| `Mdast` | mdast.dfy | syntax-tree nodes and their `data` (`hName`, `hProperties`); the nodes the visitors mutate are classes |
| `RemarkCenter` | center.dfy | `src/plugins/remark-center.ts` |
| `RemarkFigure` | figure.dfy | `src/plugins/remark-figure.ts` |
| `RemarkImageAttributes` | image_attributes.dfy | `src/plugins/remark-image-attributes.ts` |
| `Glossary` | glossary_data.dfy | `src/data/glossary.ts` |
| `RemarkGlossary` | glossary_matcher.dfy | `src/plugins/remark-glossary.ts` |
| `PathPrefix` | path_prefix.dfy | the longest-prefix search shared by the two configuration files |
| `Sidebar` | sidebar.dfy | `src/config/sidebarConfig.ts` lookups |
| `Toc` | toc.dfy | `src/config/tocConfig.ts` |

Each visitor is a method on the node object it receives. That object is a class
whose `children` and `data` fields the method reassigns. The method's
postcondition gives the new state in terms of pure specification functions, and
lemmas prove what the plugin promises about those functions.

The configuration lookups iterate over the keys of a map. They are methods that
visit the keys in an unspecified order. Each is proved equal to a
specification: the unique longest candidate key, which `PathPrefix.BestUnique`
shows does not depend on that order.

## Model

| member | source | states |
|---|---|---|
| `Strings.IndexOf` | src/plugins/remark-image-attributes.ts:51 | the result is the first index holding the character, or -1 exactly when it does not occur |
| `Strings.IndexOfIs` | src/plugins/remark-image-attributes.ts:51 | any index holding the character with no earlier occurrence is the one `indexOf` returns |
| `Strings.Split` | src/plugins/remark-image-attributes.ts:112 | `split` on one character gives at least one piece and no piece holds the separator |
| `Strings.JoinSplit` | src/plugins/remark-image-attributes.ts:116-118 | joining a split with the same separator gives back the original string |
| `Strings.SplitJoin` | src/plugins/remark-image-attributes.ts:116-118 | splitting a join of separator-free pieces gives back the pieces |
| `Strings.JoinSnoc` | src/plugins/remark-image-attributes.ts:118 | joining one more piece adds one separator and that piece at the end |
| `Strings.SplitAppend` | src/plugins/remark-image-attributes.ts:112 | a separator and a separator-free piece appended to the text append that piece to the split |
| `Strings.SplitAtFirst` | src/plugins/remark-image-attributes.ts:116-118 | `[key, ...valueParts]`: the key is the text before the first `=` and the joined rest is the text after it |
| `Strings.ReplaceChar` | src/plugins/remark-image-attributes.ts:118 | global single-character replace: same length, each occurrence replaced and every other character kept |
| `Strings.ReplaceCharAbsent` | src/plugins/remark-figure.ts:60 | replacing a character that does not occur changes nothing |
| `Strings.ReplaceWith` | src/plugins/remark-glossary.ts:97 | replacing a character by a string without it removes every occurrence; with no occurrence the string is unchanged |
| `Strings.ReplaceWithOne` | src/plugins/remark-glossary.ts:97 | on one character, a global replace gives the replacement string for the target character and the character itself otherwise |
| `Strings.ReplaceWithAppend` | src/plugins/remark-glossary.ts:96-101 | a global replace distributes over concatenation |
| `Strings.Lower` | src/data/glossary.ts:207 | `toLowerCase` keeps the length and lower-cases each character |
| `Strings.LowerSlice` | src/plugins/remark-glossary.ts:62 | lower-casing commutes with slicing |
| `Strings.LowerIdempotent` | src/data/glossary.ts:207 | lower-casing twice is lower-casing once |
| `Strings.StripTrailingSlash` | src/config/sidebarConfig.ts:592 | exactly one trailing slash is removed when present, otherwise the path is unchanged |
| `Strings.EnsureTrailingSlash` | src/config/sidebarConfig.ts:646 | the result ends with a slash; a slash is appended only when missing |
| `Strings.LeadingWhitespace` | src/plugins/remark-figure.ts:70 | counts exactly the maximal run of whitespace at the start |
| `Strings.TrailingWhitespace` | src/plugins/remark-figure.ts:70 | counts exactly the maximal run of whitespace at the end |
| `Strings.Trim` | src/plugins/remark-figure.ts:70 | `trim` is the slice after the leading whitespace that neither starts nor ends with whitespace and leaves only whitespace after it |
| `Strings.TrimEmptyIffBlank` | src/plugins/remark-figure.ts:85 | a string trims to empty exactly when every character is whitespace (the caption filter's falsy test) |
| `Strings.TrimUnchanged` | src/plugins/remark-figure.ts:70 | a string without whitespace at either end trims to itself |
| `Strings.TrimLeadingSpace` | src/plugins/remark-figure.ts:60-70 | a leading space is removed by trimming |
| `Mdast.Attr` | src/plugins/remark-figure.ts:50-54 | reading an attribute as a truthy value: a non-empty result is the stored value, and a present key gives its value |
| `Mdast.WithHintTwice` | src/plugins/remark-image-attributes.ts:91-101 | writing the wrapper hint twice, the second with the same or more properties, equals writing only the second |
| `Mdast.DirectiveNode.constructor` | src/plugins/remark-center.ts:17-26 | a container directive with the given name, attributes, children and data |
| `Mdast.ParagraphNode.constructor` | src/plugins/remark-image-attributes.ts:26-33 | a paragraph with the given children and data |
| `Mdast.ParentNode.constructor` | src/plugins/remark-glossary.ts:34-47 | a parent with the given type, tag name and children |
| `RemarkCenter.CenterHint` | src/plugins/remark-center.ts:34-37 | the data becomes a `div` whose `class` is `centered-content`; every other property and field of the old data is kept |
| `RemarkCenter.CenterHintIdempotent` | src/plugins/remark-center.ts:34-37 | centring data that is already centred changes nothing |
| `RemarkCenter.Visit` | src/plugins/remark-center.ts:30-38 | a `center` directive gets the centring hint; any other directive, and every node's children, are unchanged |
| `RemarkCenter.CenterTreeKeepsShape` | src/plugins/remark-center.ts:28-40 | the whole-tree pass keeps every node's kind, a directive's name and attributes, a paragraph's data, and leaves leaf nodes unchanged |
| `RemarkCenter.CenterTreeIdempotent` | src/plugins/remark-center.ts:28-40 | running the plugin a second time over its own output changes nothing |
| `RemarkFigure.FigureClassOf` | src/plugins/remark-figure.ts:67 | the class is `md-figure`, with ` md-figure-border` added exactly when a `border` attribute is present |
| `RemarkFigure.FigureProps` | src/plugins/remark-figure.ts:64-71 | the written properties are `class`, plus `style` exactly when the style is non-empty, holding the trimmed style |
| `RemarkFigure.StyleEmptyIff` | src/plugins/remark-figure.ts:47-61 | the style is empty exactly when `width` and `w` are falsy and there is no `border` attribute |
| `RemarkFigure.WidthBeatsW` | src/plugins/remark-figure.ts:50-54 | with a truthy `width`, the `w` attribute has no effect |
| `RemarkFigure.BareBorderIsDefault` | src/plugins/remark-figure.ts:57-61 | an empty `border` attribute gives the same style and properties as the default `5px solid #ADADAD` |
| `RemarkFigure.TrimmedWidthStyle` | src/plugins/remark-figure.ts:50-70 | a style that starts with a width declaration is already trimmed |
| `RemarkFigure.TrimmedBorderStyle` | src/plugins/remark-figure.ts:57-70 | a border-only style loses exactly its leading space to `trim` |
| `RemarkFigure.BorderOnlyStyle` | src/plugins/remark-figure.ts:57-61 | without a width, the style is one space and the `--figure-border` declaration |
| `RemarkFigure.Filter` | src/plugins/remark-figure.ts:82-91 | the kept children all pass the test and are no more than the input |
| `RemarkFigure.FilterKeeps` | src/plugins/remark-figure.ts:82-91 | every child that passes the test is kept |
| `RemarkFigure.FilterAppend` | src/plugins/remark-figure.ts:82-91 | filtering distributes over concatenation, so the order of children is kept |
| `RemarkFigure.FilterPartition` | src/plugins/remark-figure.ts:82-91 | three disjoint, covering tests split a sequence into three filters that together are a permutation of it |
| `RemarkFigure.PartitionCounts` | src/plugins/remark-figure.ts:82-91 | images, captions and blank text nodes together are exactly the paragraph's children: blank text is the only thing dropped |
| `RemarkFigure.Regroup` | src/plugins/remark-figure.ts:76-116 | a child becomes at most two paragraphs; a non-paragraph child is kept as it is |
| `RemarkFigure.RegroupParagraph` | src/plugins/remark-figure.ts:94-112 | a paragraph becomes only non-empty paragraphs: the image paragraph first, keeping the old data, and the `figcaption` paragraph last |
| `RemarkFigure.RegroupParagraphContents` | src/plugins/remark-figure.ts:77-112 | those paragraphs hold the images and then the caption content, each in their original order |
| `RemarkFigure.RegroupLosesOnlyBlank` | src/plugins/remark-figure.ts:82-112 | the only children a paragraph loses are blank text nodes |
| `RemarkFigure.FlatMapAppend` | src/plugins/remark-figure.ts:74-118 | regrouping distributes over concatenation of the children |
| `RemarkFigure.FigureChildrenAppend` | src/plugins/remark-figure.ts:74-118 | the new children of a concatenation are the concatenated new children |
| `RemarkFigure.FigureChildrenBound` | src/plugins/remark-figure.ts:74-118 | there are at most twice as many new children as old |
| `RemarkFigure.RegroupNonParagraphs` | src/plugins/remark-figure.ts:113-115 | regrouping one child adds or removes no non-paragraph node |
| `RemarkFigure.NonParagraphsKept` | src/plugins/remark-figure.ts:113-115 | the non-paragraph children are kept, all of them and in order |
| `RemarkFigure.NoParagraphUnchanged` | src/plugins/remark-figure.ts:113-115 | a directive without paragraphs keeps its children |
| `RemarkFigure.ImageAndCaptionExample` | src/plugins/remark-figure.ts:94-112 | an image and caption text become an image paragraph with the old data and a `figcaption` paragraph |
| `RemarkFigure.ImageOnlyExample` | src/plugins/remark-figure.ts:85-100 | an image with blank text becomes a lone image paragraph; the blank text is dropped |
| `RemarkFigure.EmptyParagraphDropped` | src/plugins/remark-figure.ts:94-112 | an empty paragraph disappears |
| `RemarkFigure.BuildStyle` | src/plugins/remark-figure.ts:47-61 | the style the code builds step by step is `FigureStyle` |
| `RemarkFigure.SplitParagraph` | src/plugins/remark-figure.ts:78-91 | the inner loop collects exactly the images, and exactly the non-blank non-image nodes, each in order |
| `RemarkFigure.FigurePropsWritten` | src/plugins/remark-figure.ts:66-71 | writing `class` and then `style`, when the style is non-empty, over existing properties merges `FigureProps` into them |
| `RemarkFigure.FigureHint` | src/plugins/remark-figure.ts:64-71 | the new data is a `figure` with the figure properties merged over the old properties |
| `RemarkFigure.RegroupAll` | src/plugins/remark-figure.ts:74-118 | the outer loop's new children are `FigureChildren` of the old ones |
| `RemarkFigure.Visit` | src/plugins/remark-figure.ts:41-118 | a `figure` directive gets the figure data and regrouped children; any other directive is unchanged |
| `RemarkImageAttributes.ApplyPart` | src/plugins/remark-image-attributes.ts:114-124 | one part sets exactly the key it defines to its value and keeps every other attribute |
| `RemarkImageAttributes.AssignmentPart` | src/plugins/remark-image-attributes.ts:115-119 | a part with `=` defines the text before the first `=`, with the underscore-replaced rest as value |
| `RemarkImageAttributes.BarePart` | src/plugins/remark-image-attributes.ts:120-123 | a part without `=` defines only `border`, and only when it is exactly `border`, with the default border |
| `RemarkImageAttributes.AttributesKeys` | src/plugins/remark-image-attributes.ts:108-127 | a key is parsed exactly when some part defines it |
| `RemarkImageAttributes.AttributesLastWins` | src/plugins/remark-image-attributes.ts:114-124 | a key's value comes from the last part that defines it |
| `RemarkImageAttributes.ParseAttributes` | src/plugins/remark-image-attributes.ts:108-127 | the loop's map is the fold of `ApplyPart` over the `&`-separated parts |
| `RemarkImageAttributes.ImageProps` | src/plugins/remark-image-attributes.ts:63-88 | the image gets `style`, plus `data-slide-width`, `-border` and `-align` each exactly when that attribute is truthy, holding it |
| `RemarkImageAttributes.RewriteImage` | src/plugins/remark-image-attributes.ts:46-88 | an image without `#` is unchanged; otherwise the URL loses exactly the fragment, the image properties are merged over the old ones, and the rest of its data is kept |
| `RemarkImageAttributes.AnnotateImage` | src/plugins/remark-image-attributes.ts:51-88 | rewrites a hashed image as `RewriteImage` and gives the alignment that names the wrapper class |
| `RemarkImageAttributes.BuildImageStyle` | src/plugins/remark-image-attributes.ts:65-72 | the style built step by step is `ImageStyle` |
| `RemarkImageAttributes.ImageAttributeProps` | src/plugins/remark-image-attributes.ts:75-88 | the written properties are the old ones with the image properties merged over them |
| `RemarkImageAttributes.WrapParagraph` | src/plugins/remark-image-attributes.ts:91-94 | the paragraph becomes a `div` with the given class; its children are unchanged |
| `RemarkImageAttributes.VisitChild` | src/plugins/remark-image-attributes.ts:44-102 | one turn of the loop rewrites child `i` alone and applies that child's wrapper step to the paragraph data |
| `RemarkImageAttributes.RewriteChildren` | src/plugins/remark-image-attributes.ts:43-103 | the loop rewrites every child in place, keeps their number, and leaves the data as the fold of the wrapper steps |
| `RemarkImageAttributes.Visit` | src/plugins/remark-image-attributes.ts:37-103 | without a parent or index nothing changes; otherwise every child is rewritten in place and the data is the fold of the wrapper steps |
| `RemarkImageAttributes.WrapAllAbsorbed` | src/plugins/remark-image-attributes.ts:91-101 | a wrapper class written after the loop's steps replaces whatever they set |
| `RemarkImageAttributes.WrapAllIdleTail` | src/plugins/remark-image-attributes.ts:95-101 | in a paragraph of more than one child, unhashed children change nothing |
| `RemarkImageAttributes.LastHashedImageWins` | src/plugins/remark-image-attributes.ts:91-94 | the paragraph's class is the wrapper of the last hashed image, whatever earlier ones set |
| `RemarkImageAttributes.NoHashedImage` | src/plugins/remark-image-attributes.ts:95-101 | without hashed images, only a lone image paragraph becomes a centred wrapper; any other paragraph keeps its data |
| `RemarkImageAttributes.ParsePair` | src/plugins/remark-image-attributes.ts:115-119 | `key=value` sets `key` to the value with underscores as spaces |
| `RemarkImageAttributes.ParseBorder` | src/plugins/remark-image-attributes.ts:120-123 | bare `border` sets the default border |
| `RemarkImageAttributes.AttributesAppend` | src/plugins/remark-image-attributes.ts:114-124 | parts are applied left to right |
| `RemarkImageAttributes.FragmentAppend` | src/plugins/remark-image-attributes.ts:112-124 | appending `&part` to a fragment applies that part last |
| `RemarkImageAttributes.FragmentOnePart` | src/plugins/remark-image-attributes.ts:112-124 | a fragment without `&` is one part |
| `RemarkImageAttributes.UnknownFlagIgnored` | src/plugins/remark-image-attributes.ts:114-124 | a part without `=` other than `border` is ignored |
| `RemarkImageAttributes.TrailingAmpersand` | src/plugins/remark-image-attributes.ts:112-124 | a trailing `&` adds an empty part, which is ignored |
| `RemarkImageAttributes.PairAndBorderExample` | src/plugins/remark-image-attributes.ts:6 | `key=value&border` parses to that pair and the default border |
| `RemarkImageAttributes.WidthAndBorderRendering` | src/plugins/remark-image-attributes.ts:63-94 | `w=60&border` renders as `width: 60%; border: 5px solid #ADADAD;` with its slide attributes, centred |
| `RemarkImageAttributes.EmptyFragmentExample` | src/plugins/remark-image-attributes.ts:108-127 | an empty fragment parses to no attributes |
| `Glossary.Entries` | src/data/glossary.ts:19-201 | the shipped list pairs each term with its definition, in the order listed |
| `Glossary.FindTerm` | src/data/glossary.ts:206-208 | a found entry is listed and equal to the query without case; none is found exactly when no entry is |
| `Glossary.FindTermFirst` | src/data/glossary.ts:206-208 | the first entry equal to the query without case is the one found |
| `Glossary.TermMapKeys` | src/data/glossary.ts:213-219 | the map's keys are exactly the lower-cased terms |
| `Glossary.TermMapLastWins` | src/data/glossary.ts:215-217 | a key maps to the definition of the last entry with that term |
| `Glossary.TermMapSize` | src/data/glossary.ts:213-219 | the map has no more keys than there are entries |
| `Glossary.BuildTermMap` | src/data/glossary.ts:214-218 | the `forEach`/`set` loop builds `TermMap` |
| `Glossary.GetGlossaryTerm` | src/data/glossary.ts:206-208 | `getGlossaryTerm` returns a shipped entry equal to the query without case, and nothing exactly when no shipped term is |
| `Glossary.GetGlossaryMap` | src/data/glossary.ts:213-219 | `getGlossaryMap` returns the map of the shipped list |
| `Glossary.LookupsAgree` | src/data/glossary.ts:206-219 | with distinct terms, `getGlossaryTerm` finds a term exactly when the map has it, with the same definition |
| `Glossary.SignatureOfSameTerm` | src/data/glossary.ts:207 | terms equal without case have the same signature: length and first two lower-cased characters |
| `Glossary.SignaturesFrom0` | src/data/glossary.ts:21-56 | shipped terms 0-7 each have a signature that names their own position |
| `Glossary.SignaturesFrom8` | src/data/glossary.ts:57-90 | shipped terms 8-15 each have a signature that names their own position |
| `Glossary.SignaturesFrom16` | src/data/glossary.ts:91-126 | shipped terms 16-23 each have a signature that names their own position |
| `Glossary.SignaturesFrom24` | src/data/glossary.ts:127-160 | shipped terms 24-31 each have a signature that names their own position |
| `Glossary.SignaturesFrom32` | src/data/glossary.ts:161-200 | shipped terms 32-40 each have a signature that names their own position |
| `Glossary.ShippedTermsDistinct` | src/data/glossary.ts:19-201 | no two shipped terms are equal without case, and each has at least two characters |
| `Glossary.ShippedLookupsAgree` | src/data/glossary.ts:206-219 | for the shipped list the two lookups agree on every query |
| `RemarkGlossary.Insert` | src/plugins/remark-glossary.ts:14 | inserting adds exactly that entry |
| `RemarkGlossary.InsertKeepsOrder` | src/plugins/remark-glossary.ts:14 | inserting into a longest-first list keeps it longest-first |
| `RemarkGlossary.SortByLength` | src/plugins/remark-glossary.ts:14 | the sorted terms are a permutation of the glossary, longest first |
| `RemarkGlossary.InsertStable` | src/plugins/remark-glossary.ts:14 | inserting places an entry after the entries of its length already there |
| `RemarkGlossary.SortStable` | src/plugins/remark-glossary.ts:14 | the sort is stable: terms of equal length keep their glossary order |
| `RemarkGlossary.FirstAlternative` | src/plugins/remark-glossary.ts:23-26 | an index of the alternatives, tried in pattern order |
| `RemarkGlossary.Pattern` | src/plugins/remark-glossary.ts:23-26 | the pattern has at least one alternative: the sorted terms, or the one empty alternative of `\b()\b` when the list is empty; longest-first order is kept |
| `RemarkGlossary.EmptyPatternAtBoundaries` | src/plugins/remark-glossary.ts:23-26 | with no terms, the pattern matches the empty string at a position exactly when that position is a word boundary |
| `RemarkGlossary.EmptyPatternExample` | src/plugins/remark-glossary.ts:23-26 | with no terms, `"ab"` has empty matches at 0 and at 2 only |
| `RemarkGlossary.FirstAlternativeIs` | src/plugins/remark-glossary.ts:23-26 | the chosen alternative matches at the position with word boundaries and no earlier one does; none is chosen exactly when none matches |
| `RemarkGlossary.ChosenIsLongest` | src/plugins/remark-glossary.ts:13-26 | with longest-first alternatives, the chosen match is at least as long as any term matching there |
| `RemarkGlossary.NextMatch` | src/plugins/remark-glossary.ts:50 | the next match is the leftmost position from `from` where an alternative matches, with that alternative's length |
| `RemarkGlossary.MatchesPlaced` | src/plugins/remark-glossary.ts:50 | `matchAll`'s matches lie in the text, after the start, in order and without overlap |
| `RemarkGlossary.MatchesAreLongest` | src/plugins/remark-glossary.ts:13-26 | each match is a term equal without case to the text there, and no term matching there is longer |
| `RemarkGlossary.NoMatchSkipped` | src/plugins/remark-glossary.ts:50 | every position where a term matches starts a match or lies inside one |
| `RemarkGlossary.SurfaceAppend` | src/plugins/remark-glossary.ts:58-87 | the text spelled by pieces distributes over concatenation |
| `RemarkGlossary.Emitted` | src/plugins/remark-glossary.ts:58-79 | `lastIndex` never passes the end of the text |
| `RemarkGlossary.EmittedPlainNonEmpty` | src/plugins/remark-glossary.ts:65-70 | text before a match is pushed only when non-empty |
| `RemarkGlossary.PiecesPlainNonEmpty` | src/plugins/remark-glossary.ts:65-87 | no pushed text node is empty |
| `RemarkGlossary.StepSurface` | src/plugins/remark-glossary.ts:64-78 | one iteration extends the spelled text exactly to the match's end |
| `RemarkGlossary.EmittedSurface` | src/plugins/remark-glossary.ts:58-79 | after the loop the pieces spell the text up to `lastIndex` |
| `RemarkGlossary.PiecesSpellText` | src/plugins/remark-glossary.ts:55-87 | the text pieces and matched terms, in order, spell the whole original text |
| `RemarkGlossary.NoMatchOnePiece` | src/plugins/remark-glossary.ts:82-87 | without matches a non-empty text is one text piece |
| `RemarkGlossary.EscapeRegex` | src/plugins/remark-glossary.ts:28-30 | escaping never shortens a term |
| `RemarkGlossary.EscapeRegexLiteral` | src/plugins/remark-glossary.ts:28-30 | an escaped term is a regular expression that matches exactly the term's own text |
| `RemarkGlossary.Entity` | src/plugins/remark-glossary.ts:95-102 | each character escapes to at least one character |
| `RemarkGlossary.EscapeHtmlAppend` | src/plugins/remark-glossary.ts:95-102 | escaping distributes over concatenation |
| `RemarkGlossary.EscapeHtmlChar` | src/plugins/remark-glossary.ts:95-102 | the chain of five replaces escapes one character to its entity, with `&` done first so nothing is escaped twice |
| `RemarkGlossary.EscapeHtmlIsEscapeEach` | src/plugins/remark-glossary.ts:95-102 | the chain of replaces equals escaping each character once |
| `RemarkGlossary.EscapeHtmlNoMarkup` | src/plugins/remark-glossary.ts:95-102 | escaped text holds no `<`, `>`, `"` or `'` |
| `RemarkGlossary.EscapeHtmlIdentity` | src/plugins/remark-glossary.ts:95-102 | text without special characters is unchanged |
| `RemarkGlossary.AmpersandStartsEntity` | src/plugins/remark-glossary.ts:95-102 | every `&` in escaped text starts one of the five entities |
| `RemarkGlossary.DecodeFirst` | src/plugins/remark-glossary.ts:95-102 | decoding consumes at least one character and no more than the text |
| `RemarkGlossary.DecodeEntity` | src/plugins/remark-glossary.ts:95-102 | an entity decodes back to its character |
| `RemarkGlossary.UnescapeEscapeHtml` | src/plugins/remark-glossary.ts:95-102 | unescaping escaped text gives back the original |
| `RemarkGlossary.ReadElementParts` | src/plugins/remark-glossary.ts:75 | an element built from escaped attribute and content reads back those two |
| `RemarkGlossary.ReadAbbrHtml` | src/plugins/remark-glossary.ts:75 | the `<abbr>` HTML reads back as exactly the definition and the matched text |
| `RemarkGlossary.RenderFound` | src/plugins/remark-glossary.ts:62-76 | a match becomes an HTML node carrying its definition, or `""` for a term not in the map, and the matched text as written |
| `RemarkGlossary.RenderedTextNonEmpty` | src/plugins/remark-glossary.ts:65-87 | rendering creates no empty text node |
| `RemarkGlossary.ShownAbbr` | src/plugins/remark-glossary.ts:73-76 | an `abbr` element of this pass shows its matched text, whatever its title |
| `RemarkGlossary.ShownRender` | src/plugins/remark-glossary.ts:65-76 | a rendered piece shows the piece's text: a text node its value, an `abbr` element the matched text |
| `RemarkGlossary.ShownRendered` | src/plugins/remark-glossary.ts:64-87 | the rendered nodes show exactly the text the pieces spell |
| `RemarkGlossary.Prepare` | src/plugins/remark-glossary.ts:14-20 | the module-level sorted terms are a longest-first permutation and the term map is `TermMap` |
| `RemarkGlossary.ReplacementShowsText` | src/plugins/remark-glossary.ts:55-87 | the replacement nodes show exactly the original text and none of their text nodes is empty |
| `RemarkGlossary.EmptyDictionaryExample` | src/plugins/remark-glossary.ts:55-87 | with no terms, the word `ab` is replaced by an empty `abbr` with an empty title, the text `ab`, and another empty `abbr` |
| `RemarkGlossary.Splice` | src/plugins/remark-glossary.ts:90 | `splice(i, 1, ...ns)` keeps the siblings before and after and puts `ns` in place of child `i` |
| `RemarkGlossary.RenderAllAppend` | src/plugins/remark-glossary.ts:58-87 | rendering distributes over concatenation |
| `RemarkGlossary.RenderStepPieces` | src/plugins/remark-glossary.ts:64-76 | the pieces of one iteration render as the nodes it pushes |
| `RemarkGlossary.RenderStep` | src/plugins/remark-glossary.ts:58-79 | after match `k`, `lastIndex` is that match's end and the nodes so far are the earlier ones plus that iteration's |
| `RemarkGlossary.RenderRest` | src/plugins/remark-glossary.ts:81-87 | the replacement is the loop's nodes plus the rest of the text when non-empty |
| `RemarkGlossary.PushMatch` | src/plugins/remark-glossary.ts:59-78 | one iteration pushes the text before the match when non-empty, then the `abbr` node, and moves `lastIndex` to the match's end |
| `RemarkGlossary.BuildNodes` | src/plugins/remark-glossary.ts:55-87 | the nodes the loop builds are `Replacement`, whose meaning `ReplacementShowsText` gives |
| `RemarkGlossary.Visit` | src/plugins/remark-glossary.ts:34-91 | a text node with matches, outside skipped parents, is spliced out for its replacement; otherwise the parent is unchanged |
| `PathPrefix.BestUnique` | src/config/sidebarConfig.ts:600-605 | the longest candidate key is unique, so the result does not depend on the order keys are visited |
| `PathPrefix.BestExists` | src/config/sidebarConfig.ts:600-605 | every key set has a longest candidate or none |
| `PathPrefix.BestStep` | src/config/sidebarConfig.ts:601-604 | one loop iteration keeps `bestMatch` the longest candidate among the keys seen so far |
| `PathPrefix.BestPrefix` | src/config/sidebarConfig.ts:600-605 | the search's outcome is the longest non-empty key the path starts with, or `""` when there is none |
| `PathPrefix.BestPrefixIs` | src/config/sidebarConfig.ts:600-605 | a longest candidate is the outcome |
| `PathPrefix.BestPrefixNone` | src/config/sidebarConfig.ts:600-609 | with no candidate the outcome is `""` |
| `Sidebar.GetSidebarForPath` | src/config/sidebarConfig.ts:590-613 | the loop over the keys, in any order, returns `SidebarFor`: the exact entry, else the longest non-home prefix, else home or empty |
| `Sidebar.SkipHomeStep` | src/config/sidebarConfig.ts:602 | an iteration that skips `/` keeps the best match over the keys other than `/` |
| `Sidebar.SidebarTrailingSlash` | src/config/sidebarConfig.ts:592 | a path with and without one trailing slash gets the same sidebar |
| `Sidebar.SidebarExact` | src/config/sidebarConfig.ts:595-597 | a configured path gets its own entry |
| `Sidebar.SidebarLongestPrefix` | src/config/sidebarConfig.ts:599-609 | otherwise the longest configured prefix other than `/` decides, by characters, not path segments |
| `Sidebar.SidebarDefault` | src/config/sidebarConfig.ts:611-612 | with no such prefix the home entry is used, or no sidebar when there is none |
| `Sidebar.OwnLink` | src/config/sidebarConfig.ts:622-624 | an item contributes at most one link of its own |
| `Sidebar.FlattenAppend` | src/config/sidebarConfig.ts:621-628 | flattening distributes over concatenation |
| `Sidebar.FlattenItem` | src/config/sidebarConfig.ts:621-628 | an item with a truthy slug gives its link `/slug/` and then its children's links; without one only its children's |
| `Sidebar.FlattenLength` | src/config/sidebarConfig.ts:618-631 | there is one link per item with a truthy slug, at any depth |
| `Sidebar.FlattenHrefs` | src/config/sidebarConfig.ts:623 | every link starts and ends with `/` and has a non-empty slug between |
| `Sidebar.FlattenItems` | src/config/sidebarConfig.ts:618-631 | the recursive loop returns `Flatten`, the links in depth-first order |
| `Sidebar.FindHref` | src/config/sidebarConfig.ts:649 | `findIndex` gives the first link with that href, or -1 exactly when there is none |
| `Sidebar.GetPrevNextLinks` | src/config/sidebarConfig.ts:636-659 | the method returns `PrevNextFor`: the neighbours of the page's first link in the flattened sidebar |
| `Sidebar.PrevNextNotListed` | src/config/sidebarConfig.ts:651-653 | a page not listed has neither previous nor next link |
| `Sidebar.PrevNextListed` | src/config/sidebarConfig.ts:655-658 | a page first listed at `i` has link `i-1` as previous and `i+1` as next, none at either end |
| `Sidebar.PrevNextTrailingSlash` | src/config/sidebarConfig.ts:646 | a path with and without one trailing slash gets the same links |
| `Toc.Resolve` | src/config/tocConfig.ts:48 | `true` becomes the empty configuration and an explicit configuration is returned as is |
| `Toc.GetTocConfigForPath` | src/config/tocConfig.ts:41-67 | the loop over the entries, in any order, returns `TocFor`: the exact entry, else the longest prefix, else `false` |
| `Toc.TocExact` | src/config/tocConfig.ts:46-49 | a configured directory gets its own setting resolved |
| `Toc.TocLongestPrefix` | src/config/tocConfig.ts:55-64 | otherwise the longest configured prefix decides |
| `Toc.TocNoPrefix` | src/config/tocConfig.ts:66 | a page under no configured directory gets `false` |
| `Toc.TocDisabledIffUnconfigured` | src/config/tocConfig.ts:41-67 | the answer is `false` exactly when no key equals or prefixes the path |
| `Toc.TocTrailingSlash` | src/config/tocConfig.ts:43 | a path with and without one trailing slash gets the same answer |
| `Toc.HandbookPages` | src/config/tocConfig.ts:31-35 | every page under `/design-handbook` gets the default table of contents |
| `Toc.OtherPages` | src/config/tocConfig.ts:31-35 | a page that does not start with `/design-handbook` gets `false` |

## Left out

- The tree walker (`unist-util-visit`) is not part of this model. Each visitor
  is modelled on the one node it receives. The model leaves out the traversal
  order and which nodes are visited. It also leaves out whether nodes inserted
  by the glossary's splice are visited again. `RemarkCenter` also has a
  whole-tree pass on values.
- Render-hint property values (`hProperties`) are modelled as strings. A
  non-string value that another plugin left there cannot be represented.
- Descendants of the visited node are values, so aliasing between tree nodes is
  not modelled.
- The conversion of mdast to HTML and the HTML parser are left out. The `abbr`
  markup is checked by reading it back (`ReadAbbrHtml`), not by an HTML parser.
- The regular-expression engine is left out. The glossary pattern is modelled
  by its meaning: the scanner `Matches` tries the alternatives in pattern
  order, with `\b` on both sides, leftmost first, and resumes one position
  after an empty match. `EscapeRegexLiteral` shows the escaped terms are
  literal. An empty term list gives the pattern `\b()\b`, which `Pattern`
  models as one empty alternative.
- Case-insensitive matching and `toLowerCase` cover ASCII letters only. JavaScript's
  Unicode case mapping is not modelled. `\b` uses the ASCII word characters, as
  JavaScript does without the `u` flag.
- The shipped sidebar sections are not modelled, because they are literal data.
  The lookups are proved for any section map. The shipped glossary and TOC
  directory data are included.
- Key iteration order (`Object.keys`, `Object.entries`) is unspecified in the
  model. The result is proved independent of it.
- Keys inherited from `Object.prototype` (`constructor`, `__proto__`) are not
  modelled; only own keys are.
- The sidebar's `collapsed` field and its `label` name are left out: the label is
  the field `text`, since `label` is reserved in Dafny. An absent `items` is the
  empty sequence.
- `Sidebar.GetPrevNextLinks` calls `getSidebarForPath` in the source. Here it
  takes the section map as a parameter, as `Sidebar.GetSidebarForPath` does.
- The order in which the site applies the plugins is not modelled.
- The TOC's `bestMatch && bestConfig` test: a configuration object and `true`
  are both truthy, so `bestConfig` is modelled as set or unset.
- Frontmatter overrides of the table of contents are handled by page templates
  and are not part of this model.
