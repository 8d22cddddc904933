/**
 * The glossary pass: every text node outside links and code is scanned for
 * glossary terms, whole words, case-insensitively, longest term first; each
 * text node with a match is replaced by alternating text nodes and
 * `<abbr class="glossary-term" title="...">` HTML nodes.
 *
 * The compiled `\b(t1|t2|...)\b` pattern with flags `gi` is modelled as the
 * scanner it behaves as: at each position from left to right, try the
 * alternatives in order; the first one that equals the text there (ignoring
 * case) with a word boundary on both sides is the match; resume after it.
 * An empty term list compiles to `\b()\b`, whose one alternative is empty.
 */
module RemarkGlossary {
  import opened Wrappers
  import opened Strings
  import opened Mdast
  import opened Glossary

  // ---------------------------------------------------------------------------
  // Sorting the terms, longest first
  // ---------------------------------------------------------------------------

  /** No entry is shorter than an entry after it. */
  predicate LongestFirst(s: seq<GlossaryTerm>)
  {
    forall i, j :: 0 <= i < j < |s| ==> |s[i].term| >= |s[j].term|
  }

  /** The entries whose term has exactly `n` characters, in order. */
  function OfLength(s: seq<GlossaryTerm>, n: nat): (r: seq<GlossaryTerm>)
    ensures |r| <= |s|
  {
    if s == [] then [] else (if |s[0].term| == n then [s[0]] else []) + OfLength(s[1..], n)
  }

  /** Put `x` in front of the first entry that is not longer than it. */
  function Insert(x: GlossaryTerm, s: seq<GlossaryTerm>): (r: seq<GlossaryTerm>)
    ensures multiset(r) == multiset(s) + multiset{x}
  {
    if s == [] || |s[0].term| <= |x.term| then [x] + s
    else
      assert s == [s[0]] + s[1..];
      [s[0]] + Insert(x, s[1..])
  }

  /** Inserting into a longest-first list keeps it longest first. */
  lemma {:induction false} InsertKeepsOrder(x: GlossaryTerm, s: seq<GlossaryTerm>)
    requires LongestFirst(s)
    ensures LongestFirst(Insert(x, s))
  {
    if !(s == [] || |s[0].term| <= |x.term|) {
      var rest := Insert(x, s[1..]);
      InsertKeepsOrder(x, s[1..]);
      forall y | y in rest ensures |y.term| <= |s[0].term| {
        assert y in multiset(rest);
        if y != x {
          assert y in s[1..];
        }
      }
    }
  }

  /**
   * `[...glossaryTerms].sort((a, b) => b.term.length - a.term.length)`: the
   * entries rearranged longest first (the comparator is stable, see `SortStable`).
   */
  function SortByLength(s: seq<GlossaryTerm>): (r: seq<GlossaryTerm>)
    ensures multiset(r) == multiset(s)
    ensures LongestFirst(r)
  {
    if s == [] then []
    else
      var rest := SortByLength(s[1..]);
      InsertKeepsOrder(s[0], rest);
      assert s == [s[0]] + s[1..];
      Insert(s[0], rest)
  }

  /** Inserting `x` puts it in front of the entries of its own length. */
  lemma {:induction false} InsertStable(x: GlossaryTerm, s: seq<GlossaryTerm>, n: nat)
    requires LongestFirst(s)
    ensures OfLength(Insert(x, s), n) == (if |x.term| == n then [x] else []) + OfLength(s, n)
  {
    if s == [] || |s[0].term| <= |x.term| {
      assert ([x] + s)[1..] == s;
    } else {
      var rest := Insert(x, s[1..]);
      InsertStable(x, s[1..], n);
      assert ([s[0]] + rest)[1..] == rest;
    }
  }

  /** Sorting keeps the relative order of entries of equal length. */
  lemma {:induction false} SortStable(s: seq<GlossaryTerm>, n: nat)
    ensures OfLength(SortByLength(s), n) == OfLength(s, n)
  {
    if s != [] {
      SortStable(s[1..], n);
      InsertStable(s[0], SortByLength(s[1..]), n);
    }
  }

  // ---------------------------------------------------------------------------
  // The pattern as a scanner
  // ---------------------------------------------------------------------------

  /** A regular-expression word character: `[A-Za-z0-9_]`. */
  predicate IsWordChar(c: char)
  {
    'a' <= c <= 'z' || 'A' <= c <= 'Z' || '0' <= c <= '9' || c == '_'
  }

  /** Position `i` holds a word character (positions outside the text do not). */
  predicate WordAt(text: string, i: int)
  {
    0 <= i < |text| && IsWordChar(text[i])
  }

  /** `\b` at position `i`: a word character on exactly one side. */
  predicate Boundary(text: string, i: int)
  {
    WordAt(text, i - 1) != WordAt(text, i)
  }

  /** `\b(t)\b` matches at position `p`, comparing without case. */
  predicate TermAt(text: string, p: nat, t: string)
  {
    p + |t| <= |text| && Lower(text[p..p + |t|]) == Lower(t) && Boundary(text, p) && Boundary(text, p + |t|)
  }

  /** The first alternative, in pattern order, that matches at `p`. */
  function FirstAlternative(text: string, p: nat, alts: seq<GlossaryTerm>): (r: Option<nat>)
    ensures r.Some? ==> r.value < |alts|
  {
    if alts == [] then None
    else if TermAt(text, p, alts[0].term) then Some(0)
    else match FirstAlternative(text, p, alts[1..])
      case None => None
      case Some(k) => Some(k + 1)
  }

  /** The chosen alternative matches, and no earlier one does; there is none exactly when no alternative matches. */
  lemma {:induction false} FirstAlternativeIs(text: string, p: nat, alts: seq<GlossaryTerm>)
    ensures var r := FirstAlternative(text, p, alts);
      r.Some? ==> TermAt(text, p, alts[r.value].term) && forall j :: 0 <= j < r.value ==> !TermAt(text, p, alts[j].term)
    ensures FirstAlternative(text, p, alts).None? <==> forall j :: 0 <= j < |alts| ==> !TermAt(text, p, alts[j].term)
  {
    if alts != [] && !TermAt(text, p, alts[0].term) {
      FirstAlternativeIs(text, p, alts[1..]);
      assert forall j :: 1 <= j < |alts| ==> alts[j] == alts[1..][j - 1];
    }
  }

  /** With the alternatives longest first, the chosen one is the longest term matching there. */
  lemma ChosenIsLongest(text: string, p: nat, alts: seq<GlossaryTerm>, j: nat)
    requires LongestFirst(alts)
    requires j < |alts| && TermAt(text, p, alts[j].term)
    ensures FirstAlternative(text, p, alts).Some?
    ensures |alts[j].term| <= |alts[FirstAlternative(text, p, alts).value].term|
  {
    FirstAlternativeIs(text, p, alts);
  }

  /**
   * The alternatives of the compiled pattern: the sorted terms or, when there
   * are none, the one empty alternative of `\b()\b` (the empty join).
   */
  function Pattern(sorted: seq<GlossaryTerm>): (r: seq<GlossaryTerm>)
    ensures |r| >= 1
    ensures sorted != [] ==> r == sorted
    ensures LongestFirst(sorted) ==> LongestFirst(r)
  {
    if sorted == [] then [GlossaryTerm("", "")] else sorted
  }

  /** With no terms, the pattern matches the empty string exactly at the word boundaries. */
  lemma EmptyPatternAtBoundaries(text: string, p: nat)
    ensures FirstAlternative(text, p, Pattern([])).Some? <==> p <= |text| && Boundary(text, p)
    ensures FirstAlternative(text, p, Pattern([])).Some? ==> Pattern([])[FirstAlternative(text, p, Pattern([])).value].term == ""
  {
    FirstAlternativeIs(text, p, Pattern([]));
    assert Lower("") == "";
  }

  /** One match: its index in the text and the length of the matched text (`match[0]`). */
  datatype Match = Match(start: nat, len: nat)

  /** The leftmost match at or after `from`. */
  function NextMatch(text: string, from: nat, alts: seq<GlossaryTerm>): (r: Option<Match>)
    ensures r.Some? ==> from <= r.value.start && r.value.start + r.value.len <= |text|
    ensures r.Some? ==> FirstAlternative(text, r.value.start, alts).Some?
    ensures r.Some? ==> r.value.len == |alts[FirstAlternative(text, r.value.start, alts).value].term|
    ensures r.Some? ==> forall q :: from <= q < r.value.start ==> FirstAlternative(text, q, alts).None?
    ensures r.None? ==> forall q :: from <= q <= |text| ==> FirstAlternative(text, q, alts).None?
    decreases |text| + 1 - from
  {
    if from > |text| then None
    else match FirstAlternative(text, from, alts)
      case Some(k) =>
        FirstAlternativeIs(text, from, alts);
        Some(Match(from, |alts[k].term|))
      case None => NextMatch(text, from + 1, alts)
  }

  /** Where the search resumes after a match: its end, or one further after an empty match. */
  function Resume(m: Match): nat
  {
    if m.len == 0 then m.start + 1 else m.start + m.len
  }

  /** Every match lies inside the text, and each ends before the next one starts. */
  predicate Placed(text: string, ms: seq<Match>)
  {
    (forall k :: 0 <= k < |ms| ==> ms[k].start + ms[k].len <= |text|)
    && (forall k :: 0 <= k < |ms| - 1 ==> ms[k].start + ms[k].len <= ms[k + 1].start)
  }

  /** `text.matchAll(pattern)` from position `from` on. */
  function Matches(text: string, from: nat, alts: seq<GlossaryTerm>): (ms: seq<Match>)
    decreases |text| + 1 - from
  {
    match NextMatch(text, from, alts)
    case None => []
    case Some(m) => [m] + Matches(text, Resume(m), alts)
  }

  /** The matches lie inside the text, at or after `from`, in order and without overlap. */
  lemma {:induction false} MatchesPlaced(text: string, from: nat, alts: seq<GlossaryTerm>)
    ensures Placed(text, Matches(text, from, alts))
    ensures forall k :: 0 <= k < |Matches(text, from, alts)| ==> from <= Matches(text, from, alts)[k].start
    decreases |text| + 1 - from
  {
    if NextMatch(text, from, alts).Some? {
      var m := NextMatch(text, from, alts).value;
      MatchesPlaced(text, Resume(m), alts);
    }
  }

  /**
   * Each match is the longest term that matches at its position: the text
   * there equals that term without case, with word boundaries around it.
   */
  lemma {:induction false} MatchesAreLongest(text: string, from: nat, alts: seq<GlossaryTerm>, k: nat)
    requires LongestFirst(alts)
    requires k < |Matches(text, from, alts)|
    ensures var m := Matches(text, from, alts)[k];
      exists j :: 0 <= j < |alts| && |alts[j].term| == m.len && TermAt(text, m.start, alts[j].term)
    ensures var m := Matches(text, from, alts)[k];
      forall j :: 0 <= j < |alts| && TermAt(text, m.start, alts[j].term) ==> |alts[j].term| <= m.len
    decreases |text| + 1 - from
  {
    var m := NextMatch(text, from, alts).value;
    if k == 0 {
      var c := FirstAlternative(text, m.start, alts).value;
      FirstAlternativeIs(text, m.start, alts);
      assert |alts[c].term| == m.len && TermAt(text, m.start, alts[c].term);
      forall j | 0 <= j < |alts| && TermAt(text, m.start, alts[j].term) ensures |alts[j].term| <= m.len {
        ChosenIsLongest(text, m.start, alts, j);
      }
    } else {
      MatchesAreLongest(text, Resume(m), alts, k - 1);
    }
  }

  /** Position `q` is where one of the matches starts, or lies inside it. */
  predicate Covered(ms: seq<Match>, q: nat)
  {
    exists k :: 0 <= k < |ms| && ms[k].start <= q < Resume(ms[k])
  }

  /**
   * The scan misses no match: every position from `from` on where some term
   * matches is the start of a match or lies inside one.
   */
  lemma {:induction false} NoMatchSkipped(text: string, from: nat, alts: seq<GlossaryTerm>, q: nat)
    requires from <= q <= |text| && FirstAlternative(text, q, alts).Some?
    ensures Covered(Matches(text, from, alts), q)
    decreases |text| + 1 - from
  {
    var ms := Matches(text, from, alts);
    var m := NextMatch(text, from, alts).value;
    assert ms[0] == m;
    if q < Resume(m) {
      assert ms[0].start <= q < Resume(ms[0]);
    } else {
      NoMatchSkipped(text, Resume(m), alts, q);
      var rest := Matches(text, Resume(m), alts);
      var k :| 0 <= k < |rest| && rest[k].start <= q < Resume(rest[k]);
      assert ms[k + 1] == rest[k];
    }
  }

  /** With no terms, `"ab"` has an empty match at each end and none inside. */
  lemma EmptyPatternExample()
    ensures Matches("ab", 0, Pattern([])) == [Match(0, 0), Match(2, 0)]
  {
    var alts := Pattern([]);
    EmptyPatternAtBoundaries("ab", 0);
    EmptyPatternAtBoundaries("ab", 1);
    EmptyPatternAtBoundaries("ab", 2);
    assert NextMatch("ab", 0, alts) == Some(Match(0, 0));
    assert NextMatch("ab", 1, alts) == Some(Match(2, 0));
    assert NextMatch("ab", 3, alts) == None;
  }

  // ---------------------------------------------------------------------------
  // Splitting a text node at its matches
  // ---------------------------------------------------------------------------

  /** A piece of the scanned text: plain text between matches, or a matched term as it appears. */
  datatype Piece = Plain(s: string) | Found(s: string)

  /** The pieces in order, concatenated. */
  function Surface(ps: seq<Piece>): string
  {
    if ps == [] then "" else Surface(ps[..|ps| - 1]) + ps[|ps| - 1].s
  }

  /** The text spelled by pieces distributes over concatenation. */
  lemma {:induction false} SurfaceAppend(a: seq<Piece>, b: seq<Piece>)
    ensures Surface(a + b) == Surface(a) + Surface(b)
    decreases |b|
  {
    if b != [] {
      assert (a + b)[..|a + b| - 1] == a + b[..|b| - 1];
      SurfaceAppend(a, b[..|b| - 1]);
    } else {
      assert a + b == a;
    }
  }

  /**
   * One iteration of the `forEach` over the matches, from the pieces pushed so
   * far and `lastIndex`: the text before the match when it is non-empty, then
   * the match; `lastIndex` moves to the match's end.
   */
  function Step(text: string, acc: (seq<Piece>, nat), m: Match): (seq<Piece>, nat)
    requires m.start + m.len <= |text|
  {
    (acc.0 + StepPieces(text, acc.1, m), m.start + m.len)
  }

  /** The pieces one iteration pushes. */
  function StepPieces(text: string, last: nat, m: Match): seq<Piece>
    requires m.start + m.len <= |text|
  {
    (if m.start > last then [Plain(text[last..m.start])] else []) + [Found(text[m.start..m.start + m.len])]
  }

  /** The pieces pushed and `lastIndex` after the `forEach` has run over `ms`. */
  function Emitted(text: string, ms: seq<Match>): (r: (seq<Piece>, nat))
    requires forall k :: 0 <= k < |ms| ==> ms[k].start + ms[k].len <= |text|
    ensures r.1 <= |text|
  {
    if ms == [] then ([], 0) else Step(text, Emitted(text, ms[..|ms| - 1]), ms[|ms| - 1])
  }

  /** Text before a match is pushed only when it is non-empty. */
  lemma {:induction false} EmittedPlainNonEmpty(text: string, ms: seq<Match>)
    requires forall k :: 0 <= k < |ms| ==> ms[k].start + ms[k].len <= |text|
    ensures forall k :: 0 <= k < |Emitted(text, ms).0| && Emitted(text, ms).0[k].Plain? ==> Emitted(text, ms).0[k].s != ""
  {
    if ms != [] {
      var init := ms[..|ms| - 1];
      EmittedPlainNonEmpty(text, init);
      var prev := Emitted(text, init);
      var added := StepPieces(text, prev.1, ms[|ms| - 1]);
      assert Emitted(text, ms).0 == prev.0 + added;
    }
  }

  /** All pieces: the emitted ones, then the rest of the text when non-empty. */
  function Pieces(text: string, ms: seq<Match>): (ps: seq<Piece>)
    requires forall k :: 0 <= k < |ms| ==> ms[k].start + ms[k].len <= |text|
  {
    var (ps, last) := Emitted(text, ms);
    ps + (if last < |text| then [Plain(text[last..])] else [])
  }

  /** No plain piece is empty. */
  lemma PiecesPlainNonEmpty(text: string, ms: seq<Match>)
    requires forall k :: 0 <= k < |ms| ==> ms[k].start + ms[k].len <= |text|
    ensures forall k :: 0 <= k < |Pieces(text, ms)| && Pieces(text, ms)[k].Plain? ==> Pieces(text, ms)[k].s != ""
  {
    EmittedPlainNonEmpty(text, ms);
    var (ps, last) := Emitted(text, ms);
    var ps' := Pieces(text, ms);
    assert forall k :: 0 <= k < |ps| ==> ps'[k] == ps[k];
  }

  /** One step of the loop extends the spelled text from `lastIndex` to the end of the match. */
  lemma StepSurface(text: string, acc: (seq<Piece>, nat), m: Match)
    requires acc.1 <= m.start && m.start + m.len <= |text|
    requires Surface(acc.0) == text[..acc.1]
    ensures Surface(Step(text, acc, m).0) == text[..m.start + m.len]
  {
    var (ps, last) := acc;
    var before := if m.start > last then [Plain(text[last..m.start])] else [];
    var mid := ps + before;
    assert Surface(mid) == text[..m.start] by {
      if m.start > last {
        assert mid[..|mid| - 1] == ps;
        assert text[..last] + text[last..m.start] == text[..m.start];
      } else {
        assert mid == ps;
      }
    }
    var found := Found(text[m.start..m.start + m.len]);
    assert ps + StepPieces(text, last, m) == mid + [found];
    assert (mid + [found])[..|mid|] == mid;
    assert text[..m.start] + text[m.start..m.start + m.len] == text[..m.start + m.len];
  }

  /** A prefix of placed matches is placed. */
  lemma PlacedPrefix(text: string, ms: seq<Match>, n: nat)
    requires Placed(text, ms) && n <= |ms|
    ensures Placed(text, ms[..n])
  {
  }

  /** With matches in order, the emitted pieces spell the text up to `lastIndex`. */
  lemma {:induction false} EmittedSurface(text: string, ms: seq<Match>)
    requires Placed(text, ms)
    ensures Surface(Emitted(text, ms).0) == text[..Emitted(text, ms).1]
  {
    if ms != [] {
      var init := ms[..|ms| - 1];
      PlacedPrefix(text, ms, |ms| - 1);
      EmittedSurface(text, init);
      var prev := Emitted(text, init);
      var m := ms[|ms| - 1];
      assert prev.1 <= m.start by {
        if init != [] {
          assert init[|init| - 1] == ms[|ms| - 2];
        }
      }
      StepSurface(text, prev, m);
    }
  }

  /** The pieces spell the original text: plain pieces and matched terms, in order. */
  lemma PiecesSpellText(text: string, ms: seq<Match>)
    requires Placed(text, ms)
    ensures Surface(Pieces(text, ms)) == text
  {
    EmittedSurface(text, ms);
    var (ps, last) := Emitted(text, ms);
    var rest := if last < |text| then [Plain(text[last..])] else [];
    SurfaceAppend(ps, rest);
    assert text[..last] + Surface(rest) == text;
  }

  /** Without matches the text stays one piece (the visitor leaves such a node alone). */
  lemma NoMatchOnePiece(text: string)
    requires text != ""
    ensures Pieces(text, []) == [Plain(text)]
  {
  }

  // ---------------------------------------------------------------------------
  // Escaping
  // ---------------------------------------------------------------------------

  /** The characters `escapeRegex` backslash-escapes: `. * + ? ^ $ { } ( ) | [ ] \`. */
  predicate IsRegexSyntax(c: char)
  {
    c == '.' || c == '*' || c == '+' || c == '?' || c == '^' || c == '$' || c == '{' || c == '}'
    || c == '(' || c == ')' || c == '|' || c == '[' || c == ']' || c == '\\'
  }

  /** `escapeRegex(str)`: a backslash in front of every syntax character. */
  function EscapeRegex(s: string): (r: string)
    ensures |r| >= |s|
  {
    if s == [] then "" else (if IsRegexSyntax(s[0]) then ['\\', s[0]] else [s[0]]) + EscapeRegex(s[1..])
  }

  /**
   * The text matched by a pattern made only of ordinary characters and
   * escaped syntax characters; `None` for any other pattern.
   */
  function LiteralText(r: string): Option<string>
    decreases |r|
  {
    if r == [] then Some("")
    else if r[0] == '\\' then
      if |r| >= 2 && IsRegexSyntax(r[1]) then
        match LiteralText(r[2..]) case None => None case Some(t) => Some([r[1]] + t)
      else None
    else if IsRegexSyntax(r[0]) then None
    else match LiteralText(r[1..]) case None => None case Some(t) => Some([r[0]] + t)
  }

  /** An escaped term is a pattern that matches exactly the term's own characters. */
  lemma {:induction false} EscapeRegexLiteral(s: string)
    ensures LiteralText(EscapeRegex(s)) == Some(s)
  {
    if s != [] {
      EscapeRegexLiteral(s[1..]);
      var r := EscapeRegex(s);
      if IsRegexSyntax(s[0]) {
        assert r[2..] == EscapeRegex(s[1..]);
      } else {
        assert r[1..] == EscapeRegex(s[1..]);
      }
      assert [s[0]] + s[1..] == s;
    }
  }

  /** `escapeHtml(str)`: five global replacements, `&` first. */
  function EscapeHtml(s: string): string
  {
    ReplaceWith(ReplaceWith(ReplaceWith(ReplaceWith(ReplaceWith(
      s, '&', "&amp;"), '<', "&lt;"), '>', "&gt;"), '"', "&quot;"), '\'', "&#39;")
  }

  /** The entity one character escapes to. */
  function Entity(c: char): (e: string)
    ensures |e| >= 1
  {
    if c == '&' then "&amp;"
    else if c == '<' then "&lt;"
    else if c == '>' then "&gt;"
    else if c == '"' then "&quot;"
    else if c == '\'' then "&#39;"
    else [c]
  }

  /** Escaping character by character. */
  function EscapeEach(s: string): string
  {
    if s == [] then "" else Entity(s[0]) + EscapeEach(s[1..])
  }

  /** `escapeHtml` works piece by piece over a concatenation. */
  lemma EscapeHtmlAppend(a: string, b: string)
    ensures EscapeHtml(a + b) == EscapeHtml(a) + EscapeHtml(b)
  {
    var a1, b1 := ReplaceWith(a, '&', "&amp;"), ReplaceWith(b, '&', "&amp;");
    ReplaceWithAppend(a, b, '&', "&amp;");
    var a2, b2 := ReplaceWith(a1, '<', "&lt;"), ReplaceWith(b1, '<', "&lt;");
    ReplaceWithAppend(a1, b1, '<', "&lt;");
    var a3, b3 := ReplaceWith(a2, '>', "&gt;"), ReplaceWith(b2, '>', "&gt;");
    ReplaceWithAppend(a2, b2, '>', "&gt;");
    var a4, b4 := ReplaceWith(a3, '"', "&quot;"), ReplaceWith(b3, '"', "&quot;");
    ReplaceWithAppend(a3, b3, '"', "&quot;");
    ReplaceWithAppend(a4, b4, '\'', "&#39;");
  }

  /** One character escapes to its entity, since no later replacement touches an earlier entity. */
  lemma EscapeHtmlChar(c: char)
    ensures EscapeHtml([c]) == Entity(c)
  {
    ReplaceWithOne(c, '&', "&amp;");
    var r1 := ReplaceWith([c], '&', "&amp;");
    if c == '&' {
      assert '<' !in r1 && '>' !in r1 && '"' !in r1 && '\'' !in r1;
    } else {
      ReplaceWithOne(c, '<', "&lt;");
      var r2 := ReplaceWith(r1, '<', "&lt;");
      if c == '<' {
        assert '>' !in r2 && '"' !in r2 && '\'' !in r2;
      } else {
        ReplaceWithOne(c, '>', "&gt;");
        var r3 := ReplaceWith(r2, '>', "&gt;");
        if c == '>' {
          assert '"' !in r3 && '\'' !in r3;
        } else {
          ReplaceWithOne(c, '"', "&quot;");
          var r4 := ReplaceWith(r3, '"', "&quot;");
          if c == '"' {
            assert '\'' !in r4;
          } else {
            ReplaceWithOne(c, '\'', "&#39;");
          }
        }
      }
    }
  }

  /** The five sequential replacements equal escaping each character to its entity. */
  lemma {:induction false} EscapeHtmlIsEscapeEach(s: string)
    ensures EscapeHtml(s) == EscapeEach(s)
  {
    if s != [] {
      assert s == [s[0]] + s[1..];
      EscapeHtmlAppend([s[0]], s[1..]);
      EscapeHtmlChar(s[0]);
      EscapeHtmlIsEscapeEach(s[1..]);
    }
  }

  /** Escaped text contains none of `< > " '`. */
  lemma {:induction false} EscapeHtmlNoMarkup(s: string)
    ensures var r := EscapeHtml(s); '<' !in r && '>' !in r && '"' !in r && '\'' !in r
  {
    EscapeHtmlIsEscapeEach(s);
    EscapeEachNoMarkup(s);
  }

  /** Escaping each character leaves no `<`, `>`, `"` or `'`. */
  lemma {:induction false} EscapeEachNoMarkup(s: string)
    ensures var r := EscapeEach(s); '<' !in r && '>' !in r && '"' !in r && '\'' !in r
  {
    if s != [] {
      EscapeEachNoMarkup(s[1..]);
      var e := Entity(s[0]);
      assert '<' !in e && '>' !in e && '"' !in e && '\'' !in e;
    }
  }

  /** Text with none of the five characters is unchanged by escaping. */
  lemma EscapeHtmlIdentity(s: string)
    requires '&' !in s && '<' !in s && '>' !in s && '"' !in s && '\'' !in s
    ensures EscapeHtml(s) == s
  {
  }

  /** An entity begins at position `i`. */
  predicate EntityAt(r: string, i: nat)
    requires i <= |r|
  {
    var t := r[i..];
    StartsWith(t, "&amp;") || StartsWith(t, "&lt;") || StartsWith(t, "&gt;") || StartsWith(t, "&quot;") || StartsWith(t, "&#39;")
  }

  /** Every `&` of escaped text begins an entity (which is why `&` is replaced first). */
  lemma {:induction false} AmpersandStartsEntity(s: string, i: nat)
    requires i < |EscapeHtml(s)| && EscapeHtml(s)[i] == '&'
    ensures EntityAt(EscapeHtml(s), i)
  {
    EscapeHtmlIsEscapeEach(s);
    EscapeEachAmpersand(s, i);
  }

  /** Every `&` produced by escaping each character starts an entity. */
  lemma {:induction false} EscapeEachAmpersand(s: string, i: nat)
    requires i < |EscapeEach(s)| && EscapeEach(s)[i] == '&'
    ensures EntityAt(EscapeEach(s), i)
  {
    var e := Entity(s[0]);
    var rest := EscapeEach(s[1..]);
    var r := e + rest;
    if i < |e| {
      assert i == 0;
      assert r[0..] == r;
      assert r[..|e|] == e;
    } else {
      assert rest[i - |e|] == '&';
      EscapeEachAmpersand(s[1..], i - |e|);
      assert r[i..] == rest[i - |e|..];
    }
  }

  /** The character an entity at the start of `r` stands for and the entity's length; otherwise the first character itself. */
  function DecodeFirst(r: string): (d: (char, nat))
    requires r != []
    ensures 1 <= d.1 <= |r|
  {
    if StartsWith(r, "&amp;") then ('&', 5)
    else if StartsWith(r, "&lt;") then ('<', 4)
    else if StartsWith(r, "&gt;") then ('>', 4)
    else if StartsWith(r, "&quot;") then ('"', 6)
    else if StartsWith(r, "&#39;") then ('\'', 5)
    else (r[0], 1)
  }

  /** Decoding the five entities back (a reference decoder, as an HTML reader applies it). */
  function UnescapeHtml(r: string): string
    decreases |r|
  {
    if r == [] then "" else var d := DecodeFirst(r); [d.0] + UnescapeHtml(r[d.1..])
  }

  /** An entity followed by anything decodes to its character. */
  lemma DecodeEntity(c: char, x: string)
    ensures DecodeFirst(Entity(c) + x) == (c, |Entity(c)|)
  {
    var r := Entity(c) + x;
    if c == '&' {
      assert r[..5] == "&amp;";
    } else if c == '<' {
      assert r[1] == 'l';
      assert r[..4] == "&lt;";
    } else if c == '>' {
      assert r[1] == 'g';
      assert r[..4] == "&gt;";
    } else if c == '"' {
      assert r[1] == 'q';
      assert r[..6] == "&quot;";
    } else if c == '\'' {
      assert r[1] == '#';
      assert r[..5] == "&#39;";
    } else {
      assert r[0] == c;
    }
  }

  /** Escaping loses nothing: decoding the escaped text gives the original back. */
  lemma {:induction false} UnescapeEscapeHtml(s: string)
    ensures UnescapeHtml(EscapeHtml(s)) == s
  {
    EscapeHtmlIsEscapeEach(s);
    UnescapeEscapeEach(s);
  }

  /** Decoding undoes escaping each character. */
  lemma {:induction false} UnescapeEscapeEach(s: string)
    ensures UnescapeHtml(EscapeEach(s)) == s
  {
    if s != [] {
      var e, rest := Entity(s[0]), EscapeEach(s[1..]);
      DecodeEntity(s[0], rest);
      assert (e + rest)[|e|..] == rest;
      UnescapeEscapeEach(s[1..]);
      assert [s[0]] + s[1..] == s;
    }
  }

  // ---------------------------------------------------------------------------
  // The replacement nodes
  // ---------------------------------------------------------------------------

  /** The markup before the escaped definition. */
  const AbbrOpen := "<abbr class=\"glossary-term\" title=\""

  /** The markup after the escaped matched text. */
  const AbbrClose := "</abbr>"

  /** `<abbr class="glossary-term" title="E(definition)">E(matched)</abbr>`, where E is `escapeHtml`. */
  function AbbrHtml(definition: string, matched: string): string
  {
    AbbrOpen + EscapeHtml(definition) + "\">" + EscapeHtml(matched) + AbbrClose
  }

  /**
   * Reading an element back from its markup, given the text before its
   * attribute value and its closing tag: the decoded attribute value (up to
   * the first `"`) and the decoded content (up to the first `<`), or `None`
   * when the markup has another shape.
   */
  function ReadElement(h: string, open: string, close: string): Option<(string, string)>
  {
    if StartsWith(h, open) then ReadAttribute(h[|open|..], close) else None
  }

  /** After the opening text: the attribute value up to the first `"`, which `">` must follow, then the content. */
  function ReadAttribute(rest: string, close: string): Option<(string, string)>
  {
    var q := IndexOf(rest, '"');
    if q < 0 || q + 1 >= |rest| || rest[q + 1] != '>' then None
    else match ReadContent(rest[q + 2..], close)
      case None => None
      case Some(c) => Some((UnescapeHtml(rest[..q]), c))
  }

  /** The content up to the first `<`, where the closing tag must begin and end the markup. */
  function ReadContent(body: string, close: string): Option<string>
  {
    var lt := IndexOf(body, '<');
    if lt < 0 || body[lt..] != close then None else Some(UnescapeHtml(body[..lt]))
  }

  /** Content without `<` followed by the closing tag reads back as that content, unescaped. */
  lemma ReadContentParts(e2: string, close: string)
    requires '<' !in e2 && |close| > 0 && close[0] == '<'
    ensures ReadContent(e2 + close, close) == Some(UnescapeHtml(e2))
  {
    var body := e2 + close;
    IndexOfIs(body, '<', |e2|);
    assert body[|e2|..] == close;
    assert body[..|e2|] == e2;
  }

  /** An attribute value without `"` is read up to the `">` that ends it; the content is read after. */
  lemma ReadAttributeSplit(e1: string, body: string, close: string)
    requires '"' !in e1
    ensures ReadAttribute(e1 + "\">" + body, close)
      == match ReadContent(body, close) case None => None case Some(c) => Some((UnescapeHtml(e1), c))
  {
    var rest := e1 + "\">" + body;
    IndexOfIs(rest, '"', |e1|);
    assert rest[|e1| + 1] == '>';
    assert rest[|e1| + 2..] == body;
    assert rest[..|e1|] == e1;
  }

  /** An attribute value and a content, each free of its delimiter, read back unescaped. */
  lemma ReadAttributeParts(e1: string, e2: string, close: string)
    requires '"' !in e1 && '<' !in e2 && |close| > 0 && close[0] == '<'
    ensures ReadAttribute(e1 + "\">" + e2 + close, close) == Some((UnescapeHtml(e1), UnescapeHtml(e2)))
  {
    assert e1 + "\">" + e2 + close == e1 + "\">" + (e2 + close);
    ReadAttributeSplit(e1, e2 + close, close);
    ReadContentParts(e2, close);
  }

  /** An attribute value without `"` and content without `<` are read back exactly. */
  lemma ReadElementParts(open: string, close: string, e1: string, e2: string)
    requires '"' !in e1 && '<' !in e2 && |close| > 0 && close[0] == '<'
    ensures ReadElement(open + e1 + "\">" + e2 + close, open, close) == Some((UnescapeHtml(e1), UnescapeHtml(e2)))
  {
    var rest := e1 + "\">" + e2 + close;
    var h := open + rest;
    assert open + e1 + "\">" + e2 + close == h;
    assert h[..|open|] == open;
    assert h[|open|..] == rest;
    ReadAttributeParts(e1, e2, close);
  }

  /** Reading an `abbr` element of this pass back: its title and its content. */
  function ReadAbbr(h: string): Option<(string, string)>
  {
    ReadElement(h, AbbrOpen, AbbrClose)
  }

  /** The title attribute cannot be closed early nor the element's content broken: both read back intact. */
  lemma ReadAbbrHtml(definition: string, matched: string)
    ensures ReadAbbr(AbbrHtml(definition, matched)) == Some((definition, matched))
  {
    EscapeHtmlNoMarkup(definition);
    EscapeHtmlNoMarkup(matched);
    UnescapeEscapeHtml(definition);
    UnescapeEscapeHtml(matched);
    ReadElementParts(AbbrOpen, AbbrClose, EscapeHtml(definition), EscapeHtml(matched));
  }

  /** The HTML node of a matched term, titled with `termMap.get(matched.toLowerCase()) || ''`. */
  function AbbrNode(matched: string, termMap: map<string, string>): Node
  {
    Html(AbbrHtml(Attr(termMap, Lower(matched)), matched))
  }

  /** A piece as a node: plain text as a text node, a match as its `abbr` HTML. */
  function Render(p: Piece, termMap: map<string, string>): Node
  {
    match p
    case Plain(s) => Text(s, None)
    case Found(s) => AbbrNode(s, termMap)
  }

  /** Each piece as a node, in order. */
  function RenderAll(ps: seq<Piece>, termMap: map<string, string>): seq<Node>
  {
    if ps == [] then [] else [Render(ps[0], termMap)] + RenderAll(ps[1..], termMap)
  }

  /** A matched term is shown as itself and titled with the definition stored under its lower-cased form, or nothing. */
  lemma RenderFound(s: string, termMap: map<string, string>)
    ensures Render(Found(s), termMap).Html?
    ensures Lower(s) in termMap ==> ReadAbbr(Render(Found(s), termMap).value) == Some((termMap[Lower(s)], s))
    ensures Lower(s) !in termMap ==> ReadAbbr(Render(Found(s), termMap).value) == Some(("", s))
  {
    ReadAbbrHtml(Attr(termMap, Lower(s)), s);
  }

  /** Non-empty plain pieces render as non-empty text nodes. */
  lemma {:induction false} RenderedTextNonEmpty(ps: seq<Piece>, termMap: map<string, string>)
    requires forall k :: 0 <= k < |ps| && ps[k].Plain? ==> ps[k].s != ""
    ensures forall n :: n in RenderAll(ps, termMap) && n.Text? ==> n.value != ""
  {
    if ps != [] {
      RenderedTextNonEmpty(ps[1..], termMap);
    }
  }

  /** The text a node shows: a text node's value, or the content of an `abbr` element. */
  function Shown(n: Node): string
  {
    match n
    case Text(v, _) => v
    case Html(h) => (match ReadAbbr(h) case Some(tm) => tm.1 case None => h)
    case _ => ""
  }

  /** The text the nodes show, in order. */
  function ShownAll(ns: seq<Node>): string
  {
    if ns == [] then "" else ShownAll(ns[..|ns| - 1]) + Shown(ns[|ns| - 1])
  }

  /** A rendered piece shows the text of the piece: a text node its value, an `abbr` element the matched text. */
  lemma ShownRender(p: Piece, termMap: map<string, string>)
    ensures Shown(Render(p, termMap)) == p.s
  {
    if p.Found? {
      ShownAbbr(Attr(termMap, Lower(p.s)), p.s);
    }
  }

  /** An `abbr` element of this pass shows its matched text, whatever its title. */
  lemma ShownAbbr(definition: string, matched: string)
    ensures Shown(Html(AbbrHtml(definition, matched))) == matched
  {
    ReadAbbrHtml(definition, matched);
  }

  /** One more node shows its text after the text shown so far. */
  lemma ShownAllSnoc(ns: seq<Node>, n: Node)
    ensures ShownAll(ns + [n]) == ShownAll(ns) + Shown(n)
  {
    assert (ns + [n])[..|ns|] == ns;
  }

  /** The rendered nodes show exactly the text the pieces spell. */
  lemma {:induction false} ShownRendered(ps: seq<Piece>, termMap: map<string, string>)
    ensures ShownAll(RenderAll(ps, termMap)) == Surface(ps)
  {
    if ps != [] {
      var init := ps[..|ps| - 1];
      var last := ps[|ps| - 1];
      ShownRendered(init, termMap);
      assert init + [last] == ps;
      RenderAllAppend(init, [last], termMap);
      assert RenderAll([last], termMap) == [Render(last, termMap)];
      ShownAllSnoc(RenderAll(init, termMap), Render(last, termMap));
      ShownRender(last, termMap);
    }
  }

  /** The module-level state the visitor reads: `sortedTerms` and `termMap`. */
  datatype Dictionary = Dictionary(sorted: seq<GlossaryTerm>, termMap: map<string, string>)

  /** Building `sortedTerms` and, with the `forEach`/`set` loop, `termMap`. */
  method Prepare(terms: seq<GlossaryTerm>) returns (d: Dictionary)
    ensures d.sorted == SortByLength(terms) && d.termMap == TermMap(terms)
    ensures multiset(d.sorted) == multiset(terms) && LongestFirst(d.sorted)
  {
    var m := BuildTermMap(terms);
    d := Dictionary(SortByLength(terms), m);
  }

  /** The nodes that replace a text node: its pieces, rendered. */
  function Replacement(d: Dictionary, text: string): seq<Node>
  {
    MatchesPlaced(text, 0, Pattern(d.sorted));
    RenderAll(Pieces(text, Matches(text, 0, Pattern(d.sorted))), d.termMap)
  }

  /**
   * The replacement shows the original text: its text nodes and the content
   * of its `abbr` elements, in order, spell it; and no text node is empty.
   */
  lemma ReplacementShowsText(d: Dictionary, text: string)
    ensures ShownAll(Replacement(d, text)) == text
    ensures forall n :: n in Replacement(d, text) && n.Text? ==> n.value != ""
  {
    var ms := Matches(text, 0, Pattern(d.sorted));
    MatchesPlaced(text, 0, Pattern(d.sorted));
    PiecesSpellText(text, ms);
    ShownRendered(Pieces(text, ms), d.termMap);
    PiecesPlainNonEmpty(text, ms);
    RenderedTextNonEmpty(Pieces(text, ms), d.termMap);
  }

  /** Empty matches at both ends of a non-empty text split it into an empty match, the text, and an empty match. */
  lemma EndsPieces(w: string)
    requires w != ""
    ensures Pieces(w, [Match(0, 0), Match(|w|, 0)]) == [Found(""), Plain(w), Found("")]
  {
    var m0, m1 := Match(0, 0), Match(|w|, 0);
    assert [m0, m1][..1] == [m0] && [m0][..0] == [];
    assert w[0..0] == "" && w[|w|..|w|] == "" && w[0..|w|] == w;
    var e0 := Emitted(w, [m0]);
    assert Emitted(w, [m0][..0]) == ([], 0);
    assert e0 == Step(w, ([], 0), m0);
    assert StepPieces(w, 0, m0) == [Found("")];
    assert StepPieces(w, 0, m1) == [Plain(w), Found("")];
    assert Emitted(w, [m0, m1]) == (e0.0 + StepPieces(w, 0, m1), |w|);
  }

  /** With no terms, a word is replaced by itself between two empty `abbr` elements with an empty title. */
  lemma EmptyDictionaryExample()
    ensures Replacement(Dictionary([], map[]), "ab")
      == [Html(AbbrHtml("", "")), Text("ab", None), Html(AbbrHtml("", ""))]
  {
    EmptyPatternExample();
    EndsPieces("ab");
    var found, plain := Found(""), Plain("ab");
    assert [found, plain, found][1..] == [plain, found];
    RenderTwo(plain, found, map[]);
    assert Lower("") == "" && Attr(map[], "") == "";
    assert Render(found, map[]) == Html(AbbrHtml("", ""));
  }

  /** `parent.children.splice(i, 1, ...ns)`: child `i` replaced by `ns`, the siblings around it kept. */
  function Splice(cs: seq<Node>, i: nat, ns: seq<Node>): (r: seq<Node>)
    requires i < |cs|
    ensures |r| == |cs| - 1 + |ns|
    ensures r[..i] == cs[..i] && r[i..i + |ns|] == ns && r[i + |ns|..] == cs[i + 1..]
  {
    cs[..i] + ns + cs[i + 1..]
  }

  /** Text under a link, code or an existing `abbr`/`a`/`code` element is never scanned. */
  predicate SkipParent(kind: string, tagName: Option<string>)
  {
    kind == "link" || kind == "code" || kind == "inlineCode"
    || tagName == Some("abbr") || tagName == Some("a") || tagName == Some("code")
  }

  /** The visitor rewrites text child `i`: the parent is not skipped and the text has a match. */
  predicate Rewrites(d: Dictionary, kind: string, tagName: Option<string>, cs: seq<Node>, i: nat)
    requires i < |cs| && cs[i].Text?
  {
    !SkipParent(kind, tagName) && Matches(cs[i].value, 0, Pattern(d.sorted)) != []
  }

  /** Rendering distributes over concatenation. */
  lemma {:induction false} RenderAllAppend(a: seq<Piece>, b: seq<Piece>, termMap: map<string, string>)
    ensures RenderAll(a + b, termMap) == RenderAll(a, termMap) + RenderAll(b, termMap)
  {
    if a == [] {
      assert a + b == b;
    } else {
      assert (a + b)[1..] == a[1..] + b;
      RenderAllAppend(a[1..], b, termMap);
    }
  }

  /** The text node pushed before a match: the text since the previous match, when there is any. */
  function TextBefore(text: string, last: nat, m: Match): seq<Node>
    requires m.start <= |text|
  {
    if m.start > last then [Text(text[last..m.start], None)] else []
  }

  /** The nodes of one iteration of the `forEach`: the text before the match when non-empty, then the `abbr` HTML. */
  function StepNodes(text: string, last: nat, m: Match, termMap: map<string, string>): seq<Node>
    requires m.start + m.len <= |text|
  {
    TextBefore(text, last, m) + [AbbrNode(text[m.start..m.start + m.len], termMap)]
  }

  /** The pieces of one iteration render as the nodes that iteration pushes. */
  lemma RenderStepPieces(text: string, last: nat, m: Match, termMap: map<string, string>)
    requires m.start + m.len <= |text|
    ensures RenderAll(StepPieces(text, last, m), termMap) == StepNodes(text, last, m, termMap)
  {
    var found := Found(text[m.start..m.start + m.len]);
    if m.start > last {
      var plain := Plain(text[last..m.start]);
      assert StepPieces(text, last, m) == [plain, found];
      RenderTwo(plain, found, termMap);
    } else {
      assert StepPieces(text, last, m) == [found];
      RenderTwo(found, found, termMap);
    }
  }

  /** Rendering one or two pieces. */
  lemma RenderTwo(p: Piece, q: Piece, termMap: map<string, string>)
    ensures RenderAll([p], termMap) == [Render(p, termMap)]
    ensures RenderAll([p, q], termMap) == [Render(p, termMap), Render(q, termMap)]
  {
    assert [p][1..] == [] && [q][1..] == [];
    assert [p, q][1..] == [q];
  }

  /** Rendering after one more match appends that iteration's nodes. */
  lemma RenderStep(text: string, ms: seq<Match>, k: nat, termMap: map<string, string>)
    requires Placed(text, ms) && k < |ms|
    ensures Emitted(text, ms[..k + 1]).1 == ms[k].start + ms[k].len
    ensures RenderAll(Emitted(text, ms[..k + 1]).0, termMap)
      == RenderAll(Emitted(text, ms[..k]).0, termMap) + StepNodes(text, Emitted(text, ms[..k]).1, ms[k], termMap)
  {
    assert ms[..k + 1][..k] == ms[..k];
    var prev := Emitted(text, ms[..k]);
    assert Emitted(text, ms[..k + 1]) == Step(text, prev, ms[k]);
    RenderAllAppend(prev.0, StepPieces(text, prev.1, ms[k]), termMap);
    RenderStepPieces(text, prev.1, ms[k], termMap);
  }

  /** The replacement is the nodes the loop pushes, then the rest of the text when there is any. */
  lemma RenderRest(d: Dictionary, text: string, ms: seq<Match>)
    requires ms == Matches(text, 0, Pattern(d.sorted)) && Placed(text, ms)
    ensures var last := Emitted(text, ms).1;
      Replacement(d, text) == RenderAll(Emitted(text, ms).0, d.termMap) + (if last < |text| then [Text(text[last..], None)] else [])
  {
    var (ps, last) := Emitted(text, ms);
    RenderAllAppend(ps, if last < |text| then [Plain(text[last..])] else [], d.termMap);
  }

  /** One iteration of the `forEach`: push the text before the match when non-empty, then the `abbr` HTML. */
  method PushMatch(text: string, newNodes: seq<Node>, lastIndex: nat, m: Match, termMap: map<string, string>)
    returns (nodes: seq<Node>, last: nat)
    requires m.start + m.len <= |text|
    ensures nodes == newNodes + StepNodes(text, lastIndex, m, termMap)
    ensures last == m.start + m.len
  {
    var matchStart := m.start;
    var matchEnd := matchStart + m.len;
    var matched := text[matchStart..matchEnd];
    var definition := Attr(termMap, Lower(matched));
    var abbr := Html(AbbrHtml(definition, matched));
    nodes := newNodes;
    if matchStart > lastIndex {
      nodes := nodes + [Text(text[lastIndex..matchStart], None)];
    }
    assert nodes == newNodes + TextBefore(text, lastIndex, m);
    nodes := nodes + [abbr];
    PushLast(newNodes, TextBefore(text, lastIndex, m), abbr);
    last := matchEnd;
  }

  /** Pushing onto a sequence after pushing some nodes is appending both. */
  lemma PushLast(ns: seq<Node>, before: seq<Node>, n: Node)
    ensures ns + before + [n] == ns + (before + [n])
  {
  }

  /** The nodes that replace a text node with matches `ms`: the `forEach`, then the remaining text. */
  method BuildNodes(d: Dictionary, text: string, ms: seq<Match>) returns (newNodes: seq<Node>)
    requires ms == Matches(text, 0, Pattern(d.sorted))
    ensures newNodes == Replacement(d, text)
  {
    MatchesPlaced(text, 0, Pattern(d.sorted));
    newNodes := [];
    var lastIndex := 0;
    for k := 0 to |ms|
      invariant lastIndex == Emitted(text, ms[..k]).1
      invariant newNodes == RenderAll(Emitted(text, ms[..k]).0, d.termMap)
    {
      RenderStep(text, ms, k, d.termMap);
      newNodes, lastIndex := PushMatch(text, newNodes, lastIndex, ms[k], d.termMap);
    }
    assert ms[..|ms|] == ms;
    if lastIndex < |text| {
      newNodes := newNodes + [Text(text[lastIndex..], None)];
    }
    RenderRest(d, text, ms);
  }

  /**
   * The visitor, run on every text node with its index and parent: a text
   * node with matches is replaced, at its own index, by the text and `abbr`
   * nodes; otherwise nothing changes.
   */
  method Visit(d: Dictionary, index: Option<nat>, parent: ParentNode?)
    requires parent != null && index.Some? ==> index.value < |parent.children| && parent.children[index.value].Text?
    modifies parent
    ensures parent != null && index.Some? && Rewrites(d, parent.kind, parent.tagName, old(parent.children), index.value) ==>
      parent.children == Splice(old(parent.children), index.value, Replacement(d, old(parent.children)[index.value].value))
    ensures parent != null && !(index.Some? && Rewrites(d, parent.kind, parent.tagName, old(parent.children), index.value)) ==>
      parent.children == old(parent.children)
  {
    if parent == null || index.None? {
      return;
    }
    if SkipParent(parent.kind, parent.tagName) {
      return;
    }
    var i := index.value;
    var text := parent.children[i].value;
    var ms := Matches(text, 0, Pattern(d.sorted));
    if |ms| == 0 {
      return;
    }
    var newNodes := BuildNodes(d, text, ms);
    parent.children := parent.children[..i] + newNodes + parent.children[i + 1..];
  }
}
