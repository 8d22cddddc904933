/**
 * The glossary: the shipped list of terms and definitions, the
 * case-insensitive lookup of one entry, and the map from lower-cased term to
 * definition that the glossary pass reads.
 */
module Glossary {
  import opened Wrappers
  import opened Strings

  /** One glossary entry: the word or abbreviation to match, and its explanation. */
  datatype GlossaryTerm = GlossaryTerm(term: string, definition: string)

  /** The terms of `glossaryTerms`, in the order the site lists them. */
  const Terms: seq<string> := [
    "WCP",
    "REV",
    "TTB",
    "Redux",
    "MCM",
    "OTB",
    "UTB",
    "COTS",
    "V4B",
    "C-C",
    "turnbuckle",
    "4Bar",
    "Tube-Nut",
    "Gusset",
    "COG",
    "Cantilever",
    "Shear",
    "Torque",
    "DP",
    "Backlash",
    "Deadaxle",
    "Liveaxle",
    "Zombie-Axle",
    "PDH",
    "SparkMAX",
    "PWM",
    "RIO",
    "Blinkin",
    "Radio",
    "3DP",
    "Poly",
    "PC",
    "Stripping",
    "Tapping",
    "Billet",
    "Brainpan",
    "Bellypan",
    "Hardstop",
    "Softstop",
    "Packaging",
    "Parametric"
  ]

  /** The definitions of `glossaryTerms`, position by position with `Terms`. */
  const Definitions: seq<string> := [
    "West Coast Products",
    "REV Robotics",
    "The Thrifty Bot",
    "Redux Robotics",
    "McMaster Carr",
    "\"Over the Bumper\" - A style of intake where you lift the piece over the bumper",
    "\"Under the Bumper\" - A style of intake where you move the piece under the bumper",
    "Commercial Off the Shelf - Parts you can buy from a vendor",
    "\"Virtual 4 Bar\" - Where a second degree of freedom is directly geared off a previous degree of freedom instead of being moved independently or by a linkage",
    "\"Center to Center\" distance",
    "A threaded part that goes in between chain links to tension the chain",
    "A type of linkage characterized by its 4 pivot points",
    "Also known as a \"Star Nut\" - Provides an easy way to put a thread in end of a hollow tube allowing you to bolt the tube to another part",
    "Reinforcement plate, usually made of aluminum, used to strengthen connections between two tubes",
    "Center of Gravity, also referred to as COM (Center of Mass)",
    "Horizontal element that's supported by one side only",
    "When forces are applied parallel to the plane of a material, causing breaking of fasteners due to excessive force and stress",
    "Force that produces rotational movement",
    "Diametral pitch - The number of teeth per inch of the pitch circle",
    "'Slop' in a power transmission system; can wiggle back and forth without engaging the whole system",
    "A type of axle setup where the axle is fixed in place and/or is not transferring the torque of the system through it",
    "A type of axle setup where the main torque transfer is through the axle",
    "Typically used on pivots - A zombie axle spins with the mechanism, but is transferring little to no torque through it. Commonly used to put an encoder on the pivot point",
    "Power Distribution Hub",
    "Motor controller for REV motors",
    "Pulse Width Modulation cable",
    "roboRIO - The brain of the robot",
    "LED controller for REV",
    "Device that helps the robot communicate with the driver station",
    "Abbreviation for 3D printed or 3D printing",
    "Abbreviation for polycarbonate",
    "Abbreviation for polycarbonate",
    "Process of removing threads or bolt heads, often due to excessive force or wear",
    "The process of creating threads in a hole using a tap tool",
    "Component machined down from a solid block of material",
    "Flipped electronics bellypan",
    "Plate for mounting electronics on the underside of your drivebase",
    "A physical limit designed to prevent a mechanism or component from moving beyond a certain point",
    "A software-based limit or control mechanism that restricts the movement of a mechanism or component to prevent it from exceeding certain parameters",
    "The way in which you fit parts of your robot together in a space",
    "Designed in a way that uses relationships between steps to maintain design intent"
  ]

  /** Entries made from a column of terms and a column of definitions of the same length. */
  function Entries(terms: seq<string>, definitions: seq<string>): (r: seq<GlossaryTerm>)
    requires |terms| == |definitions|
    ensures |r| == |terms|
    ensures forall i :: 0 <= i < |r| ==> r[i].term == terms[i] && r[i].definition == definitions[i]
  {
    seq(|terms|, i requires 0 <= i < |terms| => GlossaryTerm(terms[i], definitions[i]))
  }

  /** `glossaryTerms`: each term with the definition at the same position. */
  const GlossaryTerms: seq<GlossaryTerm> := Entries(Terms, Definitions)

  /** Two terms are the same word ignoring (ASCII) case. */
  predicate SameTerm(a: string, b: string)
  {
    Lower(a) == Lower(b)
  }

  /** `terms.find(g => g.term.toLowerCase() === q.toLowerCase())`: the first entry matching `q`, if any. */
  function FindTerm(terms: seq<GlossaryTerm>, q: string): (r: Option<GlossaryTerm>)
    ensures r.Some? ==> r.value in terms && SameTerm(r.value.term, q)
    ensures r.None? <==> forall i :: 0 <= i < |terms| ==> !SameTerm(terms[i].term, q)
  {
    if terms == [] then None
    else if SameTerm(terms[0].term, q) then Some(terms[0])
    else
      var r := FindTerm(terms[1..], q);
      assert forall i :: 1 <= i < |terms| ==> terms[i] == terms[1..][i - 1];
      r
  }

  /** The lookup returns the FIRST matching entry in list order. */
  lemma {:induction false} FindTermFirst(terms: seq<GlossaryTerm>, q: string, i: nat)
    requires i < |terms| && SameTerm(terms[i].term, q)
    requires forall j :: 0 <= j < i ==> !SameTerm(terms[j].term, q)
    ensures FindTerm(terms, q) == Some(terms[i])
  {
    if i > 0 {
      assert !SameTerm(terms[0].term, q);
      FindTermFirst(terms[1..], q, i - 1);
    }
  }

  /** `getGlossaryTerm(q)` over the shipped list: the first shipped entry equal to `q` without case. */
  function GetGlossaryTerm(q: string): (r: Option<GlossaryTerm>)
    ensures r.Some? ==> r.value in GlossaryTerms && SameTerm(r.value.term, q)
    ensures r.None? <==> forall i :: 0 <= i < |GlossaryTerms| ==> !SameTerm(GlossaryTerms[i].term, q)
  {
    FindTerm(GlossaryTerms, q)
  }

  /** The map that setting `term.toLowerCase() -> definition` for each entry in turn builds. */
  function TermMap(terms: seq<GlossaryTerm>): map<string, string>
  {
    if terms == [] then map[]
    else TermMap(terms[..|terms| - 1])[Lower(terms[|terms| - 1].term) := terms[|terms| - 1].definition]
  }

  /** The keys are exactly the lower-cased terms. */
  lemma {:induction false} TermMapKeys(terms: seq<GlossaryTerm>)
    ensures TermMap(terms).Keys == set i | 0 <= i < |terms| :: Lower(terms[i].term)
  {
    if terms != [] {
      var init := terms[..|terms| - 1];
      TermMapKeys(init);
      assert forall i :: 0 <= i < |init| ==> init[i] == terms[i];
    }
  }

  /** A term's value is the definition of the LAST entry with that lower-cased term. */
  lemma {:induction false} TermMapLastWins(terms: seq<GlossaryTerm>, i: nat)
    requires i < |terms|
    requires forall j :: i < j < |terms| ==> !SameTerm(terms[j].term, terms[i].term)
    ensures Lower(terms[i].term) in TermMap(terms)
    ensures TermMap(terms)[Lower(terms[i].term)] == terms[i].definition
  {
    var init := terms[..|terms| - 1];
    if i < |terms| - 1 {
      assert init[i] == terms[i];
      forall j | i < j < |init| ensures !SameTerm(init[j].term, init[i].term) {
        assert init[j] == terms[j];
      }
      TermMapLastWins(init, i);
    }
  }

  /** The map has at most one entry per list entry. */
  lemma {:induction false} TermMapSize(terms: seq<GlossaryTerm>)
    ensures |TermMap(terms)| <= |terms|
  {
    if terms != [] {
      var init := terms[..|terms| - 1];
      TermMapSize(init);
      var m := TermMap(init);
      var k := Lower(terms[|terms| - 1].term);
      if k in m {
        assert m[k := terms[|terms| - 1].definition].Keys == m.Keys;
      } else {
        assert m[k := terms[|terms| - 1].definition].Keys == m.Keys + {k};
      }
    }
  }

  /** The `forEach` loop of `getGlossaryMap`: set each entry's lower-cased term to its definition, in order. */
  method BuildTermMap(terms: seq<GlossaryTerm>) returns (m: map<string, string>)
    ensures m == TermMap(terms)
  {
    m := map[];
    for i := 0 to |terms|
      invariant m == TermMap(terms[..i])
    {
      assert terms[..i + 1][..i] == terms[..i];
      m := m[Lower(terms[i].term) := terms[i].definition];
    }
    assert terms[..|terms|] == terms;
  }

  /** `getGlossaryMap()` over the shipped list. */
  method GetGlossaryMap() returns (m: map<string, string>)
    ensures m == TermMap(GlossaryTerms)
  {
    m := BuildTermMap(GlossaryTerms);
  }

  /** No two entries are the same term ignoring case. */
  predicate DistinctTerms(terms: seq<GlossaryTerm>)
  {
    forall i, j :: 0 <= i < j < |terms| ==> !SameTerm(terms[i].term, terms[j].term)
  }

  /** With distinct terms, the first-match lookup and the last-wins map agree on every query. */
  lemma LookupsAgree(terms: seq<GlossaryTerm>, q: string)
    requires DistinctTerms(terms)
    ensures FindTerm(terms, q).Some? <==> Lower(q) in TermMap(terms)
    ensures FindTerm(terms, q).Some? ==> TermMap(terms)[Lower(q)] == FindTerm(terms, q).value.definition
  {
    TermMapKeys(terms);
    var r := FindTerm(terms, q);
    if r.Some? {
      var i :| 0 <= i < |terms| && terms[i] == r.value;
      forall j | i < j < |terms| ensures !SameTerm(terms[j].term, terms[i].term) {
      }
      TermMapLastWins(terms, i);
    }
  }

  /** The case-insensitive signature of a term: its length and its first two letters, lower-cased. */
  function Signature(t: string): (int, char, char)
    requires |t| >= 2
  {
    (|t|, LowerChar(t[0]), LowerChar(t[1]))
  }

  /** Terms that are the same ignoring case have the same signature. */
  lemma SignatureOfSameTerm(a: string, b: string)
    requires |a| >= 2 && |b| >= 2 && SameTerm(a, b)
    ensures Signature(a) == Signature(b)
  {
    assert |Lower(a)| == |Lower(b)|;
    assert Lower(a)[0] == Lower(b)[0] && Lower(a)[1] == Lower(b)[1];
  }

  /** The position of the shipped entry with a given signature (-1 when none has it). */
  function SignatureIndex(g: (int, char, char)): int
  {
    if g == (3, 'w', 'c') then 0
    else if g == (3, 'r', 'e') then 1
    else if g == (3, 't', 't') then 2
    else if g == (5, 'r', 'e') then 3
    else if g == (3, 'm', 'c') then 4
    else if g == (3, 'o', 't') then 5
    else if g == (3, 'u', 't') then 6
    else if g == (4, 'c', 'o') then 7
    else if g == (3, 'v', '4') then 8
    else if g == (3, 'c', '-') then 9
    else if g == (10, 't', 'u') then 10
    else if g == (4, '4', 'b') then 11
    else if g == (8, 't', 'u') then 12
    else if g == (6, 'g', 'u') then 13
    else if g == (3, 'c', 'o') then 14
    else if g == (10, 'c', 'a') then 15
    else if g == (5, 's', 'h') then 16
    else if g == (6, 't', 'o') then 17
    else if g == (2, 'd', 'p') then 18
    else if g == (8, 'b', 'a') then 19
    else if g == (8, 'd', 'e') then 20
    else if g == (8, 'l', 'i') then 21
    else if g == (11, 'z', 'o') then 22
    else if g == (3, 'p', 'd') then 23
    else if g == (8, 's', 'p') then 24
    else if g == (3, 'p', 'w') then 25
    else if g == (3, 'r', 'i') then 26
    else if g == (7, 'b', 'l') then 27
    else if g == (5, 'r', 'a') then 28
    else if g == (3, '3', 'd') then 29
    else if g == (4, 'p', 'o') then 30
    else if g == (2, 'p', 'c') then 31
    else if g == (9, 's', 't') then 32
    else if g == (7, 't', 'a') then 33
    else if g == (6, 'b', 'i') then 34
    else if g == (8, 'b', 'r') then 35
    else if g == (8, 'b', 'e') then 36
    else if g == (8, 'h', 'a') then 37
    else if g == (8, 's', 'o') then 38
    else if g == (9, 'p', 'a') then 39
    else if g == (10, 'p', 'a') then 40
    else -1
  }

  /** Entries 0 to 7 decode to their own positions. */
  lemma SignaturesFrom0()
    ensures forall i :: 0 <= i < 8 ==> |Terms[i]| >= 2 && SignatureIndex(Signature(Terms[i])) == i
  {
  }

  /** Entries 8 to 15 decode to their own positions. */
  lemma SignaturesFrom8()
    ensures forall i :: 8 <= i < 16 ==> |Terms[i]| >= 2 && SignatureIndex(Signature(Terms[i])) == i
  {
  }

  /** Entries 16 to 23 decode to their own positions. */
  lemma SignaturesFrom16()
    ensures forall i :: 16 <= i < 24 ==> |Terms[i]| >= 2 && SignatureIndex(Signature(Terms[i])) == i
  {
  }

  /** Entries 24 to 31 decode to their own positions. */
  lemma SignaturesFrom24()
    ensures forall i :: 24 <= i < 32 ==> |Terms[i]| >= 2 && SignatureIndex(Signature(Terms[i])) == i
  {
  }

  /** Entries 32 to 40 decode to their own positions. */
  lemma SignaturesFrom32()
    ensures forall i :: 32 <= i < 41 ==> |Terms[i]| >= 2 && SignatureIndex(Signature(Terms[i])) == i
  {
  }

  /** Every shipped term has at least two letters, and no two shipped terms are the same ignoring case. */
  lemma ShippedTermsDistinct()
    ensures forall i :: 0 <= i < |Terms| ==> |Terms[i]| >= 2
    ensures forall i, j :: 0 <= i < j < |Terms| ==> !SameTerm(Terms[i], Terms[j])
  {
    SignaturesFrom0();
    SignaturesFrom8();
    SignaturesFrom16();
    SignaturesFrom24();
    SignaturesFrom32();
    forall i, j | 0 <= i < j < |Terms| ensures !SameTerm(Terms[i], Terms[j]) {
      if SameTerm(Terms[i], Terms[j]) {
        SignatureOfSameTerm(Terms[i], Terms[j]);
      }
    }
  }

  /** On the shipped list, `getGlossaryTerm` and `getGlossaryMap` give the same answer for every query. */
  lemma ShippedLookupsAgree(q: string)
    ensures GetGlossaryTerm(q).Some? <==> Lower(q) in TermMap(GlossaryTerms)
    ensures GetGlossaryTerm(q).Some? ==> TermMap(GlossaryTerms)[Lower(q)] == GetGlossaryTerm(q).value.definition
  {
    ShippedTermsDistinct();
    assert DistinctTerms(GlossaryTerms);
    LookupsAgree(GlossaryTerms, q);
  }
}
