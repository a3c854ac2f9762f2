/**
 * Persona-driven analysis over several documents: every outline heading of
 * every document that could be read becomes a section, scored by the
 * similarity of its text to the persona query and weighted by its level;
 * the pooled sections are stably sorted by that importance, highest first,
 * and the first ten get templated explanations.
 *
 * The similarity of a section text to the query is a parameter (a sentence
 * encoder and cosine similarity in the original), and so is reading a PDF,
 * which either yields its text or fails.
 */
module PersonaAnalyzer {
  import opened Wrappers
  import opened PyText
  import opened PdfProcessor

  /** What reading one PDF yields: the layout text (for the title) and each page's text. */
  datatype PdfText = PdfText(layoutText: string, pageTexts: seq<string>)

  /** `{"document", "outline"}` for one document that was read. */
  datatype DocumentOutline = DocumentOutline(document: string, outline: Outline)

  /** One entry of `extracted_sections`. */
  datatype Section = Section(
    document: string, page: nat, sectionTitle: string,
    importanceRank: real, similarityScore: real, level: string)

  /** One entry of `sub_section_analyses`. */
  datatype SubSectionAnalysis = SubSectionAnalysis(
    document: string, refinedText: string, page: nat,
    originalTitle: string, relevanceExplanation: string)

  /** The deterministic part of `metadata` (timestamps are not modelled). */
  datatype Metadata = Metadata(documents: seq<string>, personaDescription: string, jobToBeDone: string)

  /** The result of `analyze`. */
  datatype Report = Report(
    metadata: Metadata, extractedSections: seq<Section>, subSectionAnalyses: seq<SubSectionAnalysis>)

  /** The text `_create_persona_embedding` encodes: persona and job joined by a space. */
  function PersonaQuery(personaDescription: string, jobToBeDone: string): string {
    personaDescription + " " + jobToBeDone
  }

  // ---------------------------------------------------------------------------
  // _calculate_importance_rank

  /** The level weights: H1 1.2, H2 1.0, H3 0.8, and 1.0 for any other level. */
  function LevelMultiplier(level: string): real {
    if level == "H1" then 1.2
    else if level == "H2" then 1.0
    else if level == "H3" then 0.8
    else 1.0
  }

  /** `min(max(x, 0.0), 1.0)`. */
  function Clamp01(x: real): real {
    var atLeastZero := if x > 0.0 then x else 0.0;
    if atLeastZero < 1.0 then atLeastZero else 1.0
  }

  /**
   * `_calculate_importance_rank`: the similarity times the level weight, clamped
   * to [0, 1]. The rank is always in [0, 1]; it equals the weighted similarity
   * when that lies in [0, 1], and is 0 below and 1 above.
   */
  function ImportanceRank(similarityScore: real, headingLevel: string): (rank: real)
    ensures 0.0 <= rank <= 1.0
    ensures var weighted := similarityScore * LevelMultiplier(headingLevel);
      (0.0 <= weighted <= 1.0 ==> rank == weighted) &&
      (weighted < 0.0 ==> rank == 0.0) &&
      (weighted > 1.0 ==> rank == 1.0)
  {
    Clamp01(similarityScore * LevelMultiplier(headingLevel))
  }

  /** For H2 the weight is 1, so a similarity in [0, 1] is its own rank. */
  lemma H2RankIsSimilarity(similarityScore: real)
    requires 0.0 <= similarityScore <= 1.0
    ensures ImportanceRank(similarityScore, "H2") == similarityScore
  {
  }

  /** A higher similarity never gives a lower rank at the same level. */
  lemma ImportanceRankMonotone(s1: real, s2: real, level: string)
    requires s1 <= s2
    ensures ImportanceRank(s1, level) <= ImportanceRank(s2, level)
  {
    var m := LevelMultiplier(level);
    assert m == 1.2 || m == 1.0 || m == 0.8;
    assert s1 * m <= s2 * m;
  }

  /**
   * At equal similarity, H1 ranks at least as high as H2, and H2 as H3; a
   * negative similarity gives rank 0 at every level.
   */
  lemma ImportanceRankByLevel(similarityScore: real)
    ensures ImportanceRank(similarityScore, "H3") <= ImportanceRank(similarityScore, "H2")
    ensures ImportanceRank(similarityScore, "H2") <= ImportanceRank(similarityScore, "H1")
  {
    assert LevelMultiplier("H1") == 1.2 && LevelMultiplier("H3") == 0.8;
    if similarityScore >= 0.0 {
      assert similarityScore * 0.8 <= similarityScore * 1.0 <= similarityScore * 1.2;
    }
  }

  // ---------------------------------------------------------------------------
  // The sort of _extract_and_rank_sections: list.sort(key=importance_rank, reverse=True)

  /** Insert `x` before the first section ranked strictly lower, so after every equal one. */
  function InsertByRank(x: Section, sorted: seq<Section>): seq<Section> {
    if sorted == [] then [x]
    else if sorted[0].importanceRank < x.importanceRank then [x] + sorted
    else [sorted[0]] + InsertByRank(x, sorted[1..])
  }

  /** Python's stable descending sort by importance rank, as an insertion sort. */
  function SortByRank(s: seq<Section>): seq<Section> {
    if s == [] then [] else InsertByRank(s[|s| - 1], SortByRank(s[..|s| - 1]))
  }

  /** Importance never increases along the list. */
  predicate SortedByRank(s: seq<Section>) {
    forall i, j :: 0 <= i < j < |s| ==> s[i].importanceRank >= s[j].importanceRank
  }

  /** The sections of `s` whose rank is exactly `rank`, in their order in `s`. */
  function WithRank(s: seq<Section>, rank: real): seq<Section> {
    if s == [] then []
    else (if s[0].importanceRank == rank then [s[0]] else []) + WithRank(s[1..], rank)
  }

  lemma {:induction false} WithRankAppend(a: seq<Section>, b: seq<Section>, rank: real)
    ensures WithRank(a + b, rank) == WithRank(a, rank) + WithRank(b, rank)
    decreases |a|
  {
    if a == [] {
      assert a + b == b;
    } else {
      assert (a + b)[0] == a[0];
      assert (a + b)[1..] == a[1..] + b;
      WithRankAppend(a[1..], b, rank);
    }
  }

  lemma {:induction false} WithRankNone(s: seq<Section>, rank: real)
    requires forall i :: 0 <= i < |s| ==> s[i].importanceRank < rank
    ensures WithRank(s, rank) == []
    decreases |s|
  {
    if s != [] {
      WithRankNone(s[1..], rank);
    }
  }

  lemma {:induction false} InsertByRankPermutes(x: Section, sorted: seq<Section>)
    ensures multiset(InsertByRank(x, sorted)) == multiset(sorted) + multiset{x}
    decreases |sorted|
  {
    if sorted != [] && sorted[0].importanceRank >= x.importanceRank {
      InsertByRankPermutes(x, sorted[1..]);
      assert sorted == [sorted[0]] + sorted[1..];
    }
  }

  lemma {:induction false} InsertByRankSorted(x: Section, sorted: seq<Section>)
    requires SortedByRank(sorted)
    ensures SortedByRank(InsertByRank(x, sorted))
    decreases |sorted|
  {
    if sorted != [] && sorted[0].importanceRank >= x.importanceRank {
      var r := InsertByRank(x, sorted);
      var rest := InsertByRank(x, sorted[1..]);
      InsertByRankSorted(x, sorted[1..]);
      InsertByRankPermutes(x, sorted[1..]);
      assert r == [sorted[0]] + rest;
      forall i, j | 0 <= i < j < |r| ensures r[i].importanceRank >= r[j].importanceRank {
        if i > 0 {
          assert r[i] == rest[i - 1] && r[j] == rest[j - 1];
        } else {
          assert r[j] == rest[j - 1];
          assert r[j] in multiset(rest);
          if r[j] != x {
            assert r[j] in multiset(sorted[1..]);
            var k :| 0 <= k < |sorted[1..]| && sorted[1..][k] == r[j];
            assert sorted[k + 1] == r[j];
          }
        }
      }
    }
  }

  lemma {:induction false} InsertByRankWithRank(x: Section, sorted: seq<Section>, rank: real)
    requires SortedByRank(sorted)
    ensures WithRank(InsertByRank(x, sorted), rank) ==
      WithRank(sorted, rank) + (if x.importanceRank == rank then [x] else [])
    decreases |sorted|
  {
    if sorted == [] {
    } else if sorted[0].importanceRank < x.importanceRank {
      WithRankAppend([x], sorted, rank);
      if x.importanceRank == rank {
        WithRankNone(sorted, rank);
      }
    } else {
      var rest := InsertByRank(x, sorted[1..]);
      InsertByRankWithRank(x, sorted[1..], rank);
      WithRankAppend([sorted[0]], rest, rank);
      WithRankAppend([sorted[0]], sorted[1..], rank);
      assert sorted == [sorted[0]] + sorted[1..];
    }
  }

  /**
   * `list.sort(key=importance_rank, reverse=True)`: the result is a
   * permutation of the input, sorted with importance never increasing, and
   * stable: the sections of any one rank keep their input order.
   */
  lemma {:induction false} SortByRankSpec(s: seq<Section>)
    ensures multiset(SortByRank(s)) == multiset(s)
    ensures |SortByRank(s)| == |s|
    ensures SortedByRank(SortByRank(s))
    ensures forall rank :: WithRank(SortByRank(s), rank) == WithRank(s, rank)
    decreases |s|
  {
    if s != [] {
      var init := s[..|s| - 1];
      var x := s[|s| - 1];
      assert s == init + [x];
      SortByRankSpec(init);
      InsertByRankPermutes(x, SortByRank(init));
      InsertByRankSorted(x, SortByRank(init));
      forall rank ensures WithRank(SortByRank(s), rank) == WithRank(s, rank) {
        InsertByRankWithRank(x, SortByRank(init), rank);
        WithRankAppend(init, [x], rank);
        assert WithRank([x], rank) == (if x.importanceRank == rank then [x] else []) + WithRank([], rank);
      }
      assert |SortByRank(s)| == |multiset(SortByRank(s))| == |multiset(s)| == |s|;
    }
  }

  // ---------------------------------------------------------------------------
  // _extract_and_rank_sections

  /** The section built for one outline heading of `document`. */
  function MakeSection(document: string, heading: OutlineEntry, query: string,
                       similarity: (string, string) -> real): Section
  {
    var score := similarity(heading.text, query);
    var level := LevelName(heading.level);
    Section(document, heading.page, heading.text, ImportanceRank(score, level), score, level)
  }

  /** The sections of one document, one per outline heading, in outline order. */
  function DocumentSections(doc: DocumentOutline, query: string,
                            similarity: (string, string) -> real): seq<Section>
  {
    var outline := doc.outline.outline;
    seq(|outline|, k requires 0 <= k < |outline| => MakeSection(doc.document, outline[k], query, similarity))
  }

  /** The sections of all documents, document after document, before sorting. */
  function AllSections(docs: seq<DocumentOutline>, query: string,
                       similarity: (string, string) -> real): seq<Section>
  {
    if docs == [] then []
    else AllSections(docs[..|docs| - 1], query, similarity) + DocumentSections(docs[|docs| - 1], query, similarity)
  }

  /** The number of outline headings over all documents. */
  function TotalHeadings(docs: seq<DocumentOutline>): nat {
    if docs == [] then 0 else TotalHeadings(docs[..|docs| - 1]) + |docs[|docs| - 1].outline.outline|
  }

  /** There are as many sections as headings in all outlines. */
  lemma {:induction false} AllSectionsCount(docs: seq<DocumentOutline>, query: string,
                                            similarity: (string, string) -> real)
    ensures |AllSections(docs, query, similarity)| == TotalHeadings(docs)
    decreases |docs|
  {
    if docs != [] {
      AllSectionsCount(docs[..|docs| - 1], query, similarity);
    }
  }

  /**
   * One section per heading, in document order: heading `k` of document `d`
   * becomes the section at position (headings of the documents before `d`) +
   * `k`, carrying its document, page, text and level unchanged.
   */
  lemma {:induction false} AllSectionsAt(docs: seq<DocumentOutline>, query: string,
                                         similarity: (string, string) -> real, d: nat, k: nat)
    requires d < |docs| && k < |docs[d].outline.outline|
    ensures TotalHeadings(docs[..d]) + k < |AllSections(docs, query, similarity)|
    ensures AllSections(docs, query, similarity)[TotalHeadings(docs[..d]) + k] ==
      MakeSection(docs[d].document, docs[d].outline.outline[k], query, similarity)
    decreases |docs|
  {
    var init := docs[..|docs| - 1];
    var before := AllSections(init, query, similarity);
    AllSectionsCount(init, query, similarity);
    if d < |docs| - 1 {
      AllSectionsAt(init, query, similarity, d, k);
      assert docs[..d] == init[..d];
    } else {
      assert docs[..d] == init;
    }
  }

  /** Every section comes from one of the given documents. */
  lemma {:induction false} AllSectionsDocuments(docs: seq<DocumentOutline>, query: string,
                                                similarity: (string, string) -> real)
    ensures forall s :: s in AllSections(docs, query, similarity) ==>
      exists d :: 0 <= d < |docs| && s.document == docs[d].document
    decreases |docs|
  {
    if docs != [] {
      var init := docs[..|docs| - 1];
      AllSectionsDocuments(init, query, similarity);
      forall s | s in AllSections(docs, query, similarity)
        ensures exists d :: 0 <= d < |docs| && s.document == docs[d].document
      {
        if s in AllSections(init, query, similarity) {
          var d :| 0 <= d < |init| && s.document == init[d].document;
          assert docs[d] == init[d];
        } else {
          assert s.document == docs[|docs| - 1].document;
        }
      }
    }
  }

  /**
   * `_extract_and_rank_sections`: build one section per heading, document by
   * document, then sort them by importance, highest first, stably.
   */
  method ExtractAndRankSections(documentOutlines: seq<DocumentOutline>, query: string,
                                similarity: (string, string) -> real)
    returns (sections: seq<Section>)
    ensures sections == SortByRank(AllSections(documentOutlines, query, similarity))
  {
    var allSections: seq<Section> := [];
    for d := 0 to |documentOutlines|
      invariant allSections == AllSections(documentOutlines[..d], query, similarity)
    {
      var document := documentOutlines[d].document;
      var outline := documentOutlines[d].outline.outline;
      ghost var before := allSections;
      ghost var built := DocumentSections(documentOutlines[d], query, similarity);
      for k := 0 to |outline|
        invariant allSections == before + built[..k]
      {
        var heading := outline[k];
        var score := similarity(heading.text, query);
        var level := LevelName(heading.level);
        var rank := ImportanceRank(score, level);
        allSections := allSections + [Section(document, heading.page, heading.text, rank, score, level)];
        assert built[..k + 1] == built[..k] + [built[k]];
      }
      assert built[..|outline|] == built;
      assert documentOutlines[..d + 1][..d] == documentOutlines[..d];
    }
    assert documentOutlines[..|documentOutlines|] == documentOutlines;
    sections := SortByRank(allSections);
  }

  // ---------------------------------------------------------------------------
  // _generate_refined_text and _explain_relevance

  /** The relevance band of the refined text: 2 above 0.7, 1 above 0.5, else 0. */
  function RefinedTier(similarityScore: real): (tier: nat)
    ensures tier <= 2
  {
    if similarityScore > 0.7 then 2 else if similarityScore > 0.5 then 1 else 0
  }

  /** The relevance band of the explanation: 2 above 0.8, 1 above 0.6, else 0. */
  function ExplanationTier(similarityScore: real): (tier: nat)
    ensures tier <= 2
  {
    if similarityScore > 0.8 then 2 else if similarityScore > 0.6 then 1 else 0
  }

  /**
   * Both bands only go up as the similarity goes up, and the explanation is
   * never in a higher band than the refined text.
   */
  lemma TiersMonotone(s1: real, s2: real)
    requires s1 <= s2
    ensures RefinedTier(s1) <= RefinedTier(s2)
    ensures ExplanationTier(s1) <= ExplanationTier(s2)
    ensures ExplanationTier(s2) <= RefinedTier(s2)
  {
  }

  /** The band phrases of the refined text, indexed by tier. */
  const BandPhrases: seq<string> :=
    ["' is somewhat relevant", "' is moderately relevant", "' is highly relevant"]

  const RefinedIntro: string := "This section on '"
  const PageLead: string := " to your needs. It appears on page "
  const RefinedOutro: string := " and addresses key aspects related to your persona and objectives."

  /**
   * `_generate_refined_text`: the title, a band chosen by the raw similarity
   * (not the importance rank), and the page number.
   */
  function RefinedText(section: Section): string {
    RefinedIntro +
      (section.sectionTitle + BandPhrases[RefinedTier(section.similarityScore)] +
       PageLead + NatToString(section.page)) +
      RefinedOutro
  }

  /** The closing sentences of the explanation, indexed by tier. */
  const ExplanationTails: seq<string> := [
    "' offers background information that may be useful for your research.",
    "' provides valuable context and supporting information for your goals.",
    "' directly addresses your primary objectives with high relevance."]

  /** `_explain_relevance`: the quoted title and a sentence chosen by the raw similarity. */
  function ExplainRelevance(section: Section): string {
    "'" + (section.sectionTitle + ExplanationTails[ExplanationTier(section.similarityScore)])
  }

  // Reading the generated texts back.

  predicate EndsWith(s: string, suffix: string) {
    |suffix| <= |s| && s[|s| - |suffix|..] == suffix
  }

  /** `s` without its last `n` characters. */
  function DropLast(s: string, n: nat): string
    requires n <= |s|
  {
    s[..|s| - n]
  }

  /** A text together with the tier of the phrase that followed it. */
  datatype Tagged = Tagged(text: string, tier: nat)

  /** The first of `tails[j..]` that ends `s`: what precedes it, and its index. */
  function FindTail(s: string, tails: seq<string>, j: nat): Option<Tagged>
    decreases |tails| - j
  {
    if j >= |tails| then None
    else if EndsWith(s, tails[j]) then Some(Tagged(DropLast(s, |tails[j]|), j))
    else FindTail(s, tails, j + 1)
  }

  /** No phrase of the list ends another one. */
  predicate SuffixFree(tails: seq<string>) {
    forall j, m :: 0 <= j < |tails| && 0 <= m < |tails| && j != m ==> !EndsWith(tails[j], tails[m])
  }

  lemma EndsWithConcat(x: string, a: string)
    ensures EndsWith(x + a, a) && DropLast(x + a, |a|) == x
  {
    assert (x + a)[|x|..] == a;
    assert (x + a)[..|x|] == x;
  }

  /** Two suffixes of one string: the shorter ends the longer. */
  lemma CommonSuffix(s: string, a: string, b: string)
    ensures EndsWith(s, a) && EndsWith(s, b) && |a| <= |b| ==> EndsWith(b, a)
  {
    if EndsWith(s, a) && EndsWith(s, b) && |a| <= |b| {
      forall i | 0 <= i < |a| ensures b[|b| - |a| + i] == a[i] {
        assert s[|s| - |b|..][|b| - |a| + i] == s[|s| - |a| + i];
        assert s[|s| - |a|..][i] == s[|s| - |a| + i];
      }
      assert b[|b| - |a|..] == a;
    }
  }

  /** A string does not end in a phrase that differs from it `k` places from the end. */
  lemma DifferAt(a: string, b: string, k: nat)
    requires 1 <= k <= |a| && k <= |b| && a[|a| - k] != b[|b| - k]
    ensures !EndsWith(a, b)
  {
  }

  /** Removing the phrase that was appended gives back the text and the phrase's index. */
  lemma {:induction false} FindTailExact(title: string, tails: seq<string>, i: nat, j: nat)
    requires SuffixFree(tails) && j <= i < |tails|
    ensures FindTail(title + tails[i], tails, j) == Some(Tagged(title, i))
    decreases i - j
  {
    EndsWithConcat(title, tails[i]);
    if j < i {
      CommonSuffix(title + tails[i], tails[j], tails[i]);
      CommonSuffix(title + tails[i], tails[i], tails[j]);
      FindTailExact(title, tails, i, j + 1);
    }
  }

  lemma BandPhrasesSuffixFree()
    ensures SuffixFree(BandPhrases)
  {
    forall j, m | 0 <= j < |BandPhrases| && 0 <= m < |BandPhrases| && j != m
      ensures !EndsWith(BandPhrases[j], BandPhrases[m])
    {
      if j == 0 || m == 0 {
        DifferAt(BandPhrases[j], BandPhrases[m], 10);
      } else {
        DifferAt(BandPhrases[j], BandPhrases[m], 12);
      }
    }
  }

  lemma ExplanationTailsSuffixFree()
    ensures SuffixFree(ExplanationTails)
  {
    forall j, m | 0 <= j < |ExplanationTails| && 0 <= m < |ExplanationTails| && j != m
      ensures !EndsWith(ExplanationTails[j], ExplanationTails[m])
    {
      DifferAt(ExplanationTails[j], ExplanationTails[m], 2);
    }
  }

  /** The text between a known prefix and a known suffix. */
  function StripFrame(text: string, prefix: string, suffix: string): Option<string> {
    if |prefix| + |suffix| <= |text| && text[..|prefix|] == prefix && EndsWith(text, suffix)
    then Some(text[|prefix|..|text| - |suffix|])
    else None
  }

  lemma StripFrameExact(prefix: string, body: string, suffix: string)
    ensures StripFrame(prefix + body + suffix, prefix, suffix) == Some(body)
  {
    var text := prefix + body + suffix;
    assert text[..|prefix|] == prefix;
    assert text[|text| - |suffix|..] == suffix;
    assert text[|prefix|..|text| - |suffix|] == body;
  }

  /** Number of decimal digits at the end of `s`. */
  function TrailingDigits(s: string): (k: nat)
    ensures k <= |s|
    ensures forall i :: |s| - k <= i < |s| ==> IsDigitChar(s[i])
  {
    if s != [] && IsDigitChar(s[|s| - 1]) then 1 + TrailingDigits(s[..|s| - 1]) else 0
  }

  lemma {:induction false} TrailingDigitsExact(x: string, digits: string)
    requires x != [] && !IsDigitChar(x[|x| - 1])
    requires forall i :: 0 <= i < |digits| ==> IsDigitChar(digits[i])
    ensures TrailingDigits(x + digits) == |digits|
    decreases |digits|
  {
    var s := x + digits;
    if digits == [] {
      assert s == x;
    } else {
      assert s[..|s| - 1] == x + digits[..|digits| - 1];
      TrailingDigitsExact(x, digits[..|digits| - 1]);
    }
  }

  /**
   * `lead` followed by a number, at the end of `s`: what precedes `lead`, and
   * the number.
   */
  function TrailingNumber(s: string, lead: string): Option<(string, nat)> {
    var digits := TrailingDigits(s);
    var head := DropLast(s, digits);
    if digits == 0 || !EndsWith(head, lead) then None
    else Some((DropLast(head, |lead|), DecimalValue(s[|s| - digits..])))
  }

  lemma TrailingNumberExact(text: string, lead: string, n: nat)
    requires lead != [] && !IsDigitChar(lead[|lead| - 1])
    ensures TrailingNumber(text + lead + NatToString(n), lead) == Some((text, n))
  {
    var digits := NatToString(n);
    var s := text + lead + digits;
    assert (text + lead)[|text + lead| - 1] == lead[|lead| - 1];
    TrailingDigitsExact(text + lead, digits);
    EndsWithConcat(text + lead, digits);
    EndsWithConcat(text, lead);
    assert s[|s| - |digits|..] == digits;
    DecimalRoundTrip(n);
  }

  /** What a refined text says: the section title, its band and its page. */
  datatype RefinedParts = RefinedParts(title: string, tier: nat, page: nat)

  /** Reads a refined text back: the frame, then the page number, then the band phrase. */
  function ParseRefinedText(text: string): Option<RefinedParts> {
    match StripFrame(text, RefinedIntro, RefinedOutro)
    case None => None
    case Some(middle) =>
      match TrailingNumber(middle, PageLead)
      case None => None
      case Some((titled, page)) =>
        match FindTail(titled, BandPhrases, 0)
        case None => None
        case Some(tagged) => Some(RefinedParts(tagged.text, tagged.tier, page))
  }

  /** Reads an explanation back: the opening quote, then the closing sentence. */
  function ParseExplanation(text: string): Option<Tagged> {
    if text == [] || text[0] != '\'' then None else FindTail(text[1..], ExplanationTails, 0)
  }

  /**
   * The refined text determines the section title, the band of the raw
   * similarity and the page: reading it back gives exactly those three.
   */
  lemma RefinedTextRoundTrip(section: Section)
    ensures ParseRefinedText(RefinedText(section)) ==
      Some(RefinedParts(section.sectionTitle, RefinedTier(section.similarityScore), section.page))
  {
    var tier := RefinedTier(section.similarityScore);
    var titled := section.sectionTitle + BandPhrases[tier];
    StripFrameExact(RefinedIntro, titled + PageLead + NatToString(section.page), RefinedOutro);
    TrailingNumberExact(titled, PageLead, section.page);
    BandPhrasesSuffixFree();
    FindTailExact(section.sectionTitle, BandPhrases, tier, 0);
  }

  /** The explanation determines the section title and the band of the raw similarity. */
  lemma ExplanationRoundTrip(section: Section)
    ensures ParseExplanation(ExplainRelevance(section)) ==
      Some(Tagged(section.sectionTitle, ExplanationTier(section.similarityScore)))
  {
    var tier := ExplanationTier(section.similarityScore);
    var body := section.sectionTitle + ExplanationTails[tier];
    assert ("'" + body)[1..] == body;
    ExplanationTailsSuffixFree();
    FindTailExact(section.sectionTitle, ExplanationTails, tier, 0);
  }

  // ---------------------------------------------------------------------------
  // _generate_sub_section_analyses

  const TopSectionCount: nat := 10

  /** The analysis of one section. */
  function AnalyzeSection(section: Section): SubSectionAnalysis {
    SubSectionAnalysis(section.document, RefinedText(section), section.page,
                       section.sectionTitle, ExplainRelevance(section))
  }

  /** The analyses of the first ten sections (all of them when there are fewer), in order. */
  function AnalysesOf(sections: seq<Section>): seq<SubSectionAnalysis> {
    var top := Take(sections, TopSectionCount);
    seq(|top|, i requires 0 <= i < |top| => AnalyzeSection(top[i]))
  }

  /**
   * `_generate_sub_section_analyses`: one analysis for each of the first ten
   * sections (fewer if there are fewer), in order, copying document, page and
   * title, with texts chosen from the section's raw similarity.
   */
  method GenerateSubSectionAnalyses(extractedSections: seq<Section>) returns (analyses: seq<SubSectionAnalysis>)
    ensures |analyses| == if |extractedSections| < TopSectionCount then |extractedSections| else TopSectionCount
    ensures forall i :: 0 <= i < |analyses| ==>
      analyses[i].document == extractedSections[i].document &&
      analyses[i].page == extractedSections[i].page &&
      analyses[i].originalTitle == extractedSections[i].sectionTitle &&
      analyses[i].refinedText == RefinedText(extractedSections[i]) &&
      analyses[i].relevanceExplanation == ExplainRelevance(extractedSections[i])
    ensures analyses == AnalysesOf(extractedSections)
  {
    var topSections := Take(extractedSections, TopSectionCount);
    analyses := [];
    for i := 0 to |topSections|
      invariant |analyses| == i
      invariant forall j :: 0 <= j < i ==>
        analyses[j].document == extractedSections[j].document &&
        analyses[j].page == extractedSections[j].page &&
        analyses[j].originalTitle == extractedSections[j].sectionTitle &&
        analyses[j].refinedText == RefinedText(extractedSections[j]) &&
        analyses[j].relevanceExplanation == ExplainRelevance(extractedSections[j])
    {
      var section := topSections[i];
      var refinedText := RefinedText(section);
      analyses := analyses + [SubSectionAnalysis(section.document, refinedText, section.page,
                                                 section.sectionTitle, ExplainRelevance(section))];
    }
  }

  // ---------------------------------------------------------------------------
  // analyze

  /** The outlines of the files that could be read, in input order; failed reads are skipped. */
  function ExtractedOutlines(pdfFiles: seq<string>, readPdf: string -> Option<PdfText>): seq<DocumentOutline> {
    if pdfFiles == [] then []
    else
      var file := pdfFiles[|pdfFiles| - 1];
      ExtractedOutlines(pdfFiles[..|pdfFiles| - 1], readPdf) +
        match readPdf(file)
        case None => []
        case Some(pdf) => [DocumentOutline(file, OutlineOf(pdf.layoutText, pdf.pageTexts))]
  }

  /** The files that could be read, in input order. */
  function ReadableFiles(pdfFiles: seq<string>, readPdf: string -> Option<PdfText>): seq<string> {
    if pdfFiles == [] then []
    else
      var file := pdfFiles[|pdfFiles| - 1];
      ReadableFiles(pdfFiles[..|pdfFiles| - 1], readPdf) + (if readPdf(file).Some? then [file] else [])
  }

  /**
   * Failure isolation: the outlines are those of exactly the readable files,
   * in input order, each the outline of that file's text.
   */
  lemma {:induction false} ExtractedOutlinesSpec(pdfFiles: seq<string>, readPdf: string -> Option<PdfText>)
    ensures var docs := ExtractedOutlines(pdfFiles, readPdf);
      |docs| == |ReadableFiles(pdfFiles, readPdf)| &&
      forall i :: 0 <= i < |docs| ==>
        docs[i].document == ReadableFiles(pdfFiles, readPdf)[i] &&
        readPdf(docs[i].document).Some? &&
        docs[i].outline == OutlineOf(readPdf(docs[i].document).value.layoutText,
                                     readPdf(docs[i].document).value.pageTexts)
    decreases |pdfFiles|
  {
    if pdfFiles != [] {
      ExtractedOutlinesSpec(pdfFiles[..|pdfFiles| - 1], readPdf);
    }
  }

  /** Every readable file is listed, and only input files are. */
  lemma {:induction false} ReadableFilesSpec(pdfFiles: seq<string>, readPdf: string -> Option<PdfText>)
    ensures forall f :: f in ReadableFiles(pdfFiles, readPdf) <==> f in pdfFiles && readPdf(f).Some?
    decreases |pdfFiles|
  {
    if pdfFiles != [] {
      var init := pdfFiles[..|pdfFiles| - 1];
      ReadableFilesSpec(init, readPdf);
      assert pdfFiles == init + [pdfFiles[|pdfFiles| - 1]];
    }
  }

  /**
   * `analyze`: read and outline every file, skipping those whose reading
   * fails; rank the sections of the rest against the persona query; analyse
   * the top ten. The metadata lists every input file in input order.
   */
  method Analyze(pdfFiles: seq<string>, personaDescription: string, jobToBeDone: string,
                 readPdf: string -> Option<PdfText>, similarity: (string, string) -> real)
    returns (report: Report)
    ensures report.metadata == Metadata(pdfFiles, personaDescription, jobToBeDone)
    ensures report.extractedSections ==
      SortByRank(AllSections(ExtractedOutlines(pdfFiles, readPdf),
                             PersonaQuery(personaDescription, jobToBeDone), similarity))
    ensures |report.subSectionAnalyses| ==
      if |report.extractedSections| < TopSectionCount then |report.extractedSections| else TopSectionCount
    ensures forall i :: 0 <= i < |report.subSectionAnalyses| ==>
      report.subSectionAnalyses[i] == AnalyzeSection(report.extractedSections[i])
  {
    var documentOutlines: seq<DocumentOutline> := [];
    for i := 0 to |pdfFiles|
      invariant documentOutlines == ExtractedOutlines(pdfFiles[..i], readPdf)
    {
      var pdf := readPdf(pdfFiles[i]);
      assert pdfFiles[..i + 1][..i] == pdfFiles[..i];
      if pdf.Some? {
        var outline := ExtractOutline(pdf.value.layoutText, pdf.value.pageTexts);
        documentOutlines := documentOutlines + [DocumentOutline(pdfFiles[i], outline)];
      }
    }
    assert pdfFiles[..|pdfFiles|] == pdfFiles;
    var query := PersonaQuery(personaDescription, jobToBeDone);
    var extractedSections := ExtractAndRankSections(documentOutlines, query, similarity);
    var subSectionAnalyses := GenerateSubSectionAnalyses(extractedSections);
    report := Report(Metadata(pdfFiles, personaDescription, jobToBeDone), extractedSections, subSectionAnalyses);
  }

  /**
   * A file whose reading fails contributes no section: every ranked section
   * names an input file that was read, and the number of sections is the
   * number of headings in the outlines of the files that were read.
   */
  lemma SectionsComeFromReadableFiles(pdfFiles: seq<string>, readPdf: string -> Option<PdfText>,
                                      query: string, similarity: (string, string) -> real)
    ensures var docs := ExtractedOutlines(pdfFiles, readPdf);
      var ranked := SortByRank(AllSections(docs, query, similarity));
      |ranked| == TotalHeadings(docs) &&
      forall s :: s in ranked ==> s.document in pdfFiles && readPdf(s.document).Some?
  {
    var docs := ExtractedOutlines(pdfFiles, readPdf);
    var all := AllSections(docs, query, similarity);
    SortByRankSpec(all);
    AllSectionsCount(docs, query, similarity);
    AllSectionsDocuments(docs, query, similarity);
    ExtractedOutlinesSpec(pdfFiles, readPdf);
    ReadableFilesSpec(pdfFiles, readPdf);
    var ranked := SortByRank(all);
    forall s | s in ranked ensures s.document in pdfFiles && readPdf(s.document).Some? {
      assert s in multiset(ranked);
      assert s in all;
      var d :| 0 <= d < |docs| && s.document == docs[d].document;
      assert docs[d].document in ReadableFiles(pdfFiles, readPdf);
    }
  }
}
