/**
 * Outline extraction from already-extracted PDF text: a title taken from the
 * first lines of the layout text, and a flat list of `{level, text, page}`
 * entries taken line by line from the page texts. Levels are decided from
 * the heading text alone; there is no nesting and no use of font sizes.
 */
module PdfProcessor {
  import opened Wrappers
  import opened PyText
  import opened HeadingPatterns

  datatype Level = H1 | H2 | H3

  /** A heading line found on a 1-based page. */
  datatype RawHeading = RawHeading(text: string, page: nat)

  /** One entry of the outline: `{"level", "text", "page"}`. */
  datatype OutlineEntry = OutlineEntry(level: Level, text: string, page: nat)

  /** The result of `extract_outline`: `{"title", "outline"}`. */
  datatype Outline = Outline(title: string, outline: seq<OutlineEntry>)

  /** The level as it is written in the outline JSON. */
  function LevelName(level: Level): (name: string)
    ensures |name| == 2 && name[0] == 'H'
  {
    match level
    case H1 => "H1"
    case H2 => "H2"
    case H3 => "H3"
  }

  // ---------------------------------------------------------------------------
  // _is_heading

  /** One of the four heading regexes matches, tried in their listed order. */
  predicate MatchesHeadingPattern(text: string) {
    AllCapsPattern(text) || NumberedPattern(text) || TitleCasePattern(text) || RomanPattern(text)
  }

  /** The length-and-capitalisation rule tried when no pattern matches. */
  predicate FallbackHeading(text: string)
    requires |text| >= 1
  {
    |text| < 100 && (IsUpper(text) || (IsUpperChar(text[0]) && Count(text, ' ') <= 8))
  }

  /** `_is_heading`: too short is never a heading; a pattern match always is; otherwise the fallback decides. */
  predicate IsHeading(text: string) {
    if |text| < 3 then false
    else if MatchesHeadingPattern(text) then true
    else FallbackHeading(text)
  }

  /** The language of the four patterns, stated without the greedy matcher. */
  ghost predicate HeadingPatternText(text: string) {
    AllCapsText(text) ||
    (exists d: nat, w: nat :: MarkerShape(text, IsDigitChar, d, w)) ||
    TitleCaseText(text) ||
    (exists d: nat, w: nat :: MarkerShape(text, IsRomanChar, d, w))
  }

  lemma MatchesHeadingPatternIff(text: string)
    ensures MatchesHeadingPattern(text) <==> HeadingPatternText(text)
  {
    AllCapsIff(text);
    MarkerPrefixIff(text, IsDigitChar);
    TitleCaseIff(text);
    MarkerPrefixIff(text, IsRomanChar);
  }

  /**
   * `_is_heading` in terms of the pattern languages: texts shorter than three
   * characters are rejected, texts in a pattern language are accepted, and any
   * other text is accepted exactly when the fallback rule holds.
   */
  lemma IsHeadingSpec(text: string)
    ensures |text| < 3 ==> !IsHeading(text)
    ensures |text| >= 3 && HeadingPatternText(text) ==> IsHeading(text)
    ensures |text| >= 3 && !HeadingPatternText(text) ==>
      (IsHeading(text) <==> |text| < 100 && (IsUpper(text) || (IsUpperChar(text[0]) && Count(text, ' ') <= 8)))
  {
    MatchesHeadingPatternIff(text);
  }

  /** Every heading contains an ASCII capital, so a line without one is never a heading. */
  lemma HeadingHasCapital(text: string)
    requires IsHeading(text)
    ensures exists i :: 0 <= i < |text| && IsUpperChar(text[i])
  {
    if NumberedPattern(text) || RomanPattern(text) {
      var marker := if NumberedPattern(text) then IsDigitChar else IsRomanChar;
      var d := RunLen(text, 0, marker);
      var w := RunLen(text, d + 1, IsSpaceChar);
      assert IsUpperChar(text[d + 1 + w]);
    } else {
      assert IsUpperChar(text[0]) || IsUpper(text);
    }
  }

  // ---------------------------------------------------------------------------
  // _determine_heading_level

  /** The H1 rule: a numbered or Roman-numbered start, or all upper-case and longer than five. */
  predicate H1Rule(text: string) {
    NumberedPattern(text) || RomanPattern(text) || (IsUpper(text) && |text| > 5)
  }

  /** `_determine_heading_level`: H1 by the H1 rule, H2 for medium-length Title Case, H3 otherwise. */
  function DetermineHeadingLevel(text: string): Level {
    if H1Rule(text) then H1
    else if TitleCasePattern(text) && |text| > 10 && |text| < 50 then H2
    else H3
  }

  /** A Title Case text starts with a capital and a small letter, so the H1 rule never holds. */
  lemma TitleCaseIsNotH1(text: string)
    requires TitleCasePattern(text)
    ensures !H1Rule(text)
  {
    assert IsLowerChar(text[1]);
    assert RunLen(text, 0, IsDigitChar) == 0;
    if IsRomanChar(text[0]) {
      assert RunLen(text, 1, IsRomanChar) == 0;
    }
  }

  /**
   * The H1 condition stated without the greedy matchers: the text starts with
   * digits or Roman numerals, a dot, whitespace and a capital, or it is upper
   * case and longer than five characters.
   */
  ghost predicate ChapterHeadingText(text: string) {
    (exists d: nat, w: nat :: MarkerShape(text, IsDigitChar, d, w)) ||
    (exists d: nat, w: nat :: MarkerShape(text, IsRomanChar, d, w)) ||
    (IsUpper(text) && |text| > 5)
  }

  /**
   * The three levels, each stated over the pattern languages rather than the
   * matchers: H1 exactly for chapter-heading text, H2 exactly for Title Case
   * text of length 11 to 49, H3 for everything else.
   */
  lemma DetermineHeadingLevelSpec(text: string)
    ensures DetermineHeadingLevel(text) == H1 <==> ChapterHeadingText(text)
    ensures DetermineHeadingLevel(text) == H2 <==> TitleCaseText(text) && 10 < |text| < 50
    ensures DetermineHeadingLevel(text) == H3 <==>
      !ChapterHeadingText(text) && !(TitleCaseText(text) && 10 < |text| < 50)
  {
    MarkerPrefixIff(text, IsDigitChar);
    MarkerPrefixIff(text, IsRomanChar);
    TitleCaseIff(text);
    if TitleCasePattern(text) {
      TitleCaseIsNotH1(text);
    }
  }

  /** An ALL CAPS line longer than five characters is a chapter heading. */
  lemma AllCapsIsH1(text: string)
    requires AllCapsText(text) && |text| > 5
    ensures DetermineHeadingLevel(text) == H1
  {
    assert IsUpperChar(text[0]);
    assert forall i :: 0 <= i < |text| ==> !IsLowerChar(text[i]) by {
      forall i | 0 <= i < |text| ensures !IsLowerChar(text[i]) {
        if i > 0 { assert IsUpperOrSpace(text[i]); }
      }
    }
  }

  // ---------------------------------------------------------------------------
  // _extract_title

  const UntitledDocument: string := "Untitled Document"

  /** `_extract_title`'s test on a stripped line. */
  predicate TitleQualifies(line: string) {
    3 < |line| < 200 &&
    (IsUpper(line) || (IsUpperChar(line[0]) && Count(line, ' ') <= 10) || TitleCasePattern(line))
  }

  /** Line `i` is the first whose stripped form passes `qualifies`. */
  predicate FirstQualifyingAt(lines: seq<string>, qualifies: string -> bool, i: nat) {
    i < |lines| && qualifies(Strip(lines[i])) &&
    forall j :: 0 <= j < i ==> !qualifies(Strip(lines[j]))
  }

  /**
   * The loop of `_extract_title` with its early return: the first stripped
   * line that passes `qualifies`, if there is one.
   */
  function FirstQualifying(lines: seq<string>, qualifies: string -> bool): (r: Option<string>)
    ensures r.None? <==> forall i :: 0 <= i < |lines| ==> !qualifies(Strip(lines[i]))
    ensures r.Some? ==> exists i: nat :: FirstQualifyingAt(lines, qualifies, i) && r.value == Strip(lines[i])
  {
    if lines == [] then None
    else if qualifies(Strip(lines[0])) then Some(Strip(lines[0]))
    else
      var rest := FirstQualifying(lines[1..], qualifies);
      assert rest.Some? ==> exists i: nat :: FirstQualifyingAt(lines, qualifies, i) && rest.value == Strip(lines[i]) by {
        if rest.Some? {
          var i: nat :| FirstQualifyingAt(lines[1..], qualifies, i) && rest.value == Strip(lines[1..][i]);
          assert FirstQualifyingAt(lines, qualifies, i + 1);
        }
      }
      rest
  }

  /** The lines `_extract_title` looks at: the first ten of the layout text. */
  function TitleWindow(text: string): seq<string> {
    Take(Split(text, '\n'), 10)
  }

  /** `_extract_title`: the first qualifying stripped line among the first ten, else "Untitled Document". */
  function ExtractTitle(text: string): string {
    match FirstQualifying(TitleWindow(text), TitleQualifies)
    case None => UntitledDocument
    case Some(line) => line
  }

  /**
   * The title is "Untitled Document" when no stripped line among the first ten
   * qualifies; otherwise it is the first stripped line that does.
   */
  lemma ExtractTitleSpec(text: string)
    ensures var lines := TitleWindow(text);
      |lines| <= 10 &&
      ((forall i :: 0 <= i < |lines| ==> !TitleQualifies(Strip(lines[i]))) ==> ExtractTitle(text) == UntitledDocument) &&
      ((exists i :: 0 <= i < |lines| && TitleQualifies(Strip(lines[i]))) ==>
        exists i: nat :: FirstQualifyingAt(lines, TitleQualifies, i) && ExtractTitle(text) == Strip(lines[i]))
  {
    var lines := TitleWindow(text);
    var r := FirstQualifying(lines, TitleQualifies);
    if r.Some? {
      var i: nat :| FirstQualifyingAt(lines, TitleQualifies, i) && r.value == Strip(lines[i]);
      assert FirstQualifyingAt(lines, TitleQualifies, i) && ExtractTitle(text) == Strip(lines[i]);
    }
  }

  /** A title is 4 to 199 characters long and has no whitespace at either end. */
  lemma ExtractTitleShape(text: string)
    ensures var title := ExtractTitle(text); 3 < |title| < 200 && IsStripped(title)
  {
    var lines := TitleWindow(text);
    var r := FirstQualifying(lines, TitleQualifies);
    if r.Some? {
      var i: nat :| FirstQualifyingAt(lines, TitleQualifies, i) && r.value == Strip(lines[i]);
      StripSpec(lines[i]);
    }
  }

  // ---------------------------------------------------------------------------
  // _extract_headings_with_pages

  /** The stripped lines that pass `isHeading`, in line order, tagged with `page`. */
  function PageHeadings(lines: seq<string>, page: nat, isHeading: string -> bool): seq<RawHeading> {
    if lines == [] then []
    else
      var line := Strip(lines[|lines| - 1]);
      PageHeadings(lines[..|lines| - 1], page, isHeading) +
        (if isHeading(line) then [RawHeading(line, page)] else [])
  }

  /** The headings of all pages in page order; page `k` of the list is page number `k + 1`. */
  function HeadingsOfPages(pages: seq<string>, isHeading: string -> bool): seq<RawHeading> {
    if pages == [] then []
    else
      HeadingsOfPages(pages[..|pages| - 1], isHeading) +
        PageHeadings(Split(pages[|pages| - 1], '\n'), |pages|, isHeading)
  }

  /**
   * `_extract_headings_with_pages` over the given page texts: for each page,
   * split it into lines, strip each line and keep those that are headings.
   */
  method ExtractHeadingsWithPages(pages: seq<string>) returns (headings: seq<RawHeading>)
    ensures headings == HeadingsOfPages(pages, IsHeading)
  {
    headings := [];
    var pageNum := 0;
    while pageNum < |pages|
      invariant 0 <= pageNum <= |pages|
      invariant headings == HeadingsOfPages(pages[..pageNum], IsHeading)
    {
      var lines := Split(pages[pageNum], '\n');
      var k := 0;
      while k < |lines|
        invariant 0 <= k <= |lines|
        invariant headings == HeadingsOfPages(pages[..pageNum], IsHeading) + PageHeadings(lines[..k], pageNum + 1, IsHeading)
      {
        var line := Strip(lines[k]);
        if IsHeading(line) {
          headings := headings + [RawHeading(line, pageNum + 1)];
        }
        assert lines[..k + 1][..k] == lines[..k];
        k := k + 1;
      }
      assert lines[..k] == lines;
      assert pages[..pageNum + 1][..pageNum] == pages[..pageNum];
      pageNum := pageNum + 1;
    }
    assert pages[..pageNum] == pages;
  }

  /** Line `k` of `lines`, stripped, is `text`. */
  predicate IsStrippedLineOf(text: string, lines: seq<string>) {
    exists k :: 0 <= k < |lines| && text == Strip(lines[k])
  }

  /** Every heading of a page is a stripped line of that page that passes the test. */
  lemma {:induction false} PageHeadingsSound(lines: seq<string>, page: nat, isHeading: string -> bool)
    ensures forall h :: h in PageHeadings(lines, page, isHeading) ==>
      h.page == page && isHeading(h.text) && IsStrippedLineOf(h.text, lines)
    decreases |lines|
  {
    if lines != [] {
      var init := lines[..|lines| - 1];
      PageHeadingsSound(init, page, isHeading);
      forall h | h in PageHeadings(lines, page, isHeading)
        ensures h.page == page && isHeading(h.text) && IsStrippedLineOf(h.text, lines)
      {
        if h in PageHeadings(init, page, isHeading) {
          var k :| 0 <= k < |init| && h.text == Strip(init[k]);
          assert h.text == Strip(lines[k]);
        } else {
          assert h.text == Strip(lines[|lines| - 1]);
        }
      }
    }
  }

  /** Every stripped line of the page that passes the test is among the page's headings. */
  lemma {:induction false} PageHeadingsComplete(lines: seq<string>, page: nat, isHeading: string -> bool)
    ensures forall k :: 0 <= k < |lines| && isHeading(Strip(lines[k])) ==>
      RawHeading(Strip(lines[k]), page) in PageHeadings(lines, page, isHeading)
    decreases |lines|
  {
    if lines != [] {
      var init := lines[..|lines| - 1];
      PageHeadingsComplete(init, page, isHeading);
      forall k | 0 <= k < |lines| - 1 && isHeading(Strip(lines[k]))
        ensures RawHeading(Strip(lines[k]), page) in PageHeadings(lines, page, isHeading)
      {
        assert lines[k] == init[k];
      }
    }
  }

  /**
   * Every extracted heading names a page between 1 and the number of pages,
   * is a stripped line of that page, and passes the test.
   */
  lemma {:induction false} HeadingsOfPagesSound(pages: seq<string>, isHeading: string -> bool)
    ensures forall h :: h in HeadingsOfPages(pages, isHeading) ==>
      1 <= h.page <= |pages| && isHeading(h.text) && IsStrippedLineOf(h.text, Split(pages[h.page - 1], '\n'))
    decreases |pages|
  {
    if pages != [] {
      var init := pages[..|pages| - 1];
      HeadingsOfPagesSound(init, isHeading);
      PageHeadingsSound(Split(pages[|pages| - 1], '\n'), |pages|, isHeading);
      forall h | h in HeadingsOfPages(pages, isHeading)
        ensures 1 <= h.page <= |pages| && isHeading(h.text) && IsStrippedLineOf(h.text, Split(pages[h.page - 1], '\n'))
      {
        if h in HeadingsOfPages(init, isHeading) {
          assert pages[h.page - 1] == init[h.page - 1];
        }
      }
    }
  }

  lemma {:induction false} PageHeadingsOnPage(lines: seq<string>, page: nat, isHeading: string -> bool)
    ensures forall i :: 0 <= i < |PageHeadings(lines, page, isHeading)| ==>
      PageHeadings(lines, page, isHeading)[i].page == page
    decreases |lines|
  {
    if lines != [] {
      PageHeadingsOnPage(lines[..|lines| - 1], page, isHeading);
    }
  }

  /** Page numbers are 1-based, at most the number of pages, and never decrease along the extracted headings. */
  lemma {:induction false} HeadingsOfPagesOrdered(pages: seq<string>, isHeading: string -> bool)
    ensures forall i :: 0 <= i < |HeadingsOfPages(pages, isHeading)| ==>
      1 <= HeadingsOfPages(pages, isHeading)[i].page <= |pages|
    ensures forall i, j :: 0 <= i <= j < |HeadingsOfPages(pages, isHeading)| ==>
      HeadingsOfPages(pages, isHeading)[i].page <= HeadingsOfPages(pages, isHeading)[j].page
    decreases |pages|
  {
    if pages != [] {
      var init := pages[..|pages| - 1];
      var before := HeadingsOfPages(init, isHeading);
      var last := PageHeadings(Split(pages[|pages| - 1], '\n'), |pages|, isHeading);
      HeadingsOfPagesOrdered(init, isHeading);
      PageHeadingsOnPage(Split(pages[|pages| - 1], '\n'), |pages|, isHeading);
      var all := HeadingsOfPages(pages, isHeading);
      assert all == before + last;
      forall i | 0 <= i < |all| ensures 1 <= all[i].page <= |pages| {
        if i < |before| {
          assert all[i] == before[i];
        } else {
          assert all[i] == last[i - |before|];
        }
      }
      forall i, j | 0 <= i <= j < |all| ensures all[i].page <= all[j].page {
        if j < |before| {
          assert all[i] == before[i] && all[j] == before[j];
        } else if i < |before| {
          assert all[i] == before[i] && all[j] == last[j - |before|];
        } else {
          assert all[i] == last[i - |before|] && all[j] == last[j - |before|];
        }
      }
    }
  }

  /** The headings of `hs` that lie on page `page`, in order. */
  function OnPage(hs: seq<RawHeading>, page: nat): seq<RawHeading> {
    if hs == [] then []
    else OnPage(hs[..|hs| - 1], page) + (if hs[|hs| - 1].page == page then [hs[|hs| - 1]] else [])
  }

  lemma {:induction false} OnPageAppend(a: seq<RawHeading>, b: seq<RawHeading>, page: nat)
    ensures OnPage(a + b, page) == OnPage(a, page) + OnPage(b, page)
    decreases |b|
  {
    if b == [] {
      assert a + b == a;
    } else {
      var b' := b[..|b| - 1];
      assert (a + b)[..|a + b| - 1] == a + b';
      assert (a + b)[|a + b| - 1] == b[|b| - 1];
      OnPageAppend(a, b', page);
    }
  }

  lemma {:induction false} OnPageOfPage(lines: seq<string>, page: nat, isHeading: string -> bool, p: nat)
    ensures OnPage(PageHeadings(lines, page, isHeading), p) ==
      if p == page then PageHeadings(lines, page, isHeading) else []
    decreases |lines|
  {
    if lines != [] {
      var init := lines[..|lines| - 1];
      var line := Strip(lines[|lines| - 1]);
      var tail: seq<RawHeading> := if isHeading(line) then [RawHeading(line, page)] else [];
      OnPageOfPage(init, page, isHeading, p);
      OnPageAppend(PageHeadings(init, page, isHeading), tail, p);
      if isHeading(line) {
        assert tail[..0] == [];
      }
    }
  }

  lemma {:induction false} OnPageNone(hs: seq<RawHeading>, page: nat)
    requires forall i :: 0 <= i < |hs| ==> hs[i].page < page
    ensures OnPage(hs, page) == []
    decreases |hs|
  {
    if hs != [] {
      OnPageNone(hs[..|hs| - 1], page);
    }
  }

  /**
   * Within a page, headings keep line order: the extracted headings on page
   * `p` are exactly that page's passing stripped lines, in the order they appear.
   */
  lemma {:induction false} HeadingsOfPagesByPage(pages: seq<string>, isHeading: string -> bool, p: nat)
    requires 1 <= p <= |pages|
    ensures OnPage(HeadingsOfPages(pages, isHeading), p) == PageHeadings(Split(pages[p - 1], '\n'), p, isHeading)
    decreases |pages|
  {
    var init := pages[..|pages| - 1];
    var lastLines := Split(pages[|pages| - 1], '\n');
    OnPageAppend(HeadingsOfPages(init, isHeading), PageHeadings(lastLines, |pages|, isHeading), p);
    OnPageOfPage(lastLines, |pages|, isHeading, p);
    if p < |pages| {
      HeadingsOfPagesByPage(init, isHeading, p);
      assert init[p - 1] == pages[p - 1];
    } else {
      var before := HeadingsOfPages(init, isHeading);
      HeadingsOfPagesOrdered(init, isHeading);
      OnPageNone(before, p);
    }
  }

  // ---------------------------------------------------------------------------
  // _classify_heading_levels and extract_outline

  /** The outline entry for one heading: its level from its text, text and page unchanged. */
  function Classify(h: RawHeading): OutlineEntry {
    OutlineEntry(DetermineHeadingLevel(h.text), h.text, h.page)
  }

  function ClassifyAll(hs: seq<RawHeading>): seq<OutlineEntry> {
    seq(|hs|, i requires 0 <= i < |hs| => Classify(hs[i]))
  }

  /**
   * `_classify_heading_levels`: one entry per heading, same order, text and
   * page copied, level decided from the text alone.
   */
  method ClassifyHeadingLevels(headings: seq<RawHeading>) returns (classified: seq<OutlineEntry>)
    ensures |classified| == |headings|
    ensures forall i :: 0 <= i < |headings| ==>
      classified[i].text == headings[i].text && classified[i].page == headings[i].page &&
      classified[i].level == DetermineHeadingLevel(headings[i].text)
    ensures classified == ClassifyAll(headings)
  {
    classified := [];
    for i := 0 to |headings|
      invariant |classified| == i
      invariant forall k :: 0 <= k < i ==>
        classified[k].text == headings[k].text && classified[k].page == headings[k].page &&
        classified[k].level == DetermineHeadingLevel(headings[k].text)
    {
      var text := headings[i].text;
      var level := DetermineHeadingLevel(text);
      classified := classified + [OutlineEntry(level, text, headings[i].page)];
    }
  }

  /** The outline `extract_outline` returns for a layout text and the page texts. */
  function OutlineOf(layoutText: string, pages: seq<string>): Outline {
    Outline(ExtractTitle(layoutText), ClassifyAll(HeadingsOfPages(pages, IsHeading)))
  }

  /** `extract_outline` once the PDF text has been read: title, then headings, then levels. */
  method ExtractOutline(layoutText: string, pages: seq<string>) returns (result: Outline)
    ensures result == OutlineOf(layoutText, pages)
  {
    var title := ExtractTitle(layoutText);
    var headings := ExtractHeadingsWithPages(pages);
    var classified := ClassifyHeadingLevels(headings);
    assert classified == ClassifyAll(headings);
    result := Outline(title, classified);
  }

  /**
   * What an outline guarantees: every entry is a stripped heading line of the
   * page it names, its level is decided by its text, and pages never decrease.
   */
  lemma OutlineOfSound(layoutText: string, pages: seq<string>)
    ensures var entries := OutlineOf(layoutText, pages).outline;
      (forall i :: 0 <= i < |entries| ==>
        1 <= entries[i].page <= |pages| && IsHeading(entries[i].text) &&
        entries[i].level == DetermineHeadingLevel(entries[i].text) &&
        IsStrippedLineOf(entries[i].text, Split(pages[entries[i].page - 1], '\n'))) &&
      (forall i, j :: 0 <= i <= j < |entries| ==> entries[i].page <= entries[j].page)
  {
    var hs := HeadingsOfPages(pages, IsHeading);
    HeadingsOfPagesSound(pages, IsHeading);
    HeadingsOfPagesOrdered(pages, IsHeading);
    var entries := OutlineOf(layoutText, pages).outline;
    forall i | 0 <= i < |entries|
      ensures 1 <= entries[i].page <= |pages| && IsHeading(entries[i].text) &&
        IsStrippedLineOf(entries[i].text, Split(pages[entries[i].page - 1], '\n'))
    {
      assert hs[i] in hs;
    }
  }
}
