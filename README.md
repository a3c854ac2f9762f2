# Outline extraction and persona ranking, modelled in Dafny

This project models the two pieces of logic in the PDF outline service that sit between the PDF
libraries and the sentence-embedding model:

- **Outline extraction** (`backend/pdf_processor.py`). Each page's text is split into lines and
  every line is stripped. A line becomes a heading when it matches one of four regexes (ALL CAPS,
  `N. X` numbering, Title Case, Roman `IV. X` numbering) or a fallback rule on length and
  capitalisation. Each heading gets a level H1, H2 or H3 from its text alone. The title is the
  first qualifying line among the first ten lines of the layout text, or `"Untitled Document"`.
  The outline is a flat ordered list of `{level, text, page}`.
- **Persona ranking** (`backend/persona_analyzer.py`). Every heading of every document that could
  be read becomes a section. Its importance is its similarity to the persona query times a level
  weight, clamped to [0, 1]. The pooled sections are stably sorted by importance, highest first.
  The first ten get a refined text and a relevance explanation, whose bands come from the raw
  similarity.

Files:

- `wrappers.dfy`: `Option`.
- `py_text.dfy` (`PyText`): the Python string behaviour the heuristics rely on, restricted to
  ASCII. This covers character classes, `isupper`, `count`, `strip`, `split`/`join`, `xs[:n]` and
  `str(n)` for a non-negative integer.
- `heading_patterns.dfy` (`HeadingPatterns`): the four heading regexes. Each is written the way
  `re.match` runs it, with greedy runs and `$`. Each is proved equal to an independent description
  of the language it accepts.
- `pdf_processor.dfy` (`PdfProcessor`): `_is_heading`, `_determine_heading_level`,
  `_extract_title`, `_extract_headings_with_pages`, `_classify_heading_levels` and
  `extract_outline`.
- `persona_analyzer.dfy` (`PersonaAnalyzer`): `_calculate_importance_rank`, the stable sort,
  `_extract_and_rank_sections`, `_generate_refined_text`, `_explain_relevance`,
  `_generate_sub_section_analyses` and `analyze`.

Modelling assumptions:

- **Text is ASCII.** Whitespace is the set Python's `str.isspace`, `str.strip()` and the regex
  class `\s` agree on: characters 9 to 13 and 28 to 32. `isupper` means at least one of `A`–`Z`
  and none of `a`–`z`.
- **`$` in a regex** succeeds at the end of the text or just before a final `'\n'`, as in Python.
- **Reading a PDF** is a parameter `readPdf: string -> Option<PdfText>`. It gives the layout text
  (pdfminer) and the page texts (PyPDF2), or `None` when `extract_outline` would raise.
- **Similarity** is a parameter `similarity: (string, string) -> real`, applied to the section text
  and the persona query `persona + " " + job`. In the source it is the cosine similarity of two
  sentence embeddings.
- **Numbers** are Dafny `real`s.
- **Loops become methods.** The loops that append to a list are `method`s with `while`/`for`
  loops, each proved equal to a specification function, and the properties are lemmas about those
  functions:
  - `ExtractHeadingsWithPages` equals the recursive `HeadingsOfPages`;
  - `ExtractAndRankSections` equals `SortByRank` of the recursive `AllSections`;
  - `Analyze` builds the recursive `ExtractedOutlines`;
  - `ClassifyHeadingLevels` equals the element-wise map `ClassifyAll`;
  - `GenerateSubSectionAnalyses` equals the element-wise map `AnalysesOf`.
- **The title scan is a function.** The loop of `_extract_title` returns early at the first
  qualifying line, so it is the recursive function `FirstQualifying`, not a method.

What the code does, and therefore what the model does:

- The outline is a flat list, not a tree with nesting.
- Font sizes are never used.
- Levels come from text rules.
- Equal importance keeps insertion order. There is no tie-break on similarity, document or page.
- The first ten sections are analysed.
- The bands come from the raw similarity with thresholds 0.7/0.5 and 0.8/0.6, not from the
  importance.
- A document that fails is skipped, with no error record in the result. The source only prints
  a message. The document is still listed in the metadata.

## Model

| member | source | states |
|---|---|---|
| PyText.IsUpperIff | backend/pdf_processor.py:118 | `s.isupper()` holds exactly when upper-casing leaves `s` unchanged and lower-casing changes it, that is, there is a capital and no small letter |
| PyText.Count | backend/pdf_processor.py:119 | `s.count(c)` is at most the length and is zero exactly when `c` does not occur |
| PyText.StripSpec | backend/pdf_processor.py:96 | `strip()` leaves no whitespace at either end and returns the infix of the line between a whitespace-only prefix and a whitespace-only suffix |
| PyText.StripIdempotent | backend/pdf_processor.py:96 | stripping an already stripped line changes nothing |
| PyText.Split | backend/pdf_processor.py:93 | `split('\n')` returns at least one piece and no piece contains a newline |
| PyText.JoinSplit | backend/pdf_processor.py:93 | joining the pieces of `split` with the separator gives back the text, so no character is lost |
| PyText.SplitJoin | backend/pdf_processor.py:67 | splitting a join of newline-free lines gives back exactly those lines |
| PyText.Take | backend/pdf_processor.py:67 | `lines[:10]` has `min(10, n)` elements, the first ones in order |
| PyText.NatToString | backend/persona_analyzer.py:153 | `str(page)` is a non-empty run of decimal digits with no leading zero |
| PyText.DecimalRoundTrip | backend/persona_analyzer.py:153 | reading the decimal digits of `str(page)` gives the page back |
| HeadingPatterns.RunLenExact | backend/pdf_processor.py:21-26 | a greedy run that is followed by a character outside its class has exactly that length |
| HeadingPatterns.AllCapsIff | backend/pdf_processor.py:22 | `^[A-Z][A-Z\s]{2,}$` matches exactly the texts of three or more characters that start with a capital and contain only capitals and whitespace |
| HeadingPatterns.MarkerPrefixIff | backend/pdf_processor.py:23-25 | the greedy numbered and Roman prefix matchers succeed exactly when the text starts with markers, a dot, whitespace and a capital |
| HeadingPatterns.TitleCaseIff | backend/pdf_processor.py:24 | the Title Case regex, with `$` allowing one final newline, accepts exactly the capitalised words separated by whitespace |
| PdfProcessor.MatchesHeadingPatternIff | backend/pdf_processor.py:111-114 | a text matches one of the four patterns exactly when it lies in one of the four pattern languages |
| PdfProcessor.IsHeadingSpec | backend/pdf_processor.py:106-122 | texts under three characters are rejected, texts in a pattern language are accepted, and any other text is accepted exactly when it is under 100 characters and is all upper case or starts with a capital and has at most eight spaces |
| PdfProcessor.HeadingHasCapital | backend/pdf_processor.py:106-122 | every accepted heading contains an ASCII capital |
| PdfProcessor.TitleCaseIsNotH1 | backend/pdf_processor.py:143-151 | a Title Case text never meets the H1 rule, so the H2 branch is reachable |
| PdfProcessor.DetermineHeadingLevelSpec | backend/pdf_processor.py:140-154 | over the pattern languages rather than the matchers: H1 exactly when the text starts with digits or Roman numerals, a dot, whitespace and a capital, or is upper case and longer than five; H2 exactly for Title Case text of length 11 to 49; H3 exactly otherwise |
| PdfProcessor.AllCapsIsH1 | backend/pdf_processor.py:143-146 | an ALL CAPS heading longer than five characters is H1 |
| PdfProcessor.FirstQualifying | backend/pdf_processor.py:69-78 | the early-return scan returns nothing exactly when no stripped line qualifies, and otherwise the first stripped line that does |
| PdfProcessor.ExtractTitleSpec | backend/pdf_processor.py:65-78 | the title is "Untitled Document" when none of the first ten stripped lines qualifies, and otherwise the first one that does |
| PdfProcessor.ExtractTitleShape | backend/pdf_processor.py:70-71 | every title is 4 to 199 characters long with no whitespace at either end |
| PdfProcessor.ExtractHeadingsWithPages | backend/pdf_processor.py:80-104 | the nested page and line loops produce exactly the passing stripped lines of every page, page after page and line after line, tagged with 1-based page numbers |
| PdfProcessor.PageHeadingsSound | backend/pdf_processor.py:93-102 | every heading of a page carries that page and is a stripped line of it that passes the test |
| PdfProcessor.PageHeadingsComplete | backend/pdf_processor.py:95-102 | every stripped line of a page that passes the test is among that page's headings |
| PdfProcessor.HeadingsOfPagesSound | backend/pdf_processor.py:88-102 | every extracted heading names a page from 1 to the page count and is a passing stripped line of that page |
| PdfProcessor.HeadingsOfPagesOrdered | backend/pdf_processor.py:88-100 | page numbers are 1-based, at most the page count, and never decrease along the headings |
| PdfProcessor.HeadingsOfPagesByPage | backend/pdf_processor.py:88-102 | the headings on page `p` are exactly that page's passing stripped lines, in line order |
| PdfProcessor.ClassifyHeadingLevels | backend/pdf_processor.py:124-138 | one entry per heading in the same order, with text and page copied and the level decided from the text alone; the loop equals the element-wise map `ClassifyAll` |
| PdfProcessor.ExtractOutline | backend/pdf_processor.py:32-56 | the outline is the title of the layout text and the classified headings of the page texts |
| PdfProcessor.OutlineOfSound | backend/pdf_processor.py:32-56 | every outline entry is a heading, a stripped line of the page it names, with the level of its text, and pages never decrease |
| PersonaAnalyzer.ImportanceRank | backend/persona_analyzer.py:101-116 | the rank is in [0, 1]; it is the similarity times the level weight when that lies in [0, 1], and 0 below and 1 above |
| PersonaAnalyzer.H2RankIsSimilarity | backend/persona_analyzer.py:107-113 | for H2 a similarity in [0, 1] is its own rank |
| PersonaAnalyzer.ImportanceRankMonotone | backend/persona_analyzer.py:101-116 | a higher similarity never gives a lower rank at the same level |
| PersonaAnalyzer.ImportanceRankByLevel | backend/persona_analyzer.py:104-116 | at equal similarity, whatever its sign, H1 ranks at least as high as H2 and H2 at least as high as H3 |
| PersonaAnalyzer.SortByRankSpec | backend/persona_analyzer.py:96-97 | the sort returns a permutation of the sections, with importance never increasing, and keeps the input order among sections of equal rank |
| PersonaAnalyzer.AllSectionsCount | backend/persona_analyzer.py:70-94 | there is exactly one section per outline heading over all documents |
| PersonaAnalyzer.AllSectionsAt | backend/persona_analyzer.py:70-94 | heading `k` of document `d` becomes the section after the headings of the earlier documents and the first `k` of its own, carrying its document, page, text and level |
| PersonaAnalyzer.AllSectionsDocuments | backend/persona_analyzer.py:70-94 | every section names one of the given documents |
| PersonaAnalyzer.ExtractAndRankSections | backend/persona_analyzer.py:66-99 | the loops build the sections document by document and heading by heading, and the result is their stable sort by importance |
| PersonaAnalyzer.TiersMonotone | backend/persona_analyzer.py:142-168 | both relevance bands rise with the similarity, and the explanation band never exceeds the refined-text band |
| PersonaAnalyzer.RefinedTextRoundTrip | backend/persona_analyzer.py:139-156 | the refined text determines the title, the band of the raw similarity (above 0.7, above 0.5, else) and the page, since parsing it gives back exactly those |
| PersonaAnalyzer.ExplanationRoundTrip | backend/persona_analyzer.py:158-168 | the explanation determines the title and the band of the raw similarity (above 0.8, above 0.6, else), since parsing it gives back exactly those |
| PersonaAnalyzer.GenerateSubSectionAnalyses | backend/persona_analyzer.py:118-137 | there are `min(10, n)` analyses, matching the first ranked sections in order, with document, page and title copied and both texts from the section's raw similarity; the loop equals `AnalysesOf`, the analyses of the first ten sections |
| PersonaAnalyzer.ExtractedOutlinesSpec | backend/persona_analyzer.py:24-35 | the outlines are those of exactly the files that could be read, in input order, each the outline of that file's text |
| PersonaAnalyzer.ReadableFilesSpec | backend/persona_analyzer.py:26-35 | a file is among the processed ones exactly when it is an input and reading it succeeds |
| PersonaAnalyzer.Analyze | backend/persona_analyzer.py:16-59 | the metadata lists every input file in input order; the sections are the ranked sections of the readable files for the query persona plus job; the analyses are those of the first ten sections |
| PersonaAnalyzer.SectionsComeFromReadableFiles | backend/persona_analyzer.py:24-41 | a file that fails contributes no section: every ranked section names a readable input, and there is one per heading of the readable files |

## Left out

- PDF parsing (pdfminer's layout text and PyPDF2's page texts) is foreign library code. The texts are inputs through `readPdf`.
- The model loading, the sentence encoder and `cosine_similarity` are foreign numeric code. They are the `similarity` parameter. Floating point is modelled as exact reals, and NaN is not modelled.
- `get_model_size` in both classes is not part of this model. It reads model parameters only.
- The `timestamp` and `processing_time` fields of the metadata and the error `print` are not modelled. They are clock reads and logging.
- `backend/main.py` and `cli.py` are not part of this model. They are HTTP routing, file handling and the 3-to-10 batch-size check that callers make before `analyze`.
- The font-size thresholds in the `PDFProcessor` constructor are not modelled. No code reads them.
- The `position` argument of `_determine_heading_level` and the `persona_description` argument of the two text generators are dropped. The code never reads them.
- The `raw_text` field of an extracted heading is not modelled. It always equals `text`, and classification drops it.
- Non-ASCII text is not modelled. Python's Unicode `isupper`, `strip` and `\s` agree with the model on ASCII only.
- PersonaAnalyzer.ExtractAndRankSections: Python's in-place `list.sort` is modelled as a function on sequences (a stable insertion sort), not as an in-place algorithm, because the library's sorting algorithm is not part of the source.
- PersonaAnalyzer.Analyze: any exception raised by `extract_outline` is the `None` result of `readPdf`. The model does not distinguish the kinds of failure.
