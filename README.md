# RFP 2.0 — a verified model of the proposal pipeline's deterministic core

RFP 2.0 reads a client's request for proposal (RFP) and analyses it. It then drafts a proposal from a knowledge base of past answers and scores vendor responses. This project models the parts of it that involve no language model, embedding model or file system:

- **Text sanitising** (`utils.remove_problematic_chars`). Typographic characters are replaced by ASCII. The text then goes through a Latin-1 round trip. Finally, everything outside printable ASCII, tab, newline, carriage return and the no-break space is dropped.
- **The knowledge base** (`ProposalKnowledgeBase`):
  - query expansion with domain synonyms;
  - splitting a Markdown file into `#`/`##` sections;
  - reading metadata tags from file names;
  - loading the documents and the section index;
  - the merge step of the hybrid search and the union step of the multi-hop search;
  - section lookups;
  - extracting `Rs` prices from the `COMMERCIAL PROPOSAL` section of Markdown files.
- **RFP intake** (`document_processing.py`):
  - turning DOCX tables and paragraphs into lines;
  - joining PDF pages;
  - choosing the reader from the file suffix;
  - the three header patterns that split an RFP into sections.
- **Proposal analysis** (`generation_engine.py`):
  - the marker-delimited extractors that pull requirement lists out of an analysis text;
  - the weighted score and grade of a vendor analysis;
  - the similarity thresholds and risk keywords of the gap check;
  - the client-specificity check of a drafted proposal.

Python's dictionaries keep insertion order, so every dictionary is modelled as a sequence of key/value pairs with distinct keys (`OrderedDict`). Python's `sorted(..., reverse=True)` is modelled as a stable descending sort of indices (`Ranking`). String operations (`strip`, `split`, `join`, `find`, `count`, `lower`, `title`, slicing) are written out in `TextOps`. The sanitizer is modelled twice: once as written (eleven chained replacements, then the Latin-1 step, then the filter), and once as a per-character image. The two are proved equal.

The code is followed where its behaviour differs from its comments. For example, the regular expression of `extract_weighted_criteria` is lazy and anchored at the start of a stripped line. It therefore always captures an empty criterion and never reads a weight. `RfpExtraction.WeightedCriteriaShape` proves that the result is either the default list or a list of `("", 100)` entries.

Module layout:

| file | module | models |
|---|---|---|
| wrappers.dfy | Wrappers | `Option`, `Result` |
| text_ops.dfy | TextOps | Python string operations |
| sanitizer.dfy | Sanitizer | `remove_problematic_chars` |
| ordered_dict.dfy | OrderedDict | insertion-ordered `dict` |
| ranking.dfy | Ranking | stable descending sort |
| kb_text.dfy | KbText | `expand_query`, `_split_into_sections`, file-name metadata |
| knowledge_base.dfy | KnowledgeBase | `ProposalKnowledgeBase` |
| kb_pricing.dfy | KbPricing | `extract_pricing_from_kb` |
| rfp_text.dfy | RfpText | `extract_text_from_docx`, `extract_text_from_pdf`, `process_rfp` |
| rfp_sections.dfy | RfpSections | `extract_sections_from_rfp` |
| rfp_extraction.dfy | RfpExtraction | `extract_mandatory_criteria`, `extract_weighted_criteria`, `extract_deadlines`, `extract_deliverables`, `extract_required_sections` |
| scoring.dfy | Scoring | `calculate_weighted_score` |
| proposal_checks.dfy | ProposalChecks | `identify_gaps_and_risks`, `validate_proposal_client_specificity` |

## Model

| member | source | states |
|---|---|---|
| Sanitizer.RemoveProblematicChars | utils.py:15-64 | the result contains only printable ASCII, tab, newline, carriage return and the no-break space |
| Sanitizer.Clean | utils.py:19-20 | a non-string argument is returned unchanged; a string becomes sanitized text |
| Sanitizer.ReplaceEncodeFilter | utils.py:22-64 | the chained form as written yields sanitized text |
| Sanitizer.ReplaceChar | utils.py:22-32 | after `str.replace`, the replaced character no longer occurs unless the replacement contains it |
| Sanitizer.Latin1RoundTrip | utils.py:36-40 | the Latin-1 encode with `errors='ignore'` and decode never lengthens the text |
| Sanitizer.KeepAllowed | utils.py:59-62 | the regular-expression filter yields sanitized text no longer than its input |
| Sanitizer.SanitizeIsChain | utils.py:15-64 | the per-character image equals the chained replacements, Latin-1 step and filter as written |
| Sanitizer.ChainChar | utils.py:22-62 | on one character, the chain gives that character's image (its replacement, itself, or nothing) |
| Sanitizer.ChainConcat | utils.py:22-62 | the chain distributes over concatenation |
| Sanitizer.ReplaceCharConcat | utils.py:22-32 | one replacement distributes over concatenation |
| Sanitizer.ApplyAscii | utils.py:22-32 | the replacement table leaves ASCII text unchanged |
| Sanitizer.TableTargetsDistinct | utils.py:22-32 | no character is the target of two replacements, so their order does not matter |
| Sanitizer.SanitizeConcat | utils.py:15-64 | sanitizing distributes over concatenation |
| Sanitizer.Latin1StepIsRedundant | utils.py:36-62 | the Latin-1 round trip removes nothing that the final filter would keep |
| Sanitizer.SanitizeIsSubstituteThenFilter | utils.py:22-62 | sanitizing is exactly "substitute, then keep allowed characters" |
| Sanitizer.SanitizeIsSubsequenceOfSubstitute | utils.py:22-62 | the output is a subsequence of the substituted text: nothing is reordered or invented |
| Sanitizer.SanitizeFixedPoint | utils.py:15-64 | already sanitized text is returned unchanged |
| Sanitizer.SanitizeIdempotent | utils.py:15-64 | sanitizing twice is the same as sanitizing once |
| Sanitizer.SubstitutionTable | utils.py:22-32 | each of the eleven typographic characters becomes its listed ASCII replacement |
| Sanitizer.SanitizeTableEntry | utils.py:22-32 | every table entry maps its character to its replacement |
| Sanitizer.EuroSignRemoved | utils.py:59-62 | the euro sign is dropped, although a comment in the source says it is kept |
| Sanitizer.JoinSanitized | utils.py:59-62 | joining sanitized parts with a sanitized separator is sanitized |
| TextOps.Split | knowledge_base.py:151 | `str.split(sep)` gives at least one part and no part contains the separator |
| TextOps.JoinSplit | knowledge_base.py:151-166 | joining the parts of a split with the separator gives back the text |
| TextOps.SplitJoin | knowledge_base.py:151-166 | splitting a join of separator-free parts gives back the parts |
| TextOps.Words | knowledge_base.py:23 | `str.split()` gives non-empty words without whitespace |
| TextOps.WordsJoin | knowledge_base.py:23-33 | splitting a space-join of words gives back the words |
| TextOps.Strip | knowledge_base.py:156 | `str.strip()` gives text with no surrounding whitespace, no longer than the input |
| TextOps.Find | generation_engine.py:546-547 | `str.find` gives the leftmost occurrence at or after the start, or -1 when there is none |
| TextOps.ParseNatToString | knowledge_base.py:258 | reading the decimal digits of a number gives the number |
| TextOps.IntOfDigits | knowledge_base.py:258 | `int()` of a digit string succeeds exactly for 1 to 4300 digits; the empty string raises the invalid-literal error and a longer string the digit-limit error |
| TextOps.IntOfDigitsRoundTrip | knowledge_base.py:258 | `int(str(n))` is n when `str(n)` has at most 4300 digits, and the digit-limit error otherwise |
| KbText.ExpandQuery | knowledge_base.py:14-33 | the query becomes its words, each followed by its expansion, joined by single spaces |
| KbText.ScanTable | knowledge_base.py:27-31 | the loop over the domain table adds, in table order, the values of a matching key or the key of a table whose values hold the word |
| KbText.ExpandKey | knowledge_base.py:28-29 | a word that is a domain key (in any case) is followed by that key's synonyms |
| KbText.ExpandSynonym | knowledge_base.py:30-31 | a word that is a listed synonym is followed by its key |
| KbText.ExpandOther | knowledge_base.py:25-31 | any other word is kept alone |
| KbText.DomainTermsDisjoint | knowledge_base.py:16-21 | keys and synonyms of different entries never coincide, so a word matches at most one entry |
| KbText.ExpansionSingle | knowledge_base.py:27-31 | a word that matches only one entry gets only that entry's expansion |
| KbText.ExpansionAbsent | knowledge_base.py:27-31 | a word that matches no entry gets no expansion |
| KbText.ExpandQueryWords | knowledge_base.py:23-33 | re-splitting the expanded query gives exactly the expanded word list |
| KbText.ExpandedWordsWellFormed | knowledge_base.py:23-31 | every expanded word is non-empty and has no whitespace |
| KbText.SplitIntoSections | knowledge_base.py:144-168 | the line loop builds exactly the sections of the text |
| KbText.Sections | knowledge_base.py:144-168 | the sections of a file: lines under the current name, starting with "Introduction", each `# ` header closing the pending content |
| KbText.CloseSection | knowledge_base.py:153-155 | pending lines are stored under the current section name, only when there are some |
| KbText.SectionsWellFormed | knowledge_base.py:144-168 | section names are distinct and sanitized |
| KbText.NoHeaders | knowledge_base.py:147-168 | a text with no `# ` or `## ` line is one section named "Introduction" |
| KbText.HeaderThenBody | knowledge_base.py:151-168 | a `# name` line followed by a header-free body gives the one section `name` holding that body |
| KbText.ScanBody | knowledge_base.py:162-163 | non-header lines are only appended to the pending content |
| KbText.HeaderOpens | knowledge_base.py:152-156 | a header line with nothing pending opens a section named by its stripped rest |
| KbText.TagValue | knowledge_base.py:118-124 | a tag has a value exactly when the name contains it; the value holds no `_` |
| KbText.TagValueRoundTrip | knowledge_base.py:119-124 | the value written between a tag and the next `_` is read back |
| KbText.TagValueAtEnd | knowledge_base.py:119-124 | a value at the very end of the name, extension included, is read back whole |
| KbText.FileMetadataDefaults | knowledge_base.py:110-124 | without a tag, the defaults "general", success and "medium" are kept; the differentiators are fixed |
| KbText.FileMetadata | knowledge_base.py:110-124 | the metadata of a file name: industry, success and size read from their tags, else "general", true and "medium", and the two fixed differentiators |
| KbText.SuccessAndIndustry | knowledge_base.py:119-122 | `_success_True_industry_v_` gives success and industry `v` |
| KbText.IndustryAfter | knowledge_base.py:121-122 | the industry is the text after the first `_industry_` up to the next `_` |
| KbText.SizeKeepsExtension | knowledge_base.py:123-124 | a trailing size tag keeps the file extension in its value |
| KnowledgeBase.ProposalKnowledgeBase.constructor | knowledge_base.py:71-84 | a missing directory yields no documents; otherwise the listing is loaded and the index exists exactly when there are documents |
| KnowledgeBase.ProposalKnowledgeBase.LoadDocuments | knowledge_base.py:86-141 | the documents, the section index and the metadata are rebuilt from the listing; the search index is rebuilt only when there are documents |
| KnowledgeBase.ProposalKnowledgeBase.AddSections | knowledge_base.py:108-139 | each section of a file is appended as a document, and the index and metadata are kept in step |
| KnowledgeBase.ProposalKnowledgeBase.AddDocument | knowledge_base.py:126-139 | one document is appended, its id is added to its section's list, and its metadata is appended |
| KnowledgeBase.ProposalKnowledgeBase.HybridSearch | knowledge_base.py:182-212 | the search returns the merged hits, mapped to copies of their documents |
| KnowledgeBase.ProposalKnowledgeBase.GetSectionDocuments | knowledge_base.py:228-238 | gives the documents whose section is the sanitized name, in stored order, or none |
| KnowledgeBase.ProposalKnowledgeBase.GetAllSectionNames | knowledge_base.py:240-242 | gives every section name once, in order of first appearance |
| KnowledgeBase.SectionDocuments | knowledge_base.py:108-139 | a file gives one document per section |
| KnowledgeBase.LoadedWellFormed | knowledge_base.py:88-139 | document ids are their positions, and filenames, section names and contents are sanitized |
| KnowledgeBase.LoadedFromKbFiles | knowledge_base.py:95-139 | every document comes from a `.md` or `.txt` file of the listing: its section, content and metadata |
| KnowledgeBase.ListingGrows | knowledge_base.py:95-139 | a document from a file of a prefix of the listing comes from the listing |
| KnowledgeBase.IndexSectionsFacts | knowledge_base.py:134-138 | the section map has distinct keys in first-appearance order, and lists each name's document positions |
| KnowledgeBase.PositionsFacts | knowledge_base.py:134-138 | the ids listed under a name are exactly the positions of its documents, in increasing order |
| KnowledgeBase.PositionsSelect | knowledge_base.py:228-238 | looking up the ids and copying their documents gives the documents of that section |
| KnowledgeBase.NamesSanitized | knowledge_base.py:240-242 | re-sanitizing stored names changes nothing |
| KnowledgeBase.DedupFacts | knowledge_base.py:193-202 | the merge keeps candidates only, never repeats a document, keeps every document seen, and keeps no more pairs than candidates |
| KnowledgeBase.Dedup | knowledge_base.py:193-202 | the `seen` loops over the first n candidates: a pair is appended when its document index has not been kept yet |
| KnowledgeBase.DedupFirst | knowledge_base.py:193-202 | each kept pair is the first candidate with its document index, so a dense pair beats a later sparse pair for the same document |
| KnowledgeBase.Combined | knowledge_base.py:193-202 | the `combined` list: the dense pairs, then the top k sparse positions, without repeated document indices |
| KnowledgeBase.DenseKept | knowledge_base.py:195-202 | a kept pair whose index is a dense neighbour's is that dense pair |
| KnowledgeBase.MergedFacts | knowledge_base.py:192-211 | the merge keeps k pairs, or all of `combined` when it has fewer; no pair left out of `combined` scores higher than a kept one; kept pairs are sorted by score, have distinct documents, come from the dense list or the sparse top k, and a document that is a dense neighbour keeps its dense pair |
| KnowledgeBase.Merged | knowledge_base.py:192-203 | `combined` sorted by score, highest first, ties in list order, cut to k |
| KnowledgeBase.SortTakeTop | knowledge_base.py:203 | sorting by score and cutting to k keeps k pairs, or all when there are fewer, and every pair left out scores no higher than every pair kept |
| KnowledgeBase.MergeCandidates | knowledge_base.py:193-202 | the two `seen` loops keep the dense pairs, then the sparse top k, each only when its document index is new |
| KnowledgeBase.KeepUnseen | knowledge_base.py:195-202 | one loop step appends the pair exactly when its index is unseen, and `seen` keeps naming the indices kept |
| KnowledgeBase.HybridSearchFacts | knowledge_base.py:184-211 | no index or no documents gives no hits; otherwise k hits, or one per pair of `combined` when it has fewer, sorted by score, and no pair of `combined` that is left out scores higher than any hit |
| KnowledgeBase.HybridResults | knowledge_base.py:182-212 | no hits without an index or documents; otherwise the merged pairs, each mapped to its score and a copy of its document |
| KnowledgeBase.HybridSearchSources | knowledge_base.py:193-211 | every hit carries a dense or sparse candidate's score and a copy of its document |
| KnowledgeBase.HybridSearchDistinct | knowledge_base.py:193-211 | without padding labels, no document is returned twice |
| KnowledgeBase.NoPaddingLabel | knowledge_base.py:193-203 | without dense padding, every merged label is a real document |
| KnowledgeBase.PaddingRepeatsLastDocument | knowledge_base.py:189-211 | with one document, a dense padding label -1 reads the last document, so it is returned twice |
| KnowledgeBase.PaddingMerge | knowledge_base.py:193-203 | the padding pair keeps its own large distance and sorts first |
| KnowledgeBase.ToHits | knowledge_base.py:205-211 | each hit has its pair's score and a copy of its document |
| KnowledgeBase.MultiHopSearch | knowledge_base.py:217-226 | k hits, or one per document found when there are fewer, sorted by score, with distinct document ids, each the last hit with its id over both passes; a last hit left out scores no higher than any hit returned, and with fewer than k hits every last hit is returned |
| KnowledgeBase.RefinedQuery | knowledge_base.py:222 | the second query: the cleaned query, a space, and the first 200 characters of the cleaned content of each of the first three hits, joined by spaces |
| KnowledgeBase.BothPasses | knowledge_base.py:219-224 | the hits of the search for 3k on the cleaned query, followed by the hits of the search for k on the refined query |
| KnowledgeBase.TopOfBoth | knowledge_base.py:224-225 | a last hit per document that is left out scores no higher than any hit returned; with fewer than k hits, every last hit is returned |
| KnowledgeBase.LastInDict | knowledge_base.py:224 | the last hit for a document found is a value of the dictionary keyed by id |
| KnowledgeBase.TopHits | knowledge_base.py:225 | k values of the dictionary, or all when there are fewer, sorted by score, with distinct ids; no value left out scores higher than a value kept |
| KnowledgeBase.CutOrder | knowledge_base.py:225 | the cut of the sorted values is sorted by score, has distinct ids, and holds only values of the dictionary |
| KnowledgeBase.CutIsTop | knowledge_base.py:225 | the cut keeps k values, or all when there are fewer, and a value left out scores no higher than any value kept |
| KnowledgeBase.HitsCutIsTop | knowledge_base.py:225 | cutting hits sorted by score keeps the best: a hit left out scores no higher than any hit kept |
| KnowledgeBase.ByIdFacts | knowledge_base.py:224 | the dictionary by document id keeps, for each id, the last hit with that id |
| KnowledgeBase.ById | knowledge_base.py:224 | the dict comprehension by document id: each hit in turn assigned to its id |
| KnowledgeBase.LastWithId | knowledge_base.py:224 | the last hit of the list with a given document id, or none |
| KnowledgeBase.LastWithIdFound | knowledge_base.py:224 | the hit found for an id has that id |
| KbPricing.ExtractPricingFromKb | knowledge_base.py:244-260 | the loop over Markdown files gives exactly the prices of the model, or the first `int()` error raised (empty group or more than 4300 digits) |
| KbPricing.FilePrices | knowledge_base.py:250-259 | the prices of one cleaned file: none without a COMMERCIAL PROPOSAL heading, else every amount of its body, or the first `int()` error among them |
| KbPricing.ConvertAmounts | knowledge_base.py:257-259 | each captured group becomes its number, or the whole call fails with the error of the first group `int()` rejects |
| KbPricing.Pricing | knowledge_base.py:244-260 | the only failures are the errors `int()` raises: the invalid literal or more than 4300 digits |
| KbPricing.PricingOnlyMd | knowledge_base.py:247 | only files ending in `.md` contribute |
| KbPricing.PricingError | knowledge_base.py:248-259 | a failure in one file fails the whole call with that error |
| KbPricing.PricingErrorSource | knowledge_base.py:248-259 | a failed call fails with the error of one of its Markdown files |
| KbPricing.PricingSingle | knowledge_base.py:248-259 | a listing of one Markdown file is priced as that file |
| KbPricing.AmountsError | knowledge_base.py:257-258 | the first group `int()` rejects fails the whole list with its own error |
| KbPricing.Amounts | knowledge_base.py:257-259 | when successful, there is one amount per group; a failure is an error `int()` raises, and it is the error of one of the groups |
| KbPricing.CommasIgnored | knowledge_base.py:258 | commas inside an amount are ignored |
| KbPricing.AmountRoundTrip | knowledge_base.py:246-258 | the decimal digits of a number are captured and read back as that number when there are at most 4300 of them, and raise the digit-limit error otherwise |
| KbPricing.OverlongAmountRejected | knowledge_base.py:258 | a group of 4301 digits raises the digit-limit error, and so does the list holding it |
| KbPricing.OverlongPriceRejected | knowledge_base.py:244-260 | a Markdown file whose COMMERCIAL PROPOSAL section quotes `Rs ` and 4301 digits makes the whole extraction fail with the digit-limit error |
| KbPricing.DigitsPrice | knowledge_base.py:244-260 | a Markdown file whose COMMERCIAL PROPOSAL section is `Rs ` and a digit run is priced as the conversion of that run |
| KbPricing.DigitsFilePrices | knowledge_base.py:250-259 | the same for one file's text |
| KbPricing.RsDigitsGroups | knowledge_base.py:246-258 | the only price group of a line `Rs ` and a digit run is that run |
| KbPricing.RsDigitsSection | knowledge_base.py:251-256 | `Rs ` and a digit run is sanitized text with no heading in it |
| KbPricing.OnlyCommasRejected | knowledge_base.py:246-258 | a match of commas alone is captured but raises the invalid-literal error on conversion |
| KbPricing.RemoveCommas | knowledge_base.py:258 | the result holds no comma |
| KbPricing.RemoveCommasConcat | knowledge_base.py:258 | removing commas distributes over concatenation |
| KbPricing.RupeeNeverMatches | knowledge_base.py:246-251 | on sanitized text the mis-encoded rupee alternative never matches |
| KbPricing.NoRsNoGroups | knowledge_base.py:246-257 | text without `Rs` gives no prices |
| KbPricing.PriceAfterRs | knowledge_base.py:246 | `Rs`, an optional dot, optional blanks and the digits of a number form a match |
| KbPricing.PriceAtRs | knowledge_base.py:246 | a match at `Rs` captures the digit-and-comma run after the optional dot and blanks |
| KbPricing.PriceAt | knowledge_base.py:246 | a match captures a non-empty run of digits and commas ending where the match ends |
| KbPricing.Groups | knowledge_base.py:257 | every captured group is a non-empty run of digits and commas |
| KbPricing.FindHeading | knowledge_base.py:253 | gives a `COMMERCIAL PROPOSAL` heading line (one to three `#`, any case) and where it ends, or none when no position holds one |
| KbPricing.FindHeadingIsFirst | knowledge_base.py:253 | no heading starts before the one found |
| KbPricing.CommercialPart | knowledge_base.py:253-255 | `parts[1]`: the text between the first heading and the next, or none without a heading |
| KbPricing.HeadingEnd | knowledge_base.py:253 | where the heading pattern tried at a line start ends, at the end of the text or before a newline |
| KbPricing.HeadingLineMatches | knowledge_base.py:253 | a text starting with the line `## COMMERCIAL PROPOSAL` and then a character that is not whitespace has that line found as the heading, ending at its newline |
| KbPricing.NoHashNoHeading | knowledge_base.py:253-255 | text without `#` has no heading, so the file is skipped |
| KbPricing.FirstCut | knowledge_base.py:256 | the body ends at the first later heading line (`#` to `###`, whitespace, word character) |
| KbPricing.NoHashNoCut | knowledge_base.py:256 | without another `#` the body runs to the end |
| KbPricing.Body | knowledge_base.py:256 | the body is a prefix of the part after the heading that contains no later heading |
| KbPricing.HeadingSection | knowledge_base.py:253-256 | after a single heading, the part and the body are the rest of the text |
| KbPricing.SectionPrices | knowledge_base.py:250-259 | a heading followed by a section gives the prices of that section |
| RfpText.ExtractTextFromDocx | document_processing.py:8-35 | table lines come first, then paragraph lines, joined by newlines |
| RfpText.DocxText | document_processing.py:8-35 | `extract_text_from_docx`: the table lines, then the paragraph lines, joined by newlines |
| RfpText.ReadRow | document_processing.py:14-22 | a row gives its non-empty cleaned cells joined by " \| ", or nothing when all are empty |
| RfpText.ReadTables | document_processing.py:13-22 | every table row in order gives its line |
| RfpText.ReadRows | document_processing.py:13-22 | the rows of one table give their lines in order, empty rows dropped |
| RfpText.ReadParagraphs | document_processing.py:24-33 | every non-empty paragraph in order gives its line |
| RfpText.ReadParagraph | document_processing.py:24-33 | one paragraph gives its heading-prefixed or plain cleaned line, or nothing when its cleaned text is empty |
| RfpText.CleanCell | document_processing.py:18 | a stripped and cleaned cell is sanitized |
| RfpText.ParagraphLine | document_processing.py:26-33 | a paragraph gives a line exactly when its cleaned text is non-empty, and the line ends with that text |
| RfpText.HeadingLevel | document_processing.py:29 | the heading level is the style's last character when that is an ASCII digit, or 1; it is below 10 |
| RfpText.KeptCellsMembership | document_processing.py:16-20 | a kept cell is a non-empty cleaned cell of the row |
| RfpText.RowDroppedIff | document_processing.py:21-22 | a row is dropped exactly when all its cleaned cells are empty |
| RfpText.RowSkipsBlankCell | document_processing.py:16-22 | a blank middle cell is skipped between the separators |
| RfpText.HeadingTwoPrefix | document_processing.py:28-31 | style "Heading 2" gives the prefix "## " |
| RfpText.BareHeadingPrefix | document_processing.py:28-31 | style "Heading" without a digit gives level 1 |
| RfpText.HeadingTenPrefix | document_processing.py:29-30 | style "Heading 10" reads only its last digit 0 and gets no `#` |
| RfpText.BodyParagraph | document_processing.py:32-33 | a non-heading paragraph gives its cleaned text |
| RfpText.DocxTextClean | document_processing.py:35 | the DOCX text is sanitized already |
| RfpText.ExtractTextFromPdf | document_processing.py:38-47 | the pages are cleaned one by one and joined by newlines |
| RfpText.PdfText | document_processing.py:38-47 | `extract_text_from_pdf`: the cleaned page texts joined by newlines |
| RfpText.PdfTextIsCleanedJoin | document_processing.py:43-47 | cleaning page by page equals cleaning the joined text |
| RfpText.PdfTextClean | document_processing.py:47 | the PDF text is sanitized already |
| RfpText.FormatOfFails | document_processing.py:86-98 | a path is refused exactly when it ends in none of `.docx`, `.pdf`, `.md`, `.txt` |
| RfpText.FormatOf | document_processing.py:86-98 | the reader chosen by the case-sensitive suffix: `.docx`, then `.pdf`, then `.md` or `.txt`, else the unsupported-format error |
| RfpText.ProcessRfpFails | document_processing.py:86-98 | processing fails exactly for a refused suffix, with the unsupported-format error |
| RfpText.ProcessRfp | document_processing.py:86-98 | `process_rfp`: the DOCX or PDF text, the cleaned content of a plain file, or the unsupported-format error |
| RfpText.ProcessRfpClean | document_processing.py:86-96 | the text returned is always sanitized |
| RfpText.UpperCaseSuffixRefused | document_processing.py:88-98 | suffixes are case-sensitive: "RFP.PDF" is refused |
| RfpText.PlainFileCleaned | document_processing.py:92-96 | a `.txt` file gives its cleaned content |
| RfpSections.MatchHeader | document_processing.py:66-76 | the pattern loop gives the first pattern's capture on the stripped line, stripped |
| RfpSections.HeaderName | document_processing.py:66-76 | the name a line opens: the first of the three patterns that matches the stripped line, its group stripped |
| RfpSections.MatchNumbered | document_processing.py:56 | the numbered pattern: up to three `n.` levels, blanks, a capital and at least one letter or blank up to the end |
| RfpSections.MatchCaps | document_processing.py:57 | the capitals pattern: a capital and at least one capital or blank, then an optional `:` or `.` and blanks |
| RfpSections.MatchSectionNumber | document_processing.py:58 | the `Section n:` pattern: `Section` or `SECTION`, blanks, digits, a separator and a name of letters and blanks |
| RfpSections.ExtractSectionsFromRfp | document_processing.py:50-84 | the line loop builds exactly the sections of the cleaned text |
| RfpSections.Sections | document_processing.py:50-84 | the sections of the cleaned text: body lines gathered under the current name, starting with "Overview", each header closing the pending content |
| RfpSections.HeaderIsFirst | document_processing.py:67-76 | the numbered pattern wins over the capitals pattern, which wins over the `Section n:` pattern |
| RfpSections.HeaderNameFacts | document_processing.py:55-74 | a header name is non-empty, stripped, made of letters and blanks, and starts with a letter |
| RfpSections.CapitalisedHeader | document_processing.py:56 | a capitalised line of letters and blanks is a header named by itself |
| RfpSections.NumberedHeader | document_processing.py:56 | `k. Name` is a header named `Name` |
| RfpSections.NumberedLine | document_processing.py:56 | `k. Name` is stripped, and the numbered pattern captures `Name` |
| RfpSections.NumberedMatch | document_processing.py:56 | the numbered pattern captures a capitalised name where it starts |
| RfpSections.StrippedLine | document_processing.py:68 | a line from a digit to a letter is unchanged by `strip` |
| RfpSections.StripAfterBlank | document_processing.py:74 | `strip` of a blank followed by stripped text gives that text |
| RfpSections.CapsHeader | document_processing.py:57 | an all-capitals line ending in `:` is a header without the colon |
| RfpSections.SectionHeader | document_processing.py:58 | `Section k: name` is a header named `name`, lower-case letters allowed |
| RfpSections.LowerCaseLineIsBody | document_processing.py:56-58 | a line starting with a lower-case letter is never a header |
| RfpSections.BlankLineIsBody | document_processing.py:56-58 | a blank line is never a header |
| RfpSections.NumberedFailsAt | document_processing.py:56 | a character other than a letter or blank after the capital defeats the numbered pattern |
| RfpSections.CapsFailsAt1 | document_processing.py:57 | a second character that is not a capital or blank defeats the capitals pattern |
| RfpSections.SectionsDistinct | document_processing.py:61-84 | section names are distinct |
| RfpSections.SectionNamesFromHeaders | document_processing.py:61-84 | every section name is "Overview" or the name of a header line |
| RfpSections.ScanBody | document_processing.py:78-79 | non-header lines are only appended to the current content |
| RfpSections.NoHeaders | document_processing.py:53-84 | a text without header lines is one section "Overview" holding the cleaned text |
| RfpSections.HeaderThenBody | document_processing.py:65-84 | a header line followed by a header-free body gives one section with that body |
| RfpExtraction.Block | generation_engine.py:546-548 | the text between the marker and the terminator is stripped and no longer than the text |
| RfpExtraction.BlockSanitized | generation_engine.py:544-548 | the cut block of cleaned text is sanitized |
| RfpExtraction.CutBlock | generation_engine.py:544-548 | cuts the block of the cleaned analysis |
| RfpExtraction.MentionsAnyOf | generation_engine.py:598 | the term loop reports whether the line contains one of the terms |
| RfpExtraction.CollectLines | generation_engine.py:551-554 | the line loop keeps, in order, the stripped cleaned lines that pass the filter |
| RfpExtraction.CollectFrom | generation_engine.py:551-554 | the loop stores, in order, the stripped cleaned text of each line the filter keeps |
| RfpExtraction.KeepsLine | generation_engine.py:552 | a line is kept exactly when it is not blank and, for a term filter, mentions a term |
| RfpExtraction.CollectUpTo | generation_engine.py:551-554 | no more items are kept than lines were read |
| RfpExtraction.CollectedFromLine | generation_engine.py:551-554 | every kept item is the stripped, cleaned text of a line read so far that passes the filter |
| RfpExtraction.LineCollected | generation_engine.py:551-554 | every line read so far that passes the filter gives a kept item |
| RfpExtraction.CollectMembership | generation_engine.py:551-554 | an item is collected exactly when a line passing the filter gives it |
| RfpExtraction.ExtractMandatoryCriteria | generation_engine.py:541-558 | gives the mandatory criteria between "KEY REQUIREMENTS" and "DELIVERABLES" |
| RfpExtraction.MandatoryCriteriaMembership | generation_engine.py:546-556 | a criterion is returned exactly when it is the stripped form of a non-blank requirement line saying "must" or "required" |
| RfpExtraction.MustTermsMentioned | generation_engine.py:552 | the term test is "contains must or required" |
| RfpExtraction.ExtractDeadlines | generation_engine.py:587-604 | gives the lines of the timeline block that mention a deadline, date or due |
| RfpExtraction.ExtractDeliverables | generation_engine.py:606-623 | gives the non-blank lines of the deliverables block |
| RfpExtraction.DeliverablesWithoutBlankLine | generation_engine.py:611-619 | with no blank line after the marker, `find` gives -1 and the block loses its last character |
| RfpExtraction.ExtractRequiredSections | generation_engine.py:673-685 | gives the non-blank lines of the required-sections block |
| RfpExtraction.ExtractedItemsClean | generation_engine.py:551-554 | every extracted item is non-empty, stripped and sanitized |
| RfpExtraction.KeptLineClean | generation_engine.py:552-554 | a kept line's item is non-empty, stripped and sanitized |
| RfpExtraction.ExtractWeightedCriteria | generation_engine.py:560-583 | gives the weighted criteria of the evaluation block, or the defaults when none are found |
| RfpExtraction.ReadEntries | generation_engine.py:569-575 | the loop gives one (criterion, weight) entry per non-blank line, in order |
| RfpExtraction.WeightedCriteriaShape | generation_engine.py:569-580 | the result is the four defaults, or a non-empty list of empty criteria weighted 100 |
| RfpExtraction.StrippedLineDefaultWeight | generation_engine.py:571-576 | on a stripped line the lazy pattern captures nothing and the weight defaults to 100 |
| RfpExtraction.EntriesAreDefault | generation_engine.py:569-576 | every entry is an empty criterion weighted 100 |
| RfpExtraction.WeightGroupReadsPercent | generation_engine.py:572 | the optional group reads " (40%)" as weight 40 |
| RfpExtraction.WeightGroup | generation_engine.py:572-575 | the optional group: blanks, `(`, digits, `%` and `)` at the start of the line, giving its weight |
| RfpExtraction.WeightedEntry | generation_engine.py:572-576 | the lazy criterion group captures nothing, so the entry is the empty criterion with the group's weight or 100 |
| RfpExtraction.Entries | generation_engine.py:569-576 | at most one entry per line |
| Scoring.CalculateWeightedScore | generation_engine.py:1425-1515 | the method gives the score, the individual scores and the grade of the model, or the error of the sort |
| Scoring.WeightedScore | generation_engine.py:1425-1515 | the final score, the individual scores and the grade, or nothing when sorting the scale raises |
| Scoring.FinalScore | generation_engine.py:1474-1493 | the weighted total of the found scores divided by the weight sum when it is positive, clamped to 0 to 100 |
| Scoring.Grade | generation_engine.py:1499-1507 | the title of the first fitting entry of the scale sorted by descending lower bound, "N/A" when none fits, nothing when the sort raises |
| Scoring.ScoreMetrics | generation_engine.py:1451-1481 | every metric gets its score in order, None where the token is N/A or `int()` raises, and the found scores are summed by weight |
| Scoring.FindGrade | generation_engine.py:1499-1507 | the grade is the title of the first fitting entry, or "N/A" |
| Scoring.Scores | generation_engine.py:1451-1481 | every metric appears once, in order, with the score found under its label (none for N/A or a token of more than 4300 digits) |
| Scoring.Label | generation_engine.py:1453 | the label is as long as the metric key |
| Scoring.TokenStart | generation_engine.py:1457 | gives the first digit or "n/a" at or after the position, or -1 |
| Scoring.TokenValue | generation_engine.py:1460-1470 | a number is read exactly for a digit token of at most 4300 digits, and is capped at 100; "N/A" and a longer token, where `int()` raises and `except ValueError` applies, give none |
| Scoring.OverlongTokenIgnored | generation_engine.py:1465-1470 | a digit token of 4301 digits gives no score: `int()` raises and `except ValueError` sets None |
| Scoring.TokenPosIsLeftmostMatch | generation_engine.py:1457-1458 | the token found follows the leftmost occurrence of the label, as a regular-expression search finds it; no token means no match anywhere |
| Scoring.ScoreFor | generation_engine.py:1457-1480 | a found score is at most 100 |
| Scoring.AbsentLabelNoScore | generation_engine.py:1457-1481 | a label missing from the cleaned text gives no score |
| Scoring.Normalised | generation_engine.py:1487-1493 | the score for grading lies in 0 to 100, and is 0 when the weights do not sum to a positive number |
| Scoring.FinalScoreInRange | generation_engine.py:1487-1493 | the final score lies in 0 to 100 |
| Scoring.NothingFoundTotal | generation_engine.py:1474-1477 | with no score found, the weighted total is 0 |
| Scoring.NothingFoundScoresZero | generation_engine.py:1451-1493 | with no score found, the final score is 0 |
| Scoring.UniformTotal | generation_engine.py:1474-1477 | equal scores v give the total v times the weight sum |
| Scoring.UniformScores | generation_engine.py:1451-1493 | equal scores v with positive weights give the final score v |
| Scoring.UniformFinal | generation_engine.py:1487-1493 | normalising a uniform total gives back the score |
| Scoring.NormalisedAverage | generation_engine.py:1487-1493 | a score within range survives normalisation |
| Scoring.MissingMetricHalvesScore | generation_engine.py:1451-1493 | a missing metric still counts its weight: "A: 100" with two equal weights scores 50 |
| Scoring.ScoreOfA | generation_engine.py:1453-1468 | metric `a` reads 100 from "A: 100" |
| Scoring.ScoreOfB | generation_engine.py:1453-1480 | metric `b` is not found in "A: 100" |
| Scoring.SortKeys | generation_engine.py:1501 | the sort succeeds exactly when every range is non-empty and, with two entries or more, every lower bound is a number |
| Scoring.FirstFit | generation_engine.py:1502-1507 | gives the first entry whose well-formed range contains the score, or -1 when none does |
| Scoring.GradeNamesFittingEntry | generation_engine.py:1499-1507 | "N/A" means no entry fits; any other grade names the fitting entry with the greatest lower bound, the earliest in the scale among equal bounds |
| Scoring.FitOutranked | generation_engine.py:1501-1506 | every fitting entry has a lower bound no greater than the first fitting entry of the sorted scale, and comes after it on equal bounds |
| Scoring.KeyIsLowerBound | generation_engine.py:1501 | the sort key of a usable range is its lower bound |
| Scoring.OverlapPrefersHigherBound | generation_engine.py:1501-1506 | with "good" [70, 100] before "excellent" [90, 100], 95 is graded by "excellent" |
| Scoring.SingleFitGrade | generation_engine.py:1499-1507 | when exactly one entry fits, the grade is its title |
| Scoring.EmptyRangeRaises | generation_engine.py:1501 | an empty range makes the sort key raise |
| Scoring.DefaultScaleSorts | utils.py:109-114 | the default grading scale sorts |
| Scoring.DefaultScaleGap | utils.py:109-114 | 89.5 falls between "good" and "excellent" and gets "N/A" |
| Scoring.DefaultScaleGood | utils.py:109-114 | 75 is graded "Good" |
| ProposalChecks.IdentifyGapsAndRisks | generation_engine.py:1518-1561 | the gaps and the risks are those of the model, from the similarity and the cleaned proposal |
| ProposalChecks.GapsAndRisks | generation_engine.py:1518-1561 | nothing when the vectoriser raises; otherwise the low-coverage gap below 0.7 and the mismatch gap below 0.5, and the whole-word keyword risks in list order followed by the high risk below 0.5 |
| ProposalChecks.FindKeywordRisks | generation_engine.py:1541-1549 | the keyword loop reports, in list order, every keyword found as a whole word |
| ProposalChecks.FirstBounded | generation_engine.py:1548 | gives the first occurrence with a word boundary on both sides, or -1 |
| ProposalChecks.WordFoundIff | generation_engine.py:1548 | a keyword is found exactly when it occurs between word boundaries |
| ProposalChecks.KeywordRisksMembership | generation_engine.py:1541-1549 | a keyword risk is reported exactly for a listed keyword found as a whole word; the high risk never comes from keywords |
| ProposalChecks.KeywordRisksDistinct | generation_engine.py:1541-1549 | no risk is reported twice |
| ProposalChecks.KeywordRisks | generation_engine.py:1541-1549 | at most one risk per keyword |
| ProposalChecks.Thresholds | generation_engine.py:1534-1552 | low coverage below 0.7, mismatch and high risk below 0.5, the high risk last |
| ProposalChecks.VectoriserFailureReportsNothing | generation_engine.py:1559-1561 | a failed similarity computation gives no gaps and no risks |
| ProposalChecks.WholePhraseFound | generation_engine.py:1548 | "unable to" is found in "we are unable to commit" |
| ProposalChecks.PartWordNotFound | generation_engine.py:1548 | "unable to" is not found inside "unable tomorrow" |
| ProposalChecks.ValidateProposalClientSpecificity | generation_engine.py:793-822 | the section loop gives, section by section, the issues of the model |
| ProposalChecks.ClientSpecificity | generation_engine.py:793-822 | the issues of every section in order, with the cleaned client name |
| ProposalChecks.CheckSection | generation_engine.py:799-820 | a section gives a mention issue first, then its generic-phrase issues |
| ProposalChecks.SectionIssues | generation_engine.py:799-820 | for one cleaned section: the too-few-mentions issue when a client is named, then the generic-phrase issues |
| ProposalChecks.CheckPhrases | generation_engine.py:812-820 | the phrase loop reports, in list order, every generic phrase the section contains |
| ProposalChecks.ExpectedMentions | generation_engine.py:807 | at least 3, at least one per 500 characters, and exactly one of the two |
| ProposalChecks.ExpectedMentionsGrowth | generation_engine.py:807 | 3 below 2000 characters, one per 500 characters from there |
| ProposalChecks.FewMentionsIff | generation_engine.py:804-810 | a mention issue is reported exactly when a client is named and its case-insensitive count falls short |
| ProposalChecks.PhraseIssues | generation_engine.py:818-820 | at most one issue per phrase |
| ProposalChecks.PhraseIssuesMembership | generation_engine.py:812-820 | a phrase issue is reported exactly for a listed phrase the lower-cased section contains |
| ProposalChecks.NoClientNoMentionIssues | generation_engine.py:797-810 | without a client name only generic-phrase issues are reported |
| ProposalChecks.CountZeroIff | generation_engine.py:804 | the count is 0 exactly when the name does not occur |
| OrderedDict.PutFacts | knowledge_base.py:136-138 | storing a key keeps keys distinct, sets its value, leaves other keys alone, and appends a new key last |
| OrderedDict.KeysDistinctIff | knowledge_base.py:136 | a key is present exactly when it is found |
| OrderedDict.IndexOf | knowledge_base.py:136 | gives the position of the key, or none when it is absent |
| Ranking.RankDesc | knowledge_base.py:192-203 | a ranking of every index: scores descending, ties in index order |
| Ranking.SortDesc | knowledge_base.py:203 | the sorted list is the items taken in ranking order |
| Ranking.SortDescFacts | knowledge_base.py:203 | the sorted keys descend and the ranking has no repeats |
| Ranking.RankedUnique | knowledge_base.py:203 | the stable descending order of a set of indices is unique |
| Ranking.Take | knowledge_base.py:211 | slicing to k gives the first k items, or all of them |
| Ranking.TakeSortedIsTop | knowledge_base.py:225 | after a stable descending sort cut to n, an element left out has a key no greater than that of any element kept |
| Ranking.SortedHasAll | knowledge_base.py:225 | sorting loses no element |

## Left out

- File system, I/O and the Streamlit session: directory listings, file contents and paths are parameters. Text files decoded with `errors='replace'` are given as already decoded text.
- The sentence-transformer model, the FAISS index and the TF-IDF vectoriser are not modelled. Their outputs are inputs to the model: dense neighbours with labels, sparse scores, and the similarity of the gap check (`None` when the vectoriser raises). `_build_index` is modelled only by whether an index exists.
- `rfp_requirements` of `identify_gaps_and_risks` enters only through that similarity value.
- Calls to the language model, the prompts and everything else in `generation_engine.py`, `app.py` and `utils.py` outside the functions named above are not part of this model.
- `HierarchicalEmbeddingModel`, `get_common_section_names` (which returns an empty list) and `load_config` are not part of this model. The default grading scale of `load_config` appears only as a constant.
- The python-docx and PyPDF2 traversals are not modelled. A DOCX document is given as its tables (rows of cell texts) and its paragraphs (style name and text). A PDF is given as its page texts.
- ProposalChecks.IdentifyGapsAndRisks: gaps and risks are returned as datatypes rather than strings. The `{:.2f}` formatting of the low-coverage gap message is not modelled. The other messages are written out in `RiskMessage` and `IssueMessage`.
- Debug `print` output and the warnings printed for a malformed grading-scale entry are left out.
- Case mapping (`lower`, `title`), `\d`, `\w`, `\s` and `isspace` are modelled for ASCII only. This is exact on sanitized text, which is ASCII apart from the no-break space. There are three exceptions, because each works on text that is never sanitized: `Label` on metric keys, `Grade` (and with it `FindGrade`, `WeightedScore` and `CalculateWeightedScore`) on grading-scale names, and `HeadingLevel` on DOCX style names.
- Scoring.SortKeys: grading-scale bounds are numbers or "not a number". A lower bound that is not a number makes the sort raise when there are two entries or more. Two string bounds that Python could compare with each other, and range values that are not lists, are not modelled.
- Ranking.RankDesc: `np.argsort` does not fix the order of equal sparse scores. The model takes index order for ties.
- KnowledgeBase.ProposalKnowledgeBase.HybridSearch: floats are modelled as reals. The dense distances and labels come from the index as given.
- Sanitizer.Clean: arguments that are not strings are modelled only as "not text" and returned unchanged. Later string operations on such values are not modelled.
- KbPricing.Pricing: the glob order of Markdown paths is the order of the listing given. The mis-encoded rupee alternative of the pattern is kept, but it never matches sanitized text.
- RfpText.HeadingLevel: the digit test is ASCII only. Python's `str.isdigit` is Unicode-wide. A style name ending in another digit, such as '٣', gets level 3 from Python and level 1 from the model. A style ending in a character that `isdigit` accepts but `int` refuses, such as '²', makes `extract_text_from_docx` raise a ValueError in Python. The model gives level 1 for it instead.
- Scoring.FinalScore: scores and weights are exact reals. Python adds and divides IEEE doubles, so its result can fall just below a whole-number bound of the grading scale. Example: every metric at 90 under the default weights 0.4, 0.25, 0.2, 0.15 and 0.1. The weights sum to 1.1, and Python computes 99.0 / 1.1 = 89.99999999999999. That falls in the gap of the default scale and grades "N/A", while the model gives exactly 90 and "Excellent".
- Scoring.CalculateWeightedScore: float rounding is not modelled, so the score and grade can differ from Python's just below a whole-number bound. The example is the uniform 90 under the default weights, described at `Scoring.FinalScore`. The grade name is also title-cased for ASCII only, as described at `Scoring.Grade`.
- Scoring.Grade: grading-scale names come from the configuration and are not sanitized. `Title` maps the case of ASCII letters only and treats every other character as a non-letter, while Python's `str.title` knows the case of all Unicode letters. Example: "très bien" is "Très Bien" in Python and "TrèS Bien" in the model; "übertroffen" is "Übertroffen" in Python and "üBertroffen" in the model. Names whose only cased letters are ASCII are title-cased exactly.
- Scoring.FindGrade: the same ASCII-only title of grading-scale names as `Scoring.Grade`.
- Scoring.WeightedScore: its grade is `Scoring.Grade`, so a grading-scale name with letters outside ASCII is title-cased differently from Python, as described there.
- Scoring.UniformTotal: the weighted total equals the score times the weight sum only in exact arithmetic. Python's float loop can differ from it by rounding.
- Scoring.UniformScores: the final score equals the uniform metric score only in exact arithmetic. Under the default weights, a uniform 90 gives 89.99999999999999 in Python and a uniform 50 gives 49.99999999999999, so Python grades both "N/A".
- Scoring.UniformFinal: normalising the uniform total gives back the score only in exact arithmetic; 99.0 / 1.1 is 89.99999999999999 in doubles.
- Scoring.NormalisedAverage: (v · s) / s == v is a real-number identity that float division does not keep.
- Python `int` is unbounded like Dafny's `int`, so there is no overflow to model in arithmetic. Converting a decimal string with `int()` is limited to 4300 digits, and that limit is modelled (`TextOps.IntOfDigits`).
- TextOps.IntOfDigits: the limit is CPython's default `sys.get_int_max_str_digits()` of 4300, present since Python 3.11 and in the 3.7–3.10 security releases. An interpreter without the limit, or one configured with another limit through `PYTHONINTMAXSTRDIGITS`, is not modelled; the core never changes the limit itself.
- RfpExtraction.WeightGroup: the weight digits are read without the 4300-digit limit. On a longer weight Python's `int()` would raise, and the bare `except` of `extract_weighted_criteria` would return the four defaults. The group is only tried on stripped lines, where it never matches (`RfpExtraction.StrippedLineDefaultWeight`), so the result of `extract_weighted_criteria` is unaffected.
- Scoring.Label: metric keys are not sanitized, and `Title` maps ASCII case only. Python's `str.title` knows all Unicode letters and can change the length of a key: `'ß'.title()` is `"Ss"`, so the row's "as long as the metric key" holds for Python only on keys whose cased letters are ASCII. On "très" Python gives "Très" and the model "TrèS".
