# Chunking, layout sections and provenance location of the retrieval corpus

This Dafny project models the code that turns documents into retrieval records for the
retrieval-augmented generation pipeline, and the code that traces a retrieved passage
back to a region of the source PDF:

- `servers/myserver/src/myserver.py`
  - the text normalizer: `clean_text` and `reflow_paragraphs`, with its inner
    `merge_lines_within_paragraph` and its two regular expressions;
  - the record loops of `chunk_md_documents` and `chunk_md_file_documents`;
  - `extract_filename`;
  - the path loop of `get_citation_file`.
- `ui/backend/block_json.py`
  - the `Section` accumulator, which is a class whose fields are updated in place;
  - the page/block walk of `process_miner_u_json`;
  - the `\page_size\page_idx\merged_bbox\stem\markdown` contents format of the records built from its sections.
- `ui/backend/document_return.py`
  - `jaccard_similarity`, `find_candidate_blocks`, `group_adjacent_blocks`, `merge_bboxes` and `locate_md_in_pdf`.

Files:

- `common.dfy`: shared values. These are `Option`, the `{id, title, contents}` record, and a parsed layout page with its blocks.
- `strings.dfy`: the Python string operations the code relies on, stated over `seq<char>`:
  - `str.isspace`, `strip`, `rstrip`, `split` and `join`;
  - the run-squeezing `re.sub` calls and `re.split(r"\n{2,}")`;
  - `str()` of integers and integer lists.
- `normalizer.dfy`: `clean_text` and `reflow_paragraphs`.
  - Each loop is a method proved equal to a function that specifies it.
  - Lemmas give what the result looks like.
- `chunker.dfy`: the record loops, `extract_filename` and `get_citation_file`.
- `sections.dfy`: `Section` as a class with `modifies`/`reads` frames, and `process_miner_u_json` as a method over the class.
  - The walk is specified by a fold over pages and blocks.
  - Lemmas about that fold state what the returned sections satisfy.
- `sorting.dfy`: Python's stable sort by a key, with or without `reverse=True`. It is given as a comparator-driven insertion sort, with its permutation, order, stability and head properties.
- `locator.dfy`: the provenance locator. The segmenter and `round(x, 3)` are parameters.

`reflow_paragraphs` is not idempotent. On `"abc\n\n-\n\nxyz"` it returns `"abc\n\nxyz"`,
and on that text it returns `"abc xyz"`. The hyphen paragraph stops the first merge, and then
disappears when `"xyz"` is merged into it. The model proves the weaker fact that does hold:
`Normalizer.ReflowSettled`.

A further observation: the contents of a section record begin with the page size between backslashes.

- Applied to such a record, `extract_filename` returns the printed page size, not the file stem (`Sections.SectionContentsFirstField`).
- Applied to a record of `chunk_md_file_documents`, it returns the stem (`Chunker.ExtractFilenameOfFormat`).

## Model

| member | source | states |
|---|---|---|
| Normalizer.NormalizeNewlines | servers/myserver/src/myserver.py:54 | no carriage return is left, and every character of the result is from the input or a newline |
| Normalizer.CleanTextProps | servers/myserver/src/myserver.py:102-116 | the empty text stays empty; the result holds no ideographic space, no carriage return and no three newlines in a row, and has no leading or trailing whitespace |
| Normalizer.EndsWithTerminalIsSearch | servers/myserver/src/myserver.py:56 | the computable end-of-sentence test holds exactly when `end_punct_re.search` finds a match: a terminal mark followed only by whitespace, closing quotes/brackets, whitespace |
| Normalizer.AddLineEffect | servers/myserver/src/myserver.py:62-77 | a blank line changes nothing; a non-blank line opens a new segment exactly when there is none or the last one ends a sentence; otherwise the last segment becomes the old one followed by the stripped line, joined by one space or by dropping its trailing hyphen (exactly when it ends with "-" and is longer than one character); earlier segments never change |
| Normalizer.MergeLinesWithinParagraph | servers/myserver/src/myserver.py:59-79 | the loop computes the joined, space-squeezed, stripped segments of the paragraph |
| Normalizer.SegmentsBoundaries | servers/myserver/src/myserver.py:66-77 | every segment except the last ends with terminal punctuation: two lines stay apart only at a sentence end |
| Normalizer.ParagraphSegments | servers/myserver/src/myserver.py:59-77 | a paragraph with a non-blank line yields at least one segment, none holding a newline |
| Normalizer.ParagraphTextShape | servers/myserver/src/myserver.py:78-79 | a non-blank paragraph becomes a non-empty, stripped, single-line text without two whitespace characters in a row |
| Normalizer.FirstPassLoop | servers/myserver/src/myserver.py:82-83 | the first pass keeps the non-blank raw paragraphs, in order, each reflowed within itself |
| Normalizer.FirstPassShape | servers/myserver/src/myserver.py:82-83 | every first-pass paragraph is well formed and adds no character other than the space: a character other than the space that no raw paragraph holds is in no output paragraph |
| Normalizer.AddParagraphEffect | servers/myserver/src/myserver.py:87-98 | the first paragraph is kept; afterwards the list grows by one exactly when the merge test fails, the paragraph is then appended unchanged, when it passes the last paragraph is replaced by the merged one, and paragraphs before the last never change |
| Normalizer.SecondPassLoop | servers/myserver/src/myserver.py:86-98 | the second pass computes the fold of the paragraph step `AddParagraph` (see `Normalizer.AddParagraphEffect`) over the paragraphs |
| Normalizer.MergeParagraphShape | servers/myserver/src/myserver.py:93-96 | merging two well-formed paragraphs yields a well-formed paragraph |
| Normalizer.MergeParagraphsShape | servers/myserver/src/myserver.py:86-98 | the second pass keeps every paragraph well formed and adds no character other than the space |
| Normalizer.ReflowParagraphs | servers/myserver/src/myserver.py:35-100 | the method returns the reflowed text: empty for empty input, else the paragraphs joined by blank lines and stripped |
| Normalizer.ReflowShape | servers/myserver/src/myserver.py:82-100 | every output paragraph is well formed, the output is exactly the paragraphs joined by one blank line, and it holds no carriage return and no three newlines in a row |
| Normalizer.MergeParagraphsSettled | servers/myserver/src/myserver.py:86-98 | when every paragraph opens with a non-space, non-hyphen character, no two neighbouring output paragraphs would be merged again |
| Normalizer.ReflowSettled | servers/myserver/src/myserver.py:82-98 | when no first-pass paragraph starts with a hyphen, no two neighbouring paragraphs of the result pass the merge test |
| Chunker.ChunkMdDocuments | servers/myserver/src/myserver.py:173-182 | one record per piece, in order, numbered from 0, titled with the piece's section (or "") and holding its cleaned and reflowed text |
| Chunker.NumberedPointwise | servers/myserver/src/myserver.py:242-249 | the `k`-th record is made from the `k`-th piece and numbered `first + k` |
| Chunker.FileChunks | servers/myserver/src/myserver.py:242-249 | the inner loop builds the records of one file's pieces, numbered on from the running counter |
| Chunker.ChunkMdFileDocuments | servers/myserver/src/myserver.py:231-249 | the two loops build the records of all files, file after file |
| Chunker.DocRecordsPointwise | servers/myserver/src/myserver.py:243-247 | the `k`-th record of a file has id `first + k`, the piece's section as title and `\stem\section\body` as contents |
| Chunker.FileRecordsIds | servers/myserver/src/myserver.py:231-249 | there is one record per piece of every file and the ids run 0, 1, 2, ... without gap across files |
| Chunker.NextBackslash | servers/myserver/src/myserver.py:253 | the first backslash at or after a position, with none before it |
| Chunker.SearchFromSpec | servers/myserver/src/myserver.py:253-255 | the search finds the leftmost match of `\\([^\\]+)\\` at or after a position, and finds none only when none exists |
| Chunker.MatchUnique | servers/myserver/src/myserver.py:253 | a match starting at a given position has only one possible end |
| Chunker.ExtractFilenameSpec | servers/myserver/src/myserver.py:253-256 | None exactly when the pattern matches nowhere; otherwise the text between the backslashes of a match with no match starting before it |
| Chunker.ExtractFilenameOfFormat | servers/myserver/src/myserver.py:246 | round trip: `extract_filename` of `\stem\section\body` gives back the stem, when the stem is non-empty and has no backslash |
| Chunker.PathJoin | servers/myserver/src/myserver.py:279 | the joined path ends with the joined name |
| Chunker.GetCitationFile | servers/myserver/src/myserver.py:269-284 | one path per retrieved text, over all lists in order |
| Chunker.CitationPathsPointwise | servers/myserver/src/myserver.py:275-280 | the `k`-th path belongs to the `k`-th retrieved text |
| Chunker.CitationPathPdf | servers/myserver/src/myserver.py:279 | every listed path ends with ".pdf" |
| Chunker.CitationPathNone | servers/myserver/src/myserver.py:278-279 | a text without a backslash-enclosed name gives the file "None.pdf" |
| Chunker.CitationOfFileRecord | servers/myserver/src/myserver.py:278-279 | the contents of a file record lead to `<stem>.pdf` in the data directory |
| Sections.MergeBox | ui/backend/block_json.py:20-29 | an unusable box changes nothing; the first usable box is copied; afterwards the merged box is the smallest box enclosing the old one and the new one |
| Sections.UpdateBboxCoherent | ui/backend/block_json.py:20-29 | merging a box keeps a section coherent, and the merged box only grows |
| Sections.AddBlockCoherent | ui/backend/block_json.py:14-18 | adding a block keeps a section coherent: its combined text stays the entries' texts each behind a backslash, and the merged box encloses every usable entry box |
| Sections.Section.constructor | ui/backend/block_json.py:6-12 | a new section has the given title, page and page size, no entries, empty text and no box |
| Sections.Section.AddBlock | ui/backend/block_json.py:14-18 | an empty text changes nothing; otherwise exactly one entry is appended, the text is appended behind a backslash and the box is merged; the other fields are unchanged |
| Sections.Section.UpdateBbox | ui/backend/block_json.py:20-29 | only the merged box changes, to `MergeBox` of the old box and the argument |
| Sections.Section.ToMarkdown | ui/backend/block_json.py:31-33 | "## ", the title, the stripped backslash-separated entry texts and a newline |
| Sections.OpenTitled | ui/backend/block_json.py:61-68 | a title block emits the open section, if any, and opens a fresh section named by the title on this page whose box is the title's |
| Sections.SectionForPage | ui/backend/block_json.py:79-83 | a content block goes into the open section on the same page; when none is open, into a fresh "Preamble"; when the open one is on another page, it is emitted and "<title> (cont.)" opens on this page |
| Sections.FileContent | ui/backend/block_json.py:71-85 | a content block is added to the section `SectionForPage` chooses |
| Sections.ProcessBlock | ui/backend/block_json.py:47-85 | the block loop body matches one step of the fold; blocks of any other type change nothing |
| Sections.ProcessMinerUJson | ui/backend/block_json.py:35-91 | the returned sections' fields are exactly the fold of the block steps over all pages, and every section is coherent |
| Sections.BlockStepShape | ui/backend/block_json.py:60-85 | an ignored block leaves the state as it is; a dispatched block leaves a section open; sections are only ever emitted, never changed or removed |
| Sections.BuildSectionsCoherent | ui/backend/block_json.py:35-91 | every returned section is coherent |
| Sections.BuildSectionsEmpty | ui/backend/block_json.py:43-91 | no section is returned exactly when no page holds a title or a content-type block |
| Sections.BuildSectionsFromItsPage | ui/backend/block_json.py:78-85 | sections never straddle pages: every entry is a content block of the section's own page, and every merged-box coordinate is a coordinate of a box on that page |
| Sections.EmittedInOrder | ui/backend/block_json.py:63-64 | sections are returned in the order they were closed: those closed after the first `i` pages lead the final list |
| Sections.SectionChunks | ui/backend/block_json.py:127-134 | one record per section, in order, numbered on, with contents `\page_size\page_idx\merged_bbox\stem\markdown` |
| Sections.SectionContentsFirstField | ui/backend/block_json.py:131 | `extract_filename` of a section record yields the printed page size |
| Sorting.SortPermutes | ui/backend/document_return.py:38 | the sort returns a permutation of its input |
| Sorting.SortSorted | ui/backend/document_return.py:38 | the sort returns its input ordered by the key |
| Sorting.SortStable | ui/backend/document_return.py:38 | elements with equal keys keep their relative order |
| Sorting.SortHead | ui/backend/document_return.py:91-92 | the head of the sorted list is the first element of the input whose key is least |
| Locator.Jaccard | ui/backend/document_return.py:7-11 | the similarity lies between 0 and 1 |
| Locator.JaccardSymmetric | ui/backend/document_return.py:7-11 | the similarity does not depend on argument order |
| Locator.JaccardOne | ui/backend/document_return.py:10 | similarity 1 exactly for equal non-empty token sets |
| Locator.JaccardZero | ui/backend/document_return.py:10 | similarity 0 exactly for disjoint token sets, two empty sets included |
| Locator.FindCandidateBlocks | ui/backend/document_return.py:15-34 | the loops build the hits of every page in page order, each page's in block order |
| Locator.CandidatesIff | ui/backend/document_return.py:18-32 | a hit is a candidate exactly when it is some block, of any page, scoring at least the threshold, carrying its page number, index, box and score |
| Locator.CandidatesAppend | ui/backend/document_return.py:18-32 | hits of earlier pages precede hits of later pages |
| Locator.PageHitsAppend | ui/backend/document_return.py:20-32 | within a page, hits of earlier blocks precede hits of later blocks |
| Locator.CandidatesScore | ui/backend/document_return.py:22-26 | every candidate scores at least the threshold and, being a similarity, at most 1 |
| Locator.GroupAdjacentBlocks | ui/backend/document_return.py:37-61 | the method computes the groups of the hits sorted by (page, idx) |
| Locator.GroupAdjacentSorted | ui/backend/document_return.py:37-61 | the concatenated groups are the input stably sorted by (page, idx): a permutation, ordered, ties in input order; there are no groups exactly when there are no hits |
| Locator.GroupAdjacentGroups | ui/backend/document_return.py:42-59 | every group is non-empty and on one page; each member joins its predecessor (same page, and signed index gap or absolute vertical gap small enough); each group starts with a hit that fails that test against the previous group's last member |
| Locator.OnePage | ui/backend/document_return.py:48-52 | every member of a chained group is on its first member's page |
| Locator.GroupsBoxed | ui/backend/document_return.py:42-70 | when all hits carry four coordinates, the sort and grouping read no missing coordinate, and every group can be summarized |
| Locator.MergeBboxes | ui/backend/document_return.py:64-70 | the merged box has four coordinates |
| Locator.MinCoordSpec | ui/backend/document_return.py:66-67 | the least coordinate is some member's and none is smaller |
| Locator.MaxCoordSpec | ui/backend/document_return.py:68-69 | the greatest coordinate is some member's and none is greater |
| Locator.MergeBboxesSpec | ui/backend/document_return.py:64-70 | the merged box encloses every member's box, and each of its coordinates is attained by a member |
| Locator.MeanAtLeast | ui/backend/document_return.py:84 | a group whose members all score at least `t` has a mean of at least `t` |
| Locator.MeanAtMost | ui/backend/document_return.py:84 | a group whose members all score at most `t` has a mean of at most `t` |
| Locator.GroupResults | ui/backend/document_return.py:82-89 | one result per group, in order: first member's page, merged box, rounded mean score |
| Locator.SummariesPointwise | ui/backend/document_return.py:82-89 | the `m`-th result is that of the `m`-th group |
| Locator.LocateMdInPdf | ui/backend/document_return.py:73-92 | the method returns None without candidates, and otherwise the head of the results sorted by decreasing confidence |
| Locator.LocateNone | ui/backend/document_return.py:74-77 | None exactly when no block of any page scores at least the threshold |
| Locator.LocateGroupsMean | ui/backend/document_return.py:79-84 | every group's mean score, the confidence before rounding, lies between the threshold and 1 |
| Locator.LocateChoice | ui/backend/document_return.py:91-92 | the located region is that of a group with the greatest rounded confidence, the earliest such group, giving its first member's page and its merged box |

## Left out

- Files, JSON and JSONL I/O:
  - `read_markdown_file` (encoding detection), `_save_jsonl`, `find_md_files`, and reading the layout JSON;
  - the tool framework, logging, and the `ImportError` path.
  The model starts from already-parsed values: pieces, files, pages and blocks. It ends with the records or paths.
- The Markdown header splitter (`MarkdownHeaderTextSplitter`) is not part of this model. Its output for each file is the input `seq<Doc>`.
- The word segmenter `jieba.cut` is not part of this model. It is the parameter `tokenize`, and similarity is computed over its token sets.
- Locator.LocateChoice: the returned confidence is `round3` of a mean that `Locator.LocateGroupsMean` bounds by the threshold and 1. Because `round3` is an unconstrained parameter, the rounded value itself is not proved to lie in that range.
- Python's `round(x, 3)` is the parameter `round3`. Scores and means are exact reals, not floating point.
- The output directory and data directory paths are derived from `__file__`. In the model they are the parameter `dataDir` or are left out.
- Missing JSON keys are not modelled, so KeyError is out of scope. Blocks and pages always carry `idx`, `bbox`, `content` and their other fields; an absent `content` or `img_url` is the empty string.
- Locator.LocateMdInPdf requires every candidate's box to have at least four coordinates (`Boxed`). With a shorter box the source raises IndexError in `group_adjacent_blocks` or `merge_bboxes`, and that crash is not modelled.
- Locator.GroupAdjacent requires every neighbouring pair of sorted hits to be readable (`Comparable`). That is the condition under which the source reads `bbox[1]` and `bbox[3]` without IndexError.
- `results.sort(...)` and `sorted(...)` return a new sorted sequence in the model. Python sorts the list in place; in-place update and aliasing are not captured.
- Sections: `__main__` walks the layout files of a directory. The model covers the record loop for one file's sections, `Sections.SectionChunks`, numbered on from a given id.
- Sections: `page_num` and `page_size` are taken as an integer and a list of integers. Python's `str()` of other JSON values is not modelled.
- Box coordinates (`bbox` of blocks and hits, and a section's merged box) are taken as integers. The layout JSON may hold float coordinates; `str()` of such a box, as printed into a section record's contents (`Sections.BoxRepr`), is not modelled. Comparisons, `min`/`max` and `abs` behave the same for floats, so grouping and merging are unaffected.
- Normalizer.Reflow: idempotence is not claimed, because the code is not idempotent (see above). `Normalizer.ReflowSettled` states what does hold.
- Python's `\s` and `str.strip()` whitespace is the set of characters `str.isspace` accepts. Unicode normalization plays no part.
