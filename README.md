# Handbook-page text processing

This project models the string processing of the handbook-page `Processor`
in `html_parser.py` (MuBook utilities) and proves properties of it in Dafny.
A `Processor` is built from one saved subject page of the University of
Melbourne handbook. Once BeautifulSoup has pulled the text of each field out
of the page, the processor:

- builds the page URL from the file name;
- splits the subject code and name out of the title;
- splits the commencement note on `<br>`, keeps the study-period lines with
  their line-break tags removed, and joins them with `<br>`;
- strips a trailing `</br>` from the time commitment;
- turns anchor tags into paragraph tags, in the prerequisite text and in the
  corequisite fallback;
- extracts subject codes (`[A-Z]{4}\d{5}`) from the prerequisite and
  non-allowed-subject texts.

Each regular expression is written as an explicit left-to-right scanner over
`seq<char>`. The scanners follow the matching rules of Python's `re`:
leftmost match, greedy quantifiers, and non-overlapping matches in `findall`,
`sub` and `split`. Each scanner is tied to an independent description of
what it matches:

- The match at the front (`MatchLen`, `BrLen`) is characterised through the
  predicates `IsAnchorTag` and `IsBrTag`.
- The two substitutions (`Rewrite`, `StripBr`) are pinned down step by
  step by two lemmas each, stated with those predicates: what happens to a
  whole tag at the front, and what happens to a character at which no tag
  starts, `<` included.
- The search is proved equivalent to a marker occurring in the text.
- The `<br>` split is proved to round-trip through `Join`, with no `<br>`
  left in any piece.
- The code set is proved equal to the set of code-shaped runs of the text.
- The tokens of `split()` are proved to be the maximal runs of
  non-whitespace, in order.

Modules, one file each:

- `Text` (`text.dfy`): `Option`, and Python's `''.join` and `sep.join`.
- `SubjectCodes` (`codes.dfy`): `code_regex.findall`, as used by
  `prereq_code` and `nonallowed_code`.
- `Anchors` (`anchors.dfy`): `anchor_regex.sub(r"<\1p>", …)`.
- `Commencement` (`commence.dfy`): `re.split("<br>", …)`, the
  `semester_regex` search, `re.sub(r"</?br/?>", "", …)` and
  `__join_commence_dates`. The join is an imperative loop with its
  invariants.
- `PageFields` (`fields.dfy`): the URL, the title split and the `</br>`
  strip.
- `HandbookPage` (`processor.dfy`): the class `Processor`. Its fields are
  updated in place, as in the source. The page's extracted strings come in
  as a `PageText` value.

Some behaviour of the source, as modelled:

- The anchor pattern `<(/?)a[^>]*>` matches any tag whose name starts with
  `a`, for example `<abbr>` and `<area>`, and not just links.
- A `<` followed by `a` with no later `>` is copied unchanged.
- The corequisite fallback rewrites each cell item on its own. So an anchor
  split across two items is not rewritten (`Anchors.SplitTagSurvives`).
- `re.sub(r"</?br/?>", "", …)` does not rescan its output. So `<<br>br>`
  becomes `<br>`, and the kept commencement lines can still contain a
  line-break tag. The model states only what the source guarantees.
- `title.split()` runs on a BeautifulSoup string, which is unicode in
  Python 2. So whitespace is Python 2.7's unicode whitespace: `\t`–`\r`,
  `\x1c`–`\x1f`, space, `\x85`, `\xa0`, U+1680, U+180E, U+2000–U+200A,
  U+2028, U+2029, U+202F, U+205F and U+3000.
- The code and prerequisite texts are Python 2 byte strings, so `\d` means
  `0`–`9`.

## Model

| member | source | states |
|---|---|---|
| `SubjectCodes.FindAll` | html_parser.py:19 | every item the `findall` scan returns is four upper-case letters A–Z followed by five digits 0–9 |
| `SubjectCodes.CodesDoNotOverlap` | html_parser.py:19 | two runs matching `[A-Z]{4}\d{5}` never overlap, so the non-overlapping scan can skip none |
| `SubjectCodes.FindAllSound` | html_parser.py:81-85 | every code the scan reports is a nine-character run of the text that matches the pattern |
| `SubjectCodes.FindAllComplete` | html_parser.py:81-85 | every nine-character run of the text that matches the pattern is reported by the scan |
| `SubjectCodes.CodeSetExact` | html_parser.py:81-85 | `c` is in `set(findall(text))` if and only if `c` is a pattern-matching nine-character run of the text |
| `SubjectCodes.CodeSetMembers` | html_parser.py:81-85 | every returned code has length 9, matches `[A-Z]{4}\d{5}` and occurs contiguously in the scanned text |
| `SubjectCodes.CodeSetEmpty` | html_parser.py:81-85 | a text with no nine-character run of that form yields the empty set |
| `Anchors.MatchLen` | html_parser.py:21 | at the start of a string, the anchor pattern matches exactly the prefix that is `<`, an optional `/`, `a`, non-`>` characters, `>`; that match is unique, and no match means no prefix has that form |
| `Anchors.RewriteIsAnchorFree` | html_parser.py:100-101 | after the rewrite, no substring matches `<(/?)a[^>]*>` |
| `Anchors.RewriteFreeUnchanged` | html_parser.py:100-101 | a string with no match is returned unchanged |
| `Anchors.RewriteIdempotent` | html_parser.py:100-101 | rewriting an already rewritten string changes nothing |
| `Anchors.ReplacesLeadingTag` | html_parser.py:21 | an opening anchor tag becomes `<p>` and a closing one `</p>`, and the rest of the text is rewritten after it |
| `Anchors.CopiesPlainText` | html_parser.py:100-101 | a run of text without `<` is copied unchanged, and the rest is rewritten after it |
| `Anchors.CopiesUnmatched` | html_parser.py:100-101 | a character at which no match of the anchor pattern starts, a `<` of `<li>` or `<b>` included, is copied unchanged and the scan resumes at the next character |
| `Anchors.RewriteItems` | html_parser.py:55-58 | one result per cell item, and no result holds an anchor match |
| `Anchors.RewriteEachOfFreeItems` | html_parser.py:55-58 | when no item holds an anchor match, the fallback returns the items joined with `''`, unchanged |
| `Anchors.RewriteEachAppend` | html_parser.py:55-58 | the fallback on a cell split in two parts is the fallback on each part, joined: each item's result is independent of its neighbours |
| `Anchors.RewriteEachSingle` | html_parser.py:55-58 | on a cell of one item the fallback is the rewrite of that item |
| `Anchors.SplitTagSurvives` | html_parser.py:55-58 | the corequisite fallback rewrites each cell item on its own, so an anchor tag split across two items stays in the joined text, although the same text in one piece would become `<p>` |
| `Commencement.SplitOnBr` | html_parser.py:37 | `re.split("<br>", s)` yields at least one piece, and the first piece is a prefix of `s` |
| `Commencement.SplitJoinRoundTrip` | html_parser.py:37 | joining the pieces of `re.split("<br>", s)` with `<br>` gives back `s` |
| `Commencement.SplitPiecesHaveNoBr` | html_parser.py:37 | no piece of the split contains `<br>` |
| `Commencement.SearchFindsMarker` | html_parser.py:20 | the `semester_regex` search succeeds if and only if `Summer Term`, `Semester`, ` - Taught on campus.` or ` - Taught online/distance.` occurs in the item |
| `Commencement.BrLen` | html_parser.py:97 | at the start of a string, `</?br/?>` matches exactly one of `<br>`, `</br>`, `<br/>`, `</br/>`, and at most one of them |
| `Commencement.StripBr` | html_parser.py:97 | removing the line-break tags never lengthens the item (its full behaviour is pinned by the three lemmas below) |
| `Commencement.StripBrDropsLeadingTag` | html_parser.py:97 | a leading `<br>`, `</br>`, `<br/>` or `</br/>` is deleted |
| `Commencement.StripBrKeepsUnmatched` | html_parser.py:97 | a character at which no `</?br/?>` tag starts, a `<` of `<b>` or `<brr>` included, is kept and the scan resumes at the next character |
| `Commencement.StripBrCopiesPlainText` | html_parser.py:97 | text without `<` is kept unchanged |
| `Commencement.JoinCommenceDates` | html_parser.py:93-98 | the append-then-drop-four loop returns the kept items joined by `<br>`, with no trailing separator |
| `Commencement.NoMarkerNoDates` | html_parser.py:93-98 | when no item contains a study-period marker, nothing is kept and the result is `''` |
| `Commencement.KeptSelectsSearched` | html_parser.py:93-98 | the kept items are exactly the items the `semester_regex` search accepts, in input order, each with its line-break tags removed |
| `Commencement.KeptSelectsMarked` | html_parser.py:93-98 | the kept items are exactly the items containing a marker, in input order, each with its line-break tags removed; unmarked items never contribute |
| `PageFields.PageUrl` | html_parser.py:27 | the URL starts with `PREFIX`, followed by the file name without its last five characters, or by nothing if the name is shorter than five characters |
| `PageFields.UrlOfSavedPage` | html_parser.py:27 | the page saved as `<stem>.html` gets the URL `PREFIX + stem` |
| `PageFields.Words` | html_parser.py:31 | every token of `split()` is non-empty and contains no whitespace |
| `PageFields.WordsKeepAllText` | html_parser.py:31 | the tokens, concatenated, are the title's non-whitespace characters in order |
| `PageFields.WordsAt` | html_parser.py:31 | the tokens of `split()` are the maximal runs of non-whitespace, in order: each sits at a witnessed position with the start or whitespace before it and whitespace or the end after it, tokens do not touch, and every non-whitespace character lies in a token |
| `PageFields.TitleCode` | html_parser.py:31 | there is a code if and only if the title has a token, and the code is a token |
| `PageFields.TitleCodeIsFirstToken` | html_parser.py:31 | the code is the first whitespace-delimited token: only whitespace before it, and whitespace or the end after it |
| `PageFields.WordsOfJoin` | html_parser.py:67 | tokens joined by single spaces split back into the same tokens |
| `PageFields.JoinIsSingleSpaced` | html_parser.py:67 | tokens joined by single spaces have no leading, trailing or doubled space, and no whitespace other than a space |
| `PageFields.TitleNameWords` | html_parser.py:67 | the name is single-spaced and its tokens are the title's tokens after the code |
| `PageFields.WithoutClosingBr` | html_parser.py:48-49 | the result is always a prefix of the time commitment; exactly the last five characters are removed when the text ends in `</br>`, and otherwise it is unchanged |
| `PageFields.StripAppendedBr` | html_parser.py:48-49 | stripping a time commitment that ends in `</br>` gives back the text before that `</br>` |
| `HandbookPage.CleaningKeepsCodes` | html_parser.py:76-82 | the codes found in the cleaned prerequisite text are among the codes of the text before cleaning; the rewrite never creates a code |
| `HandbookPage.Processor.Load` | html_parser.py:23-31 | building a processor fails (IndexError) exactly when the title has no token; otherwise every field holds what `__init__` computes |
| `HandbookPage.Processor.constructor` | html_parser.py:23-79 | sets the URL, title, code, name, commencement date (or `Not Offered this year`), stripped time commitment, corequisite (nested text or per-item rewrite) and pass-through fields, then cleans the prerequisite links, leaving a prerequisite text with no anchor match |
| `HandbookPage.Processor.CleanPrerequisiteLink` | html_parser.py:100-101 | the prerequisite field is replaced in place by its rewrite, which contains no anchor match; no other field changes |
| `HandbookPage.Processor.PrereqCode` | html_parser.py:81-82 | returns the code set of the prerequisite field; every element is a code occurring in that field |
| `HandbookPage.Processor.NonallowedCode` | html_parser.py:84-85 | returns the code set of the non-allowed-subjects field; every element is a code occurring in that field |

## Left out

- The crawler in `scraper.py` is not part of this model. Its `Worker` and `Controller` threads, the shared semaphore, the retry loop around `requests.get`, the file writes and the directory creation are concurrency, network and filesystem I/O.
- The BeautifulSoup lookups in `Processor.__init__` (reading the file, `select`, `find`, `next_sibling`, `contents`, `str` of a tag) are a foreign library. `PageText` holds the strings they produce. `commencement` is `None` where the lookup of the study-period note raises and the source falls back to `Not Offered this year`.
- HandbookPage.Processor.Load: only the IndexError from an empty title is modelled. The AttributeError raised when a lookup finds no heading is part of the tree navigation, which is left out.
- `credit` is modelled as a string. The source's `.string` can be `None`, and `float(p.credit or 0)` is floating point in database code.
- `process_subject`, `process_prereq`, `process_nonallowed`, `clear_old_subjects_relationships`, `update_subjects` and `update` are database I/O through the Django ORM.
- `prerequisite()` calls `PrerequisiteParser`, whose import is commented out in the source, and `utils/prerequisite_parser.py` is not part of this model.
- `pre_subjects_codes` reads an attribute that is never set, so it cannot run.
- `__str__`, `setup_logger`, logging, `print`, `test_process` and the `.encode('utf-8')` calls are output formatting and I/O. Strings are plain sequences of characters, with no encoding.
- Python's general `re` engine is not modelled. Only the five fixed patterns used here are written out as scanners.

