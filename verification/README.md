# A verified model of the documentation crawler

This project models the core of `api-crawler/crawler.py` in Dafny and proves
properties of it. The crawler fetches documentation pages, takes the main
content region of each page apart and writes the pages into one text file.
The model covers three parts of it.

- **`clean_text` (lines 31-68).** A pure transform from text to text. It strips
  every line, applies four literal artifact substitutions, re-inserts the
  space HTML flattening removed between a lower-case and an upper-case
  letter, and collapses runs of blank lines. Modules:
  - `Normalizer` holds the definition and the scans as written.
  - `SubstituteFacts`, `RepairFacts`, `SqueezeFacts` and `CleanFacts` hold its
    properties.
  - `Chars`, `Strings`, `LineBreaks` and `Replace` give Python's `str.strip`,
    `in`, `splitlines`, `'\n'.join` and `str.replace`.
- **Placeholder preservation in `get_page_content` (lines 90-148).** The page is
  an abstract `Article`: an optional heading, plus a body of leaves (text or
  an inline code element), tables and hidden script/style nodes.
  - Code elements become `[CODE_BLOCK_n]` tokens and tables become `[TABLE_n]`
    tokens (`Tokens`).
  - Code text is right-stripped per line and stripped as a whole (`CodeBlocks`).
  - Tables are rendered to pipe-separated text (`Tables`).
  - The text is cleaned; tokens survive the cleaning (`TokenSurvival`). The
    stored blocks are then put back by replacement (`Restore`,
    `RestoreFacts`).
  - `Page` puts the pieces together.
- **The frontier loop of `crawl_docs` (lines 165-214) and the section layout
  (lines 195-200).** The site is an oracle: for each address, whether
  `get_page_content` raises, the `(title, content)` it returns, whether the
  second fetch for links raises, and the `href`s of the page. `urljoin` is a
  function parameter. The loop (`Crawler.Crawl`) is one transition,
  `Crawler.Visit`, applied to an arbitrarily chosen frontier element, as
  `set.pop()` does.

Python's text semantics are modelled as follows:
- `str.isupper`, `str.islower` and `str.strip` on ASCII;
- `'\n'` as the only line break, with `splitlines` being `split('\n')` without
  a final empty piece;
- `str.replace` as a left-to-right scan that skips past each replaced
  occurrence.

Some behaviours of the code are easy to miss, and the model keeps them:
- A blank first line is kept, because `prev_empty` starts `False` at line 36
  (`CleanFacts.CleanTextLeadingBlank`).
- Cleaning is not idempotent. A second pass can drop one trailing empty line
  (`CleanFacts.CleanTextNearIdempotent`).
- A code block loses the indentation of its first line to the `.strip()` of
  line 96 (`CodeBlocks.FirstLineLosesIndent`).
- A discovered link must start with the start address and contain `/docs/`
  (lines 209-211, `Crawler.Admissible`).
- Links are not checked against the frontier, since adding to a set is
  idempotent.
- The page counter moves only when both title and content are non-empty
  (line 194).
- The restore of lines 142-148 puts code blocks back before tables, so a code
  element inside a table cell leaves its token in the page (see Findings).
  `Page.PageContent` keeps that order; `Page.PageContentFixed` swaps it.

## Model

| member | source | states |
|---|---|---|
| Chars.Strip | api-crawler/crawler.py:34 | the result is a contiguous infix of the line. Everything cut off at either end is whitespace, the result starts and ends with non-whitespace, and a line already stripped is returned unchanged |
| Chars.RStrip | api-crawler/crawler.py:94-95 | the result is a prefix of the line, everything cut off is whitespace, and the result does not end in whitespace |
| LineBreaks.JoinSplit | api-crawler/crawler.py:34-68 | joining the `'\n'`-separated pieces of a text with `'\n'` gives the text back |
| LineBreaks.SplitJoin | api-crawler/crawler.py:34-68 | splitting a `'\n'`-join of newline-free lines gives the lines back |
| LineBreaks.LinesJoin | api-crawler/crawler.py:34-68 | `splitlines` of a `'\n'`-join of newline-free lines gives the lines back, except that a final empty line is lost |
| LineBreaks.OccurrenceInLine | api-crawler/crawler.py:34 | a newline-free string that occurs in a text occurs in one of its `splitlines` lines |
| Replace.ReplaceIsSplitJoin | api-crawler/crawler.py:40-43 | replacing every occurrence of `p` by `r` equals splitting the text at `p` and joining the pieces with `r` |
| Replace.JoinSplitOn | api-crawler/crawler.py:40-43 | splitting at `p` and joining with `p` gives the text back |
| Replace.ReplaceAbsent | api-crawler/crawler.py:40-43 | a text without the pattern is left unchanged |
| Replace.ReplacementShows | api-crawler/crawler.py:144 | if the pattern occurs, the replacement occurs in the result |
| Replace.ReplaceKeepsAbsent | api-crawler/crawler.py:40-43 | a string that cannot straddle the replacement text, or sit partly inside it, is absent from the result if it was absent before or is the pattern itself |
| Replace.ReplaceKeepsContained | api-crawler/crawler.py:40-43 | a string that cannot overlap the pattern survives the replacement |
| Normalizer.AcronymGuardImplied | api-crawler/crawler.py:51-53 | a word ending in a lower-case letter never ends in REST, API, UI, JSON or SDK, so the acronym test never changes the outcome |
| Normalizer.Repair | api-crawler/crawler.py:47-59 | the repaired line keeps the first and last characters and is never shorter. Lines of at most one character are untouched |
| Normalizer.RepairScan | api-crawler/crawler.py:47-59 | the current-word scan as written, with the acronym guard and the `' '.join`, equals the declarative repair that puts one space before each lower-to-upper boundary |
| Normalizer.CleanTextScan | api-crawler/crawler.py:31-68 | the single loop as written, which strips, substitutes, runs the word-repair scan and collapses blank lines with a `prev_empty` flag starting `False`, equals the declarative `CleanText`: every line cleaned on its own, then a blank line dropped exactly when the line before it is blank |
| Normalizer.Squeeze | api-crawler/crawler.py:61-66 | the collapse never lengthens the lines and keeps the first and the last line |
| SubstituteFacts.PatternsSafe | api-crawler/crawler.py:40-43 | no replacement can be laid over its own pattern or over the pattern of an earlier substitution |
| SubstituteFacts.SubstituteNoPatterns | api-crawler/crawler.py:40-43 | none of the four patterns is left after the substitutions, even across a replacement boundary |
| SubstituteFacts.SubstituteIdempotent | api-crawler/crawler.py:40-43 | applying the substitutions twice equals applying them once |
| SubstituteFacts.SubstituteNoop | api-crawler/crawler.py:40-43 | a line holding none of the patterns is unchanged |
| SubstituteFacts.SubstituteEmpty | api-crawler/crawler.py:40-43 | a line is empty after the substitutions exactly when it was empty before |
| SubstituteFacts.SubstituteStripped | api-crawler/crawler.py:34-43 | a stripped line stays stripped |
| SubstituteFacts.SubstituteNoNewline | api-crawler/crawler.py:40-43 | the substitutions bring in no line feed |
| RepairFacts.RepairSnoc | api-crawler/crawler.py:50-57 | appending a character appends it to the repaired line, after a space exactly when the previous character is lower-case and the new one upper-case |
| RepairFacts.RepairLength | api-crawler/crawler.py:47-59 | the repaired line is longer by exactly the number of lower-to-upper boundaries |
| RepairFacts.RepairDropSpaces | api-crawler/crawler.py:47-59 | deleting all spaces from the repaired line and from the line gives the same text |
| RepairFacts.RepairInsertsOnlySpaces | api-crawler/crawler.py:47-59 | the repair inserts exactly one character per boundary, and that character is a space |
| RepairFacts.RepairNoBoundary | api-crawler/crawler.py:47-59 | no lower-case letter is directly followed by an upper-case letter after the repair |
| RepairFacts.RepairBoundaryFree | api-crawler/crawler.py:47-59 | a line without boundaries is unchanged |
| RepairFacts.RepairIdempotent | api-crawler/crawler.py:47-59 | repairing twice equals repairing once |
| RepairFacts.RepairGetStarted | api-crawler/crawler.py:47-59 | "GetStarted" becomes "Get Started" |
| RepairFacts.RepairRestApi | api-crawler/crawler.py:47-59 | "RESTApi" is unchanged |
| RepairFacts.RepairJsonData | api-crawler/crawler.py:47-59 | "JSONData" is unchanged |
| RepairFacts.RepairAcrossBoundary | api-crawler/crawler.py:47-59 | a repaired word ending in a lower-case letter, followed by a boundary-free word starting upper-case, gets exactly one space between them |
| RepairFacts.RepairPrefix | api-crawler/crawler.py:47-59 | the repair of a prefix is a prefix of the repair |
| RepairFacts.RepairKeepsAbsent | api-crawler/crawler.py:47-59 | a string with no space before an upper-case letter and not ending in a space does not appear through the repair |
| RepairFacts.RepairKeepsPresent | api-crawler/crawler.py:47-59 | a boundary-free string occurring in the line occurs in the repaired line |
| SqueezeFacts.SqueezeNoDoubleBlank | api-crawler/crawler.py:61-66 | the output never has two consecutive empty lines |
| SqueezeFacts.SqueezeFixed | api-crawler/crawler.py:61-66 | a sequence without two consecutive empty lines is unchanged |
| SqueezeFacts.SqueezeNonBlank | api-crawler/crawler.py:61-66 | the non-empty lines of the output are exactly those of the input, in order |
| SqueezeFacts.SqueezeFromInput | api-crawler/crawler.py:61-66 | every output line is an input line |
| SqueezeFacts.SqueezeKeepsLine | api-crawler/crawler.py:61-62 | every non-empty input line is in the output |
| SqueezeFacts.LeadingBlankKept | api-crawler/crawler.py:36 | a blank first line followed later by a non-blank line is kept as the first output line |
| CleanFacts.PatternsRepairSafe | api-crawler/crawler.py:40-59 | no pattern can be created by the word repair |
| CleanFacts.ProcessLineShape | api-crawler/crawler.py:34-59 | a cleaned line is stripped and empty exactly when the stripped input is. It holds no line feed, none of the four patterns and no lower-to-upper boundary |
| CleanFacts.ProcessLineFixed | api-crawler/crawler.py:34-59 | cleaning a cleaned line changes nothing |
| CleanFacts.ProcessAllNonBlank | api-crawler/crawler.py:34-59 | the non-empty cleaned lines are the cleaned non-blank input lines, one to one and in order |
| CleanFacts.CleanLinesNonBlank | api-crawler/crawler.py:34-66 | the non-empty output lines of `clean_text` are the cleaned non-blank input lines, one to one and in order |
| CleanFacts.CleanLine | api-crawler/crawler.py:34-66 | every output line holds no line feed and no boundary, and cleaning it again leaves it unchanged |
| CleanFacts.CleanLinesShape | api-crawler/crawler.py:34-66 | the output lines hold no line feed and no two consecutive empty lines, and every one of them is a fixed point of the line cleaning |
| CleanFacts.CleanOfJoin | api-crawler/crawler.py:31-68 | cleaning a `'\n'`-join of already-clean lines gives the same lines back, without a final empty line |
| CleanFacts.JoinDropTrailingBlank | api-crawler/crawler.py:68 | dropping a final empty line from the lines removes exactly the final line feed of their join |
| CleanFacts.CleanTextNearIdempotent | api-crawler/crawler.py:31-68 | cleaning the output again gives it back, minus one final line feed if it ends in one |
| CleanFacts.CleanTextSettles | api-crawler/crawler.py:31-68 | the third cleaning equals the second |
| CleanFacts.CleanTextLeadingBlank | api-crawler/crawler.py:36 | a text whose first line is blank and that has a later non-blank line cleans to a text starting with a line feed |
| CleanFacts.CleanTextNoBoundary | api-crawler/crawler.py:31-68 | the cleaned text has no lower-case letter directly followed by an upper-case letter |
| Tokens.NatToString | api-crawler/crawler.py:97 | the decimal form of a number is non-empty, all digits, and has no leading zero |
| Tokens.ParseNatToString | api-crawler/crawler.py:97 | reading back the decimal form of a number gives the number |
| Tokens.NatToStringInjective | api-crawler/crawler.py:97 | different numbers have different decimal forms |
| Tokens.Token | api-crawler/crawler.py:97 | a token is its prefix, then only digits, then `]` |
| Tokens.TokensInert | api-crawler/crawler.py:97 | both tokens start with `[` and an upper-case letter and hold only upper-case letters, digits, `_` and `]` after that |
| Tokens.TokensDistinct | api-crawler/crawler.py:97 | `[CODE_BLOCK_i]` never occurs inside `[CODE_BLOCK_j]` for i ≠ j, and the same holds for `[TABLE_i]` |
| Tokens.CodeAndTableTokensApart | api-crawler/crawler.py:97 | a code token never occurs inside a table token, nor the other way round |
| TokenSurvival.InertShape | api-crawler/crawler.py:140 | a token holds no whitespace, no line feed and no lower-to-upper boundary |
| TokenSurvival.StripKeepsPresent | api-crawler/crawler.py:34 | a whitespace-free string in a line is in the stripped line |
| TokenSurvival.PatternsMissInert | api-crawler/crawler.py:40-43 | no artifact pattern can overlap a token |
| TokenSurvival.LineKeepsInert | api-crawler/crawler.py:34-59 | a token in a line is in the cleaned line |
| TokenSurvival.InertSurvivesClean | api-crawler/crawler.py:31-68 | a token anywhere in a text is in the cleaned text |
| TokenSurvival.TokenSurvivesClean | api-crawler/crawler.py:140 | a code or table token in the page text survives `clean_text` |
| CodeBlocks.CodeTextShape | api-crawler/crawler.py:94-96 | a stored code block has no leading or trailing whitespace and no line ending in whitespace |
| CodeBlocks.CodeTextFixed | api-crawler/crawler.py:94-96 | a block that is already stripped and trimmed per line is stored unchanged |
| CodeBlocks.CodeTextIdempotent | api-crawler/crawler.py:94-96 | normalising a stored block again changes nothing |
| CodeBlocks.FirstLineLosesIndent | api-crawler/crawler.py:96 | the block `"  a\n  b"` is stored as `"a\n  b"`: the first line loses its indentation and the second keeps it |
| RestoreFacts.RestoreScan | api-crawler/crawler.py:143-148 | one `enumerate` restore loop as written: when no stored block holds a token of its kind, no token 1..n of that kind is left, and every block whose token was in the content is in the result, framed |
| RestoreFacts.RestoreAsWrittenScan | api-crawler/crawler.py:142-148 | the two loops as written, code blocks first. Every table whose token was in the content is shown, framed, when no table holds a table token. A code block whose token was in the content is shown, fenced, when no code block holds a code token and this one holds no table token. No token of either kind is left when no code block holds a code token and no table holds a token of either kind |
| RestoreFacts.FrameFramesInert | api-crawler/crawler.py:144-148 | a framed block whose body holds no token can neither create nor break up that token |
| RestoreFacts.TokensNoOverlap | api-crawler/crawler.py:143-148 | two different tokens of one kind cannot overlap |
| RestoreFacts.KindsNoOverlap | api-crawler/crawler.py:143-148 | a code token and a table token cannot overlap |
| RestoreFacts.RestoreKeepsAbsent | api-crawler/crawler.py:143-148 | a token-shaped string absent from the text and from every stored block is absent after a restore loop |
| RestoreFacts.RestoreClears | api-crawler/crawler.py:143-148 | if no stored block holds a token, no token 1..n of that kind is left after its loop |
| RestoreFacts.RestoreKeepsPresent | api-crawler/crawler.py:143-148 | a string that cannot overlap any token survives a restore loop |
| RestoreFacts.RestoreShows | api-crawler/crawler.py:143-148 | if token k is in the text and no stored block holds a token, the framed block k is in the result |
| RestoreFacts.RestoreFixedClears | api-crawler/crawler.py:142-148 | with token-free blocks, neither code nor table tokens are left after the corrected restore |
| RestoreFacts.RestoreFixedShowsCode | api-crawler/crawler.py:143-144 | a code token in the cleaned text becomes its fenced block in the corrected restore |
| RestoreFacts.RestoreFixedShowsTable | api-crawler/crawler.py:147-148 | a table token in the cleaned text becomes its framed table in the corrected restore, provided that table's text holds no code token |
| RestoreFacts.RestoreAsWrittenShowsCode | api-crawler/crawler.py:142-148 | in the order as written, a code token in the content becomes its fenced block, provided that block holds no table token for the later table loop to cut |
| RestoreFacts.RestoreAsWrittenShowsTable | api-crawler/crawler.py:142-148 | in the order as written, a table token in the content becomes its framed table, whatever the table's text holds, since the table loop runs last |
| RestoreFacts.RestoreAsWrittenClears | api-crawler/crawler.py:142-148 | the as-written order also clears every token, provided no table text holds a code token |
| RestoreFacts.AsWrittenLeavesCodeToken | api-crawler/crawler.py:142-148 | with the order as written, a table whose text is `[CODE_BLOCK_1]\n` leaves `[CODE_BLOCK_1]` in the page |
| RestoreFacts.FixedPutsCodeBack | api-crawler/crawler.py:142-148 | with the tables restored first, the same page holds no token and shows the fenced code block |
| RestoreFacts.FixedClearsExample | api-crawler/crawler.py:142-148 | the same input satisfies the token-freedom premises of the corrected restore, and no token is left |
| Tables.FirstCodeFirst | api-crawler/crawler.py:108-110 | `find('code')` finds nothing exactly when the cell holds no code element, and otherwise the first one: only text comes before it in the cell |
| Tables.RowHeadersMembers | api-crawler/crawler.py:103 | the header cells of a row are exactly its `th` cells |
| Tables.RowHeadersSnoc | api-crawler/crawler.py:103 | one more cell adds itself to the header cells exactly when it is a `th` cell, so the header cells keep the document order and repetitions that the join of line 113 uses |
| Tables.CellText | api-crawler/crawler.py:108-112 | a cell without code renders as stripped text, and a cell with code as a backquoted stripped code text |
| Tables.TableScan | api-crawler/crawler.py:101-131 | the loop as written, which compares each row with `table_text.splitlines()[0]`, equals the declarative table text |
| Tables.TableTextLines | api-crawler/crawler.py:113-114 | with headers, line 1 of the table text is the header cells joined by a space, a bar and a space and line 2 is 20 dashes per header cell |
| Tables.TableTextEnds | api-crawler/crawler.py:113-130 | the table text is empty exactly when no line was written, and otherwise ends in a line feed |
| Tables.FirstLineIsKey | api-crawler/crawler.py:129 | the first line of the table text at the time rows are compared is the first line of the header text |
| Tables.EmittedFromKept | api-crawler/crawler.py:117-130 | every row line in the table text comes from a row with cells whose text differs from the header line |
| Tables.KeptEmitted | api-crawler/crawler.py:117-130 | every row with cells whose text differs from the header line is in the table text |
| Tables.EmittedAllRows | api-crawler/crawler.py:129 | without headers, every row with cells is written, in order |
| Tables.HeaderRowSkipped | api-crawler/crawler.py:129 | with headers, a row that renders exactly as the header line is never written |
| Tables.ConcatLinesLines | api-crawler/crawler.py:113-130 | `splitlines` of lines each written with a trailing line feed gives those lines back |
| Page.GetPageContent | api-crawler/crawler.py:75-150 | a missing region gives `(None, None)`. Otherwise there is a title, the `h1` text or the address, and a content. Every table is in the content between line feeds when no stored table holds a table token. Every code element outside a table is in the content as its fenced block when no stored code block holds a code or table token |
| Page.RenderTables | api-crawler/crawler.py:100-133 | the table loop stores the rendered text of every table, in document order |
| Page.ExtractCodesAt | api-crawler/crawler.py:91-97 | every node is numbered after the code elements of the nodes before it |
| Page.ExtractTablesAt | api-crawler/crawler.py:100-133 | every node is numbered after the tables before it |
| Page.ExtractRowsPlain | api-crawler/crawler.py:92-97 | after the code pass no table cell holds a code element |
| Page.CellsHoldNoCode | api-crawler/crawler.py:92-97 | every cell of every table that reaches the renderer has no code, so the backquote branch of lines 108-110 and 123-125 is never taken |
| Page.CodeTokenPlaced | api-crawler/crawler.py:97-140 | the token of a code element is in the cleaned text, with the number of code elements before it plus one |
| Page.CodeNumbered | api-crawler/crawler.py:96-97 | stored code block number k is the normalised text of the k-th code element |
| Page.CodeElementShown | api-crawler/crawler.py:90-148 | with the restore order as written, if no stored code block holds a code or table token, every code element outside a table appears in the content as its fenced block |
| Page.CodeElementShownFixed | api-crawler/crawler.py:90-148 | with the restore loops swapped, the same holds when no stored code block holds a code token |
| Page.TableTokenPlaced | api-crawler/crawler.py:133-140 | the token of a table is in the cleaned text, with the number of tables before it plus one |
| Page.TableNumbered | api-crawler/crawler.py:132-133 | stored table number k is the rendering of the k-th table |
| Page.TableElementShown | api-crawler/crawler.py:99-148 | with the restore order as written, if no stored table holds a table token, every table appears in the content between line feeds, code tokens in its text included |
| Page.TableElementShownFixed | api-crawler/crawler.py:99-148 | with the restore loops swapped, a table appears verbatim only if its text holds no code token as well |
| Crawler.Fetch | api-crawler/crawler.py:72 | a known address gives the site's response for it; an address the site does not know gives a response whose fetch raises, with no page, no links and a failing link fetch |
| Crawler.Rule | api-crawler/crawler.py:181 | the rule is 80 characters, every one of them `=` |
| Crawler.FileHeaderLines | api-crawler/crawler.py:178-181 | the file header reads back as the timestamp line, the source line (`LINKS_LIST` or the start address), the rule and a blank line, followed by the lines of what comes after it, provided timestamp and start address are single lines |
| Crawler.SectionRoundTrip | api-crawler/crawler.py:195-200 | reading back a section gives its title, address and content, whatever the content, provided title and address are single lines |
| Crawler.SectionOf | api-crawler/crawler.py:191-201 | an address writes nothing exactly when the page raised or its title or content is missing or empty |
| Crawler.Pages | api-crawler/crawler.py:201 | the page counter never exceeds the number of addresses processed |
| Crawler.InitInvariant | api-crawler/crawler.py:165-174 | the first frontier satisfies the loop invariant |
| Crawler.VisitKeeps | api-crawler/crawler.py:183-212 | one iteration keeps the loop invariant |
| Crawler.VisitBookkeeping | api-crawler/crawler.py:184-189 | frontier and visited set stay disjoint, every address is processed once, the visited set strictly grows and the processed addresses are only appended to |
| Crawler.VisitCounted | api-crawler/crawler.py:194-201 | the counter stays the number of processed addresses that wrote a section |
| Crawler.VisitWithinBudget | api-crawler/crawler.py:183-201 | the counter never passes `MAX_PAGES` |
| Crawler.VisitFrontier | api-crawler/crawler.py:203-212 | in `LINKS_LIST` mode only seeds are ever seen. In open mode every address seen is the start address or starts with it and contains `/docs/` |
| Crawler.VisitBounded | api-crawler/crawler.py:203-212 | no address outside the seeds and the links of the site is reached |
| Crawler.Crawl | api-crawler/crawler.py:165-214 | the loop as written terminates. The file is the header followed by the sections of the processed addresses in order. The counter counts written pages, no address is processed twice, and the frontier and visited set are disjoint. It stops on an empty frontier or a spent budget, the counter stays within `MAX_PAGES`, `LINKS_LIST` mode processes at most `len(LINKS_LIST)` seeds, and open mode visits only admissible addresses |
| Crawler.ClosedBound | api-crawler/crawler.py:169-170 | in `LINKS_LIST` mode there are at most `len(LINKS_LIST)` iterations |
| Crawler.SeedsBound | api-crawler/crawler.py:169-170 | there are at most `len(LINKS_LIST)` seeds |
| Crawler.Iteration | api-crawler/crawler.py:184-212 | one pass of the loop body as written, from the pop to the last `to_visit.add`, is the transition `Visit` and writes the section `SectionOf` gives. The popped address is visited and never queued again. While the loop runs, the pass keeps the loop invariant, strictly grows the visited set, appends the address to the processed ones, keeps frontier and visited set apart, writes nothing exactly when the page is not written, and leaves the counter equal to the number of written pages |
| Crawler.FollowLinks | api-crawler/crawler.py:203-212 | links are added only in open mode, only when the page and the second fetch did not raise, and then exactly the admissible, unvisited links |
| Crawler.WritePage | api-crawler/crawler.py:192-201 | the section written and the counter step agree with `SectionOf` and `Written`, and the counter moves exactly when a section is written |
| Crawler.Discover | api-crawler/crawler.py:206-212 | the anchor loop adds exactly the admissible, unvisited links, and every one of them is admissible and unvisited |
| Crawler.FoundSnoc | api-crawler/crawler.py:206-212 | one more anchor adds its resolved address exactly when it is admissible and unvisited |
| Crawler.OutputSnoc | api-crawler/crawler.py:195-200 | processing one more address appends its section, or nothing, to the file |

## Left out

- HTTP (`requests.get`, lines 72 and 205) is not modelled. The site is a map from address to response. A response says whether `get_page_content` raises, what it returns, whether the link fetch raises, and the `href`s.
- BeautifulSoup is not modelled: parsing, `find`, `find_all`, `replace_with`, `decompose` and `get_text`. The content region is an `Article`, a flat sequence of text leaves, inline code leaves, tables and hidden nodes. The `h1` text is a separate optional input.
- A `pre` element nested in or holding a `code` element is collected twice by line 92. The model has one code leaf per element.
- Nested tables are not modelled. Neither are script or style elements inside a table, which reach the table text because it is rendered before line 136 runs.
- The anchor rewriting of lines 79-84 is not modelled: it depends on `urljoin` and the DOM.
- `urljoin` is a function parameter, `resolve`, without properties.
- The order of `set.pop()` is an arbitrary choice (`:|`).
- The `.backup` rename (lines 154-163), opening and writing the output file, `time.strftime` (a `timestamp` parameter), `time.sleep`, `print` and the `__main__` block are not modelled. The output file is modelled as the string written to it.
- Full Unicode semantics of `isupper`, `islower`, `strip` and `splitlines` are not modelled. Only ASCII letters and whitespace and the `'\n'` line break are. The four artifact patterns are literal character strings.
- `CONFIG` (lines 22-29) is the `Config` parameter. `FOCUS_ELEMENT` is covered by the `Option<Article>` input.
- Page.CodeElementShown covers only code elements outside tables. A code element inside a table cell is not shown by the program at all: its token stays in the table text (see Findings).
- Fetch: an address absent from the site map is treated as a transport failure, so `get_page_content` raises. The program would also parse the body of a 404 reply, since nothing calls `raise_for_status`; such a reply is modelled as a site entry with that page.
- Crawler.Crawl assumes that the addresses it can reach are finite. Dafny sets are finite, so every site in the model satisfies this.

## Findings

| source | as written | input that shows it | evidently intended | confidence | as-written member | corrected member |
|---|---|---|---|---|---|---|
| api-crawler/crawler.py:142-148 | code tokens are restored before table tokens. A code element inside a table cell has already become `[CODE_BLOCK_k]` (lines 92-97) when the table is rendered (lines 101-131), so its token sits in the table text and is inserted only after the code loop has finished | a region holding one table with one cell `<td><code>x</code></td>`. The stored code is `x`, the stored table is `[CODE_BLOCK_1]\n`, the cleaned text is `[TABLE_1]`, and the content ends as `\n[CODE_BLOCK_1]\n\n` | no token is left in the page and the code inside a table reaches it. Lines 123-125 suggest it was meant to appear backquoted in its cell, but they can never fire (`Page.CellsHoldNoCode`). Restoring tables before code blocks is one possible repair: it clears every token and puts the fenced block where the token was, inside the table text, not the backquoted form | not executed | RestoreFacts.AsWrittenLeavesCodeToken | RestoreFacts.FixedPutsCodeBack |

`Page.PageContent` and `Page.GetPageContent` use the order as written,
`Restore.RestoreAsWritten`. `RestoreFacts.RestoreAsWrittenClears` shows it
clears every token when, besides the premises on each kind, no table's text
holds a code token. The repaired order is `Restore.RestoreFixed`, used by
`Page.PageContentFixed`. `RestoreFacts.RestoreFixedClears` shows it clears
every token even when a table holds code tokens, provided no code block holds
a table token.
