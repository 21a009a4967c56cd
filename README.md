# Paper pipelines: a verified model

This project models the logic of four small Python programs from one
personal research-archive repository, in Dafny, and proves what they promise.

- **The chunked PDF translator** (`translator/translator.py`). Its
  `PDFTranslator` object cleans extracted text and cuts it into sentence
  chunks. It then sends one prompt per chunk to a chat-translation service,
  with a bounded conversation history. It keeps the replies, or an error
  marker for a failed call. It logs each successful chunk, collects glossed
  terms into a first-wins glossary, and writes the translations as one
  text file.
- **The paper summariser's hygiene** (`my-project/paperbot.py`). It cleans
  file names, takes the first author's surname with `et al.`, and cleans
  text extracted from humanities papers. It composes the
  `Author (Year) Title` base name under which a summary is saved.
- **The index page generator** (`generate_index.py`). It reads such file
  names back into author, year and title, and builds one list item per
  readable name.
- **The daily digest** (`scripts/fetch_papers.py`). It cleans feed
  summaries, keeps the relevant entries with new links, sorts them newest
  first, and groups them by source.

Modules follow the programs:

- `Translator` (translator.dfy);
- `PaperBot` (paperbot.dfy);
- `IndexPage` (index_page.dfy);
- `Digest` (digest.dfy).

Two shared modules model the Python built-ins the programs rely on:

- `Text` (text.dfy):
  - `str.strip`, `str.split`, `str.join` and `str.lower`;
  - substring tests;
  - decimal formatting;
  - list filtering.
- `Sorting` (sorting.dfy): Python's stable sort, as a stable insertion sort
  over a comparison. It covers `sorted(...)` on `str` and
  `list.sort(key=..., reverse=True)`.

How the original's operations become Dafny:

- **Code that builds values** (substitutions, slicing, list
  comprehensions) becomes functions. These have lemmas about their results.
- **The loops that change state** become methods with loop invariants, each
  proved equal to a specification function:
  - the packing loop of `clean_and_chunk_text`;
  - `translate_text_chunks`;
  - `extract_terminology`;
  - the writing of the translation file;
  - the list loop of `generate_index_page`;
  - `fetch_and_filter`;
  - the grouping loop of `write_to_markdown`.
- **`PDFTranslator` is a class.** Its fields are `terminologyDict` and
  `translationLog`, and its methods update them in place.

Regular expressions are written out as explicit scanners, one per pattern,
and each follows Python's `re` semantics for that pattern:

- the sentence split;
- the author separator;
- the `(dddd)` year group with its lazy author group;
- the glossary patterns;
- `<.*?>`, where `.` does not match a line break;
- the eleven noise-line patterns;
- the two line-start prefix patterns.

Character classes are modelled as follows:

- Whitespace is the set of characters for which `str.isspace` holds.
- Digits and case are ASCII.

The outside world enters only as parameters:

- The translation service is a sequence of outcomes, one per chunk: the
  reply text or the reason the call failed.
- A feed is the list of its entries, or `Failed` when fetching or parsing
  raised before any entry was read.
- A feed date is either the `YYYY-MM-DD` text it formats to or `Unreadable`.
- The paper's metadata is an optional dictionary.
- A directory listing is a list of names.

## Notes on the code

- **History length.** `manage_conversation_history` keeps the system turn,
  up to `2 * max_history` earlier turns and the new reply
  (translator/translator.py:192-208). With the default of three rounds
  that is up to 8 messages. A request then adds the next prompt, for up
  to 9 messages.
- **Glossary patterns.** The first pattern takes a term between an
  opening 「 or 《 and a closing 」 or 》, in any pairing, so `「term》` is
  accepted too (translator/translator.py:222). The second takes a run of
  capitalised ASCII words (translator/translator.py:223). In both, the
  gloss must follow in full-width parentheses （）. ASCII quotes and
  parentheses yield nothing.
- **Text cleaner.** `clean_hss_paper_text` is a fixed line filter with
  eleven noise patterns (my-project/paperbot.py:205-225). It counts no
  line frequencies and tells headings from paragraphs nowhere.
- **Blank lines.** The line filter drops every blank line
  (my-project/paperbot.py:220), and the kept lines are joined with one
  line break. The cleaned text therefore never holds two line breaks in a
  row, and the `\n{3,}` substitution (my-project/paperbot.py:224) never
  matches. Paragraph breaks of the extracted text do not survive
  (`PaperBot.CleanHssPaperTextNoBlankLine`). Whether this was intended is
  not clear from the code, so it is not listed under Findings.
- **Chunk length.** `clean_and_chunk_text` does not bound chunks by the
  chunk size (translator/translator.py:68-76; see Findings).

## Model

| member | source | states |
|---|---|---|
| Translator.CollapseWhitespace | translator/translator.py:52 | collapsing whitespace runs to one space keeps the text empty or non-empty, and keeps whether it starts with whitespace |
| Translator.CollapseWhitespaceSpec | translator/translator.py:52 | the collapsed text has the same non-whitespace characters in order, and no two whitespace characters in a row and no line break |
| Translator.WordsCollapse | translator/translator.py:52 | collapsing whitespace keeps the `split()` words exactly |
| Translator.StripCollapsed | translator/translator.py:52 | a collapsed text, once stripped, is single-spaced |
| Translator.CollapseWhitespaceStrip | translator/translator.py:52 | `re.sub(r'\s+', ' ', s).strip()` equals `' '.join(s.split())` |
| Translator.FirstBreak | translator/translator.py:56 | the sentence scanner stops at the first whitespace run that follows `.`, `!` or `?`, and at no earlier position |
| Translator.SplitSentencesEnds | translator/translator.py:56 | every sentence but the last ends with `.`, `!` or `?` |
| Translator.SplitSentencesLossless | translator/translator.py:56 | splitting into sentences drops only the whitespace at the split points |
| Translator.Sentences | translator/translator.py:52-56 | the cleaned sentence list is non-empty and holds the text's non-whitespace characters in order |
| Translator.PackChunks | translator/translator.py:58-80 | the packing loop produces exactly the chunks of the packing specification |
| Translator.PackLossless | translator/translator.py:61-76 | the emitted chunks followed by the current chunk hold the sentences' non-whitespace characters in order |
| Translator.FlushSpec | translator/translator.py:79-80 | flushing the last chunk (stripped) loses only whitespace and keeps a length bound |
| Translator.ChunkTextLossless | translator/translator.py:47-83 | chunking loses nothing but whitespace and keeps order |
| Translator.PackWithinBudget | translator/translator.py:61-76 | every chunk is at most `chunk_size + 1` long, unless it is one oversized sentence, whole or after its first `chunk_size` characters were cut off |
| Translator.ChunkTextWithinBudget | translator/translator.py:47-83 | the same bound for the chunks returned, which are stripped |
| Translator.OversizedSentenceNotSplit | translator/translator.py:68-72 | an oversized sentence after a non-empty chunk is emitted unsplit: with size 3, `["ab", "cdefgh"]` gives a 6-character chunk |
| Translator.RemainderNotSplit | translator/translator.py:73-76 | what remains after a forced cut is never cut again: with size 3, `"abcdefgh"` gives `"abc"` and `"defgh"` |
| Translator.CutOversized | translator/translator.py:73-76 | the corrected forced split leaves a remainder within the chunk size |
| Translator.CutOversizedSpec | translator/translator.py:73-76 | repeated forced cuts emit chunks within the bound and lose only whitespace |
| Translator.PackIntendedSpec | translator/translator.py:61-76 | with the corrected packer every chunk is within `chunk_size + 1` and nothing but whitespace is lost |
| Translator.ChunkSentencesIntendedSpec | translator/translator.py:58-80 | the corrected chunking is bounded by `chunk_size + 1` and lossless |
| Translator.ManageConversationHistory | translator/translator.py:192-208 | the result starts with the system turn, ends with the new assistant reply, and has a contiguous suffix of the history in between |
| Translator.ManageConversationHistoryZero | translator/translator.py:198-201 | with `max_history = 0`, the slice `messages[-0:]` keeps the whole list, so the system turn appears twice |
| Translator.WindowHistory | translator/translator.py:192-208 | the intended window: the system turn, the last `min(n-1, 2*max_history)` later turns, and the reply |
| Translator.ManageConversationHistoryIntended | translator/translator.py:192-208 | for every positive `max_history` the code computes exactly the intended window |
| Translator.RecoverFromError | translator/translator.py:210-216 | recovery keeps the system turn and the last two turns, or everything when there are fewer than three |
| Translator.ContextHintsSpec | translator/translator.py:171-179 | the consistency hint appears iff the chunk is not the first, the continuation hint iff it is not the last, and the terminology hint always, last |
| Translator.PromptStartsWithTitle | translator/translator.py:183 | the prompt starts with `《title》` |
| Translator.PromptHoldsChunk | translator/translator.py:183-190 | the prompt contains the chunk text |
| Translator.PromptHoldsPosition | translator/translator.py:187 | the prompt contains `第{i+1}/{total}部分` |
| Translator.PromptHoldsHints | translator/translator.py:181-185 | the prompt contains every context hint |
| Translator.PromptContents | translator/translator.py:169-190 | the four prompt properties together |
| Translator.GlossAt | translator/translator.py:222-223 | the gloss scanner for `\s*（([^）]+)）` returns a non-empty gloss without `）` and an end inside the text |
| Translator.GlossAtSpec | translator/translator.py:222-223 | `\s*（([^）]+)）` matches at `c` iff whitespace, `（`, a non-empty run without `）` and `）` follow; the scanner then returns exactly that run and the end after `）`, and it returns it for every such shape |
| Translator.CapitalizedRunMaximal | translator/translator.py:223 | the greedy `(?:\s+[A-Z][a-z]+)*` stops only where no further capitalised word starts, and takes nothing when none starts where it begins |
| Translator.CapitalizedRunStep | translator/translator.py:223 | a capitalised word whose lower-case run is maximal is taken whole and the run continues after it |
| Translator.CapitalizedRunWords | translator/translator.py:223 | the run consists of capitalised words, each a whitespace run, an upper-case letter and its lower-case letters |
| Translator.CapWordsRunEnd | translator/translator.py:223 | a run of capitalised words directly followed by a gloss is exactly the run the greedy scanner takes |
| Translator.MatchAt | translator/translator.py:221-224 | a match of either pattern captures a well-formed term and gloss |
| Translator.MatchAtSpec | translator/translator.py:221-224 | a pattern matches at `p` iff the text there has the pattern's shape, and then the match is exactly that shape's term, gloss and end |
| Translator.QuotedAtSpec | translator/translator.py:222 | `[「《]([^」》]+)[」》]\s*（([^）]+)）` matches at `p` iff an opening mark, a non-empty run without a closing mark, a closing mark and a gloss follow; the captured pair and end are that run and that gloss |
| Translator.CapitalizedAtSpec | translator/translator.py:223 | `([A-Z][a-z]+(?:\s+[A-Z][a-z]+)*)\s*（([^）]+)）` matches at `p` iff a capitalised word and further whitespace-separated capitalised words are directly followed by a gloss; the term is all of those words, so a multi-word term is captured whole |
| Translator.FindAll | translator/translator.py:227 | every pair `findall` returns is a well-formed term and gloss of that pattern |
| Translator.FindAllFirst | translator/translator.py:227 | when the first matching position at or after `from` is `k`, `findall` returns the match at `k` first and resumes at its end |
| Translator.FindAllSkip | translator/translator.py:227 | a position where nothing matches contributes nothing |
| Translator.FindAllTake | translator/translator.py:227 | a position where the pattern matches contributes a pair |
| Translator.FindAllEmpty | translator/translator.py:227 | `findall` returns nothing iff the pattern matches at no position |
| Translator.FindCapitalizedExample | translator/translator.py:223 | `Anima（阿尼玛）` yields the pair (`Anima`, `阿尼玛`) |
| Translator.FindTwoWordExample | translator/translator.py:223 | `Anima Mundi（世界灵魂）` yields the one pair (`Anima Mundi`, `世界灵魂`) |
| Translator.FindQuotedExample | translator/translator.py:222 | `《阿尼玛》 （Anima）` yields the one pair (`阿尼玛`, `Anima`), whitespace before the gloss included |
| Translator.InsertNewSpec | translator/translator.py:228-232 | the glossary only grows: known glosses never change, the new keys are the matched terms, and a new term takes the gloss of its first match |
| Translator.InsertNewAppend | translator/translator.py:226-232 | inserting two match lists one after the other equals inserting their concatenation, so the first pattern's matches win |
| Translator.Conversation | translator/translator.py:117-165 | the history carried between chunks always starts with the system turn and holds at most `2*3 + 2` messages |
| Translator.RequestShape | translator/translator.py:125-133 | every request starts with the system turn, ends with this chunk's prompt, and holds at most nine messages |
| Translator.ReplyRecorded | translator/translator.py:126-163 | after a reply the history ends with the chunk's prompt and the reply; after a failure it ends with the failed prompt |
| Translator.LogSpec | translator/translator.py:139-144 | the log has one record for each successful chunk (index, original length, translation length), in chunk order, and none for a failed chunk |
| Translator.TranslationsUpTo | translator/translator.py:136-162 | the kept text of chunk `j` is its reply, or `[翻译错误: reason]` after a failure |
| Translator.PausesUpTo | translator/translator.py:152-164 | the pause after chunk `j` is 10 s after a failure, 5 s after every tenth chunk, and 1 s otherwise |
| Translator.RequestsUpTo | translator/translator.py:125-133 | the request sent for chunk `j` is the carried history plus the chunk's prompt |
| Translator.PDFTranslator.constructor | translator/translator.py:20-23 | a new translator has an empty glossary and an empty log |
| Translator.PDFTranslator.CleanAndChunkText | translator/translator.py:47-83 | the chunks are those of the chunking specification, lossless up to whitespace, within the length bound above |
| Translator.PDFTranslator.ExtractTerminology | translator/translator.py:218-233 | the glossary becomes the old one with each pattern's matches inserted in order, first occurrence wins |
| Translator.PDFTranslator.RecordTranslation | translator/translator.py:139-150 | a reply appends one log record and adds its glossed terms |
| Translator.PDFTranslator.TranslateTextChunks | translator/translator.py:113-167 | one text per chunk in chunk order, each request as specified, the pauses, the log extended by the successful chunks, and the glossary extended by their terms |
| Translator.Sections | translator/translator.py:243-246 | section `i` of the file is `【第{i+1}部分】`, the translation and the separator rule |
| Translator.TranslationFileContents | translator/translator.py:240-246 | the file opens with the `《title》中文翻译` header and contains every numbered section |
| Translator.SaveTranslationText | translator/translator.py:240-246 | the text written piece by piece equals the file layout |
| PaperBot.ReplaceIllegal | my-project/paperbot.py:184 | each of `<>:"/\|?*` is replaced by `_` position by position; nothing else changes |
| PaperBot.BeforeLastSpace | my-project/paperbot.py:187 | `rsplit(' ', 1)[0]` is the prefix before the last space, or all of a text without a space |
| PaperBot.SanitizeFilename | my-project/paperbot.py:182-188 | the result is at most 250 characters, has no illegal character, and has no surrounding whitespace |
| PaperBot.SanitizeFilenameKeeps | my-project/paperbot.py:185-188 | a short name is only stripped; a long one is cut at the last space within 250 characters, or at 250, then stripped |
| PaperBot.SanitizeFilenameClean | my-project/paperbot.py:182-188 | a name that is already clean, stripped and short is returned unchanged |
| PaperBot.SanitizeFilenameIdempotent | my-project/paperbot.py:182-188 | sanitising twice equals sanitising once |
| PaperBot.SeparatorAt | my-project/paperbot.py:171 | a separator match (`,\s*`, `\s+and\s+` case-insensitively, or `·`) is non-empty and ends inside the text |
| PaperBot.SeparatorAtSpec | my-project/paperbot.py:171 | a separator matches at `p` iff the text there is `,` with its maximal whitespace run, `·`, or a whitespace run, `and` in any case and a maximal whitespace run; the match ends exactly where that shape ends |
| PaperBot.AndSeparatorAt | my-project/paperbot.py:171 | whitespace, `and` in any case and whitespace are matched as one separator up to the end of the second whitespace run |
| PaperBot.FirstAuthorAndExample | my-project/paperbot.py:171-172 | the first author of `Jung AND Pauli` is `Jung` |
| PaperBot.FirstAuthorCommaExample | my-project/paperbot.py:171-172 | the first author of `Jung,Pauli` is `Jung` |
| PaperBot.FirstSeparator | my-project/paperbot.py:171 | the first separator position, with no separator before it |
| PaperBot.FirstAuthor | my-project/paperbot.py:171-172 | the first author is the text before the leftmost separator; it is shorter than the input iff there are several authors |
| PaperBot.SurnameSpec | my-project/paperbot.py:174-175 | the surname is the last whitespace-free token of the stripped first author, and is non-empty unless the author is empty |
| PaperBot.AuthorLastname | my-project/paperbot.py:169 | a missing or empty author gives `__` |
| PaperBot.AuthorLastnameSpec | my-project/paperbot.py:171-180 | a non-empty author string gives the surname of the first author, with ` et al.` appended iff several authors are named |
| PaperBot.RemoveChar | my-project/paperbot.py:208 | removing form feeds deletes exactly the form feeds and keeps the rest in order |
| PaperBot.Dehyphenate | my-project/paperbot.py:209 | joining hyphenated line breaks only deletes characters; a text without a line break, or without a hyphen, is unchanged |
| PaperBot.DehyphenateLeavesNoBreak | my-project/paperbot.py:209 | no match of `-\s*\n\s*` is left: no hyphen is followed by a whitespace run that holds a line break |
| PaperBot.DehyphenateNoBreak | my-project/paperbot.py:209 | a text with no such hyphen break is unchanged |
| PaperBot.DehyphenateIdempotent | my-project/paperbot.py:209 | joining hyphenated line breaks twice equals doing it once |
| PaperBot.UnwrapLines | my-project/paperbot.py:210 | a character changes iff it is a line break with no line-break neighbour, and then it becomes a space; every remaining line break has a line-break neighbour |
| PaperBot.SplitOn | my-project/paperbot.py:219 | splitting at line breaks gives pieces without line breaks that join back to the text |
| PaperBot.FilterLines | my-project/paperbot.py:211-220 | kept lines are exactly those whose stripped form has at least 3 characters, is not all digits and matches no noise pattern, in their original order, each as many times as it occurs |
| PaperBot.MarkerEnd | my-project/paperbot.py:222-223 | a reference or list-number prefix match is non-empty and inside the text |
| PaperBot.MarkerEndSpec | my-project/paperbot.py:222-223 | `^\s*\[\d+\]\s*` (`^\s*\d+\.\s+`) matches iff the text starts with whitespace, `[`, digits, `]` (digits, `.` and at least one whitespace character); the match ends after the maximal whitespace run that follows |
| PaperBot.BracketRefExample | my-project/paperbot.py:222 | the prefix of `[12] Smith` is `[12] ` |
| PaperBot.ListNumberExample | my-project/paperbot.py:223 | the prefix of `3. Intro` is `3. `, and `3.5 cm` has none, since no whitespace follows the dot |
| PaperBot.StripMarkers | my-project/paperbot.py:222-223 | removing line-start prefixes only deletes characters |
| PaperBot.StripMarkersDeletesMatches | my-project/paperbot.py:222-223 | the result is the text with some characters deleted, and every deleted character lies inside a prefix match that begins at a line start |
| PaperBot.StripMarkersNoMarker | my-project/paperbot.py:222-223 | a text where no line start begins a prefix match is unchanged |
| PaperBot.CollapseBlankLines | my-project/paperbot.py:224 | collapsing `\n{3,}` only deletes characters and leaves no three line breaks in a row |
| PaperBot.CollapseBlankLinesIdentity | my-project/paperbot.py:224 | a text without three line breaks in a row is unchanged |
| PaperBot.CleanHssPaperText | my-project/paperbot.py:207 | empty input gives the empty text |
| PaperBot.CleanHssPaperTextSpec | my-project/paperbot.py:205-225 | the cleaned text has no form feed, no surrounding whitespace and no run of three line breaks |
| PaperBot.KeptLinesNoBlankLine | my-project/paperbot.py:219-221 | the kept lines, joined, hold no two line breaks in a row: every blank line is dropped |
| PaperBot.StripMarkersNoBlankLine | my-project/paperbot.py:222-223 | removing line-start prefixes makes no blank line |
| PaperBot.CleanHssPaperTextNoBlankLine | my-project/paperbot.py:219-225 | collapsing `\n{3,}` never changes the text it is given, and the cleaned text has no blank line, so no paragraph break survives |
| PaperBot.BaseName | my-project/paperbot.py:278-291 | without metadata (or with an empty dictionary) the base name is the stem; otherwise it is the sanitised composed name, so it is short, clean and stripped |
| Text.RFind | generate_index.py:24 | `rfind` returns the last position of the character, or -1 when it is absent |
| Text.LeftEndIsSkipWhile | my-project/paperbot.py:188 | the left end found by `strip()` is the end of the leading whitespace run |
| IndexPage.SplitExt | generate_index.py:24 | `splitext` splits the name into root and extension that concatenate back; the extension is empty or one dot-led component without `/` |
| IndexPage.FindMatch | generate_index.py:32 | the lazy author group ends at a position where `\s*\(\d{4}\)` matches, within the first line |
| IndexPage.FindMatchLeast | generate_index.py:32 | that position is the least one, and no match means no position up to the end of the first line matches |
| IndexPage.Groups | generate_index.py:32-38 | the author and title returned are stripped, and the year is four digits |
| IndexPage.ParseBase | generate_index.py:32-41 | a successful match has stripped author and title and a four-digit year |
| IndexPage.ParseBaseOneLine | generate_index.py:32 | neither author nor title contains a line break |
| IndexPage.FirstYear | generate_index.py:32 | an independent description: the first `(dddd)` at or after a position |
| IndexPage.FirstYearLeast | generate_index.py:32 | nothing before `FirstYear` is a `(dddd)`, and `None` means no `(dddd)` at all |
| IndexPage.ParseBaseSome | generate_index.py:32-41 | a name matches iff `\s*(dddd)` begins at or before the end of its first line |
| IndexPage.ParseFilenameNone | generate_index.py:24-41 | on a one-line name, `parse_filename` returns None iff the extension-less name has no `(dddd)` |
| IndexPage.ParseBaseLeftmost | generate_index.py:32-38 | the year is the leftmost `(dddd)`, the author is the stripped text before it, and the title is the stripped rest of its line |
| IndexPage.ParseComposedName | generate_index.py:24-38 | round trip with the summariser: `parse_filename(a + " (" + y + ") " + t + ".html") == (a, y, t)` for clean a, four-digit y and a clean one-line t |
| IndexPage.ParseComposedBase | generate_index.py:32-38 | the same round trip on the name without extension |
| IndexPage.UndatedNeverListed | generate_index.py:32-41 | a name saved with the `__` year fallback is never parsed unless its author or title holds a `(dddd)` |
| IndexPage.PathJoin | generate_index.py:76 | `os.path.join` ends with the file name |
| IndexPage.Listed | generate_index.py:65-68 | the files that get an item are exactly the parseable ones, in listing order, each as often as it is listed |
| IndexPage.ItemsSpec | generate_index.py:65-79 | one item per listed file, in the same order, each `<li><a href="summary_htmls/F">A (Y) T</a></li>` |
| IndexPage.IndexItems | generate_index.py:57-82 | the list loop produces exactly those items for the sorted `.html` names |
| IndexPage.ListedSpec | generate_index.py:57-68 | listed names are ascending, are `.html` names of the listing that parse, and include every such name |
| IndexPage.SubsequenceSorted | generate_index.py:57-68 | skipping names keeps them ascending |
| Sorting.Sort | scripts/fetch_papers.py:115 | the sort permutes its input |
| Sorting.SortSorted | scripts/fetch_papers.py:115 | the sort orders its result by any total preorder |
| Sorting.SortStable | scripts/fetch_papers.py:115 | the sort is stable: equivalent elements keep their relative order |
| Sorting.StrLeTotalPreorder | generate_index.py:57 | string comparison is a total preorder |
| Sorting.StrLeAntisymmetric | generate_index.py:57 | string comparison is antisymmetric |
| Sorting.SortStringsSpec | generate_index.py:57 | `sorted` on names is an ascending permutation |
| Digest.StripTagsSpec | scripts/fetch_papers.py:57 | tag removal leaves no `<...>` without a line break inside, only deletes characters, and is idempotent |
| Digest.TagOverLineBreak | scripts/fetch_papers.py:57-58 | a tag spanning a line break survives: `<p\n>` cleans to `<p >`, which now reads as a tag |
| Digest.Truncate | scripts/fetch_papers.py:59 | at most 353 characters; a text of at most 350 is unchanged; a longer one becomes its first 350 characters and `...` |
| Digest.CleanSummarySpec | scripts/fetch_papers.py:53-59 | empty summary gives the placeholder; otherwise the tag-free text is single-spaced, stripped, has exactly the words of the tag-free summary, and is truncated as above |
| Digest.KeywordInTitle | scripts/fetch_papers.py:81-82 | a keyword in the title makes the entry relevant, in any case |
| Digest.KeywordInSummary | scripts/fetch_papers.py:81-82 | a keyword in the summary makes the entry relevant, in any case |
| Digest.RelevantIgnoresCase | scripts/fetch_papers.py:81-82 | relevance does not depend on case |
| Digest.KeywordAcrossJoin | scripts/fetch_papers.py:81-82 | a keyword may straddle the joining space: `food sovereignty` is in neither the title `Food` nor the summary `sovereignty`, yet the entry is relevant |
| Digest.PlantMatchesAnt | scripts/fetch_papers.py:81-82 | keywords match inside words: the title `Plant` matches `ANT` |
| Digest.LinksSpec | scripts/fetch_papers.py:76-97 | the seen-link set is exactly the links of the found items |
| Digest.VisitAllStopped | scripts/fetch_papers.py:83-101 | once a date cannot be built, the feed's remaining entries are not visited |
| Digest.FetchAndFilter | scripts/fetch_papers.py:61-103 | the loop over feeds and entries produces exactly the specified items |
| Digest.ScanEntries | scripts/fetch_papers.py:71-96 | the loop over one feed's entries adds exactly the items the feed's specification adds, and the seen set stays the set of found links |
| Digest.FetchAllOrder | scripts/fetch_papers.py:67-97 | found items keep feed order, then entry order, among the eligible entries |
| Digest.FetchAllEligible | scripts/fetch_papers.py:72-96 | every found item comes from an entry with a link, a lower-cased keyword inside the lower-cased `title + " " + summary`, and a readable date |
| Digest.FetchAllGood | scripts/fetch_papers.py:76-97 | every found item has a non-empty link and links are pairwise distinct |
| Digest.VisitAllDedupe | scripts/fetch_papers.py:71-97 | without an unreadable date, a feed adds each eligible entry whose link is not yet taken |
| Digest.FetchAllFirstPerLink | scripts/fetch_papers.py:64-97 | without an unreadable date, the result is the first eligible item of each link, so a rejected entry does not block its link |
| Digest.FirstPerLinkSubsequence | scripts/fetch_papers.py:76-97 | first-per-link keeps order |
| Digest.FirstPerLinkDistinct | scripts/fetch_papers.py:76-97 | first-per-link has distinct links |
| Digest.FirstPerLinkCovers | scripts/fetch_papers.py:76-97 | every link of the input is represented |
| Digest.FirstPerLinkKeepsFirst | scripts/fetch_papers.py:76-97 | the first item of each link is the one kept |
| Digest.LaterPreorder | scripts/fetch_papers.py:115 | descending `(published, source)` comparison is a total preorder |
| Digest.SortItemsSpec | scripts/fetch_papers.py:115 | the sorted items are a permutation in descending `(published, source)` order |
| Digest.SortItemsStable | scripts/fetch_papers.py:115 | items with equal keys keep their original order |
| Digest.SourcesSpec | scripts/fetch_papers.py:125-130 | the group keys are exactly the sources present, each once |
| Digest.SourcesOrder | scripts/fetch_papers.py:125-132 | groups appear in order of their source's first occurrence |
| Digest.GroupSpec | scripts/fetch_papers.py:125-130 | a group holds exactly its source's items, each as often as it occurs, in sorted order, and is empty for an absent source |
| Digest.GroupBySource | scripts/fetch_papers.py:125-130 | the grouping loop builds exactly those keys and groups |
| Digest.WriteToMarkdown | scripts/fetch_papers.py:105-134 | nothing is written for no items; otherwise the items are sorted and then grouped by source as above |
| Text.Strip | my-project/paperbot.py:188 | `strip()` leaves no surrounding whitespace and never lengthens |
| Text.StripIsSlice | my-project/paperbot.py:188 | `strip()` removes only whitespace from both ends |
| Text.CollapseSpaces | scripts/fetch_papers.py:58 | `' '.join(s.split())` is single-spaced, stripped and keeps the non-whitespace characters in order |
| Text.CollapseSpacesWords | scripts/fetch_papers.py:58 | `' '.join(s.split())` has exactly the words of `s` |
| Text.Words | my-project/paperbot.py:174 | `split()` gives non-empty tokens without whitespace |
| Text.WordsJoin | scripts/fetch_papers.py:58 | splitting a single-space join of non-empty, whitespace-free words gives back those words |
| Text.SingleSpacedJoin | scripts/fetch_papers.py:58 | a single-spaced text is the single-space join of its words |
| Text.WordsAtSpace | my-project/paperbot.py:174 | a whitespace character separates words: the words of `a + c + b` are those of `a` then those of `b` |
| Text.WordsOfWord | my-project/paperbot.py:174 | a non-empty text without whitespace is one word |
| Text.WordsOfSpace | my-project/paperbot.py:174 | an all-whitespace text has no words |
| Text.WordsSpaceFirst | my-project/paperbot.py:174 | leading whitespace does not change the words |
| Text.WordsSpaceLast | my-project/paperbot.py:174 | trailing whitespace does not change the words |
| Text.WordsStrip | my-project/paperbot.py:174-175 | stripping does not change the words |
| Text.WordsCons | my-project/paperbot.py:174 | a non-whitespace character in front starts a new word or extends the first word |
| Text.NonWsWords | my-project/paperbot.py:174 | the tokens of `split()` concatenate to the text's non-whitespace characters |
| Text.Lower | scripts/fetch_papers.py:81 | `lower()` maps each character and keeps the length |
| Text.Filter | my-project/paperbot.py:220 | a list comprehension with a condition keeps only elements that pass, every one that passes, in order |
| Text.FilterCounts | my-project/paperbot.py:220 | each passing element is kept as many times as it occurs, and no failing element is kept |
| Text.PickSpec | generate_index.py:65-79 | the mapped images of the kept elements are in one-to-one order with them |
| Text.NatToDecimal | translator/translator.py:187 | a number is written as a non-empty string of decimal digits |
| Text.DecimalRoundTrip | translator/translator.py:187 | reading the decimal digits back gives the number |
| Text.InfixOfJoin | translator/translator.py:181 | every part of a join occurs in the joined text |

## Left out

- PDF text extraction (pypdf, `pdftotext`) is left out. The extracted text is an input string.
- The translation, metadata and feed services are left out.
  - The translator's service is a sequence of outcomes given as a parameter.
  - The feed is its list of entries, or a failure before any entry.
  - The paper metadata is an optional dictionary.
- The Gemini response probing and report generation in `my-project/paperbot.py` are not part of this model. The same holds for `my-project/api.py`, the prompt templates and `build_system_prompt`: the system prompt is a parameter.
- Sleeping is left out. Each pause is recorded as its number of seconds.
- Timestamps are left out:
  - the log record's wall-clock time;
  - the digest's date and front matter.
- Date parsing and `strftime` are left out: a feed date is given as its formatted text, or as unreadable.
- File and directory effects are left out: writing files, `mkdir`, `listdir`, `isdir` and `print`. The model produces the text written and takes the listing as a list of names.
- The Markdown rendering of the digest is left out. The model stops at the sorted and grouped items that are rendered.
- `save_translation` is modelled only up to the text of the main file. The glossary and log files it also writes are left out.
- `Digest.WriteToMarkdown`: the in-place `items.sort` is modelled on values. The caller's list being reordered is not modelled.
- `Digest.FetchAndFilter`: an exception inside a feed's loop is modelled only for a date that cannot be built. That case ends the feed's loop and keeps the items found so far. A fetch failure is modelled only before any entry. Other exceptions, such as non-string fields or a round-trip-breaking entry object, are left out.
- `Digest.FetchAllFirstPerLink` is proved only for feeds whose dates are all readable. With an unreadable date the rest of that feed is skipped, which `Digest.VisitAllStopped` states.
- Field values are strings or missing: `None` values and non-string values from the parsers are not modelled.
- `Translator.PDFTranslator.TranslateTextChunks`: a reply is assumed to carry text. A reply whose content is `None` is not modelled. In the code, `None` is appended to `translations` (translator/translator.py:136), `len(translation)` then raises (translator/translator.py:142), and the error marker is appended as well (translator/translator.py:160). That chunk would get two entries and every later index would shift, so the one-text-per-chunk guarantee holds only for text replies.
- Unicode case folding and Unicode digits are left out. Lower-casing, `isdigit`, `\d` and `re.IGNORECASE` are modelled on ASCII. Whitespace follows `str.isspace`.
- `IndexPage.ParseComposedName` requires a title without `/`, because a `/` would be read by `splitext` as a path separator. It also requires an author without `(dddd)`, because the year is the leftmost one.
- `IndexPage.Groups`: stripping the year group is the identity on four digits and is not written out.
- `Translator.Sentences`: the second substitution (`\n\s*\n` to a blank line) never matches after the first has replaced every line break, so it is the identity and is not written out.
- `Translator.PDFTranslator.TranslateTextChunks` takes the conversation window as fixed at its default of three rounds. That is the only size the code uses.

## Findings

| source | as written | input that shows it | evidently intended | confidence | as-written member | corrected member |
|---|---|---|---|---|---|---|
| translator/translator.py:68-76 | A sentence longer than `chunk_size` is cut only when the current chunk is empty, and the remainder is never cut again. An oversized sentence after a non-empty chunk is emitted whole. | chunk size 3, sentences `["ab", "cdefgh"]` give the chunk `"cdefgh"` of 6 characters; `["abcdefgh"]` gives `"abc"` and `"defgh"` | every chunk fits the budget (plus the one joining space); an oversized sentence is cut into budget-sized pieces | medium; not executed | Translator.OversizedSentenceNotSplit | Translator.ChunkSentencesIntendedSpec |
| translator/translator.py:198-201 | With `max_history = 0`, `messages[-(0):]` is the whole list, so the system turn is kept twice and nothing is dropped. | history `[system, user]` with `max_history = 0` gives `[system, system, user, reply]` | keep only the system turn and the reply | low (the code only uses the default 3); not executed | Translator.ManageConversationHistoryZero | Translator.ManageConversationHistoryIntended |

The corrected chunking is `Translator.ChunkSentencesIntended`, proved bounded and lossless by `Translator.ChunkSentencesIntendedSpec`.
`Translator.PDFTranslator.CleanAndChunkText` keeps the packing as written, so that the class behaves as the program does. Its length guarantee is therefore the weaker one of `Translator.PackWithinBudget`.

The corrected history window is `Translator.WindowHistory`. It is what `Translator.Conversation` uses, and `Translator.ManageConversationHistoryIntended` proves that it is the code's window for every positive size.
