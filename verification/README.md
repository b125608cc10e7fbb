# esa-sql-project: a Dafny model of the NL-to-SQL pipeline core

This project models the five pure, sequential pieces of the esa-sql-project pipeline. The pipeline answers natural-language questions over Copernicus satellite metadata with SQL. The model proves properties of each piece.

1. **Knowledge base** (`KnowledgeBase`). `load_queries` turns a corpus of `-- question` lines, each followed by SQL lines, into numbered `{nl_quest, sql_answ, id}` records. `get_queries_dict` maps each question to its SQL.
   - The parser is modelled as the source's left fold over the lines.
   - It is proved equal to an independent block-by-block reference definition.
2. **Retrieval text protocol** (`Tools`, `SimilarQueryPattern`, `RetrievalRoundTrip`).
   - `retrieveQueries` renders `NL key / SQL value / Score` blocks.
   - `SQLContext.append_retrieved_query` reads those blocks back with the regex `NL key:\s*(.*?)\s*\nSQL value:\s*(.*?)\s*\nScore:\s*(\d+\.?\d*)`, flags DOTALL and IGNORECASE. The regex is modelled as an exact backtracking matcher:
     - greedy `\s*` that gives characters back;
     - lazy `(.*?)` groups;
     - case-insensitive literals, including the Kelvin sign and the long s;
     - `findall` resuming after each match.
   - The round trip is proved: parsing the rendered text gives back every key (stripped), every SQL value (whitespace-collapsed) and every score, in order. This holds for non-blank keys and SQL values that do not contain the next label, and for non-negative scores. The knowledge base's own dictionary meets the non-blank condition.
3. **`SQLContext` accumulator** (`SqlContext`).
   - The three append operations.
   - `__iter__`, `iter_fields` and `to_dict` over the fixed `_field_order`.
   - `get_delta_for_model`, a diff against the private `_sent_to_model` baseline.

   A field value is a set, a list or a scalar, the three shapes the delta code tells apart. The context is a value: every operation returns a new context. This is faithful as long as callers replace field values rather than mutate the objects stored in the baseline. The baseline stores a copy when a set gains members (`context.py:121`). It stores the very object, not a copy, in the `else` at `context.py:127-130`. That branch runs only for a set with no new members that differs from its baseline: a set that shrank, or an empty set seen for the first time. Scalars and lists never reach it (`SqlContext.FieldDelta`).
4. **REPL history policy** (`Repl`).
   - The four input modes.
   - Which stream events `handle_stream_events` appends to `input_items`.
   - The exit command set.
   - `run_demo_loop`'s blank-skip rule and its user/assistant bracket per turn.
5. **Thumbnail rewrite** (`Thumbnails`). `_embed_thumbnails` wraps bare CREODIAS asset URLs in `![](...)`. A negative lookbehind skips URLs that are already embedded. The model scans like `re.sub`:
   - leftmost match first;
   - resume after each replacement;
   - the lookbehind reads the original text.

`Wrappers` holds `Option`/`Result`. `Text` models Python's `str.isspace`, `strip`, `lstrip`, `rstrip`, `split()` and `' '.join`.

The model takes the following as parameters:
- The parser receives the file's lines, so reading the file and `splitlines()` stay outside.
- The REPL receives each turn's input line (or end of input) and the agent run's events and final output.

## Model

| member | source | states |
|---|---|---|
| KnowledgeBase.CommentLineIsStripStartsWith | sql/utils/load_nl_sql_pairs.py:20-23 | a line opens a new question exactly when its stripped form starts with `--` |
| KnowledgeBase.TextLineIsStripNonEmpty | sql/utils/load_nl_sql_pairs.py:35-36 | a line is collected as SQL exactly when its stripped form is non-empty |
| KnowledgeBase.RStripDashes | sql/utils/load_nl_sql_pairs.py:23 | stripping trailing whitespace keeps a leading `--` and cannot create one |
| KnowledgeBase.LoadQueries | sql/utils/load_nl_sql_pairs.py:15-48 | ids are 1..n in order; every question and every SQL answer has a non-space character; there are at most as many entries as `--` lines |
| KnowledgeBase.Question | sql/utils/load_nl_sql_pairs.py:31 | defines the question of a `--` line as `stripped.lstrip("-").strip()`; LoadQueriesIsBlocks and LoadQueries state what reaches the entries |
| KnowledgeBase.Flush | sql/utils/load_nl_sql_pairs.py:25-29 | defines the save `if current_nl and current_sql_lines`, shared by the loop and the final save at :39-43; FlushGood and FlushFilled carry its contract |
| KnowledgeBase.IsCommentLine | sql/utils/load_nl_sql_pairs.py:23 | defines the test for a question line by scanning past leading whitespace; CommentLineIsStripStartsWith shows it is exactly `line.strip().startswith("--")` |
| KnowledgeBase.SqlOf | sql/utils/load_nl_sql_pairs.py:28 | defines a saved SQL value, `"\n".join(current_sql_lines).strip()`, shared with the final save at :42; FlushGood and RunGood show a saved value is never blank |
| KnowledgeBase.Step | sql/utils/load_nl_sql_pairs.py:20-36 | defines one loop iteration: a `--` line saves and opens a block, a non-blank line is appended unstripped, a blank line is ignored; RunBody and RunOneBlock carry its contract |
| KnowledgeBase.Run | sql/utils/load_nl_sql_pairs.py:19-36 | defines the loop as a left fold of Step over the lines; RunGood, RunAppend and RunIsKept carry its contract |
| KnowledgeBase.Number | sql/utils/load_nl_sql_pairs.py:45-46 | defines the numbering at :45-46; NumberUnnumber, LoadQueries and LoadQueriesIsBlocks carry its contract |
| KnowledgeBase.NumberUnnumber | sql/utils/load_nl_sql_pairs.py:45-46 | numbering only adds ids: dropping them gives the saved pairs back in order, and the ids run from 1 to the number of entries, strictly increasing |
| KnowledgeBase.FlushGood | sql/utils/load_nl_sql_pairs.py:39-43 | saving the open block adds at most one entry, and only one whose question and SQL are non-blank |
| KnowledgeBase.RunGood | sql/utils/load_nl_sql_pairs.py:19-36 | the per-line loop keeps every saved entry non-blank and adds at most one entry per comment line |
| KnowledgeBase.RunAppend | sql/utils/load_nl_sql_pairs.py:19-36 | processing `a + b` is processing `a`, then `b` from the resulting state |
| KnowledgeBase.RunBody | sql/utils/load_nl_sql_pairs.py:34-36 | a run of non-comment lines only appends its non-blank lines, unstripped, to the current SQL lines |
| KnowledgeBase.RunOneBlock | sql/utils/load_nl_sql_pairs.py:23-36 | a comment line saves the previous block, opens a new question and starts an empty SQL list, which the block's body then fills |
| KnowledgeBase.FirstBlock | sql/utils/load_nl_sql_pairs.py:19-36 | input that starts with a line splits into that header, a comment-free body and a rest starting at the next comment line |
| KnowledgeBase.RunBlocks | sql/utils/load_nl_sql_pairs.py:19-43 | from a comment line on, the loop plus the final save yields the kept blocks of the reference decomposition |
| KnowledgeBase.FlushFilled | sql/utils/load_nl_sql_pairs.py:25-29 | saving a filled block appends that block's entry when the reference keeps it, and nothing otherwise |
| KnowledgeBase.KeptCons | sql/utils/load_nl_sql_pairs.py:25-29 | the reference keeps or drops each block independently of the others |
| KnowledgeBase.LoadQueriesIsBlocks | sql/utils/load_nl_sql_pairs.py:15-48 | `load_queries` equals the reference definition: cut at `--` lines; keep blocks with a non-empty question and at least one SQL line; question = strip, `lstrip('-')`, strip; SQL = lines joined by `\n`, then stripped; ids numbered in file order |
| KnowledgeBase.PreambleIgnored | sql/utils/load_nl_sql_pairs.py:16-36 | lines before the first `--` line never reach the result |
| KnowledgeBase.BlocksAfterPreamble | sql/utils/load_nl_sql_pairs.py:23-36 | lines holding no `--` line in front of the corpus leave the cut into blocks unchanged |
| KnowledgeBase.RunIsKept | sql/utils/load_nl_sql_pairs.py:19-43 | the line-by-line loop followed by the final save emits exactly the kept blocks of the reference definition |
| KnowledgeBase.FirstCommentAfter | sql/utils/load_nl_sql_pairs.py:19-23 | the first comment line after a comment-free preamble is found past that preamble |
| KnowledgeBase.FirstComment | sql/utils/load_nl_sql_pairs.py:19-23 | the index returned is the first comment line, or the end when there is none |
| KnowledgeBase.Questions | sql/utils/load_nl_sql_pairs.py:52 | the questions asked by the entries, exactly |
| KnowledgeBase.InsertAll | sql/utils/load_nl_sql_pairs.py:52 | inserting entries in order: the keys are exactly the old keys plus the entries' questions |
| KnowledgeBase.InsertAllValues | sql/utils/load_nl_sql_pairs.py:52 | a repeated question maps to the SQL of its last entry; an old key asked by no entry keeps its value |
| KnowledgeBase.InsertAllNonBlank | sql/utils/load_nl_sql_pairs.py:52 | inserting non-blank entries into a non-blank map keeps it non-blank |
| KnowledgeBase.QueriesDict | sql/utils/load_nl_sql_pairs.py:51-52 | `get_queries_dict`: the keys are exactly the loaded questions; each maps to the SQL of the last entry asking it; keys and values are non-blank |
| Tools.Decimal | src/sql_agent/tools.py:160 | the integer part has at least one digit, only digits, and no leading zero unless it is `0` |
| Tools.Pad4 | src/sql_agent/tools.py:160 | the fractional part is exactly four digits |
| Tools.DecimalValue | src/sql_agent/tools.py:160 | reading the integer part's digits gives back the number |
| Tools.Pad4Value | src/sql_agent/tools.py:160 | reading the four fractional digits gives back the number |
| Tools.FormatScore | src/sql_agent/tools.py:160 | a non-negative score renders as at least six characters starting with a digit |
| Tools.FormatScoreRoundTrip | src/sql_agent/tools.py:160 | reading the `:.4f` text back as a fixed-point number gives the score |
| Tools.Block | src/sql_agent/tools.py:160 | defines one f-string block, `\nNL key: {key}\nSQL value: {sql}\nScore: {score:.4f}`; RetrieveQueries states the joined result and RetrieveParsesBack what parsing it gives back |
| Tools.RetrieveQueries | src/sql_agent/tools.py:125-163 | with the key list left at its `None` default, fails with `TypeError` from `enumerate(None)` before any lookup, whatever the scores; otherwise succeeds exactly when every key is in the dictionary and has a score; the result is the `\n`-join of the blocks in key order, key j paired with score j; otherwise the error of the first failing key, with the dictionary lookup before the score index; no keys give `""` |
| Tools.BlocksFromOk | src/sql_agent/tools.py:159-162 | it succeeds exactly when all keys from j on render |
| Tools.BlocksFromValues | src/sql_agent/tools.py:159-162 | when every key from j on renders, it yields exactly their blocks in key order, each with the key's SQL value and score |
| Tools.BlocksFromErr | src/sql_agent/tools.py:159-162 | a failure carries the error of the first key from j on that does not render |
| SimilarQueryPattern.FindAll | src/sql_agent/context.py:44 | defines `findall`: take the leftmost match and its three groups, resume at the match's end, move one character on where no match starts; FindAllBlock and FindAllJoined state its result on rendered text |
| SimilarQueryPattern.CharMatchesCI | src/sql_agent/context.py:31 | defines how `re.IGNORECASE` matches a pattern character: either ASCII case of a letter, the Kelvin sign for `k` and `ſ` for `s`, anything else only itself; NewlineMatchesOnlyItself and LabelStart carry its contract |
| SimilarQueryPattern.WsRun | src/sql_agent/context.py:30 | greedy `\s*` never runs past the text |
| SimilarQueryPattern.WsRunSpaces | src/sql_agent/context.py:30 | greedy `\s*` takes only whitespace and stops at the first non-whitespace character |
| SimilarQueryPattern.WsRunExact | src/sql_agent/context.py:30 | greedy `\s*` takes exactly a maximal whitespace run |
| SimilarQueryPattern.DigitRun | src/sql_agent/context.py:30 | greedy `\d*` never runs past the text |
| SimilarQueryPattern.DigitRunExact | src/sql_agent/context.py:30 | greedy `\d*` takes exactly a maximal digit run |
| SimilarQueryPattern.ScoreAt | src/sql_agent/context.py:30 | a score match `\d+\.?\d*` is non-empty and inside the text |
| SimilarQueryPattern.TryScore | src/sql_agent/context.py:30 | backtracking `\s*` before the score yields only spans inside the text |
| SimilarQueryPattern.AfterMarker | src/sql_agent/context.py:30 | matching after a closing label yields only spans inside the text |
| SimilarQueryPattern.TryGroup | src/sql_agent/context.py:30 | a lazy group after backtracking `\s*` yields only spans inside the text |
| SimilarQueryPattern.LazyGroup | src/sql_agent/context.py:30 | growing a lazy group yields only spans inside the text |
| SimilarQueryPattern.TrySep | src/sql_agent/context.py:30 | backtracking `\s*` before `\n<label>` yields only spans inside the text |
| SimilarQueryPattern.MatchAt | src/sql_agent/context.py:29-32 | a match attempt yields group spans inside the text |
| SimilarQueryPattern.NewlineMatchesOnlyItself | src/sql_agent/context.py:31 | under IGNORECASE the `\n` of a label matches only a newline |
| SimilarQueryPattern.LabelStart | src/sql_agent/context.py:30 | a character matching the `S` of `SQL`/`Score` case-insensitively is neither a newline nor whitespace |
| SimilarQueryPattern.TrySepNone | src/sql_agent/context.py:30 | with no `\n<label>` in reach, the separator attempt fails |
| SimilarQueryPattern.LazyGrows | src/sql_agent/context.py:30 | a lazy group grows past every position where its closing label does not follow |
| SimilarQueryPattern.CloseAtMarker | src/sql_agent/context.py:30 | a lazy group closes at the first label that completes the match, with trailing whitespace given to `\s*` |
| SimilarQueryPattern.GroupSettles | src/sql_agent/context.py:30 | a group's capture is the text up to the first label, without surrounding whitespace |
| RetrievalRoundTrip.MatchBlock | src/sql_agent/context.py:29-32 | for a Renderable key and SQL value (both non-blank, no `\nSQL value:` in the key, no `\nScore:` in the SQL), score text of the ScoreText shape (digits, a dot, four digits) and a rest that is empty or starts with a newline: at the start of one rendered block the regex matches, capturing the stripped key, the stripped SQL and the score text, and ends at the block's end |
| RetrievalRoundTrip.FindAllBlock | src/sql_agent/context.py:44 | for a Renderable key and SQL value and ScoreText score text, `findall` over a block followed by a newline-led rest yields that block's groups, then the rest's |
| RetrievalRoundTrip.FindAllJoined | src/sql_agent/context.py:44 | when every entry is Faithful (Renderable key and SQL value, non-negative score), `findall` over the newline-joined blocks yields one group triple per block, in order |
| RetrievalRoundTrip.RetrieveParsesBack | src/sql_agent/tools.py:158-163 | for keys in the dictionary, non-negative scores, non-blank keys and SQL values, keys without `\nSQL value:` and SQL without `\nScore:`, the tool succeeds and the regex recovers every key stripped, every SQL stripped and every score's `:.4f` text, in key order |
| RetrievalRoundTrip.RetrieveFromQueriesDict | src/sql_agent/tools.py:158-163 | for keys drawn from the dictionary `get_queries_dict` builds, the non-blank hypothesis holds on its own: with non-negative scores and no label inside a key or SQL value, the tool's text parses back to every key, SQL value and score, in order |
| RetrievalRoundTrip.Expected | src/sql_agent/context.py:44 | one expected group triple per rendered entry |
| RetrievalRoundTrip.ExpectedAt | src/sql_agent/context.py:44 | the j-th expected triple is the j-th entry's stripped key, stripped SQL and `:.4f` score |
| RetrievalRoundTrip.Entries | src/sql_agent/tools.py:161 | one rendered entry per key |
| SqlContext.FieldOrderRank | src/sql_agent/context.py:20-26 | every field has its own position in `_field_order` |
| SqlContext.NameInjective | src/sql_agent/context.py:20-26 | distinct fields have distinct names |
| SqlContext.FieldNamed | src/sql_agent/context.py:20-26 | a name resolves to the field carrying it, and only to it |
| SqlContext.Fresh | src/sql_agent/context.py:13-17 | a new context has five empty lists and an empty baseline |
| SqlContext.AppendRetrieved | src/sql_agent/context.py:35-47 | the old list is a prefix of the new one and the added records are exactly the parsed matches; other fields and the baseline are unchanged; a field that is not a list fails with AttributeError |
| SqlContext.Parse | src/sql_agent/context.py:38-45 | defines the records built from the `findall` groups; ParseSpec carries its contract |
| SqlContext.ParseSpec | src/sql_agent/context.py:38-45 | one record per regex match: `nl` stripped, `sql` whitespace-collapsed with the match's words, score text kept; no match gives no record |
| SqlContext.AppendRetrievedNoMatch | src/sql_agent/context.py:44-47 | text with no match leaves the context unchanged |
| SqlContext.Records | src/sql_agent/context.py:38-45 | one record per match |
| SqlContext.RecordOfExpect | src/sql_agent/context.py:38-45 | the record of a rendered entry is its stripped key, collapsed SQL and formatted score |
| SqlContext.AppendToolOutput | src/sql_agent/context.py:35-47 | when `retrieved_queries` is a list, every key is in the dictionary, keys and SQL values are non-blank, no key holds `\nSQL value:`, no SQL holds `\nScore:` and the scores are non-negative: appending the tool's own output adds one record per key, in order, whose score text reads back as the key's score |
| SqlContext.AppendNote | src/sql_agent/context.py:50-61 | as written: a blank note leaves the context unchanged; any other note fails with TypeError |
| SqlContext.AppendNoteIntended | src/sql_agent/context.py:50-61 | corrected: a blank note changes nothing; otherwise exactly one item is appended (the decoded JSON, or `Str(Strip(note))`, the stripped note, non-empty with non-space ends, when decoding fails) and the rest is unchanged |
| SqlContext.AppendExecuted | src/sql_agent/context.py:64-71 | a blank query fails with RuntimeError (the bare `raise` with no exception being handled) and changes nothing; otherwise exactly the collapsed query is appended, earlier entries and other fields unchanged |
| SqlContext.ExecutedEntryShape | src/sql_agent/context.py:66-68 | the appended query is non-empty, single-spaced, has the input's words, and collapsing it again changes nothing |
| SqlContext.ExecutedTwice | src/sql_agent/context.py:64-68 | the same query appended twice is kept twice: there is no deduplication |
| SqlContext.Iter | src/sql_agent/context.py:76-79 | `__iter__` yields one pair per field |
| SqlContext.Yield | src/sql_agent/context.py:84-86 | filtering never yields more pairs than fields |
| SqlContext.Kept | src/sql_agent/context.py:84-86 | filtering never keeps more fields than given |
| SqlContext.Pairs | src/sql_agent/context.py:86 | one name/value pair per field |
| SqlContext.YieldIsPairs | src/sql_agent/context.py:84-86 | the filtering generator yields the pairs of the kept fields |
| SqlContext.KeptSpec | src/sql_agent/context.py:84-86 | a field is kept exactly when its name is not excluded, and the kept fields keep the order |
| SqlContext.FieldOrderRanked | src/sql_agent/context.py:20-26 | `_field_order` lists every field once, in rank order |
| SqlContext.IterFields | src/sql_agent/context.py:81-86 | defines the filtered generator over `_field_order`; IterFieldsSpec and IterFieldsPairs carry its contract |
| SqlContext.IterFieldsSpec | src/sql_agent/context.py:81-86 | `iter_fields` yields exactly the non-excluded fields, in `_field_order` |
| SqlContext.KeptNone | src/sql_agent/context.py:83-86 | excluding nothing keeps every field |
| SqlContext.IterIsIterFieldsAll | src/sql_agent/context.py:76-86 | `__iter__` is `iter_fields` with nothing excluded |
| SqlContext.DictOf | src/sql_agent/context.py:90 | the dict's keys are the pairs' names |
| SqlContext.DictOfDistinct | src/sql_agent/context.py:90 | with distinct names every pair's value is stored under its name |
| SqlContext.ToDict | src/sql_agent/context.py:88-90 | defines the dict comprehension over IterFields; ToDictSpec carries its contract |
| SqlContext.ToDictSpec | src/sql_agent/context.py:88-90 | `to_dict` has exactly the non-excluded field names, each mapped to the field's value |
| SqlContext.IterFieldsPairs | src/sql_agent/context.py:81-86 | the yielded names are distinct, not excluded and carry their field's value; every non-excluded field appears; the pairs depend only on the field values |
| SqlContext.Unseen | src/sql_agent/context.py:123 | the kept items are exactly the list items outside the baseline |
| SqlContext.UnseenAllSeen | src/sql_agent/context.py:123 | a list entirely in the baseline yields nothing new |
| SqlContext.UnseenSubset | src/sql_agent/context.py:123 | new items are items of the list |
| SqlContext.FieldDelta | src/sql_agent/context.py:115-130 | defines one field's step of the delta loop as written; FieldDeltaLaws, DeltaSetFields and DeltaFails carry its contract |
| SqlContext.Truthy | src/sql_agent/context.py:118 | defines Python truthiness of a field value: empty lists, sets and strings are false, everything else true; used by SetBaseline and Unsubtractable |
| SqlContext.SetBaseline | src/sql_agent/context.py:118 | `prev if prev else set()` as the right operand of `-`: fails with TypeError exactly when the baseline is truthy and not a set; otherwise a set baseline is subtracted as itself and a missing or falsy one as the empty set |
| SqlContext.Diff | src/sql_agent/context.py:112-132 | defines the loop over the pairs, as written or corrected; GetDeltaForModel and GetDeltaIntended state its frame, and the Delta and Intended lemmas its content |
| SqlContext.GetDeltaForModel | src/sql_agent/context.py:105-132 | the delta never changes the field values |
| SqlContext.FieldDeltaLaws | src/sql_agent/context.py:115-130 | as written: a non-set value is untouched; a set fails exactly when its baseline cannot be subtracted; after a set step the baseline is the value; a set equal to its baseline is untouched; an entry is a subset of the value |
| SqlContext.DeltaExcluded | src/sql_agent/context.py:114 | excluded and unknown names never get an entry, and their baseline is untouched |
| SqlContext.DeltaIgnoresNonSets | src/sql_agent/context.py:117-130 | as written: a field that does not hold a set never gets an entry and never moves its baseline |
| SqlContext.DeltaFails | src/sql_agent/context.py:118 | the call raises exactly when some non-excluded set field has a baseline that is not a set, and it raises TypeError |
| SqlContext.DeltaErrorIsTypeError | src/sql_agent/context.py:118 | the only error the diff raises is TypeError |
| SqlContext.DeltaSetFields | src/sql_agent/context.py:117-130 | for a set field the baseline becomes the value; the entry is the new members when there are any, else the whole value when it differs from the baseline, else nothing |
| SqlContext.DeltaIdempotent | src/sql_agent/context.py:105-132 | as written: a second call straight after a successful one returns an empty delta and changes nothing |
| SqlContext.AsWrittenNoSetsNoDelta | src/sql_agent/context.py:117-127 | as written: a context without set fields reports nothing and keeps its baseline |
| SqlContext.ExecutedQueryNeverSent | src/sql_agent/context.py:117-127 | as written: an executed query appended to a fresh context is never reported |
| SqlContext.GetDeltaIntended | src/sql_agent/context.py:105-132 | corrected: the delta never changes the field values |
| SqlContext.FieldDeltaIntendedLaws | src/sql_agent/context.py:117-130 | corrected step: afterwards nothing is left to report; a collection's items are covered by the old baseline plus the entry; the entry is disjoint from the old baseline and contained in the value; a scalar's baseline becomes the value |
| SqlContext.IntendedNeverFails | src/sql_agent/context.py:117-130 | corrected: the delta never raises |
| SqlContext.IntendedCovers | src/sql_agent/context.py:117-130 | corrected: every item of a collection field is in the old baseline or the entry, the entry repeats nothing already sent, and the new baseline covers the field |
| SqlContext.IntendedIdempotent | src/sql_agent/context.py:105-132 | corrected: a second call straight after the first returns an empty delta and changes nothing |
| SqlContext.ExecutedQuerySentIntended | src/sql_agent/context.py:117-127 | corrected: an executed query appended to a fresh context is reported once, as `executed_sql_queries` |
| SqlContext.OnlyExecutedReported | src/sql_agent/context.py:122-126 | corrected: a context whose only item is one executed query reports exactly that query |
| Text.Strip | src/sql_agent/context.py:40 | `strip()` is empty exactly for blank text, and otherwise starts and ends with a non-space |
| Text.IsSpace | src/sql_agent/context.py:40 | defines the characters for which `str.isspace()` holds, shared by `strip()`, `split()` and `\s`; Strip, Split and SimilarQueryPattern.WsRunSpaces carry contracts in terms of it |
| Text.LStrip | src/sql_agent/context.py:40 | `lstrip()` is a suffix of the text; everything dropped is whitespace and the result is empty or starts with a non-space |
| Text.RStrip | src/sql_agent/context.py:40 | `rstrip()` is a prefix of the text; everything dropped is whitespace and the result is empty or ends with a non-space |
| Text.LStripChar | sql/utils/load_nl_sql_pairs.py:31 | `lstrip("-")` is a suffix of the text; everything dropped is `-` and the result is empty or starts with another character |
| Text.StripStrip | src/sql_agent/context.py:40 | stripping twice is stripping once |
| Text.StripDecompose | src/sql_agent/context.py:40 | text is blank padding, its stripped form, blank padding |
| Text.StripIgnoresBlankEnds | src/sql_agent/utils/repl.py:225 | blank padding on either side does not change `strip()` |
| Text.Split | src/sql_agent/context.py:67 | `split()` yields non-empty words without whitespace |
| Text.SplitJoin | src/sql_agent/context.py:67 | splitting words joined by single spaces gives the words back |
| Text.JoinNormalized | src/sql_agent/context.py:67 | words joined by single spaces have no leading, trailing or double spaces |
| Text.Collapse | src/sql_agent/context.py:41 | defines `' '.join(s.split())`, also used at :67; CollapseProperties, CollapseStrip and CollapseOfNormalized carry its contract |
| Text.CollapseProperties | src/sql_agent/context.py:67 | `' '.join(s.split())` is single-spaced with no space at either end, keeps the words, is idempotent, and is empty exactly for blank text |
| Text.CollapseStrip | src/sql_agent/context.py:41 | collapsing ignores surrounding whitespace |
| Text.CollapseOfNormalized | src/sql_agent/context.py:67 | collapsing single-spaced text changes nothing |
| Repl.ShouldAppendToolOutput | src/sql_agent/utils/repl.py:151-153 | defines `mode in {"tool", "tool_and_handoff"}`; PolicyTable states its value in all four modes |
| Repl.ShouldAppendHandoffArgs | src/sql_agent/utils/repl.py:156-158 | defines `mode in {"handoff", "tool_and_handoff"}`; PolicyTable states its value in all four modes |
| Repl.PolicyTable | src/sql_agent/utils/repl.py:151-158 | tool outputs are appended exactly in `tool` and `tool_and_handoff`, handoff arguments exactly in `handoff` and `tool_and_handoff`; `nothing_else` enables neither |
| Repl.HandleStreamEvents | src/sql_agent/utils/repl.py:161-191 | the loop appends, after the existing items, the per-event contributions in event order |
| Repl.ContributionsSnoc | src/sql_agent/utils/repl.py:167-191 | one more event adds only that event's contribution |
| Repl.ContributionsCount | src/sql_agent/utils/repl.py:176-188 | one assistant item per tool-output event when the tool policy holds, plus one per handoff event when the handoff policy holds |
| Repl.NeutralEvents | src/sql_agent/utils/repl.py:168-191 | text deltas, tool calls, message items, agent updates and other events never add items |
| Repl.NothingElseAppendsNothing | src/sql_agent/utils/repl.py:176-188 | in `nothing_else` mode the stream adds nothing |
| Repl.Lower | src/sql_agent/utils/repl.py:225 | `str.lower()` for A–Z and the Kelvin sign: the result has the input's length and holds neither A–Z nor the Kelvin sign, and differs from the input exactly where the input holds one of them |
| Repl.LowerLower | src/sql_agent/utils/repl.py:225 | lower-casing twice is lower-casing once |
| Repl.StripTight | src/sql_agent/utils/repl.py:225 | text without surrounding whitespace is its own `strip()` |
| Repl.IsExit | src/sql_agent/utils/repl.py:225-226 | defines the exit test against `EXIT_COMMANDS` (:148, the constant `Repl.ExitCommands`) by peeling whitespace one end at a time; IsExitStrip proves it equals `strip().lower() in EXIT_COMMANDS` |
| Repl.IsExitStrip | src/sql_agent/utils/repl.py:225-226 | the exit test holds exactly when `line.strip().lower()` is `exit`, `quit`, `stop` or `cl` |
| Repl.History | src/sql_agent/utils/repl.py:217-269 | defines the turn-by-turn reference: stop on end of input or an exit command, skip blank lines, otherwise append the turn's bracket; HistoryCons, HistoryUserItems, StopEndsHistory, BlankSkipped and TurnBracket carry its contract |
| Repl.RunDemoLoop | src/sql_agent/utils/repl.py:214-269 | the loop builds exactly the history the turn-by-turn reference definition gives |
| Repl.HistoryCons | src/sql_agent/utils/repl.py:217-269 | one read of input: stop, skip, or append the turn's bracket and continue |
| Repl.Accepted | src/sql_agent/utils/repl.py:219-229 | the accepted turns are neither exits nor blank |
| Repl.UserItemsAppend | src/sql_agent/utils/repl.py:231 | user items of a concatenation are those of each part |
| Repl.NoUserItems | src/sql_agent/utils/repl.py:176-188 | the stream adds no user item |
| Repl.HistoryUserItems | src/sql_agent/utils/repl.py:219-231 | the user items of the history are exactly the accepted input lines, in order |
| Repl.StopEndsHistory | src/sql_agent/utils/repl.py:220-226 | end of input or an exit command ends the loop: nothing after it reaches the history |
| Repl.BlankSkipped | src/sql_agent/utils/repl.py:228-229 | a blank line changes nothing |
| Repl.TurnBracket | src/sql_agent/utils/repl.py:231-269 | an accepted turn adds the user item first and the final output last, only assistant stream items in between (none without streaming), and the later turns follow |
| Thumbnails.CloseFrom | scripts/ui.py:44 | the first `)` at or after a position, or the end |
| Thumbnails.CloseFromFirst | scripts/ui.py:44 | no `)` lies before the position found |
| Thumbnails.CloseFromIs | scripts/ui.py:44 | the first `)` is found exactly |
| Thumbnails.UrlLen | scripts/ui.py:44 | a match is longer than the fixed prefix and suffix and lies inside the text |
| Thumbnails.UrlLenSpec | scripts/ui.py:44 | the match at the start is exactly the prefix, a non-empty id without `)`, then `)/$value` |
| Thumbnails.UrlMatchIsSlice | scripts/ui.py:44 | a match at an offset is the URL stretch it covers |
| Thumbnails.SourceOfPieces | scripts/ui.py:51 | removing the inserted wrappers gives the input back |
| Thumbnails.RenderLength | scripts/ui.py:51 | the output is five characters longer per replacement |
| Thumbnails.PiecesAreUrls | scripts/ui.py:43-45 | every replaced stretch is a thumbnail URL |
| Thumbnails.EmbedThumbnails | scripts/ui.py:43-51 | defines `THUMBNAIL_REGEX.sub` as a left-to-right scan from the start of the text; EmbedThumbnailsShape, NoUrlUnchanged, BareUrlEmbedded, EmbeddedUrlKept and EmbedThumbnailsIdempotent carry its contract |
| Thumbnails.EmbedThumbnailsShape | scripts/ui.py:47-51 | the rewrite keeps the input's text, adds five characters per replacement and replaces only thumbnail URLs |
| Thumbnails.NoUrlUnchanged | scripts/ui.py:51 | text with no thumbnail URL comes back unchanged |
| Thumbnails.CopyRun | scripts/ui.py:51 | a stretch where no replacement begins is copied as it is |
| Thumbnails.StepEmbed | scripts/ui.py:44-51 | a bare URL at the scan position is wrapped and the scan resumes after it |
| Thumbnails.StepKeep | scripts/ui.py:44-51 | otherwise one character is copied |
| Thumbnails.ProgressBare | scripts/ui.py:44 | the lookbehind automaton decides the `(?<!!\[\]\()` test |
| Thumbnails.OutputStart | scripts/ui.py:51 | output that starts with a word without `!` comes from input that starts with it |
| Thumbnails.EmbedAgain | scripts/ui.py:43-51 | for Unnested text (a `)` between any two URL prefixes), rescanning the output from an equivalent lookbehind state changes nothing |
| Thumbnails.EmbedThumbnailsIdempotent | scripts/ui.py:43-51 | applying the rewrite to its own output changes nothing, for text where a `)` separates any two URL prefixes |
| Thumbnails.SplitAtPrefix | scripts/ui.py:51 | the rewrite splits at a URL prefix occurrence when every prefix before it is followed by a `)` before the next (`Unnested(x + Prefix)`); in `Prefix + "a " + u` the first prefix swallows `u`, so the split fails there |
| Thumbnails.BareUrlEmbedded | scripts/ui.py:44-51 | when every URL prefix before the URL is followed by a `)` before the next prefix, a URL not preceded by `![](` is replaced by `![](URL)`, the text before it is rewritten on its own, and the scan goes on after it |
| Thumbnails.EmbeddedUrlKept | scripts/ui.py:44 | when every URL prefix up to the URL's end is followed by a `)` before the next, a URL preceded by `![](` is left unchanged, the text before it is rewritten on its own, and the scan goes on after it |

## Left out

- File reading and `splitlines()`: `load_queries` receives the lines, because reading files is I/O.
- The `id` field's Python dict form: entries are records, because the dict layout adds nothing to the parser's behaviour.
- `float(score)` in `append_retrieved_query`: records keep the matched digit text, because floating point is not modelled; `Tools.FixedValue` reads such text as a fixed-point number.
- Tools.RetrieveQueries: scores are fixed-point ten-thousandths, not arbitrary floats, because binary floating point is not modelled. `:.4f` rounds the double nearest `x / 10000`. It prints the four digits of `x` as long as `|x / 10000|` stays below about 2^53 · 10^-4. That range covers the similarity scores between 0 and 1 that the tool asks for (`tools.py:149`).
- SimilarQueryPattern.ScoreAt: `\d` matches ASCII digits only, while Python's `\d` also accepts other Unicode decimal digits; the round trip never produces those.
- `\s` in the regex is modelled as `str.isspace()`; Python's `re` agrees with it on the characters the round trip produces.
- Repl.IsExitStrip: `str.lower()` is modelled only for A–Z and the Kelvin sign, the characters that lower-case into ASCII letters; every other character is kept as it is, which cannot change membership in the all-ASCII exit set.
- The agent run itself, the streaming API, printing, colours and timing in `run_demo_loop`: the run's events and final output are parameters of each turn, because they come from the external agents SDK.
- `KeyboardInterrupt` is treated like end of input (both end the loop at repl.py:220-222).
- `AgentRunner`, which `scripts/ui.py:9` and `scripts/cli.py:13` import from `src/sql_agent/utils/repl.py`, is not defined in the loop code of that module and is not modelled.
- The rest of `scripts/ui.py` (chainlit messages, session handling) and the database tools `executeQuery`, `getMetadata` and `get_tables`, because they are I/O.
- `SQLContext.__str__` and `to_json`, because they are presentation and JSON serialisation with floats and dates.
- `append_note`'s JSON decoding: the decoded value is a parameter of `AppendNoteIntended`, because JSON parsing is outside the model.
- RetrievalRoundTrip.RetrieveParsesBack: requires every key and SQL value to be non-blank. A blank key or SQL value in any entry but the last lets the lazy group run on to the next block's label, so two blocks merge into one triple. A blank field in the last entry would round-trip, but the model does not prove that case. The dictionary `get_queries_dict` builds never holds a blank key or value (`RetrievalRoundTrip.RetrieveFromQueriesDict`).
- SqlContext.AppendToolOutput: the same non-blank hypothesis as RetrieveParsesBack, for the same reason.
- SqlContext.AppendExecuted: the bare `raise` on a blank query is modelled as `RuntimeError`, which is what it raises when no exception is being handled. Called from inside an `except` block it would re-raise that block's exception instead; no caller of the method is in the modelled code, so the model assumes the plain call.
- Thumbnails.BareUrlEmbedded: requires every URL prefix before the URL to be followed by a `)` before the next prefix. Something of this kind is needed: in `Prefix + "a " + u` the first prefix swallows `u`. The hypothesis is stronger than necessary: a prefix whose match fails on a later `)` does no harm. Nothing is required of the text after the URL.
- Thumbnails.EmbeddedUrlKept: requires the same of the text up to the URL's end. This includes the URL itself, because a prefix inside a kept URL's id would start a replacement. Nothing is required of the text after the URL.
- Thumbnails.EmbedThumbnailsIdempotent: requires a `)` between any two occurrences of the URL prefix, which is stronger than "no asset id contains the prefix"; it also excludes prefixes that never complete a URL.
- The baseline (`_sent_to_model`, declared in `src/sql_agent/utils/base_context.py`, which is not part of this model) is a map from names to values. In-place mutation of a stored value after a delta is not modelled: the model has value semantics, so `self._sent_to_model[key] = value` without a copy behaves as a snapshot.
- Delta behaviour: the model follows the code as written.
  - The list branch's own code (`context.py:122-126`) diffs a list item by item. Both the set branch and the list branch report only when `new_items` is non-empty (:119, :124).
  - In the code, the list branch is nested under the set test and so never runs.
  - In the code, a set field that is empty and has no baseline is reported once, as an empty set, through the `else` at `context.py:127-130`.
- The `exclude` argument of `get_delta_for_model` is a set of names; its default is `["user_queries"]` (`SqlContext.DefaultExclude`).

## Findings

| source | as written | input that shows it | evidently intended | confidence | as-written member | corrected member |
|---|---|---|---|---|---|---|
| src/sql_agent/context.py:117-127 | the list branch is an `elif` of `if new_items` inside `if isinstance(value, set)`, so a list field is never diffed and every declared field is a list | a fresh context after `append_executed_sql_query("SELECT 1")`: `get_delta_for_model()` returns `{}` | set, list and scalar fields as three independent branches, each list item reported once | high (not executed) | SqlContext.ExecutedQueryNeverSent | SqlContext.ExecutedQuerySentIntended |
| src/sql_agent/context.py:56 | `json.loads()` is called with no argument, which raises TypeError; `except json.JSONDecodeError` does not catch it | `append_note("x")` raises TypeError | `json.loads(note)`, with the stripped note kept when decoding fails | high (not executed) | SqlContext.AppendNote | SqlContext.AppendNoteIntended |
