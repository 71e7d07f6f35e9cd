# Sortbook: importers, sorting and clean-up helpers in Dafny

This project models the logic of the Sortbook tools that can be checked
without a database, a network or a file system:

- **Works importer** (`scripts/import/import_works_sqlite.py`):
  - the title normaliser `normalize_text`;
  - the dump-line parser `parse_line`;
  - the conflict merge of `INSERT_SQL`, with one row per normalised title;
  - the batch and commit controller of `import_works`.

  The table is a `map` from normalised title to row. The controller is a
  class `WorksImport.Importer` whose methods follow pure step functions on a
  `Progress` value, and lemmas prove the loop invariant and the run's
  outcome.
- **Authors importer** (`scripts/import/import_authors_sqlite.py`):
  - the payload parser;
  - the grouping by normalised name into a `defaultdict`;
  - the row building;
  - the bulk insert under the `author_id` PRIMARY KEY.
- **Sorting tool** (`scripts/sort/src/main.rs`):
  - `normalize_text` and `normalize_name`;
  - the brace matcher `extract_first_json_object`;
  - the hint loop of `build_llm_prompt`;
  - the de-duplication in `load_author_hints`;
  - the alternates list and author filter of the work lookup;
  - the resume filter over the state log.
- **Library clean-up** (`scripts/cleanup/src/main.rs`):
  - `sanitize_component`, `normalize_name`, `remove_numeric_tokens`,
    `reorder_initials` and `capitalize_words`;
  - the display form `normalize_author_display`;
  - the candidate spellings `generate_candidates` and their comparison
    forms `normalized_variants`;
  - the two-row dynamic programme `lcs_length`.
- **File-name clean-up** (`scripts/cleanup-filenames/src/main.rs`):
  - `parse_exts` and `capitalize_first`;
  - the selection of one file per normalised name in `process_one_group`,
    with its renames and deletions in the order they are done, and their
    effect on a folder mapping names to contents;
  - the counting in `process_author_dir`.
- **Online alias resolver** (`scripts/author-alias-online/src/main.rs`):
  - `truncate` and `sanitize_dir_name`;
  - `format_author_dir`, `pick_first_last` and `invert_first_last`;
  - `normalize_query` and `normalize_for_score`;
  - the run's `count`/`resolved` counters.

Shared modules:

- `Wrappers` holds `Option`.
- `Lists` holds sequence lemmas.
- `Unicode` holds character classes, and case and decomposition tables for
  ASCII and Latin-1.
- `Text` holds trimming, splitting, joining, collapsing white space and
  the NFD/NFKD of a text.
- `Json` holds an already-decoded JSON value.

White space follows the language of each tool. `Space.Py` is Python's
`str.isspace`, which also counts U+001C..U+001F. `Space.Rust` is Rust's
`char::is_whitespace`.

## Model

| member | source | states |
|---|---|---|
| WorksImport.NormalizeText | scripts/import/import_works_sqlite.py:43-55 | "" for ""; otherwise only lower-case ASCII letters, digits and '-', in words separated by single spaces, no space at either end |
| WorksImport.Prepare | scripts/import/import_works_sqlite.py:50-53 | after lower-casing, NFD, dropping marks and the character filter only lower-case ASCII letters, digits, white space and '-' are left |
| WorksImport.NormalizeTextIdempotent | scripts/import/import_works_sqlite.py:43-55 | normalising a normalised title changes nothing |
| WorksImport.NormalizeTextReplace | scripts/import/import_works_sqlite.py:50-53 | two characters that lower-case, decompose and filter alike can replace each other anywhere in a title |
| WorksImport.AccentAndCaseInsensitive | scripts/import/import_works_sqlite.py:50-52 | an upper-case or accented Latin-1 letter gives the same normalised title as its lower-case ASCII base letter |
| WorksImport.AuthorKey | scripts/import/import_works_sqlite.py:86-93 | a string entry is its own key; an entry that is neither a string nor an object has none |
| WorksImport.ScanAuthors | scripts/import/import_works_sqlite.py:84-96 | not found iff no entry has a truthy key; otherwise the first truthy key decides: the run raises when it is not a string, else the id is that key with every "/authors/" removed |
| WorksImport.ParseRecord | scripts/import/import_works_sqlite.py:73-98 | a tuple only for an object whose key and title are strings, with every "/works/" removed from the key, the title stripped and the author of the scan; None iff the id or the normalised title is empty; raises iff the payload is not an object, the key or title is not a string, or the first truthy author key is not a string |
| WorksImport.ParseLine | scripts/import/import_works_sqlite.py:65-67 | a stripped line with fewer than four tabs gives None; every tuple is well formed |
| WorksImport.ParseLineFields | scripts/import/import_works_sqlite.py:65-71 | the payload is everything after the fourth tab; a payload that does not decode gives None, else the record's outcome |
| WorksImport.AltIds | scripts/import/import_works_sqlite.py:163-164 | the comma fields of `alternate_id`, comma-free, which join back to it |
| WorksImport.MergeAuthor | scripts/import/import_works_sqlite.py:166-169 | a non-empty `author_id` is never overwritten; an empty one takes the incoming value, whatever the work ids |
| WorksImport.Merge | scripts/import/import_works_sqlite.py:156-169 | a new title inserts (id, title, title_norm, author, ""); a conflict keeps `work_id`, `title` and `title_normalized` and applies the author rule |
| WorksImport.MergeAlternatesIds | scripts/import/import_works_sqlite.py:160-165 | the incoming id is appended to the alternates exactly when it is neither the row's `work_id` nor already one of its fields |
| WorksImport.MergeKeepsRowOk | scripts/import/import_works_sqlite.py:160-165 | the alternates stay duplicate-free and never hold the row's own `work_id` |
| WorksImport.MergeIds | scripts/import/import_works_sqlite.py:156-165 | a merge records the incoming id, and nothing else is added |
| WorksImport.Upsert | scripts/import/import_works_sqlite.py:156-170 | the insert fails (UNIQUE `work_id`) iff the title is new and its id is already a row's `work_id`; otherwise the keys grow by the title |
| WorksImport.ApplyBatch | scripts/import/import_works_sqlite.py:173-177 | a successful flush never removes a title |
| WorksImport.ApplyBatchAppend | scripts/import/import_works_sqlite.py:173-177 | flushing two batches in turn is flushing their concatenation |
| WorksImport.ApplyBatchKeys | scripts/import/import_works_sqlite.py:156-177 | after a flush the titles are the old ones plus those of the batch |
| WorksImport.RowCount | scripts/import/import_works_sqlite.py:156-177 | a fresh table holds one row per distinct normalised title fed in |
| WorksImport.UpsertKeepsTableOk | scripts/import/import_works_sqlite.py:156-170 | each row under its own title, unique work ids and clean alternates survive an upsert of a plain id |
| WorksImport.ApplyBatchKeepsTableOk | scripts/import/import_works_sqlite.py:173-177 | the same table invariant survives a whole flush |
| WorksImport.DuplicateWorkIdFails | scripts/import/import_works_sqlite.py:137-140 | two works with one id under two titles make the insert fail |
| WorksImport.ApplyBatchKeepsIdentity | scripts/import/import_works_sqlite.py:159-169 | once a title has a row, its `work_id` and `title` never change |
| WorksImport.FirstSeenWins | scripts/import/import_works_sqlite.py:156-158 | the first work met for a new title supplies its row's `work_id` and `title` |
| WorksImport.MergeAbsorbed | scripts/import/import_works_sqlite.py:160-169 | merging a record the row already absorbs changes nothing |
| WorksImport.MergeAbsorbs | scripts/import/import_works_sqlite.py:160-169 | a merged row absorbs the record just merged |
| WorksImport.MergeKeepsAbsorbs | scripts/import/import_works_sqlite.py:160-169 | a merge never undoes an earlier absorption |
| WorksImport.ApplyBatchAbsorbs | scripts/import/import_works_sqlite.py:173-177 | after a flush every record flushed so far is absorbed by its row |
| WorksImport.AbsorbedUnchanged | scripts/import/import_works_sqlite.py:173-177 | a batch whose records are all absorbed leaves the table as it is |
| WorksImport.ReapplyBatch | scripts/import/import_works_sqlite.py:173-177 | flushing the same batch again leaves the table unchanged |
| WorksImport.ApplyBatchIds | scripts/import/import_works_sqlite.py:156-177 | each row records exactly its old ids plus the ids of the batch under its title |
| WorksImport.FlushReplays | scripts/import/import_works_sqlite.py:238-241 | flushing the pending batch on top of the flushed prefix replays the whole feed |
| WorksImport.FailurePersists | scripts/import/import_works_sqlite.py:238-241 | a feed whose prefix fails to insert fails as a whole |
| WorksImport.AppendReplays | scripts/import/import_works_sqlite.py:236-237 | appending a parsed line to the batch keeps the replay relation |
| WorksImport.FlushFails | scripts/import/import_works_sqlite.py:238-241 | a flush fails exactly when the whole feed cannot be inserted, and then only the committed table remains |
| WorksImport.FlushSucceeds | scripts/import/import_works_sqlite.py:238-241 | a successful flush moves the batch into the table, adds its size to `rows_since_commit` and clears it |
| WorksImport.FlushedReplays | scripts/import/import_works_sqlite.py:238-241 | after a successful flush the whole feed replays |
| WorksImport.FlushedLog | scripts/import/import_works_sqlite.py:240 | the event log agrees with the counter after a flush |
| WorksImport.CommitKeeps | scripts/import/import_works_sqlite.py:243-247 | a commit makes the open table the committed one and resets the counter |
| WorksImport.AcceptUnfolds | scripts/import/import_works_sqlite.py:236-247 | append, flush once the batch reaches `batch_size`, commit once a non-zero interval is reached |
| WorksImport.AcceptNoFlush | scripts/import/import_works_sqlite.py:236-238 | a line that leaves the batch short of its size is only appended, and the run goes on |
| WorksImport.AcceptFlushFails | scripts/import/import_works_sqlite.py:238-241 | a line that fills the batch when the feed cannot be inserted fails the run back to the committed table |
| WorksImport.AcceptFlushSucceeds | scripts/import/import_works_sqlite.py:238-247 | otherwise the flush and the commit keep the loop invariant |
| WorksImport.AcceptFails | scripts/import/import_works_sqlite.py:236-247 | a parsed line fails the run exactly when its flush is due and the feed cannot be inserted |
| WorksImport.FeedKeeps | scripts/import/import_works_sqlite.py:231-247 | the loop body keeps the invariant; `processed` counts only parsed lines |
| WorksImport.FinishKeeps | scripts/import/import_works_sqlite.py:249-256 | after the loop the trailing batch is flushed, then the final commit; the run is done exactly when the feed inserts |
| WorksImport.Importer.constructor | scripts/import/import_works_sqlite.py:215-227 | the connection opens on the existing table, or an empty one with `force`, with empty batch and zero counters |
| WorksImport.Importer.FlushPending | scripts/import/import_works_sqlite.py:239-241 | the object's new state is the flush step of its old state |
| WorksImport.Importer.CommitNow | scripts/import/import_works_sqlite.py:244-247 | the object's new state is the commit step of its old state |
| WorksImport.Importer.Feed | scripts/import/import_works_sqlite.py:231-247 | one line through the loop body, keeping the controller invariant |
| WorksImport.Importer.Accept | scripts/import/import_works_sqlite.py:236-247 | the loop body for a parsed line, as the accept step |
| WorksImport.Importer.Finish | scripts/import/import_works_sqlite.py:249-256 | the trailing flush and final commit, keeping the controller invariant |
| WorksImport.StartInv | scripts/import/import_works_sqlite.py:215-227 | a fresh run satisfies the controller invariant |
| WorksImport.RunLinesKeeps | scripts/import/import_works_sqlite.py:231-247 | a run still going after the read loop met no raising line and keeps the invariant |
| WorksImport.RunLinesFails | scripts/import/import_works_sqlite.py:231-247 | a run that failed met a raising line or a feed that cannot be inserted |
| WorksImport.ImportOutcome | scripts/import/import_works_sqlite.py:215-256 | the import ends done iff no line raises and the feed inserts; the table is then the feed applied and committed, and with `force` it has one row per distinct title |
| AuthorsImport.TextOr | scripts/import/import_authors_sqlite.py:98-99 | `(v or "")` then a string method: raises exactly for a truthy non-string |
| AuthorsImport.ParseAuthorPayload | scripts/import/import_authors_sqlite.py:97-105 | a record only for an object with a string key and name: the id with every "/authors/" removed, the stripped lower-cased name and its normal form, both id and name non-empty |
| AuthorsImport.ParseAuthorLine | scripts/import/import_authors_sqlite.py:93-95 | a line with fewer than five tab fields is skipped |
| AuthorsImport.EmptyNormalizedNameKept | scripts/import/import_authors_sqlite.py:99-105 | a record whose name normalises to "" is still grouped, under "" |
| AuthorsImport.QuestionMarkNormalizesToEmpty | scripts/import/import_authors_sqlite.py:42-53 | the name "?" normalises to "" |
| AuthorsImport.QuestionMarkKept | scripts/import/import_authors_sqlite.py:99 | the stripped lower-cased name "?" is non-empty |
| AuthorsImport.GroupOf | scripts/import/import_authors_sqlite.py:105 | a name's group is empty iff no record has that name |
| AuthorsImport.GroupOfFirst | scripts/import/import_authors_sqlite.py:105 | a group starts with the first record of its name |
| AuthorsImport.RowFor | scripts/import/import_authors_sqlite.py:116-123 | the row takes the first entry's id and name; `alternate_id` is "" for one entry, else the later ids joined by "," |
| AuthorsImport.RowsFor | scripts/import/import_authors_sqlite.py:116-123 | one row per given name, built from that name's group |
| AuthorsImport.OneRowPerName | scripts/import/import_authors_sqlite.py:116-123 | exactly one row per distinct normalised name, each name once |
| AuthorsImport.FirstRecordWins | scripts/import/import_authors_sqlite.py:117-118 | the row of a name carries the id and name of the first record with it |
| AuthorsImport.RepeatedIdsKept | scripts/import/import_authors_sqlite.py:119-122 | repeated ids are kept in `alternate_id` |
| AuthorsImport.InsertAllSucceeds | scripts/import/import_authors_sqlite.py:125-131 | the bulk insert succeeds iff no two rows share an id and none is already present |
| AuthorsImport.InsertAllContents | scripts/import/import_authors_sqlite.py:125-131 | after a successful insert the old rows are untouched and exactly the new rows are added |
| AuthorsImport.SharedPrimaryIdFails | scripts/import/import_authors_sqlite.py:125-131 | two rows with one id make the import fail |
| AuthorsImport.SameIdTwoNamesFails | scripts/import/import_authors_sqlite.py:125-131 | one author id met first under two names makes the import fail |
| AuthorsImport.GroupSnoc | scripts/import/import_authors_sqlite.py:105 | one record appends to its group only, and its name to the order when it is new |
| AuthorsImport.GroupedAdd | scripts/import/import_authors_sqlite.py:105 | the `defaultdict` append keeps the grouping state describing the records read |
| AuthorsImport.AddRecord | scripts/import/import_authors_sqlite.py:105 | the append as a method: the new state describes one more record |
| AuthorsImport.GroupByName | scripts/import/import_authors_sqlite.py:91-110 | the read loop groups exactly the records the lines give |
| AuthorsImport.BuildBatch | scripts/import/import_authors_sqlite.py:115-123 | the batch loop builds one row per name, in order |
| AuthorsImport.ImportAuthors | scripts/import/import_authors_sqlite.py:88-131 | the rows inserted are those of the records, and the insert result is that of the bulk insert |
| SortTool.Decomposed | scripts/sort/src/main.rs:105-107 | the lower-cased, decomposed text has no ASCII upper case |
| SortTool.Pushed | scripts/sort/src/main.rs:107-114 | the loop pushes only ASCII letters, digits, white space and '-' |
| SortTool.NormalForm | scripts/sort/src/main.rs:104-117 | "" for ""; otherwise lower-case ASCII letters, digits and '-' in single-spaced words |
| SortTool.NormalizeText | scripts/sort/src/main.rs:104-117 | the push loop computes the normal form |
| SortTool.NormalFormIdempotent | scripts/sort/src/main.rs:104-117 | normalising twice is normalising once |
| SortTool.PushedNormalized | scripts/sort/src/main.rs:104-117 | a text already in normal form passes through the push loop unchanged |
| SortTool.NormalizeName | scripts/sort/src/main.rs:248-250 | the two names normalised apart, joined by one space when both are non-empty |
| SortTool.FormatAuthorDir | scripts/sort/src/main.rs:380-382 | "Last, First": the first comma follows the last name, then a space and the first name |
| SortTool.ExtractFirstJsonObject | scripts/sort/src/main.rs:119-142 | a result is the first object as the brace matcher sees it; None only when there is no '{' or the depth never returns to 0 |
| SortTool.FirstObjectCloses | scripts/sort/src/main.rs:130-136 | the span starts with '{' and ends with its balancing '}' |
| SortTool.FirstObjectUnique | scripts/sort/src/main.rs:124-138 | the span is the shortest balanced one |
| SortTool.NeverClosedNoObject | scripts/sort/src/main.rs:138-141 | when the depth never returns to 0 there is no object |
| SortTool.StrayCloseIgnored | scripts/sort/src/main.rs:130-133 | text before the first '{', a stray '}' included, does not change the object |
| SortTool.PushHints | scripts/sort/src/main.rs:208-216 | hints in order, "; " between them, stopping once the prompt exceeds 40000 bytes |
| SortTool.BuildLlmPrompt | scripts/sort/src/main.rs:197-220 | `base` alone without hints; otherwise header, hints, "\n\n" and `base` |
| SortTool.HintsTakenUnique | scripts/sort/src/main.rs:208-216 | the number of hints taken is determined |
| SortTool.WithHintsLength | scripts/sort/src/main.rs:209-212 | each further hint adds two bytes and its own length |
| SortTool.AllHintsWhenShort | scripts/sort/src/main.rs:213-215 | when all hints fit, all are taken |
| SortTool.PromptOvershoot | scripts/sort/src/main.rs:213-215 | the cap is passed by at most the separator and the last hint |
| SortTool.FirstByNorm | scripts/sort/src/main.rs:184-193 | the kept names come from the input and have distinct normal forms |
| SortTool.FirstByNormDedup | scripts/sort/src/main.rs:184-193 | the kept names' normal forms are the de-duplicated normal forms, in order |
| SortTool.QueryRows | scripts/sort/src/main.rs:180-181 | at most `max` non-empty names |
| SortTool.KeepFirstByNorm | scripts/sort/src/main.rs:182-194 | the loop keeps the first name of each normal form |
| SortTool.LoadAuthorHints | scripts/sort/src/main.rs:175-195 | nothing for max 0; otherwise the first name per normal form, at most `max` |
| SortTool.ParseAlternates | scripts/sort/src/main.rs:262-270 | empty exactly for ""; otherwise comma-free trimmed fields |
| SortTool.AlternatesRoundTrip | scripts/sort/src/main.rs:263-270 | ids written with "," parse back to themselves |
| SortTool.FindWorkInDb | scripts/sort/src/main.rs:231-246 | the first row of the title, None when there is none |
| SortTool.RowMatchesMembers | scripts/sort/src/main.rs:299-311 | the `,c,` test is membership of the author id or of the alternates' fields |
| SortTool.MatchesRow | scripts/sort/src/main.rs:298-311 | the candidate loop with its early exit computes the author test |
| SortTool.FirstMatch | scripts/sort/src/main.rs:293-316 | the first row passing the author test, None iff none does |
| SortTool.FilterByAuthor | scripts/sort/src/main.rs:289-316 | the filtering loop returns the first match |
| SortTool.FindWorkByTitleAndAuthor | scripts/sort/src/main.rs:276-317 | None without candidates; otherwise the direct title hit, so the author filter is never reached |
| SortTool.DonePath | scripts/sort/src/main.rs:500-510 | a path is marked only by an object with that string "path" |
| SortTool.SeenOkMember | scripts/sort/src/main.rs:499-512 | a path is done iff some log line marks it |
| SortTool.LoadSeenOk | scripts/sort/src/main.rs:496-512 | the loop over the state log collects exactly the marked paths |
| SortTool.DonePathOfRecord | scripts/sort/src/main.rs:501-509 | a record marks its path iff its mode passes the test |
| SortTool.RawSuccessRetried | scripts/sort/src/main.rs:504 | as written, a "full-raw" success is not marked done, so it is retried |
| SortTool.ModeOkSuccess | scripts/sort/src/main.rs:637-967 | the corrected test accepts exactly the modes written after a successful sort |
| SortTool.DoneExactlyWhenSorted | scripts/sort/src/main.rs:494-509 | corrected, a path is done iff a record of it has a success mode |
| Cleanup.StripAccents | scripts/cleanup/src/main.rs:478-483 | no combining mark is left; ASCII text is unchanged |
| Cleanup.ReplaceInvalid | scripts/cleanup/src/main.rs:492-501 | no invalid file-name character comes out; dots and spaces stay what they are |
| Cleanup.CleanKey | scripts/cleanup/src/main.rs:506 | on a clean component the reserved-name key is its ASCII lower case |
| Cleanup.SanitizeComponent | scripts/cleanup/src/main.rs:485-511 | never empty, no invalid character, no dot or space at either end, never a reserved name; "_" for blank or dots-only input |
| Cleanup.SanitizeComponentChars | scripts/cleanup/src/main.rs:485-511 | character by character, the input with dots and white space trimmed from its ends, each forbidden character '_' and every other kept; with '_' in front exactly when that, ASCII lower-cased, is a reserved device name |
| Cleanup.SanitizeClean | scripts/cleanup/src/main.rs:502-510 | a clean component is kept, or prefixed with '_' when reserved |
| Cleanup.SanitizeIdempotent | scripts/cleanup/src/main.rs:485-511 | sanitising twice is sanitising once |
| Cleanup.NormalizeName | scripts/cleanup/src/main.rs:597-611 | only ASCII letters, digits and '-', in single-spaced words |
| Cleanup.NormalizeNameSeparates | scripts/cleanup/src/main.rs:602-608 | any other ASCII character separates words instead of vanishing |
| Cleanup.NormalizeNameIdempotent | scripts/cleanup/src/main.rs:597-611 | normalising twice is normalising once |
| Cleanup.Select | scripts/cleanup/src/main.rs:672-673 | keeps exactly the words passing the test, never more words than given |
| Cleanup.SelectPartition | scripts/cleanup/src/main.rs:672-673 | two complementary filters together keep every word as often |
| Cleanup.RemoveNumericTokens | scripts/cleanup/src/main.rs:659-665 | the words are exactly the input's words that are not all digits, in order, single-spaced |
| Cleanup.ReorderInitials | scripts/cleanup/src/main.rs:667-680 | Some iff there is a one-byte word and a longer one; then the longer words, then the initials, each in order |
| Cleanup.ReorderPermutes | scripts/cleanup/src/main.rs:667-680 | the reordering keeps every word as often |
| Cleanup.CapitalizeWord | scripts/cleanup/src/main.rs:572-578 | a capitalised word is never empty, and a word without white space stays without it |
| Cleanup.CapitalizeWords | scripts/cleanup/src/main.rs:568-582 | single-spaced; its words are the input's words, each capitalised |
| Cleanup.CapitalizeWordsIdempotent | scripts/cleanup/src/main.rs:568-582 | on ASCII text capitalising twice is capitalising once |
| Cleanup.AcuteSeparatesAsWritten | scripts/cleanup/src/main.rs:517-524 | as written, U+00B4 acts as a space, not an apostrophe |
| Cleanup.AcuteAsApostrophe | scripts/cleanup/src/main.rs:517-524 | corrected, U+00B4 reads as an apostrophe |
| Cleanup.DisplayTextAgrees | scripts/cleanup/src/main.rs:517-524 | on a name without U+00B4 the display text as written and the corrected one coincide |
| Cleanup.DisplayBase | scripts/cleanup/src/main.rs:525-532 | corrected display text (U+00B4 read as an apostrophe): a text in capitals is lower-cased |
| Cleanup.SplitDisplayNameKeepsWords | scripts/cleanup/src/main.rs:538-549 | without a comma the parts hold all words in order, the last part at most one |
| Cleanup.NormalizeAuthorDisplay | scripts/cleanup/src/main.rs:513-516 | corrected display text: "_" for a blank name |
| Cleanup.ReplaceEnclosed | scripts/cleanup/src/main.rs:28-29 | text without the opening character is unchanged |
| Cleanup.ReplaceEnclosedPrefix | scripts/cleanup/src/main.rs:28-29 | text before the first opening character is kept as it is |
| Cleanup.ReplaceEnclosedRun | scripts/cleanup/src/main.rs:28-29 | the leftmost opening character, one or more characters without a closing one and a closing character are replaced as a whole, and replacing goes on after them |
| Cleanup.ReplaceEnclosedOpenKept | scripts/cleanup/src/main.rs:28-29 | an opening character with no closing one after it, or one right after it, is kept |
| Cleanup.StripEnclosures | scripts/cleanup/src/main.rs:654-657 | text without '[' or '(' is unchanged |
| Cleanup.StripEnclosuresBracket | scripts/cleanup/src/main.rs:654-657 | one bracketed run in text without parentheses becomes a space |
| Cleanup.StripEnclosuresParen | scripts/cleanup/src/main.rs:654-657 | in text without brackets the first parenthesised run becomes a space |
| Cleanup.CandidateBase | scripts/cleanup/src/main.rs:619-633 | the base spellings start with the trimmed name and hold no duplicate |
| Cleanup.PushIfNew | scripts/cleanup/src/main.rs:625-633 | a non-empty new spelling is appended, nothing else changes |
| Cleanup.SwapAtComma | scripts/cleanup/src/main.rs:640-648 | a turned-round form exists iff the spelling has a comma |
| Cleanup.Step | scripts/cleanup/src/main.rs:636-649 | the spelling and its non-empty turned-round form are added once each |
| Cleanup.Expand | scripts/cleanup/src/main.rs:635-650 | duplicate-free, exactly the base spellings and their turned-round forms, first base spelling first |
| Cleanup.CandidatesShape | scripts/cleanup/src/main.rs:613-652 | empty iff the name is blank; otherwise the trimmed name first, no duplicates, exactly the produced spellings |
| Cleanup.GenerateCandidates | scripts/cleanup/src/main.rs:613-652 | the loop with its `seen` set returns the candidate list |
| Cleanup.VariantsShape | scripts/cleanup/src/main.rs:584-595 | no duplicate, no empty string, exactly the non-empty comparison forms of the candidates |
| Cleanup.VariantsPrefix | scripts/cleanup/src/main.rs:584-595 | later candidates keep the first-occurrence order of earlier ones |
| Cleanup.NormalizedVariants | scripts/cleanup/src/main.rs:584-595 | the loop returns the variants of the candidates |
| Cleanup.Lcs | scripts/cleanup/src/main.rs:832-846 | at most the length of either sequence |
| Cleanup.LcsWitness | scripts/cleanup/src/main.rs:832-846 | a common subsequence of exactly that length exists |
| Cleanup.LcsUpperBound | scripts/cleanup/src/main.rs:832-846 | no common subsequence is longer |
| Cleanup.LcsSymmetric | scripts/cleanup/src/main.rs:832-846 | the length does not depend on the order of the arguments |
| Cleanup.LcsStep | scripts/cleanup/src/main.rs:837-841 | one cell of the table from its three neighbours |
| Cleanup.LcsLength | scripts/cleanup/src/main.rs:832-846 | the two-row loop computes the longest common subsequence length |
| CleanupFilenames.DropLeadingDots | scripts/cleanup-filenames/src/main.rs:79 | a suffix of the input with no leading '.' |
| CleanupFilenames.ParseExts | scripts/cleanup-filenames/src/main.rs:71-84 | None iff blank; otherwise exactly the non-empty cleaned comma fields, none empty or starting with '.' |
| CleanupFilenames.ParseExtsRoundTrip | scripts/cleanup-filenames/src/main.rs:71-84 | a list of clean extensions written with "," parses back to itself |
| CleanupFilenames.CapitalizeFirst | scripts/cleanup-filenames/src/main.rs:250-256 | "" unchanged; otherwise the first character upper-cased and the rest kept |
| CleanupFilenames.CapitalizeFirstAscii | scripts/cleanup-filenames/src/main.rs:250-256 | on ASCII only the first character changes |
| CleanupFilenames.CapitalizeFirstIdempotent | scripts/cleanup-filenames/src/main.rs:250-256 | capitalising twice is capitalising once |
| CleanupFilenames.BetterLexicographic | scripts/cleanup-filenames/src/main.rs:147-169 | the replacement rule is the strict order on (accented, size) |
| CleanupFilenames.BetterThanMax | scripts/cleanup-filenames/src/main.rs:153-165 | the rule is transitive through a maximum |
| CleanupFilenames.BestsFoldGroups | scripts/cleanup-filenames/src/main.rs:140-171 | one kept file per key with files, the fold of the rule over its group |
| CleanupFilenames.FoldBestFirstMaximum | scripts/cleanup-filenames/src/main.rs:142-171 | the kept file is the first with the greatest (accented, size): earlier files worse, no later one better |
| CleanupFilenames.GroupsMembers | scripts/cleanup-filenames/src/main.rs:122-140 | a file is in a key's group iff an accepted entry of the listing gives it |
| CleanupFilenames.GroupKeys | scripts/cleanup-filenames/src/main.rs:122-140 | the keys are those of the accepted entries |
| CleanupFilenames.CollectSnoc | scripts/cleanup-filenames/src/main.rs:116-175 | one more listing entry appends an accepted file to its key's group and makes it the kept file when the key is new or the file is better |
| CleanupFilenames.CollectGroups | scripts/cleanup-filenames/src/main.rs:116-175 | the first pass builds the groups and the kept files |
| CleanupFilenames.DeletesIn | scripts/cleanup-filenames/src/main.rs:196-211 | a deletion is planned exactly for each file of the group whose name is not spared |
| CleanupFilenames.KeyPlan | scripts/cleanup-filenames/src/main.rs:180-211 | as written: the rename of the kept file when its name is not the target, then a deletion of every other file of the group in group order; with `fixed`, a file already bearing the target name is spared too |
| CleanupFilenames.PlanGroups | scripts/cleanup-filenames/src/main.rs:178-216 | every key visited once in some order, its actions appended in that order, and one counted per key |
| CleanupFilenames.ProcessOneGroup | scripts/cleanup-filenames/src/main.rs:108-217 | the plan of the listing for some order of its keys, and the number of keys |
| CleanupFilenames.PlanDeleteOf | scripts/cleanup-filenames/src/main.rs:196-211 | a planned deletion names a file of some key's group that is not that key's kept file |
| CleanupFilenames.PlanDeletesOnlyGrouped | scripts/cleanup-filenames/src/main.rs:196-210 | only files that took part in the grouping are deleted |
| CleanupFilenames.KeptNameOneKey | scripts/cleanup-filenames/src/main.rs:140-171 | in a listing of distinct names, a kept file belongs to its own key's group only |
| CleanupFilenames.PlanKeepsBests | scripts/cleanup-filenames/src/main.rs:196-211 | in a listing of distinct names, no deletion names a kept file by its original name |
| CleanupFilenames.RunAppend | scripts/cleanup-filenames/src/main.rs:178-214 | running two action lists in turn is running their concatenation; a failure stops the run |
| CleanupFilenames.RunDeletes | scripts/cleanup-filenames/src/main.rs:196-211 | the deletions remove exactly the group's names that are not spared, and nothing else |
| CleanupFilenames.RunRenameKept | scripts/cleanup-filenames/src/main.rs:185-193 | the rename moves the kept content to the target name, replacing whatever bore it |
| CleanupFilenames.KeyActionsEffect | scripts/cleanup-filenames/src/main.rs:178-211 | as written: when another file of the group bears the target name the folder loses the whole group, kept file included; otherwise the kept content alone is left of the group, under the target name |
| CleanupFilenames.KeptFileLostAsWritten | scripts/cleanup-filenames/src/main.rs:186-207 | as written, a kept file whose target is a sibling's name: its content is nowhere in the folder afterwards |
| CleanupFilenames.LargerKept | scripts/cleanup-filenames/src/main.rs:147-169 | of two unaccented files the larger is kept |
| CleanupFilenames.TargetSiblingLost | scripts/cleanup-filenames/src/main.rs:186-207 | two files, the kept one's target being the other's name: a rename onto the other, then its deletion, leave the folder empty |
| CleanupFilenames.DuneLostAsWritten | scripts/cleanup-filenames/src/main.rs:178-211 | "Dune!.epub" (2 bytes) and "Dune.epub" (1 byte): the first is kept, renamed to "Dune.epub" and then deleted, and the folder is left empty |
| CleanupFilenames.AsWrittenAgrees | scripts/cleanup-filenames/src/main.rs:186-211 | when no other file of the group bears the target name, the actions as written are the corrected ones |
| CleanupFilenames.KeyKeepsOne | scripts/cleanup-filenames/src/main.rs:178-211 | corrected: of the group only the kept content is left, under the target name; the rest of the folder is unchanged but for a file outside the group bearing the target name |
| CleanupFilenames.FolderKeepsOne | scripts/cleanup-filenames/src/main.rs:178-214 | corrected, for a whole folder whose keys touch disjoint names: the plan runs through; every key's kept content is under its target; no other file of any group is left; untouched names are unchanged; no other name appears |
| CleanupFilenames.PlanAsWrittenAgrees | scripts/cleanup-filenames/src/main.rs:178-214 | when no key's target is taken by another file of its group, the plan as written is the corrected plan |
| CleanupFilenames.FoldBestIn | scripts/cleanup-filenames/src/main.rs:142-171 | the kept file is one of the group |
| CleanupFilenames.CountIsKeys | scripts/cleanup-filenames/src/main.rs:213-216 | a folder counts its number of distinct keys |
| CleanupFilenames.ProcessAuthorDir | scripts/cleanup-filenames/src/main.rs:86-106 | one plan per folder, the author folder first and then each sub-folder, each that folder's plan; the count is the keys of the author folder plus those of each sub-folder |
| AuthorAlias.TruncateMarksUncutAsWritten | scripts/author-alias-online/src/main.rs:134-139 | as written, a text within `max` characters but over `max` bytes keeps everything yet gets "…" |
| AuthorAlias.TruncateAsWrittenExample | scripts/author-alias-online/src/main.rs:134-139 | "é" with max 1 gives "é…" |
| AuthorAlias.Truncated | scripts/author-alias-online/src/main.rs:134-139 | corrected: the text when it fits, else its first `max` characters and "…" |
| AuthorAlias.Truncate | scripts/author-alias-online/src/main.rs:134-139 | the character loop computes the corrected truncation |
| AuthorAlias.SanitizedDirName | scripts/author-alias-online/src/main.rs:188-197 | "" iff blank; otherwise as long as the trimmed text, and character by character '_' where the trimmed text has a forbidden character and that character elsewhere |
| AuthorAlias.SanitizeDirName | scripts/author-alias-online/src/main.rs:188-197 | the push loop computes the sanitised name |
| AuthorAlias.SanitizedDirNameIdempotent | scripts/author-alias-online/src/main.rs:188-197 | a sanitised name is left as it is |
| AuthorAlias.NamePart | scripts/author-alias-online/src/main.rs:216-219 | one folder-name part is single-spaced |
| AuthorAlias.FormatAuthorDir | scripts/author-alias-online/src/main.rs:215-227 | "Last, First" when both parts are present, the last alone, else the first |
| AuthorAlias.SplitAtComma | scripts/author-alias-online/src/main.rs:231-236 | parts only around a comma, both non-empty and trimmed, the last one comma-free |
| AuthorAlias.SplitAtCommaOf | scripts/author-alias-online/src/main.rs:231-236 | "before, after" splits back into its two parts |
| AuthorAlias.LabelParts | scripts/author-alias-online/src/main.rs:239-246 | the parts hold the label's words in order; two or more words put exactly one in the last part; otherwise (label, "") |
| AuthorAlias.PickFirstLast | scripts/author-alias-online/src/main.rs:229-247 | the local name's comma split when it exists, else the label's split |
| AuthorAlias.FormatThenPick | scripts/author-alias-online/src/main.rs:215-247 | a folder name of two clean parts reads back as the same parts |
| AuthorAlias.InvertFirstLast | scripts/author-alias-online/src/main.rs:452-460 | None iff fewer than two words |
| AuthorAlias.InvertThenPick | scripts/author-alias-online/src/main.rs:229-247 | an inverted comma-free label splits back where the label splits |
| AuthorAlias.AccentSplitsQueryAsWritten | scripts/author-alias-online/src/main.rs:342-347 | as written, "é" in a query becomes "e " and splits the word |
| AuthorAlias.QueryText | scripts/author-alias-online/src/main.rs:342-347 | corrected: only ASCII letters, digits, commas and spaces |
| AuthorAlias.AccentKeptInQuery | scripts/author-alias-online/src/main.rs:342-347 | corrected, "é" is searched as "e" |
| AuthorAlias.QueryTextAgrees | scripts/author-alias-online/src/main.rs:342-347 | where the decomposition holds no combining mark the query text as written and the corrected one coincide |
| AuthorAlias.NormalizeQuery | scripts/author-alias-online/src/main.rs:336-356 | corrected query text (combining marks dropped): only ASCII letters, digits, commas and spaces |
| AuthorAlias.FirstLast | scripts/author-alias-online/src/main.rs:348-355 | keeps the query character set |
| AuthorAlias.NormalizeQueryLastFirst | scripts/author-alias-online/src/main.rs:348-355 | "Last, First" of alphanumeric words becomes "First Last" |
| AuthorAlias.NormalizeForScore | scripts/author-alias-online/src/main.rs:441-450 | lower-case ASCII letters and digits in single-spaced words |
| AuthorAlias.NormalizeForScoreIdempotent | scripts/author-alias-online/src/main.rs:441-450 | the scoring form is a fixed point |
| AuthorAlias.ResolvedCount | scripts/author-alias-online/src/main.rs:118 | corrected query text: never more than the names processed |
| AuthorAlias.CountRun | scripts/author-alias-online/src/main.rs:97-128 | corrected query text: `limit` names when 0 < limit < |names|, else all; `resolved` counts the processed names whose search finds an entity |

## Left out

- Unicode tables:
  - Case mapping and canonical/compatibility decomposition cover ASCII and Latin-1 (U+0000..U+00FF) only, with the micro sign's images (U+03BC, and U+039C in upper case) and the fraction slash U+2044 of the vulgar fractions.
  - Every other character is its own lower case, upper case and decomposition; the lower case of U+039C, for one, is not modelled.
  - The combining marks are U+0300..U+036F.
- `normalize_basename_for_group` (`unidecode` and `\p{L}` classes) is the `key` parameter of the file-name clean-up.
- `has_accents` compares after NFC. The model tests the raw stem for non-ASCII characters. The two differ only for the few characters whose NFC is ASCII (the Kelvin sign, for example).
- The listing's stem and extension split (`Path::file_stem`, `Path::extension`) is given with each entry. A stem that is not UTF-8 is `None`.
- File system:
  - directory walks, renames, deletions and file sizes are inputs or planned actions;
  - a folder is a map from name to content; a rename of a missing file fails and ends the run, as the `?` ends `process_one_group`, but other I/O errors (permissions, a case-insensitive file system) are not modelled, and neither is `main`'s `unwrap_or(0)` for the error;
  - `dry_run` is not modelled: the plan is what a real run does;
  - the `fixed` parameter of `CleanupFilenames.ProcessOneGroup`, `PlanGroups`, `KeyPlan` and `ProcessAuthorDir` chooses between the actions as written (`false`) and the corrected actions of the finding below (`true`);
  - `list_author_dirs`, `maybe_move_author_folder` and `merge_dirs` are not modelled;
  - `dry_run`/`verbose` printing is not modelled.
- SQLite:
  - The tables are maps.
  - `executemany` is a fold that stops at the first constraint violation.
  - Commits and WAL checkpoints are events and counter resets.
  - Pragmas, indexes, `VACUUM` and durability are not modelled.
- The queries of the sorting tool:
  - The rows a query returns are inputs: `find_work_in_db`'s rows and `load_author_hints`'s names.
  - `LIMIT` is modelled.
  - `find_work_strict_like` and `fetch_neighbor_candidates` are not modelled.
- JSON decoding (`json.loads`, `serde_json`) is a `decode` parameter returning an already-parsed value. Objects are maps, and the last duplicate key wins.
- `count_lines`, progress bars, argument parsing and every `print`.
- The Ollama, OpenLibrary and Wikidata calls, and `enrich_first_last_with_wikidata`. The Wikidata search is the `found` parameter of `AuthorAlias.CountRun`.
- Floating-point scoring:
  - `sequence_ratio`, `token_overlap_score`, `prefix_score`, `suffix_score`, `bigram_dice_score`, `length_ratio_score` and `clamp`;
  - `suggest_author`, `alignment_score`, `token_overlap_f1` and `format_probable_value`.
- Rayon and Tokio concurrency.
- Cleanup.DisplayBase: built on the corrected display text of the U+00B4 finding below. By `Cleanup.DisplayTextAgrees` it is the source's on every name without U+00B4.
- Cleanup.NormalizeAuthorDisplay: built on the corrected display text, as `Cleanup.DisplayBase` is. Its contract states only the blank case. The parts are stated by `SplitDisplayNameKeepsWords` and the capitalisation by `CapitalizeWords`. The fallback for an empty trimmed value never applies, because the first character of a non-empty last name survives the trim, and it is left out.
- AuthorAlias.NormalizeQuery: built on the corrected query text of the accent finding below. By `AuthorAlias.QueryTextAgrees` it is the source's wherever the decomposition holds no combining mark. Its contract states the character set but not the single spacing of the result.
- AuthorAlias.ResolvedCount: searches the corrected query of `AuthorAlias.NormalizeQuery`, so a name with an accented letter is searched without the split the source makes.
- AuthorAlias.CountRun: the same corrected query as `AuthorAlias.ResolvedCount`.
- AuthorAlias.NamePart: its contract states single spacing, not the capitalisation of each word (stated by `Cleanup.CapitalizeWords`).
- SortTool.FormatAuthorDir: the position of the comma is stated for a last name without a comma.
- WorksImport.Importer: `fed` and `initial` are ghost bookkeeping for the invariant. The connection's table and the committed table are fields, not a database.
- `lcs_length` works on bytes: `Cleanup.LcsLength` takes `seq<Byte>`, and the UTF-8 encoding of the compared texts is not modelled.
- Integer widths: `usize` counters and `u64` sizes are unbounded naturals. No overflow is reachable at the sizes involved.

## Findings

| source | as written | input that shows it | evidently intended | confidence | as-written member | corrected member |
|---|---|---|---|---|---|---|
| scripts/sort/src/main.rs:504 | the resume filter accepts "full-brut", a mode never written; the raw-fallback success is written as "full-raw" (line 856) | a state log holding `{"path": p, "mode": "full-raw"}` | files sorted through the raw fallback are treated as done | high; not executed | SortTool.RawSuccessRetried | SortTool.DoneExactlyWhenSorted |
| scripts/cleanup/src/main.rs:517-521 | `strip_accents` (NFKD) runs before `.replace('´', "'")`, and NFKD turns U+00B4 into a space and a combining mark, so the replacement never applies | "O´Brien" becomes "O Brien" | U+00B4 is read as an apostrophe, "O'Brien" | medium; not executed | Cleanup.AcuteSeparatesAsWritten | Cleanup.AcuteAsApostrophe |
| scripts/author-alias-online/src/main.rs:135-137 | the length test counts UTF-8 bytes, but the cut counts characters | "é" with max 1 gives "é…" although nothing was cut | the ellipsis only when characters were dropped | high; not executed | AuthorAlias.TruncateMarksUncutAsWritten | AuthorAlias.Truncate |
| scripts/author-alias-online/src/main.rs:342-346 | after NFKD the combining marks are mapped to spaces like any other character | "Renée" is searched as "Rene e" | accents dropped, "Renee" | medium; not executed | AuthorAlias.AccentSplitsQueryAsWritten | AuthorAlias.AccentKeptInQuery |
| scripts/cleanup-filenames/src/main.rs:186-207 | the kept file is renamed to the target name, then every other file of the group is deleted by its original name, the one that bore the target name included, so the renamed kept file is deleted too | "Dune!.epub" (2 bytes) and "Dune.epub" (1 byte) in one folder, both of key "dune" | the kept file survives under the target name, and the file it replaced is not deleted again | high; not executed | CleanupFilenames.DuneLostAsWritten | CleanupFilenames.FolderKeepsOne |
