# SilverDict entry index and search engine, in Dafny

SilverDict is a dictionary-lookup server. Its database manager keeps every
headword of every loaded dictionary in one `entries` table. Each row holds a
`key`, the dictionary's name, the headword as written, and the headword's
offset and size. On top of that table it answers:

- exact lookups;
- prefix suggestions, through a sentinel range;
- "contains" suggestions, through an n-gram inverted index built in one of two encodings;
- key-list and LIKE-pattern suggestions.

This project models that engine as pure functions over an immutable table and
proves what its queries return.

| module | file | models |
|---|---|---|
| `Wrappers` | wrappers.dfy | `Option` |
| `Seqs` | seqs.dfy | WHERE, SELECT, DISTINCT and LIMIT as `Filter`, `Map`, `Dedup`, `Take`, with their algebra; prefix and substring |
| `Text` | text.dfy | rowids as decimal text and the comma-separated posting lists (`str`, `int`, `split(',')`) |
| `Collation` | collation.dfy | code-point ordering of keys and the `p <= key < p + U+3134A` range |
| `Ngrams` | ngrams.dfy | `_gen_ngrams` |
| `Entries` | entries.dfy | the `entries` table: `add_entry`, `delete_dictionary`, the lookups, the enumerations and the existence checks |
| `NgramTable` | ngram_table.dfy | `create_ngram_table` in key-postings and row-postings mode |
| `Expand` | expand.dfy | `expand_key` |
| `Like` | like.dfy | SQL `LIKE` with `%` and `_` |
| `Suggest` | suggest.dfy | `select_entries_beginning_with`, `select_entries_containing`, `select_entries_with_keys`, `select_entries_like` |

Modelling choices:

- **Rowids.** A row carries its rowid. A new row gets one more than the largest rowid present, so a table built only by `add_entry` has rowid = position + 1 (`Entries.AddKeepsDense`). Deleting a dictionary does not renumber the rows that remain.
- **Engine constants.** The n-gram length and the candidate cap (`Settings.NGRAM_LEN`, `Settings.SQLITE_LIMIT_VARIABLE_NUMBER`) are the fields of a `Settings` value. Every property holds for every value, with an n-gram length of at least 1.
- **Result order.** Where Python iterates a `set`, the model takes first-occurrence order. Every property stated is independent of that order.

## Model

| member | source | states |
|---|---|---|
| `Ngrams.GenNgrams` | server/app/db_manager.py:34-39 | no n-grams for a string shorter than the length; otherwise exactly `len - n + 1` of them, the i-th being the substring starting at i |
| `Ngrams.NgramMembership` | server/app/db_manager.py:34-39 | a string is an n-gram of `s` exactly when it has length n and occurs in `s` |
| `Ngrams.NgramsOfSubstring` | server/app/db_manager.py:34-39 | every n-gram of a query is an n-gram of any key containing the query |
| `Entries.AddEntry` | server/app/db_manager.py:73-80 | exactly one row is appended with the given columns, with no uniqueness check; earlier rows are unchanged; the new rowid exceeds every existing one, so rowids stay unique |
| `Entries.AddThenGet` | server/app/db_manager.py:131-138 | after `add_entry(k, d, w, o, s)`, `get_entries(k, d)` is the old answer followed by `(w, o, s)`, and every other `get_entries` answer is unchanged |
| `Entries.AddThenCount` | server/app/db_manager.py:141-144 | after `add_entry` the dictionary exists and its headword count grew by one; other counts are unchanged |
| `Entries.AddKeepsDense` | server/app/db_manager.py:73-80 | appending to a table numbered 1, 2, … keeps it numbered by position + 1 |
| `Entries.DeleteDictionary` | server/app/db_manager.py:167-170 | a row survives exactly when it belongs to another dictionary; rowids stay unique and ordered |
| `Entries.DeleteThenQuery` | server/app/db_manager.py:167-170 | after deletion the dictionary does not exist, counts 0 headwords and finds no key; the table shrank by its old count; every other dictionary keeps exactly its rows, in order |
| `Entries.RowidIdentifies` | server/app/db_manager.py:109-115 | in a well-formed table a rowid names at most one row, which lets a posted rowid stand for one entry |
| `Entries.GetEntries` | server/app/db_manager.py:131-138 | a triple is returned exactly when some row with that key and dictionary has that word, offset and size |
| `Entries.HeadwordCount` | server/app/db_manager.py:141-144 | the count is zero exactly when the dictionary has no row |
| `Entries.GetEntriesWithHeadword` | server/app/db_manager.py:147-154 | a pair is returned exactly when some row with that headword and dictionary has that offset and size |
| `Entries.AddThenGetWithHeadword` | server/app/db_manager.py:73-80 | after `add_entry(k, d, w, o, s)`, `get_entries_with_headword(w, d)` is the old answer followed by `(o, s)`, one pair per row with no deduplication, and every other headword lookup is unchanged |
| `Entries.GetEntriesAll` | server/app/db_manager.py:157-164 | sorted by offset, and a permutation of the dictionary's rows: one line per row, each line from a row of the dictionary |
| `Entries.SelectWordsOfDictionary` | server/app/db_manager.py:193-196 | distinct, and a word is listed exactly when some row of the dictionary has it |
| `Entries.DictionaryExists` | server/app/db_manager.py:65-70 | true exactly when some row has that dictionary name |
| `Entries.EntryExistsInDictionary` | server/app/db_manager.py:318-324 | true exactly when some row has that key and dictionary name |
| `Entries.HeadwordExistsInDictionary` | server/app/db_manager.py:327-331 | true exactly when some row has that headword and dictionary name |
| `Entries.EntryExistsInDictionaries` | server/app/db_manager.py:334-344 | true exactly when some row has that key and a dictionary name in the list |
| `NgramTable.CreateNgramTable` | server/app/db_manager.py:87-128 | a fresh table in the requested mode; in key mode it holds `(g, k)` exactly when `k` is the key of some entry, at least n long, with n-gram g; in row mode it has at most one row per n-gram |
| `NgramTable.BuildKeyPostings` | server/app/db_manager.py:94-104 | the key-postings walk inserts `(g, k)` exactly for the listed keys at least n long and their n-grams g |
| `NgramTable.KeyPostingsExact` | server/app/db_manager.py:94-104 | the key-postings table holds `(g, k)` exactly when k is a key of the table, at least n long, with g among its n-grams |
| `NgramTable.UpsertPosts` | server/app/db_manager.py:119-126 | the read-modify-write keeps one row per n-gram, adds the rowid to the posting of g, and changes no other posting |
| `NgramTable.PostNgramsPosts` | server/app/db_manager.py:117-126 | posting a rowid under the n-grams of one key lists it under each of them and nothing else |
| `NgramTable.PostEntriesPosts` | server/app/db_manager.py:109-126 | the row-postings walk adds exactly the rowid of each long-enough entry under each n-gram of its key |
| `NgramTable.RowPostingsExact` | server/app/db_manager.py:105-126 | after a row-postings build there is at most one row per n-gram, and the posting of g lists a rowid exactly when that entry's key is long enough and has g among its n-grams |
| `Expand.Intersection` | server/app/db_manager.py:262-270 | distinct; an id survives exactly when some row matched and every matched posting lists it |
| `Expand.ExpandKey` | server/app/db_manager.py:246-283 | nothing for a query shorter than the n-gram length; in row mode, nothing when no rowid is posted under every matched n-gram; every key returned contains the query |
| `Expand.ExpandBound` | server/app/db_manager.py:246-283 | never more keys than the candidate cap, in either mode |
| `Expand.KeyModeExact` | server/app/db_manager.py:256-259 | in key mode the result is distinct keys of the table containing the query; the containment filter runs before the cut, so the result has exactly min(matching keys, cap) keys and is complete under the cap |
| `Expand.EntryInIntersection` | server/app/db_manager.py:262-273 | in row mode every entry whose key contains the query survives the intersection |
| `Expand.IntersectionWithinCandidates` | server/app/db_manager.py:262-273 | when some entry contains the query, every id in the intersection is the rowid of an entry whose key has every n-gram of the query (otherwise n-grams with no posting row take no part in the intersection) |
| `Expand.RowModeComplete` | server/app/db_manager.py:262-281 | in row mode, when the entries having all the query's n-grams fit under the cap, the key of every entry containing the query is returned |
| `Expand.RowModeKeysExist` | server/app/db_manager.py:277-281 | row mode returns only keys of rows of the table, whatever the n-gram table holds |
| `Collation.SentinelRange` | server/app/db_manager.py:210-217 | `p <= k < p + U+3134A` holds exactly when k starts with p and either ends there or continues with a character below U+3134A |
| `Collation.RangeImpliesPrefix` | server/app/db_manager.py:210-217 | every key in the range starts with the prefix |
| `Collation.RangeIsPrefixBelowSentinel` | server/app/db_manager.py:210-217 | for keys whose characters are all below U+3134A, the range is exactly the prefix test |
| `Collation.SentinelMissesHighCharacters` | server/app/db_manager.py:210-217 | a key continuing the prefix with U+3134B starts with the prefix but is outside the range |
| `Like.ContainsPatternIsSubstring` | server/app/db_manager.py:225-243 | `key like '%q%'` holds for every key containing q, and for a q without `%` or `_` for no other key |
| `Like.MatchSelf` | server/app/db_manager.py:303-315 | every string matches itself used as a LIKE pattern |
| `Like.AnyOneIsAWildcard` | server/app/db_manager.py:225-243 | a `_` in the query is a wildcard: `ab` matches the containment pattern `%a_%` built from `a_`, without containing `a_` |
| `Suggest.SelectEntriesContaining` | server/app/db_manager.py:225-243 | distinct words, none already found, at most `limit - len(found)` of them |
| `Suggest.ContainingExact` | server/app/db_manager.py:225-243 | each word comes from a row of a named dictionary whose key matches `%query%` and whose word was not found; for a query without `%` or `_`, a row whose key contains the query; when every such word fits under the limit, each word of a row whose key contains the query is returned, and for a query without wildcards exactly those words |
| `Suggest.ContainingUnescaped` | server/app/db_manager.py:236-242 | the query goes into the pattern unescaped: the query `a_` returns the word of an entry keyed `ab` |
| `Suggest.ContainingIsLike` | server/app/db_manager.py:225-243 | with nothing already found, the containing query is the like query on `%key%` |
| `Suggest.SelectEntriesWithKeys` | server/app/db_manager.py:286-300 | distinct words, none already found, at most `limit - len(found)` of them |
| `Suggest.WithKeysExact` | server/app/db_manager.py:286-300 | each word comes from a row of a named dictionary whose key is listed and whose word was not found; under the limit, exactly those words |
| `Suggest.SelectEntriesLike` | server/app/db_manager.py:303-315 | distinct words, at most `limit` of them, with no exclusion |
| `Suggest.LikeExact` | server/app/db_manager.py:303-315 | each word comes from a row of a named dictionary whose key matches the pattern; under the limit, exactly those words |
| `Suggest.LikeFindsExactKey` | server/app/db_manager.py:303-315 | under the limit, a key used as its own pattern returns the word of every row of a named dictionary with that key |
| `Suggest.SqlLimit` | server/app/db_manager.py:210-217 | a LIMIT keeps a prefix of the rows, as many as the limit allows, and all of them for a negative limit |
| `Suggest.PrefixHitSound` | server/app/db_manager.py:210-217 | a word one prefix query yields comes from a row of a named dictionary, not already found, whose key lies in the range and starts with the prefix |
| `Suggest.BeginningWithSound` | server/app/db_manager.py:199-222 | every word returned comes from the query of one of the candidate prefixes |
| `Suggest.ScanBound` | server/app/db_manager.py:208-221 | the loop as written never gathers more than its budget, and while it runs the limit is a share of the budget not yet spent |
| `Suggest.SelectEntriesBeginningWith` | server/app/db_manager.py:199-222 | the loop as written returns at most `limit - len(found)` words whenever that is not negative |
| `Suggest.SelectEntriesBeginningWithCorrected` | server/app/db_manager.py:199-222 | the corrected loop, which reduces the limit by each query's own result, also returns at most `limit - len(found)` words |
| `Suggest.BeginningWithOnePrefix` | server/app/db_manager.py:199-222 | for one prefix whose matching words fit under `limit - len(found)`, the query as written returns exactly those words |
| `Suggest.BeginningWithFindsPrefixed` | server/app/db_manager.py:199-222 | under the same condition, the word of every row of a named dictionary, not already found, whose key starts with the prefix and stays below U+3134A is returned |
| `Suggest.ScanCorrectedGathersAll` | server/app/db_manager.py:208-221 | when all the per-prefix words fit under the limit, the corrected loop returns them all, prefix after prefix |
| `Suggest.BeginningWithCorrectedComplete` | server/app/db_manager.py:199-222 | when all the candidate prefixes' words fit under `limit - len(found)`, the corrected query returns the word of every named, not-found row whose key starts with one of the prefixes and stays below U+3134A |
| `Suggest.ScanStops` | server/app/db_manager.py:219-221 | once the loop has broken off, later prefixes change nothing |
| `Suggest.BeginningWithEarlyStop` | server/app/db_manager.py:208-221 | once the limit is no longer positive, adding candidate prefixes changes nothing |
| `Suggest.AsWrittenUnderfills` | server/app/db_manager.py:218-219 | the cumulative subtraction stops at 3 words with a budget of 4 and 5 words available |
| `Suggest.ScanCorrectedFills` | server/app/db_manager.py:208-221 | with the limit reduced by each query's own result, the loop gathers exactly min(budget, words available) |
| `Suggest.BeginningWithCorrectedExact` | server/app/db_manager.py:199-222 | the corrected query returns exactly min(`limit - len(found)`, available) words |
| `Suggest.BeginningWithCorrectedSound` | server/app/db_manager.py:199-222 | every word the corrected query returns comes from the query of one of the candidate prefixes |
| `Suggest.CorrectedFillsExample` | server/app/db_manager.py:218-219 | on the under-fill example the corrected loop returns all 4 words the budget allows |

## Left out

- **Not modelled at all:**
  - the SQLite connection, its cursors held per thread, and `commit` (on the logical table `commit` is a no-op);
  - visibility of writes across threads.
- **Index DDL:** `create_index`, `drop_index` and the `ngrams_ngram` index only change speed.
- **N-gram table staleness:** the n-gram table goes stale when entries are added or deleted after a build, and readers can race a rebuild. Both are lifecycle and concurrency concerns. Every `expand_key` property is stated for a table freshly built from the entries; `Expand.ExpandBound` and `Expand.RowModeKeysExist` hold for any table.
- **`order by key`:** every suggestion query ends with `order by key`, which the model leaves out: results come in table order. The properties say which words come back, not in which order. When the limit cuts the results, the model's choice of words can differ from SQLite's.
- **Set iteration order:** Python's `set` iteration order in `expand_key` is taken as first occurrence. This decides which candidates a cut keeps.
- **Negative limits:** `SqlLimit` models a negative `LIMIT` as no bound, which is what SQLite does. The size bounds are stated only when `limit - len(found)` is not negative.
- **LIKE details:** SQLite's LIKE folds ASCII case, which `Like.Match` does not. `select_entries_containing` does not escape `%` or `_` in its key, which `Like.AnyOneIsAWildcard` shows.
- **`int()` errors:** in `expand_key`, every piece of a posting that is not a non-empty string of ASCII digits is dropped. That covers the pieces on which `int(idx)` raises, and also the few it would accept: a sign, surrounding whitespace, underscores or non-ASCII digits. Postings built by `create_ngram_table` hold only ASCII numerals.
- **Empty dictionary list:** an empty list of dictionary names gives an empty result or `false`, as `dictionary_name in ()` does in SQLite; no argument error is raised.
- **Cut and filter order:** key mode filters by containment before it cuts to the cap (db_manager.py:257-259); row mode cuts before it filters (db_manager.py:272-281). `Expand.KeyModeExact` states the key-mode order.
- Expand.RowModeComplete: states completeness only when the candidates fit under the cap. Above the cap, row mode cuts before it filters, so it can lose matching keys; which ones depends on the set order left out above.
- **`stores_keys`:** the flag `expand_key` takes (db_manager.py:246, 255) is replaced by the mode recorded in the n-gram table (`NgramTable.Index`). A call whose flag disagrees with how the table was built is not modelled: key mode over rowid lists would treat the lists as keys, and row mode over keys would raise `ValueError` from `int(idx)` (db_manager.py:276).
- **64-bit integers:** offsets, sizes, limits and rowids are unbounded integers. SQLite's INTEGER is 64-bit, and Python's sqlite3 raises `OverflowError` on binding a value outside [-2^63, 2^63-1]. That would happen in `add_entry` (db_manager.py:80) and at the `limit ?` parameters (db_manager.py:216, 241, 298, 313). Past rowid 2^63-1, SQLite stops allocating max+1, whereas `Entries.AddEntry` always does.
- **Too many SQL variables:** sqlite3 raises an error when a statement binds more parameters than `SQLITE_LIMIT_VARIABLE_NUMBER`. The model does not: neither for `ngram in (...)` (db_manager.py:252-253) on a query with more n-grams than the cap, nor for the dictionary-name and found-word lists of the suggestion queries.
- **Other files:** `server/app/settings.py` is not part of this model; its two constants are the fields of `NgramTable.Settings`. Nor are the serving layer (`server/app/silverdict.py`), the dictionary readers (`server/app/dicts/`) or the client. Keys are taken as already normalised.

## Findings

| source | as written | input that shows it | evidently intended | confidence | as-written member | corrected member |
|---|---|---|---|---|---|---|
| server/app/db_manager.py:218-219 | after each prefix query the running limit drops by `len(result)`, the length of the whole result so far, so words from earlier prefixes are subtracted again | `limit - len(found)` = 4; three prefixes whose queries yield 1, 1 and 3 words; the limit goes 4, 3, 1, so only 3 words come back although 5 were available | the limit drops by the number of words the last query returned, so the result fills up to `min(limit - len(found), available)`, as the docstring's "first ten entries" says | medium (not executed) | `Suggest.AsWrittenUnderfills` | `Suggest.BeginningWithCorrectedExact` |

`Suggest.SelectEntriesBeginningWith` models the loop as written, and
`Suggest.SelectEntriesBeginningWithCorrected` is the corrected query. The
soundness, the bound and the early stop (`Suggest.BeginningWithSound`, the
bound on `Suggest.SelectEntriesBeginningWith`, `Suggest.BeginningWithEarlyStop`)
are stated for the code as written. The code as written is complete for a
single prefix (`Suggest.BeginningWithFindsPrefixed`). Completeness over
several prefixes holds only for the corrected query
(`Suggest.BeginningWithCorrectedComplete`), and the example above shows why.
