# Dropdown matcher, answer cache and session counters

This project models three parts of a job-application bot in Dafny and proves
properties of the model.

- **Dropdown option matcher** (`smart_select.dfy`). It maps a free-text
  suggestion onto one of the options a form offers. It tries an exact
  case-insensitive match first, then the suggestion inside an option, then an
  option inside the suggestion, then a keyword fallback. It also ranks options
  by a relevance score with a stable sort, picks a heuristic default, and
  checks that a chosen option is among those offered.
- **Answer cache** (`answer_cache.dfy`). It is a table keyed by a digest of
  the normalised question, holding the question, answer, type and write time.
  It offers lookup with a type check and 30-day expiry, upsert, an expiry sweep,
  word-overlap similarity search, clearing and statistics. The table is an
  insertion-ordered dictionary: a sequence of keys plus a map. It is a class
  whose methods update those two fields in place.
- **Session counters** (`performance_monitor.dfy`). A class of counters plus
  an append-only question log, updated by `LogQuestion` according to the source
  of the answer. Its invariant ties the question total, the four source
  counters and the saved-call counter to the log. The dropdown-match counter
  and the session time are not tied to anything.

`text.dfy` models the host language's string operations on ASCII:
`lower`, `strip`, `split`, `' '.join`, `in`, `replace` and `isdigit`.
`seqs.dfy` holds the first-match scan behind every early-`return` loop, and
distinctness.

A few modelling conventions:
- Rank scores are counted in half-points, so they are natural numbers: the
  keyword bonus is 20, a short option adds 4, and each shared job-description
  word adds 1.
- Times are integer microseconds, supplied by the caller.
- The digest (MD5 in the system) is a function given to the cache when it is
  built.

Three things the code does that are easy to miss:
- In `_semantic_match`, the technology-word stage loops over options on the
  outside and words on the inside (modules/smart_select_handler.py:90-93).
- The ranking keyword bonus requires the question itself to contain "yes" or
  "no" (modules/smart_select_handler.py:132-135). A question such as "Are you
  comfortable?" therefore gives no option the bonus.
- Normalisation deletes the space after "how many" and after "do you have"
  (modules/answer_cache.py:50-51), so "how many years" becomes
  "how manyyears". The third replacement, at line 52, changes nothing.

## Model

| member | source | states |
|---|---|---|
| SmartSelect.FirstPassing | modules/smart_select_handler.py:37-39 | the scan returns nothing exactly when no option passes the test, and otherwise returns the first passing option |
| SmartSelect.GetBestMatchingOption | modules/smart_select_handler.py:12-52 | no result for an empty suggestion or an empty option list; a result is always one of the options; the first exact match wins, then the first option containing the suggestion, then the first option contained in it, each only when the earlier strategies find nothing; otherwise the semantic fallback decides |
| SmartSelect.WhitespaceSuggestionPicksFirst | modules/smart_select_handler.py:34-44 | a white-space-only suggestion chooses the first option when no option is empty, and an empty option when there is one |
| SmartSelect.SemanticMatch | modules/smart_select_handler.py:55-95 | a result is one of the options; the first option with a keyword matching the answer's polarity wins; failing that, an answer about experience, years or digits takes the first option with a digit; failing that, the first option containing a word of the answer longer than three characters wins; otherwise no result |
| SmartSelect.MixedAnswerTakesEarlierOption | modules/smart_select_handler.py:69-79 | for an answer that is both affirmative and negative, an earlier option with only a negative keyword beats a later affirmative one, because options are scanned on the outside |
| SmartSelect.ValidateDropdownAnswer | modules/smart_select_handler.py:98-109 | true exactly when the selection equals one of the options, compared case-sensitively; the question plays no part |
| SmartSelect.ScoreWithoutJobDescription | modules/smart_select_handler.py:131-145 | without a job description a score is at most 24 half-points (12), and it reaches 20 half-points exactly when the keyword bonus applies |
| SmartSelect.KeywordBonus | modules/smart_select_handler.py:132-135 | definition of the keyword bonus; SmartSelect.ScoreWithoutJobDescription shows that it alone lifts a score to 20 half-points |
| SmartSelect.SharedWords | modules/smart_select_handler.py:142-145 | definition of the shared-word count; SmartSelect.SharedWordsBounded constrains it |
| SmartSelect.SharedWordsBounded | modules/smart_select_handler.py:142-145 | the shared-word count is at most the number of distinct words of the option, and zero without a job description |
| SmartSelect.Score | modules/smart_select_handler.py:127-145 | definition of the relevance score; SmartSelect.ScoreWithoutJobDescription and SmartSelect.SharedWordsBounded bound it |
| SmartSelect.Scored | modules/smart_select_handler.py:127-147 | exactly one (option, score) pair per option, in input order |
| SmartSelect.ScoreOptions | modules/smart_select_handler.py:125-147 | the scoring loop produces exactly the per-option pairs |
| SmartSelect.SortDesc | modules/smart_select_handler.py:150 | definition of the stable descending sort by successive insertion; SmartSelect.SortDescIsPermutation, SmartSelect.SortDescIsSorted and SmartSelect.SortDescIsStable constrain it |
| SmartSelect.SortDescIsPermutation | modules/smart_select_handler.py:150 | the sort keeps every pair, as a multiset |
| SmartSelect.SortDescIsSorted | modules/smart_select_handler.py:150 | the sorted list has non-increasing scores |
| SmartSelect.SortDescIsStable | modules/smart_select_handler.py:150 | for every score, the pairs with that score keep their original relative order |
| SmartSelect.InsertionStep | modules/smart_select_handler.py:150 | one in-place insertion step places the next pair after the last earlier pair whose score is at least its own, and leaves the rest of the array alone |
| SmartSelect.SortByScoreDescending | modules/smart_select_handler.py:150 | the in-place sort of the array yields the stable descending sort of its contents |
| SmartSelect.RankOptionsByRelevance | modules/smart_select_handler.py:112-151 | the result is a permutation of the per-option pairs, sorted by score with the highest first, with equal scores in input order |
| SmartSelect.SuggestOptionWithFallback | modules/smart_select_handler.py:154-199 | no result exactly for an empty option list; a result is one of the options; each rule, in order, gives its first matching option when every earlier rule found nothing (willingness: "yes", then "agree"/"ok"; preference: "prefer not"/"decline"; skill: not one of three placeholders; then not one of five placeholders); otherwise the first option |
| SmartSelect.PlaceholdersLackKeywordLetters | modules/smart_select_handler.py:190-195 | no placeholder text contains any of the letters y, g, k, f, d |
| SmartSelect.MentionsNothing | modules/smart_select_handler.py:175-185 | a text without those letters mentions neither "yes", "agree", "ok", "prefer not" nor "decline", so the willingness and preference rules skip it |
| SmartSelect.AllPlaceholdersPickFirst | modules/smart_select_handler.py:188-199 | when every option is a placeholder, the first option is chosen unless the question asks about skills; in that case the first option that the skill rule does not skip is chosen |
| Text.Lower | modules/smart_select_handler.py:34 | lower-casing keeps the length and lower-cases each character in place |
| Text.Strip | modules/smart_select_handler.py:34 | the result is a slice of `s` with only white space cut off on either side, and it neither starts nor ends with white space; white space alone strips to the empty string |
| Text.Split | modules/answer_cache.py:48 | every piece of a split is a non-empty word free of white space, and a string splits into no words exactly when it is all white space |
| Text.SplitWord | modules/answer_cache.py:48 | a word that follows white space and ends at white space or at the end is the next piece of the split; with the empty string splitting into nothing, this fixes the split piece by piece |
| Text.SplitJoinSpaced | modules/answer_cache.py:48 | `' '.join(ws).split() == ws` for any list of words, so joining is undone by splitting |
| Text.JoinSpaced | modules/answer_cache.py:48 | definition of `' '.join`; Text.SplitJoinSpaced states what it means |
| Text.SplitSkipsTrailingSpaces | modules/answer_cache.py:48 | white space at the end does not change the words |
| Text.ReplaceSameIsIdentity | modules/answer_cache.py:52 | replacing a phrase by itself changes nothing |
| Text.ContainsAt | modules/smart_select_handler.py:43 | `sub in s` holds exactly when `sub` starts at some position of `s` |
| Text.Contains | modules/smart_select_handler.py:43 | definition of `sub in s`; Text.ContainsAt and Text.ContainsChar constrain it |
| Text.ContainsChar | modules/smart_select_handler.py:175-185 | every character of a contained string is a character of the container |
| Text.Replace | modules/answer_cache.py:50-52 | definition of `str.replace`; Text.ReplaceSameIsIdentity and Cache.HowManyLosesItsSpace constrain it |
| Text.AllDigitsHasDigit | modules/smart_select_handler.py:82-85 | a non-empty all-digit string has a digit, and having a digit means some character is a digit |
| Text.AllDigits | modules/smart_select_handler.py:82 | definition of `isdigit()`; Text.AllDigitsHasDigit relates it to Text.HasDigit |
| Text.HasDigit | modules/smart_select_handler.py:85 | definition of "some character is a digit"; Text.AllDigitsHasDigit constrains it |
| Cache.IsExpired | modules/answer_cache.py:103-110 | definition of `_is_expired`; Cache.ExpiryBoundaries fixes its boundaries |
| Cache.Normalize | modules/answer_cache.py:45-53 | definition of `_normalize_question`; Cache.NormalizeSkipsLastReplacement, Cache.HowManyLosesItsSpace, Cache.NormalizeIgnoresCaseAndPadding and Cache.SameWordsSameNormalForm constrain it |
| Cache.AnswerCache.Key | modules/answer_cache.py:55-58 | definition of `_get_question_hash`, the digest of the normal form; Cache.SameWordsSameNormalForm gives equal keys for questions with the same words |
| Cache.Similar | modules/answer_cache.py:143-150 | definition of the word-overlap test; Cache.WordlessQueryMatchesNothing states its guard |
| Cache.ExpiryBoundaries | modules/answer_cache.py:103-110 | an entry exactly thirty days old is live and one a microsecond older is expired; an unreadable timestamp is expired; an expired entry stays expired |
| Cache.NormalizeSkipsLastReplacement | modules/answer_cache.py:50-52 | the normal form is the result of the first two replacements alone |
| Cache.HowManyLosesItsSpace | modules/answer_cache.py:50 | the replacement for "how many " deletes the space after it |
| Cache.NormalizeIgnoresCaseAndPadding | modules/answer_cache.py:45-53 | questions equal up to case, with white space added before or after, have the same normal form |
| Cache.SameWordsSameNormalForm | modules/answer_cache.py:45-58 | questions with the same lower-cased words have the same normal form, hence the same key |
| Cache.LiveKeys | modules/answer_cache.py:116-121 | the surviving keys are exactly the listed keys whose entries are live, and they stay distinct |
| Cache.LiveEntries | modules/answer_cache.py:116-121 | the surviving entries are exactly the live ones, unchanged |
| Cache.WithoutExpiredIsLive | modules/answer_cache.py:120-121 | deleting the expired keys from the order leaves the live keys |
| Cache.MinStamp | modules/answer_cache.py:182-185 | the minimum exists exactly for a non-empty table, is the time of some entry, and is no later than any entry's time |
| Cache.AnswerCache.constructor | modules/answer_cache.py:21-24 | the cache starts from the loaded table with the expired entries swept out |
| Cache.AnswerCache.Get | modules/answer_cache.py:60-81 | an answer is returned exactly when the question's key is present, the entry is not expired and its stored type is the requested one; the answer is the stored one |
| Cache.AnswerCache.Set | modules/answer_cache.py:83-101 | the key's entry becomes the original question, the answer, the type and the current time; a new key goes to the end of the order; every other key and entry is unchanged |
| Cache.AnswerCache.SanitizeOldEntries | modules/answer_cache.py:112-124 | afterwards no entry is expired, every live entry is kept unchanged, and the order of the survivors is kept |
| Cache.AnswerCache.ExpiredKeys | modules/answer_cache.py:114-118 | the collected keys are distinct and are exactly the keys of expired entries |
| Cache.AnswerCache.DeleteKeys | modules/answer_cache.py:120-121 | each deleted key is present when its turn comes, and exactly the listed keys leave the table and the order |
| Cache.WordlessQueryMatchesNothing | modules/answer_cache.py:144-147 | a query with no words after normalisation is similar to no cached question, whatever the threshold |
| Cache.AnswerCache.FindSimilarAnswer | modules/answer_cache.py:126-153 | returns the question and answer of the first entry, in insertion order, whose word overlap reaches the threshold, ignoring type and expiry; nothing when no entry qualifies or the query has no words |
| Cache.AnswerCache.Clear | modules/answer_cache.py:155-158 | the table becomes empty |
| Cache.CountSeenType | modules/answer_cache.py:173-174 | counting one more entry of a type already seen raises only that type's count, and the counts still add up to the number of entries |
| Cache.CountNewType | modules/answer_cache.py:173-174 | counting an entry of a new type appends that type with count one, and the counts still add up to the number of entries |
| Cache.TypesInOrder | modules/answer_cache.py:171-175 | definition of the key order of the counting dictionary: a type is appended when its first entry is counted; Cache.TypesInOrderLists and Cache.TypesInOrderPrefix constrain it |
| Cache.TypesInOrderLists | modules/answer_cache.py:171-175 | each type is listed once, and a type is listed exactly when some entry has it |
| Cache.TypesInOrderPrefix | modules/answer_cache.py:171-175 | the types of the first n entries come first, in the same order, so types appear in the order of their first entry |
| Cache.AnswerCache.CountByType | modules/answer_cache.py:169-175 | the types are Cache.TypesInOrder of the entries, each type listed once, and exactly the listed types have counts; each count is the number of entries of that type, every other type has none, missing types are counted as "unknown", and the counts add up to the number of entries |
| Cache.AnswerCache.OldestEntryDate | modules/answer_cache.py:177-186 | nothing exactly for an empty table, otherwise the earliest write time among the entries |
| Cache.AnswerCache.GetStats | modules/answer_cache.py:160-167 | the total is the number of entries; the type order is Cache.TypesInOrder, with each type once and exactly the counted types; each count is the number of entries of its type, an unlisted type has none, and the counts add up to the total; the oldest entry is missing exactly when the table is empty |
| Cache.SetThenGet | modules/answer_cache.py:83-101 | an answer stored at time T is returned by a lookup with the same type at any time up to thirty days after T |
| Cache.SetThenGetOtherType | modules/answer_cache.py:78 | a lookup with a different type returns nothing, even right after the answer was stored |
| Cache.ClearThenStats | modules/answer_cache.py:155-186 | after clearing, the statistics report no entries, no types and no oldest entry |
| Monitor.SourceCountsBounded | modules/performance_monitor.py:38-48 | the four source counts together never exceed the number of logged questions |
| Monitor.PerformanceMonitor.constructor | modules/performance_monitor.py:15-27 | every counter starts at zero and the log is empty |
| Monitor.PerformanceMonitor.LogQuestion | modules/performance_monitor.py:29-55 | the total rises by one and one record with the question, answer and source is appended; exactly the matching counter of a cache, ai, fallback or random answer rises by one; a cache answer also saves one call; the invariant is kept |
| Monitor.LogManualAnswer | modules/performance_monitor.py:40-48 | an answer from an unknown source such as "manual" raises the total but none of the four source counters |
| Monitor.PerformanceMonitor.LogSmartSelectionMatch | modules/performance_monitor.py:57-59 | the match counter rises by one and nothing else changes |
| Monitor.PerformanceMonitor.GetMetrics | modules/performance_monitor.py:100-103 | the report equals the counters; saved calls equal cache answers; the four source counters add up to at most the total; the log holds one record per question |

## Left out

- Cache file I/O (`_load_cache`, `_save_cache`, modules/answer_cache.py:26-43) is not modelled. The constructor receives the loaded table as a parameter, and no operation writes the file.
- The MD5 digest is a function parameter of the cache, not an implementation of MD5.
- The clock is a parameter, in integer microseconds. The source reads `datetime.now()` once per call of `set` and `_is_expired`; the model passes one `now` per operation.
- Timestamps are a point in time or "unreadable". ISO-8601 parsing is not modelled: a missing timestamp, an unparseable one, and one that cannot be compared with the local clock are all unreadable.
- Cache.AnswerCache.OldestEntryDate: it returns the earliest time, while the source takes the smallest ISO-8601 string. The two agree for timestamps written by `set` in one format, but not for arbitrary strings in a loaded file.
- Cache.AnswerCache.CountByType: a type stored explicitly as JSON `null` would be counted under `None` by the source. The model has only "typed" and "missing", and counts missing types as "unknown".
- Loaded records that lack a `question` or `answer` field are not modelled: every entry has both. A record without a `timestamp` is read as unreadable, so the sweep at load removes it (modules/answer_cache.py:117).
- The similarity threshold is a `real`, not a binary floating-point number.
- String operations are ASCII only. Unicode lower-casing, Unicode digits and Unicode white space (such as U+00A0) are not modelled.
- The source's sort is Timsort and the model's is an insertion sort. Both are stable sorts by the same key, so they give the same result, SortDesc.
- A missing job description and an empty one are both the empty string; the source treats `None` and `""` alike.
- `print_summary`, `export_metrics` and `get_session_duration` (modules/performance_monitor.py:61-129) are not modelled: they are console output, file writing and floating-point time. `GetMetrics` records the session duration in integer microseconds rather than float seconds.
- `get_metrics` returns the monitor's own `metrics` dictionary (modules/performance_monitor.py:103), so a caller that changes the result changes the monitor. `GetMetrics` returns a value copy, which does not capture that aliasing.
- The module-level singletons and convenience wrappers (`get_cache`, `get_monitor`, `log_question`, `log_smart_match`) are not modelled: they only create and hold one global object.
