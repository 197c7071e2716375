# Product search, text utilities and rate limiting — a Dafny model

This project models the in-memory core of a product-recommendation backend:

- **The search engine** (`SearchEngine`) ranks records (dicts from field names to values) against a free-text query. It offers:
  - keyword search: word-set overlap over the normalised search fields;
  - fuzzy search: the `difflib` similarity ratio of one field;
  - an inclusive numeric range filter;
  - a category filter;
  - `combined_search`, which chains range filter → category filter → keyword search;
  - query suggestions.
- **The text and collection helpers** the engine is built on:
  - `normalize_text`: lower-case, strip, French diacritics replaced;
  - `sanitize_string`;
  - `parse_csv_line`;
  - `chunk_list`;
  - `dict_to_query_string`;
  - `merge_dicts`, `filter_dict` and `safe_get`.
- **The sliding-window rate limiter**:
  - a table from client identifier to the times of its recent requests;
  - the fixed per-endpoint limits;
  - the adaptive limiter that halves the limits under load;
  - the extraction of the client address from a request.

The files:

- `builtins.dfy` (module `Builtins`): the Python built-ins the code leans on. These are a dynamically typed `Value`, `str()`, `float()`, `str.isspace`, `str.lower`, `str.strip`, `str.split()`, `sep.join`, substring `in`, `s[:n]` and `int()` truncation.
- `utils.dfy` (module `Utils`): `backend/app/core/utils.py`.
  - A dict is an association list in insertion order with distinct keys.
  - An argument of the wrong type is `None` of `Option`.
- `difflib.dfy` (module `Difflib`): `SequenceMatcher.ratio()` without junk heuristics. It takes the longest common block, recurses on both sides, and returns 2M/T.
- `search_engine.dfy` (module `SearchEngine`): `backend/app/services/search_engine.py`.
  - Scores are exact reals, and the minimum score 0.3 is exactly 3/10.
  - `list.sort` is a stable insertion sort by descending score.
- `rate_limiter.dfy` (module `RateLimiting`): `backend/app/core/rate_limiter.py`.
  - `RateLimiter` and `AdaptiveRateLimiter` are classes whose methods update their fields.
  - The clock is an explicit integer `now`, in microseconds (the resolution of `datetime`).

Where the source loops and mutates, the model keeps the loop as a `method`, proved against a specification function:

- `normalize_text`'s replacement loop;
- the CSV state machine;
- the append loops of the searches, of `chunk_list` and of `dict_to_query_string`;
- `merge_dicts`'s `dict.update`, written as one dict write per entry of `dict2`;
- the set-building loop of `suggest`;
- every rate-limiter method.

The properties of each specification function are proved as lemmas.

## Model

| member | source | states |
|---|---|---|
| Utils.NormalizeText | backend/app/core/utils.py:30-51 | a non-string gives ""; otherwise the replacement loop over the diacritic table, in any visiting order, yields the canonical form `Normalize` of the lower-cased, stripped text |
| Utils.Normalize | backend/app/core/utils.py:35-49 | the canonical form has the length of the lower-cased, stripped text, and each character is that text's character with its diacritic replaced: every substitution is one character for one |
| Utils.NormalizeShape | backend/app/core/utils.py:35-51 | the canonical form has no upper-case letter, no key of the diacritic table and no whitespace at either end |
| Utils.NormalizeFixed | backend/app/core/utils.py:35-51 | text already lower-case, stripped and free of the table's keys is left unchanged by normalisation |
| Utils.NormalizeIdempotent | backend/app/core/utils.py:35-51 | normalising twice is normalising once |
| Utils.NormalizeBlank | backend/app/core/utils.py:35 | a whitespace-only text normalises to "" |
| Utils.NormalizeValue | backend/app/core/utils.py:30-33 | a non-string normalises to "", and every result is already in normal form |
| Utils.ReplaceStep | backend/app/core/utils.py:48-49 | one `str.replace` of a table key keeps the loop invariant: the replaced keys are unaccented, the rest untouched |
| Utils.UnaccentFacts | backend/app/core/utils.py:38-49 | a replaced character is never a key of the table, is whitespace exactly when the original is, and is not upper-case when the original was not |
| Utils.DiacriticsReplacements | backend/app/core/utils.py:38-46 | every replacement is a lower-case ASCII letter that is not itself a key, and no key is whitespace or upper-case |
| Utils.Collapse | backend/app/core/utils.py:21 | replacing whitespace runs leaves only single plain spaces, never lengthens the text, and keeps whitespace at either end exactly where it was |
| Utils.CollapseKeepsText | backend/app/core/utils.py:21 | the non-whitespace characters are kept, in order |
| Utils.CollapseSplit | backend/app/core/utils.py:21 | the words of the collapsed text are the words of the input: every whitespace run between two words becomes a separator and no two words merge |
| Utils.Sanitize | backend/app/core/utils.py:12-27 | a non-string gives ""; otherwise the result is a prefix of the stripped, collapsed text with single spaces and no leading space; for a positive `max_length` it is exactly `min(len, max_length)` long, so it is the text cut to `max_length`; the whole text for `None` or 0, and shorter by `-max_length` for a negative one |
| Utils.Truncate | backend/app/core/utils.py:24-25 | the cut keeps a prefix: the whole text for `None` or 0, `min(len, max_length)` characters for a positive `max_length`, and `max(0, len + max_length)` for a negative one |
| Utils.FieldCount | backend/app/core/utils.py:74-88 | the scan yields one field per comma outside quotes, plus one |
| Utils.FieldsQuoteFree | backend/app/core/utils.py:79-80 | no field keeps a quote character |
| Utils.PendingStep | backend/app/core/utils.py:78-85 | each of the three branches of the character loop preserves the fields still to be produced |
| Utils.ParseCsvLine | backend/app/core/utils.py:69-88 | a non-string gives []; otherwise the loop returns the stripped fields of the quote-toggling scan, 1 + the number of unquoted commas of them, each stripped and free of quotes |
| Utils.ChunkList | backend/app/core/utils.py:104-113 | a non-list or a non-positive size gives []; otherwise the chunks concatenate to the input, each has 1 to `chunk_size` items, and all but the last have exactly `chunk_size` |
| Utils.Get | backend/app/core/utils.py:126 | a lookup finds a value exactly when the key is present, and then the found value is the one stored with the key |
| Utils.Put | backend/app/core/utils.py:137 | storing a key adds exactly that key to the key set |
| Utils.PutShape | backend/app/core/utils.py:137 | storing a key keeps every existing key at its position and grows the dict by one exactly when the key is new |
| Utils.GetPut | backend/app/core/utils.py:137 | after storing, the key reads the new value and every other key reads as before |
| Utils.SafeGet | backend/app/core/utils.py:121-126 | a non-dict or a missing key gives `default`; a present key gives its stored value |
| Utils.MergeStep | backend/app/core/utils.py:136-137 | each entry of `dict2` written by `update` keeps the merge invariant |
| Utils.MergeDicts | backend/app/core/utils.py:129-138 | the merge has exactly the union of the keys; `dict2`'s value wins on a shared key and `dict1`'s value is read elsewhere; `dict1`'s keys keep their order at the front; a non-dict counts as {} |
| Utils.SafeGetAfterMerge | backend/app/core/utils.py:121-138 | looking up a key in a merge reads `dict2` when the key is there, `dict1` otherwise |
| Utils.Restrict | backend/app/core/utils.py:149 | the comprehension keeps exactly the listed keys that are present, each with its original value |
| Utils.FilterDict | backend/app/core/utils.py:141-149 | {} unless both arguments have the right type; otherwise exactly the keys in `keys ∩ data`, each with its original value |
| Utils.DictToQueryString | backend/app/core/utils.py:91-101 | a non-dict gives ""; otherwise the "&"-join of `k=str(v)` for the non-None entries, in insertion order |
| Utils.SplitOnJoin | backend/app/core/utils.py:101 | joining pieces that hold no separator and splitting again gives back the pieces |
| Utils.QueryStringSplits | backend/app/core/utils.py:91-101 | a query string whose pairs contain no '&' splits back into exactly its pairs |
| Difflib.Longest | backend/app/services/search_engine.py:59 | the block found by the scan lies within both strings |
| Difflib.LongestIsBlock | backend/app/services/search_engine.py:59 | the block found is a common substring of both strings |
| Difflib.LongestIsLongest | backend/app/services/search_engine.py:59 | no common block is longer, and none of equal length starts earlier |
| Difflib.Matched | backend/app/services/search_engine.py:59 | the matched character count never exceeds either length |
| Difflib.Ratio | backend/app/services/search_engine.py:59 | the similarity ratio lies in [0, 1] |
| Difflib.MatchedSelf | backend/app/services/search_engine.py:59 | a string matches itself completely |
| Difflib.MatchedAll | backend/app/services/search_engine.py:59 | strings matched completely on both sides are equal |
| Difflib.RatioOne | backend/app/services/search_engine.py:59 | the ratio is 1 exactly when the two strings are equal |
| SearchEngine.FieldValue | backend/app/services/search_engine.py:30 | a missing field reads as "", a present one as its stored value |
| SearchEngine.FieldText | backend/app/services/search_engine.py:30 | a field's text is already in normal form: normalising it again changes nothing |
| SearchEngine.MissingFieldIsEmpty | backend/app/services/search_engine.py:30 | a missing search field contributes the empty text |
| SearchEngine.NoneFieldIsNoneWord | backend/app/services/search_engine.py:30 | a present field holding `None` contributes the word "none" |
| SearchEngine.WordScore | backend/app/services/search_engine.py:36-37 | the keyword score lies in [0, 1], is 0 without query words, and is 1 when every query word is a word of the record |
| SearchEngine.KeywordThreshold | backend/app/services/search_engine.py:16-39 | a record reaches the minimum score exactly when there are query words and 10·overlap ≥ 3·(number of query words) |
| SearchEngine.ItemWordsMember | backend/app/services/search_engine.py:29-33 | a word belongs to a record exactly when it is a word of the normalised text of one of the search fields |
| SearchEngine.FieldOrderIrrelevant | backend/app/services/search_engine.py:29-33 | two search-field lists with the same members give the same word set, whatever their order and repetitions |
| SearchEngine.Qualifying | backend/app/services/search_engine.py:27-40 | the selection is never longer than the input, and each selected entry carries its record's own score, which reaches 0.3 |
| SearchEngine.QualifyingMember | backend/app/services/search_engine.py:28-40 | a scored record is selected exactly when it comes from the input, carries its own score, and the score reaches 0.3 |
| SearchEngine.SortDesc | backend/app/services/search_engine.py:43 | the sort is a permutation of its input, ordered by non-increasing score |
| SearchEngine.SortDescStable | backend/app/services/search_engine.py:43 | records of equal score keep their input order |
| SearchEngine.RankedSort | backend/app/services/search_engine.py:39-43 | sorting the qualifying records gives a ranking: sorted, a permutation, ties in input order |
| SearchEngine.RankedMember | backend/app/services/search_engine.py:39-43 | a ranking contains exactly the qualifying records with their scores |
| SearchEngine.ScoreAll | backend/app/services/search_engine.py:27-40 | the append loop keeps, in input order, exactly the records whose score reaches the minimum, each with its score |
| SearchEngine.KeywordSearch | backend/app/services/search_engine.py:18-44 | the result is the stable descending sort of the qualifying records; every entry is an input record with its keyword score, which lies in [0.3, 1] |
| SearchEngine.EmptyQueryNoResults | backend/app/services/search_engine.py:24-40 | a query with no words after normalisation selects nothing |
| SearchEngine.NoneQualify | backend/app/services/search_engine.py:39-40 | when every record scores below 0.3, nothing is selected |
| SearchEngine.FuzzySearch | backend/app/services/search_engine.py:46-65 | the result is the stable descending sort of the records whose ratio reaches 0.3; every entry is an input record with its ratio, which lies in [0.3, 1] |
| SearchEngine.ExactFieldScoresOne | backend/app/services/search_engine.py:56-59 | a record whose normalised field equals the normalised query scores exactly 1 |
| SearchEngine.Filter | backend/app/services/search_engine.py:73-87 | a filter never lengthens its input |
| SearchEngine.FilterMember | backend/app/services/search_engine.py:94-98 | a record is kept exactly when it is in the input and passes the test |
| SearchEngine.FilterSubseq | backend/app/services/search_engine.py:94-98 | a filter's result is an order-preserving subsequence of its input |
| SearchEngine.FilterCount | backend/app/services/search_engine.py:94-98 | a kept record appears in the result as often as in the input, a dropped one never |
| SearchEngine.RangeSearch | backend/app/services/search_engine.py:67-87 | a record is kept exactly when its field is present and not None, converts with `float`, and meets every given bound inclusively; a None bound is no bound; the result is an order-preserving subsequence |
| SearchEngine.RangeMonotone | backend/app/services/search_engine.py:81-83 | widening or dropping a bound never removes a record that was kept |
| SearchEngine.CategorySearch | backend/app/services/search_engine.py:89-98 | the result is the input filtered by the category test, so each kept record appears as often as in the input; a record is kept exactly when its normalised field equals a normalised category; the result is an order-preserving subsequence; no categories give [] |
| SearchEngine.StagedMember | backend/app/services/search_engine.py:114-126 | after the stages, a record remains exactly when it is an input record that passed every stage that ran: the range stage iff `price_min` or `price_max` is present, the category stage iff `categories` is present and non-empty |
| SearchEngine.NullPriceBoundDropsUnpriced | backend/app/services/search_engine.py:116-122 | a `price_min` key holding None still runs the range stage, which drops every record without a numeric price |
| SearchEngine.CombinedSearch | backend/app/services/search_engine.py:100-133 | the result is the keyword search over the staged records, with the search fields defaulting to name and description and the scores dropped; a missing filter dict behaves as {}; every result is a staged record that reached the minimum score |
| SearchEngine.KeywordItemsQualify | backend/app/services/search_engine.py:130-133 | every record keyword search returns, with its score dropped, is an input record whose keyword score reaches 0.3 |
| SearchEngine.ContainingMember | backend/app/services/search_engine.py:143-151 | a text is collected exactly when it occurs among the texts and contains the normalised query |
| SearchEngine.PrefixContained | backend/app/services/search_engine.py:147-150 | a prefix match is also a substring match, so the two branches of the loop add the same texts |
| SearchEngine.SuggestionsMember | backend/app/services/search_engine.py:140-151 | a value is collected exactly when it is the normalised field of some record and contains the normalised query |
| SearchEngine.CollectContaining | backend/app/services/search_engine.py:141-151 | the set-building loop collects exactly the field texts that start with or contain the normalised query |
| SearchEngine.ListSet | backend/app/services/search_engine.py:153 | `list(set)` lists every element exactly once |
| SearchEngine.Suggest | backend/app/services/search_engine.py:135-153 | every suggestion is a collected value; suggestions are pairwise distinct; there are `min(limit, n)` of them for `limit ≥ 0` and `max(0, n + limit)` for a negative `limit` |
| RateLimiting.PruneMember | backend/app/core/rate_limiter.py:42-45 | a time survives pruning exactly when it was stored and is strictly after the cutoff |
| RateLimiting.Prune | backend/app/core/rate_limiter.py:42-45 | pruning never lengthens a list, and every time it keeps is strictly after the cutoff |
| RateLimiting.PruneTwice | backend/app/core/rate_limiter.py:42-87 | pruning at an earlier cutoff, then a later one, is pruning at the later one |
| RateLimiting.Min | backend/app/core/rate_limiter.py:72 | `min` returns a stored time that is not above any other |
| RateLimiting.RateLimiter.constructor | backend/app/core/rate_limiter.py:15-25 | stores the default limit and the window, and starts with an empty table |
| RateLimiting.RateLimiter.IsAllowed | backend/app/core/rate_limiter.py:33-53 | the limit defaults to `default_requests`; the entry is replaced by its times strictly inside the window; the request is allowed iff fewer than the limit remain, and then exactly `now` is appended; no other identifier changes; an allowed call leaves at most `limit` times and no call raises the count above the larger of the limit and the old count |
| RateLimiting.RateLimiter.GetRemaining | backend/app/core/rate_limiter.py:55-65 | prunes the entry like `is_allowed` and returns `max(0, default_requests − count)`, which lies in [0, `default_requests`] and is positive exactly when the default limit would admit a request |
| RateLimiting.RateLimiter.GetResetTime | backend/app/core/rate_limiter.py:67-76 | does not prune, and stores [] for an unknown identifier; returns 0 for an empty list, otherwise `max(0, trunc((min + window − now) seconds))`; never negative, and at most the window when no stored time is in the future |
| RateLimiting.ResetWithinWindow | backend/app/core/rate_limiter.py:73-76 | seconds until reset, truncated and clamped at 0, never exceed the window when the oldest request is not in the future |
| RateLimiting.RateLimiter.CleanupOldEntries | backend/app/core/rate_limiter.py:78-92 | exactly the identifiers with a time after `now − max_age_minutes` minutes remain, each holding just those times in order; no identifier maps to an empty list |
| RateLimiting.PruneOne | backend/app/core/rate_limiter.py:83-89 | one pass of the pruning loop keeps its invariant and records an emptied identifier for removal |
| RateLimiting.RemoveOne | backend/app/core/rate_limiter.py:91-92 | one deletion keeps the invariant of the deletion loop |
| RateLimiting.RemovingDone | backend/app/core/rate_limiter.py:78-92 | once every doomed key is deleted, the table is the cleaned table and holds no empty list and no time at or before the cutoff |
| RateLimiting.CleanupKeepsWindow | backend/app/core/rate_limiter.py:42-87 | a cleanup whose age covers the window changes nothing `is_allowed` or `get_remaining` then sees |
| RateLimiting.Identifier | backend/app/core/rate_limiter.py:27-31 | the identifier starts with `user_` exactly when a truthy user id is given, and ends with that user id, otherwise with the address |
| RateLimiting.IdentifierInjective | backend/app/core/rate_limiter.py:27-31 | two identifiers are equal exactly when both come from the same truthy user id, or both from the same address without a truthy user id |
| RateLimiting.EndpointLimit | backend/app/core/rate_limiter.py:104-112 | every endpoint's limit is one of 30, 60, 100 and 200 |
| RateLimiting.EndpointLimitDefault | backend/app/core/rate_limiter.py:106-112 | only the four listed endpoints get a limit other than the default 100 |
| RateLimiting.AdaptiveRateLimiter.constructor | backend/app/core/rate_limiter.py:118-122 | thresholds 80 and 85, load factor 1.0 |
| RateLimiting.AdaptiveRateLimiter.AdjustLimitsBasedOnLoad | backend/app/core/rate_limiter.py:124-130 | the load factor becomes 0.5 iff cpu > 80 or memory > 85, strictly, and 1.0 otherwise |
| RateLimiting.AdaptiveRateLimiter.IsAllowed | backend/app/core/rate_limiter.py:132-136 | the base limiter's check with `int(endpoint limit × load factor)`, with the same effect on the base table |
| RateLimiting.AdjustedLimitValues | backend/app/core/rate_limiter.py:135 | the adjusted limit is the endpoint's limit at factor 1.0 and its half rounded down at 0.5, so it lies between 15 and the endpoint's limit |
| RateLimiting.HalfTrunc | backend/app/core/rate_limiter.py:135 | `int(n × 0.5)` is `n div 2` for a non-negative `n` |
| RateLimiting.ClientIp | backend/app/core/rate_limiter.py:139-151 | with a non-empty `X-Forwarded-For` header the address holds no comma and no surrounding whitespace |
| RateLimiting.FirstPiece | backend/app/core/rate_limiter.py:145 | the first piece of a comma split is the text before the first comma |
| RateLimiting.ForwardedAddress | backend/app/core/rate_limiter.py:142-145 | with a non-empty `X-Forwarded-For` header, the address is the stripped text before its first comma: no comma, no surrounding whitespace |
| RateLimiting.DirectAddress | backend/app/core/rate_limiter.py:147-151 | without a usable header, the address is the direct client's host, or "unknown" when there is none |

## Left out

- Python's full Unicode `str.lower` is not modelled: `Lower` maps only ASCII and Latin-1 capitals. `IsSpace` is Python's `str.isspace` set, and `Split` is the argument-less `str.split()`.
- Python floats are exact reals here: scores, prices, bounds and the load factor. Rounding of `float` division and of `timedelta.total_seconds()` is not modelled.
- `float()` of a string accepts only plain decimal notation with an optional sign and surrounding whitespace. Exponents, `inf`, `nan` and underscores are not parsed.
- `str()` of an int or float is not computed; a `Num` value carries its text.
- `SequenceMatcher`'s autojunk heuristic (popular characters of a second string of 200 or more characters) is not modelled; the ratio is the junk-free one.
- The order Python gives to `list(set)` in `suggest` and to `diacritic_map.items()` is left open: `ListSet` may list the set in any order, and the replacement loop may visit the table in any order.
- In `combined_search`, `categories` and `search_fields` are lists when present. A `search_fields` key holding `None` (which makes the source raise) is not modelled.
- `get_client_ip`'s `hasattr` checks: a request is modelled as an optional header value and an optional client host.
- `datetime.utcnow()` is an explicit integer `now` parameter in microseconds; `RateLimiter.IsAllowed`, `GetRemaining`, `GetResetTime` and `CleanupOldEntries` take it as an argument.
- cpu and memory readings are plain numbers passed in.
- Default argument values are not modelled: callers pass `default_requests` and `window_seconds` to `RateLimiter` (defaults 100 and 60), `max_age_minutes` to `CleanupOldEntries` (default 60) and `limit` to `Suggest` (default 5). `user_id` and `max_requests` are `Option` parameters, and `None` is their default.
- Logging, the module-level `_rate_limiter` singleton, `get_rate_limiter` and `reset_rate_limiter` are not modelled.
- `generate_hash` (SHA-256), `format_currency` (float formatting), `get_timestamp` (wall clock), `log_performance` (logging), `is_valid_email` and `is_valid_url` (regular expressions) are not modelled.
- Dicts are values (association lists), so aliasing between a dict and its copy is not modelled; `merge_dicts` is shown not to change its inputs only in the sense that they are values.
- `SearchEngine.Suggest`: the normalised field texts are computed for all records before the loop rather than inside it; the set the loop builds is the same.
