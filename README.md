# Oracle listener-log analytics — a Dafny model of the extraction and merge core

The pipeline reads Oracle listener logs and works in two stages.

- **Extraction.** `ListenerLogParser` pulls the `(HOST=…)` and `(USER=…)` fragments out of every log line. It keeps one record per line that carries either fragment.
- **Merge.** `OracleMerger` first fetches and cleans the personnel table: every string value is trimmed, and empty or whitespace-only values become missing. It then normalises USER: a value ending in six digits is cut to those six digits, any other value is kept unchanged, and a missing value stays missing. Finally it left-joins the log rows onto the personnel rows on `USER == cd_person`. Both preparation steps are pure, so their order does not change the result.

This project models both stages as Dafny functions over strings and sequences of records. Values that pandas may hold as `None`, `NaN` or `pd.NA` are all `Option.None`.

The project has four modules:

- `Options` (options.dfy): the optional-value type.
- `Text` (text.dfy): Python's whitespace set and `str.strip()`, with the lemmas about them.
- `ListenerLogParser` (listener_log_parser.dfy):
  - the regex `\(KEY=([^)]+)\)` modelled as a leftmost-match search;
  - `parse_log_line` as `ParseLine`;
  - the `parse_file` loop as the method `ParseFile`, proved against the function `ParseLines`.
- `OracleMerger` (oracle_merger.dfy): `extract_user_id`, `process_listener_log`, the personnel cleanup, the left join and `merge_data`.

Regex model. `MatchesAt(line, key, i)` holds when all three of these are true:

- `key` occurs at position `i`;
- the next character is not `)`;
- a `)` occurs somewhere after it.

This is exactly when `\(KEY=([^)]+)\)` matches at `i`. `[^)]+` is greedy, but it cannot run past a `)`, so the group is the text up to the first `)` (`CaptureAt`). `re.search` returns the leftmost such match (`Search`). The search runs `TryMatchAt`, which makes the same test the way a regex engine does: the opener compared character by character, then a forward scan for the closing `)`. `TryMatchAtSpec` proves it equal to `MatchesAt`, the slice-level statement that the lemmas use.

HOST and USER are extracted independently only in this sense: each field is decided by its own search alone (`HostIndependentOfUser`, `UserIndependentOfHost`). Removing a USER fragment from a line can still change HOST. In `(HOST=h(USER=u)`, the HOST group runs to the first `)` and is `h(USER=u` (`ParseLineUserInsideHost`). Without the USER fragment, `(HOST=h` has no `)`, so it yields no HOST at all (`SearchNeedsClose`).

## Model

| member | source | states |
|---|---|---|
| Text.Strip | src/parsers/listener_log_parser.py:43 | `str.strip()`: drop leading, then trailing whitespace; the result is never longer than the input (what it removes is stated in `StripSpec`) |
| Text.TrimStartSpec | src/parsers/listener_log_parser.py:43 | `lstrip` leaves a suffix of the line; what it removed is all whitespace; the result is empty or starts with a non-space |
| Text.TrimEndSpec | src/parsers/listener_log_parser.py:43 | `rstrip` leaves a prefix; what it removed is all whitespace; the result is empty or ends with a non-space |
| Text.StripSpec | src/parsers/listener_log_parser.py:43-44 | a stripped line has no whitespace at either end, and it is empty exactly when the line was all whitespace (the `if not line` test) |
| Text.StripPadded | src/parsers/listener_log_parser.py:43 | adding whitespace at either end of a string does not change its stripped form |
| Text.StripSplits | src/parsers/listener_log_parser.py:43 | every line is whitespace, then its stripped form, then whitespace |
| Text.StripIdempotent | src/data_processors/oracle_merger.py:63-64 | stripping twice is stripping once |
| Text.TrimStartSpacePrefix | src/parsers/listener_log_parser.py:43 | leading whitespace is removed whatever follows it |
| Text.TrimEndSpaceSuffix | src/parsers/listener_log_parser.py:43 | trailing whitespace is removed whatever precedes it |
| Text.TrimStartAppend | src/parsers/listener_log_parser.py:43 | `lstrip` of a concatenation whose first part has a non-space character touches only that part |
| ListenerLogParser.KeysAreKeys | src/parsers/listener_log_parser.py:9-10 | both literal prefixes `(HOST=` and `(USER=` open with `(` and contain no `)` or whitespace |
| ListenerLogParser.MatchesAt | src/parsers/listener_log_parser.py:9-10 | the pattern matches at `i`: the opener is there, the next character is not `)`, and a `)` follows somewhere |
| ListenerLogParser.CaptureAt | src/parsers/listener_log_parser.py:9-10 | group 1 of a match at `i`: the text after the opener up to the first `)` |
| ListenerLogParser.Search | src/parsers/listener_log_parser.py:16-17 | `pattern.search(line)`: group 1 of the leftmost match, or nothing (its meaning is stated in `SearchSpec` and `SearchLeftmost`) |
| ListenerLogParser.SearchNeedsClose | src/parsers/listener_log_parser.py:9-10 | a line without `)` gives no match, so an unclosed fragment yields nothing |
| ListenerLogParser.KeyAtSpec | src/parsers/listener_log_parser.py:9-10 | the character-by-character prefix test agrees with slice equality |
| ListenerLogParser.TryMatchAtSpec | src/parsers/listener_log_parser.py:9-10 | the executable match test holds exactly when the regex matches at that position |
| ListenerLogParser.CloseParenSpec | src/parsers/listener_log_parser.py:9-10 | the scan stops at the first `)` at or after its start, or at the end when there is none |
| ListenerLogParser.CaptureAtSpec | src/parsers/listener_log_parser.py:9-10 | a matched group is non-empty, contains no `)`, is the text right after the key, and is followed by `)` |
| ListenerLogParser.SearchFromSpec | src/parsers/listener_log_parser.py:16 | the search returns the first matching position at or after its start, and finds nothing only when no such position exists |
| ListenerLogParser.SearchSpec | src/parsers/listener_log_parser.py:16-17 | `search` finds nothing exactly when the pattern matches nowhere; a found value is non-empty and contains no `)` |
| ListenerLogParser.CaptureUnique | src/parsers/listener_log_parser.py:9-10 | the group at a match is the only `)`-free text there that is closed by `)` |
| ListenerLogParser.SearchLeftmost | src/parsers/listener_log_parser.py:16-17 | the value found is the group of the leftmost match |
| ListenerLogParser.SearchFragment | src/parsers/listener_log_parser.py:16-17 | a fragment `KEY=v)` with no earlier match yields exactly `v`, verbatim |
| ListenerLogParser.SearchFragmentAfterPlainText | src/parsers/listener_log_parser.py:16-17 | a fragment preceded by text without `(` yields its value verbatim |
| ListenerLogParser.MatchOfPrefix | src/parsers/listener_log_parser.py:9-10 | a match in `a + b` whose closing `)` lies inside `a` is already a match in `a` |
| ListenerLogParser.SearchAppend | src/parsers/listener_log_parser.py:16-17 | appending text to a line that already matches does not change what is found |
| ListenerLogParser.NoMatchInSpace | src/parsers/listener_log_parser.py:9-10 | no match starts inside leading whitespace |
| ListenerLogParser.MatchShift | src/parsers/listener_log_parser.py:9-10 | a match after a prefix is a match in the rest of the line, and the other way round |
| ListenerLogParser.SearchSpacePrefix | src/parsers/listener_log_parser.py:16-17 | leading whitespace does not change what the search finds |
| ListenerLogParser.SearchSpacePrefixNone | src/parsers/listener_log_parser.py:16-17 | leading whitespace adds no match to a line that has none |
| ListenerLogParser.SearchSpacePrefixSome | src/parsers/listener_log_parser.py:16-17 | leading whitespace keeps the leftmost match and its group |
| ListenerLogParser.MatchBeforeSpace | src/parsers/listener_log_parser.py:9-10 | a match in a line with trailing whitespace is a match in the line without it |
| ListenerLogParser.SearchSpaceSuffix | src/parsers/listener_log_parser.py:16-17 | trailing whitespace does not change what the search finds |
| ListenerLogParser.ParseLine | src/parsers/listener_log_parser.py:12-33 | `parse_log_line`: both searches, then a record when HOST or USER is truthy and nothing otherwise; a record always has at least one field present |
| ListenerLogParser.ParseLineSpec | src/parsers/listener_log_parser.py:16-28 | `parse_log_line` returns nothing exactly when neither pattern matches; a record's HOST and USER are the two search results, and at least one is present |
| ListenerLogParser.ParseLineValues | src/parsers/listener_log_parser.py:9-10 | a present HOST or USER is non-empty and contains no `)` |
| ListenerLogParser.HostIndependentOfUser | src/parsers/listener_log_parser.py:16-17 | two lines with the same HOST search result get the same HOST, whatever their USER fragments |
| ListenerLogParser.UserIndependentOfHost | src/parsers/listener_log_parser.py:20-21 | two lines with the same USER search result get the same USER, whatever their HOST fragments |
| ListenerLogParser.ParseLinePadded | src/parsers/listener_log_parser.py:43-47 | whitespace around a line does not change its record |
| ListenerLogParser.ParseLineStrip | src/parsers/listener_log_parser.py:43-47 | parsing the stripped line gives the same result as parsing the raw line |
| ListenerLogParser.NoUserMatchInHostPart | src/parsers/listener_log_parser.py:20 | no USER match starts in the `(`-free text before or inside a HOST fragment |
| ListenerLogParser.ParseLineHostThenUser | src/parsers/listener_log_parser.py:16-28 | a line of the form `…(HOST=h)(USER=u)…` gives exactly HOST `h` and USER `u` |
| ListenerLogParser.UserAfterHost | src/parsers/listener_log_parser.py:20-21 | the USER fragment after a closed HOST fragment is found verbatim |
| ListenerLogParser.ParseLineExample | src/parsers/listener_log_parser.py:9-28 | `... (HOST=srv01)(USER=jdoe000123) ...` gives HOST `srv01` and USER `jdoe000123` |
| ListenerLogParser.ParseLineUserInsideHost | src/parsers/listener_log_parser.py:9-21 | in `(HOST=h(USER=u)`, the HOST group runs to the first `)`: HOST is `h(USER=u` while USER is `u` |
| ListenerLogParser.UserInsideHost | src/parsers/listener_log_parser.py:20-21 | a USER fragment inside an unterminated HOST fragment is still found |
| ListenerLogParser.ParseLineNoParen | src/parsers/listener_log_parser.py:23-28 | a line without `(` yields nothing |
| ListenerLogParser.ParseLineEmpty | src/parsers/listener_log_parser.py:23-28 | the empty line yields nothing |
| ListenerLogParser.ParseLines | src/parsers/listener_log_parser.py:37-49 | what `parse_file` collects: each line in order is stripped and skipped when blank, and its record, if any, is appended; never more records than lines |
| ListenerLogParser.ParseFile | src/parsers/listener_log_parser.py:37-55 | the loop strips each line, skips blank ones and appends each record; its result is `ParseLines(lines)` |
| ListenerLogParser.ProcessAndSave | src/parsers/listener_log_parser.py:57-63 | returns the records of `parse_file`; the file is written exactly when there is at least one record |
| ListenerLogParser.MatchingLines | src/parsers/listener_log_parser.py:42-49 | strictly increasing indices of exactly the lines that yield a record |
| ListenerLogParser.ParseLinesInOrder | src/parsers/listener_log_parser.py:42-49 | the output has one record per line that yields one, and the k-th record belongs to the k-th such line in input order |
| ListenerLogParser.ParseLinesLast | src/parsers/listener_log_parser.py:42-49 | the last line contributes its record, if any, at the end |
| ListenerLogParser.ParseLinesAppend | src/parsers/listener_log_parser.py:42-49 | the records of two consecutive chunks of lines are those of the first chunk followed by those of the second |
| ListenerLogParser.ParseLinesMiddle | src/parsers/listener_log_parser.py:42-49 | a line contributes its own record, if any, in its own place |
| ListenerLogParser.ParseLinesSnoc | src/parsers/listener_log_parser.py:42-49 | a line appended at the end contributes its record, if any, at the end |
| ListenerLogParser.ParseLinesSkipsBlank | src/parsers/listener_log_parser.py:43-45 | a line that is blank after stripping contributes nothing |
| ListenerLogParser.ParseLinesPadded | src/parsers/listener_log_parser.py:43-47 | whitespace around any line does not change the output |
| OracleMerger.EndsInSixDigits | src/data_processors/oracle_merger.py:81-82 | `\d{6}$` finds a match: the string has at least six characters and the last six are digits |
| OracleMerger.ExtractUserId | src/data_processors/oracle_merger.py:76-84 | a missing value stays missing, and a present value stays present |
| OracleMerger.ExtractUserIdSpec | src/data_processors/oracle_merger.py:81-84 | the result is a suffix of the input; it is six digits exactly when the input ends in six digits; otherwise the input comes back unchanged, not missing |
| OracleMerger.ExtractUserIdIdempotent | src/data_processors/oracle_merger.py:81-84 | normalising twice is normalising once; a result that differs from its input is six digits |
| OracleMerger.ExtractUserIdExamples | src/data_processors/oracle_merger.py:78-84 | `abc123456`→`123456`, `jdoe000123`→`000123`, `1234567`→`234567`, `123`→`123`, `abc12x456` unchanged, missing stays missing |
| OracleMerger.ProcessListenerLog | src/data_processors/oracle_merger.py:86-90 | same number of rows in the same order; HOST unchanged; each USER replaced by its normalised id |
| OracleMerger.StripCell | src/data_processors/oracle_merger.py:63-64 | `.str.strip()` on one cell: a present value is stripped, and a missing value stays missing |
| OracleMerger.BlankToMissing | src/data_processors/oracle_merger.py:67 | `replace(r'^\s*$', pd.NA)` on one cell: an empty or whitespace-only value becomes missing, and every other value is unchanged |
| OracleMerger.CleanCell | src/data_processors/oracle_merger.py:62-67 | a present cleaned value is the stripped value, non-empty and trimmed; the value becomes missing exactly when it was missing or whitespace-only |
| OracleMerger.CleanCellIdempotent | src/data_processors/oracle_merger.py:62-67 | cleaning twice is cleaning once |
| OracleMerger.CleanCellExamples | src/data_processors/oracle_merger.py:62-67 | `"   "` and `""` become missing; `" Doe "` becomes `"Doe"` |
| OracleMerger.CleanCellTrimmed | src/data_processors/oracle_merger.py:62-67 | a value that is already trimmed is left alone |
| OracleMerger.CleanCellPadded | src/data_processors/oracle_merger.py:62-67 | only the padding around a value is removed |
| OracleMerger.CleanPerson | src/data_processors/oracle_merger.py:62-67 | both passes applied to each of the six columns; the row comes out clean |
| OracleMerger.CleanPersonnel | src/data_processors/oracle_merger.py:62-67 | same rows in the same order, each cell cleaned, and every present value of every row trimmed and non-empty |
| OracleMerger.MatchesOf | src/data_processors/oracle_merger.py:102-107 | the rows paired with a key are personnel rows carrying exactly that key, missing pairing with missing |
| OracleMerger.Keys | src/data_processors/oracle_merger.py:105 | one join key per personnel row |
| OracleMerger.MatchesOfCount | src/data_processors/oracle_merger.py:102-107 | a key is paired with as many rows as there are personnel rows carrying it |
| OracleMerger.MatchesOfAppend | src/data_processors/oracle_merger.py:102-107 | the matches in two chunks of the personnel table are those of the first chunk followed by those of the second |
| OracleMerger.MatchesOfOrder | src/data_processors/oracle_merger.py:102-107 | matching personnel rows come out in personnel order |
| OracleMerger.JoinRow | src/data_processors/oracle_merger.py:102-107 | the rows `merge` makes of one log row: the log row paired with each matching personnel row in personnel order, or one row with every personnel column missing; never fewer than one |
| OracleMerger.LeftJoin | src/data_processors/oracle_merger.py:102-107 | the `merge(..., how='left')` call: each log row's rows, in log order; at least as many rows as the log |
| OracleMerger.JoinRowSpec | src/data_processors/oracle_merger.py:102-107 | a log row yields max(1, k) rows carrying its HOST and USER; with k = 0 there is one row with every personnel column missing, otherwise the k matching rows in personnel order |
| OracleMerger.LeftJoinAppend | src/data_processors/oracle_merger.py:102-107 | left order is preserved: the rows of two chunks of the log come out in sequence |
| OracleMerger.LeftJoinLength | src/data_processors/oracle_merger.py:102-107 | the output length is the sum of max(1, k) over the log rows, hence at least the log length |
| OracleMerger.UniqueKeyCount | src/data_processors/oracle_merger.py:102-107 | with unique cd_person values a key is carried by at most one row |
| OracleMerger.MatchesOfNone | src/data_processors/oracle_merger.py:102-107 | a key no personnel row carries matches nothing |
| OracleMerger.LeftJoinUniqueKeys | src/data_processors/oracle_merger.py:102-107 | with unique cd_person values there is exactly one output row per log row |
| OracleMerger.LeftJoinUnmatched | src/data_processors/oracle_merger.py:102-107 | an unmatched log row appears once, in its place, with every personnel column missing |
| OracleMerger.LeftJoinDuplicateKey | src/data_processors/oracle_merger.py:102-107 | a key carried by two personnel rows fans the log row out into two rows, in personnel order; this holds for a missing USER and two rows without cd_person too |
| OracleMerger.MissingUserMatchesMissingId | src/data_processors/oracle_merger.py:102-107 | a log row without USER pairs with every personnel row without cd_person |
| OracleMerger.LeftJoinSound | src/data_processors/oracle_merger.py:102-107 | every output row is some log row's HOST and USER, paired either with a personnel row carrying that USER or with nothing |
| OracleMerger.MergeData | src/data_processors/oracle_merger.py:92-109 | the merged table has at least as many rows as the log |
| OracleMerger.MergeDataUniqueKeys | src/data_processors/oracle_merger.py:92-109 | with unique cleaned ids the merged table has one row per log row |
| OracleMerger.MergeDataPairsIds | src/data_processors/oracle_merger.py:76-109 | a USER ending in a six-digit id is paired with the personnel row whose padded cd_person holds that id, and the merged row carries the bare id |
| OracleMerger.LineToMergedRow | src/data_processors/oracle_merger.py:92-109 | a log line `…(HOST=h)(USER=xxx123456)…`, extracted and merged, gives one row with HOST `h`, USER `123456` and the cleaned personnel row |
| OracleMerger.ProcessAndSave | src/data_processors/oracle_merger.py:115-128 | returns the merged table, which is always written, even when it has no rows |

## Left out

- src/main.py is not part of this model. It walks directories, builds file names and sets up logging.
- Configuration loading, database engine creation and the SQL query (oracle_merger.py:24-59) are left out because they are foreign library calls and network I/O. The personnel table is a parameter of `MergeData`.
- File reading and CSV writing, with their cp932 and UTF-8 encodings, are not modelled. `ParseFile` takes the file's lines as a sequence, already split; `ProcessAndSave` only reports whether a file would be written.
- The CSV round trip between the two stages is not modelled. `pd.read_csv` may infer an integer dtype for an all-digit USER column and drop leading zeros; USER is kept as an optional string throughout.
- Logging and the exception handlers are left out. Their errors come from I/O and pandas, and the handler in `parse_log_line` cannot fire on a string.
- OracleMerger.IsDigit: `\d` is modelled as ASCII `0`-`9`, while Python's `\d` also matches other Unicode decimal digits.
- OracleMerger.EndsInSixDigits: `$` is modelled as the end of the string, while Python's `$` also matches just before a final `\n`.
- Text.IsSpace is the fixed set of characters for which Python's `str.isspace()` holds; no other Unicode handling is modelled.
- OracleMerger.CleanPersonnel cleans every column. The source strips only columns of object dtype, which are all string columns of this query when cd_person and the name fields are text, as assumed here.
- OracleMerger.MergedRow keeps the personnel row as one nested value rather than six flat columns; pandas' column order and names are not modelled.
- Python object identity and the `copy()` in `process_listener_log` are not modelled, since Dafny values are immutable: the input rows are unchanged by construction.
