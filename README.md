# ESPN NBA roster scrape: the record-assembly and normalisation core

This project models, in Dafny, the part of `espn_nba_stats_scrape.py` that runs
after the pages have been fetched and the markup matched. It covers:

- the team directory (`rosters_library`): anchor captures zipped into a
  dictionary of team name to roster url;
- the roster page readers `get_player_info` and `get_player_ids`: header names
  filtered out of the stringified `<th>` tags, then a scan of row indices 0 to 29
  that files each row's dictionary under the player's name;
- the name-keyed left joins of the biographical, id/url and career-stats frames;
- `compile_all_stats`, which reads each row's `url` back through `.loc` and
  files the fetched stats under the row's name;
- the field normaliser: the Salary, Age, HT and WT list comprehensions and
  `convert_height`, with the Python `int()`, `str.split()`, `str.replace`,
  `re.sub` and `dict(zip(...))` behaviour they rely on.

Modules:

| file | module | models |
|---|---|---|
| `wrappers.dfy` | `Wrappers` | `Result`/`Option` and the Python exceptions the core raises |
| `pytext.dfy` | `PyText` | `str.isspace`, `str.split()`, `str.split(" ")[0]`, `str.replace(c, "")`, `re.sub(r'--', …)`, `re.sub(r'[^\d]+', '', …)` |
| `pynumbers.dfy` | `PyNumbers` | `int()` on text, `str()` of an integer |
| `dicts.dfy` | `Dicts` | `dict(zip(keys, values))` |
| `tables.dfy` | `Tables` | a DataFrame as labelled rows; column read/assign; `DataFrame.join` |
| `normalize.dfy` | `Normalize` | lines 264-290 |
| `roster.dfy` | `Roster` | `get_player_info`, `get_player_ids` |
| `teams.dfy` | `Teams` | lines 43-52 |
| `stats.dfy` | `CareerStats` | `compile_all_stats` |

Representation choices:

- **Dicts and rows.** A Python dict is a Dafny `map`. A DataFrame is a sequence
  of `Entry(name, row)`, where `name` is the index label and `row` maps column
  names to cells.
- **Cells.** A cell is `Text(s)`, `Number(n)` or `Missing`. `Missing` is the NaN
  a left join leaves behind.
- **Errors.** An exception the code does not catch becomes `Err(…)`. It ends the
  statement (or the whole loop) just as it does in the script.
- **Loops.** The source changes its lists and dictionaries step by step in
  `for` loops. Those loops are modelled as methods: `FilterHeaders`,
  `GetPlayerInfo`, `GetPlayerIds`, `CollectRosterLinks` and `CompileAllStats`.
  Each method is proved equal to its specification function, and the
  properties are lemmas about that function. List comprehensions and
  `convert_height` are modelled as functions.

In four places the code does something other than the intended behaviour of
the scraper. The model follows the code:

- **A row without a name.** Such a player is meant to be left out. In
  `get_player_info` only `IndexError` is caught (line 100), so a row whose
  dictionary has no `"Name"` key raises a `KeyError` at line 99. That error ends
  the whole scan (`Roster.RosterFails`).
- **Join completeness.** Every biographical name is meant to appear exactly
  once after the joins. `DataFrame.join` repeats a left row once per matching
  right row, so this holds only when the right frame's labels are unique
  (`Tables.JoinRowsUniqueRight`). In general every left row yields its own
  block of rows, one per match or itself alone when there is none
  (`Tables.JoinOffsetAt`, `Tables.JoinMatchedRows`, `Tables.JoinUnmatchedRow`),
  and keeps its cells in each (`Tables.LeftJoinKeepsCells`). Every right row
  with its label is a match, in right order (`Tables.MatchesFromRight`,
  `Tables.MatchesCoverRight`).
- **Stats failures.** A failed stats fetch is meant to give empty stats.
  `get_player_stats` itself can raise (line 204), so the fetcher is a parameter
  returning a `Result`, and its error aborts the loop (`CareerStats.CompileFails`).
- **Heights.** A height is meant to be a float such as `82.0`. Here it is the
  integer `82`, because `float()` is modelled only on integer literals (see
  "Left out").

## Model

| member | source | states |
|---|---|---|
| `Normalize.NormalizeTable` | espn_nba_stats_scrape.py:264-290 | the four rewrites of lines 264-290 in turn; what it computes is stated by NormalizeTableFails, NormalizeTableRows and NormalizedFieldsAreNumbers |
| `Normalize.NormalizeSalary` | espn_nba_stats_scrape.py:265-268 | a salary that is read is never negative |
| `Normalize.SalaryFails` | espn_nba_stats_scrape.py:265-268 | the salary rule fails (`int('')`) exactly when the text has neither an ASCII digit nor a "--" |
| `Normalize.SalaryIsItsDigits` | espn_nba_stats_scrape.py:268 | without "--" the salary is the decimal value of the text's digits, read in order |
| `Normalize.SalarySentinel` | espn_nba_stats_scrape.py:265-268 | "--" becomes 0 |
| `Normalize.SentinelDigits` | espn_nba_stats_scrape.py:265-268 | "--" is rewritten to "$0", whose only digit is "0" |
| `Normalize.SalaryExample` | espn_nba_stats_scrape.py:265-268 | "$1,669,178" becomes 1669178 |
| `Normalize.SalaryExampleDigits` | espn_nba_stats_scrape.py:268 | stripping the non-digits of "$1,669,178" leaves "1669178" |
| `Normalize.SalaryExampleText` | espn_nba_stats_scrape.py:265-268 | "$1,669,178" has no "--" and has a digit |
| `Normalize.SalaryExamplePieces` | espn_nba_stats_scrape.py:268 | the digits of the pieces "$1,", "669," and "178" are "1", "669" and "178" |
| `Normalize.SalaryExampleSpelled` | espn_nba_stats_scrape.py:268 | 1669178 is spelled "1669178" |
| `Normalize.NormalizeAge` | espn_nba_stats_scrape.py:271-274 | `int(re.sub("--", "0", x))`; its meaning is carried by AgeOfInteger, AgeOfDigits and AgeSentinel |
| `Normalize.AgeOfInteger` | espn_nba_stats_scrape.py:271-274 | every written-out integer is read back as itself (the "--" rewrite leaves it alone) |
| `Normalize.AgeSentinel` | espn_nba_stats_scrape.py:271-274 | "--" becomes 0 |
| `Normalize.AgeOfDigits` | espn_nba_stats_scrape.py:271-274 | every non-empty digit string, leading zeros included ("07"), becomes its decimal value |
| `Normalize.ConvertHeight` | espn_nba_stats_scrape.py:278-282 | `convert_height`: fewer than two `split()` pieces is an IndexError, otherwise 12·feet + inches of the first two pieces with their marks removed; stated by HeightOf, HeightOfDigits, HeightFromTokens and HeightNeedsTwoTokens |
| `Normalize.HeightOf` | espn_nba_stats_scrape.py:278-282 | for all feet and inches, `F' I"` followed by any further tokens converts to 12·feet + inches |
| `Normalize.HeightOfDigits` | espn_nba_stats_scrape.py:278-282 | when the first two tokens are `F'` and `I"` over digit strings, the result is 12·F + I and later tokens are ignored |
| `Normalize.HeightTokens` | espn_nba_stats_scrape.py:279 | `F' I"` written with single spaces splits back into exactly those tokens |
| `Normalize.HeightFromTokens` | espn_nba_stats_scrape.py:280-282 | two readable leading tokens give 12·feet + inches |
| `Normalize.HeightNeedsTwoTokens` | espn_nba_stats_scrape.py:279-281 | fewer than two tokens always fails, with IndexError unless the lone token is itself unreadable (it is parsed before `[1]` is read) |
| `Normalize.HeightExampleTall` | espn_nba_stats_scrape.py:278-286 | `6' 10"` converts to 82 |
| `Normalize.HeightExampleShort` | espn_nba_stats_scrape.py:278-286 | `6' 2"` converts to 74 |
| `Normalize.HeightTallText` | espn_nba_stats_scrape.py:279 | the tokens `6'` and `10"` joined by a space spell `6' 10"` |
| `Normalize.HeightShortText` | espn_nba_stats_scrape.py:279 | the tokens `6'` and `2"` joined by a space spell `6' 2"` |
| `Normalize.DigitsThenMark` | espn_nba_stats_scrape.py:279 | digits followed by a non-space mark form one whitespace-free token |
| `Normalize.TokensBefore` | espn_nba_stats_scrape.py:279 | two tokens followed by further tokens form a list of tokens |
| `Normalize.RemoveTrailingMark` | espn_nba_stats_scrape.py:280-281 | removing the trailing `'` or `"` from a digit string leaves the digits |
| `Normalize.RemoveCharAppend` | espn_nba_stats_scrape.py:280-281 | `replace(c, "")` distributes over concatenation |
| `Normalize.ConvertWeight` | espn_nba_stats_scrape.py:290 | `int(x.split(" ")[0])`; stated by WeightOf and WeightOfDigits |
| `Normalize.WeightOf` | espn_nba_stats_scrape.py:290 | for every n, `"n unit"` converts to n |
| `Normalize.WeightOfDigits` | espn_nba_stats_scrape.py:290 | the weight is the number spelled before the first single space, whatever follows |
| `Normalize.FirstPieceStops` | espn_nba_stats_scrape.py:290 | `split(" ")[0]` of `d + " " + rest` is `d` when `d` has no space |
| `Normalize.WeightExample` | espn_nba_stats_scrape.py:290 | "220 lbs" converts to 220 |
| `Normalize.WeightExampleText` | espn_nba_stats_scrape.py:290 | 220 followed by " lbs" spells "220 lbs" |
| `Normalize.ConvertCells` | espn_nba_stats_scrape.py:265-290 | a comprehension keeps the length, rewrites text cells, passes every other cell through unchanged, and fails exactly when some text cell is rejected (with the error of the first one) |
| `Normalize.ConvertCellNotText` | espn_nba_stats_scrape.py:265-290 | a converted cell is no longer text; a text cell becomes the number its rule returns |
| `Normalize.NormalizeColumnFails` | espn_nba_stats_scrape.py:265-290 | one rewrite fails exactly when the column is absent (then with a KeyError naming it) or one of its text cells is rejected |
| `Normalize.NormalizeColumnSpec` | espn_nba_stats_scrape.py:265-290 | a successful rewrite keeps the length, the labels and the columns, converts column `c` cell by cell and keeps every other column's cells |
| `Normalize.StepsSucceedAfter` | espn_nba_stats_scrape.py:264-290 | a rewrite of one column does not change whether later rewrites of other columns succeed |
| `Normalize.ApplyStepsSucceeds` | espn_nba_stats_scrape.py:264-290 | rewrites of distinct columns in turn succeed exactly when each would succeed on the original frame |
| `Normalize.TouchesCons` | espn_nba_stats_scrape.py:264-290 | a list of rewrites touches a column exactly when its first rewrite or one of the rest does |
| `Normalize.RewrittenCons` | espn_nba_stats_scrape.py:264-290 | a successful rewrite of one column followed by rewrites of other columns rewrites the frame as all of them together |
| `Normalize.ApplyStepsSpec` | espn_nba_stats_scrape.py:264-290 | when each rewrite would succeed on the original frame, the rewrites in turn succeed; every row keeps its label, each rewritten column holds its converted original cells and untouched columns are unchanged |
| `Normalize.StepsAreTheFields` | espn_nba_stats_scrape.py:264-290 | the four rewrites are Salary, Age, HT and WT, in that order, on distinct columns |
| `Normalize.NormalizeTableFails` | espn_nba_stats_scrape.py:264-290 | the normaliser succeeds exactly when the frame has the four columns and every row's four cells are accepted |
| `Normalize.AcceptedIfStepsSucceed` | espn_nba_stats_scrape.py:264-290 | the success condition of the four steps implies the four columns exist and every row is accepted |
| `Normalize.StepsSucceedIfAccepted` | espn_nba_stats_scrape.py:264-290 | the converse of the previous row |
| `Normalize.NormalizeTableRows` | espn_nba_stats_scrape.py:264-290 | on success every row keeps its label, holds its converted Salary/Age/HT/WT cells and keeps every other cell |
| `Normalize.NormalizedRowIsNumbers` | espn_nba_stats_scrape.py:264-290 | a normalised row has no text in the four columns, and a written salary became a number ≥ 0 |
| `Normalize.NormalizedFieldsAreNumbers` | espn_nba_stats_scrape.py:264-290 | after the normaliser no text is left in the four columns and every written salary is a number ≥ 0 |
| `PyText.SplitWhitespace` | espn_nba_stats_scrape.py:279 | `split()` returns non-empty pieces free of whitespace; SplitSkipsSpace, SplitTokenThenSpace and SplitToken fix the pieces for every input |
| `PyText.SplitFrom` | espn_nba_stats_scrape.py:279 | the same, for splitting after the start of an unfinished token |
| `PyText.SplitFromToken` | espn_nba_stats_scrape.py:279 | characters without whitespace extend the unfinished token |
| `PyText.SplitToken` | espn_nba_stats_scrape.py:279 | a lone whitespace-free token splits into itself |
| `PyText.SplitSkipsSpace` | espn_nba_stats_scrape.py:279 | any leading run of whitespace, of any length and kind, is skipped |
| `PyText.SplitTokenThenSpace` | espn_nba_stats_scrape.py:279 | a token followed by any non-empty run of whitespace is one piece, and splitting resumes after the run; with SplitSkipsSpace and SplitToken this fixes `split()` on every input |
| `PyText.SplitJoinSpaced` | espn_nba_stats_scrape.py:279 | splitting tokens joined by single spaces gives back the tokens |
| `PyText.StripLeft` | espn_nba_stats_scrape.py:274 | the result of `lstrip()` is no longer than the text and does not start with whitespace |
| `PyText.StripLeftSpec` | espn_nba_stats_scrape.py:274 | `lstrip()` removes exactly the leading run of whitespace: the result is a suffix of the text and everything before it is whitespace |
| `PyText.StripRight` | espn_nba_stats_scrape.py:274 | the result of `rstrip()` is no longer than the text and does not end with whitespace |
| `PyText.StripRightSpec` | espn_nba_stats_scrape.py:274 | `rstrip()` removes exactly the trailing run of whitespace: the result is a prefix of the text and everything after it is whitespace |
| `PyText.FirstPiece` | espn_nba_stats_scrape.py:290 | `split(" ")[0]` is the prefix up to the first single space, or the whole text |
| `PyText.RemoveChar` | espn_nba_stats_scrape.py:280-281 | `replace(c, "")` leaves no `c` and keeps every other character as often as before |
| `PyText.RemoveAbsentChar` | espn_nba_stats_scrape.py:280-281 | removing a character that is not there changes nothing |
| `PyText.ReplaceDashes` | espn_nba_stats_scrape.py:265-271 | `re.sub("--", rep, s)` left to right without overlaps; stated by ReplaceDashesNoPair, ReplaceDashesLeavesNoPair, DigitsWithoutSentinel and ReplaceDashesHasDigit |
| `PyText.ReplaceDashesNoPair` | espn_nba_stats_scrape.py:265 | text without "--" is left unchanged |
| `PyText.ReplaceDashesLeavesNoPair` | espn_nba_stats_scrape.py:265 | with a dash-free replacement no "--" is left afterwards |
| `PyText.KeepDigits` | espn_nba_stats_scrape.py:268 | `re.sub(r'[^\d]+', '', s)` is all digits and no longer than `s` |
| `PyText.KeepDigitsChar` | espn_nba_stats_scrape.py:268 | one character is kept exactly when it is a digit; with `KeepDigitsAppend` the result is the text's own digits, in order |
| `PyText.KeepDigitsAppend` | espn_nba_stats_scrape.py:268 | stripping non-digits distributes over concatenation |
| `PyText.KeepDigitsEmpty` | espn_nba_stats_scrape.py:268 | nothing is left exactly when the text has no digit |
| `PyText.DigitsWithoutSentinel` | espn_nba_stats_scrape.py:265-268 | without "--" the rewrite changes none of the digits |
| `PyText.ReplaceDashesHasDigit` | espn_nba_stats_scrape.py:265-268 | after the "$0" rewrite there is a digit exactly when there was a digit or a "--" |
| `PyNumbers.ParseInt` | espn_nba_stats_scrape.py:274 | `int()` on text: surrounding whitespace stripped, one optional sign, then digit groups; stated by ParseDigits, ParseNegatedDigits, ParseIntToString and ParseIntBlank |
| `PyNumbers.NatToString` | espn_nba_stats_scrape.py:274 | `str(n)` of a natural is a non-empty digit string |
| `PyNumbers.DigitsValueOfNatToString` | espn_nba_stats_scrape.py:274 | the decimal value of `str(n)` is n |
| `PyNumbers.StripNoSpace` | espn_nba_stats_scrape.py:274 | text without whitespace is not stripped |
| `PyNumbers.ParseDigits` | espn_nba_stats_scrape.py:274 | `int()` of a non-empty digit string is its decimal value |
| `PyNumbers.ParseNegatedDigits` | espn_nba_stats_scrape.py:274 | `int()` of a minus sign and a non-empty digit string is the negated decimal value |
| `PyNumbers.ParseIntToString` | espn_nba_stats_scrape.py:274 | `int(str(n)) == n` for every integer |
| `PyNumbers.StripLeftAllSpace` | espn_nba_stats_scrape.py:274 | stripping all-whitespace text leaves nothing |
| `PyNumbers.ParseIntBlank` | espn_nba_stats_scrape.py:274 | `int()` of blank text is a ValueError |
| `Dicts.ZipPrefixSpec` | espn_nba_stats_scrape.py:98 | after n insertions the keys are the first n keys, each holding the value of its last occurrence |
| `Dicts.ZipToMap` | espn_nba_stats_scrape.py:52 | `dict(zip(ks, vs))`, also at lines 98 and 153; stated by ZipToMapSpec, ZipIgnoresTail and ZipDistinct |
| `Dicts.ZipToMapSpec` | espn_nba_stats_scrape.py:52 | `dict(zip(ks, vs))` has exactly the first min(len) keys, each with the value paired with its last occurrence |
| `Dicts.ZipIgnoresTail` | espn_nba_stats_scrape.py:52 | keys or values beyond the shorter list are ignored |
| `Dicts.ZipPrefixAgree` | espn_nba_stats_scrape.py:98 | only the first n pairs decide the first n insertions |
| `Dicts.ZipDistinct` | espn_nba_stats_scrape.py:52 | with no repeated key there is one entry per pair, holding its own value |
| `Tables.Columns` | espn_nba_stats_scrape.py:184 | every row's columns are columns of the frame |
| `Tables.ColumnsFromRows` | espn_nba_stats_scrape.py:184 | every column of the frame comes from some row |
| `Tables.SetColumn` | espn_nba_stats_scrape.py:265-290 | `df[c] = vals` sets column `c` row by row and changes no label and no other column |
| `Tables.ColumnsOfSetColumn` | espn_nba_stats_scrape.py:265-290 | assigning a column adds it to a non-empty frame and changes no other column |
| `Tables.MatchesEmpty` | espn_nba_stats_scrape.py:184 | a label has no matching right rows exactly when the right frame lacks it |
| `Tables.MatchesFromRight` | espn_nba_stats_scrape.py:184 | the matches are exactly the rows of the right entries with that label: each match comes from one, and every one gives a match |
| `Tables.MatchesOne` | espn_nba_stats_scrape.py:184 | a single right row is a match exactly when it carries the label |
| `Tables.MatchesAppend` | espn_nba_stats_scrape.py:184 | the matches of two stretches of the right frame follow one another, none dropped or reordered; with MatchesOne this fixes the matches completely |
| `Tables.MatchesCoverRight` | espn_nba_stats_scrape.py:184 | every right row with the label is a match, at the position counted by the matches before it (right order kept) |
| `Tables.LeftJoin` | espn_nba_stats_scrape.py:184 | `join` on the index; stated by LeftJoinFails, LeftJoinKeepsCells and JoinUnmatchedMissing |
| `Tables.JoinRows` | espn_nba_stats_scrape.py:184 | the joined rows, each left row repeated once per match; stated by JoinRowsBlocks, JoinOffsetAt, JoinMatchedRows and JoinUnmatchedRow |
| `Tables.LeftJoinFails` | espn_nba_stats_scrape.py:184 | the join fails exactly when the frames share a column name |
| `Tables.ConcatAppend` | espn_nba_stats_scrape.py:184 | flattening a sequence of blocks distributes over concatenation |
| `Tables.ConcatAt` | espn_nba_stats_scrape.py:184 | the `m`-th element of block `i` sits after all earlier blocks |
| `Tables.ConcatSingletons` | espn_nba_stats_scrape.py:184 | blocks of one element each flatten to as many elements as there are blocks |
| `Tables.JoinRowsBlocks` | espn_nba_stats_scrape.py:184 | the join is the left rows' blocks (one row per match, or the row alone) in left order |
| `Tables.JoinRowsBlocksAt` | espn_nba_stats_scrape.py:184 | the `m`-th row of the `i`-th block sits after all earlier blocks in the join |
| `Tables.JoinOffsetAt` | espn_nba_stats_scrape.py:184 | the `m`-th row the `i`-th left row yields sits at that row's offset plus `m`, whatever the right labels |
| `Tables.JoinEntryKeeps` | espn_nba_stats_scrape.py:184 | every row a left row yields has its label, all its columns, and its own cell wherever the match has no cell |
| `Tables.MatchColumns` | espn_nba_stats_scrape.py:184 | a match's columns are columns of the right frame |
| `Tables.JoinMatchedRows` | espn_nba_stats_scrape.py:184 | a matched left row yields, for each match in order, its label with its cells and the match's cells, whatever the right labels |
| `Tables.JoinUnmatchedRow` | espn_nba_stats_scrape.py:184 | a left row with no match is kept unchanged at its offset, whatever the right labels |
| `Tables.JoinKeepsCells` | espn_nba_stats_scrape.py:184 | every row a left row yields keeps its label, its columns and its cells outside the right frame's columns |
| `Tables.LeftJoinKeepsCells` | espn_nba_stats_scrape.py:184 | after a successful join every row a left row yields holds all of that row's cells unchanged |
| `Tables.JoinRowsKeepsLeft` | espn_nba_stats_scrape.py:184 | every left row survives the join with its label, all its columns and its cells outside the right frame's columns |
| `Tables.JoinRowsFromLeft` | espn_nba_stats_scrape.py:184 | every joined row carries the label of some left row |
| `Tables.JoinedAllSpec` | espn_nba_stats_scrape.py:184 | the list of joined rows has one entry per left row, the joined row of that left row |
| `Tables.JoinEntryUnique` | espn_nba_stats_scrape.py:184 | with unique right labels a left row yields exactly its joined row |
| `Tables.JoinRowsOneForOne` | espn_nba_stats_scrape.py:184 | with unique right labels the join is the list of joined rows, one per left row |
| `Tables.JoinRowsUniqueRight` | espn_nba_stats_scrape.py:184 | with unique right labels the join keeps the length and the labels, adds the matching row's cells and leaves unmatched rows unchanged |
| `Tables.MatchesUnique` | espn_nba_stats_scrape.py:184 | with unique right labels a label has at most one match, the row carrying it |
| `Tables.MatchesOrder` | espn_nba_stats_scrape.py:184 | two or more matches come from two right rows with that label |
| `Tables.JoinOffsetUnique` | espn_nba_stats_scrape.py:184 | with unique right labels the `i`-th left row's block starts at position `i` |
| `Tables.JoinUnmatchedMissing` | espn_nba_stats_scrape.py:184 | after a successful join a left row with no match is kept unchanged and reads every right column as missing, whatever the right labels; with unique right labels it stays at its position and no row is dropped |
| `Roster.LetterRun` | espn_nba_stats_scrape.py:76 | the longest prefix made of letters |
| `Roster.TagRunIsLetterRun` | espn_nba_stats_scrape.py:76 | a match of `>([a-zA-Z]+?)<` at a position can only capture the letters after the `>` |
| `Roster.RunFromSpec` | espn_nba_stats_scrape.py:76-77 | the search from a position returns the capture of the leftmost match, or nothing when none exists |
| `Roster.FirstTagRunSpec` | espn_nba_stats_scrape.py:76-77 | `findall(…)[0]` of a header is the capture of the leftmost match, and absent exactly when there is no match |
| `Roster.HeaderColumns` | espn_nba_stats_scrape.py:72-77 | the header names the loop collects; stated by FilterHeaders, HeaderColumnsAppend, HeaderColumnsOne and HeaderColumnsAreWords |
| `Roster.FilterHeaders` | espn_nba_stats_scrape.py:72-77 | the loop builds exactly the header-name list |
| `Roster.HeaderColumnsAppend` | espn_nba_stats_scrape.py:72-77 | the names of two groups of headers are the two lists, one after the other (order kept) |
| `Roster.HeaderColumnsOne` | espn_nba_stats_scrape.py:75-77 | a header contributes nothing exactly when it has no `>letters<` run, otherwise its leftmost run |
| `Roster.HeaderColumnsAreWords` | espn_nba_stats_scrape.py:76-77 | every name is a non-empty run of letters; there are no more names than headers |
| `Roster.GetPlayerInfo` | espn_nba_stats_scrape.py:59-103 | the method computes the scan of rows 0-29 over the filtered headers |
| `Roster.RosterErrorStays` | espn_nba_stats_scrape.py:96-101 | once the KeyError is raised, later rows do not change the outcome |
| `Roster.RosterUpTo` | espn_nba_stats_scrape.py:83-101 | the roster scan of rows 0..n-1; stated by RosterFails, RosterEntries, RosterReadsOnlyScanned and RosterMissingRow |
| `Roster.RosterFails` | espn_nba_stats_scrape.py:96-101 | the scan fails exactly when some scanned row has no "Name", and then with `KeyError('Name')` |
| `Roster.RosterEntries` | espn_nba_stats_scrape.py:98-99 | one entry per name found, each the last row with that name, whose "Name" is the key |
| `Roster.RosterReadsOnlyScanned` | espn_nba_stats_scrape.py:83 | rows outside 0..n-1 are never read |
| `Roster.RosterMissingRow` | espn_nba_stats_scrape.py:86-101 | an index with no `<tr>` (IndexError at `p_values[0]`, swallowed) leaves the scan unchanged |
| `Roster.RosterSize` | espn_nba_stats_scrape.py:83-99 | no more players than scanned rows that exist |
| `Roster.GetPlayerIds` | espn_nba_stats_scrape.py:128-157 | the method computes the id scan of rows 0-29 |
| `Roster.IdsUpTo` | espn_nba_stats_scrape.py:136-155 | the id scan of rows 0..n-1; stated by IdsKeys, IdsValues and IdsSkippedRow |
| `Roster.IdsKeys` | espn_nba_stats_scrape.py:149-155 | one entry per name of a row where all three patterns matched; other rows add nothing |
| `Roster.IdsValues` | espn_nba_stats_scrape.py:153 | each entry is the id and url of the last complete row for that name |
| `Roster.IdsRecordShape` | espn_nba_stats_scrape.py:153 | every entry has exactly the keys "id" and "url" |
| `Roster.IdsReadOnlyScanned` | espn_nba_stats_scrape.py:136 | rows outside 0..n-1 are never read |
| `Roster.IdsSkippedRow` | espn_nba_stats_scrape.py:149-155 | an index with no `<tr>`, or a row where a pattern finds nothing (IndexError, swallowed), adds nothing |
| `Teams.CollectRosterLinks` | espn_nba_stats_scrape.py:43-50 | `teams[k]` is the team capture and `links[k]` the absolute url of anchor k, for every k |
| `Teams.BuildRostersLibrary` | espn_nba_stats_scrape.py:43-52 | the method builds `dict(zip(teams, links))` |
| `Teams.RostersLibrary` | espn_nba_stats_scrape.py:52 | `dict(zip(teams, links))`; stated by RostersLibrarySpec and TeamsAtMostAnchors |
| `Teams.RostersLibrarySpec` | espn_nba_stats_scrape.py:52 | one entry per distinct team, holding the url of its last anchor, and no more entries than anchors |
| `Teams.TeamsAtMostAnchors` | espn_nba_stats_scrape.py:52 | there are no more distinct teams than anchors |
| `CareerStats.CompileAllStats` | espn_nba_stats_scrape.py:244-253 | the method computes the loop over every row |
| `CareerStats.CompileErrorStays` | espn_nba_stats_scrape.py:248-251 | once a row fails, later rows do not change the outcome |
| `CareerStats.UrlOf` | espn_nba_stats_scrape.py:248 | `players_dataframe.loc[player]["url"]`: KeyError without a url column, a shared label or non-text url is an error; stated by CompileNeedsUniqueUrls and StatsOfRow |
| `CareerStats.CompileUpTo` | espn_nba_stats_scrape.py:244-253 | the loop over the first n rows; stated by CompileFails, CompileEntries and CompileErrorStays |
| `CareerStats.CompileFails` | espn_nba_stats_scrape.py:248-251 | the loop completes exactly when every row's url can be read and fetched |
| `CareerStats.CompileNeedsUniqueUrls` | espn_nba_stats_scrape.py:249 | a completed loop implies unique labels, a url column, and a url text in every row |
| `CareerStats.CompileEntries` | espn_nba_stats_scrape.py:248-251 | a completed loop has exactly the row labels as keys, each holding that row's fetched stats |
| `CareerStats.StatsOfRow` | espn_nba_stats_scrape.py:249-250 | with a unique label and a url, a row's stats are what the fetcher returns for its url |

## Left out

- Network I/O (`urlopen` at lines 12, 60, 129 and 190) and `sleep` are not modelled. `get_player_stats` (lines 188-239) is not modelled either; it is the `fetch` parameter of `CareerStats.CompileAllStats`, which may fail.
- Markup parsing and the concrete regexes over stringified tags are not modelled (lines 64-69, 86-97, 139-152). These cover `find_all`, `str(tag)`, the cell pattern of line 97 and the three id patterns of lines 150-152. Their results are the inputs: the header strings, a map from row index to cell texts, and a map from row index to `IdMatches`. An index absent from the map means `find_all` found no `<tr>` for it.
- `my_regex_searcher` and the zip of anchors with captures at line 39 are not modelled. The input is the list of anchors already paired with their captures. bs4 collapsing two equal-looking anchors into one dictionary key is not modelled.
- `DataFrame.from_dict`, `concat` and the `Team` column (lines 115-124, 169-176, 259) are not modelled, nor the team fan-out loops (lines 106-109, 161-166). Building an ordered frame from a dict needs the insertion order, which a `map` does not keep.
- Dictionary insertion order and column order are not modelled at all. A dict is a `map`, and `Tables.Columns` is a set.
- The float64 `astype` cast (line 309) and the CSV export (line 312) are not modelled. They are floating point and file output.
- Normalize.ConvertHeight: `float()` is read with the integer parser, so a non-integral token such as `6.5'` is a ValueError here, and the result is an `int` rather than a float.
- Normalize.ConvertWeight: the same integer reading of `float()`. `"220.5 lbs"` is a ValueError here.
- PyNumbers.ParseInt: only ASCII digits are accepted. Other Unicode decimal digits, which Python's `int()` also reads, are rejected. The 4300-digit limit of `int()` is not modelled.
- Normalize.NormalizeSalary: the two Salary passes (line 265, then line 268) are one function. The first pass maps text to text and leaves every other cell alone, so the composition is the same statement.
- Normalize.NormalizeAge: the two Age passes (line 271, then line 274) are one function, for the same reason.
- Tables.LeftJoin: a frame here has no column index of its own; its columns are those some row holds. pandas keeps a right column that no matched row fills as an all-NaN column. Here such a column vanishes from the join, and the overlap check of line 262 does not see it.
- CareerStats.UrlOf: for the same reason, when no player matched an id row the `url` column is absent here, so the model gives `KeyError("url")`. pandas has an all-NaN `url` column, and `urlopen(nan)` (line 190, called from line 250) raises the error the model calls `UrlMissing`.
- PyText.KeepDigits: `\d` is read as the ASCII digits. Python 3 also matches every other Unicode decimal digit, so a salary such as "$١٢٣" is 123 there but a ValueError here. The same holds for Normalize.NormalizeSalary, Normalize.SalaryFails and Normalize.SalaryIsItsDigits, whose "digit" means an ASCII digit.
- Tables.Columns: its contract states only that every row's columns are included. The other direction is the separate lemma `Tables.ColumnsFromRows`.
