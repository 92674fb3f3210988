# VNL scraper: the pure transformations, modelled in Dafny

The scraper in `data/get_vnl_data.py` downloads Volleyball Nations League
pages and writes CSV tables. Around the HTTP, XPath and pandas plumbing sit a
few pure rules that decide what the tables contain. This project models those
rules and proves properties about them:

- **Column names** (`ColumnNames`):
  - `format_snake`;
  - `create_unique_strings`, which disambiguates repeated names with a
    `"{k}/"` prefix;
  - the header pipeline of `retrieve_first_table`, which pads with
    `prefix_col` empty names, then snake-cases and de-duplicates.
- **Schedule** (`Schedule`):
  - turning the per-set results string into integers;
  - the home/away point totals, summed over even and odd positions;
  - the five-character match id.
- **Round-robin summary** (`MatchSummary`): the lambda that cleans the
  set-point cells, and its application to columns `set1_point` to
  `set5_point`.
- **Team ranking** (`TeamRank`):
  - dropping the empty third column;
  - the `0/` to `set_` and `1/` to `point_` substitutions;
  - the fixed leading and trailing names;
  - the `TEAM_TO_ABBR` lookup that fills the `team` column.
- **Match detail** (`MatchDetail`):
  - the 39-field player row of `get_one_match_data`, with the page reduced to
    the text nodes each cell query returns;
  - the `' '` placeholder for a missing efficiency cell;
  - the `data-team` to nation map built from the team links.

Two supporting modules:

- `Results`: the Python exceptions the code can raise (`IndexError`,
  `KeyError`, `ValueError`, and the pandas length mismatch), as a `Result`
  type. Every error path is an `Err` value, not a precondition.
- `PyStrings`: the Python string operations these rules use, restricted to
  ASCII. These are `split`, `join`, `replace`, `strip`, `lower`, `upper`,
  `str(n)` and `int(s)` (with sign, surrounding whitespace and `_` digit
  groups).

Where a natural reading of the rules and the code disagree, the model
follows the code:

- **An empty results string is an error, not zero totals.** `"[]"` becomes
  `""`, splitting gives `[""]`, and `int('')` raises. `Schedule.EmptyResultsFail`
  proves this. The totals of an empty *parsed* list are 0 and 0
  (`Schedule.PointTotals`).
- **Only the token `' -'` is dropped.** A bare `'-'` is not: an unplayed set in
  first position renders without the leading space, and parsing then fails
  (`Schedule.LeadingDashFails`).
- **A first occurrence is not always kept.** In `create_unique_strings`, a
  first occurrence keeps its name only if no earlier tag took it:
  `["a", "a", "0/a"]` gives `["a", "0/a", "0/0/a"]`
  (`ColumnNames.FirstOccurrenceCanBeTagged`).
- **The padding columns are named `''`, `'0/'`, `'1/'`, ...** (`ColumnNames.PaddingNames`).
  In the ranking table the column named `1/` is the one dropped, and `0/`
  at position 1 is then overwritten by `team_full`. So no padding name
  survives the renaming (`TeamRank.TeamRankColumnsShape`). The `0/` and `1/`
  substitutions are applied to every name, though. They rewrite the tags
  that de-duplication gives to repeated header names, and also any header
  name whose own text contains `0/` or `1/`: `10/20` becomes `1set_20`
  (`TeamRank.RenameHeaderText`, `TeamRank.RenameClears`).
- **The dig table reads shifted cells.** `dig_tot` reads the `attempts` cell
  and `dig_eff` reads the `total` cell, with the placeholder. `MatchDetail.Layout`
  states this as the queries are written.
- **Team ranking with only five columns.** If the ranking table had exactly
  five columns after the drop, `set_ratio` would overwrite `team_full` at
  position 1 (`TeamRank.TeamRankColumnsShape`). The lookup of `team_full`
  for the `team` column then raises `KeyError('team_full')`
  (`TeamRank.TeamRankTeams`).

## Model

| member | source | states |
|---|---|---|
| `ColumnNames.FormatSnake` | data/get_vnl_data.py:19-26 | one output character per input character: a space becomes `_`, every other character is lower-cased; no space survives, and `''` maps to `''` |
| `ColumnNames.SplitLowerJoin` | data/get_vnl_data.py:23-26 | splitting on spaces, lower-casing each word and joining with `_` equals the independent per-character mapping |
| `ColumnNames.FormatSnakeIdempotent` | data/get_vnl_data.py:19-26 | normalising a normalised name changes nothing |
| `ColumnNames.FreeCounter` | data/get_vnl_data.py:38-40 | the `while` search started from a counter below which all tags are taken stops at the least free counter, and stops below the number of names emitted when the name is already present |
| `ColumnNames.NextName` | data/get_vnl_data.py:35-41 | the appended name is never already in the list; a new name is appended unchanged; a repeat becomes `str(k) + '/' + name` for the least free `k`, with `k` below the list length |
| `ColumnNames.UniqueNames` | data/get_vnl_data.py:29-42 | the output has one name per input name |
| `ColumnNames.UniqueNamesDistinct` | data/get_vnl_data.py:29-42 | no two output names are equal |
| `ColumnNames.UniqueNamesRule` | data/get_vnl_data.py:33-41 | element `i` is the input name when it is not among the first `i` outputs, otherwise the least free tag, whose counter is below `i` |
| `ColumnNames.RuleAtNextName` | data/get_vnl_data.py:35-41 | at each step the element rule allows exactly one name, the one the search appends |
| `ColumnNames.RuleDeterminesNames` | data/get_vnl_data.py:29-42 | any list that follows the element rule at every position is the function's output, so the rule is a complete specification |
| `ColumnNames.CreateUniqueStrings` | data/get_vnl_data.py:29-42 | the loop-and-search implementation returns a duplicate-free list of the input's length that follows the element rule |
| `ColumnNames.ThreeRepeats` | data/get_vnl_data.py:29-42 | `["Pts","Pts","Pts"]` gives `["Pts","0/Pts","1/Pts"]` |
| `ColumnNames.FirstOccurrenceCanBeTagged` | data/get_vnl_data.py:35-41 | a name seen for the first time is still tagged when an earlier repeat produced that very tag |
| `ColumnNames.Padding` | data/get_vnl_data.py:73 | `['']*prefix_col`: `prefix_col` names, all empty |
| `ColumnNames.SnakeAll` | data/get_vnl_data.py:75 | one snake-cased name per input name, position by position |
| `ColumnNames.PaddingNames` | data/get_vnl_data.py:73-77 | `n` empty padding names come out as `''`, `'0/'`, `'1/'`, ..., `'{n-2}/'` |
| `ColumnNames.HeaderNames` | data/get_vnl_data.py:73-77 | the pipeline yields `prefix_col + len(header)` pairwise distinct names; with padding the first is `''` and the next are `'0/'`, `'1/'`, ... |
| `PyStrings.SplitJoin` | data/get_vnl_data.py:23-26 | joining the parts of a split with the separator gives back the string |
| `PyStrings.ParseIntRoundTrip` | data/get_vnl_data.py:269 | `int(str(n)) == n` for every non-negative `n` |
| `PyStrings.NatToStringInjective` | data/get_vnl_data.py:39-41 | `str` is injective on counters, so different counters give different tags |
| `PyStrings.ReplaceNoPair` | data/get_vnl_data.py:154-156 | after replacing a two-character pattern with text that cannot recreate it, the pattern occurs nowhere in the result |
| `PyStrings.Without` | data/get_vnl_data.py:269 | the filter `[x for x in xs if x != t]` keeps exactly the elements other than `t` and never lengthens the list; the results parse uses it with `t = ' -'`, and `drop` of the third column's label at line 149 is the same filter |
| `PyStrings.WithoutAppend` | data/get_vnl_data.py:269 | the filter distributes over concatenation: filtering `a + b` is filtering `a`, then `b` |
| `PyStrings.WithoutSingle` | data/get_vnl_data.py:269 | a single element is kept exactly when it differs from `t`; with the previous row, the filter keeps the order of what it keeps |
| `PyStrings.WithoutAbsent` | data/get_vnl_data.py:149 | dropping a label that is not present changes nothing |
| `PyStrings.ParseInt` | data/get_vnl_data.py:269 | a failure is always `ValueError` naming the text; which texts fail is stated by `PyStrings.ParseIntRejects`, `PyStrings.ParseIntBlank`, `PyStrings.ParseIntSignOnly` and `PyStrings.ParseIntTrailingUnderscore`, and `PyStrings.ParseIntRoundTrip` shows that `str(n)` is accepted with value `n` |
| `PyStrings.ParseIntRejects` | data/get_vnl_data.py:269 | a stripped text holding any character other than a digit or `_`, apart from a sign in front, raises `ValueError` |
| `PyStrings.ParseIntBlank` | data/get_vnl_data.py:269 | an empty or all-white-space text raises `ValueError` |
| `PyStrings.ParseIntSignOnly` | data/get_vnl_data.py:269 | a lone `+` or `-` raises `ValueError` |
| `PyStrings.ParseIntTrailingUnderscore` | data/get_vnl_data.py:269 | a literal ending in `_` raises `ValueError` |
| `PyStrings.ReplaceAbsent` | data/get_vnl_data.py:153-156 | `replace` with a pattern holding a character the string lacks leaves the string unchanged |
| `Schedule.TokenValue` | data/get_vnl_data.py:269 | `int(token.strip())` fails only with `ValueError` |
| `Schedule.ResultTokens` | data/get_vnl_data.py:267-268 | quotes removed, ends dropped and split on commas: at least one token, and no token contains a comma |
| `Schedule.ParseResults` | data/get_vnl_data.py:267-269 | the parse of one results string fails only with `ValueError`; `Schedule.ParseResultsValues`, `Schedule.ParseRenderedResults`, `Schedule.LeadingDashFails` and `Schedule.EmptyResultsFail` pin down what it returns |
| `Schedule.ParseResultsValues` | data/get_vnl_data.py:267-269 | the parse succeeds exactly when every token other than `' -'` is an integer literal, and then yields their values in order |
| `Schedule.ParseAll` | data/get_vnl_data.py:269 | on success, one integer per kept token, each being `int(token.strip())` of that token |
| `Schedule.ParseAllOk` | data/get_vnl_data.py:269 | the comprehension succeeds exactly when every kept token is an integer literal |
| `Schedule.ParseRenderedResults` | data/get_vnl_data.py:267-269 | parsing the string form of a list of set cells whose first cell is a score returns exactly the played scores, in order |
| `Schedule.LeadingDashFails` | data/get_vnl_data.py:267-269 | an unplayed set in first position makes the parse fail, since only `' -'` is dropped |
| `Schedule.EmptyResultsFail` | data/get_vnl_data.py:267-269 | an empty results list raises `ValueError` instead of giving empty totals |
| `Schedule.ParitySplit` | data/get_vnl_data.py:270-271 | the sum over even positions plus the sum over odd positions is the sum of the list |
| `Schedule.PointsHome` | data/get_vnl_data.py:270 | the home total is the sum of the parsed list less its values at odd positions |
| `Schedule.PointsAway` | data/get_vnl_data.py:271 | home points plus away points equals the sum of the parsed list |
| `Schedule.AppendSet` | data/get_vnl_data.py:270-271 | one more (home, away) pair adds its first value to the home total and its second to the away total |
| `Schedule.PointTotals` | data/get_vnl_data.py:270-271 | a single pass computes both parity sums; they add up to the total, and an empty list gives 0 and 0 |
| `Schedule.MakeRow` | data/get_vnl_data.py:249-271 | a row exists exactly when the results string parses; its results are the parsed list, its id is the last five characters of the match id (all of it when shorter), and its two totals add up to the sum of its results |
| `Schedule.MakeRowFields` | data/get_vnl_data.py:250-271 | name, teams and scores are copied unchanged; the home total is the sum over even positions of the results and the away total the sum over odd positions |
| `Schedule.Collect` | data/get_vnl_data.py:267-271 | `apply` over the rows: on success, one value per row in order, each that row's own outcome |
| `Schedule.CollectOk` | data/get_vnl_data.py:267-271 | `apply` succeeds exactly when every row's outcome does |
| `Schedule.MakeRows` | data/get_vnl_data.py:248-271 | on success, one row per match in order, each that match's row |
| `Schedule.MakeRowsOk` | data/get_vnl_data.py:248-271 | the table is built exactly when every match's row is |
| `Schedule.GetSchedule` | data/get_vnl_data.py:248-271 | the table is built exactly when every match's results parse; then row `k` is match `k`'s row, and the returned id list matches the table's id column, position by position |
| `MatchSummary.SetColumn` | data/get_vnl_data.py:109-115 | in the fixed column list `MatchSummary.SummaryColumns`, column `set{i}_point` is at position `i + 3` |
| `MatchSummary.CleanSetPoint` | data/get_vnl_data.py:115-117 | `'-'` is kept; a cell shorter than two characters raises `IndexError`; otherwise the result is 3 to 5 characters long, keeps the cell's first and last characters, and contains `-` |
| `MatchSummary.CleanExtractsScores` | data/get_vnl_data.py:115-117 | for 1-2 digit scores `a`, `b` and any separator that starts and ends with a non-digit, cleaning `a + sep + b` gives `a + '-' + b` |
| `MatchSummary.CleanScorePair` | data/get_vnl_data.py:115-117 | a well-formed `"a-b"` with scores below 100 is left unchanged |
| `MatchSummary.CleanSetPointIdempotent` | data/get_vnl_data.py:115-117 | cleaning a cleaned cell changes nothing |
| `MatchSummary.CleanColumn` | data/get_vnl_data.py:115-117 | on success the cleaned column has one cleaned cell per input cell |
| `MatchSummary.CleanColumnOk` | data/get_vnl_data.py:115-117 | a column is cleaned exactly when every cell is `'-'` or at least two characters long |
| `MatchSummary.CleanColumnFixed` | data/get_vnl_data.py:115-117 | a column of fixed points is returned unchanged |
| `MatchSummary.CleanColumnStable` | data/get_vnl_data.py:115-117 | cleaning a cleaned column changes nothing |
| `MatchSummary.GetMatchSummary` | data/get_vnl_data.py:113-118 | the loop succeeds exactly when all five set-point columns can be cleaned; those five are cleaned and every other column is untouched |
| `TeamRank.TeamAbbreviation` | data/get_vnl_data.py:165 | succeeds exactly when the lower-cased name is a key, and then gives the upper case of its code; otherwise `KeyError` with the lower-cased name |
| `TeamRank.TableWellFormed` | data/get_vnl_data.py:11-16 | every team name in `TeamRank.TeamToAbbr` is its own lower case, and every code is three lower-case letters |
| `TeamRank.AbbreviationIsCode` | data/get_vnl_data.py:165 | every abbreviation produced is three upper-case letters |
| `TeamRank.AbbreviationOfUsa` | data/get_vnl_data.py:165 | `USA` and `usa` both give `USA` |
| `TeamRank.UnknownTeam` | data/get_vnl_data.py:165 | a team not in the table, such as `Canada`, raises `KeyError('canada')` |
| `TeamRank.LowerOfUpper` | data/get_vnl_data.py:165 | on ASCII text, `upper` followed by `lower` is the same as `lower` |
| `TeamRank.AbbreviationIgnoresCase` | data/get_vnl_data.py:165 | the lookup ignores how the team name is capitalised |
| `TeamRank.CodesDistinct` | data/get_vnl_data.py:11-16 | no two teams of `TeamRank.TeamToAbbr` share a code |
| `TeamRank.UpperCodeInjective` | data/get_vnl_data.py:165 | `upper` maps different lower-case codes to different strings |
| `TeamRank.AbbreviationInjective` | data/get_vnl_data.py:165 | two names with the same abbreviation are the same team up to case |
| `TeamRank.TeamColumn` | data/get_vnl_data.py:165 | the `team` column is built exactly when every team is known, one abbreviation per row |
| `TeamRank.DropLabelAt` | data/get_vnl_data.py:149 | with distinct names, dropping the label at position `i` removes exactly position `i` |
| `TeamRank.RenameHeaderText` | data/get_vnl_data.py:153-156 | the substitutions also rewrite header text that contains `0/`: `10/20` becomes `1set_20` |
| `TeamRank.RenameClears` | data/get_vnl_data.py:153-156 | after both substitutions no `0/` or `1/` remains in a name |
| `TeamRank.Rename` | data/get_vnl_data.py:153-156 | a name without `/` is not changed by the two substitutions; `TeamRank.RenameSetTag` and `TeamRank.RenamePointTag` state what they do to tagged names, and `TeamRank.RenameClears` that nothing of either pattern is left |
| `TeamRank.RenameSetTag` | data/get_vnl_data.py:153-156 | a name `0/` + `x` becomes `set_` followed by the renaming of `x` |
| `TeamRank.RenamePointTag` | data/get_vnl_data.py:153-156 | a name `1/` + `x` becomes `point_` followed by the renaming of `x` |
| `PyStrings.ReplaceHead` | data/get_vnl_data.py:153-156 | a text that starts with the pattern has that occurrence replaced, then the rest is processed |
| `PyStrings.ReplacePrefix` | data/get_vnl_data.py:153-156 | a prefix holding no first character of the pattern is copied unchanged in front of the replaced rest |
| `TeamRank.RenameColumns` | data/get_vnl_data.py:152-162 | succeeds exactly when there are at least five names, otherwise it is a length mismatch against five; the names are then `rank, team_full, match_total, match_win, match_lose` in front, `set_ratio` fourth from last, `point_ratio` last, and the substituted header names elsewhere |
| `TeamRank.FixedNamesClean` | data/get_vnl_data.py:157-161 | none of the fixed column names contains `/` |
| `TeamRank.RenamedClean` | data/get_vnl_data.py:153-161 | no name of the renamed table contains `0/` or `1/` |
| `TeamRank.TeamRankColumns` | data/get_vnl_data.py:146-162 | the column pipeline succeeds exactly when the header has at least three names, and yields two more names than the header |
| `TeamRank.TeamRankColumnsShape` | data/get_vnl_data.py:146-162 | the padding names are overwritten; every other middle name is the de-duplicated header name one position on, renamed |
| `TeamRank.MiddleNamesKept` | data/get_vnl_data.py:146-162 | a middle column whose de-duplicated name has no `/` is named by the snake-cased header cell three places back, unchanged by the substitutions |
| `ColumnNames.UntaggedHeaderName` | data/get_vnl_data.py:73-77 | a pipeline name without `/` was not tagged: it is the snake-cased header cell at that position |
| `TeamRank.ColumnIndex` | data/get_vnl_data.py:165 | a column lookup succeeds exactly when the name is present, and then finds its first position; otherwise `KeyError` with that name |
| `TeamRank.TeamFullPlace` | data/get_vnl_data.py:146-165 | after renaming, `team_full` is absent for a three-name header and first found at position 1 otherwise |
| `TeamRank.TeamRankTeams` | data/get_vnl_data.py:146-165 | the `team` column fails with a length mismatch for a header of fewer than three names, with `KeyError('team_full')` for exactly three, and is otherwise the abbreviation of every cell of column 1 |
| `MatchDetail.LayoutMatchesTitles` | data/get_vnl_data.py:294-298 | the row layout `MatchDetail.Layout` has one field per `titlelist` entry (`MatchDetail.Titles`), 39 in all; the placeholder fields are exactly the seven columns `efficency`, `attack_eff`, `block_eff`, `serve_eff`, `reception_eff`, `dig_eff` and `set_eff` |
| `MatchDetail.LayoutTables` | data/get_vnl_data.py:314-371 | after the id and the nation, `MatchDetail.Layout` reads every field from a statistics table: fields 2-9 from scoring, 10-14 attack, 15-19 block, 20-24 serve, 25-29 reception, 30-33 dig and 34-38 set |
| `MatchDetail.LayoutHead` | data/get_vnl_data.py:312-313 | the first field is the match id and the second the nation |
| `MatchDetail.TableWitness` | data/get_vnl_data.py:314-371 | every one of the seven statistics tables is read by some field of the row |
| `MatchDetail.FieldValue` | data/get_vnl_data.py:312-371 | a required cell with no text, or a player missing from a table, is `IndexError`; a missing efficiency cell gives `' '`; an unknown team is `KeyError`; otherwise the field is the cell's first text |
| `MatchDetail.Fields` | data/get_vnl_data.py:372-411 | on success, one value per field, each that field's value |
| `MatchDetail.FieldsOk` | data/get_vnl_data.py:312-411 | the fields come out exactly when each field can be read |
| `MatchDetail.PlayerRecord` | data/get_vnl_data.py:310-412 | a player row has 39 fields, the match id first and the team's nation second |
| `MatchDetail.FieldsHead` | data/get_vnl_data.py:312-313 | a row built from a layout that starts with the match id and the nation starts with the match id and the team's nation |
| `MatchDetail.PlaceholdersFilled` | data/get_vnl_data.py:310-371 | a player with a known team, a row in every table and text in every required cell gets a row, and every placeholder field whose cell is absent holds `' '` |
| `MatchDetail.FieldsOkWhen` | data/get_vnl_data.py:310-371 | for any layout that reads the nation second and reads every table, the fields come out exactly when the nation is known, the player has a row in every table, and every required cell has text |
| `MatchDetail.PlayerRecordOk` | data/get_vnl_data.py:310-412 | a player row is built exactly when the team's nation is known, the player has a row in all seven tables, and every required cell has text |
| `MatchDetail.TeamRecords` | data/get_vnl_data.py:310-412 | a team yields one row per scoring-table row, and succeeds exactly when every player's row does |
| `MatchDetail.RecordsFrom` | data/get_vnl_data.py:310-412 | the rows from player `start` on match the player rows position by position |
| `MatchDetail.RecordsFromOk` | data/get_vnl_data.py:310-412 | the rows from player `start` on are built exactly when each of those player rows is |
| `MatchDetail.EmptyTeam` | data/get_vnl_data.py:310-313 | a team with no scoring rows adds nothing, even if its nation is unknown |
| `MatchDetail.MatchRecords` | data/get_vnl_data.py:301-412 | a match succeeds exactly when every team block does; every row has one value per layout field, and starts with the match id when the layout begins with it |
| `MatchDetail.MatchRows` | data/get_vnl_data.py:301-415 | every row of the match table has 39 fields and starts with the match id |
| `MatchDetail.MatchRecordsOk` | data/get_vnl_data.py:301-412 | a match's rows are built exactly when every player row of every team block is |
| `MatchDetail.MatchRecordsCount` | data/get_vnl_data.py:301-412 | a match yields one row per scoring-table row over all blocks; its rows are the first block's rows followed by the rows of the remaining blocks |
| `MatchDetail.LinkTeam` | data/get_vnl_data.py:287 | `href[1:]`: the link minus its first character, and `''` for an empty link |
| `MatchDetail.NationMap` | data/get_vnl_data.py:285-289 | a team is in the map exactly when some link names it |
| `MatchDetail.NationMapLastWins` | data/get_vnl_data.py:285-289 | a team's nation is the one from its last link |
| `MatchDetail.GetOneMatch` | data/get_vnl_data.py:284-415 | with the nation map built from the team links, the match succeeds exactly when every team block does, and every row has 39 fields starting with the match id |
| `MatchDetail.UnknownNationFails` | data/get_vnl_data.py:301-313 | a block with players whose nation is not in the map makes the first player's row `KeyError` with that team, and the whole match fail |

## Left out

- HTTP fetching (`requests.get`) is network I/O. The model takes the scraped
  texts as inputs.
- Everything BeautifulSoup, lxml and XPath compute is reduced to its output:
  header texts, cell lists, the text nodes of each cell, and team links. The
  rules for which elements are found, including the `td_span` row
  dictionaries of `retrieve_first_table`, depend on pages that are not
  available.
- pandas DataFrame construction, `append`/`concat`, `to_csv` and
  `save_csv` are library plumbing. Tables are sequences of columns or rows.
- `time.sleep(0.5)` is a throttle with no effect on the data.
- `main`, `get_matches_data_2021`, `save_best_players`, `get_player_bio_df`,
  `get_position` and `get_player_href` are I/O orchestration around the
  modelled rules.
- The `override_column` branch of `retrieve_first_table` only copies the given
  names. `MatchSummary.SummaryColumns` is that list.
- Unicode behaviour of `lower`, `upper`, `strip` and `isnumeric` is not
  modelled. Characters outside ASCII are left unchanged, and only `0`-`9`
  count as digits.
- The error *messages* of the Python exceptions are not modelled. Each
  error keeps its kind and one payload: the key for `KeyError`, the rejected
  text for `ValueError`, both lengths for the pandas length mismatch, and a
  short description of the failed lookup for `IndexError`.
- The index errors of the queries themselves are not modelled. Examples are
  a missing `@matchid`, `@href` or `@data-team` attribute, or a missing team
  name text.
- Schedule.ParseResults: parses the string form of the results list
  (`Schedule.RenderList`). As written, line 267 calls `replace` on the list
  the XPath query returns, which raises `AttributeError`; the model does not
  reproduce that failure, and reads the column as the later lines evidently
  mean it.
- TeamRank.TeamRankTeams: a header that itself yields a second `team_full`
  column is read from the first one; pandas would hand a two-column frame to
  the lambda instead.
- PyStrings.ParseInt: only non-negative literals are proved to round-trip
  through `str`. The negative branch is modelled, but no lemma is stated
  about it, because set scores are never negative. Rejection is stated for
  foreign characters, blank text, a lone sign and a trailing `_`. Other
  malformed groupings, such as `1__2` or `_1`, are rejected by the
  definition but have no lemma of their own.

