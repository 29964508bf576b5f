# Samaggi Games admin API — roster core in Dafny

The admin API of the Samaggi Games tournament keeps three tables:
- **Players:** one row per registration, holding a player's id, sport, the team university they play for, their name and their own university.
- **Teams:** one row per sub-roster. A team university fields a team in a sport, and each university contributing players to that team has a row naming the team university, the contributing university and that sub-roster's captain.
- **SportCount:** per sport, how many team universities field a team and the maximum allowed.

This project models the request handlers that read and change those tables, and the result-set helpers they use:

- **`QueryResponses`** models the `DynamoDBQueryResponse` list.
  - A response is an ordered sequence of rows, each a map from attribute to value.
  - `query`, `item_exists_where`, `first_item_where`, `where_eq` and `unique_values_for_key` are loops in the `QueryResponse` class.
  - Each loop is proved against a recursive reference function.
  - A row lacking an attribute raises `KeyError` at the point where Python would, and the conditions are tried in dictionary order.
  - `where_eq` converts rows in place, so it modifies the object's `items`.
- **`TableFilters`** models the filter chain of `get_table_v2`.
- **`Universities`** models `check_code`: it lower-cases the code, strips spaces and looks it up in the list of simplified names.
- **`Schedule`** models `sport_clash`: it tests the timetable slot of every sport the player is registered for against the candidate sport's slot.
- **`Eligibility`** models `is_player_valid` and `team_exists`.
  - `is_player_valid` applies three rules in order: first player, one team per university, at most three universities.
  - It is proved to preserve the tournament invariants those rules protect.
- **`Mutations`** gives the reference functions for `add_player`, `delete_player` and `edit_player`.
  - Each one maps a store to a new store and an outcome.
  - Each is a sequence of table writes that stops at the first failing step, without undoing the earlier writes.
- **`Stores.Store`** is the store object with one field per table. Its methods carry out the three handlers write by write, and each is proved equal to its reference function.
- **`AddProperties`**, **`RemovalProperties`** and **`TableFacts`** hold what the handlers promise:
  - team creation is gated on the sport's quota;
  - every player has a sub-roster row;
  - a team's count moves with its Team rows;
  - ids stay primary keys;
  - deleting removes exactly the player, and removes the team only with its last player;
  - editing replaces one row and touches nothing else.
- **`Statistics`** models the figures `data_statistics` derives from scans of the three tables.

## Model

| member | source | states |
|---|---|---|
| QueryResponses.TestMeaning | samaggi-games-admin/api/app.py:35-36 | The `all(result[key] == value ...)` test is true exactly when the row holds every condition's attribute with that value. It raises only `KeyError` for an attribute the row lacks and some condition names. It never raises on a row holding every named attribute. |
| QueryResponses.Keep | samaggi-games-admin/api/app.py:33-38 | The reference selection holds only rows of the table that satisfy every condition, holds every such row, and is no longer than the table. |
| QueryResponses.SelectIsKeep | samaggi-games-admin/api/app.py:33-38 | Whenever `query` returns, it returns exactly the satisfying rows in scan order. It always returns when every row has the condition attributes, and otherwise it can only raise `KeyError`. |
| QueryResponses.LookupsAgreeWithQuery | samaggi-games-admin/api/app.py:33-44 | Whenever `query` returns, `item_exists_where` answers whether that result is non-empty. `first_item_where` then returns the result's head, or, when it is empty, raises or returns None as `raise_if_not_found` says. Whenever `item_exists_where` raises, `query` raises the same error. |
| QueryResponses.DedupMeaning | samaggi-games-admin/api/app.py:70-75 | The distinct-values list holds every value of the column, holds nothing else, and never holds a value twice. |
| QueryResponses.DedupGrowsByPrefix | samaggi-games-admin/api/app.py:70-75 | The distinct values of a prefix are a prefix of the whole. A value met for the first time is appended at that point, so the values come in order of first occurrence. |
| QueryResponses.DedupLength | samaggi-games-admin/api/app.py:70-75 | The length of the distinct-values list is the number of distinct values in the column. |
| QueryResponses.WhereEqMeaning | samaggi-games-admin/api/app.py:46-61 | `where_eq` keeps the table's length and changes no row without `eval_as`. When it returns, every row is its original converted, and the result holds exactly the converted rows whose two attributes are equal. |
| QueryResponses.InvalidEvalAsChangesNothing | samaggi-games-admin/api/app.py:52-53 | An `eval_as` other than NUMBER, STRING or ARRAY raises `ValueError` before any row is converted. |
| QueryResponses.QueryResponse.constructor | samaggi-games-admin/api/app.py:25-31 | A response with no "Items" entry is empty and marked `is_empty`. Otherwise its rows are the items, in order. |
| QueryResponses.QueryResponse.Query | samaggi-games-admin/api/app.py:33-38 | The loop returns what the reference selection `Select` gives: the satisfying rows in scan order, or the first `KeyError`. |
| QueryResponses.QueryResponse.ItemExistsWhere | samaggi-games-admin/api/app.py:40-44 | The loop answers true at the first satisfying row and false at the end. It raises on a row, met before any match, that lacks a condition attribute. |
| QueryResponses.QueryResponse.FirstItemWhere | samaggi-games-admin/api/app.py:63-68 | The loop returns the first satisfying row. With no match it raises `ValueError` if asked to, and returns None otherwise. |
| QueryResponses.QueryResponse.UniqueValuesForKey | samaggi-games-admin/api/app.py:70-75 | The loop returns the column's distinct values in order of first occurrence, or `KeyError` when some row lacks the attribute. |
| QueryResponses.QueryResponse.WhereEqIn | samaggi-games-admin/api/app.py:46-61 | The rows left in the object and the value returned are those of `WhereEq`. Rows converted before an error stay converted. |
| TableFilters.KeepNothing | samaggi-games-admin/api/app.py:653-655 | With no filters the scan comes back whole. |
| TableFilters.KeepThenKeep | samaggi-games-admin/api/app.py:654-655 | Filtering by one list and then by another is filtering once by both lists. |
| TableFilters.KeepIdempotent | samaggi-games-admin/api/app.py:654-655 | Applying the same filters a second time changes nothing. |
| TableFilters.FilterChain | samaggi-games-admin/api/app.py:651-655 | The chain of `filter` calls returns exactly the scanned rows that pass every filter, in scan order. |
| Universities.Normalize | samaggi-games-admin/api/app.py:99 | A normalized code holds no space and no upper-case letter, and is no longer than the typed code. |
| Universities.NormalizeChar | samaggi-games-admin/api/app.py:99 | A single space normalizes to nothing, and any other character to its lower-case form. With `NormalizeConcat` this fixes the normalization of every code. |
| Universities.NormalizeConcat | samaggi-games-admin/api/app.py:99 | Lower-casing and removing spaces work character by character: the normalization of two joined codes is the two normalizations joined. |
| Universities.NormalizeLength | samaggi-games-admin/api/app.py:99 | The normalized code is shorter than the typed code by exactly its number of spaces. |
| Universities.NormalizeNoSpaces | samaggi-games-admin/api/app.py:99 | A code without spaces keeps its length, and each character becomes its lower-case form. |
| Universities.SpacesIgnored | samaggi-games-admin/api/app.py:99 | A space anywhere in the typed code makes no difference to the code looked up. |
| Universities.CaseIgnored | samaggi-games-admin/api/app.py:99 | Codes that differ only in letter case normalize to the same code. |
| Universities.NormalizeIdempotent | samaggi-games-admin/api/app.py:99 | Normalizing a normalized code changes nothing. |
| Universities.IndexOf | samaggi-games-admin/api/app.py:106 | `list.index` gives the first position holding the value. |
| Universities.CheckCode | samaggi-games-admin/api/app.py:97-108 | The code is valid exactly when its normalization is a simplified name. The name returned is the full name at the first position of that simplified name. An unknown code gets the empty name. |
| Schedule.MinutesOrder | samaggi-games-admin/api/app.py:229-245 | For valid times, comparing the `datetime`s on one date (hour, then minute) is comparing minutes since midnight. |
| Schedule.OverlapFacts | samaggi-games-admin/api/app.py:245 | The clash test is symmetric in the two slots. Slots that meet end to start do not clash. For proper slots it is the usual open-interval overlap. |
| Schedule.SportsOf | samaggi-games-admin/api/app.py:219-227 | The sports checked are exactly those of the rows with the player's name and own university. |
| Schedule.NoRegistrationNoClash | samaggi-games-admin/api/app.py:226-260 | A player with no registration never clashes, whatever the timetable holds. |
| Schedule.ClashMeaning | samaggi-games-admin/api/app.py:226-260 | With every looked-up sport in the timetable with valid times, the answer is exactly whether some registered sport's slot overlaps the candidate's. |
| Schedule.ClashFailure | samaggi-games-admin/api/app.py:226-245 | The check raises only when a sport it looks up is missing from the timetable or has a time `datetime` refuses. |
| Schedule.SportClash | samaggi-games-admin/api/app.py:209-260 | The loop returns the reference answer `Clash` over the player's registrations. It answers true at the first overlap and false after the last registration. |
| Eligibility.VerdictMeaning | samaggi-games-admin/api/app.py:263-331 | Rule by rule, each rejection happens exactly when its rule fails and every earlier rule passes. The first player's university must be the team's. A university's first registration in the sport must be under this team university; the "already has a team" message is given when that registration is under the university's own team. A university new to the team must not be a fourth. The player is eligible exactly when all three rules pass. |
| Eligibility.ExclusiveAddition | samaggi-games-admin/api/app.py:283-305 | Adding a player who passes the exclusivity rule keeps every university in each sport under a single team university. |
| Eligibility.FoundedAddition | samaggi-games-admin/api/app.py:274-281 | Adding a player who passes the first-player rule keeps every team with a player from its own university. |
| Eligibility.AtMostThreeAddition | samaggi-games-admin/api/app.py:307-323 | Adding a player who passes the three-university rule keeps every team at three universities or fewer. |
| Eligibility.EligibleAdditionPreserves | samaggi-games-admin/api/app.py:263-331 | Adding a player whom the check accepts preserves all three tournament invariants. |
| Eligibility.AlreadyHasTeamExample | samaggi-games-admin/api/app.py:290 | For a concrete table, the check as written reports "already playing for another team" where the corrected test reports "already has a team". |
| Eligibility.AsWrittenNeverAlreadyHasTeam | samaggi-games-admin/api/app.py:289-296 | As written, no table and no request ever gets the "already has a team" message. |
| Eligibility.AsWrittenAgreesOnValidity | samaggi-games-admin/api/app.py:289-305 | The check as written accepts and rejects the same players as the corrected one. Only the message differs. |
| Eligibility.TeamExists | samaggi-games-admin/api/app.py:111-145 | `team_exists` answers exactly whether some Team row of that university is in the sport. |
| Mutations.FirstPlayerIndex | samaggi-games-admin/api/app.py:538-543 | The row read for the deleted player is the first row with that id. |
| Mutations.FirstTeamIndex | samaggi-games-admin/api/app.py:558-563 | The team row looked up is the first Team row of the team university in the sport. |
| Mutations.WithoutPlayerMembers | samaggi-games-admin/api/app.py:546 | Deleting by player id leaves exactly the rows with another id. |
| Mutations.WithoutTeamMembers | samaggi-games-admin/api/app.py:564-565 | Deleting by team id leaves exactly the rows with another id. |
| Mutations.WithoutPlayerAt | samaggi-games-admin/api/app.py:546 | Where ids are distinct, deleting a row's id removes that row and keeps the others in order. |
| Mutations.WithoutTeamAt | samaggi-games-admin/api/app.py:564-565 | Where ids are distinct, deleting a row's id removes that row and keeps the others in order. |
| Mutations.WithoutPairMembers | samaggi-games-admin/api/app.py:558-565 | Deleting a team's rows leaves exactly the Team rows of other teams, so the team has no row left. |
| Stores.Store.AddPlayer | samaggi-games-admin/api/app.py:335-517 | Write by write, the new tables and the outcome are those of `AddPlayerSpec` on the old tables. |
| Stores.Store.DeletePlayer | samaggi-games-admin/api/app.py:520-581 | The new tables and the outcome are those of `DeletePlayerSpec` on the old tables. |
| Stores.Store.EditPlayer | samaggi-games-admin/api/app.py:584-642 | The new tables and the outcome are those of `EditPlayerSpec` on the old tables. |
| AddProperties.AddOneFrame | samaggi-games-admin/api/app.py:436-509 | One pass of the player loop leaves the counts alone and only appends rows. An appended Team row is a sub-roster row of this team and sport, and an appended player has the supplied id. The pass stops only with 400 or 500. |
| AddProperties.AddOneMeaning | samaggi-games-admin/api/app.py:450-509 | A pass that goes through appends exactly the player under the team, and a sub-roster row exists for the player's university. A Team row is written exactly when that university had none. |
| AddProperties.AddFromFrame | samaggi-games-admin/api/app.py:436-509 | The whole loop leaves the counts alone, only appends rows, and writes only sub-roster rows with supplied ids. |
| AddProperties.AddFromWrites | samaggi-games-admin/api/app.py:436-509 | A loop that finishes wrote entry m as the m-th new player row, under the m-th id, with its sub-roster row present. |
| AddProperties.AddFromKeepsCovered | samaggi-games-admin/api/app.py:450-509 | Whatever step the loop stops at, every player keeps a sub-roster row. |
| AddProperties.AddFromKeepsCounts | samaggi-games-admin/api/app.py:450-490 | Once the team is fielded, sub-roster rows field no new team university, so the counts stay consistent. |
| AddProperties.AddFromKeepsIdsUnique | samaggi-games-admin/api/app.py:440-501 | With fresh ids, the loop keeps ids primary keys. |
| AddProperties.TeamCreationGated | samaggi-games-admin/api/app.py:356-434 | If the team is already fielded in the sport, no founding row is written and the counts are untouched. Otherwise a full sport is refused with no write at all, and a successful registration wrote exactly one founding row, whose own university is the team university, and raised the count by one. |
| AddProperties.PlayersRegistered | samaggi-games-admin/api/app.py:436-517 | A successful registration appended every listed player in order, under the team university and sport, each with a sub-roster row. |
| AddProperties.AddKeepsRostersCovered | samaggi-games-admin/api/app.py:335-517 | Whatever step the handler stops at, every player keeps a sub-roster row. |
| AddProperties.FoundKeepsCounts | samaggi-games-admin/api/app.py:356-434 | A founding that completes leaves counts consistent and the team fielded. Every stop before the founding row is written leaves the store as it was. |
| AddProperties.AddKeepsCountsConsistent | samaggi-games-admin/api/app.py:335-517 | Unless the count increment is the step that fails, each sport's count still equals the number of team universities it fields. |
| AddProperties.AddKeepsIdsUnique | samaggi-games-admin/api/app.py:335-517 | With ids that `uuid4` has not handed out before, ids stay primary keys. |
| RemovalProperties.DeleteAbsentChangesNothing | samaggi-games-admin/api/app.py:526-536 | An unknown player id leaves the tables unchanged and answers "Cannot find player". |
| RemovalProperties.DeleteUnfold | samaggi-games-admin/api/app.py:538-557 | Deleting a player removes its row, then removes the team only if no player of the pair remains. |
| RemovalProperties.RemoveTeamMeaning | samaggi-games-admin/api/app.py:554-573 | The team removal deletes every Team row of the team and no other row, and lowers the sport's count by one. It raises where a lookup finds nothing, and it never touches Players. |
| RemovalProperties.RemoveFirstTeamRowMeaning | samaggi-games-admin/api/app.py:558-573 | The removal as written deletes exactly the team's first Team row and lowers the sport's count by one. It raises where a lookup finds nothing, and it never touches Players. |
| RemovalProperties.DeleteRemovesPlayer | samaggi-games-admin/api/app.py:545-557 | Deleting removes exactly that player's row. While a player of the pair remains, nothing else changes. |
| RemovalProperties.DeleteLastPlayerNoTeam | samaggi-games-admin/api/app.py:554-563 | If the last player goes and the pair has no Team row, the lookup raises with Teams and SportCount untouched. |
| RemovalProperties.DeleteLastPlayer | samaggi-games-admin/api/app.py:554-573 | If the last player of a pair goes, every Team row of the pair goes and no other. When the sport has a count, it drops by one and every progress flag is set; when it has none, the handler raises. |
| RemovalProperties.DeleteKeepsRostersCovered | samaggi-games-admin/api/app.py:546-565 | Whatever the outcome, every remaining player keeps a sub-roster row. |
| RemovalProperties.DeleteKeepsCountsConsistent | samaggi-games-admin/api/app.py:554-573 | Deleting keeps each sport's count equal to the number of team universities it fields, whatever the outcome. |
| RemovalProperties.AlliedTeamConsistent | samaggi-games-admin/api/app.py:554-573 | A team with a founding row and one allied row, and one player, is a consistent store. |
| RemovalProperties.DeleteAlliedPlayer | samaggi-games-admin/api/app.py:546-557 | Deleting that team's only player leaves no player of the pair, so the team removal runs. |
| RemovalProperties.RemoveFirstRowAlliedTeam | samaggi-games-admin/api/app.py:558-573 | The removal as written deletes the founding row only and lowers the count to zero. |
| RemovalProperties.FirstRowLeavesAlliedRows | samaggi-games-admin/api/app.py:558-573 | That removal leaves the allied row behind with a count of zero, so the count no longer matches the fielded team universities. |
| RemovalProperties.FirstRowRemovalDrifts | samaggi-games-admin/api/app.py:558-573 | As written, whenever a team has a second Team row, removing the first row alone turns a consistent store into an inconsistent one. |
| RemovalProperties.DeleteRemovesAlliedRows | samaggi-games-admin/api/app.py:554-573 | The corrected deletion of that player deletes both rows of the team and lowers the count to zero. |
| RemovalProperties.DeleteAsWrittenCrashesOnLastPlayer | samaggi-games-admin/api/app.py:563 | As written, deleting the last player of a pair raises right after the player row is deleted, with no team or count touched. The corrected lookup succeeds whenever the team row and the count exist. |
| RemovalProperties.DeleteKeepsIdsUnique | samaggi-games-admin/api/app.py:546-565 | Deleting keeps ids primary keys. |
| RemovalProperties.EditFrame | samaggi-games-admin/api/app.py:584-642 | Editing never touches Teams or SportCount. An unknown id changes nothing. |
| RemovalProperties.EditReplacesPlayer | samaggi-games-admin/api/app.py:600-627 | Editing removes exactly the old row. With every detail given and the write succeeding, it appends one row with the new details under the new id. Otherwise the player is left deleted, with a 400 or 500. |
| RemovalProperties.EditKeepsIdsUnique | samaggi-games-admin/api/app.py:600-627 | With a new id, editing keeps ids primary keys. |
| RemovalProperties.EditUncoversRoster | samaggi-games-admin/api/app.py:600-627 | Editing writes no sub-roster row. Moving a player to a team under which their university has no row always leaves that player uncovered. |
| RemovalProperties.EditCanUncoverRoster | samaggi-games-admin/api/app.py:618-627 | Editing writes no sub-roster row, so for a covered store it can leave a player without one. |
| Statistics.Cast | samaggi-games-admin/api/app.py:47-51 | A conversion that succeeds leaves the value as it was, and `int` of a number always succeeds. |
| Statistics.Full | samaggi-games-admin/api/app.py:181 | The full sports are exactly those whose team count equals their maximum. |
| Statistics.FullTeamsMeaning | samaggi-games-admin/api/app.py:181 | On SportCount rows, `where_eq("max_teams", "team_count", eval_as="NUMBER")` leaves every row as it was and returns exactly the full sports' rows in scan order. |
| Statistics.MainUniversities | samaggi-games-admin/api/app.py:178 | The distinct team universities of Teams, each once, as many as there are. |
| Statistics.SubRosterUniversities | samaggi-games-admin/api/app.py:179 | The distinct sub-roster universities of Teams, each once, as many as there are. |
| Statistics.PlayerNames | samaggi-games-admin/api/app.py:180 | The distinct player names, each once, as many as there are. |
| Statistics.StatisticsAsWrittenFails | samaggi-games-admin/api/app.py:177-186 | As written, the derivation raises `KeyError("main_uni")` as soon as Teams has a row, and `KeyError("player_name")` when only Players has one. It answers only for an empty tournament. |
| Statistics.StatisticsMeaning | samaggi-games-admin/api/app.py:176-186 | With the attributes the handlers write, the derivation always answers. It gives the distinct team universities, sub-roster universities and player names, each list with its count, plus the full sports' rows, and it leaves the SportCount rows as they were. |

## Left out

- **HTTP layer:** the response envelope, the CORS headers, JSON encoding and `DecimalEncoder` are not modelled. The model's answers are the `Outcome`, `CodeCheck`, `Verdict` and `Stats` values.
- **`get_sports` and `get_table`:** these are plain scans with nothing to state beyond the filter chain, so they are not modelled.
- **The store client:** boto3 and the `DynamoDBInterface` database client are not part of this model. Its calls are modelled as follows:
  - a secondary-index read and `filter` select rows by attribute equality, in table order;
  - `unique` keeps first occurrences in order;
  - `delete` by key removes every row with that key;
  - a SportCount lookup that finds no row raises (the `count_data[0]` and the decrement are modelled as `Crashed`).
- **Concurrency:** no two handlers interleave. Each handler runs on its own, and its writes are not atomic: a stop keeps the earlier writes, as in the source.
- **`uuid4`:** the new ids are the `IdSupply` parameter, or `newId` for `edit_player`. The properties about ids require them to be new and distinct.
- **Request parsing:** `Arguments` parsing of the request body (support.py) is not modelled. In `add_player`, `delete_player` and `edit_player` a parameter is an `Option`, and a missing parameter read outside any `try` is modelled as `Crashed`.
- Eligibility.TeamExists, Universities.CheckCode, Schedule.SportClash and Eligibility.IsPlayerValid are modelled only on requests carrying every parameter they read. Not modelled:
  - the 400 answer of `team_exists` when `player_university` or `sport` is missing (app.py:112-123);
  - the uncaught `KeyError` of `check_code` without `code` (app.py:99);
  - the uncaught `KeyError` of `sport_clash` without `sport`, `name` or `player_university` (app.py:211-213);
  - the uncaught `KeyError` of `is_player_valid` without `team_university`, `player_university` or `sport` (app.py:265-267).
- **The university lists:** `university_names` and `university_names_simplified` are parameters of `CheckCode`; support.py in this repository does not define them. Universities.CheckCode requires the simplified list to be no longer than the list of full names. With a shorter list of full names, a code found late in the simplified list would make the source raise `IndexError` at app.py:106, and that is not modelled.
- **Store reads outside any `try`:** the reads at app.py:351, 450, 526, 538, 549 and 558 are assumed to succeed. A failing read there would be an uncaught exception, and that is not modelled.
- Universities.Lower: lower-cases the ASCII letters only, not the full Unicode case mapping of `str.lower`.
- **The timetable file:** reading `timetable.csv` and splitting "HH:MM" with `int` are not modelled. The timetable is a map from sport to clock times already parsed.
- Schedule.SportClash: `int` on a malformed time is not modelled. `datetime` refusing an hour or minute is modelled, as `InvalidTime`.
- QueryResponses.QueryResponse.WhereEqIn: Python's `int`, `str` and `list` conversions are the `cast` parameter, not modelled.
- Statistics.Cast: covers only `int` of a number and `str` of a string. The `int` of numeric text and the `str` of a number are not modelled, because the SportCount rows hold DynamoDB numbers.
- **Stores.Store.DeletePlayer:** the store writes in `delete_player` are outside any `try`, so a failing write would be an uncaught exception. Store faults are not injected there.
- **Stores.Store.EditPlayer:** store faults are not injected on the delete in `edit_player` either. Only the guarded rewrite of the player can fail.
- **Stores.Store.AddPlayer:** does not call `is_player_valid` or `sport_clash`, exactly as `add_player` does not. The separate eligibility lemmas show what calling it first would keep.
- AddProperties.AddKeepsCountsConsistent: does not cover a failure of the count increment itself. The founding row is then written without the count being raised, which is what the source does.
- **`data_statistics`:** table initialisation, the scan failures (500) and the `raw_data` echo of the players and teams scans are not modelled.
- **Disqualification and quota rules beyond the three in `is_player_valid`:** not modelled. The source does not enforce any.

## Findings

| source | as written | input that shows it | evidently intended | confidence | as-written member | corrected member |
|---|---|---|---|---|---|---|
| samaggi-games-admin/api/app.py:563 | The team lookup reads `team_data`, which `delete_player` never assigns (it assigns `uni_teams`). Deleting the last player of a team raises `NameError` after the player row is gone, so the team row and the count are never updated. | A store with one player `p1` in KCL Football and KCL's Football Team row; delete `p1`. | Look the team up in `uni_teams`, delete the team's Team rows and lower the count. | not executed | Mutations.DeletePlayerAsWritten, RemovalProperties.DeleteAsWrittenCrashesOnLastPlayer | Mutations.DeletePlayerSpec, RemovalProperties.DeleteLastPlayer |
| samaggi-games-admin/api/app.py:290 | `similar_players_uni == player_uni` compares a list with a string, which is never equal. A university that already fields its own team is always told it plays "for another team". | Players KCL/KCL and UCL/UCL in Football; UCL asks to play for KCL. | Compare the first team university, `similar_players_uni[0]`, with `player_uni`. | not executed | Eligibility.IsPlayerValidAsWritten, Eligibility.AlreadyHasTeamExample, Eligibility.AsWrittenNeverAlreadyHasTeam | Eligibility.IsPlayerValid, Eligibility.VerdictMeaning |
| samaggi-games-admin/api/app.py:178-180 | The statistics read `main_uni`, `uni` and `player_name`. No handler writes those attributes: Teams rows carry `team_university` and `university`, and Players rows carry `name`. | Any Teams row as `add_player` writes it gives `KeyError('main_uni')`, and the handler answers 500. | Read `team_university`, `university` and `name`. | not executed | Statistics.DataStatisticsAsWritten, Statistics.StatisticsAsWrittenFails | Statistics.DataStatistics, Statistics.StatisticsMeaning |
| samaggi-games-admin/api/app.py:558-573 | Reading `uni_teams` for the first finding's lookup, the handler deletes only the first Team row of the team university in the sport, `filter("sport", sport)[0]`, yet lowers the sport's count by one. The sub-roster rows of other universities stay, so the team university is still fielded with its count already lowered. | KCL's Football team with its founding row and an allied row for UCL, count 1, and one player from UCL; delete that player. | Delete every Team row of the team when its last player goes, so the count again equals the number of team universities fielded. | not executed | Mutations.RemoveFirstTeamRow, RemovalProperties.FirstRowRemovalDrifts | Mutations.RemoveTeam, RemovalProperties.DeleteKeepsCountsConsistent |
