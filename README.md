# Game-night tracker: query rewriting, read-only guard and store writes

This project models the core of a Streamlit app that tracks a board-game group's seasons, game nights, rounds, winners and penalties (`streamlit_app.py`). The model is written in Dafny. It covers:

- **Dialect rewriting** (`translate.dfy`, module `Translate`).
  - Queries are written for SQLite.
  - When the app runs against PostgreSQL, `execute_query` rewrites `?` placeholders to `%s`.
  - `read_sql_query` also rewrites `GROUP_CONCAT(` to `string_agg(` and the `, ', ')` separator argument to `, ', ' ORDER BY 1)`.
  - Both use Python's `str.replace`, which is modelled as a left-to-right, non-overlapping replacement (`ReplaceAll`).
- **The read-only guard** (`guard.dfy`, module `ReadOnlyGuard`).
  - The admin's direct-SQL box runs a query only when `q.strip().upper().startswith("SELECT")`.
  - The model includes the characters `str.strip()` removes and the characters whose upper case can spell `SELECT`.
- **The store** (`tables.dfy`, module `Tables`).
  - Each table is a map from its integer key to its row, plus the next key it will hand out.
  - The store holds players, seasons, games, game nights, rounds, round winners, penalties and the settings key/value table.
  - Its invariant `Consistent` covers: keys below the next key; unique player, season and game names; at most one active season; and no foreign key pointing at a missing row.
- **The user actions as functions** (`actions.dfy`, module `Actions`).
  - Settings provisioning and the default-penalty update.
  - Adding and renaming players.
  - Creating and activating seasons.
  - Adding and editing games.
  - Creating nights, recording rounds with winners, and recording, editing and deleting penalties.
  - The cascade deletes of rounds, players, games and nights.
  - Each action returns the new store and what the user is told: applied, ignored for an empty name, or rejected with a reason.
- **The one-off import of the first season** (`seasonimport.dfy`, module `SeasonImport`).
  - The season row is found or created inactive.
  - The guard refuses a second run.
  - Listed players and games are found or created.
  - Nights are inserted with rounds numbered from 1 within each night, plus their winners and absence penalties.
- **The store as an object** (`store.dfy`, class `Store.Store`).
  - Each table is a field.
  - Each action is a method that reassigns the fields statement by statement, as the source's SQL statements do.
  - Winners and imported rows are inserted in loops.
  - Every method is proved to leave exactly the state the matching `Actions`/`SeasonImport` function describes.
  - Every user-action method is also proved to keep `Valid()`, the `Consistent` invariant. For `RecordRound` and `RecordPenalty` this holds when the rows they refer to exist.
  - The internal helpers that insert winners and imported rows (`InsertWinners`, `InsertRound`, `EnsurePlayers`, `EnsureGames`, `ImportRounds`, `ImportPenalties`, `ImportNight`, `ImportNights`) promise only the exact state. `ImportSeasonOne` keeps `Valid()` across them.

A `UNIQUE` violation raises `IntegrityError` before `commit()`. The connection is then closed without committing, so the store is left as it was. The model therefore checks the name before writing, and a rejected action leaves the store unchanged. The store model follows the SQLite back end; what differs under PostgreSQL is listed under "Left out".

## Model

| member | source | states |
|---|---|---|
| Translate.ReadQueryText | streamlit_app.py:115-136 | With PostgreSQL off the query is passed unchanged. With it on, no `?` is left, no `GROUP_CONCAT(` is left, and no bare `, ', ')` separator is left. |
| Translate.ExecuteQueryText | streamlit_app.py:104-113 | Placeholders are rewritten only when parameters are given and PostgreSQL is on. The result is then the per-character reference expansion, with no `?` left. Otherwise the query is unchanged. |
| Translate.ReplaceAll | streamlit_app.py:108 | Python's `str.replace`, a left-to-right replacement of non-overlapping occurrences. `FirstReplacement`, `ReplaceFixesFree` and `ReplaceLeavesFree` state its behaviour. |
| Translate.ToPostgres | streamlit_app.py:124-126 | The three rewrites in the source's order. `NoPlaceholderLeft`, `NoGroupConcatLeft`, `NoBareSeparatorLeft` and `ToPostgresIdempotent` state its behaviour. |
| Translate.PlaceholdersExpanded | streamlit_app.py:108 | Replacing every `?` by `%s` with `str.replace` equals the character-by-character reference expansion. |
| Translate.ReplaceFixesFree | streamlit_app.py:124-126 | Replacing a pattern that does not occur leaves the text unchanged. |
| Translate.FirstReplacement | streamlit_app.py:124-126 | Before the first replaced occurrence, the output agrees with the input. A divergence at position j means the pattern occurs at j. |
| Translate.ReplaceLeavesFree | streamlit_app.py:124-126 | After a replace, the pattern is gone. A pattern that is absent stays absent, provided the replacement cannot create it. |
| Translate.OrderedSeparatorSeparated | streamlit_app.py:126 | `, ', ' ORDER BY 1)` contains no `, ', ')` and cannot form one with its neighbours. |
| Translate.NoPlaceholderLeft | streamlit_app.py:124 | No `?` survives the PostgreSQL rewrite. |
| Translate.NoGroupConcatLeft | streamlit_app.py:125 | No `GROUP_CONCAT(` survives the rewrite. |
| Translate.NoBareSeparatorLeft | streamlit_app.py:126 | No unordered `, ', ')` separator survives the rewrite. |
| Translate.ToPostgresIdempotent | streamlit_app.py:123-126 | Rewriting an already rewritten query changes nothing. |
| ReadOnlyGuard.TrimStart | streamlit_app.py:1430 | Only whitespace is dropped, and only from the front. The result starts with a non-blank character or is empty. |
| ReadOnlyGuard.TrimEnd | streamlit_app.py:1430 | Only whitespace is dropped, and only from the end. The result ends with a non-blank character or is empty. |
| ReadOnlyGuard.Strip | streamlit_app.py:1430 | `str.strip()`: the result is no longer than the input, and it is empty or starts and ends with a non-blank character. |
| ReadOnlyGuard.StripSpec | streamlit_app.py:1430 | What `Strip` keeps is a contiguous piece of the input, and everything before and after it is whitespace. With `Strip`'s own contract, this pins the result down to `str.strip()`. |
| ReadOnlyGuard.UpperChar | streamlit_app.py:1430 | Upper-casing turns no character into whitespace and no whitespace into a non-blank character. |
| ReadOnlyGuard.Upper | streamlit_app.py:1430 | Upper-casing keeps the length, and each character of the result is `UpperChar` of the character at the same position. `UpperCharSpells` states which characters can spell `SELECT`. |
| ReadOnlyGuard.UpperCharSpells | streamlit_app.py:1430 | A character upper-cases to the k-th letter of `SELECT` exactly when it is one of that letter's spellings. |
| ReadOnlyGuard.IsSelectQuery | streamlit_app.py:1430 | The guard itself. `GuardSpec` states in both directions which queries it accepts. |
| ReadOnlyGuard.GuardSpec | streamlit_app.py:1430 | The guard accepts a query iff its first six characters after leading whitespace spell `SELECT` in any case. Both directions are proved. |
| ReadOnlyGuard.GuardIgnoresLeadingWhitespace | streamlit_app.py:1430 | Leading whitespace does not change the verdict. |
| ReadOnlyGuard.GuardIgnoresCase | streamlit_app.py:1430 | Queries that upper-case to the same text get the same verdict. |
| ReadOnlyGuard.GuardAcceptsAnySuffix | streamlit_app.py:1430 | Any text appended to an accepted query is accepted too. |
| ReadOnlyGuard.StackedStatementPasses | streamlit_app.py:1430 | `SELECT 1; DELETE FROM players` passes the guard. |
| ReadOnlyGuard.LowerCaseAccepted | streamlit_app.py:1430 | A lower-case `select` after a newline and spaces is accepted. |
| ReadOnlyGuard.OtherStatementsRejected | streamlit_app.py:1430 | `DELETE …` is rejected, and so is a query starting with `WITH`. |
| Tables.Insert | streamlit_app.py:145-202 | An insert gives the row the next key, which is then used up. Every other existing row keeps its key and contents, and no other key appears. A keyed table stays keyed and gains exactly that key. |
| Tables.Delete | streamlit_app.py:1137-1139 | Exactly the rows with the given keys disappear. The surviving rows keep their contents and the next key is unchanged. |
| Tables.Update | streamlit_app.py:1175 | An update by key replaces only that row. Every other row and the key set are unchanged. |
| Tables.PlayerNamed | streamlit_app.py:1545 | Looking up a present name yields the key of a row with that name. |
| Tables.SeasonNamed | streamlit_app.py:1529-1530 | Looking up a present season name yields the key of a row with that name. |
| Tables.GameNamed | streamlit_app.py:1561 | Looking up a present game name yields the key of a row with that name. |
| Tables.InsertPlayerNames | streamlit_app.py:490 | Inserting a player adds exactly its name to the set of names. |
| Tables.InsertSeasonNames | streamlit_app.py:546 | Inserting a season adds exactly its name to the set of names. |
| Tables.InsertGameNames | streamlit_app.py:608 | Inserting a game adds exactly its name to the set of names. |
| Tables.EmptyDbConsistent | streamlit_app.py:138-202 | The freshly created schema satisfies the store invariant. |
| Tables.Consistent | streamlit_app.py:145-265 | The schema's key, UNIQUE and foreign-key constraints, plus at most one active season. `EmptyDbConsistent` and each action's `Consistent(db) ==> Consistent(r)` clause state that it holds. |
| Actions.ProvisionSettings | streamlit_app.py:271-277 | Afterwards the default-penalty key is present, and it is set to `10` when it was absent. No stored value is overwritten, no other key is added, and nothing else changes. |
| Actions.ProvisionIdempotent | streamlit_app.py:271-277 | Provisioning twice is the same as provisioning once. |
| Actions.UpdateDefaultPenalty | streamlit_app.py:1481-1487 | Only the default-penalty value changes, and only if the key exists. The key set is kept. |
| Actions.AddPlayer | streamlit_app.py:478-497 | An empty name is ignored. A name already in use is rejected and nothing changes. Otherwise exactly one player with that name is added under the next key. Every existing player keeps their row, no other table changes, and the invariant is kept. |
| Actions.RenamePlayer | streamlit_app.py:1172-1181 | The rename is rejected iff another player has the name. A refused rename, or one for an absent id, leaves the store as it was. Otherwise only that player's name changes. No key appears or disappears, the next key is unchanged, and the invariant is kept. |
| Actions.Deactivated | streamlit_app.py:544 | No season stays active. Every other column and the key set are kept. |
| Actions.DeactivatedKeepsNames | streamlit_app.py:544 | Deactivating every season keeps the set of names. |
| Actions.CreateSeason | streamlit_app.py:536-556 | An empty name is ignored. A taken name is rejected, including with "make active", and nothing changes. Otherwise one season is added under the next key. Every other season keeps all its columns except the active flag, and that flag is kept too unless "make active" is ticked. An active new season becomes the only active one. The invariant is kept. |
| Actions.ActivateSeason | streamlit_app.py:576-580 | The chosen season is the only active one, and no other column changes. |
| Actions.ActiveSeason | streamlit_app.py:286-301 | It is None iff no season is active. Otherwise it is an active season, the lowest key among them. |
| Actions.ActiveSeasonIsTheActiveOne | streamlit_app.py:286-301 | With at most one active season, the lookup returns exactly that season. |
| Actions.AddGame | streamlit_app.py:602-616 | An empty name is ignored. A taken name is rejected and nothing changes. Otherwise one game with the given points and description is added under the next key, and every existing game keeps its row. The invariant is kept. |
| Actions.UpdateGame | streamlit_app.py:638-648 | Only that game's points and description change, and its name is kept. No key appears or disappears, the next key is unchanged, and the invariant is kept. |
| Actions.EditGame | streamlit_app.py:1304-1313 | The edit is rejected iff another game has the new name. A refused edit, or one for an absent id, leaves the store as it was. Otherwise only that game changes. No key appears or disappears, the next key is unchanged, and the invariant is kept. |
| Actions.AddNight | streamlit_app.py:655-721 | It is refused without an active season, a player or a game. Otherwise one night with the given date and notes, belonging to the active season, is added under the next key. Every existing night keeps its row, and the invariant is kept. |
| Actions.AddWinners | streamlit_app.py:791-793 | One winner row per listed player, in order, all referring to the round. Existing rows are kept. |
| Actions.InsertRound | streamlit_app.py:785-793 | One round row is added. Then one winner row per winner refers to the new round's key, and nothing else changes. |
| Actions.InsertRoundWinners | streamlit_app.py:788-793 | The winner rows of a recorded round take the next winner keys in the order of the winners, and every earlier winner row is kept. |
| Actions.InsertRoundConsistent | streamlit_app.py:785-793 | A round for an existing night and game, with existing players as winners, keeps the invariant. |
| Actions.RecordRound | streamlit_app.py:776-795 | An empty winner list is rejected and nothing is written. Otherwise exactly one round plus one winner row per winner is written. Every existing round and winner row is kept unchanged. |
| Actions.RecordPenalty | streamlit_app.py:854-862 | Exactly one penalty row with the given night, player, type, amount and reason is added under the next key. Every earlier penalty keeps its row, and no other table changes. |
| Actions.UpdatePenalty | streamlit_app.py:1258-1265 | Only that penalty's amount and reason change. No key appears or disappears, and the next key is unchanged. |
| Actions.DeletePenalty | streamlit_app.py:1270-1274 | That penalty is gone. Every other penalty keeps its row, and no row is added. |
| Actions.DeleteRound | streamlit_app.py:1134-1140 | The round and all its winner rows are gone. Every unrelated round and winner row is kept unchanged, so no winner is orphaned. The next keys of the tables it deletes from are unchanged. |
| Actions.DeletePlayer | streamlit_app.py:1208-1214 | The player, their winner rows and their penalties are gone. Every unrelated row is kept unchanged, and the invariant holds. The next keys of the tables it deletes from are unchanged. |
| Actions.DeleteGame | streamlit_app.py:1329-1338 | The game, its rounds and those rounds' winners are gone. Every unrelated row is kept unchanged, and the invariant holds. The next keys of the tables it deletes from are unchanged. |
| Actions.DeleteNight | streamlit_app.py:1379-1390 | The night, its rounds, their winners and its penalties are gone. Every unrelated row is kept unchanged, and the invariant holds. The next keys of the tables it deletes from are unchanged. |
| SeasonImport.EnsurePlayers | streamlit_app.py:1538-1549 | Every listed player exists afterwards, and the returned map sends each name to its row. Existing rows are kept and names stay unique. `EnsurePlayersRows` states which rows are created. |
| SeasonImport.EnsurePlayersRows | streamlit_app.py:1538-1549 | The created players are the listed names that are neither in the table nor listed earlier. They take the next keys in list order. Every earlier row is kept and no other key appears. |
| SeasonImport.EnsureGames | streamlit_app.py:1551-1564 | Every listed game exists afterwards, and the returned map sends each name to its row. Existing rows are kept and names stay unique. `EnsureGamesRows` and `EnsureGamesCreated` state the created rows. |
| SeasonImport.EnsureGamesRows | streamlit_app.py:1551-1564 | One game row is created per listed name that is neither in the table nor listed earlier. It holds that record's name and points per win and no description. The created rows take the next keys in list order. Every earlier row is kept and no other key appears. |
| SeasonImport.EnsureGamesCreated | streamlit_app.py:1555-1564 | For a listed name not already in the table, the mapped row is `(name, points of the first record listing it, no description)`. A later record with the same name is only looked up. |
| SeasonImport.WinnerIds | streamlit_app.py:1651-1653 | Each winner name is resolved to its player key, in order. |
| SeasonImport.ImportRounds | streamlit_app.py:1642-1653 | One round key is used per listed round, and only rounds and winners change. Which rows are added is stated by `ImportRoundsNumbered` and `ImportRoundsWinners`. |
| SeasonImport.ImportRoundsNumbered | streamlit_app.py:1642-1647 | The i-th imported round of a night gets the next key, that night, its game and round number i (from 1). Every earlier round is kept and no other key appears. |
| SeasonImport.ImportRoundsWinners | streamlit_app.py:1647-1653 | Round by round, each listed winner gets a winner row, under the next winner keys, holding the winner's player key and the key of that round. Every earlier winner row is kept and no other key appears. |
| SeasonImport.ImportRoundsConsistent | streamlit_app.py:1642-1653 | Importing a night's rounds keeps the invariant. |
| SeasonImport.ImportPenalties | streamlit_app.py:1655-1660 | One penalty key is used per listed penalty, and only penalties change. Which rows are added is stated by `ImportPenaltiesRows`. |
| SeasonImport.ImportPenaltiesRows | streamlit_app.py:1655-1660 | The i-th listed penalty becomes, under the next penalty key, an absence penalty with the import note, for that night, the player's key and the listed amount. Every earlier penalty is kept and no other key appears. |
| SeasonImport.ImportPenaltiesConsistent | streamlit_app.py:1655-1660 | Importing absence penalties keeps the invariant. |
| SeasonImport.NightRow | streamlit_app.py:1636-1638 | One night row in the season, carrying the import note, and nothing else changes. The invariant is kept when the season exists. |
| SeasonImport.ImportNight | streamlit_app.py:1634-1660 | One night row with the import note is added, plus one round per listed round. Players, seasons, games and settings are untouched. The rounds, winners and penalties added are stated by `ImportNightRounds`, `ImportNightWinners` and `ImportNightPenalties`. |
| SeasonImport.ImportNightRounds | streamlit_app.py:1639-1649 | The night's rounds are added under the next round keys, in list order, numbered from 1 and pointing at the new night. Every earlier round is kept. |
| SeasonImport.ImportNightWinners | streamlit_app.py:1647-1653 | The night's winner rows are added under the next winner keys, round by round. Every earlier winner row is kept. |
| SeasonImport.ImportNightPenalties | streamlit_app.py:1655-1660 | The night's absence penalties are added under the next penalty keys, in list order, pointing at the new night. Every earlier penalty is kept. |
| SeasonImport.ImportNightNumbering | streamlit_app.py:1642-1647 | The new night's round numbers are exactly 1 to the number of listed rounds. |
| SeasonImport.ImportNights | streamlit_app.py:1634-1661 | One night is added per listed night, and one round per listed round across all nights. Players, seasons, games and settings are untouched. The night rows are stated by `ImportNightsSeason`. The other added rows are stated by `ImportNightsRounds`, `ImportNightsWinners` and `ImportNightsPenalties`. |
| SeasonImport.ImportNightsRounds | streamlit_app.py:1634-1661 | Night by night, the rounds are added under the next round keys, as for one night. Every earlier round is kept and no other key appears. |
| SeasonImport.ImportNightsWinners | streamlit_app.py:1634-1661 | Night by night, the winner rows are added under the next winner keys, as for one night. Every earlier winner row is kept and no other key appears. |
| SeasonImport.ImportNightsPenalties | streamlit_app.py:1634-1661 | Night by night, the absence penalties are added under the next penalty keys, as for one night. Every earlier penalty is kept and no other key appears. |
| SeasonImport.ImportNightsConsistent | streamlit_app.py:1634-1661 | Importing all nights keeps the invariant. |
| SeasonImport.ImportNightsSeason | streamlit_app.py:1636-1638 | The imported nights take the next night keys in list order. Each is `(season, listed date, import note)`. Every earlier night is kept and no other key appears. |
| SeasonImport.SeasonOneId | streamlit_app.py:1522-1531 | It is the existing season-one row, or the key a fresh insert gets. |
| SeasonImport.WithSeasonOne | streamlit_app.py:1522-1531 | An existing season-one row is left as is. Otherwise an inactive season one is inserted under the next key and every other season is kept. Either way the name set gains the season-one name and the active seasons are unchanged. |
| SeasonImport.AlreadyRun | streamlit_app.py:1533-1536 | The refusal test: the season-one row has game nights. `ImportSeasonOne` is refused exactly when it holds, and `ImportRunsOnce` shows that it holds after an import. |
| SeasonImport.ImportSeasonOne | streamlit_app.py:1516-1665 | A second run is refused iff the season already has nights, and then nothing is written. The import is applied iff it has not run and the data resolves. |
| SeasonImport.ImportSeasonOneApplied | streamlit_app.py:1522-1661 | On an applied import, the seasons table is `WithSeasonOne` (the season is added inactive, or kept). The players and games tables are those `EnsurePlayers` and `EnsureGames` build. The nights are appended as in `ImportNightsSeason`: one per listed night, in the season, with its date and the import note. One round is added per listed round. The active season and the settings are unchanged. `ImportSeasonOneRows` states the rounds, winners and penalties. |
| SeasonImport.ImportSeasonOneRows | streamlit_app.py:1634-1661 | An applied import adds, under the next keys and night by night, each night's rounds (numbered from 1, naming the game), their winner rows and the night's absence penalties. Every earlier round, winner and penalty row is kept, and no other key appears. |
| SeasonImport.ImportSeasonOneConsistent | streamlit_app.py:1516-1665 | The import keeps the invariant. |
| SeasonImport.ImportSeasonOneSeasonNight | streamlit_app.py:1522-1536 | After an applied import of at least one night, the season-one key is unchanged and the first imported night belongs to it. |
| SeasonImport.ImportRunsOnce | streamlit_app.py:1533-1536 | After an applied import of at least one night, running it again is refused. |
| Store.Store.constructor | streamlit_app.py:138-277 | A new store holds the empty schema plus the provisioned default penalty, and is valid. |
| Store.Store.ProvisionSettings | streamlit_app.py:271-277 | The settings become what `Actions.ProvisionSettings` describes, and validity is kept. |
| Store.Store.UpdateDefaultPenalty | streamlit_app.py:1481-1487 | The new state is `Actions.UpdateDefaultPenalty` of the old one. |
| Store.Store.AddPlayer | streamlit_app.py:478-497 | The new state and outcome are those of `Actions.AddPlayer`, and validity is kept. |
| Store.Store.RenamePlayer | streamlit_app.py:1172-1181 | The new state and outcome are those of `Actions.RenamePlayer`, and validity is kept. |
| Store.Store.CreateSeason | streamlit_app.py:536-556 | It deactivates the seasons, then inserts. The result is `Actions.CreateSeason`, and validity is kept. |
| Store.Store.ActivateSeason | streamlit_app.py:576-580 | The two updates give `Actions.ActivateSeason`, and validity is kept. |
| Store.Store.AddGame | streamlit_app.py:602-616 | The new state and outcome are those of `Actions.AddGame`. |
| Store.Store.UpdateGame | streamlit_app.py:638-648 | The new state is `Actions.UpdateGame`. |
| Store.Store.EditGame | streamlit_app.py:1304-1313 | The new state and outcome are those of `Actions.EditGame`. |
| Store.Store.AddNight | streamlit_app.py:655-721 | The new state and outcome are those of `Actions.AddNight`. |
| Store.Store.InsertWinners | streamlit_app.py:791-793 | The loop adds the winner rows `Actions.AddWinners` describes, and nothing else. |
| Store.Store.InsertRound | streamlit_app.py:785-793 | The round insert and the winner loop give `Actions.InsertRound`. |
| Store.Store.RecordRound | streamlit_app.py:776-795 | The new state and outcome are those of `Actions.RecordRound`. Validity is kept when the night, game and winners exist. |
| Store.Store.RecordPenalty | streamlit_app.py:854-862 | The new state is `Actions.RecordPenalty`. |
| Store.Store.UpdatePenalty | streamlit_app.py:1258-1265 | The new state is `Actions.UpdatePenalty`. |
| Store.Store.DeletePenalty | streamlit_app.py:1270-1274 | The new state is `Actions.DeletePenalty`. |
| Store.Store.DeleteRound | streamlit_app.py:1134-1140 | The two deletes give `Actions.DeleteRound`, and validity is kept. |
| Store.Store.DeletePlayer | streamlit_app.py:1208-1214 | The three deletes give `Actions.DeletePlayer`, and validity is kept. |
| Store.Store.DeleteGame | streamlit_app.py:1329-1338 | The three deletes give `Actions.DeleteGame`, and validity is kept. |
| Store.Store.DeleteNight | streamlit_app.py:1379-1390 | The four deletes give `Actions.DeleteNight`, and validity is kept. |
| Store.Store.EnsurePlayers | streamlit_app.py:1538-1549 | The loop's players table and name map are `SeasonImport.EnsurePlayers`, whose created rows `SeasonImport.EnsurePlayersRows` states. |
| Store.Store.EnsureGames | streamlit_app.py:1551-1564 | The loop's games table and name map are `SeasonImport.EnsureGames`, whose created rows `SeasonImport.EnsureGamesRows` and `SeasonImport.EnsureGamesCreated` state. |
| Store.Store.ImportRounds | streamlit_app.py:1642-1653 | The round loop gives `SeasonImport.ImportRounds`. |
| Store.Store.ImportPenalties | streamlit_app.py:1655-1660 | The penalty loop gives `SeasonImport.ImportPenalties`. |
| Store.Store.ImportNight | streamlit_app.py:1634-1660 | One night's inserts give `SeasonImport.ImportNight`. |
| Store.Store.ImportNights | streamlit_app.py:1625-1661 | The night loop gives `SeasonImport.ImportNights`. The returned counters equal the number of nights and the number of rounds. |
| Store.Store.ImportSeasonOne | streamlit_app.py:1516-1665 | The new state and outcome are those of `SeasonImport.ImportSeasonOne`. The counters are returned when it is applied, and validity is kept. |

## Left out

- The Streamlit user interface is not modelled: forms, widgets, messages, page layout and reruns. A form that is not submitted changes nothing.
- Choosing the connection is not modelled: `DATABASE_URL`, the fallback from PostgreSQL to SQLite, and the `USE_POSTGRES` flag. The flag is a parameter of the rewriting functions.
- `db_handler.py` is not part of this model.
- The read-only side is not modelled: the dashboard, leaderboards, reports and history views, and every SELECT they issue. Only the rewriting of their query text is modelled.
- Backup download, CSV export and the restore path are not modelled.
- Profile pictures and image resizing are not modelled.
- Creation timestamps and round notes are not modelled.
- Running the direct SQL query is not modelled; only the guard that decides whether it runs is.
- Penalty amounts are `REAL` columns entered as floats in the source and whole numbers here. Points per win are `INTEGER` in both, as in the source. The default-penalty update stores `str(new_penalty)`, which the model takes as a string parameter.
- Dates are taken as strings.
- The season-one dataset built into the admin view is a parameter (`SeasonImport.Dataset`), not the literal lists.
- SeasonImport.ImportSeasonOne: a night naming an unlisted player or game makes the source fail part-way, and nothing is committed. The model checks `WellFormed` up front and rejects with `UnknownName`; the end state is the same, but the order of the failed writes is not modelled.
- The PostgreSQL behaviour of the write paths is not modelled; the store follows SQLite. Under PostgreSQL, psycopg2's `cursor.lastrowid` is `None`, and the source differs as follows.
  - Recording a round with at least one winner writes nothing. The winner insert then carries a NULL `round_id`, which the NOT NULL column refuses before the commit (lines 785-794).
  - The season-one import writes nothing in every case.
    - Its find-or-create steps rely on catching `sqlite3.IntegrityError` (lines 1523-1562). psycopg2's error is not that class; the outer `except Exception` (line 1667) catches it, and nothing is committed.
    - When no name collides, the nights are inserted with a NULL `season_id`, which fails the same way.
  - A duplicate name in the add, rename and edit forms raises psycopg2's `IntegrityError`, which their `sqlite3.IntegrityError` handlers do not catch. Nothing is written, as in the model, but the user sees an uncaught error instead of the "name taken" message.
- The ordering semantics of `string_agg(… ORDER BY 1)` and of `GROUP_CONCAT` are not modelled; only the rewritten text is.
- ReadOnlyGuard.UpperChar: upper-cases ASCII letters plus long s and t with diaeresis, the two characters whose upper case can start a letter of `SELECT`. Every other character is kept as is. Python's full Unicode case mapping is not modelled, including its one-to-many mappings such as `ß` to `SS`, which change the text's length.
- Actions.ActiveSeason: with several active seasons, PostgreSQL's `LIMIT 1` and SQLite's `fetchone()` return an unspecified row. The model returns the lowest key. Under the invariant at most one season is active, so the choice never matters (`Actions.ActiveSeasonIsTheActiveOne`).
- Store.Store.RecordRound: validity is kept only when the night, game and winners exist. The form offers only existing rows; that condition is a hypothesis, not a check.
- Store.Store.RecordPenalty: validity is kept only when the night and player exist, for the same reason.
- The schema's `CREATE TABLE` statements and the SQLite-versus-PostgreSQL column types are not modelled. The `is_active` default differs between them; every insert sets it explicitly.
