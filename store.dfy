/**
 * The store as the application sees it: one object whose tables the user
 * actions update in place, statement by statement, as the cursor executes
 * them.  Every method leaves the store exactly as the matching function of
 * `Actions` (or `SeasonImport`) says, so what is proved about those
 * functions holds of the store.
 */
module Store {
  import opened Tables
  import opened Actions
  import SeasonImport

  class Store {
    var players: Table<Player>
    var seasons: Table<Season>
    var games: Table<Game>
    var nights: Table<Night>
    var rounds: Table<Round>
    var winners: Table<Winner>
    var penalties: Table<Penalty>
    var settings: map<string, string>

    /** The tables as one value. */
    function Snapshot(): Db
      reads this
    {
      Db(players, seasons, games, nights, rounds, winners, penalties, settings)
    }

    predicate Valid()
      reads this
    {
      Consistent(Snapshot())
    }

    /** Start-up: every table created empty, then the settings provisioned. */
    constructor ()
      ensures Snapshot() == Actions.ProvisionSettings(EmptyDb())
      ensures Valid()
    {
      players, seasons, games, nights := EmptyTable(), EmptyTable(), EmptyTable(), EmptyTable();
      rounds, winners, penalties := EmptyTable(), EmptyTable(), EmptyTable();
      settings := map[DefaultPenaltyKey := DefaultPenaltyValue];
    }

    /** The settings insert that start-up runs on every launch. */
    method ProvisionSettings()
      modifies this
      ensures Snapshot() == Actions.ProvisionSettings(old(Snapshot()))
      ensures old(Valid()) ==> Valid()
    {
      if DefaultPenaltyKey !in settings {
        settings := settings[DefaultPenaltyKey := DefaultPenaltyValue];
      }
    }

    method UpdateDefaultPenalty(value: string)
      modifies this
      ensures Snapshot() == Actions.UpdateDefaultPenalty(old(Snapshot()), value)
      ensures old(Valid()) ==> Valid()
    {
      if DefaultPenaltyKey in settings {
        settings := settings[DefaultPenaltyKey := value];
      }
    }

    // -------------------------------------------------------------------------
    // Players, seasons and games

    method AddPlayer(name: string) returns (outcome: Outcome)
      modifies this
      ensures Step(Snapshot(), outcome) == Actions.AddPlayer(old(Snapshot()), name)
      ensures old(Valid()) ==> Valid()
    {
      if name == [] {
        return Ignored;
      }
      if name in PlayerNames(players) {
        return Rejected(NameTaken);
      }
      players := Insert(players, Player(name));
      outcome := Applied;
    }

    method RenamePlayer(id: int, name: string) returns (outcome: Outcome)
      modifies this
      ensures Step(Snapshot(), outcome) == Actions.RenamePlayer(old(Snapshot()), id, name)
      ensures old(Valid()) ==> Valid()
    {
      if id in players.rows && PlayerNameTakenByOther(players, id, name) {
        return Rejected(NameTaken);
      }
      players := Update(players, id, Player(name));
      outcome := Applied;
    }

    /** A duplicate name is refused before anything is written: in the
        application the deactivation already ran and is rolled back. */
    method CreateSeason(name: string, startDate: string, endDate: Option<string>, makeActive: bool)
      returns (outcome: Outcome)
      modifies this
      ensures Step(Snapshot(), outcome) == Actions.CreateSeason(old(Snapshot()), name, startDate, endDate, makeActive)
      ensures old(Valid()) ==> Valid()
    {
      if name == [] {
        return Ignored;
      }
      if name in SeasonNames(seasons) {
        return Rejected(NameTaken);
      }
      if makeActive {
        seasons := Deactivated(seasons);
      }
      seasons := Insert(seasons, Season(name, startDate, endDate, makeActive));
      outcome := Applied;
    }

    method ActivateSeason(id: int)
      modifies this
      ensures Snapshot() == Actions.ActivateSeason(old(Snapshot()), id)
      ensures old(Valid()) ==> Valid()
    {
      seasons := Deactivated(seasons);
      if id in seasons.rows {
        seasons := Update(seasons, id, seasons.rows[id].(isActive := true));
      }
    }

    method AddGame(name: string, pointsPerWin: int, description: string) returns (outcome: Outcome)
      modifies this
      ensures Step(Snapshot(), outcome) == Actions.AddGame(old(Snapshot()), name, pointsPerWin, description)
      ensures old(Valid()) ==> Valid()
    {
      if name == [] {
        return Ignored;
      }
      if name in GameNames(games) {
        return Rejected(NameTaken);
      }
      games := Insert(games, Game(name, pointsPerWin, Some(description)));
      outcome := Applied;
    }

    method UpdateGame(id: int, pointsPerWin: int, description: string)
      modifies this
      ensures Snapshot() == Actions.UpdateGame(old(Snapshot()), id, pointsPerWin, description)
      ensures old(Valid()) ==> Valid()
    {
      if id in games.rows {
        games := Update(games, id, Game(games.rows[id].name, pointsPerWin, Some(description)));
      }
    }

    method EditGame(id: int, name: string, pointsPerWin: int, description: string) returns (outcome: Outcome)
      modifies this
      ensures Step(Snapshot(), outcome) == Actions.EditGame(old(Snapshot()), id, name, pointsPerWin, description)
      ensures old(Valid()) ==> Valid()
    {
      if id in games.rows && GameNameTakenByOther(games, id, name) {
        return Rejected(NameTaken);
      }
      games := Update(games, id, Game(name, pointsPerWin, Some(description)));
      outcome := Applied;
    }

    // -------------------------------------------------------------------------
    // Game nights, rounds and penalties

    method AddNight(date: string, notes: string) returns (outcome: Outcome)
      modifies this
      ensures Step(Snapshot(), outcome) == Actions.AddNight(old(Snapshot()), date, notes)
      ensures old(Valid()) ==> Valid()
    {
      var active := ActiveSeason(seasons);
      if active == None {
        return Rejected(NoActiveSeason);
      }
      if players.rows == map[] {
        return Rejected(NoPlayers);
      }
      if games.rows == map[] {
        return Rejected(NoGames);
      }
      nights := Insert(nights, Night(active.value, date, notes));
      outcome := Applied;
    }

    /** One winner row per listed player, in order. */
    method InsertWinners(roundId: int, playerIds: seq<int>)
      modifies this
      ensures Snapshot() == old(Snapshot()).(winners := AddWinners(old(winners), roundId, playerIds))
    {
      var i := 0;
      while i < |playerIds|
        invariant 0 <= i <= |playerIds|
        invariant Snapshot() == old(Snapshot()).(winners := AddWinners(old(winners), roundId, playerIds[..i]))
      {
        assert playerIds[..i + 1][..i] == playerIds[..i];
        winners := Insert(winners, Winner(roundId, playerIds[i]));
        i := i + 1;
      }
      assert playerIds[..i] == playerIds;
    }

    method RecordRound(nightId: int, gameId: int, roundNumber: int, winnerIds: seq<int>) returns (outcome: Outcome)
      modifies this
      ensures Step(Snapshot(), outcome) == Actions.RecordRound(old(Snapshot()), nightId, gameId, roundNumber, winnerIds)
      ensures old(Valid()) && nightId in old(nights.rows) && gameId in old(games.rows)
              && (forall p :: p in winnerIds ==> p in old(players.rows))
              ==> Valid()
    {
      if winnerIds == [] {
        return Rejected(NoWinners);
      }
      InsertRound(nightId, gameId, roundNumber, winnerIds);
      outcome := Applied;
    }

    /** A round row, then its winner rows pointing at the new round key. */
    method InsertRound(nightId: int, gameId: int, roundNumber: int, winnerIds: seq<int>)
      modifies this
      ensures Snapshot() == Actions.InsertRound(old(Snapshot()), nightId, gameId, roundNumber, winnerIds)
    {
      var roundId := rounds.next;
      rounds := Insert(rounds, Round(nightId, gameId, roundNumber));
      InsertWinners(roundId, winnerIds);
    }

    method RecordPenalty(nightId: int, playerId: int, penaltyType: string, amount: int, reason: string)
      modifies this
      ensures Snapshot() == Actions.RecordPenalty(old(Snapshot()), nightId, playerId, penaltyType, amount, reason)
      ensures old(Valid()) && nightId in old(nights.rows) && playerId in old(players.rows) ==> Valid()
    {
      penalties := Insert(penalties, Penalty(nightId, playerId, penaltyType, amount, reason));
    }

    method UpdatePenalty(id: int, amount: int, reason: string)
      modifies this
      ensures Snapshot() == Actions.UpdatePenalty(old(Snapshot()), id, amount, reason)
      ensures old(Valid()) ==> Valid()
    {
      if id in penalties.rows {
        penalties := Update(penalties, id, penalties.rows[id].(amount := amount, reason := reason));
      }
    }

    method DeletePenalty(id: int)
      modifies this
      ensures Snapshot() == Actions.DeletePenalty(old(Snapshot()), id)
      ensures old(Valid()) ==> Valid()
    {
      penalties := Delete(penalties, {id});
    }

    // -------------------------------------------------------------------------
    // Cascade deletes, one statement per table

    method DeleteRound(roundId: int)
      modifies this
      ensures Snapshot() == Actions.DeleteRound(old(Snapshot()), roundId)
      ensures old(Valid()) ==> Valid()
    {
      winners := Delete(winners, WinnersOfRounds(winners, {roundId}));
      rounds := Delete(rounds, {roundId});
    }

    method DeletePlayer(playerId: int)
      modifies this
      ensures Snapshot() == Actions.DeletePlayer(old(Snapshot()), playerId)
      ensures old(Valid()) ==> Valid()
    {
      winners := Delete(winners, WinnersOfPlayer(winners, playerId));
      penalties := Delete(penalties, PenaltiesOfPlayer(penalties, playerId));
      players := Delete(players, {playerId});
    }

    method DeleteGame(gameId: int)
      modifies this
      ensures Snapshot() == Actions.DeleteGame(old(Snapshot()), gameId)
      ensures old(Valid()) ==> Valid()
    {
      winners := Delete(winners, WinnersOfRounds(winners, RoundsOfGame(rounds, gameId)));
      rounds := Delete(rounds, RoundsOfGame(rounds, gameId));
      games := Delete(games, {gameId});
    }

    method DeleteNight(nightId: int)
      modifies this
      ensures Snapshot() == Actions.DeleteNight(old(Snapshot()), nightId)
      ensures old(Valid()) ==> Valid()
    {
      winners := Delete(winners, WinnersOfRounds(winners, RoundsOfNight(rounds, nightId)));
      rounds := Delete(rounds, RoundsOfNight(rounds, nightId));
      penalties := Delete(penalties, PenaltiesOfNight(penalties, nightId));
      nights := Delete(nights, {nightId});
    }

    // -------------------------------------------------------------------------
    // The season-one import

    /** Each listed player in turn: inserted, or looked up when the name is
        taken. */
    method EnsurePlayers(names: seq<string>) returns (ids: map<string, int>)
      requires Keyed(players) && UniquePlayerNames(players)
      modifies this
      ensures (players, ids) == SeasonImport.EnsurePlayers(old(players), names)
      ensures Snapshot() == old(Snapshot()).(players := players)
    {
      ghost var start := players;
      ids := map[];
      var i := 0;
      while i < |names|
        invariant 0 <= i <= |names|
        invariant (players, ids) == SeasonImport.EnsurePlayers(start, names[..i])
        invariant Snapshot() == old(Snapshot()).(players := players)
      {
        SeasonImport.EnsurePlayersStep(start, names, i);
        var n := names[i];
        if n in PlayerNames(players) {
          ids := ids[n := PlayerNamed(players, n)];
        } else {
          ids := ids[n := players.next];
          players := Insert(players, Player(n));
        }
        i := i + 1;
      }
      assert names[..i] == names;
    }

    method EnsureGames(list: seq<SeasonImport.GameRecord>) returns (ids: map<string, int>)
      requires Keyed(games) && UniqueGameNames(games)
      modifies this
      ensures (games, ids) == SeasonImport.EnsureGames(old(games), list)
      ensures Snapshot() == old(Snapshot()).(games := games)
    {
      ghost var start := games;
      ids := map[];
      var i := 0;
      while i < |list|
        invariant 0 <= i <= |list|
        invariant (games, ids) == SeasonImport.EnsureGames(start, list[..i])
        invariant Snapshot() == old(Snapshot()).(games := games)
      {
        SeasonImport.EnsureGamesStep(start, list, i);
        var g := list[i];
        if g.name in GameNames(games) {
          ids := ids[g.name := GameNamed(games, g.name)];
        } else {
          ids := ids[g.name := games.next];
          games := Insert(games, Game(g.name, g.pointsPerWin, None));
        }
        i := i + 1;
      }
      assert list[..i] == list;
    }

    /** The rounds of one night, numbered from 1, each with its winners. */
    method ImportRounds(nightId: int, playerIds: map<string, int>, gameIds: map<string, int>,
                        list: seq<SeasonImport.RoundRecord>)
      requires SeasonImport.RoundsResolve(list, playerIds.Keys, gameIds.Keys)
      modifies this
      ensures Snapshot() == SeasonImport.ImportRounds(old(Snapshot()), nightId, playerIds, gameIds, list)
    {
      ghost var start := Snapshot();
      var i := 0;
      while i < |list|
        invariant 0 <= i <= |list|
        invariant SeasonImport.RoundsResolve(list[..i], playerIds.Keys, gameIds.Keys)
        invariant Snapshot() == SeasonImport.ImportRounds(start, nightId, playerIds, gameIds, list[..i])
      {
        ghost var before := Snapshot();
        var rd := list[i];
        assert rd in list;
        var winnerIds := SeasonImport.WinnerIds(playerIds, rd.winners);
        InsertRound(nightId, gameIds[rd.game], i + 1, winnerIds);
        SeasonImport.ImportRoundsStep(start, nightId, playerIds, gameIds, list, i, before, Snapshot());
        i := i + 1;
      }
      assert list[..i] == list;
    }

    /** The absence penalties of one night. */
    method ImportPenalties(nightId: int, playerIds: map<string, int>, list: seq<SeasonImport.PenaltyRecord>)
      requires SeasonImport.PenaltiesResolve(list, playerIds.Keys)
      modifies this
      ensures Snapshot() == SeasonImport.ImportPenalties(old(Snapshot()), nightId, playerIds, list)
    {
      var i := 0;
      while i < |list|
        invariant 0 <= i <= |list|
        invariant forall x :: x in list[..i] ==> x in list
        invariant Snapshot() == SeasonImport.ImportPenalties(old(Snapshot()), nightId, playerIds, list[..i])
      {
        assert list[..i + 1][..i] == list[..i];
        assert forall x :: x in list[..i + 1] ==> x in list;
        var p := list[i];
        penalties := Insert(penalties, Penalty(nightId, playerIds[p.player], SeasonImport.AbsenceType, p.amount,
                                               SeasonImport.ImportNote));
        i := i + 1;
      }
      assert list[..i] == list;
    }

    /** Every listed night in turn; returns how many nights and rounds were
        written. */
    method ImportNights(seasonId: int, playerIds: map<string, int>, gameIds: map<string, int>,
                        list: seq<SeasonImport.NightRecord>)
      returns (nightsImported: nat, roundsImported: nat)
      requires SeasonImport.NightsResolve(list, playerIds.Keys, gameIds.Keys)
      modifies this
      ensures Snapshot() == SeasonImport.ImportNights(old(Snapshot()), seasonId, playerIds, gameIds, list)
      ensures nightsImported == |list| && roundsImported == SeasonImport.TotalRounds(list)
    {
      ghost var start := Snapshot();
      nightsImported, roundsImported := 0, 0;
      while nightsImported < |list|
        invariant nightsImported <= |list|
        invariant SeasonImport.NightsResolve(list[..nightsImported], playerIds.Keys, gameIds.Keys)
        invariant Snapshot() == SeasonImport.ImportNights(start, seasonId, playerIds, gameIds, list[..nightsImported])
        invariant roundsImported == SeasonImport.TotalRounds(list[..nightsImported])
      {
        var i := nightsImported;
        SeasonImport.ImportNightsStep(start, seasonId, playerIds, gameIds, list, i);
        ImportNight(seasonId, playerIds, gameIds, list[i]);
        nightsImported, roundsImported := i + 1, roundsImported + |list[i].rounds|;
      }
      assert list[..nightsImported] == list;
    }

    /** The night row, then the night's rounds, then its penalties. */
    method ImportNight(seasonId: int, playerIds: map<string, int>, gameIds: map<string, int>,
                       night: SeasonImport.NightRecord)
      requires SeasonImport.RoundsResolve(night.rounds, playerIds.Keys, gameIds.Keys)
      requires SeasonImport.PenaltiesResolve(night.penalties, playerIds.Keys)
      modifies this
      ensures Snapshot() == SeasonImport.ImportNight(old(Snapshot()), seasonId, playerIds, gameIds, night)
    {
      var nightId := nights.next;
      nights := Insert(nights, Night(seasonId, night.date, SeasonImport.ImportNote));
      assert Snapshot() == SeasonImport.NightRow(old(Snapshot()), seasonId, night);
      ImportRounds(nightId, playerIds, gameIds, night.rounds);
      ImportPenalties(nightId, playerIds, night.penalties);
    }

    /** The import button: returns the outcome and the numbers of nights and
        rounds reported. */
    method ImportSeasonOne(data: SeasonImport.Dataset) returns (outcome: Outcome, nightsImported: nat, roundsImported: nat)
      requires AllKeyed(Snapshot()) && NamesUnique(Snapshot())
      modifies this
      ensures Step(Snapshot(), outcome) == SeasonImport.ImportSeasonOne(old(Snapshot()), data)
      ensures outcome == Applied ==>
        nightsImported == |data.nights| && roundsImported == SeasonImport.TotalRounds(data.nights)
      ensures old(Valid()) ==> Valid()
    {
      if Valid() {
        SeasonImport.ImportSeasonOneConsistent(Snapshot(), data);
      }
      nightsImported, roundsImported := 0, 0;
      var seasonId := SeasonImport.SeasonOneId(seasons);
      if SeasonImport.AlreadyRun(Snapshot()) {
        return Rejected(AlreadyImported), 0, 0;
      }
      if !SeasonImport.WellFormed(data) {
        return Rejected(UnknownName), 0, 0;
      }
      seasons := SeasonImport.WithSeasonOne(seasons);
      var playerIds := EnsurePlayers(data.players);
      var gameIds := EnsureGames(data.games);
      nightsImported, roundsImported := ImportNights(seasonId, playerIds, gameIds, data.nights);
      outcome := Applied;
    }
  }
}
