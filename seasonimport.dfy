/**
 * The one-off import of the first season from data built into the admin
 * view.  The season row is found by name or created inactive; if it already
 * has game nights the import has run before and nothing is written.
 * Otherwise the listed players and games are found by name or created, and
 * every night is inserted with its rounds, numbered from 1 within the night,
 * their winners and its absence penalties.
 *
 * A winner, penalised player or game that the lists do not name makes the
 * name lookup fail part-way; the transaction is then never committed, so
 * the store is left as it was.  The model checks this up front.
 */
module SeasonImport {
  import opened Tables
  import opened Actions

  datatype GameRecord = GameRecord(name: string, pointsPerWin: int)
  /** `points` repeats the game's points per win; the import does not use it. */
  datatype RoundRecord = RoundRecord(game: string, points: int, winners: seq<string>)
  datatype PenaltyRecord = PenaltyRecord(player: string, amount: int)
  datatype NightRecord = NightRecord(date: string, rounds: seq<RoundRecord>, penalties: seq<PenaltyRecord>)
  datatype Dataset = Dataset(players: seq<string>, games: seq<GameRecord>, nights: seq<NightRecord>)

  const SeasonOneName: string := "Temporada 1"
  const SeasonOneStart: string := "2025-04-08"
  const SeasonOneEnd: string := "2025-12-03"
  const ImportNote: string := "Importado de temporada anterior"
  const AbsenceType: string := "Ausencia"

  function ListedPlayers(names: seq<string>): set<string>
  {
    set n | n in names
  }

  function ListedGames(games: seq<GameRecord>): set<string>
  {
    set g | g in games :: g.name
  }

  /** The rounds refer only to the given player and game names. */
  predicate RoundsResolve(rounds: seq<RoundRecord>, players: set<string>, games: set<string>)
  {
    forall rd :: rd in rounds ==> rd.game in games && forall w :: w in rd.winners ==> w in players
  }

  predicate PenaltiesResolve(penalties: seq<PenaltyRecord>, players: set<string>)
  {
    forall p :: p in penalties ==> p.player in players
  }

  predicate NightsResolve(nights: seq<NightRecord>, players: set<string>, games: set<string>)
  {
    forall n :: n in nights ==> RoundsResolve(n.rounds, players, games) && PenaltiesResolve(n.penalties, players)
  }

  /** Every name the nights use is in the player and game lists. */
  predicate WellFormed(data: Dataset)
  {
    NightsResolve(data.nights, ListedPlayers(data.players), ListedGames(data.games))
  }

  function TotalRounds(nights: seq<NightRecord>): nat
  {
    if nights == [] then 0 else TotalRounds(nights[..|nights| - 1]) + |nights[|nights| - 1].rounds|
  }

  function NightsOfSeason(t: Table<Night>, seasonId: int): set<int>
  {
    set k | k in t.rows && t.rows[k].seasonId == seasonId
  }

  // ---------------------------------------------------------------------------
  // Players and games: find by name, or insert

  /** The player rows the import creates: each listed name that is neither
      in the table nor listed earlier, in list order. */
  function NewPlayerRows(t: Table<Player>, names: seq<string>): seq<Player>
  {
    if names == [] then []
    else
      var init := names[..|names| - 1];
      var n := names[|names| - 1];
      NewPlayerRows(t, init) + if n in PlayerNames(t) || n in init then [] else [Player(n)]
  }

  /** The game rows the import creates: one per listed name that is neither
      in the table nor listed earlier, with the points of that first record
      and no description. */
  function NewGameRows(t: Table<Game>, games: seq<GameRecord>): seq<Game>
  {
    if games == [] then []
    else
      var init := games[..|games| - 1];
      var g := games[|games| - 1];
      NewGameRows(t, init) + if g.name in GameNames(t) || g.name in ListedGames(init) then [] else [Game(g.name, g.pointsPerWin, None)]
  }

  /** The points per win of the first record listing `name`. */
  function FirstPoints(games: seq<GameRecord>, name: string): int
    requires name in ListedGames(games)
  {
    var init := games[..|games| - 1];
    assert ListedGames(games) == ListedGames(init) + {games[|games| - 1].name};
    if name in ListedGames(init) then FirstPoints(init, name) else games[|games| - 1].pointsPerWin
  }

  /** Each name in turn: insert it, or on a UNIQUE violation look its key up;
      the map records the key found for every name. */
  function EnsurePlayers(t: Table<Player>, names: seq<string>): (r: (Table<Player>, map<string, int>))
    requires Keyed(t) && UniquePlayerNames(t)
    ensures Keyed(r.0) && UniquePlayerNames(r.0)
    ensures forall k :: k in t.rows ==> k in r.0.rows && r.0.rows[k] == t.rows[k]
    ensures r.1.Keys == ListedPlayers(names)
    ensures forall n :: n in r.1 ==> r.1[n] in r.0.rows && r.0.rows[r.1[n]].name == n
    ensures PlayerNames(r.0) == PlayerNames(t) + ListedPlayers(names)
    decreases |names|
  {
    if names == [] then (t, map[])
    else
      var init := names[..|names| - 1];
      var n := names[|names| - 1];
      assert ListedPlayers(names) == ListedPlayers(init) + {n};
      var (t1, ids) := EnsurePlayers(t, init);
      if n in PlayerNames(t1) then (t1, ids[n := PlayerNamed(t1, n)])
      else
        InsertPlayerNames(t1, Player(n));
        (Insert(t1, Player(n)), ids[n := t1.next])
  }

  /** As for players; a game created here has no description. */
  function EnsureGames(t: Table<Game>, games: seq<GameRecord>): (r: (Table<Game>, map<string, int>))
    requires Keyed(t) && UniqueGameNames(t)
    ensures Keyed(r.0) && UniqueGameNames(r.0)
    ensures forall k :: k in t.rows ==> k in r.0.rows && r.0.rows[k] == t.rows[k]
    ensures r.1.Keys == ListedGames(games)
    ensures forall n :: n in r.1 ==> r.1[n] in r.0.rows && r.0.rows[r.1[n]].name == n
    ensures GameNames(r.0) == GameNames(t) + ListedGames(games)
    decreases |games|
  {
    if games == [] then (t, map[])
    else
      var init := games[..|games| - 1];
      var g := games[|games| - 1];
      assert ListedGames(games) == ListedGames(init) + {g.name};
      var (t1, ids) := EnsureGames(t, init);
      if g.name in GameNames(t1) then (t1, ids[g.name := GameNamed(t1, g.name)])
      else
        InsertGameNames(t1, Game(g.name, g.pointsPerWin, None));
        (Insert(t1, Game(g.name, g.pointsPerWin, None)), ids[g.name := t1.next])
  }

  /** The players the import creates take the next keys in list order;
      every earlier row is kept and no other key appears. */
  lemma {:induction false} EnsurePlayersRows(t: Table<Player>, names: seq<string>)
    requires Keyed(t) && UniquePlayerNames(t)
    ensures Appended(t, EnsurePlayers(t, names).0, NewPlayerRows(t, names))
    decreases |names|
  {
    if names != [] {
      var init := names[..|names| - 1];
      var n := names[|names| - 1];
      EnsurePlayersRows(t, init);
      var t1 := EnsurePlayers(t, init).0;
      if n !in PlayerNames(t1) {
        AppendedInsert(t, t1, NewPlayerRows(t, init), Player(n));
      }
    }
  }

  /** The games the import creates take the next keys in list order, each
      from the first record naming it; every earlier row is kept and no
      other key appears. */
  lemma {:induction false} EnsureGamesRows(t: Table<Game>, games: seq<GameRecord>)
    requires Keyed(t) && UniqueGameNames(t)
    ensures Appended(t, EnsureGames(t, games).0, NewGameRows(t, games))
    decreases |games|
  {
    if games != [] {
      var init := games[..|games| - 1];
      var g := games[|games| - 1];
      EnsureGamesRows(t, init);
      var t1 := EnsureGames(t, init).0;
      if g.name !in GameNames(t1) {
        AppendedInsert(t, t1, NewGameRows(t, init), Game(g.name, g.pointsPerWin, None));
      }
    }
  }

  /** A game the import creates gets the points of the first record that
      lists it and no description; a later record with the same name is only
      looked up. */
  lemma {:induction false} EnsureGamesCreated(t: Table<Game>, games: seq<GameRecord>, name: string)
    requires Keyed(t) && UniqueGameNames(t)
    requires name in ListedGames(games) && name !in GameNames(t)
    ensures var r := EnsureGames(t, games);
      name in r.1 && r.0.rows[r.1[name]] == Game(name, FirstPoints(games, name), None)
    decreases |games|
  {
    var init := games[..|games| - 1];
    var g := games[|games| - 1];
    assert ListedGames(games) == ListedGames(init) + {g.name};
    var (t1, ids) := EnsureGames(t, init);
    var r := EnsureGames(t, games);
    if name in ListedGames(init) {
      EnsureGamesCreated(t, init, name);
      assert FirstPoints(games, name) == FirstPoints(init, name);
      if g.name == name {
        assert r == (t1, ids[name := GameNamed(t1, name)]);
        assert GameNamed(t1, name) == ids[name];
      } else {
        assert r.1[name] == ids[name] && ids[name] in t1.rows;
      }
    } else {
      assert g.name == name && name !in GameNames(t1);
      assert r == (Insert(t1, Game(name, g.pointsPerWin, None)), ids[name := t1.next]);
    }
  }

  /** One more name: looked up if present, inserted otherwise. */
  lemma EnsurePlayersStep(t: Table<Player>, names: seq<string>, i: nat)
    requires Keyed(t) && UniquePlayerNames(t) && i < |names|
    ensures var prev := EnsurePlayers(t, names[..i]);
      EnsurePlayers(t, names[..i + 1])
        == if names[i] in PlayerNames(prev.0) then (prev.0, prev.1[names[i] := PlayerNamed(prev.0, names[i])])
           else (Insert(prev.0, Player(names[i])), prev.1[names[i] := prev.0.next])
  {
    assert names[..i + 1][..i] == names[..i];
  }

  lemma EnsureGamesStep(t: Table<Game>, games: seq<GameRecord>, i: nat)
    requires Keyed(t) && UniqueGameNames(t) && i < |games|
    ensures var prev := EnsureGames(t, games[..i]);
      var g := games[i];
      EnsureGames(t, games[..i + 1])
        == if g.name in GameNames(prev.0) then (prev.0, prev.1[g.name := GameNamed(prev.0, g.name)])
           else (Insert(prev.0, Game(g.name, g.pointsPerWin, None)), prev.1[g.name := prev.0.next])
  {
    assert games[..i + 1][..i] == games[..i];
  }

  // ---------------------------------------------------------------------------
  // Nights, rounds and penalties

  /** The player keys for the winners' names, in order. */
  function WinnerIds(playerIds: map<string, int>, names: seq<string>): (r: seq<int>)
    requires forall w :: w in names ==> w in playerIds
    ensures |r| == |names|
    ensures forall i :: 0 <= i < |names| ==> r[i] == playerIds[names[i]]
    ensures forall p :: p in r ==> p in playerIds.Values
  {
    seq(|names|, i requires 0 <= i < |names| => playerIds[names[i]])
  }

  /** The rounds of one night, numbered 1, 2, ... in list order. */
  function ImportRounds(db: Db, nightId: int, playerIds: map<string, int>, gameIds: map<string, int>,
                        rounds: seq<RoundRecord>): (r: Db)
    requires RoundsResolve(rounds, playerIds.Keys, gameIds.Keys)
    ensures r == db.(rounds := r.rounds, winners := r.winners)
    ensures r.rounds.next == db.rounds.next + |rounds|
    decreases |rounds|
  {
    if rounds == [] then db
    else
      var init := rounds[..|rounds| - 1];
      var rd := rounds[|rounds| - 1];
      assert forall x :: x in init ==> x in rounds;
      var before := ImportRounds(db, nightId, playerIds, gameIds, init);
      InsertRound(before, nightId, gameIds[rd.game], |rounds|, WinnerIds(playerIds, rd.winners))
  }

  /** Importing one more round is one more recorded round. */
  lemma ImportRoundsStep(db: Db, nightId: int, playerIds: map<string, int>, gameIds: map<string, int>,
                         rounds: seq<RoundRecord>, i: nat, before: Db, after: Db)
    requires RoundsResolve(rounds, playerIds.Keys, gameIds.Keys) && i < |rounds|
    requires RoundsResolve(rounds[..i], playerIds.Keys, gameIds.Keys)
    requires before == ImportRounds(db, nightId, playerIds, gameIds, rounds[..i])
    requires rounds[i].game in gameIds && forall w :: w in rounds[i].winners ==> w in playerIds
    requires after == InsertRound(before, nightId, gameIds[rounds[i].game], i + 1, WinnerIds(playerIds, rounds[i].winners))
    ensures RoundsResolve(rounds[..i + 1], playerIds.Keys, gameIds.Keys)
    ensures after == ImportRounds(db, nightId, playerIds, gameIds, rounds[..i + 1])
  {
    assert rounds[..i + 1][..i] == rounds[..i];
    assert forall x :: x in rounds[..i + 1] ==> x in rounds;
  }

  /** The round rows of one night: the k-th listed round is round number k
      of the night and names the listed game. */
  function RoundRows(nightId: int, gameIds: map<string, int>, rounds: seq<RoundRecord>): seq<Round>
    requires forall rd :: rd in rounds ==> rd.game in gameIds
  {
    seq(|rounds|, m requires 0 <= m < |rounds| => Round(nightId, gameIds[rounds[m].game], m + 1))
  }

  lemma RoundRowsSnoc(nightId: int, gameIds: map<string, int>, rounds: seq<RoundRecord>)
    requires rounds != [] && forall rd :: rd in rounds ==> rd.game in gameIds
    ensures forall rd :: rd in rounds[..|rounds| - 1] ==> rd.game in gameIds
    ensures RoundRows(nightId, gameIds, rounds)
         == RoundRows(nightId, gameIds, rounds[..|rounds| - 1])
            + [Round(nightId, gameIds[rounds[|rounds| - 1].game], |rounds|)]
  {
  }

  /** The winner rows of the listed rounds when the first of them takes the
      round key `roundKey0`: round by round, one row per listed winner. */
  function WinnerRows(roundKey0: int, playerIds: map<string, int>, rounds: seq<RoundRecord>): seq<Winner>
    requires forall rd :: rd in rounds ==> forall w :: w in rd.winners ==> w in playerIds
    decreases |rounds|
  {
    if rounds == [] then []
    else
      var init := rounds[..|rounds| - 1];
      var rd := rounds[|rounds| - 1];
      assert forall x :: x in init ==> x in rounds;
      WinnerRows(roundKey0, playerIds, init) + RoundWinners(roundKey0 + |init|, WinnerIds(playerIds, rd.winners))
  }

  /** The imported rounds take the next round keys in list order; earlier
      rounds are kept. */
  lemma {:induction false} ImportRoundsNumbered(db: Db, nightId: int, playerIds: map<string, int>,
                                                gameIds: map<string, int>, rounds: seq<RoundRecord>)
    requires RoundsResolve(rounds, playerIds.Keys, gameIds.Keys)
    requires Keyed(db.rounds)
    ensures Appended(db.rounds, ImportRounds(db, nightId, playerIds, gameIds, rounds).rounds,
                     RoundRows(nightId, gameIds, rounds))
    decreases |rounds|
  {
    if rounds != [] {
      var init := rounds[..|rounds| - 1];
      var rd := rounds[|rounds| - 1];
      assert forall x :: x in init ==> x in rounds;
      ImportRoundsNumbered(db, nightId, playerIds, gameIds, init);
      var before := ImportRounds(db, nightId, playerIds, gameIds, init);
      var row := Round(nightId, gameIds[rd.game], |rounds|);
      assert ImportRounds(db, nightId, playerIds, gameIds, rounds).rounds == Insert(before.rounds, row);
      AppendedInsert(db.rounds, before.rounds, RoundRows(nightId, gameIds, init), row);
      RoundRowsSnoc(nightId, gameIds, rounds);
    }
  }

  /** The winner rows of the imported rounds follow one another in list
      order, each pointing at its round; earlier winner rows are kept. */
  lemma {:induction false} ImportRoundsWinners(db: Db, nightId: int, playerIds: map<string, int>,
                                               gameIds: map<string, int>, rounds: seq<RoundRecord>)
    requires RoundsResolve(rounds, playerIds.Keys, gameIds.Keys)
    requires Keyed(db.winners)
    ensures Appended(db.winners, ImportRounds(db, nightId, playerIds, gameIds, rounds).winners,
                     WinnerRows(db.rounds.next, playerIds, rounds))
    decreases |rounds|
  {
    if rounds != [] {
      var init := rounds[..|rounds| - 1];
      var rd := rounds[|rounds| - 1];
      WinnerRowsSnoc(db.rounds.next, playerIds, gameIds, rounds);
      ImportRoundsWinners(db, nightId, playerIds, gameIds, init);
      var before := ImportRounds(db, nightId, playerIds, gameIds, init);
      var winnerIds := WinnerIds(playerIds, rd.winners);
      var after := InsertRound(before, nightId, gameIds[rd.game], |rounds|, winnerIds);
      InsertRoundWinners(before, nightId, gameIds[rd.game], |rounds|, winnerIds);
      AppendedChain(db.winners, before.winners, after.winners,
                    WinnerRows(db.rounds.next, playerIds, init), RoundWinners(before.rounds.next, winnerIds));
      assert ImportRounds(db, nightId, playerIds, gameIds, rounds).winners == after.winners;
    }
  }

  /** One more round appends that round's winner rows. */
  lemma WinnerRowsSnoc(roundKey0: int, playerIds: map<string, int>, gameIds: map<string, int>,
                       rounds: seq<RoundRecord>)
    requires rounds != [] && RoundsResolve(rounds, playerIds.Keys, gameIds.Keys)
    ensures var init, rd := rounds[..|rounds| - 1], rounds[|rounds| - 1];
      && RoundsResolve(init, playerIds.Keys, gameIds.Keys)
      && rd.game in gameIds && (forall w :: w in rd.winners ==> w in playerIds)
      && WinnerRows(roundKey0, playerIds, rounds)
         == WinnerRows(roundKey0, playerIds, init) + RoundWinners(roundKey0 + |init|, WinnerIds(playerIds, rd.winners))
  {
  }

  lemma {:induction false} ImportRoundsConsistent(db: Db, nightId: int, playerIds: map<string, int>,
                                                  gameIds: map<string, int>, rounds: seq<RoundRecord>)
    requires RoundsResolve(rounds, playerIds.Keys, gameIds.Keys)
    requires Consistent(db) && nightId in db.nights.rows
    requires playerIds.Values <= db.players.rows.Keys && gameIds.Values <= db.games.rows.Keys
    ensures Consistent(ImportRounds(db, nightId, playerIds, gameIds, rounds))
    decreases |rounds|
  {
    if rounds != [] {
      var init := rounds[..|rounds| - 1];
      var rd := rounds[|rounds| - 1];
      assert forall x :: x in init ==> x in rounds;
      ImportRoundsConsistent(db, nightId, playerIds, gameIds, init);
      var before := ImportRounds(db, nightId, playerIds, gameIds, init);
      assert gameIds[rd.game] in gameIds.Values;
      var winnerIds := WinnerIds(playerIds, rd.winners);
      assert forall p :: p in winnerIds ==> p in before.players.rows;
      InsertRoundConsistent(before, nightId, gameIds[rd.game], |rounds|, winnerIds);
    }
  }

  /** The night's absence penalties. */
  function ImportPenalties(db: Db, nightId: int, playerIds: map<string, int>, penalties: seq<PenaltyRecord>): (r: Db)
    requires PenaltiesResolve(penalties, playerIds.Keys)
    ensures r == db.(penalties := r.penalties)
    ensures r.penalties.next == db.penalties.next + |penalties|
    decreases |penalties|
  {
    if penalties == [] then db
    else
      var init := penalties[..|penalties| - 1];
      var p := penalties[|penalties| - 1];
      assert forall x :: x in init ==> x in penalties;
      var before := ImportPenalties(db, nightId, playerIds, init);
      RecordPenalty(before, nightId, playerIds[p.player], AbsenceType, p.amount, ImportNote)
  }

  lemma {:induction false} ImportPenaltiesConsistent(db: Db, nightId: int, playerIds: map<string, int>,
                                                     penalties: seq<PenaltyRecord>)
    requires PenaltiesResolve(penalties, playerIds.Keys)
    requires Consistent(db) && nightId in db.nights.rows && playerIds.Values <= db.players.rows.Keys
    ensures Consistent(ImportPenalties(db, nightId, playerIds, penalties))
    decreases |penalties|
  {
    if penalties != [] {
      var init := penalties[..|penalties| - 1];
      var p := penalties[|penalties| - 1];
      assert forall x :: x in init ==> x in penalties;
      ImportPenaltiesConsistent(db, nightId, playerIds, init);
      assert playerIds[p.player] in playerIds.Values;
    }
  }

  /** The penalty rows of one night: one absence penalty per listed
      penalty, in order. */
  function PenaltyRows(nightId: int, playerIds: map<string, int>, penalties: seq<PenaltyRecord>): seq<Penalty>
    requires PenaltiesResolve(penalties, playerIds.Keys)
  {
    seq(|penalties|, i requires 0 <= i < |penalties| =>
      Penalty(nightId, playerIds[penalties[i].player], AbsenceType, penalties[i].amount, ImportNote))
  }

  /** The imported penalties take the next penalty keys in list order;
      earlier penalties are kept. */
  lemma {:induction false} ImportPenaltiesRows(db: Db, nightId: int, playerIds: map<string, int>,
                                               penalties: seq<PenaltyRecord>)
    requires PenaltiesResolve(penalties, playerIds.Keys)
    requires Keyed(db.penalties)
    ensures Appended(db.penalties, ImportPenalties(db, nightId, playerIds, penalties).penalties,
                     PenaltyRows(nightId, playerIds, penalties))
    decreases |penalties|
  {
    if penalties != [] {
      var init := penalties[..|penalties| - 1];
      var p := penalties[|penalties| - 1];
      var row := Penalty(nightId, playerIds[p.player], AbsenceType, p.amount, ImportNote);
      PenaltyRowsSnoc(nightId, playerIds, penalties);
      ImportPenaltiesRows(db, nightId, playerIds, init);
      var before := ImportPenalties(db, nightId, playerIds, init);
      AppendedInsert(db.penalties, before.penalties, PenaltyRows(nightId, playerIds, init), row);
      assert ImportPenalties(db, nightId, playerIds, penalties).penalties == Insert(before.penalties, row);
    }
  }

  lemma PenaltyRowsSnoc(nightId: int, playerIds: map<string, int>, penalties: seq<PenaltyRecord>)
    requires penalties != [] && PenaltiesResolve(penalties, playerIds.Keys)
    ensures var init, p := penalties[..|penalties| - 1], penalties[|penalties| - 1];
      && PenaltiesResolve(init, playerIds.Keys) && p.player in playerIds
      && PenaltyRows(nightId, playerIds, penalties)
         == PenaltyRows(nightId, playerIds, init) + [Penalty(nightId, playerIds[p.player], AbsenceType, p.amount, ImportNote)]
  {
  }

  /** The night row of one imported night. */
  function NightRow(db: Db, seasonId: int, night: NightRecord): (r: Db)
    ensures r == db.(nights := Insert(db.nights, Night(seasonId, night.date, ImportNote)))
    ensures Consistent(db) && seasonId in db.seasons.rows ==> Consistent(r)
  {
    db.(nights := Insert(db.nights, Night(seasonId, night.date, ImportNote)))
  }

  /** One night: the night row, then its rounds, then its penalties. */
  function ImportNight(db: Db, seasonId: int, playerIds: map<string, int>, gameIds: map<string, int>,
                       night: NightRecord): (r: Db)
    requires RoundsResolve(night.rounds, playerIds.Keys, gameIds.Keys)
    requires PenaltiesResolve(night.penalties, playerIds.Keys)
    ensures r.players == db.players && r.seasons == db.seasons && r.games == db.games && r.settings == db.settings
    ensures r.nights == Insert(db.nights, Night(seasonId, night.date, ImportNote))
    ensures r.rounds.next == db.rounds.next + |night.rounds|
  {
    var withNight := NightRow(db, seasonId, night);
    ImportPenalties(ImportRounds(withNight, db.nights.next, playerIds, gameIds, night.rounds),
                    db.nights.next, playerIds, night.penalties)
  }

  lemma ImportNightConsistent(db: Db, seasonId: int, playerIds: map<string, int>, gameIds: map<string, int>,
                              night: NightRecord)
    requires RoundsResolve(night.rounds, playerIds.Keys, gameIds.Keys)
    requires PenaltiesResolve(night.penalties, playerIds.Keys)
    requires Consistent(db) && seasonId in db.seasons.rows
    requires playerIds.Values <= db.players.rows.Keys && gameIds.Values <= db.games.rows.Keys
    ensures Consistent(ImportNight(db, seasonId, playerIds, gameIds, night))
  {
    var withNight := NightRow(db, seasonId, night);
    ImportRoundsConsistent(withNight, db.nights.next, playerIds, gameIds, night.rounds);
    var withRounds := ImportRounds(withNight, db.nights.next, playerIds, gameIds, night.rounds);
    ImportPenaltiesConsistent(withRounds, db.nights.next, playerIds, night.penalties);
  }

  /** One night adds its rounds under the next round keys, numbered from 1;
      earlier rounds are kept. */
  lemma ImportNightRounds(db: Db, seasonId: int, playerIds: map<string, int>, gameIds: map<string, int>,
                          night: NightRecord)
    requires RoundsResolve(night.rounds, playerIds.Keys, gameIds.Keys)
    requires PenaltiesResolve(night.penalties, playerIds.Keys)
    requires Keyed(db.rounds)
    ensures Appended(db.rounds, ImportNight(db, seasonId, playerIds, gameIds, night).rounds,
                     RoundRows(db.nights.next, gameIds, night.rounds))
  {
    var withNight := NightRow(db, seasonId, night);
    ImportRoundsNumbered(withNight, db.nights.next, playerIds, gameIds, night.rounds);
  }

  /** One night adds the winner rows of its rounds under the next winner
      keys; earlier winner rows are kept. */
  lemma ImportNightWinners(db: Db, seasonId: int, playerIds: map<string, int>, gameIds: map<string, int>,
                           night: NightRecord)
    requires RoundsResolve(night.rounds, playerIds.Keys, gameIds.Keys)
    requires PenaltiesResolve(night.penalties, playerIds.Keys)
    requires Keyed(db.winners)
    ensures Appended(db.winners, ImportNight(db, seasonId, playerIds, gameIds, night).winners,
                     WinnerRows(db.rounds.next, playerIds, night.rounds))
  {
    var withNight := NightRow(db, seasonId, night);
    ImportRoundsWinners(withNight, db.nights.next, playerIds, gameIds, night.rounds);
  }

  /** One night adds its absence penalties under the next penalty keys;
      earlier penalties are kept. */
  lemma ImportNightPenalties(db: Db, seasonId: int, playerIds: map<string, int>, gameIds: map<string, int>,
                             night: NightRecord)
    requires RoundsResolve(night.rounds, playerIds.Keys, gameIds.Keys)
    requires PenaltiesResolve(night.penalties, playerIds.Keys)
    requires Keyed(db.penalties)
    ensures Appended(db.penalties, ImportNight(db, seasonId, playerIds, gameIds, night).penalties,
                     PenaltyRows(db.nights.next, playerIds, night.penalties))
  {
    var withNight := NightRow(db, seasonId, night);
    var withRounds := ImportRounds(withNight, db.nights.next, playerIds, gameIds, night.rounds);
    ImportPenaltiesRows(withRounds, db.nights.next, playerIds, night.penalties);
  }

  /** The round numbers used within a night. */
  function RoundNumbers(t: Table<Round>, nightId: int): set<int>
  {
    set k | k in RoundsOfNight(t, nightId) :: t.rows[k].roundNumber
  }

  /** Within an imported night the rounds are numbered 1 to the number of
      rounds listed, each number once. */
  lemma ImportNightNumbering(db: Db, seasonId: int, playerIds: map<string, int>, gameIds: map<string, int>,
                             night: NightRecord)
    requires RoundsResolve(night.rounds, playerIds.Keys, gameIds.Keys)
    requires PenaltiesResolve(night.penalties, playerIds.Keys)
    requires Consistent(db)
    ensures var r := ImportNight(db, seasonId, playerIds, gameIds, night);
      && (forall k :: k in RoundsOfNight(r.rounds, db.nights.next) <==> db.rounds.next <= k < db.rounds.next + |night.rounds|)
      && (forall k :: k in RoundsOfNight(r.rounds, db.nights.next) ==> r.rounds.rows[k].roundNumber == k - db.rounds.next + 1)
      && (forall j :: j in RoundNumbers(r.rounds, db.nights.next) <==> 1 <= j <= |night.rounds|)
  {
    var nightId := db.nights.next;
    var withNight := NightRow(db, seasonId, night);
    ImportRoundsNumbered(withNight, nightId, playerIds, gameIds, night.rounds);
    var withRounds := ImportRounds(withNight, nightId, playerIds, gameIds, night.rounds);
    var r := ImportNight(db, seasonId, playerIds, gameIds, night);
    assert r.rounds == withRounds.rounds;
    var lo, hi := db.rounds.next, db.rounds.next + |night.rounds|;
    assert nightId !in db.nights.rows;
    assert forall k :: k in db.rounds.rows ==> db.rounds.rows[k].nightId != nightId;
    forall j | 1 <= j <= |night.rounds| ensures j in RoundNumbers(r.rounds, nightId) {
      var k := lo + j - 1;
      assert k in RoundsOfNight(r.rounds, nightId);
    }
  }

  function ImportNights(db: Db, seasonId: int, playerIds: map<string, int>, gameIds: map<string, int>,
                        nights: seq<NightRecord>): (r: Db)
    requires NightsResolve(nights, playerIds.Keys, gameIds.Keys)
    ensures r.players == db.players && r.seasons == db.seasons && r.games == db.games && r.settings == db.settings
    ensures r.nights.next == db.nights.next + |nights|
    ensures r.rounds.next == db.rounds.next + TotalRounds(nights)
    decreases |nights|
  {
    if nights == [] then db
    else
      var init := nights[..|nights| - 1];
      assert forall x :: x in init ==> x in nights;
      var before := ImportNights(db, seasonId, playerIds, gameIds, init);
      ImportNight(before, seasonId, playerIds, gameIds, nights[|nights| - 1])
  }

  /** Importing one more night is importing that night. */
  lemma ImportNightsStep(db: Db, seasonId: int, playerIds: map<string, int>, gameIds: map<string, int>,
                         nights: seq<NightRecord>, i: nat)
    requires NightsResolve(nights, playerIds.Keys, gameIds.Keys) && i < |nights|
    ensures NightsResolve(nights[..i], playerIds.Keys, gameIds.Keys)
    ensures NightsResolve(nights[..i + 1], playerIds.Keys, gameIds.Keys)
    ensures RoundsResolve(nights[i].rounds, playerIds.Keys, gameIds.Keys)
    ensures PenaltiesResolve(nights[i].penalties, playerIds.Keys)
    ensures ImportNights(db, seasonId, playerIds, gameIds, nights[..i + 1])
         == ImportNight(ImportNights(db, seasonId, playerIds, gameIds, nights[..i]), seasonId, playerIds, gameIds, nights[i])
    ensures TotalRounds(nights[..i + 1]) == TotalRounds(nights[..i]) + |nights[i].rounds|
  {
    assert nights[i] in nights;
    assert nights[..i + 1][..i] == nights[..i];
    assert forall x :: x in nights[..i + 1] ==> x in nights;
  }

  lemma {:induction false} ImportNightsConsistent(db: Db, seasonId: int, playerIds: map<string, int>,
                                                  gameIds: map<string, int>, nights: seq<NightRecord>)
    requires NightsResolve(nights, playerIds.Keys, gameIds.Keys)
    requires Consistent(db) && seasonId in db.seasons.rows
    requires playerIds.Values <= db.players.rows.Keys && gameIds.Values <= db.games.rows.Keys
    ensures Consistent(ImportNights(db, seasonId, playerIds, gameIds, nights))
    decreases |nights|
  {
    if nights != [] {
      var init := nights[..|nights| - 1];
      assert forall x :: x in init ==> x in nights;
      ImportNightsConsistent(db, seasonId, playerIds, gameIds, init);
      var before := ImportNights(db, seasonId, playerIds, gameIds, init);
      ImportNightConsistent(before, seasonId, playerIds, gameIds, nights[|nights| - 1]);
    }
  }

  /** The night rows the import adds for the listed nights: one per listed
      night, in list order, in the season, with its date and the import
      note. */
  function NightRows(seasonId: int, nights: seq<NightRecord>): seq<Night>
  {
    seq(|nights|, i requires 0 <= i < |nights| => Night(seasonId, nights[i].date, ImportNote))
  }

  lemma NightRowsSnoc(seasonId: int, nights: seq<NightRecord>)
    requires nights != []
    ensures NightRows(seasonId, nights)
         == NightRows(seasonId, nights[..|nights| - 1]) + [Night(seasonId, nights[|nights| - 1].date, ImportNote)]
  {
  }

  /** The nights the import adds take the next night keys in list order,
      each in the imported season with its listed date and the import note;
      earlier nights are kept. */
  lemma {:induction false} ImportNightsSeason(db: Db, seasonId: int, playerIds: map<string, int>,
                                              gameIds: map<string, int>, nights: seq<NightRecord>)
    requires NightsResolve(nights, playerIds.Keys, gameIds.Keys)
    requires Keyed(db.nights)
    ensures Appended(db.nights, ImportNights(db, seasonId, playerIds, gameIds, nights).nights, NightRows(seasonId, nights))
    decreases |nights|
  {
    if nights != [] {
      var init := nights[..|nights| - 1];
      var n := nights[|nights| - 1];
      ImportNightsSnoc(db, seasonId, playerIds, gameIds, nights);
      NightRowsSnoc(seasonId, nights);
      ImportNightsSeason(db, seasonId, playerIds, gameIds, init);
      var before := ImportNights(db, seasonId, playerIds, gameIds, init);
      AppendedInsert(db.nights, before.nights, NightRows(seasonId, init), Night(seasonId, n.date, ImportNote));
    }
  }

  /** The round rows of the listed nights when the first of them takes the
      night key `nightKey0`: night by night, as `RoundRows`. */
  function ImportedRounds(nightKey0: int, playerIds: map<string, int>, gameIds: map<string, int>,
                          nights: seq<NightRecord>): seq<Round>
    requires NightsResolve(nights, playerIds.Keys, gameIds.Keys)
    decreases |nights|
  {
    if nights == [] then []
    else
      var init := nights[..|nights| - 1];
      var n := nights[|nights| - 1];
      assert forall x :: x in init ==> x in nights;
      assert RoundsResolve(n.rounds, playerIds.Keys, gameIds.Keys);
      ImportedRounds(nightKey0, playerIds, gameIds, init) + RoundRows(nightKey0 + |init|, gameIds, n.rounds)
  }

  /** The winner rows of the listed nights when their first round takes the
      round key `roundKey0`: night by night, as `WinnerRows`. */
  function ImportedWinners(roundKey0: int, playerIds: map<string, int>, gameIds: map<string, int>,
                           nights: seq<NightRecord>): seq<Winner>
    requires NightsResolve(nights, playerIds.Keys, gameIds.Keys)
    decreases |nights|
  {
    if nights == [] then []
    else
      var init := nights[..|nights| - 1];
      var n := nights[|nights| - 1];
      assert forall x :: x in init ==> x in nights;
      assert RoundsResolve(n.rounds, playerIds.Keys, gameIds.Keys);
      ImportedWinners(roundKey0, playerIds, gameIds, init) + WinnerRows(roundKey0 + TotalRounds(init), playerIds, n.rounds)
  }

  /** The penalty rows of the listed nights when the first of them takes the
      night key `nightKey0`: night by night, as `PenaltyRows`. */
  function ImportedPenalties(nightKey0: int, playerIds: map<string, int>, gameIds: map<string, int>,
                             nights: seq<NightRecord>): seq<Penalty>
    requires NightsResolve(nights, playerIds.Keys, gameIds.Keys)
    decreases |nights|
  {
    if nights == [] then []
    else
      var init := nights[..|nights| - 1];
      var n := nights[|nights| - 1];
      assert forall x :: x in init ==> x in nights;
      assert PenaltiesResolve(n.penalties, playerIds.Keys);
      ImportedPenalties(nightKey0, playerIds, gameIds, init) + PenaltyRows(nightKey0 + |init|, playerIds, n.penalties)
  }

  /** Importing one more night is importing that night last. */
  lemma ImportNightsSnoc(db: Db, seasonId: int, playerIds: map<string, int>, gameIds: map<string, int>,
                         nights: seq<NightRecord>)
    requires nights != [] && NightsResolve(nights, playerIds.Keys, gameIds.Keys)
    ensures NightsResolve(nights[..|nights| - 1], playerIds.Keys, gameIds.Keys)
    ensures RoundsResolve(nights[|nights| - 1].rounds, playerIds.Keys, gameIds.Keys)
    ensures PenaltiesResolve(nights[|nights| - 1].penalties, playerIds.Keys)
    ensures ImportNights(db, seasonId, playerIds, gameIds, nights)
         == ImportNight(ImportNights(db, seasonId, playerIds, gameIds, nights[..|nights| - 1]),
                        seasonId, playerIds, gameIds, nights[|nights| - 1])
  {
  }

  /** One more night appends that night's rows. */
  lemma ImportedRoundsSnoc(nightKey0: int, playerIds: map<string, int>, gameIds: map<string, int>, nights: seq<NightRecord>)
    requires nights != [] && NightsResolve(nights, playerIds.Keys, gameIds.Keys)
    ensures var init, n := nights[..|nights| - 1], nights[|nights| - 1];
      && NightsResolve(init, playerIds.Keys, gameIds.Keys)
      && RoundsResolve(n.rounds, playerIds.Keys, gameIds.Keys)
      && PenaltiesResolve(n.penalties, playerIds.Keys)
      && ImportedRounds(nightKey0, playerIds, gameIds, nights)
         == ImportedRounds(nightKey0, playerIds, gameIds, init) + RoundRows(nightKey0 + |init|, gameIds, n.rounds)
  {
  }

  lemma ImportedWinnersSnoc(roundKey0: int, playerIds: map<string, int>, gameIds: map<string, int>, nights: seq<NightRecord>)
    requires nights != [] && NightsResolve(nights, playerIds.Keys, gameIds.Keys)
    ensures var init, n := nights[..|nights| - 1], nights[|nights| - 1];
      && NightsResolve(init, playerIds.Keys, gameIds.Keys)
      && RoundsResolve(n.rounds, playerIds.Keys, gameIds.Keys)
      && PenaltiesResolve(n.penalties, playerIds.Keys)
      && ImportedWinners(roundKey0, playerIds, gameIds, nights)
         == ImportedWinners(roundKey0, playerIds, gameIds, init) + WinnerRows(roundKey0 + TotalRounds(init), playerIds, n.rounds)
  {
  }

  lemma ImportedPenaltiesSnoc(nightKey0: int, playerIds: map<string, int>, gameIds: map<string, int>, nights: seq<NightRecord>)
    requires nights != [] && NightsResolve(nights, playerIds.Keys, gameIds.Keys)
    ensures var init, n := nights[..|nights| - 1], nights[|nights| - 1];
      && NightsResolve(init, playerIds.Keys, gameIds.Keys)
      && RoundsResolve(n.rounds, playerIds.Keys, gameIds.Keys)
      && PenaltiesResolve(n.penalties, playerIds.Keys)
      && ImportedPenalties(nightKey0, playerIds, gameIds, nights)
         == ImportedPenalties(nightKey0, playerIds, gameIds, init) + PenaltyRows(nightKey0 + |init|, playerIds, n.penalties)
  {
  }

  /** The nights' rounds take the next round keys in list order; earlier
      rounds are kept. */
  lemma {:induction false} ImportNightsRounds(db: Db, seasonId: int, playerIds: map<string, int>,
        gameIds: map<string, int>, nights: seq<NightRecord>)
    requires NightsResolve(nights, playerIds.Keys, gameIds.Keys)
    requires Keyed(db.rounds)
    ensures Appended(db.rounds, ImportNights(db, seasonId, playerIds, gameIds, nights).rounds,
                     ImportedRounds(db.nights.next, playerIds, gameIds, nights))
    decreases |nights|
  {
    if nights != [] {
      var init := nights[..|nights| - 1];
      var n := nights[|nights| - 1];
      ImportedRoundsSnoc(db.nights.next, playerIds, gameIds, nights);
      ImportNightsSnoc(db, seasonId, playerIds, gameIds, nights);
      ImportNightsRounds(db, seasonId, playerIds, gameIds, init);
      var before := ImportNights(db, seasonId, playerIds, gameIds, init);
      assert before.nights.next == db.nights.next + |init|;
      ImportNightRoundsStep(db.rounds, before, seasonId, playerIds, gameIds, n, ImportedRounds(db.nights.next, playerIds, gameIds, init),
        ImportNights(db, seasonId, playerIds, gameIds, nights), ImportedRounds(db.nights.next, playerIds, gameIds, nights));
    }
  }

  lemma ImportNightRoundsStep(t0: Table<Round>, db: Db, seasonId: int, playerIds: map<string, int>, gameIds: map<string, int>,
        n: NightRecord, earlier: seq<Round>, r: Db, all: seq<Round>)
    requires RoundsResolve(n.rounds, playerIds.Keys, gameIds.Keys)
    requires PenaltiesResolve(n.penalties, playerIds.Keys)
    requires Appended(t0, db.rounds, earlier)
    requires r == ImportNight(db, seasonId, playerIds, gameIds, n)
    requires all == earlier + RoundRows(db.nights.next, gameIds, n.rounds)
    ensures Appended(t0, r.rounds, all)
  {
    ImportNightRounds(db, seasonId, playerIds, gameIds, n);
    AppendedChain(t0, db.rounds, r.rounds, earlier, RoundRows(db.nights.next, gameIds, n.rounds));
  }

  /** The nights' winner rows take the next winner keys in list order;
      earlier winner rows are kept. */
  lemma {:induction false} ImportNightsWinners(db: Db, seasonId: int, playerIds: map<string, int>,
        gameIds: map<string, int>, nights: seq<NightRecord>)
    requires NightsResolve(nights, playerIds.Keys, gameIds.Keys)
    requires Keyed(db.winners)
    ensures Appended(db.winners, ImportNights(db, seasonId, playerIds, gameIds, nights).winners,
                     ImportedWinners(db.rounds.next, playerIds, gameIds, nights))
    decreases |nights|
  {
    if nights != [] {
      var init := nights[..|nights| - 1];
      var n := nights[|nights| - 1];
      ImportedWinnersSnoc(db.rounds.next, playerIds, gameIds, nights);
      ImportNightsSnoc(db, seasonId, playerIds, gameIds, nights);
      ImportNightsWinners(db, seasonId, playerIds, gameIds, init);
      var before := ImportNights(db, seasonId, playerIds, gameIds, init);
      assert before.rounds.next == db.rounds.next + TotalRounds(init);
      ImportNightWinnersStep(db.winners, before, seasonId, playerIds, gameIds, n, ImportedWinners(db.rounds.next, playerIds, gameIds, init),
        ImportNights(db, seasonId, playerIds, gameIds, nights), ImportedWinners(db.rounds.next, playerIds, gameIds, nights));
    }
  }

  lemma ImportNightWinnersStep(t0: Table<Winner>, db: Db, seasonId: int, playerIds: map<string, int>, gameIds: map<string, int>,
        n: NightRecord, earlier: seq<Winner>, r: Db, all: seq<Winner>)
    requires RoundsResolve(n.rounds, playerIds.Keys, gameIds.Keys)
    requires PenaltiesResolve(n.penalties, playerIds.Keys)
    requires Appended(t0, db.winners, earlier)
    requires r == ImportNight(db, seasonId, playerIds, gameIds, n)
    requires all == earlier + WinnerRows(db.rounds.next, playerIds, n.rounds)
    ensures Appended(t0, r.winners, all)
  {
    ImportNightWinners(db, seasonId, playerIds, gameIds, n);
    AppendedChain(t0, db.winners, r.winners, earlier, WinnerRows(db.rounds.next, playerIds, n.rounds));
  }

  /** The nights' absence penalties take the next penalty keys in list
      order; earlier penalties are kept. */
  lemma {:induction false} ImportNightsPenalties(db: Db, seasonId: int, playerIds: map<string, int>,
        gameIds: map<string, int>, nights: seq<NightRecord>)
    requires NightsResolve(nights, playerIds.Keys, gameIds.Keys)
    requires Keyed(db.penalties)
    ensures Appended(db.penalties, ImportNights(db, seasonId, playerIds, gameIds, nights).penalties,
                     ImportedPenalties(db.nights.next, playerIds, gameIds, nights))
    decreases |nights|
  {
    if nights != [] {
      var init := nights[..|nights| - 1];
      var n := nights[|nights| - 1];
      ImportedPenaltiesSnoc(db.nights.next, playerIds, gameIds, nights);
      ImportNightsSnoc(db, seasonId, playerIds, gameIds, nights);
      ImportNightsPenalties(db, seasonId, playerIds, gameIds, init);
      var before := ImportNights(db, seasonId, playerIds, gameIds, init);
      assert before.nights.next == db.nights.next + |init|;
      ImportNightPenaltiesStep(db.penalties, before, seasonId, playerIds, gameIds, n, ImportedPenalties(db.nights.next, playerIds, gameIds, init),
        ImportNights(db, seasonId, playerIds, gameIds, nights), ImportedPenalties(db.nights.next, playerIds, gameIds, nights));
    }
  }

  lemma ImportNightPenaltiesStep(t0: Table<Penalty>, db: Db, seasonId: int, playerIds: map<string, int>, gameIds: map<string, int>,
        n: NightRecord, earlier: seq<Penalty>, r: Db, all: seq<Penalty>)
    requires RoundsResolve(n.rounds, playerIds.Keys, gameIds.Keys)
    requires PenaltiesResolve(n.penalties, playerIds.Keys)
    requires Appended(t0, db.penalties, earlier)
    requires r == ImportNight(db, seasonId, playerIds, gameIds, n)
    requires all == earlier + PenaltyRows(db.nights.next, playerIds, n.penalties)
    ensures Appended(t0, r.penalties, all)
  {
    ImportNightPenalties(db, seasonId, playerIds, gameIds, n);
    AppendedChain(t0, db.penalties, r.penalties, earlier, PenaltyRows(db.nights.next, playerIds, n.penalties));
  }

  // ---------------------------------------------------------------------------
  // The import

  /** The key of the season-one row: the existing one, or the key an insert
      would give it. */
  function SeasonOneId(t: Table<Season>): (k: int)
    requires UniqueSeasonNames(t)
    ensures SeasonOneName in SeasonNames(t) ==> k in t.rows && t.rows[k].name == SeasonOneName
    ensures SeasonOneName !in SeasonNames(t) ==> k == t.next
  {
    if SeasonOneName in SeasonNames(t) then SeasonNamed(t, SeasonOneName) else t.next
  }

  /** The season row after the import: unchanged, or the new inactive one. */
  function WithSeasonOne(t: Table<Season>): (r: Table<Season>)
    ensures SeasonOneName in SeasonNames(t) ==> r == t
    ensures SeasonOneName !in SeasonNames(t) ==>
      && t.next in r.rows && r.rows[t.next] == Season(SeasonOneName, SeasonOneStart, Some(SeasonOneEnd), false)
      && (forall k :: k in t.rows && k != t.next ==> k in r.rows && r.rows[k] == t.rows[k])
    ensures Keyed(t) ==> Keyed(r) && SeasonNames(r) == SeasonNames(t) + {SeasonOneName} && ActiveIds(r) == ActiveIds(t)
  {
    InsertSeasonNames(t, Season(SeasonOneName, SeasonOneStart, Some(SeasonOneEnd), false));
    if SeasonOneName in SeasonNames(t) then t
    else Insert(t, Season(SeasonOneName, SeasonOneStart, Some(SeasonOneEnd), false))
  }

  /** The guard: the season-one row exists and already has nights. */
  predicate AlreadyRun(db: Db)
    requires UniqueSeasonNames(db.seasons)
  {
    NightsOfSeason(db.nights, SeasonOneId(db.seasons)) != {}
  }

  /** The import button.  It is refused when it has run before, and when a
      night names a player or game missing from the lists (the lookup fails
      and nothing is committed). */
  function ImportSeasonOne(db: Db, data: Dataset): (r: Step)
    requires AllKeyed(db) && NamesUnique(db)
    ensures r.outcome == Rejected(AlreadyImported) <==> AlreadyRun(db)
    ensures r.outcome == Applied <==> !AlreadyRun(db) && WellFormed(data)
    ensures r.outcome != Applied ==> r.db == db
  {
    if AlreadyRun(db) then Step(db, Rejected(AlreadyImported))
    else if !WellFormed(data) then Step(db, Rejected(UnknownName))
    else
      var seasonId := SeasonOneId(db.seasons);
      var seasons := WithSeasonOne(db.seasons);
      var (players, playerIds) := EnsurePlayers(db.players, data.players);
      var (games, gameIds) := EnsureGames(db.games, data.games);
      var start := db.(seasons := seasons, players := players, games := games);
      Step(ImportNights(start, seasonId, playerIds, gameIds, data.nights), Applied)
  }

  /** What an applied import leaves behind: the season row looked up or
      created inactive, the players and games tables as the find-or-insert
      loops build them, one night per listed night (in the season, with its
      date and the import note) under the next keys, one round per listed
      round, and the settings untouched. */
  lemma ImportSeasonOneApplied(db: Db, data: Dataset)
    requires AllKeyed(db) && NamesUnique(db)
    requires ImportSeasonOne(db, data).outcome == Applied
    ensures var r := ImportSeasonOne(db, data).db;
      && r.settings == db.settings
      && SeasonNames(r.seasons) == SeasonNames(db.seasons) + {SeasonOneName}
      && ActiveIds(r.seasons) == ActiveIds(db.seasons)
      && PlayerNames(r.players) == PlayerNames(db.players) + ListedPlayers(data.players)
      && GameNames(r.games) == GameNames(db.games) + ListedGames(data.games)
      && r.seasons == WithSeasonOne(db.seasons)
      && r.players == EnsurePlayers(db.players, data.players).0
      && r.games == EnsureGames(db.games, data.games).0
      && Appended(db.nights, r.nights, NightRows(SeasonOneId(db.seasons), data.nights))
      && r.rounds.next == db.rounds.next + TotalRounds(data.nights)
  {
    var seasonId := SeasonOneId(db.seasons);
    var seasons := WithSeasonOne(db.seasons);
    InsertSeasonNames(db.seasons, Season(SeasonOneName, SeasonOneStart, Some(SeasonOneEnd), false));
    var (players, playerIds) := EnsurePlayers(db.players, data.players);
    var (games, gameIds) := EnsureGames(db.games, data.games);
    var start := db.(seasons := seasons, players := players, games := games);
    ImportNightsSeason(start, seasonId, playerIds, gameIds, data.nights);
    assert SeasonNames(seasons) == SeasonNames(db.seasons) + {SeasonOneName};
    assert ActiveIds(seasons) == ActiveIds(db.seasons);
  }

  /** What an applied import adds to rounds, winners and penalties: under
      the next keys, night by night in list order, each night's rounds
      numbered from 1 and naming its game, their winner rows pointing at
      them, and the night's absence penalties; every earlier row is kept. */
  lemma ImportSeasonOneRows(db: Db, data: Dataset)
    requires AllKeyed(db) && NamesUnique(db)
    requires ImportSeasonOne(db, data).outcome == Applied
    ensures WellFormed(data)
    ensures var r := ImportSeasonOne(db, data).db;
      var playerIds := EnsurePlayers(db.players, data.players).1;
      var gameIds := EnsureGames(db.games, data.games).1;
      && NightsResolve(data.nights, playerIds.Keys, gameIds.Keys)
      && Appended(db.rounds, r.rounds, ImportedRounds(db.nights.next, playerIds, gameIds, data.nights))
      && Appended(db.winners, r.winners, ImportedWinners(db.rounds.next, playerIds, gameIds, data.nights))
      && Appended(db.penalties, r.penalties, ImportedPenalties(db.nights.next, playerIds, gameIds, data.nights))
  {
    var seasonId := SeasonOneId(db.seasons);
    var seasons := WithSeasonOne(db.seasons);
    var (players, playerIds) := EnsurePlayers(db.players, data.players);
    var (games, gameIds) := EnsureGames(db.games, data.games);
    var start := db.(seasons := seasons, players := players, games := games);
    ImportNightsRounds(start, seasonId, playerIds, gameIds, data.nights);
    ImportNightsWinners(start, seasonId, playerIds, gameIds, data.nights);
    ImportNightsPenalties(start, seasonId, playerIds, gameIds, data.nights);
  }

  /** An applied import keeps the store consistent. */
  lemma ImportSeasonOneConsistent(db: Db, data: Dataset)
    requires Consistent(db)
    ensures Consistent(ImportSeasonOne(db, data).db)
  {
    if ImportSeasonOne(db, data).outcome == Applied {
      var seasonId := SeasonOneId(db.seasons);
      var seasons := WithSeasonOne(db.seasons);
      var (players, playerIds) := EnsurePlayers(db.players, data.players);
      var (games, gameIds) := EnsureGames(db.games, data.games);
      var start := db.(seasons := seasons, players := players, games := games);
      assert Consistent(start) by {
        InsertSeasonNames(db.seasons, Season(SeasonOneName, SeasonOneStart, Some(SeasonOneEnd), false));
        assert ActiveIds(seasons) == ActiveIds(db.seasons);
        assert UniqueSeasonNames(seasons);
      }
      assert seasonId in seasons.rows;
      assert playerIds.Values <= players.rows.Keys;
      assert gameIds.Values <= games.rows.Keys;
      ImportNightsConsistent(start, seasonId, playerIds, gameIds, data.nights);
    }
  }

  /** Running the import a second time is refused, once it has added at least
      one night. */
  lemma ImportRunsOnce(db: Db, data: Dataset)
    requires Consistent(db)
    requires ImportSeasonOne(db, data).outcome == Applied && data.nights != []
    ensures var r := ImportSeasonOne(db, data).db;
      Consistent(r) && ImportSeasonOne(r, data).outcome == Rejected(AlreadyImported)
  {
    ImportSeasonOneConsistent(db, data);
    ImportSeasonOneSeasonNight(db, data);
  }

  /** After an applied import the season-one row is where it was looked up
      or created, and the first imported night belongs to it. */
  lemma ImportSeasonOneSeasonNight(db: Db, data: Dataset)
    requires AllKeyed(db) && NamesUnique(db)
    requires ImportSeasonOne(db, data).outcome == Applied && data.nights != []
    ensures var r := ImportSeasonOne(db, data).db;
      && UniqueSeasonNames(r.seasons)
      && SeasonOneId(r.seasons) == SeasonOneId(db.seasons)
      && db.nights.next in NightsOfSeason(r.nights, SeasonOneId(db.seasons))
  {
    var seasonId := SeasonOneId(db.seasons);
    var seasons := WithSeasonOne(db.seasons);
    var (players, playerIds) := EnsurePlayers(db.players, data.players);
    var (games, gameIds) := EnsureGames(db.games, data.games);
    var start := db.(seasons := seasons, players := players, games := games);
    ImportNightsSeason(start, seasonId, playerIds, gameIds, data.nights);
    var r := ImportNights(start, seasonId, playerIds, gameIds, data.nights);
    assert r == ImportSeasonOne(db, data).db;
    assert seasonId in seasons.rows && seasons.rows[seasonId].name == SeasonOneName;
    assert NightRows(seasonId, data.nights)[0].seasonId == seasonId;
  }
}
