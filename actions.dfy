/**
 * The write side of the tracker as pure functions on the store: each user
 * action maps the store before it to the store after it, together with what
 * the user is told.  An action that fails on a UNIQUE constraint runs inside
 * a transaction that is never committed, so a rejected action leaves the
 * store exactly as it was.
 */
module Actions {
  import opened Tables

  datatype Rejection =
    | NameTaken        // the UNIQUE constraint on a name column
    | NoWinners        // a round needs at least one winner
    | NoActiveSeason   // game nights are recorded against the active season
    | NoPlayers
    | NoGames
    | AlreadyImported  // the season-1 import has already run
    | UnknownName      // the import data names a player or game it does not list

  datatype Outcome = Applied | Ignored | Rejected(why: Rejection)

  datatype Step = Step(db: Db, outcome: Outcome)

  // ---------------------------------------------------------------------------
  // Settings

  const DefaultPenaltyKey: string := "default_penalty_amount"
  const DefaultPenaltyValue: string := "10"

  /** Start-up provisioning: insert the default penalty amount unless a value
      is already stored (`INSERT OR IGNORE` / `ON CONFLICT DO NOTHING`). */
  function ProvisionSettings(db: Db): (r: Db)
    ensures DefaultPenaltyKey in r.settings
    ensures DefaultPenaltyKey !in db.settings ==> r.settings[DefaultPenaltyKey] == DefaultPenaltyValue
    ensures forall key :: key in db.settings ==> key in r.settings && r.settings[key] == db.settings[key]
    ensures forall key :: key in r.settings ==> key in db.settings || key == DefaultPenaltyKey
    ensures r == db.(settings := r.settings)
  {
    if DefaultPenaltyKey in db.settings then db
    else db.(settings := db.settings[DefaultPenaltyKey := DefaultPenaltyValue])
  }

  /** Provisioning twice is provisioning once. */
  lemma ProvisionIdempotent(db: Db)
    ensures ProvisionSettings(ProvisionSettings(db)) == ProvisionSettings(db)
  {
  }

  /** The settings form: an UPDATE of the stored default; when no row holds
      the key nothing is written. */
  function UpdateDefaultPenalty(db: Db, value: string): (r: Db)
    ensures r.settings.Keys == db.settings.Keys
    ensures DefaultPenaltyKey in db.settings ==> r.settings[DefaultPenaltyKey] == value
    ensures forall key :: key in db.settings && key != DefaultPenaltyKey ==> r.settings[key] == db.settings[key]
    ensures r == db.(settings := r.settings)
  {
    if DefaultPenaltyKey in db.settings then db.(settings := db.settings[DefaultPenaltyKey := value]) else db
  }

  // ---------------------------------------------------------------------------
  // Players

  /** The add-player form; an empty name submits nothing. */
  function AddPlayer(db: Db, name: string): (r: Step)
    ensures r.outcome == Applied <==> name != [] && name !in PlayerNames(db.players)
    ensures name == [] ==> r.outcome == Ignored
    ensures r.outcome != Applied ==> r.db == db
    ensures r.outcome == Applied ==>
      && r.db == db.(players := r.db.players)
      && r.db.players.next == db.players.next + 1
      && db.players.next in r.db.players.rows
      && r.db.players.rows[db.players.next] == Player(name)
      && (forall k :: k in db.players.rows && k != db.players.next ==>
            k in r.db.players.rows && r.db.players.rows[k] == db.players.rows[k])
      && (forall k :: k in r.db.players.rows ==> k in db.players.rows || k == db.players.next)
    ensures r.outcome == Applied && Keyed(db.players) ==>
      && PlayerNames(r.db.players) == PlayerNames(db.players) + {name}
      && |r.db.players.rows| == |db.players.rows| + 1
    ensures Consistent(db) ==> Consistent(r.db)
  {
    if name == [] then Step(db, Ignored)
    else if name in PlayerNames(db.players) then Step(db, Rejected(NameTaken))
    else
      InsertPlayerNames(db.players, Player(name));
      Step(db.(players := Insert(db.players, Player(name))), Applied)
  }

  /** Some row other than `id` already carries `name`. */
  predicate PlayerNameTakenByOther(t: Table<Player>, id: int, name: string)
  {
    exists k :: k in t.rows && k != id && t.rows[k].name == name
  }

  /** The admin rename: `UPDATE players SET name = ? WHERE id = ?`.  Keeping a
      player's own name is allowed; taking another player's name is refused
      by the UNIQUE constraint; an absent id updates no row. */
  function RenamePlayer(db: Db, id: int, name: string): (r: Step)
    ensures r.outcome == Rejected(NameTaken) <==> id in db.players.rows && PlayerNameTakenByOther(db.players, id, name)
    ensures r.outcome != Rejected(NameTaken) ==> r.outcome == Applied
    ensures r.db == db.(players := r.db.players) && r.db.players.rows.Keys == db.players.rows.Keys
    ensures r.db.players.next == db.players.next
    ensures r.outcome != Applied || id !in db.players.rows ==> r.db == db
    ensures r.outcome == Applied && id in db.players.rows ==>
      && r.db.players.rows[id] == Player(name)
      && (forall k :: k in db.players.rows && k != id ==> r.db.players.rows[k] == db.players.rows[k])
    ensures Consistent(db) ==> Consistent(r.db)
  {
    if id !in db.players.rows then Step(db, Applied)
    else if PlayerNameTakenByOther(db.players, id, name) then Step(db, Rejected(NameTaken))
    else Step(db.(players := Update(db.players, id, Player(name))), Applied)
  }

  // ---------------------------------------------------------------------------
  // Seasons

  /** `UPDATE seasons SET is_active = 0`. */
  function Deactivated(t: Table<Season>): (r: Table<Season>)
    ensures r.rows.Keys == t.rows.Keys && r.next == t.next
    ensures ActiveIds(r) == {}
    ensures forall k :: k in t.rows ==> r.rows[k] == t.rows[k].(isActive := false)
  {
    Table(map k | k in t.rows :: t.rows[k].(isActive := false), t.next)
  }

  lemma DeactivatedKeepsNames(t: Table<Season>)
    ensures SeasonNames(Deactivated(t)) == SeasonNames(t)
  {
    var r := Deactivated(t);
    forall n | n in SeasonNames(t) ensures n in SeasonNames(r) {
      var k :| k in t.rows && t.rows[k].name == n;
      assert r.rows[k].name == n;
    }
  }

  /** The create-season form.  With "make active" ticked every other season is
      switched off first; a duplicate name rolls that back as well. */
  function CreateSeason(db: Db, name: string, startDate: string, endDate: Option<string>, makeActive: bool): (r: Step)
    ensures r.outcome == Applied <==> name != [] && name !in SeasonNames(db.seasons)
    ensures name == [] ==> r.outcome == Ignored
    ensures r.outcome != Applied ==> r.db == db
    ensures r.outcome == Applied ==>
      && r.db == db.(seasons := r.db.seasons)
      && r.db.seasons.next == db.seasons.next + 1
      && db.seasons.next in r.db.seasons.rows
      && r.db.seasons.rows[db.seasons.next] == Season(name, startDate, endDate, makeActive)
      && (forall k :: k in db.seasons.rows && k != db.seasons.next ==>
            && k in r.db.seasons.rows
            && r.db.seasons.rows[k] == db.seasons.rows[k].(isActive := r.db.seasons.rows[k].isActive)
            && (!makeActive ==> r.db.seasons.rows[k] == db.seasons.rows[k]))
      && (forall k :: k in r.db.seasons.rows ==> k in db.seasons.rows || k == db.seasons.next)
    ensures r.outcome == Applied && Keyed(db.seasons) ==> SeasonNames(r.db.seasons) == SeasonNames(db.seasons) + {name}
    ensures r.outcome == Applied && makeActive ==> ActiveIds(r.db.seasons) == {db.seasons.next}
    ensures r.outcome == Applied && !makeActive && Keyed(db.seasons) ==> ActiveIds(r.db.seasons) == ActiveIds(db.seasons)
    ensures Consistent(db) ==> Consistent(r.db)
  {
    if name == [] then Step(db, Ignored)
    else if name in SeasonNames(db.seasons) then Step(db, Rejected(NameTaken))
    else
      var before := if makeActive then Deactivated(db.seasons) else db.seasons;
      InsertSeasonNames(before, Season(name, startDate, endDate, makeActive));
      DeactivatedKeepsNames(db.seasons);
      Step(db.(seasons := Insert(before, Season(name, startDate, endDate, makeActive))), Applied)
  }

  /** The Activate button: every season off, then the chosen one on. */
  function ActivateSeason(db: Db, id: int): (r: Db)
    ensures ActiveIds(r.seasons) == if id in db.seasons.rows then {id} else {}
    ensures r.seasons.rows.Keys == db.seasons.rows.Keys && r.seasons.next == db.seasons.next
    ensures forall k :: k in db.seasons.rows ==> r.seasons.rows[k].(isActive := false) == db.seasons.rows[k].(isActive := false)
    ensures r == db.(seasons := r.seasons)
    ensures Consistent(db) ==> Consistent(r)
  {
    var off := Deactivated(db.seasons);
    if id in off.rows then db.(seasons := Update(off, id, off.rows[id].(isActive := true)))
    else db.(seasons := off)
  }

  /** A set of keys holding `x` has a least element. */
  lemma Lowest(s: set<int>, x: int) returns (m: int)
    requires x in s
    ensures m in s && forall j :: j in s ==> m <= j
    decreases s
  {
    if forall j :: j in s ==> x <= j {
      return x;
    }
    var y :| y in s && y < x;
    m := Lowest(s - {x}, y);
    forall j | j in s ensures m <= j {
      assert j in s - {x} || j == x;
    }
  }

  lemma LowestExists(s: set<int>, x: int)
    requires x in s
    ensures exists m :: m in s && forall j :: j in s ==> m <= j
  {
    var m := Lowest(s, x);
  }

  /** `SELECT id, name FROM seasons WHERE is_active = 1`, first row: the scan
      runs in key order, so it is the lowest active key. */
  function ActiveSeason(t: Table<Season>): (r: Option<int>)
    ensures r == None <==> ActiveIds(t) == {}
    ensures r.Some? ==> r.value in ActiveIds(t) && forall k :: k in ActiveIds(t) ==> r.value <= k
  {
    var ids := ActiveIds(t);
    if exists k :: k in t.rows && t.rows[k].isActive then
      var x :| x in t.rows && t.rows[x].isActive;
      LowestExists(ids, x);
      var k :| k in ids && forall j :: j in ids ==> k <= j;
      Some(k)
    else
      assert ids == {};
      None
  }

  /** With at most one active season, the one found is the only one. */
  lemma ActiveSeasonIsTheActiveOne(t: Table<Season>, id: int)
    requires AtMostOneActive(t) && id in ActiveIds(t)
    ensures ActiveSeason(t) == Some(id)
  {
  }

  // ---------------------------------------------------------------------------
  // Games

  function AddGame(db: Db, name: string, pointsPerWin: int, description: string): (r: Step)
    ensures r.outcome == Applied <==> name != [] && name !in GameNames(db.games)
    ensures name == [] ==> r.outcome == Ignored
    ensures r.outcome != Applied ==> r.db == db
    ensures r.outcome == Applied ==>
      && r.db == db.(games := r.db.games)
      && r.db.games.next == db.games.next + 1
      && db.games.next in r.db.games.rows
      && r.db.games.rows[db.games.next] == Game(name, pointsPerWin, Some(description))
      && (forall k :: k in db.games.rows && k != db.games.next ==>
            k in r.db.games.rows && r.db.games.rows[k] == db.games.rows[k])
      && (forall k :: k in r.db.games.rows ==> k in db.games.rows || k == db.games.next)
    ensures r.outcome == Applied && Keyed(db.games) ==> GameNames(r.db.games) == GameNames(db.games) + {name}
    ensures Consistent(db) ==> Consistent(r.db)
  {
    if name == [] then Step(db, Ignored)
    else if name in GameNames(db.games) then Step(db, Rejected(NameTaken))
    else
      InsertGameNames(db.games, Game(name, pointsPerWin, Some(description)));
      Step(db.(games := Insert(db.games, Game(name, pointsPerWin, Some(description)))), Applied)
  }

  /** The edit form under the game list: new points and description, same
      name. */
  function UpdateGame(db: Db, id: int, pointsPerWin: int, description: string): (r: Db)
    ensures r == db.(games := r.games) && r.games.rows.Keys == db.games.rows.Keys && r.games.next == db.games.next
    ensures id in db.games.rows ==> r.games.rows[id] == Game(db.games.rows[id].name, pointsPerWin, Some(description))
    ensures forall k :: k in db.games.rows && k != id ==> r.games.rows[k] == db.games.rows[k]
    ensures GameNames(r.games) == GameNames(db.games)
    ensures Consistent(db) ==> Consistent(r)
  {
    if id in db.games.rows then db.(games := Update(db.games, id, Game(db.games.rows[id].name, pointsPerWin, Some(description))))
    else db
  }

  predicate GameNameTakenByOther(t: Table<Game>, id: int, name: string)
  {
    exists k :: k in t.rows && k != id && t.rows[k].name == name
  }

  /** The admin edit, which may also rename the game. */
  function EditGame(db: Db, id: int, name: string, pointsPerWin: int, description: string): (r: Step)
    ensures r.outcome == Rejected(NameTaken) <==> id in db.games.rows && GameNameTakenByOther(db.games, id, name)
    ensures r.outcome != Rejected(NameTaken) ==> r.outcome == Applied
    ensures r.db == db.(games := r.db.games) && r.db.games.rows.Keys == db.games.rows.Keys
    ensures r.db.games.next == db.games.next
    ensures r.outcome != Applied || id !in db.games.rows ==> r.db == db
    ensures r.outcome == Applied && id in db.games.rows ==>
      && r.db.games.rows[id] == Game(name, pointsPerWin, Some(description))
      && (forall k :: k in db.games.rows && k != id ==> r.db.games.rows[k] == db.games.rows[k])
    ensures Consistent(db) ==> Consistent(r.db)
  {
    if id !in db.games.rows then Step(db, Applied)
    else if GameNameTakenByOther(db.games, id, name) then Step(db, Rejected(NameTaken))
    else Step(db.(games := Update(db.games, id, Game(name, pointsPerWin, Some(description)))), Applied)
  }

  // ---------------------------------------------------------------------------
  // Game nights, rounds and penalties

  /** The create-night form, reached only with an active season, at least one
      player and at least one game; the night belongs to the active season. */
  function AddNight(db: Db, date: string, notes: string): (r: Step)
    ensures r.outcome == Rejected(NoActiveSeason) <==> ActiveIds(db.seasons) == {}
    ensures r.outcome == Applied <==> ActiveIds(db.seasons) != {} && db.players.rows != map[] && db.games.rows != map[]
    ensures r.outcome != Applied ==> r.db == db
    ensures r.outcome == Applied ==>
      && r.db == db.(nights := r.db.nights)
      && r.db.nights.next == db.nights.next + 1
      && db.nights.next in r.db.nights.rows
      && r.db.nights.rows[db.nights.next].seasonId in ActiveIds(db.seasons)
      && r.db.nights.rows[db.nights.next].date == date
      && r.db.nights.rows[db.nights.next].notes == notes
      && (forall k :: k in db.nights.rows && k != db.nights.next ==>
            k in r.db.nights.rows && r.db.nights.rows[k] == db.nights.rows[k])
      && (forall k :: k in r.db.nights.rows ==> k in db.nights.rows || k == db.nights.next)
    ensures Consistent(db) ==> Consistent(r.db)
  {
    match ActiveSeason(db.seasons)
    case None => Step(db, Rejected(NoActiveSeason))
    case Some(seasonId) =>
      if db.players.rows == map[] then Step(db, Rejected(NoPlayers))
      else if db.games.rows == map[] then Step(db, Rejected(NoGames))
      else Step(db.(nights := Insert(db.nights, Night(seasonId, date, notes))), Applied)
  }

  /** The winner rows of one round, one per listed player, in order. */
  function RoundWinners(roundId: int, playerIds: seq<int>): seq<Winner>
  {
    seq(|playerIds|, j requires 0 <= j < |playerIds| => Winner(roundId, playerIds[j]))
  }

  /** One winner row per player, in order, all pointing at `roundId`. */
  function AddWinners(t: Table<Winner>, roundId: int, playerIds: seq<int>): (r: Table<Winner>)
    ensures r.next == t.next + |playerIds|
    ensures forall k :: t.next <= k < r.next ==> k in r.rows && r.rows[k] == Winner(roundId, playerIds[k - t.next])
    ensures Keyed(t) ==> Keyed(r)
    ensures Keyed(t) ==> forall k :: k in t.rows ==> k in r.rows && r.rows[k] == t.rows[k]
    ensures Keyed(t) ==> forall k :: k in r.rows ==> k in t.rows || t.next <= k < r.next
    ensures Keyed(t) ==> forall k :: k in r.rows && k !in t.rows ==> r.rows[k].roundId == roundId && r.rows[k].playerId in playerIds
    decreases |playerIds|
  {
    if playerIds == [] then t
    else
      var init := playerIds[..|playerIds| - 1];
      assert forall p :: p in init ==> p in playerIds;
      Insert(AddWinners(t, roundId, init), Winner(roundId, playerIds[|playerIds| - 1]))
  }

  /** The writes of a recorded round: the round gets the next round key and
      every listed player a winner row referring to it, in order. */
  function InsertRound(db: Db, nightId: int, gameId: int, roundNumber: int, winnerIds: seq<int>): (r: Db)
    ensures r == db.(rounds := r.rounds, winners := r.winners)
    ensures r.rounds == Insert(db.rounds, Round(nightId, gameId, roundNumber))
    ensures r.winners.next == db.winners.next + |winnerIds|
    ensures forall k :: db.winners.next <= k < r.winners.next ==>
              k in r.winners.rows && r.winners.rows[k] == Winner(db.rounds.next, winnerIds[k - db.winners.next])
    ensures Keyed(db.winners) ==> forall k :: k in r.winners.rows ==> k in db.winners.rows || db.winners.next <= k < r.winners.next
    ensures Keyed(db.winners) ==> forall k :: k in db.winners.rows ==> k in r.winners.rows && r.winners.rows[k] == db.winners.rows[k]
  {
    var roundId := db.rounds.next;
    db.(rounds := Insert(db.rounds, Round(nightId, gameId, roundNumber)),
        winners := AddWinners(db.winners, roundId, winnerIds))
  }

  /** The winner rows of a recorded round follow the earlier ones, which are
      kept. */
  lemma InsertRoundWinners(db: Db, nightId: int, gameId: int, roundNumber: int, winnerIds: seq<int>)
    requires Keyed(db.winners)
    ensures Appended(db.winners, InsertRound(db, nightId, gameId, roundNumber, winnerIds).winners,
                     RoundWinners(db.rounds.next, winnerIds))
  {
  }

  /** A round recorded for an existing night and game, with existing players
      as winners, leaves no orphan. */
  lemma InsertRoundConsistent(db: Db, nightId: int, gameId: int, roundNumber: int, winnerIds: seq<int>)
    ensures Consistent(db) && nightId in db.nights.rows && gameId in db.games.rows
            && (forall p :: p in winnerIds ==> p in db.players.rows)
            ==> Consistent(InsertRound(db, nightId, gameId, roundNumber, winnerIds))
  {
  }

  /** The record-round form: nothing is written without a winner. */
  function RecordRound(db: Db, nightId: int, gameId: int, roundNumber: int, winnerIds: seq<int>): (r: Step)
    ensures winnerIds == [] <==> r.outcome == Rejected(NoWinners)
    ensures winnerIds != [] <==> r.outcome == Applied
    ensures r.outcome != Applied ==> r.db == db
    ensures r.outcome == Applied ==>
      && r.db == db.(rounds := r.db.rounds, winners := r.db.winners)
      && r.db.rounds == Insert(db.rounds, Round(nightId, gameId, roundNumber))
      && r.db.winners.next == db.winners.next + |winnerIds|
      && (forall k :: db.winners.next <= k < r.db.winners.next ==>
            k in r.db.winners.rows && r.db.winners.rows[k] == Winner(db.rounds.next, winnerIds[k - db.winners.next]))
    ensures r.outcome == Applied && Keyed(db.winners) ==>
      && (forall k :: k in db.winners.rows ==> k in r.db.winners.rows && r.db.winners.rows[k] == db.winners.rows[k])
      && (forall k :: k in r.db.winners.rows ==> k in db.winners.rows || db.winners.next <= k < r.db.winners.next)
    ensures Consistent(db) && nightId in db.nights.rows && gameId in db.games.rows
            && (forall p :: p in winnerIds ==> p in db.players.rows)
            ==> Consistent(r.db)
  {
    if winnerIds == [] then Step(db, Rejected(NoWinners))
    else
      InsertRoundConsistent(db, nightId, gameId, roundNumber, winnerIds);
      Step(InsertRound(db, nightId, gameId, roundNumber, winnerIds), Applied)
  }

  function RecordPenalty(db: Db, nightId: int, playerId: int, penaltyType: string, amount: int, reason: string): (r: Db)
    ensures r == db.(penalties := r.penalties)
    ensures db.penalties.next in r.penalties.rows
    ensures r.penalties.rows[db.penalties.next] == Penalty(nightId, playerId, penaltyType, amount, reason)
    ensures r.penalties.next == db.penalties.next + 1
    ensures forall k :: k in db.penalties.rows && k != db.penalties.next ==>
              k in r.penalties.rows && r.penalties.rows[k] == db.penalties.rows[k]
    ensures forall k :: k in r.penalties.rows ==> k in db.penalties.rows || k == db.penalties.next
    ensures Keyed(db.penalties) ==> |r.penalties.rows| == |db.penalties.rows| + 1
    ensures Consistent(db) && nightId in db.nights.rows && playerId in db.players.rows ==> Consistent(r)
  {
    var row := Penalty(nightId, playerId, penaltyType, amount, reason);
    PenaltyInsertConsistent(db, row);
    db.(penalties := Insert(db.penalties, row))
  }

  /** A penalty for an existing night and player leaves no orphan. */
  lemma PenaltyInsertConsistent(db: Db, row: Penalty)
    ensures Consistent(db) && row.nightId in db.nights.rows && row.playerId in db.players.rows
            ==> Consistent(db.(penalties := Insert(db.penalties, row)))
  {
  }

  /** The admin edit of a penalty: new amount and reason. */
  function UpdatePenalty(db: Db, id: int, amount: int, reason: string): (r: Db)
    ensures r == db.(penalties := r.penalties) && r.penalties.rows.Keys == db.penalties.rows.Keys
    ensures r.penalties.next == db.penalties.next
    ensures id in db.penalties.rows ==> r.penalties.rows[id] == db.penalties.rows[id].(amount := amount, reason := reason)
    ensures forall k :: k in db.penalties.rows && k != id ==> r.penalties.rows[k] == db.penalties.rows[k]
    ensures Consistent(db) ==> Consistent(r)
  {
    if id in db.penalties.rows then
      db.(penalties := Update(db.penalties, id, db.penalties.rows[id].(amount := amount, reason := reason)))
    else db
  }

  function DeletePenalty(db: Db, id: int): (r: Db)
    ensures r == db.(penalties := r.penalties)
    ensures id !in r.penalties.rows && r.penalties.next == db.penalties.next
    ensures forall k :: k in db.penalties.rows && k != id ==> k in r.penalties.rows && r.penalties.rows[k] == db.penalties.rows[k]
    ensures forall k :: k in r.penalties.rows ==> k in db.penalties.rows
    ensures Consistent(db) ==> Consistent(r)
  {
    db.(penalties := Delete(db.penalties, {id}))
  }

  // ---------------------------------------------------------------------------
  // Cascade deletes: dependants first, then the row itself

  /** The keys selected by `WHERE round_id IN (...)`. */
  function WinnersOfRounds(t: Table<Winner>, roundIds: set<int>): set<int>
  {
    set k | k in t.rows && t.rows[k].roundId in roundIds
  }

  function WinnersOfPlayer(t: Table<Winner>, playerId: int): set<int>
  {
    set k | k in t.rows && t.rows[k].playerId == playerId
  }

  function RoundsOfGame(t: Table<Round>, gameId: int): set<int>
  {
    set k | k in t.rows && t.rows[k].gameId == gameId
  }

  function RoundsOfNight(t: Table<Round>, nightId: int): set<int>
  {
    set k | k in t.rows && t.rows[k].nightId == nightId
  }

  function PenaltiesOfPlayer(t: Table<Penalty>, playerId: int): set<int>
  {
    set k | k in t.rows && t.rows[k].playerId == playerId
  }

  function PenaltiesOfNight(t: Table<Penalty>, nightId: int): set<int>
  {
    set k | k in t.rows && t.rows[k].nightId == nightId
  }

  /** Deleting a round takes its winner rows with it. */
  function DeleteRound(db: Db, roundId: int): (r: Db)
    ensures r == db.(winners := r.winners, rounds := r.rounds)
    ensures r.winners.next == db.winners.next && r.rounds.next == db.rounds.next
    ensures roundId !in r.rounds.rows
    ensures forall k :: k in r.winners.rows ==> r.winners.rows[k].roundId != roundId
    ensures forall k :: k in r.rounds.rows ==> k in db.rounds.rows && r.rounds.rows[k] == db.rounds.rows[k]
    ensures forall k :: k in r.winners.rows ==> k in db.winners.rows && r.winners.rows[k] == db.winners.rows[k]
    ensures forall k :: k in db.rounds.rows && k != roundId ==> k in r.rounds.rows
    ensures forall k :: k in db.winners.rows && db.winners.rows[k].roundId != roundId ==> k in r.winners.rows
    ensures Consistent(db) ==> Consistent(r)
  {
    db.(winners := Delete(db.winners, WinnersOfRounds(db.winners, {roundId})),
        rounds := Delete(db.rounds, {roundId}))
  }

  /** Deleting a player takes their wins and penalties with them. */
  function DeletePlayer(db: Db, playerId: int): (r: Db)
    ensures r == db.(winners := r.winners, penalties := r.penalties, players := r.players)
    ensures r.winners.next == db.winners.next && r.penalties.next == db.penalties.next && r.players.next == db.players.next
    ensures playerId !in r.players.rows
    ensures forall k :: k in r.winners.rows ==> r.winners.rows[k].playerId != playerId
    ensures forall k :: k in r.penalties.rows ==> r.penalties.rows[k].playerId != playerId
    ensures forall k :: k in r.players.rows ==> k in db.players.rows && r.players.rows[k] == db.players.rows[k]
    ensures forall k :: k in r.winners.rows ==> k in db.winners.rows && r.winners.rows[k] == db.winners.rows[k]
    ensures forall k :: k in r.penalties.rows ==> k in db.penalties.rows && r.penalties.rows[k] == db.penalties.rows[k]
    ensures forall k :: k in db.players.rows && k != playerId ==> k in r.players.rows
    ensures forall k :: k in db.winners.rows && db.winners.rows[k].playerId != playerId ==> k in r.winners.rows
    ensures forall k :: k in db.penalties.rows && db.penalties.rows[k].playerId != playerId ==> k in r.penalties.rows
    ensures Consistent(db) ==> Consistent(r)
  {
    db.(winners := Delete(db.winners, WinnersOfPlayer(db.winners, playerId)),
        penalties := Delete(db.penalties, PenaltiesOfPlayer(db.penalties, playerId)),
        players := Delete(db.players, {playerId}))
  }

  /** Deleting a game takes its rounds, and their winner rows, with it. */
  function DeleteGame(db: Db, gameId: int): (r: Db)
    ensures r == db.(winners := r.winners, rounds := r.rounds, games := r.games)
    ensures r.winners.next == db.winners.next && r.rounds.next == db.rounds.next && r.games.next == db.games.next
    ensures gameId !in r.games.rows
    ensures forall k :: k in r.rounds.rows ==> r.rounds.rows[k].gameId != gameId
    ensures forall k :: k in r.winners.rows ==> r.winners.rows[k].roundId !in RoundsOfGame(db.rounds, gameId)
    ensures forall k :: k in r.games.rows ==> k in db.games.rows && r.games.rows[k] == db.games.rows[k]
    ensures forall k :: k in r.rounds.rows ==> k in db.rounds.rows && r.rounds.rows[k] == db.rounds.rows[k]
    ensures forall k :: k in r.winners.rows ==> k in db.winners.rows && r.winners.rows[k] == db.winners.rows[k]
    ensures forall k :: k in db.games.rows && k != gameId ==> k in r.games.rows
    ensures forall k :: k in db.rounds.rows && db.rounds.rows[k].gameId != gameId ==> k in r.rounds.rows
    ensures forall k :: k in db.winners.rows && db.winners.rows[k].roundId !in RoundsOfGame(db.rounds, gameId) ==> k in r.winners.rows
    ensures Consistent(db) ==> Consistent(r)
  {
    var roundIds := RoundsOfGame(db.rounds, gameId);
    db.(winners := Delete(db.winners, WinnersOfRounds(db.winners, roundIds)),
        rounds := Delete(db.rounds, roundIds),
        games := Delete(db.games, {gameId}))
  }

  /** Deleting a game night takes its rounds, their winner rows and its
      penalties with it. */
  function DeleteNight(db: Db, nightId: int): (r: Db)
    ensures r == db.(winners := r.winners, rounds := r.rounds, penalties := r.penalties, nights := r.nights)
    ensures r.winners.next == db.winners.next && r.rounds.next == db.rounds.next
    ensures r.penalties.next == db.penalties.next && r.nights.next == db.nights.next
    ensures nightId !in r.nights.rows
    ensures forall k :: k in r.rounds.rows ==> r.rounds.rows[k].nightId != nightId
    ensures forall k :: k in r.penalties.rows ==> r.penalties.rows[k].nightId != nightId
    ensures forall k :: k in r.winners.rows ==> r.winners.rows[k].roundId !in RoundsOfNight(db.rounds, nightId)
    ensures forall k :: k in r.nights.rows ==> k in db.nights.rows && r.nights.rows[k] == db.nights.rows[k]
    ensures forall k :: k in r.rounds.rows ==> k in db.rounds.rows && r.rounds.rows[k] == db.rounds.rows[k]
    ensures forall k :: k in r.penalties.rows ==> k in db.penalties.rows && r.penalties.rows[k] == db.penalties.rows[k]
    ensures forall k :: k in r.winners.rows ==> k in db.winners.rows && r.winners.rows[k] == db.winners.rows[k]
    ensures forall k :: k in db.nights.rows && k != nightId ==> k in r.nights.rows
    ensures forall k :: k in db.rounds.rows && db.rounds.rows[k].nightId != nightId ==> k in r.rounds.rows
    ensures forall k :: k in db.penalties.rows && db.penalties.rows[k].nightId != nightId ==> k in r.penalties.rows
    ensures forall k :: k in db.winners.rows && db.winners.rows[k].roundId !in RoundsOfNight(db.rounds, nightId) ==> k in r.winners.rows
    ensures Consistent(db) ==> Consistent(r)
  {
    var roundIds := RoundsOfNight(db.rounds, nightId);
    db.(winners := Delete(db.winners, WinnersOfRounds(db.winners, roundIds)),
        rounds := Delete(db.rounds, roundIds),
        penalties := Delete(db.penalties, PenaltiesOfNight(db.penalties, nightId)),
        nights := Delete(db.nights, {nightId}))
  }
}
