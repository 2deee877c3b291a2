/**
 * The relational store of the game-night tracker: seven tables and the
 * settings key/value table, as values.  A table is a map from its integer
 * primary key to its row, plus the key the next insert receives (SQLite's
 * AUTOINCREMENT and PostgreSQL's SERIAL hand out increasing keys and never
 * reuse one).  Columns the model leaves out (profile pictures, creation
 * timestamps, round notes) are not represented.
 */
module Tables {

  datatype Option<T> = None | Some(value: T)

  datatype Player = Player(name: string)
  datatype Season = Season(name: string, startDate: string, endDate: Option<string>, isActive: bool)
  datatype Game = Game(name: string, pointsPerWin: int, description: Option<string>)
  datatype Night = Night(seasonId: int, date: string, notes: string)
  datatype Round = Round(nightId: int, gameId: int, roundNumber: int)
  datatype Winner = Winner(roundId: int, playerId: int)
  /** `amount` is a REAL column; the model keeps it as a whole number. */
  datatype Penalty = Penalty(nightId: int, playerId: int, penaltyType: string, amount: int, reason: string)

  datatype Table<T> = Table(rows: map<int, T>, next: int)

  function EmptyTable<T>(): Table<T>
  {
    Table(map[], 1)
  }

  /** Keys start at 1, and every key was handed out before: it is below
      `next`. */
  predicate Keyed<T>(t: Table<T>)
  {
    0 < t.next && forall k :: k in t.rows ==> 0 < k < t.next
  }

  /** An INSERT: the row gets the next key, which is then used up. */
  function Insert<T>(t: Table<T>, row: T): (r: Table<T>)
    ensures r.next == t.next + 1
    ensures t.next in r.rows && r.rows[t.next] == row
    ensures forall k :: k in t.rows ==> k in r.rows
    ensures forall k :: k in t.rows && k != t.next ==> r.rows[k] == t.rows[k]
    ensures forall k :: k in r.rows ==> k in t.rows || k == t.next
    ensures Keyed(t) ==> Keyed(r) && t.next !in t.rows && r.rows.Keys == t.rows.Keys + {t.next}
  {
    Table(t.rows[t.next := row], t.next + 1)
  }

  /** A DELETE of the rows with the given keys. */
  function Delete<T>(t: Table<T>, keys: set<int>): (r: Table<T>)
    ensures Keyed(t) ==> Keyed(r)
    ensures r.next == t.next
    ensures forall k :: k in r.rows <==> k in t.rows && k !in keys
    ensures forall k :: k in r.rows ==> r.rows[k] == t.rows[k]
  {
    Table(t.rows - keys, t.next)
  }

  /** An UPDATE by primary key; a key that is absent changes nothing. */
  function Update<T>(t: Table<T>, key: int, row: T): (r: Table<T>)
    ensures r.rows.Keys == t.rows.Keys && r.next == t.next
    ensures key in t.rows ==> r.rows[key] == row
    ensures forall k :: k in t.rows && k != key ==> r.rows[k] == t.rows[k]
  {
    if key in t.rows then Table(t.rows[key := row], t.next) else t
  }

  /** `t` is `t0` after the rows `added` were inserted one by one: they
      hold the next keys in order, every earlier row is kept as it was, and
      no other key appears. */
  predicate Appended<T(==)>(t0: Table<T>, t: Table<T>, added: seq<T>)
  {
    && Keyed(t)
    && t.next == t0.next + |added|
    && (forall k :: t0.next <= k < t.next ==> k in t.rows && t.rows[k] == added[k - t0.next])
    && (forall k :: k in t0.rows ==> k in t.rows && t.rows[k] == t0.rows[k])
    && (forall k :: k in t.rows ==> k in t0.rows || t0.next <= k < t.next)
  }

  /** One more insert appends one more row. */
  lemma AppendedInsert<T>(t0: Table<T>, t: Table<T>, added: seq<T>, row: T)
    requires Appended(t0, t, added)
    ensures Appended(t0, Insert(t, row), added + [row])
  {
    var r := Insert(t, row);
    var all := added + [row];
    forall k | t0.next <= k < r.next ensures k in r.rows && r.rows[k] == all[k - t0.next] {
      if k < t.next {
        assert all[k - t0.next] == added[k - t0.next];
      }
    }
  }

  /** Two runs of inserts, one after the other, append both runs. */
  lemma AppendedChain<T>(t0: Table<T>, t1: Table<T>, t2: Table<T>, a: seq<T>, b: seq<T>)
    requires Appended(t0, t1, a) && Appended(t1, t2, b)
    ensures Appended(t0, t2, a + b)
  {
    var all := a + b;
    forall k | t0.next <= k < t2.next ensures k in t2.rows && t2.rows[k] == all[k - t0.next] {
      if k < t1.next {
        assert all[k - t0.next] == a[k - t0.next];
      } else {
        assert all[k - t0.next] == b[k - t1.next];
      }
    }
  }

  function PlayerNames(t: Table<Player>): set<string>
  {
    set k | k in t.rows :: t.rows[k].name
  }

  function SeasonNames(t: Table<Season>): set<string>
  {
    set k | k in t.rows :: t.rows[k].name
  }

  function GameNames(t: Table<Game>): set<string>
  {
    set k | k in t.rows :: t.rows[k].name
  }

  /** The UNIQUE constraints on the `name` columns. */
  predicate UniquePlayerNames(t: Table<Player>)
  {
    forall i, j :: i in t.rows && j in t.rows && t.rows[i].name == t.rows[j].name ==> i == j
  }

  predicate UniqueSeasonNames(t: Table<Season>)
  {
    forall i, j :: i in t.rows && j in t.rows && t.rows[i].name == t.rows[j].name ==> i == j
  }

  predicate UniqueGameNames(t: Table<Game>)
  {
    forall i, j :: i in t.rows && j in t.rows && t.rows[i].name == t.rows[j].name ==> i == j
  }

  /** `SELECT id FROM players WHERE name = ?` on a name that is present. */
  function PlayerNamed(t: Table<Player>, name: string): (k: int)
    requires UniquePlayerNames(t) && name in PlayerNames(t)
    ensures k in t.rows && t.rows[k].name == name
  {
    var k :| k in t.rows && t.rows[k].name == name; k
  }

  function SeasonNamed(t: Table<Season>, name: string): (k: int)
    requires UniqueSeasonNames(t) && name in SeasonNames(t)
    ensures k in t.rows && t.rows[k].name == name
  {
    var k :| k in t.rows && t.rows[k].name == name; k
  }

  function GameNamed(t: Table<Game>, name: string): (k: int)
    requires UniqueGameNames(t) && name in GameNames(t)
    ensures k in t.rows && t.rows[k].name == name
  {
    var k :| k in t.rows && t.rows[k].name == name; k
  }

  lemma InsertPlayerNames(t: Table<Player>, row: Player)
    ensures Keyed(t) ==> PlayerNames(Insert(t, row)) == PlayerNames(t) + {row.name}
  {
    if !Keyed(t) { return; }
    var r := Insert(t, row);
    forall n | n in PlayerNames(r) ensures n in PlayerNames(t) + {row.name} {
      var k :| k in r.rows && r.rows[k].name == n;
      if k != t.next { assert k in t.rows; }
    }
    forall n | n in PlayerNames(t) ensures n in PlayerNames(r) {
      var k :| k in t.rows && t.rows[k].name == n;
      assert r.rows[k] == t.rows[k];
    }
    assert row.name == r.rows[t.next].name;
  }

  lemma InsertSeasonNames(t: Table<Season>, row: Season)
    ensures Keyed(t) ==> SeasonNames(Insert(t, row)) == SeasonNames(t) + {row.name}
  {
    if !Keyed(t) { return; }
    var r := Insert(t, row);
    forall n | n in SeasonNames(r) ensures n in SeasonNames(t) + {row.name} {
      var k :| k in r.rows && r.rows[k].name == n;
      if k != t.next { assert k in t.rows; }
    }
    forall n | n in SeasonNames(t) ensures n in SeasonNames(r) {
      var k :| k in t.rows && t.rows[k].name == n;
      assert r.rows[k] == t.rows[k];
    }
    assert row.name == r.rows[t.next].name;
  }

  lemma InsertGameNames(t: Table<Game>, row: Game)
    ensures Keyed(t) ==> GameNames(Insert(t, row)) == GameNames(t) + {row.name}
  {
    if !Keyed(t) { return; }
    var r := Insert(t, row);
    forall n | n in GameNames(r) ensures n in GameNames(t) + {row.name} {
      var k :| k in r.rows && r.rows[k].name == n;
      if k != t.next { assert k in t.rows; }
    }
    forall n | n in GameNames(t) ensures n in GameNames(r) {
      var k :| k in t.rows && t.rows[k].name == n;
      assert r.rows[k] == t.rows[k];
    }
    assert row.name == r.rows[t.next].name;
  }

  function ActiveIds(t: Table<Season>): set<int>
  {
    set k | k in t.rows && t.rows[k].isActive
  }

  predicate AtMostOneActive(t: Table<Season>)
  {
    forall i, j :: i in ActiveIds(t) && j in ActiveIds(t) ==> i == j
  }

  datatype Db = Db(
    players: Table<Player>,
    seasons: Table<Season>,
    games: Table<Game>,
    nights: Table<Night>,
    rounds: Table<Round>,
    winners: Table<Winner>,
    penalties: Table<Penalty>,
    settings: map<string, string>)

  function EmptyDb(): Db
  {
    Db(EmptyTable(), EmptyTable(), EmptyTable(), EmptyTable(), EmptyTable(), EmptyTable(), EmptyTable(), map[])
  }

  predicate AllKeyed(db: Db)
  {
    Keyed(db.players) && Keyed(db.seasons) && Keyed(db.games) && Keyed(db.nights)
    && Keyed(db.rounds) && Keyed(db.winners) && Keyed(db.penalties)
  }

  predicate NamesUnique(db: Db)
  {
    UniquePlayerNames(db.players) && UniqueSeasonNames(db.seasons) && UniqueGameNames(db.games)
  }

  /** Every foreign key refers to a row that exists. */
  predicate NoOrphans(db: Db)
  {
    && (forall k :: k in db.nights.rows ==> db.nights.rows[k].seasonId in db.seasons.rows)
    && (forall k :: k in db.rounds.rows ==> db.rounds.rows[k].nightId in db.nights.rows)
    && (forall k :: k in db.rounds.rows ==> db.rounds.rows[k].gameId in db.games.rows)
    && (forall k :: k in db.winners.rows ==> db.winners.rows[k].roundId in db.rounds.rows)
    && (forall k :: k in db.winners.rows ==> db.winners.rows[k].playerId in db.players.rows)
    && (forall k :: k in db.penalties.rows ==> db.penalties.rows[k].nightId in db.nights.rows)
    && (forall k :: k in db.penalties.rows ==> db.penalties.rows[k].playerId in db.players.rows)
  }

  /** The invariant every store action keeps. */
  predicate Consistent(db: Db)
  {
    AllKeyed(db) && NamesUnique(db) && AtMostOneActive(db.seasons) && NoOrphans(db)
  }

  lemma EmptyDbConsistent()
    ensures Consistent(EmptyDb())
  {
  }
}
