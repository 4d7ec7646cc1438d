/**
 * The persistence side of ConnectionLogs: the MySQL `Users` table seen as an
 * in-memory store, the statements the plugin issues against it, and the
 * `Queries` class with its process-wide `DatabaseConnected` flag.
 *
 * The MySQL server is the class `MySqlServer`; each SQL statement the plugin
 * sends is one member of it. The plugin's own code (`Queries`) is modelled
 * statement for statement on top of it.
 */
module ConnectionQueries {

  /** One row of the `Users` table (also the `User` record the reader fills in). */
  datatype User = User(id: int, steamId: string, clientName: string, connectedAt: int)

  /** The exceptions a statement can raise in MySqlConnector. */
  datatype DbError =
    | ConnectionFailed   // connection.Open() cannot reach the server
    | NoSuchTable        // the statement names a table that does not exist
    | DuplicateKey       // the INSERT would break `UNIQUE KEY SteamId`
    | IdRangeExhausted   // AUTO_INCREMENT ran past the top of `int(11)`
    | CreateRefused      // the account lacks the CREATE privilege

  /** A statement's value, or the exception it throws. */
  datatype Result<T> = Ok(value: T) | Err(error: DbError)

  /** Largest value of the signed 32-bit `Id int(11)` column. */
  const MaxId: int := 0x7fff_ffff

  /** The LIMIT of the history query. */
  const RecentLimit: nat := 50

  // ---------------------------------------------------------------------
  // The table's contents, as values

  /** Some row has the given SteamId. */
  predicate HasSteamId(rows: seq<User>, steamId: string) {
    exists i :: 0 <= i < |rows| && rows[i].steamId == steamId
  }

  /** `SELECT COUNT(*) FROM Users WHERE SteamId = steamId`. */
  function CountSteamId(rows: seq<User>, steamId: string): (n: nat)
    ensures n <= |rows|
  {
    if rows == [] then 0
    else (if rows[0].steamId == steamId then 1 else 0) + CountSteamId(rows[1..], steamId)
  }

  /** `UNIQUE KEY SteamId`: no two rows share a SteamId. */
  ghost predicate UniqueSteamIds(rows: seq<User>) {
    forall i, j :: 0 <= i < j < |rows| ==> rows[i].steamId != rows[j].steamId
  }

  /** `PRIMARY KEY Id` together with AUTO_INCREMENT: ids are distinct and below the counter. */
  ghost predicate IdsIssuedBelow(rows: seq<User>, autoIncrement: int) {
    && (forall i, j :: 0 <= i < j < |rows| ==> rows[i].id != rows[j].id)
    && (forall i :: 0 <= i < |rows| ==> 1 <= rows[i].id < autoIncrement)
  }

  /** The table obeys both keys of its schema. */
  ghost predicate WellKeyed(rows: seq<User>, autoIncrement: int) {
    UniqueSteamIds(rows) && IdsIssuedBelow(rows, autoIncrement)
  }

  /**
   * `UPDATE Users SET ClientName = name, ConnectedAt = now WHERE SteamId = steamId`:
   * every matching row gets the new name and time, its key columns stay, and every
   * other row is left exactly as it was.
   */
  function UpdateWhere(rows: seq<User>, steamId: string, name: string, now: int): (r: seq<User>)
    ensures |r| == |rows|
    ensures forall i :: 0 <= i < |rows| ==> r[i].id == rows[i].id && r[i].steamId == rows[i].steamId
    ensures forall i :: 0 <= i < |rows| && rows[i].steamId != steamId ==> r[i] == rows[i]
    ensures forall i :: 0 <= i < |rows| && rows[i].steamId == steamId ==>
              r[i].clientName == name && r[i].connectedAt == now
  {
    seq(|rows|, i requires 0 <= i < |rows| =>
      if rows[i].steamId == steamId then rows[i].(clientName := name, connectedAt := now) else rows[i])
  }

  /** Rows ordered most recent first (`ORDER BY ConnectedAt DESC`). */
  ghost predicate NewestFirst(rows: seq<User>) {
    forall i, j :: 0 <= i < j < |rows| ==> rows[j].connectedAt <= rows[i].connectedAt
  }

  /** Every row of `rows` that is not in `r` is no more recent than any row of `r`. */
  ghost predicate LeftOutAreOlder(rows: seq<User>, r: seq<User>) {
    forall j, i :: 0 <= j < |rows| && 0 <= i < |r| && rows[j] !in r ==>
      rows[j].connectedAt <= r[i].connectedAt
  }

  /**
   * `r` is an answer to "the `limit` most recent rows of `rows`, most recent first":
   * `limit` rows (or all when fewer), taken from the table with no row repeated
   * more often than the table holds it, newest first, none left out that is more
   * recent than one kept, and the whole table, reordered, when it fits.
   */
  ghost predicate RecentHistory(rows: seq<User>, r: seq<User>, limit: nat) {
    && |r| == (if |rows| < limit then |rows| else limit)
    && NewestFirst(r)
    && LeftOutAreOlder(rows, r)
    && multiset(r) <= multiset(rows)
    && (|rows| <= limit ==> multiset(r) == multiset(rows))
  }

  /** The position of a most recent row; among equals, the first one. */
  function MostRecentIndex(rows: seq<User>): (k: nat)
    requires rows != []
    ensures k < |rows|
  {
    if |rows| == 1 then 0
    else
      var k := 1 + MostRecentIndex(rows[1..]);
      if rows[k].connectedAt <= rows[0].connectedAt then 0 else k
  }

  /**
   * The result set of `SELECT * FROM Users ORDER BY ConnectedAt DESC LIMIT limit`:
   * the most recent row first, then the answer for the remaining rows. The order
   * of rows with equal `ConnectedAt` is left open by SQL; this model takes them in
   * table order.
   */
  function TopRecent(rows: seq<User>, limit: nat): (r: seq<User>)
    ensures |r| == if |rows| < limit then |rows| else limit
    decreases limit
  {
    if limit == 0 || rows == [] then []
    else
      var k := MostRecentIndex(rows);
      [rows[k]] + TopRecent(RemoveAt(rows, k), limit - 1)
  }

  /** `rows` without its `k`-th row. */
  function RemoveAt(rows: seq<User>, k: nat): (r: seq<User>)
    requires k < |rows|
    ensures |r| == |rows| - 1
  {
    rows[..k] + rows[k+1..]
  }

  /**
   * Putting the taken row back in front of rows drawn from the rest gives rows
   * drawn from the table, and the whole table reordered when they were the whole rest.
   */
  lemma PutBack(rows: seq<User>, k: nat, tail: seq<User>)
    requires k < |rows|
    ensures multiset(tail) <= multiset(RemoveAt(rows, k)) ==> multiset([rows[k]] + tail) <= multiset(rows)
    ensures multiset(tail) == multiset(RemoveAt(rows, k)) ==> multiset([rows[k]] + tail) == multiset(rows)
  {
    assert rows == rows[..k] + [rows[k]] + rows[k+1..];
    assert multiset([rows[k]] + tail) == multiset([rows[k]]) + multiset(tail);
  }

  /** The `j`-th remaining row is the `j`-th row before position `k` and the next one from `k` on. */
  lemma RemoveAtIndex(rows: seq<User>, k: nat, j: nat)
    requires k < |rows| && j < |rows| - 1
    ensures RemoveAt(rows, k)[j] == rows[if j < k then j else j + 1]
  {
  }

  // ---------------------------------------------------------------------
  // Lemmas about the table

  /** No row is more recent than the one MostRecentIndex picks. */
  lemma {:induction false} MostRecentIndexIsLatest(rows: seq<User>)
    requires rows != []
    ensures forall j :: 0 <= j < |rows| ==> rows[j].connectedAt <= rows[MostRecentIndex(rows)].connectedAt
  {
    if |rows| > 1 {
      MostRecentIndexIsLatest(rows[1..]);
      var k := 1 + MostRecentIndex(rows[1..]);
      forall j | 1 <= j < |rows| ensures rows[j].connectedAt <= rows[k].connectedAt {
        assert rows[j] == rows[1..][j - 1];
      }
    }
  }

  /** The COUNT(*) > 0 test of UserExists means "some row has this SteamId". */
  lemma {:induction false} CountPositiveIff(rows: seq<User>, steamId: string)
    ensures CountSteamId(rows, steamId) > 0 <==> HasSteamId(rows, steamId)
  {
    if rows != [] {
      CountPositiveIff(rows[1..], steamId);
      if HasSteamId(rows[1..], steamId) {
        var i :| 0 <= i < |rows[1..]| && rows[1..][i].steamId == steamId;
        assert rows[i + 1].steamId == steamId;
      }
      if HasSteamId(rows, steamId) && rows[0].steamId != steamId {
        var i :| 0 <= i < |rows| && rows[i].steamId == steamId;
        assert rows[1..][i - 1].steamId == steamId;
      }
    }
  }

  /** Under the unique key a SteamId is counted at most once. */
  lemma {:induction false} UniqueCountAtMostOne(rows: seq<User>, steamId: string)
    requires UniqueSteamIds(rows)
    ensures CountSteamId(rows, steamId) <= 1
  {
    if rows != [] {
      UniqueCountAtMostOne(rows[1..], steamId);
      if rows[0].steamId == steamId {
        assert !HasSteamId(rows[1..], steamId);
        CountPositiveIff(rows[1..], steamId);
      }
    }
  }

  /**
   * Under the unique key the UPDATE touches exactly one row when the SteamId is
   * present: that row gets the new name and time, keeps its Id and SteamId, and
   * all other rows stay as they were.
   */
  lemma UpdateWhereSingleRow(rows: seq<User>, k: nat, name: string, now: int)
    requires UniqueSteamIds(rows)
    requires k < |rows|
    ensures UpdateWhere(rows, rows[k].steamId, name, now)
            == rows[k := User(rows[k].id, rows[k].steamId, name, now)]
  {
    var r := UpdateWhere(rows, rows[k].steamId, name, now);
    var s := rows[k := User(rows[k].id, rows[k].steamId, name, now)];
    forall i | 0 <= i < |rows| ensures r[i] == s[i] {
      if i != k {
        assert rows[i].steamId != rows[k].steamId by {
          if i < k { assert rows[i].steamId != rows[k].steamId; }
        }
      }
    }
  }

  /** The UPDATE keeps both keys of the table. */
  lemma UpdateWhereKeepsKeys(rows: seq<User>, autoIncrement: int, steamId: string, name: string, now: int)
    requires WellKeyed(rows, autoIncrement)
    ensures WellKeyed(UpdateWhere(rows, steamId, name, now), autoIncrement)
    ensures CountSteamId(UpdateWhere(rows, steamId, name, now), steamId) == CountSteamId(rows, steamId)
  {
    var r := UpdateWhere(rows, steamId, name, now);
    SameSteamIdsSameCount(rows, r, steamId);
  }

  /** Two tables with the same SteamId column count every SteamId alike. */
  lemma {:induction false} SameSteamIdsSameCount(a: seq<User>, b: seq<User>, steamId: string)
    requires |a| == |b|
    requires forall i :: 0 <= i < |a| ==> a[i].steamId == b[i].steamId
    ensures CountSteamId(a, steamId) == CountSteamId(b, steamId)
  {
    if a != [] {
      SameSteamIdsSameCount(a[1..], b[1..], steamId);
    }
  }

  /** Appending a row with a new SteamId and the next Id keeps both keys. */
  lemma AppendKeepsKeys(rows: seq<User>, autoIncrement: int, row: User)
    requires WellKeyed(rows, autoIncrement)
    requires !HasSteamId(rows, row.steamId)
    requires row.id == autoIncrement && 1 <= autoIncrement
    ensures WellKeyed(rows + [row], autoIncrement + 1)
  {
    var r := rows + [row];
    forall i, j | 0 <= i < j < |r| ensures r[i].steamId != r[j].steamId {
      if j == |rows| {
        assert r[i] == rows[i];
      }
    }
  }

  /** A row appended under a fresh SteamId is the only row with it. */
  lemma {:induction false} AppendFreshCountsOnce(rows: seq<User>, row: User)
    requires !HasSteamId(rows, row.steamId)
    ensures CountSteamId(rows + [row], row.steamId) == 1
  {
    if rows == [] {
      assert rows + [row] == [row];
    } else {
      assert (rows + [row])[1..] == rows[1..] + [row];
      forall i | 0 <= i < |rows[1..]| ensures rows[1..][i].steamId != row.steamId {
        assert rows[1..][i] == rows[i + 1];
      }
      assert rows[0].steamId != row.steamId;
      AppendFreshCountsOnce(rows[1..], row);
    }
  }

  /** A row no older than any row of a newest-first list can head it. */
  lemma PrependNewest(m: User, tail: seq<User>)
    requires NewestFirst(tail)
    requires forall j :: 0 <= j < |tail| ==> tail[j].connectedAt <= m.connectedAt
    ensures NewestFirst([m] + tail)
  {
    var r := [m] + tail;
    forall i, j | 0 <= i < j < |r| ensures r[j].connectedAt <= r[i].connectedAt {
      assert r[j] == tail[j - 1];
      if i > 0 { assert r[i] == tail[i - 1]; }
    }
  }

  /** A result set is no more recent than the table it is drawn from. */
  lemma {:induction false} TopRecentBoundedBy(rows: seq<User>, limit: nat, latest: int)
    requires forall j :: 0 <= j < |rows| ==> rows[j].connectedAt <= latest
    ensures forall i :: 0 <= i < |TopRecent(rows, limit)| ==> TopRecent(rows, limit)[i].connectedAt <= latest
    decreases limit
  {
    if limit != 0 && rows != [] {
      var k := MostRecentIndex(rows);
      var rest := RemoveAt(rows, k);
      forall j | 0 <= j < |rest| ensures rest[j].connectedAt <= latest {
        RemoveAtIndex(rows, k, j);
      }
      TopRecentBoundedBy(rest, limit - 1, latest);
      var tail := TopRecent(rest, limit - 1);
      var r := TopRecent(rows, limit);
      assert r == [rows[k]] + tail;
      forall i | 0 <= i < |r| ensures r[i].connectedAt <= latest {
        if i > 0 { assert r[i] == tail[i - 1]; }
      }
    }
  }

  /** The result set comes most recent first. */
  lemma {:induction false} TopRecentNewestFirst(rows: seq<User>, limit: nat)
    ensures NewestFirst(TopRecent(rows, limit))
    decreases limit
  {
    if limit != 0 && rows != [] {
      var k := MostRecentIndex(rows);
      var rest := RemoveAt(rows, k);
      var tail := TopRecent(rest, limit - 1);
      assert TopRecent(rows, limit) == [rows[k]] + tail;
      TopRecentNewestFirst(rest, limit - 1);
      MostRecentIndexIsLatest(rows);
      TopRecentBoundedBy(rest, limit - 1, rows[k].connectedAt);
      PrependNewest(rows[k], tail);
    }
  }

  /** A row that the LIMIT leaves out is no more recent than any row it keeps. */
  lemma {:induction false} TopRecentLeavesOutOlder(rows: seq<User>, limit: nat)
    ensures LeftOutAreOlder(rows, TopRecent(rows, limit))
    decreases limit
  {
    if limit != 0 && rows != [] {
      var k := MostRecentIndex(rows);
      var rest := RemoveAt(rows, k);
      var tail := TopRecent(rest, limit - 1);
      var r := [rows[k]] + tail;
      assert TopRecent(rows, limit) == r;
      TopRecentLeavesOutOlder(rest, limit - 1);
      MostRecentIndexIsLatest(rows);
      forall j, i | 0 <= j < |rows| && 0 <= i < |r| && rows[j] !in r
        ensures rows[j].connectedAt <= r[i].connectedAt
      {
        if i == 0 {
          assert r[0] == rows[k];
        } else {
          assert r[i] == tail[i - 1];
          assert j != k;
          var j' := if j < k then j else j - 1;
          RemoveAtIndex(rows, k, j');
          assert rest[j'] !in tail;
        }
      }
    }
  }

  /**
   * The result set again, built the same way, carrying how it draws on the table.
   * A proof device for the two lemmas below: it keeps these facts away from every
   * other proof that mentions `TopRecent`.
   */
  ghost function DrawnRows(rows: seq<User>, limit: nat): (r: seq<User>)
    ensures r == TopRecent(rows, limit)
    ensures multiset(r) <= multiset(rows)
    ensures |rows| <= limit ==> multiset(r) == multiset(rows)
    decreases limit
  {
    if limit == 0 || rows == [] then []
    else
      var k := MostRecentIndex(rows);
      var tail := DrawnRows(RemoveAt(rows, k), limit - 1);
      PutBack(rows, k, tail);
      [rows[k]] + tail
  }

  /** The result set takes no row more often than the table holds it. */
  lemma TopRecentSubMultiset(rows: seq<User>, limit: nat)
    ensures multiset(TopRecent(rows, limit)) <= multiset(rows)
  {
    var r := DrawnRows(rows, limit);
  }

  /** When the table fits in the limit, the result set is the whole table, reordered. */
  lemma TopRecentWholeTable(rows: seq<User>, limit: nat)
    requires |rows| <= limit
    ensures multiset(TopRecent(rows, limit)) == multiset(rows)
  {
    var r := DrawnRows(rows, limit);
  }

  /** Every property the history query promises, for the result set this model computes. */
  lemma TopRecentIsRecentHistory(rows: seq<User>, limit: nat)
    ensures RecentHistory(rows, TopRecent(rows, limit), limit)
  {
    TopRecentNewestFirst(rows, limit);
    TopRecentLeavesOutOlder(rows, limit);
    TopRecentSubMultiset(rows, limit);
    if |rows| <= limit {
      TopRecentWholeTable(rows, limit);
    }
  }

  // ---------------------------------------------------------------------
  // The MySQL server

  /** The database server and its `Users` table. */
  class MySqlServer {
    /** Whether a connection can be opened right now. */
    var serverUp: bool
    var tableExists: bool
    var rows: seq<User>
    /** The table's AUTO_INCREMENT counter: the Id the next INSERT receives. */
    var autoIncrement: int

    ghost predicate Valid()
      reads this
    {
      && (!tableExists ==> rows == [])
      && 1 <= autoIncrement
      && WellKeyed(rows, autoIncrement)
    }

    /** The server as the plugin finds it when it loads. */
    constructor (serverUp: bool, tableExists: bool, rows: seq<User>, autoIncrement: int)
      requires !tableExists ==> rows == []
      requires 1 <= autoIncrement && WellKeyed(rows, autoIncrement)
      ensures Valid()
      ensures this.serverUp == serverUp && this.tableExists == tableExists
      ensures this.rows == rows && this.autoIncrement == autoIncrement
    {
      this.serverUp := serverUp;
      this.tableExists := tableExists;
      this.rows := rows;
      this.autoIncrement := autoIncrement;
    }

    /** The server goes away or comes back; nothing in the table changes. */
    method SetServerUp(up: bool)
      modifies this
      ensures serverUp == up
      ensures tableExists == old(tableExists) && rows == old(rows)
      ensures autoIncrement == old(autoIncrement)
    {
      serverUp := up;
    }

    /** Another client drops `Users`; the server stays as reachable as it was. */
    method DropTable()
      requires Valid()
      modifies this
      ensures Valid()
      ensures !tableExists && rows == []
      ensures serverUp == old(serverUp) && autoIncrement == old(autoIncrement)
    {
      tableExists, rows := false, [];
    }

    /**
     * `CREATE TABLE IF NOT EXISTS Users (...)`: creates an empty table when there is
     * none; an existing table is left exactly as it is. The server checks the
     * account's CREATE privilege (`createPermitted`) before it looks for the table,
     * so without it the statement fails whether or not the table exists.
     */
    method CreateTableIfNotExists(createPermitted: bool) returns (r: Result<()>)
      requires Valid()
      modifies this
      ensures Valid()
      ensures serverUp == old(serverUp)
      ensures !serverUp ==> r == Err(ConnectionFailed) && unchanged(this)
      ensures serverUp && !createPermitted ==> r == Err(CreateRefused) && unchanged(this)
      ensures serverUp && createPermitted && old(tableExists) ==> r == Ok(()) && unchanged(this)
      ensures serverUp && createPermitted && !old(tableExists) ==>
                r == Ok(()) && tableExists && rows == [] && autoIncrement == 1
      ensures r.Ok? ==> tableExists
    {
      if !serverUp {
        return Err(ConnectionFailed);
      }
      if !createPermitted {
        return Err(CreateRefused);
      }
      if tableExists {
        return Ok(());
      }
      tableExists, rows, autoIncrement := true, [], 1;
      r := Ok(());
    }

    /** `SELECT COUNT(*) FROM Users WHERE SteamId = steamId`. */
    function SelectCount(steamId: string): (r: Result<nat>)
      reads this
      ensures !serverUp ==> r == Err(ConnectionFailed)
      ensures serverUp && !tableExists ==> r == Err(NoSuchTable)
      ensures r.Ok? ==> r.value <= |rows|
    {
      if !serverUp then Err(ConnectionFailed)
      else if !tableExists then Err(NoSuchTable)
      else Ok(CountSteamId(rows, steamId))
    }

    /** `UPDATE Users SET ClientName = name, ConnectedAt = CURRENT_TIMESTAMP WHERE SteamId = steamId`. */
    method Update(steamId: string, name: string, now: int) returns (r: Result<()>)
      requires Valid()
      modifies this
      ensures Valid()
      ensures serverUp == old(serverUp) && tableExists == old(tableExists)
      ensures autoIncrement == old(autoIncrement)
      ensures !serverUp ==> r == Err(ConnectionFailed) && rows == old(rows)
      ensures serverUp && !tableExists ==> r == Err(NoSuchTable) && rows == old(rows)
      ensures serverUp && tableExists ==> r == Ok(()) && rows == UpdateWhere(old(rows), steamId, name, now)
    {
      if !serverUp {
        return Err(ConnectionFailed);
      }
      if !tableExists {
        return Err(NoSuchTable);
      }
      UpdateWhereKeepsKeys(rows, autoIncrement, steamId, name, now);
      rows := UpdateWhere(rows, steamId, name, now);
      r := Ok(());
    }

    /**
     * `INSERT INTO Users (SteamId, ClientName) VALUES (steamId, name)`: Id from the
     * AUTO_INCREMENT counter, ConnectedAt from its default. The unique key refuses
     * a second row for a SteamId whatever the caller checked before.
     */
    method Insert(steamId: string, name: string, now: int) returns (r: Result<()>)
      requires Valid()
      modifies this
      ensures Valid()
      ensures serverUp == old(serverUp) && tableExists == old(tableExists)
      ensures !serverUp ==> r == Err(ConnectionFailed) && unchanged(this)
      ensures serverUp && !tableExists ==> r == Err(NoSuchTable) && unchanged(this)
      ensures serverUp && tableExists && HasSteamId(old(rows), steamId) ==>
                r == Err(DuplicateKey) && unchanged(this)
      ensures serverUp && tableExists && !HasSteamId(old(rows), steamId) ==>
                if old(autoIncrement) <= MaxId then
                  && r == Ok(())
                  && rows == old(rows) + [User(old(autoIncrement), steamId, name, now)]
                  && autoIncrement == old(autoIncrement) + 1
                else r == Err(IdRangeExhausted) && unchanged(this)
      ensures CountSteamId(rows, steamId) <= 1 || unchanged(this)
    {
      if !serverUp {
        return Err(ConnectionFailed);
      }
      if !tableExists {
        return Err(NoSuchTable);
      }
      if HasSteamId(rows, steamId) {
        return Err(DuplicateKey);
      }
      if autoIncrement > MaxId {
        return Err(IdRangeExhausted);
      }
      var row := User(autoIncrement, steamId, name, now);
      AppendKeepsKeys(rows, autoIncrement, row);
      AppendFreshCountsOnce(rows, row);
      rows, autoIncrement := rows + [row], autoIncrement + 1;
      r := Ok(());
    }

    /** `SELECT * FROM Users ORDER BY ConnectedAt DESC LIMIT limit`: the reader's rows. */
    function SelectRecent(limit: nat): (r: Result<seq<User>>)
      reads this
      ensures !serverUp ==> r == Err(ConnectionFailed)
      ensures serverUp && !tableExists ==> r == Err(NoSuchTable)
      ensures serverUp && tableExists ==> r.Ok? && RecentHistory(rows, r.value, limit)
    {
      if !serverUp then Err(ConnectionFailed)
      else if !tableExists then Err(NoSuchTable)
      else
        TopRecentIsRecentHistory(rows, limit);
        Ok(TopRecent(rows, limit))
    }
  }

  // ---------------------------------------------------------------------
  // The plugin's queries

  /** The static members of the plugin's `Queries` class. */
  class Queries {
    const db: MySqlServer
    /** `DatabaseConnected`: the availability probe, computed once when the class loads. */
    var databaseConnected: bool

    ghost predicate Valid()
      reads this, db
    {
      db.Valid()
    }

    /** The static initializer: `DatabaseConnected = DatabaseConnection()`. */
    constructor (db: MySqlServer, createPermitted: bool)
      requires db.Valid()
      modifies db
      ensures Valid() && this.db == db
      ensures databaseConnected == (old(db.serverUp) && createPermitted)
      ensures databaseConnected ==> db.tableExists
      ensures db.serverUp == old(db.serverUp)
      ensures old(db.tableExists) ==> unchanged(db)
      ensures !old(db.tableExists) ==>
                if databaseConnected then db.tableExists && db.rows == [] && db.autoIncrement == 1
                else unchanged(db)
    {
      this.db := db;
      new;
      databaseConnected := DatabaseConnection(createPermitted);
    }

    /**
     * `DatabaseConnection()`: open a connection and create the table if absent.
     * True exactly when both succeed; any exception becomes false.
     */
    method DatabaseConnection(createPermitted: bool) returns (connected: bool)
      requires db.Valid()
      modifies db
      ensures db.Valid()
      ensures connected == (old(db.serverUp) && createPermitted)
      ensures connected ==> db.tableExists
      ensures db.serverUp == old(db.serverUp)
      ensures old(db.tableExists) ==> unchanged(db)
      ensures !old(db.tableExists) ==>
                if connected then db.rows == [] && db.autoIncrement == 1 else unchanged(db)
    {
      if !db.serverUp {
        return false;   // connection.Open() threw
      }
      var created := db.CreateTableIfNotExists(createPermitted);
      connected := created.Ok?;
    }

    /**
     * `InsertUser`: nothing when the probe failed; otherwise update the row of a
     * known SteamId (with the escaped name) or insert a row for a new one (with the
     * raw name). Exceptions of the statements reach the caller.
     */
    method InsertUser(steamId: string, clientName: string, now: int, escapeString: string -> string)
      returns (r: Result<()>)
      requires Valid()
      modifies db
      ensures Valid()
      ensures db.serverUp == old(db.serverUp) && db.tableExists == old(db.tableExists)
      ensures !databaseConnected ==> r == Ok(()) && unchanged(db)
      ensures databaseConnected && !db.serverUp ==> r == Err(ConnectionFailed) && unchanged(db)
      ensures databaseConnected && db.serverUp && !db.tableExists ==> r == Err(NoSuchTable) && unchanged(db)
      ensures databaseConnected && db.serverUp && HasSteamId(old(db.rows), steamId) ==>
                && r == Ok(())
                && db.rows == UpdateWhere(old(db.rows), steamId, escapeString(clientName), now)
                && db.autoIncrement == old(db.autoIncrement)
      ensures databaseConnected && db.serverUp && db.tableExists && !HasSteamId(old(db.rows), steamId) ==>
                if old(db.autoIncrement) <= MaxId then
                  && r == Ok(())
                  && db.rows == old(db.rows) + [User(old(db.autoIncrement), steamId, clientName, now)]
                  && db.autoIncrement == old(db.autoIncrement) + 1
                else r == Err(IdRangeExhausted) && unchanged(db)
      ensures databaseConnected && r.Ok? ==> CountSteamId(db.rows, steamId) == 1
    {
      if !databaseConnected {
        return Ok(());
      }
      var found := UserExists(steamId);
      if found.Err? {
        return Err(found.error);
      }
      if found.value {
        ghost var k :| 0 <= k < |db.rows| && db.rows[k].steamId == steamId;
        UpdateWhereKeepsKeys(db.rows, db.autoIncrement, steamId, escapeString(clientName), now);
        CountPositiveIff(db.rows, steamId);
        UniqueCountAtMostOne(db.rows, steamId);
        r := UpdateUser(steamId, clientName, now, escapeString);
        return;
      }
      r := db.Insert(steamId, clientName, now);
      if r.Ok? {
        AppendFreshCountsOnce(old(db.rows), User(old(db.autoIncrement), steamId, clientName, now));
      }
    }

    /**
     * `UserExists`: whether the COUNT(*) of rows with this SteamId is positive.
     * It does not look at `DatabaseConnected`, so it throws when the server or
     * the table is missing.
     */
    method UserExists(steamId: string) returns (r: Result<bool>)
      ensures !db.serverUp ==> r == Err(ConnectionFailed)
      ensures db.serverUp && !db.tableExists ==> r == Err(NoSuchTable)
      ensures db.serverUp && db.tableExists ==> r.Ok? && (r.value <==> HasSteamId(db.rows, steamId))
    {
      var result := db.SelectCount(steamId);
      if result.Err? {
        return Err(result.error);
      }
      CountPositiveIff(db.rows, steamId);
      r := Ok(result.value > 0);
    }

    /** `UpdateUser`: the UPDATE with `MySqlHelper.EscapeString(clientName)` as the name. */
    method UpdateUser(steamId: string, clientName: string, now: int, escapeString: string -> string)
      returns (r: Result<()>)
      requires Valid()
      modifies db
      ensures Valid()
      ensures db.serverUp == old(db.serverUp) && db.tableExists == old(db.tableExists)
      ensures db.autoIncrement == old(db.autoIncrement)
      ensures !db.serverUp ==> r == Err(ConnectionFailed) && db.rows == old(db.rows)
      ensures db.serverUp && !db.tableExists ==> r == Err(NoSuchTable) && db.rows == old(db.rows)
      ensures db.serverUp && db.tableExists ==>
                r == Ok(()) && db.rows == UpdateWhere(old(db.rows), steamId, escapeString(clientName), now)
    {
      r := db.Update(steamId, escapeString(clientName), now);
    }

    /**
     * `GetConnectedPlayers`: an empty list when the probe failed; otherwise the
     * rows of the history query, read one by one into a list.
     */
    method GetConnectedPlayers() returns (r: Result<seq<User>>)
      ensures !databaseConnected ==> r == Ok([])
      ensures databaseConnected && !db.serverUp ==> r == Err(ConnectionFailed)
      ensures databaseConnected && db.serverUp && !db.tableExists ==> r == Err(NoSuchTable)
      ensures databaseConnected && db.serverUp && db.tableExists ==>
                r.Ok? && RecentHistory(db.rows, r.value, RecentLimit)
    {
      if !databaseConnected {
        return Ok([]);
      }
      var reader := db.SelectRecent(RecentLimit);
      if reader.Err? {
        return Err(reader.error);
      }
      var resultSet := reader.value;
      var users: seq<User> := [];
      var read := 0;
      while read < |resultSet|
        invariant read <= |resultSet|
        invariant users == resultSet[..read]
      {
        users := users + [resultSet[read]];
        read := read + 1;
      }
      assert users == resultSet;
      r := Ok(users);
    }
  }

  /**
   * Two connections of one player: whatever the table held, one row for the
   * SteamId remains, carrying the escaped second name and the second time.
   */
  method ReconnectKeepsOneRow(q: Queries, steamId: string, first: string, second: string,
                              t1: int, t2: int, escapeString: string -> string)
    requires q.Valid() && q.databaseConnected && q.db.serverUp && q.db.tableExists
    requires q.db.autoIncrement <= MaxId
    modifies q.db
    ensures CountSteamId(q.db.rows, steamId) == 1
    ensures exists k :: 0 <= k < |q.db.rows| && q.db.rows[k].steamId == steamId
                        && q.db.rows[k].clientName == escapeString(second) && q.db.rows[k].connectedAt == t2
  {
    var r1 := q.InsertUser(steamId, first, t1, escapeString);
    assert HasSteamId(q.db.rows, steamId) by {
      assert q.db.rows[|q.db.rows| - 1].steamId == steamId || HasSteamId(old(q.db.rows), steamId);
      if HasSteamId(old(q.db.rows), steamId) {
        var k :| 0 <= k < |old(q.db.rows)| && old(q.db.rows)[k].steamId == steamId;
        assert q.db.rows[k].steamId == steamId;
      }
    }
    var r2 := q.InsertUser(steamId, second, t2, escapeString);
    var k :| 0 <= k < |q.db.rows| && q.db.rows[k].steamId == steamId;
  }
}
