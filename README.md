# ConnectionLogs — a verified model of the store and the notifier

ConnectionLogs is a game-server plugin. It records each player's connections in a
MySQL table `Users`, one row per SteamID, and sends a one-line notice of every
connect or disconnect to a Telegram chat. This project models the two pieces of
logic inside that plumbing and proves what they promise:

* `queries.dfy` (module `ConnectionQueries`) is the `Queries` class. The MySQL
  server is the class `MySqlServer`: whether it can be reached, whether `Users`
  exists, its rows `{Id, SteamId, ClientName, ConnectedAt}` and its
  AUTO_INCREMENT counter. Each SQL statement the plugin sends is one member of
  `MySqlServer`. Its exceptions are `Err` values of `Result`. The class `Queries`
  holds the process-wide `DatabaseConnected` flag. Its constructor is the static
  initializer: it runs the availability probe `DatabaseConnection` once.
  `InsertUser`, `UserExists`, `UpdateUser` and `GetConnectedPlayers` are methods
  over that state.
* `telegram.dfy` (module `TelegramNotify`) is the `TelegramClass`.
  `GenerateMessageContent` is a function. `SendMessage` is a method that builds
  the request URL and turns the HTTP outcome into console lines. It never lets
  an exception escape.

Behaviour the model keeps as the code has it:

* The update path stores `MySqlHelper.EscapeString(clientName)`. The insert path
  stores the raw name. So after a reconnect the row holds the escaped name, not
  the name given (`ReconnectKeepsOneRow`).
* `UserExists` does not look at `DatabaseConnected`. When the server or the
  table is missing it fails (`Err`) whatever the flag says.
* The probe runs once. No method of `Queries` modifies its own fields, so the flag
  never changes after construction.
* The uniqueness of SteamIds rests on the table's `UNIQUE KEY`. `MySqlServer.Insert`
  refuses a duplicate on its own, whatever the caller checked before. Every method
  keeps `MySqlServer.Valid()`: unique SteamIds and distinct Ids below the counter.
* `GetConnectedPlayers` copies the reader's rows one by one in a loop. The
  server's `ORDER BY ConnectedAt DESC LIMIT 50` is the function `TopRecent`:
  take the most recent row, then repeat on the rest. SQL leaves the order of rows
  with equal `ConnectedAt` open; `TopRecent` takes them in table order.
* A notice includes the `" with ip "` part whenever an address is given, an empty
  one included, because only null is tested. A null address is `None`.
* The timestamp (`long`) and the SteamID (`ulong`) are written in decimal by
  `IntToString` and `NatToString`.

Inputs instead of I/O:

* The current time is the `now` or `timestamp` parameter.
* `MySqlHelper.EscapeString` and `HttpUtility.UrlEncode` are function parameters
  (`escapeString`, `urlEncode`). Nothing is assumed about them.
* The HTTP call is `getAsync: string -> HttpOutcome`. Its outcome is `Success`,
  `HttpError(body)` or `Throws(message)`.
* Reading `description` from an error body is `parseDescription: string ->
  JsonOutcome`. This covers `JsonDocument.Parse`, `GetProperty` and `GetString`;
  any of them may fail.
* The console is a sequence of lines.
* Whether the MySQL server can be reached is the field `MySqlServer.serverUp`.
  Whether the account holds the CREATE privilege is the `createPermitted`
  parameter. `MySqlServer.SetServerUp` lets the server go away or come back
  between calls, and `MySqlServer.DropTable` lets another client drop `Users`.

## Model

| member | source | states |
|---|---|---|
| ConnectionQueries.CountSteamId | ConnectionLogs/Queries.cs:70 | `COUNT(*)` of the rows with a SteamId never exceeds the number of rows |
| ConnectionQueries.CountPositiveIff | ConnectionLogs/Queries.cs:70-77 | the count is positive exactly when some row has that SteamId (both directions) |
| ConnectionQueries.UniqueCountAtMostOne | ConnectionLogs/Queries.cs:126 | under `UNIQUE KEY SteamId` a SteamId is counted at most once |
| ConnectionQueries.UpdateWhere | ConnectionLogs/Queries.cs:100 | the UPDATE keeps the row count, every Id and SteamId; matching rows get the new name and time; all other rows are unchanged |
| ConnectionQueries.UpdateWhereSingleRow | ConnectionLogs/Queries.cs:100-103 | under the unique key, updating a present SteamId rewrites exactly that one row's ClientName and ConnectedAt and nothing else |
| ConnectionQueries.UpdateWhereKeepsKeys | ConnectionLogs/Queries.cs:125-126 | the UPDATE preserves both keys and leaves the count of the SteamId unchanged |
| ConnectionQueries.AppendKeepsKeys | ConnectionLogs/Queries.cs:121-126 | appending a row with a new SteamId and the next AUTO_INCREMENT Id keeps SteamIds unique and Ids distinct and below the counter |
| ConnectionQueries.AppendFreshCountsOnce | ConnectionLogs/Queries.cs:48-57 | a row inserted under a SteamId that had no row is the only row with it |
| ConnectionQueries.MostRecentIndexIsLatest | ConnectionLogs/Queries.cs:147 | the row the ordering picks first has no row more recent than it |
| ConnectionQueries.TopRecent | ConnectionLogs/Queries.cs:147 | the result set has exactly `min(limit, number of rows)` rows |
| ConnectionQueries.TopRecentSubMultiset | ConnectionLogs/Queries.cs:147 | the result set is drawn from the table: no row appears in it more often than the table holds it |
| ConnectionQueries.TopRecentWholeTable | ConnectionLogs/Queries.cs:147 | when the table has at most `limit` rows, the result set is the whole table reordered (same multiset of rows) |
| ConnectionQueries.TopRecentNewestFirst | ConnectionLogs/Queries.cs:147 | the result set is ordered by ConnectedAt, most recent first |
| ConnectionQueries.TopRecentLeavesOutOlder | ConnectionLogs/Queries.cs:147 | a row the LIMIT leaves out is no more recent than any row returned |
| ConnectionQueries.TopRecentIsRecentHistory | ConnectionLogs/Queries.cs:147 | the result set meets all of `RecentHistory`: size, a sub-multiset of the table, newest first, no more recent row left out, a permutation of the whole table when it fits |
| ConnectionQueries.MySqlServer.constructor | ConnectionLogs/Queries.cs:120-127 | the server starts from a table that obeys its primary and unique keys |
| ConnectionQueries.MySqlServer.CreateTableIfNotExists | ConnectionLogs/Queries.cs:117-131 | create-if-absent: without the CREATE privilege the statement fails and nothing changes, even when the table exists; with it an existing table is left exactly as it was and a missing one becomes empty with the counter at 1; a server that is down fails it |
| ConnectionQueries.MySqlServer.SelectCount | ConnectionLogs/Queries.cs:69-74 | the COUNT query fails when the server or the table is missing and never counts more than the rows |
| ConnectionQueries.MySqlServer.Update | ConnectionLogs/Queries.cs:98-106 | the UPDATE statement applies `UpdateWhere`, keeps the keys and the counter, or fails and changes nothing |
| ConnectionQueries.MySqlServer.Insert | ConnectionLogs/Queries.cs:50-56 | the INSERT appends one row (the next Id, the SteamId, the name, ConnectedAt = now) and advances the counter; it fails without change on a duplicate SteamId, on Id exhaustion past 2147483647, or when the server or table is missing |
| ConnectionQueries.MySqlServer.SelectRecent | ConnectionLogs/Queries.cs:146-150 | the history query fails when the server or table is missing; otherwise its rows satisfy `RecentHistory`: `min(limit, rows)` of them, a sub-multiset of the table, newest first, none more recent left out, a permutation of the table when it fits |
| ConnectionQueries.Queries.constructor | ConnectionLogs/Queries.cs:8 | the flag is true exactly when the server is reachable and the account holds the CREATE privilege; then the table exists; an existing table is left unchanged |
| ConnectionQueries.Queries.DatabaseConnection | ConnectionLogs/Queries.cs:14-28 | returns true exactly when open and create-if-absent both succeed (server reachable and CREATE privilege held), false otherwise (never an error); true implies the table exists |
| ConnectionQueries.Queries.InsertUser | ConnectionLogs/Queries.cs:35-58 | with the flag false: `Ok` and no change. Otherwise, for a known SteamId: the UPDATE with `escapeString(clientName)` and `now`, no row added. For a new one: exactly one appended row with the raw name, a fresh Id and `now`. A server gone or a table dropped since the probe gives `ConnectionFailed` or `NoSuchTable` with no change; other errors propagate. Keys preserved; afterwards exactly one row has the SteamId |
| ConnectionQueries.Queries.UserExists | ConnectionLogs/Queries.cs:65-78 | true exactly when some row has the SteamId; fails when the server or table is missing; the flag plays no part and nothing is modified |
| ConnectionQueries.Queries.UpdateUser | ConnectionLogs/Queries.cs:86-108 | the UPDATE of ClientName to `escapeString(clientName)` and ConnectedAt to `now` on the matching rows |
| ConnectionQueries.Queries.GetConnectedPlayers | ConnectionLogs/Queries.cs:137-166 | with the flag false: `Ok([])`. Otherwise the rows read satisfy `RecentHistory` with limit 50: `min(50, rows)` of them, a sub-multiset of the table, newest first, none more recent left out, a permutation of the table when it has at most 50 rows. Connection or table errors propagate |
| ConnectionQueries.ReconnectKeepsOneRow | ConnectionLogs/Queries.cs:42-57 | two upserts of one SteamId leave exactly one row for it, holding the escaped second name and the second time |
| TelegramNotify.NatToString | ConnectionLogs/TelegramClass.cs:28 | the SteamID's decimal text is non-empty and all digits |
| TelegramNotify.IntToString | ConnectionLogs/TelegramClass.cs:27 | the timestamp's decimal text is non-empty, digits with at most a leading minus |
| TelegramNotify.NatToStringValue | ConnectionLogs/TelegramClass.cs:28 | the digits written for the SteamID denote that number |
| TelegramNotify.IntToStringValue | ConnectionLogs/TelegramClass.cs:27 | the text written for the timestamp denotes that number, sign included |
| TelegramNotify.IntToStringNoColon | ConnectionLogs/TelegramClass.cs:27 | the timestamp text holds no ':' |
| TelegramNotify.GenerateMessageContent | ConnectionLogs/TelegramClass.cs:24-36 | the notice starts with the base notice and is exactly the base notice iff the address is null |
| TelegramNotify.TimestampLeadsMessage | ConnectionLogs/TelegramClass.cs:27-28 | the notice starts with the timestamp followed by ':', so the timestamp is the text before the first ':' |
| TelegramNotify.IpNoticeExtendsPlainNotice | ConnectionLogs/TelegramClass.cs:28-33 | with an address (even an empty one) the notice is the address-less notice followed by `" with ip " + address`; the base part is unchanged |
| TelegramNotify.EventTokenDecides | ConnectionLogs/TelegramClass.cs:26-28 | `" connected"` ends the text exactly for a connect and `" disconnected"` exactly for a disconnect |
| TelegramNotify.PlainNoticeEndsWithEvent | ConnectionLogs/TelegramClass.cs:26-35 | without an address the notice ends with its event token, and the ending tells connect from disconnect (both directions) |
| TelegramNotify.RequestUrlDeterminesMessage | ConnectionLogs/TelegramClass.cs:43-44 | for one bot token and chat id and a one-to-one URL encoding, different messages give different request URLs |
| TelegramNotify.TryBlock | ConnectionLogs/TelegramClass.cs:46-55 | the try block raises exactly when the request throws or the error body's description cannot be read; otherwise it writes no line on success and one on an error status |
| TelegramNotify.TelegramClass.constructor | ConnectionLogs/TelegramClass.cs:13-22 | the bot token and chat id are stored unchanged in read-only fields |
| TelegramNotify.TelegramClass.SendMessage | ConnectionLogs/TelegramClass.cs:38-63 | the task always completes normally. The console only grows: nothing on success, `"Failed to send message to Telegram. Error: " + description` on a readable error body, `"Exception when trying to send message to Telegram.\n" + message` on any exception. Exactly one line iff the outcome is not success |

## Left out

- Connection lifecycle (`Database.GetConnection`, `Open`/`Close`, `using` disposal) and SQL parsing: each statement is one member of `MySqlServer`, and the `Database` connection factory is not part of this model.
- Concurrency: `async`/`await`, fire-and-forget scheduling and the race between two check-then-act upserts of one SteamId are not modelled; every call runs alone.
- Wall-clock reads (`DateTimeOffset.Now`, `CURRENT_TIMESTAMP`, `ON UPDATE current_timestamp()`) are the `now`/`timestamp` parameters.
- `MySqlHelper.EscapeString`, `HttpUtility.UrlEncode`, `JsonDocument` and `HttpClient` are opaque parameters; what they compute is not modelled.
- `varchar(18)` and `varchar(128)` length limits are not enforced; whether MySQL truncates or refuses depends on the server's SQL mode.
- SteamId comparison in SQL follows the column's collation (case and trailing spaces may be ignored); the model compares strings exactly.
- `ConnectedAt` is a plain integer: the `TIMESTAMP` range, time zones and the `NULL` the column would allow are not modelled, nor is `reader.GetDateTime`.
- MySqlServer.Insert: a failed INSERT leaves the AUTO_INCREMENT counter as it was; InnoDB may consume a value on a failed insert, which affects only which Ids later rows get.
- Query failures after a successful probe are modelled only as a server that is down (`SetServerUp`) or a table dropped by another client (`DropTable`); other server-side errors are not.
- Console colours (`ForegroundColor`, `ResetColor`) and the game's `CCSPlayerController` beyond `PlayerName` and `SteamID` are not modelled; a null player or null name is not modelled.
- A body that cannot be read by `ReadAsStringAsync` is folded into the `Throws` outcome.
