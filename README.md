# SecretSanta-Web: the recipient assignment, in Dafny

This project models how SecretSanta-Web hands out Secret Santa recipients.
A MySQL table `recipients(name, recipient)` holds one row per participant.
An empty recipient means "nobody drawn yet".

- The setup script (`db_setup.py`) drops the table, recreates it and inserts one unassigned row per configured name.
- At startup the web application (`main.py`) runs that script only if the table is missing.
- The `name` handler lowers the name from the URL and checks it against the configuration. It refuses a giver who has no unassigned row. It then draws a recipient from the *available* names: those that are nobody's recipient, minus the giver. If none is available it fails. Otherwise it deletes the giver's rows and inserts the new pair.
- The `reroll` handler first checks that rerolling is enabled, then checks the name. It clears the giver's recipient inside the transaction and draws from the available names as `name` does. On success it writes the new recipient, commits, and returns the name capitalised. On failure it returns without committing.
- The listing script (`check_left_to_do.py`) prints, capitalised, the name of every row whose recipient is still empty.

Modules, one per concern:

- `Text` (`text.dfy`): `str.lower()` and `str.capitalize()`.
- `Recipients` (`recipients.dfy`): the table as a sequence of rows in table order, with the SQL statements as functions:
  - `Select` for `SELECT ... WHERE`, with the WHERE conditions as the `Where` datatype;
  - `Delete`, `Replace` (DELETE then INSERT) and `Update`;
  - `Available`, the draw pool;
  - the `Database` object;
  - `ValidMatching`, the invariant: distinct names, nobody assigned to themselves, no participant drawn twice, every recipient a participant.
- `DbSetup` (`db_setup.dfy`): the setup script, a loop that inserts one row at a time.
- `LeftToDo` (`left_to_do.dfy`): the listing script, a function of the rows.
- `SecretSanta` (`secret_santa.dfy`): the configuration, the error pages as the `Error` datatype, the `App` class with `Startup`, `Name` and `Reroll`, and the lemmas about both handlers.

The table is a sequence, not a map, because the source does not deduplicate. The setup script inserts every configured name, duplicates included. The DELETE in `name` removes every row of the giver and puts the new row after all the others. The UPDATE in `reroll` writes every row of the giver.

`random.choice` becomes a nondeterministic choice (`:|`) from the available names. The configuration (`config.json`) is an immutable `Config` value. The handlers assume the table exists; the startup code creates it before the server starts.

## Model

| member | source | states |
|---|---|---|
| `Text.Lower` | main.py:38 | The lowered name has the same length, the same letters up to case, and no upper-case letter. A name with no upper-case letter is returned unchanged. |
| `Text.Capitalize` | main.py:27-33 | The displayed name has the same length, its first character is not lower case and the rest has no upper case; lowered again, it equals the lowered input. |
| `Recipients.Select` | main.py:50-53 | A query returns at most as many rows as the table, and a row is in the result exactly when it is in the table and meets the WHERE condition. Every query of the three programs is this function with its own condition: the "already assigned" check here, the draw pool (main.py:61), the DELETE (main.py:72) and the listing (check_left_to_do.py:13). |
| `Recipients.HasUnassignedRow` | main.py:50-54 | The "already assigned" check, `name = giver AND recipient = ''` returning at least one row, passes exactly when the table holds the row (giver, empty recipient). |
| `Recipients.Names` | main.py:62 | The list of names taken from the query result has one entry per row, in row order, and holds exactly the rows' names. |
| `Recipients.SelectCounts` | check_left_to_do.py:13-15 | A query returns each matching row as many times as the table holds it, and no other row. |
| `Recipients.SelectConcat` | check_left_to_do.py:13-15 | A query keeps table order: querying two parts of the table returns the first part's matches, then the second's. |
| `Recipients.Available` | main.py:61-62 | A name is available exactly when it is a name in the table, is nobody's recipient, and is not the giver. |
| `Recipients.Delete` | main.py:72 | The DELETE never adds rows. Afterwards the giver has no row, every other name keeps exactly its rows (recipients, count and order), the table's names are the old names without the giver, and no new recipient appears. |
| `Recipients.Replace` | main.py:72-76 | After the DELETE and INSERT the names are the old names plus the giver. The giver's only row is the new pair. Every other name's rows are kept. The only recipient that can be new is the chosen one. |
| `Recipients.Update` | main.py:103-105 | The UPDATE keeps the length and every name, sets the recipient of each of the giver's rows, and leaves every other row as it was. |
| `Recipients.UpdateTwice` | main.py:103-123 | Clearing and then writing the giver's recipient gives the same table as the final write alone. |
| `Recipients.UpdateKeepsOthers` | main.py:119-121 | An UPDATE of the giver leaves the rows of every other name unchanged. |
| `Recipients.UpdateOfGiver` | main.py:119-121 | The giver's rows after an UPDATE are the giver's old rows with the new recipient. |
| `DbSetup.Setup` | db_setup.py:17-34 | Whatever was there before, the table afterwards exists and has exactly one unassigned row per configured name, in configuration order, duplicates kept. |
| `DbSetup.FreshTableIsMatching` | db_setup.py:27-31 | A fresh table has no assignment, so nobody is self-assigned and nobody is drawn twice. Its names are distinct exactly when the configured names are. Every row and every configured name is unassigned, and the table's names are exactly the configured names. |
| `LeftToDo.Unassigned` | check_left_to_do.py:13-15 | The query returns no more rows than the table holds. A row is returned exactly when it is in the table with an empty recipient, and a name appears in the result exactly when that name has an unassigned row. |
| `LeftToDo.CapitalizeAll` | check_left_to_do.py:17-18 | One printed name per fetched name, in the same order, each `capitalize()`d. |
| `LeftToDo.LeftToDo` | check_left_to_do.py:13-18 | One line per unassigned row, never more lines than rows. A line is printed exactly when it is the capitalised name of a row with no recipient. |
| `LeftToDo.LeftToDoConcat` | check_left_to_do.py:17-18 | Lines come in query order: listing two parts of the table lists the first part's lines, then the second's. |
| `LeftToDo.ListedExactlyWhenAssignable` | check_left_to_do.py:13-18 | A giver's unassigned row is in the listing query's result exactly when the `name` handler's "already assigned" check would pass, and as many times as the table holds it. Such a giver's capitalised name is printed. The converse holds only for the query result: stored names that differ only in case print the same line. |
| `SecretSanta.AssignKeepsMatching` | main.py:60-78 | Writing a recipient drawn from the available names keeps the matching valid: names stay distinct, nobody is self-assigned, nobody is drawn twice, every recipient is a participant. |
| `SecretSanta.AssignChangesOnlyGiver` | main.py:72-78 | After the DELETE and INSERT, the giver has exactly one row, holding the chosen recipient. Every other name's rows are unchanged. |
| `SecretSanta.AssignThenAlreadyAssigned` | main.py:49-58 | The drawn recipient is never empty, so a second `name` call for the same giver fails its "already assigned" check. |
| `SecretSanta.NoRecipientsReachable` | main.py:64-68 | The "no available recipients" page is reachable through `name` alone. Start from the fresh table for "ann", "bob" and "cat". "ann" draws "bob" and then "bob" draws "ann"; each pick is an available name. Now "cat" passes the "already assigned" check in a valid matching, yet nobody is available. |
| `SecretSanta.CompleteMatchingIsDerangement` | main.py:61-70 | Once every row of a valid table has a recipient, the recipients are exactly the participants: each receives from exactly one giver. |
| `SecretSanta.RerollKeepsMatching` | main.py:103-123 | Writing a recipient drawn after clearing the giver keeps the matching valid. |
| `SecretSanta.RerollChangesOnlyGiver` | main.py:119-124 | A reroll changes only the recipient of the giver's rows. Every other name's rows are unchanged. |
| `SecretSanta.RerollReleasesOldRecipient` | main.py:103-115 | In a valid table, the giver's previous recipient is available again once the giver is cleared. So a giver who had a recipient never gets the "no available recipients" error from a reroll. |
| `SecretSanta.RerollOfUnassignedIsAssign` | main.py:103-121 | In a table with one row per name, for a giver with no recipient yet, clearing changes nothing and the same names are available as for `name`. The giver ends with the same rows `name` would leave; only the row's position differs. |
| `SecretSanta.App.Startup` | main.py:130-138 | Afterwards the table exists. An existing table keeps its rows; a missing one is built fresh from the configured names. |
| `SecretSanta.App.Name` | main.py:36-81 | An unknown lowered name fails with `UnknownName`. A giver without an unassigned row fails with `AlreadyAssigned`. An empty pool fails with `NoAvailableRecipients`. In each of these cases the table is unchanged. Otherwise the result is an available name and the giver's rows are replaced by the new pair. A valid matching stays valid. |
| `SecretSanta.App.Reroll` | main.py:84-127 | A disabled reroll fails with `RerollDisabled` whatever the name. Next an unknown name fails with `UnknownName`. An empty pool after clearing fails with `NoAvailableRecipients`; the table keeps the old recipient (nothing is committed). Otherwise the result is the capitalised chosen name, drawn from the pool after clearing, and only the giver's recipient is rewritten. In a valid matching, a giver who already has a recipient always gets a new one. A valid matching stays valid. |

## Left out

- Flask routing, templates, error-page messages, redirects and the JSON body. Only the error kind and the returned name are modelled.
- Connecting to MySQL, cursors, the SQL text and environment variables. The table is a sequence of rows, and a transaction is a local working copy that is committed by assignment.
- MySQL string comparison. The server's collation decides how names compare. MySQL 8.0's default `utf8mb4_0900_ai_ci` ignores case and accents but not trailing spaces (it is a NO PAD collation); older PAD SPACE collations also ignore trailing spaces. The model compares strings exactly.
- The `VARCHAR(255)` column width (db_setup.py:22). MySQL rejects or truncates a longer name, depending on the SQL mode; model strings are unbounded.
- `NULL` handling in `NOT IN`: recipients are always strings.
- The row order of a query without `ORDER BY`. The model takes table order, with a newly inserted row last.
- Randomness: any available name may be drawn, and uniformity is not modelled.
- Concurrent requests. The handlers' check-then-write sequence is racy under a multi-request server; the model is sequential.
- Reading `config.json` and printing progress messages. The listing script's output is the sequence of lines it prints.
- `Text.Lower`, `Text.Capitalize`: only the ASCII letters are mapped. Python's `lower()` and `capitalize()` also map other Unicode letters.
- `SecretSanta.App.Name`, `SecretSanta.App.Reroll`: both require the table to exist, as the startup code guarantees before serving. Without the table the source still answers `UnknownName` (and `RerollDisabled` for `reroll`) before it touches the database; a known name then fails with a MySQL error, which the model does not represent.
- Group preferences, reroll counters and limits, and a URL name encoder. None of these is implemented in the modelled code.

## Notes

- The code has no reroll limit. It has no "not yet assigned" error: `reroll` on a giver with no recipient behaves like `name` (`SecretSanta.RerollOfUnassignedIsAssign`). It has no group preference. The model follows the code.
- The table is only built when it is missing. A name added to the configuration later therefore has no row. The `name` handler answers "already assigned" for that name. The `reroll` handler returns a recipient but stores nothing, because its UPDATE matches no row. Both behaviours follow from the `App.Name` and `App.Reroll` contracts.
- Distinct names are part of `ValidMatching` because `reroll` writes the same recipient into every row of the giver. With a duplicated configured name, that would give one participant two givers.
