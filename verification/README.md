# NewsWeb click history — a Dafny model

This project models the logic of a small Flask news site (`app.py`):

- **Click history** (`User.add_history`). The history column stores the codes a
  user clicked as one comma-joined string. On each click the string is split on
  `","`, the code is appended unless it already is one of the pieces, and the
  pieces are joined again. A NULL or empty column counts as "no history".
  The dashboard reads the column back by splitting it.
- **Catalogue** (`read_tsv`). Every parsed row of the news file becomes an entry
  `{title: row[3], code: row[0], url: row[5]}`, and the first 12 entries are
  shown.
- **Request handlers** (`save_click`, `register`, `login`, `dashboard`, `logout`).
  Each is a transition over an in-memory user table and a session.

Modules:

| file | module | contents |
|---|---|---|
| `wrappers.dfy` | `Wrappers` | `Option` (Python `None`) and `Result` |
| `seqs.dfy` | `Seqs` | `IndexOf` (first occurrence), `NoDup`, and small lemmas about them |
| `delimited.dfy` | `Delimited` | Python's `str.split(",")` and `",".join`, with their round-trip laws |
| `history.dfy` | `History` | `AddHistory`, `Dashboard`, idempotence, no-duplicates, click replay |
| `catalog.dfy` | `Catalog` | `NewsEntry`, `ReadTsv` over already-parsed rows |
| `app.dfy` | `App` | user table, session, and the five handlers |

Points where the model follows the code exactly:

- `Split` has Python's semantics: `"".split(",") == [""]` and adjacent commas
  give empty pieces. `Join(Split(s)) == s` holds for every string. This is why a
  repeated click returns the stored string unchanged.
- The duplicate check compares the code with the pieces. A code containing a
  comma is never equal to a piece, so every click on it appends it again
  (`History.CommaCodeIsNotIdempotent`). Idempotence and the no-duplicates
  invariant are therefore proved for comma-free codes only.
- `read_tsv` builds the whole list before truncating. A row with fewer than six
  fields anywhere in the file raises `IndexError`, even past row 12.
  `Catalog.ReadTsv` returns `Failure(ShortRow(i))` for the first such row.
  Skipping short rows would avoid the crash; the model follows the code.
- `register` has no `return` on its two refusal branches (app.py:91-94), so the
  view returns nothing there and Flask answers with a server error. A refusal
  therefore has no response page; the model keeps only its reason
  (`PasswordMismatch` is checked first, then `UsernameTaken`) and the unchanged
  store and session.
- `login` answers a logged-in session before it looks at the request method.
  It tells an unknown username apart from a wrong password.

## Model

| member | source | states |
|---|---|---|
| `Delimited.Split` | app.py:28 | splitting yields at least one piece, and no piece contains a comma |
| `Delimited.JoinSplit` | app.py:28-33 | joining the split pieces again reproduces any history string exactly |
| `Delimited.SplitJoin` | app.py:106 | a non-empty list of comma-free codes survives being joined and split again |
| `Delimited.JoinAppend` | app.py:30-33 | joining a non-empty list with one more piece at the end gives the old joined string, a comma, and the piece; with `JoinSplit` and `SplitJoin` these are the laws of `Join`, the model of `",".join` |
| `Delimited.SplitAround` | app.py:30-33 | splitting `a + "," + b` gives the pieces of `a` followed by those of `b` |
| `History.AddHistory` | app.py:25-33 | a falsy history becomes exactly the code; a code already among the pieces leaves the string unchanged; otherwise the string gains `","` and the code at the end, and its pieces are the old pieces followed by the code's pieces |
| `History.Dashboard` | app.py:106 | the dashboard list is empty exactly when the history is falsy; otherwise it joins back to the stored string, and no item contains a comma |
| `History.DashboardAfterClick` | app.py:27-33 | for a non-empty comma-free code, the dashboard after a click is the old list with the code appended at the end unless already present; existing items keep their order |
| `History.AddHistoryIdempotent` | app.py:27-33 | adding the same comma-free code twice gives the same history as adding it once |
| `History.CommaCodeIsNotIdempotent` | app.py:28-30 | the code `"b,c"` defeats the duplicate check: clicking it on history `"b,c"` yields `"b,c,b,c"` |
| `History.AddHistoryKeepsNoDup` | app.py:29 | if the dashboard list has no duplicates, it still has none after a click on a comma-free code |
| `History.DashboardIsDistinctClicks` | app.py:25-33 | from no history, after any sequence of non-empty comma-free clicks, the dashboard lists each clicked code once, in first-click order |
| `Catalog.Entries` | app.py:40 | the comprehension succeeds iff every row has at least six fields; it then yields one entry per row, in order; otherwise it fails at the first short row |
| `Catalog.ReadTsv` | app.py:40-44 | the read fails iff some row of the file is short; it otherwise returns `min(n, 12)` entries, entry `i` taking code, title and url from fields 0, 3 and 5 of row `i` |
| `Catalog.ReadTsvPrefix` | app.py:41-44 | rows added after the end never change the entries already shown: the result is a prefix of the longer file's result |
| `App.SaveClick` | app.py:56-60 | 400 and no change iff the code is falsy or nobody is logged in; otherwise only the current user's history changes, to the `add_history` result, which is also returned |
| `App.SaveClickTwice` | app.py:56-58 | saving the same comma-free code twice leaves the same state and response as saving it once |
| `App.Register` | app.py:91-101 | a password mismatch is refused first and a taken username second, both changing nothing; otherwise exactly one record (hashed password, no history) is added under the new username; the session never changes |
| `App.Login` | app.py:67-83 | a logged-in session short-circuits; a GET shows the form; a POST reports an unknown user or a wrong password without change, and logs in exactly when the password checks against the stored hash |
| `App.RegisterThenLogin` | app.py:74-78 | an account just created can log in with its password when the hash check accepts that password |
| `App.WrongPassword` | app.py:79-80 | for any stored user and any password the hash check rejects, a POST from an anonymous session reports an incorrect password, leaves the state unchanged and establishes no session |
| `App.GetDashboard` | app.py:103-107 | the dashboard is refused exactly when nobody is logged in, and otherwise shows the user's split history |
| `App.Logout` | app.py:109-113 | logout is refused when nobody is logged in; otherwise it ends the session and leaves the users untouched |
| `App.AliceScenario` | app.py:51-113 | register, log in, click "N1" twice: the history stays "N1", the dashboard shows ["N1"], and after logout the dashboard is refused |

## Left out

- Flask routing, `render_template`, `redirect`, `flash` and `jsonify`: responses are outcome datatypes.
- SQLAlchemy persistence and `db.session.commit()`: the user table is an in-memory map.
- The `String(15)`/`String(20)` column widths: SQLite does not enforce them.
- The numeric `id` column, `load_user` and the unused `impressions` column: the table is keyed by the unique username, and the session holds the username.
- `generate_password_hash`/`check_password_hash`: `register` takes the salted hash as a parameter, because the salt is random. `login` takes the check as a function parameter.
- flask_login's session cookie and `login_required`: the session is an `Option` of a username, and the guard is a failure result.
- Opening the news file and csv tab parsing in `read_tsv`: the parsed rows are the input.
- A JSON body that is missing, or a `code` that is not a string: `code` is modelled as an optional string.
- A missing form field: `request.form[...]` then answers 400, at once in `register` (app.py:87-89), and in `login` only on a POST from an anonymous session (app.py:72-73).
- A GET to `/register`: routing rejects it before the handler runs.
- The read-modify-write race on `history` across concurrent requests: the application has no concurrency primitives.
- Application start-up (`db.create_all`, `app.run`).
- History.AddHistoryIdempotent: holds only for codes without a comma; `History.CommaCodeIsNotIdempotent` shows it fails otherwise.
- History.AddHistoryKeepsNoDup: holds only for codes without a comma, for the same reason.
- History.DashboardIsDistinctClicks: assumes non-empty comma-free codes; `save_click` rejects empty codes, but not codes containing commas.
