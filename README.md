# Users service core of Flask_API, modelled in Dafny

`app.py` is a tutorial Flask service over one SQLite table,
`users(id INTEGER PRIMARY KEY AUTOINCREMENT, name TEXT NOT NULL, email TEXT UNIQUE NOT NULL, password TEXT)`.
Under the HTTP and database plumbing, each route handler runs one SQL statement
on that table and shapes the rows into a reply. This project models that core:

- the table as a sequence of rows in rowid order plus the AUTOINCREMENT counter
  (`Users`), with the invariant that ids are positive, below the counter, strictly
  increasing (so unique) and that no two rows share an email; `RunWellFormed` and
  `UserStore.Create` show that an id is never issued twice;
- each statement as a function on the rows: INSERT (`Insert`), the UPDATE that
  writes the literal `'Krishna Boss'` (`Rename`), DELETE (`Remove`), the
  get-by-id and by-email SELECTs (`Lookup`, `FindByEmail`), the name search with
  SQLite's `LOWER` and `LIKE` (`SearchRows`, `SqlLike.Like`), and the JWT login
  check (`Authenticate`);
- `LIMIT ? OFFSET ?` and the page arithmetic with Python's floor division (`Paging`);
- the upload filter `allowed_file` (`Upload`);
- the handlers themselves as methods of the class `Service.UserStore`, whose fields
  are the rows, the id counter and the module-level `cache` slot. Handlers that
  change state are tied to the state machine `Service.Apply`; the handlers that
  build replies with `for ... append` loops (`allusers`, `search`, `pagination`,
  `cache_response`) are loops with invariants proved against those functions.

The model follows the code as written, including where it does less than the
task comments in `app.py` suggest (for example app.py:95 and app.py:220):

- update writes the constant `'Krishna Boss'`, not the requested name, and replies
  200 with the requested name echoed back even when no row has the id;
- delete replies with the same success message whether or not a row was removed;
- create does not validate its fields; form fields are strings, so an empty name or
  email is stored, and only the UNIQUE constraint on `email` can reject the insert;
- the listing route attaches `"message": "User created successfully"` to every row;
- the cached listing (with passwords) is never invalidated;
- a search without `name` searches for the text `None` (the f-string formats the
  absent value), and `%` and `_` in the fragment act as LIKE wildcards;
- pagination does not validate `page` or `limit`: SQLite reads a negative offset
  as 0 and a negative limit as no bound, and a zero limit fails in the division;
- login with an absent email finds no row (`email = NULL` is never true).

## Model

| member | source | states |
|---|---|---|
| `Upload.LastDot` | app.py:194 | the position found holds a '.' and no '.' follows it; None exactly when the name has no '.' |
| `Upload.AllowedFileSpec` | app.py:193-194 | a name is accepted iff it has a last '.' and the lower-cased text after it is png, jpg or jpeg (ALLOWED_EXTENSIONS, app.py:27) |
| `Upload.LastDotFinds` | app.py:194 | the split point `rsplit('.', 1)` uses is exactly the last '.' |
| `Upload.AcceptedExamples` | app.py:193-194 | "photo.JPG", ".png" and "archive.tar.jpeg" are accepted |
| `Upload.RejectedExamples` | app.py:193-194 | "noext", "malware.exe", "photo.png.exe" and "photo." are refused |
| `SqlLike.PercentMatchesAll` | app.py:139 | a lone '%' pattern matches every string |
| `SqlLike.PrefixPattern` | app.py:139 | a wildcard-free text followed by '%' matches exactly the strings it is a prefix of |
| `SqlLike.LeadingPercent` | app.py:139 | a leading '%' lets the rest of the pattern match any suffix of the string |
| `SqlLike.SubstringPattern` | app.py:139 | `s LIKE '%f%'` holds iff the wildcard-free `f` occurs in `s` |
| `Paging.FloorDiv` | app.py:185 | Python's `//`: the quotient rounded towards minus infinity, for either sign of divisor |
| `Paging.TotalPagesIsCeiling` | app.py:185 | for limit >= 1, `total_pages` is the ceiling of total/limit: enough pages for every row and no page more |
| `Paging.WindowContents` | app.py:165 | `LIMIT l OFFSET o` selects at most l rows, namely the rows from position o on, and none past the end |
| `Paging.PageContents` | app.py:161-166 | for page, limit >= 1 the page holds exactly the existing rows at positions [(page-1)*limit, (page-1)*limit+limit): limit of them, fewer on the last page, none past the end |
| `Paging.PastLastPage` | app.py:161-187 | a page beyond total_pages returns an empty list, not an error |
| `Paging.RowOnPage` | app.py:161-185 | every row is on one of the pages 1..total_pages: row i is entry i % limit of page i / limit + 1 |
| `Paging.TwentyFiveRowsByTen` | app.py:161-185 | 25 rows by 10: three pages, page 3 holds 5 rows, page 4 none |
| `Users.Lookup` | app.py:289-290 | the row found has the id and is in the table; nothing is found iff no row has the id |
| `Users.FindByEmail` | app.py:381-382 | the row found has the email and is in the table; nothing is found iff no row has the email |
| `Users.InsertSpec` | app.py:80-85 | insert fails on UNIQUE iff the email is present; otherwise the new row has id nextId, above every existing id, and the invariant holds after appending it with the counter advanced |
| `Users.LookupAfterInsert` | app.py:80-85 | after an insert, get-by-id of the new id (`lastrowid`) returns the new row |
| `Users.Rename` | app.py:105 | the row with the id gets the new name; its id, email and password and every other row are unchanged |
| `Users.RenameWellFormed` | app.py:105 | update keeps the table invariant |
| `Users.LookupAfterRename` | app.py:105 | after update, get-by-id sees the new name with the same id and email; an unknown id still finds nothing |
| `Users.RemoveMembers` | app.py:122 | delete keeps exactly the rows whose id differs |
| `Users.RemoveAbsent` | app.py:122 | delete of an id no row has leaves the table unchanged |
| `Users.RemoveAt` | app.py:122 | delete of the id of row k removes exactly row k, keeping the others in order |
| `Users.RemoveWellFormed` | app.py:122 | delete keeps the table invariant |
| `Users.LookupAfterRemove` | app.py:122 | get-by-id after delete of the same id finds nothing |
| `Users.SearchRows` | app.py:139-140 | the result holds exactly the rows whose lowered name LIKE-matches the lowered pattern |
| `Users.SearchKeepsOrder` | app.py:139-140 | the search result is in table order |
| `Users.SearchIsSubstring` | app.py:139 | for a fragment without '%' or '_', a row matches iff the lowered fragment occurs in the lowered name |
| `Users.SearchExample` | app.py:139 | "ali" finds "Alice" and "kalim" but not "Bob" |
| `Users.AuthenticateSpec` | app.py:381-397 | login succeeds, with "Login successful", iff a row has the given email and password, the token is bound to that email, and "Invalid email" is returned iff no row has the email |
| `Service.ApplyWellFormed` | app.py:39-45 | every write keeps ids unique and increasing, emails unique, and never lowers the id counter |
| `Service.ApplyNoReissue` | app.py:40 | no request hands out again an id below the AUTOINCREMENT counter: create issues the counter, update keeps ids, delete keeps a subset |
| `Service.RunWellFormed` | app.py:39-45 | over any sequence of requests the invariant holds, the counter never decreases, and every row whose id was below the starting counter already carried that id at the start, so no id is reissued |
| `Service.DeletedIdNeverReturns` | app.py:40 | after a delete, get-by-id of the deleted id finds nothing whatever requests follow: AUTOINCREMENT never reuses it |
| `Service.FirstCachedRead` | app.py:347-366 | the first cached read fills the slot with the current listing including passwords |
| `Service.CacheNeverInvalidated` | app.py:344-366 | once filled, the slot survives every later request, so every later cached read equals the first one |
| `Service.StaleAfterCreate` | app.py:347-348 | a user created after the slot was filled is in the current listing but its entry is missing from the cached reply, which therefore differs from the listing |
| `Service.CreateThenGet` | app.py:80-92 | create with an unused email, then get-by-id of the returned id, finds that name and email |
| `Service.CreateUpdateGet` | app.py:105 | create, update, get: the name is 'Krishna Boss' whatever was requested, the email is unchanged |
| `Service.DeleteThenGet` | app.py:122 | delete then get-by-id of the same id finds nothing |
| `Service.UserStore.constructor` | app.py:39-47 | a process starts over a stored, well-formed table with an empty cache and the set of ids issued so far, all below the counter |
| `Service.UserStore.Create` | app.py:73-92 | appends exactly one row whose id is not among, and is above, every id issued before (deleted ones included), records it as issued and replies with it; or fails on UNIQUE and changes nothing |
| `Service.UserStore.Update` | app.py:98-113 | sets the name of the row with the id to 'Krishna Boss', changes nothing else, and echoes the requested username |
| `Service.UserStore.Delete` | app.py:118-127 | removes the row with the id, if any, and always replies with the same message |
| `Service.UserStore.GetById` | app.py:285-300 | returns {id, username, email} of the row with the id, or exactly 404 "User not found." when there is none |
| `Service.UserStore.ListUsers` | app.py:53-68 | one entry per row in table order, with id, name, email and the fixed message |
| `Service.UserStore.Search` | app.py:134-150 | the projections of the matching rows in table order |
| `Service.UserStore.Paginate` | app.py:156-187 | the envelope with the window's projections, the row count and total_pages; fails iff limit is 0 |
| `Service.UserStore.Login` | app.py:373-398 | "Login successful" with a token for the email iff a row has that email and password; otherwise "Invalid email" or "Invalid password" |
| `Service.UserStore.CachedUsers` | app.py:344-366 | returns the slot if filled, otherwise the full listing with passwords, which fills the slot |

## Left out

- Flask routing, request parsing, `jsonify` and status tuples: inputs are parsed values and replies are datatypes. A missing form field, a missing JSON body and a non-integer `page` or `limit` raise in Flask before any statement runs and are not modelled. The query defaults `page=1` and `limit=10` (app.py:158-159) belong to this parsing: `Paginate` takes the values after defaulting.
- `json_data` (app.py:224-245) runs the same INSERT as `create_user` and is registered for the same path and method; only `create_user` is modelled. So rows never hold NULL, and the reply that echoes the password is not modelled.
- Exceptions become HTTP 500 replies in Flask; the model returns them as `Err` values (the UNIQUE failure, the zero-limit division).
- sqlite connection and cursor handling, commit and close: each statement is one atomic step on the in-memory state; concurrency between requests is not modelled.
- SQLite's 64-bit integer range: ids, offsets and counts are unbounded integers.
- Lower-casing is ASCII only. This is SQLite's LOWER(); Python's `str.lower()` in `allowed_file` also folds non-ASCII letters, none of which becomes a letter of png, jpg or jpeg.
- The local and cloud upload handlers (app.py:197-218, app.py:415-447): file I/O, `secure_filename` and the S3 client are not part of this model; only their filter is.
- The GitHub merge (app.py:305-339): an external HTTP call.
- The `/login` diagnostic route (app.py:251-279): it compares a `sqlite3.Row` object with a string, so its outcome depends on library object semantics.
- JWT issue and verification and `/protected` (app.py:393, app.py:400-407): the token is an opaque value carrying the email it was issued for.
- The NDJSON streaming route (app.py:452-467) and dotenv configuration (app.py:8-23).
