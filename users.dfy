/** The `users` table and the single SQL statements the route handlers run on it,
    read as functions of the table's rows (in rowid order). */
module Users {
  import opened Wrappers
  import opened Text
  import opened SqlLike

  /** A row of `users(id, name, email, password)`. Rows are only ever created
      from form fields, which are strings, so no column is NULL. */
  datatype User = User(id: int, name: string, email: string, password: string)

  /** `{id, username, email}`: what search, pagination and get-by-id return per row. */
  datatype UserView = UserView(id: int, username: string, email: string)

  /** An entry of `GET /users`: the same projection with the handler's constant message. */
  datatype ListEntry = ListEntry(id: int, username: string, email: string, message: string)

  /** An entry of the cached listing, which includes the password. */
  datatype CachedUser = CachedUser(id: int, username: string, email: string, password: string)

  /** The reply of a successful create. */
  datatype CreateReply = CreateReply(id: int, username: string, email: string, message: string)

  /** sqlite3.IntegrityError raised by the INSERT. */
  datatype DbError = IntegrityError(message: string)

  /** The bearer token, as an opaque value bound to the identity it was issued for. */
  datatype Token = Token(identity: string)

  /** The JWT login reply: a message with a token, or a 401 with an error text. */
  datatype LoginReply = LoggedIn(message: string, token: Token) | Unauthorized(error: string)

  const CreatedMessage := "User created successfully"
  const UniqueEmailFailed := "UNIQUE constraint failed: users.email"
  const InvalidEmail := "Invalid email"
  const InvalidPassword := "Invalid password"
  const LoginSuccessful := "Login successful"

  function View(u: User): UserView
  {
    UserView(u.id, u.name, u.email)
  }

  function Views(rows: seq<User>): seq<UserView>
  {
    seq(|rows|, i requires 0 <= i < |rows| => View(rows[i]))
  }

  function CacheEntries(rows: seq<User>): seq<CachedUser>
  {
    seq(|rows|, i requires 0 <= i < |rows| => CachedUser(rows[i].id, rows[i].name, rows[i].email, rows[i].password))
  }

  // ---------------------------------------------------------------------------
  // The table's invariant

  /** Every id was issued before `nextId` (the AUTOINCREMENT counter) and is positive. */
  ghost predicate IdsIssued(rows: seq<User>, nextId: int)
  {
    forall i :: 0 <= i < |rows| ==> 1 <= rows[i].id < nextId
  }

  /** Rowid order is insertion order: ids strictly increase along the table, so no id repeats. */
  ghost predicate IdsIncreasing(rows: seq<User>)
  {
    forall i, j :: 0 <= i < j < |rows| ==> rows[i].id < rows[j].id
  }

  /** `email TEXT UNIQUE`: no two rows share an email. */
  ghost predicate EmailsDistinct(rows: seq<User>)
  {
    forall i, j :: 0 <= i < j < |rows| ==> rows[i].email != rows[j].email
  }

  ghost predicate WellFormed(rows: seq<User>, nextId: int)
  {
    nextId >= 1 && IdsIssued(rows, nextId) && IdsIncreasing(rows) && EmailsDistinct(rows)
  }

  // ---------------------------------------------------------------------------
  // Lookups

  /** `SELECT id, name, email FROM users WHERE id=?` followed by `fetchone()`. */
  function Lookup(rows: seq<User>, id: int): (r: Option<User>)
    ensures r.Some? ==> r.value in rows && r.value.id == id
    ensures r.None? <==> forall i :: 0 <= i < |rows| ==> rows[i].id != id
  {
    if rows == [] then None
    else if rows[0].id == id then Some(rows[0])
    else Lookup(rows[1..], id)
  }

  /** `SELECT ... FROM users WHERE email=?` followed by `fetchone()`: the same
      first-match scan as `Lookup`, on the `email` column instead of `id`. */
  function FindByEmail(rows: seq<User>, email: string): (r: Option<User>)
    ensures r.Some? ==> r.value in rows && r.value.email == email
    ensures r.None? <==> forall i :: 0 <= i < |rows| ==> rows[i].email != email
  {
    if rows == [] then None
    else if rows[0].email == email then Some(rows[0])
    else FindByEmail(rows[1..], email)
  }

  // ---------------------------------------------------------------------------
  // INSERT

  /** `INSERT INTO users(name, email, password) VALUES (?, ?, ?)`: the new row
      gets the next AUTOINCREMENT id, unless the email is already taken, in which
      case the statement fails and nothing is written. */
  function Insert(rows: seq<User>, nextId: int, name: string, email: string, password: string): Result<User, DbError>
  {
    if FindByEmail(rows, email).Some? then Err(IntegrityError(UniqueEmailFailed))
    else Ok(User(nextId, name, email, password))
  }

  /** Create with an unused email appends one row whose id exceeds every id
      issued so far; with a used email it fails on the UNIQUE constraint.
      Either way the invariant holds afterwards. */
  lemma InsertSpec(rows: seq<User>, nextId: int, name: string, email: string, password: string)
    requires WellFormed(rows, nextId)
    ensures Insert(rows, nextId, name, email, password).Err? <==> exists i :: 0 <= i < |rows| && rows[i].email == email
    ensures Insert(rows, nextId, name, email, password).Ok? ==>
      var u := Insert(rows, nextId, name, email, password).value;
      && u == User(nextId, name, email, password)
      && (forall i :: 0 <= i < |rows| ==> rows[i].id < u.id)
      && WellFormed(rows + [u], nextId + 1)
  {
  }

  /** After a successful insert, get-by-id of the new id finds the new row. */
  lemma {:induction false} LookupAfterInsert(rows: seq<User>, nextId: int, u: User)
    requires IdsIssued(rows, nextId) && u.id == nextId
    ensures Lookup(rows + [u], u.id) == Some(u)
  {
    if rows != [] {
      assert (rows + [u])[1..] == rows[1..] + [u];
      assert IdsIssued(rows[1..], nextId);
      LookupAfterInsert(rows[1..], nextId, u);
    }
  }

  // ---------------------------------------------------------------------------
  // UPDATE

  /** `UPDATE users SET name = ? WHERE id=?` with a given name: the row with that
      id gets the name, its other columns and every other row stay as they were. */
  function Rename(rows: seq<User>, id: int, newName: string): (r: seq<User>)
    ensures |r| == |rows|
    ensures forall i :: 0 <= i < |rows| ==>
      r[i] == if rows[i].id == id then rows[i].(name := newName) else rows[i]
  {
    if rows == [] then []
    else [if rows[0].id == id then rows[0].(name := newName) else rows[0]] + Rename(rows[1..], id, newName)
  }

  /** Renaming keeps ids, their order and the emails, so it keeps the invariant. */
  lemma RenameWellFormed(rows: seq<User>, nextId: int, id: int, newName: string)
    requires WellFormed(rows, nextId)
    ensures WellFormed(Rename(rows, id, newName), nextId)
  {
  }

  /** After a rename, get-by-id of that id sees the new name with the old email;
      an unknown id still finds nothing. */
  lemma {:induction false} LookupAfterRename(rows: seq<User>, id: int, newName: string)
    ensures Lookup(Rename(rows, id, newName), id) ==
      match Lookup(rows, id)
      case Some(u) => Some(u.(name := newName))
      case None => None
  {
    if rows != [] {
      var r := Rename(rows, id, newName);
      assert r[1..] == Rename(rows[1..], id, newName);
      LookupAfterRename(rows[1..], id, newName);
    }
  }

  // ---------------------------------------------------------------------------
  // DELETE

  /** `DELETE FROM users WHERE id=?`: the rows with another id, in their order. */
  function Remove(rows: seq<User>, id: int): (r: seq<User>)
    ensures |r| <= |rows|
  {
    if rows == [] then []
    else (if rows[0].id == id then [] else [rows[0]]) + Remove(rows[1..], id)
  }

  /** Delete keeps exactly the rows with another id. */
  lemma {:induction false} RemoveMembers(rows: seq<User>, id: int)
    ensures forall u :: u in Remove(rows, id) <==> u in rows && u.id != id
  {
    if rows != [] {
      RemoveMembers(rows[1..], id);
      assert rows == [rows[0]] + rows[1..];
    }
  }

  /** Delete of an id no row has leaves the table as it was. */
  lemma {:induction false} RemoveAbsent(rows: seq<User>, id: int)
    requires forall k :: 0 <= k < |rows| ==> rows[k].id != id
    ensures Remove(rows, id) == rows
  {
    if rows != [] {
      RemoveAbsent(rows[1..], id);
      assert rows == [rows[0]] + rows[1..];
    }
  }

  /** With unique ids, delete of the id of row `k` removes exactly that row. */
  lemma {:induction false} RemoveAt(rows: seq<User>, id: int, k: nat)
    requires IdsIncreasing(rows)
    requires k < |rows| && rows[k].id == id
    ensures Remove(rows, id) == rows[..k] + rows[k + 1..]
  {
    if k == 0 {
      assert forall j :: 0 <= j < |rows[1..]| ==> rows[1..][j] == rows[j + 1];
      RemoveAbsent(rows[1..], id);
      assert Remove(rows, id) == Remove(rows[1..], id);
      assert rows[..0] + rows[1..] == rows[1..];
    } else {
      var tail := rows[1..];
      assert rows[0].id < rows[k].id;
      assert Remove(rows, id) == [rows[0]] + Remove(tail, id);
      assert IdsIncreasing(tail) by {
        assert forall j :: 0 <= j < |tail| ==> tail[j] == rows[j + 1];
      }
      assert tail[k - 1] == rows[k];
      RemoveAt(tail, id, k - 1);
      assert tail[..k - 1] == rows[1..k];
      assert tail[k..] == rows[k + 1..];
      assert rows[..k] == [rows[0]] + rows[1..k];
      calc {
        Remove(rows, id);
        [rows[0]] + (tail[..k - 1] + tail[k..]);
        ([rows[0]] + rows[1..k]) + rows[k + 1..];
      }
    }
  }

  /** Dropping one row keeps the remaining rows in order, so it keeps the invariant. */
  lemma DropWellFormed(rows: seq<User>, nextId: int, k: nat)
    requires WellFormed(rows, nextId) && k < |rows|
    ensures WellFormed(rows[..k] + rows[k + 1..], nextId)
  {
    var r := rows[..k] + rows[k + 1..];
    assert forall i :: 0 <= i < |r| ==> r[i] == rows[if i < k then i else i + 1];
  }

  /** Delete keeps the invariant. */
  lemma RemoveWellFormed(rows: seq<User>, nextId: int, id: int)
    requires WellFormed(rows, nextId)
    ensures WellFormed(Remove(rows, id), nextId)
  {
    if k :| 0 <= k < |rows| && rows[k].id == id {
      RemoveAt(rows, id, k);
      DropWellFormed(rows, nextId, k);
    } else {
      RemoveAbsent(rows, id);
    }
  }

  /** Get-by-id after delete of the same id finds nothing. */
  lemma LookupAfterRemove(rows: seq<User>, id: int)
    ensures Lookup(Remove(rows, id), id) == None
  {
    var r := Remove(rows, id);
    RemoveMembers(rows, id);
    forall i | 0 <= i < |r|
      ensures r[i].id != id
    {
      assert r[i] in r;
    }
  }

  // ---------------------------------------------------------------------------
  // Search

  /** The LIKE argument `f"%{name}%"`: an absent query parameter is formatted as the text "None". */
  function SearchPattern(name: Option<string>): string
  {
    "%" + (match name case Some(n) => n case None => "None") + "%"
  }

  /** `LOWER(name) LIKE LOWER(pattern)` */
  predicate NameMatches(u: User, pattern: string)
  {
    Like(Lower(u.name), Lower(pattern))
  }

  /** `SELECT * FROM users WHERE LOWER(name) LIKE LOWER(?)`: the matching rows in table order. */
  function SearchRows(rows: seq<User>, pattern: string): (r: seq<User>)
    ensures |r| <= |rows|
    ensures forall u :: u in r <==> u in rows && NameMatches(u, pattern)
  {
    if rows == [] then []
    else SearchRows(rows[..|rows| - 1], pattern) + (if NameMatches(rows[|rows| - 1], pattern) then [rows[|rows| - 1]] else [])
  }

  /** The search keeps table order: its result is sorted by id like the table. */
  lemma {:induction false} SearchKeepsOrder(rows: seq<User>, pattern: string)
    requires IdsIncreasing(rows)
    ensures IdsIncreasing(SearchRows(rows, pattern))
  {
    if rows != [] {
      var init := rows[..|rows| - 1];
      var last := rows[|rows| - 1];
      SearchKeepsOrder(init, pattern);
      var s := SearchRows(init, pattern);
      forall i | 0 <= i < |s|
        ensures s[i].id < last.id
      {
        assert s[i] in init;
        var m :| 0 <= m < |init| && init[m] == s[i];
      }
    }
  }

  /** For a fragment without '%' or '_', a row matches exactly when the lower-cased
      fragment occurs in the lower-cased name. */
  lemma SearchIsSubstring(u: User, fragment: string)
    requires WildcardFree(fragment)
    ensures NameMatches(u, SearchPattern(Some(fragment))) <==> Contains(Lower(u.name), Lower(fragment))
  {
    LowerAppend("%", fragment);
    LowerAppend("%" + fragment, "%");
    assert Lower("%") == "%";
    var lf := Lower(fragment);
    assert WildcardFree(lf) by {
      forall i | 0 <= i < |lf|
        ensures lf[i] != '%' && lf[i] != '_'
      {
        assert lf[i] == LowerChar(fragment[i]);
      }
    }
    SubstringPattern(Lower(u.name), lf);
  }

  /** The fragment "ali" finds "Alice" and "kalim" but not "Bob". */
  lemma SearchExample(alice: User, kalim: User, bob: User)
    requires alice.name == "Alice" && kalim.name == "kalim" && bob.name == "Bob"
    ensures NameMatches(alice, SearchPattern(Some("ali")))
    ensures NameMatches(kalim, SearchPattern(Some("ali")))
    ensures !NameMatches(bob, SearchPattern(Some("ali")))
  {
    assert WildcardFree("ali");
    assert Lower("ali") == "ali";
    SearchIsSubstring(alice, "ali");
    assert Lower("Alice") == "alice";
    assert OccursAt("alice", "ali", 0);
    SearchIsSubstring(kalim, "ali");
    assert Lower("kalim") == "kalim";
    assert OccursAt("kalim", "ali", 1);
    SearchIsSubstring(bob, "ali");
    assert Lower("Bob") == "bob";
    assert "bob"[0..3] == "bob" != "ali";
    assert forall k :: OccursAt("bob", "ali", k) ==> k == 0;
  }

  // ---------------------------------------------------------------------------
  // Login

  /** The JWT login check: `SELECT id, email, password FROM users WHERE email=?`,
      then an exact comparison of the stored password with the supplied one.
      An absent email selects nothing (`email = NULL` is never true); an absent
      password never equals a stored one. */
  function Authenticate(rows: seq<User>, email: Option<string>, password: Option<string>): LoginReply
  {
    if email.None? then Unauthorized(InvalidEmail)
    else match FindByEmail(rows, email.value)
      case None => Unauthorized(InvalidEmail)
      case Some(u) => if Some(u.password) != password then Unauthorized(InvalidPassword) else LoggedIn(LoginSuccessful, Token(u.email))
  }

  /** Login succeeds exactly when some row has the given email and password, and
      the token is bound to that email; a failure says which of the two was wrong. */
  lemma AuthenticateSpec(rows: seq<User>, nextId: int, email: Option<string>, password: Option<string>)
    requires WellFormed(rows, nextId)
    ensures Authenticate(rows, email, password).LoggedIn? <==>
      exists i :: 0 <= i < |rows| && email == Some(rows[i].email) && password == Some(rows[i].password)
    ensures Authenticate(rows, email, password).LoggedIn? ==> Some(Authenticate(rows, email, password).token.identity) == email
    ensures Authenticate(rows, email, password).LoggedIn? ==> Authenticate(rows, email, password).message == LoginSuccessful
    ensures Authenticate(rows, email, password) == Unauthorized(InvalidEmail) <==>
      forall i :: 0 <= i < |rows| ==> email != Some(rows[i].email)
  {
    if email.Some? {
      var f := FindByEmail(rows, email.value);
      if f.Some? {
        var k :| 0 <= k < |rows| && rows[k] == f.value;
        assert forall i :: 0 <= i < |rows| && email == Some(rows[i].email) ==> i == k;
      }
    }
  }
}
