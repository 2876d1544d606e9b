/** The route handlers over one process's state: the users table, its
    AUTOINCREMENT counter and the module-level response cache. */
module Service {
  import opened Wrappers
  import opened Users
  import opened Paging

  /** The literal the update statement writes, whatever name the request carries. */
  const UpdatedName := "Krishna Boss"
  const UpdatedMessage := "User updated successfully"
  const DeletedMessage := "User deleted successfully"
  const NotFoundError := "User not found."
  const NotFoundStatus := 404
  const DivisionByZero := "integer division or modulo by zero"

  /** The reply of the update route: the path id, the requested username (null
      when the body has none) and a fixed message, whether or not a row changed. */
  datatype UpdateReply = UpdateReply(id: int, username: Option<string>, message: string)

  /** The reply of the get-by-id route. */
  datatype GetReply = Found(user: UserView) | NotFound(status: int, error: string)

  /** The pagination envelope. */
  datatype PageReply = PageReply(page: int, limit: int, totalUsers: int, totalPages: int, users: seq<UserView>)

  /** The state the handlers share: the rows in rowid order, the next id
      AUTOINCREMENT will issue, and the `cache["user"]` slot. */
  datatype State = State(rows: seq<User>, nextId: int, cache: Option<seq<CachedUser>>)

  /** The requests that change the state. */
  datatype Op =
    | CreateUser(name: string, email: string, password: string)
    | UpdateUser(id: int, username: Option<string>)
    | DeleteUser(id: int)
    | ReadCache

  /** The state after one request. */
  function Apply(s: State, op: Op): State
  {
    match op
    case CreateUser(name, email, password) =>
      (match Insert(s.rows, s.nextId, name, email, password)
       case Ok(u) => s.(rows := s.rows + [u], nextId := s.nextId + 1)
       case Err(_) => s)
    case UpdateUser(id, _) => s.(rows := Rename(s.rows, id, UpdatedName))
    case DeleteUser(id) => s.(rows := Remove(s.rows, id))
    case ReadCache => if s.cache.Some? then s else s.(cache := Some(CacheEntries(s.rows)))
  }

  /** The state after a sequence of requests, one at a time. */
  function Run(s: State, ops: seq<Op>): State
    decreases |ops|
  {
    if ops == [] then s else Run(Apply(s, ops[0]), ops[1..])
  }

  /** What `GET /cached-users` returns in state `s`. */
  function CachedReply(s: State): seq<CachedUser>
  {
    if s.cache.Some? then s.cache.value else CacheEntries(s.rows)
  }

  /** Every request keeps the table's invariant and never lowers the id counter. */
  lemma ApplyWellFormed(s: State, op: Op)
    requires WellFormed(s.rows, s.nextId)
    ensures WellFormed(Apply(s, op).rows, Apply(s, op).nextId)
    ensures Apply(s, op).nextId >= s.nextId
  {
    match op
    case CreateUser(name, email, password) =>
      InsertSpec(s.rows, s.nextId, name, email, password);
    case UpdateUser(id, _) =>
      RenameWellFormed(s.rows, s.nextId, id, UpdatedName);
    case DeleteUser(id) =>
      RemoveWellFormed(s.rows, s.nextId, id);
    case ReadCache =>
  }

  /** Every row of `t` whose id is below the counter of `s` already had that id in `s`:
      between the two states no id below the counter was handed out again. */
  ghost predicate NoReissue(s: State, t: State)
  {
    forall i :: 0 <= i < |t.rows| && t.rows[i].id < s.nextId ==>
      exists j :: 0 <= j < |s.rows| && s.rows[j].id == t.rows[i].id
  }

  /** One request issues no id below the counter: create issues the counter
      itself, update keeps every id in place, delete keeps a subset of the rows. */
  lemma ApplyNoReissue(s: State, op: Op)
    ensures NoReissue(s, Apply(s, op))
  {
    var t := Apply(s, op);
    match op
    case CreateUser(name, email, password) =>
      forall i | 0 <= i < |t.rows| && t.rows[i].id < s.nextId
        ensures exists j :: 0 <= j < |s.rows| && s.rows[j].id == t.rows[i].id
      {
        assert i < |s.rows| && t.rows[i] == s.rows[i];
      }
    case UpdateUser(id, _) =>
      forall i | 0 <= i < |t.rows| && t.rows[i].id < s.nextId
        ensures exists j :: 0 <= j < |s.rows| && s.rows[j].id == t.rows[i].id
      {
        assert s.rows[i].id == t.rows[i].id;
      }
    case DeleteUser(id) =>
      RemoveMembers(s.rows, id);
      forall i | 0 <= i < |t.rows| && t.rows[i].id < s.nextId
        ensures exists j :: 0 <= j < |s.rows| && s.rows[j].id == t.rows[i].id
      {
        assert t.rows[i] in t.rows;
        var j :| 0 <= j < |s.rows| && s.rows[j] == t.rows[i];
      }
    case ReadCache =>
  }

  /** Over any sequence of requests ids stay unique and increasing, no two rows
      share an email, the counter never goes down, and no id issued before the
      sequence is issued again: a row carrying such an id was there at the start. */
  lemma {:induction false} RunWellFormed(s: State, ops: seq<Op>)
    requires WellFormed(s.rows, s.nextId)
    ensures WellFormed(Run(s, ops).rows, Run(s, ops).nextId)
    ensures Run(s, ops).nextId >= s.nextId
    ensures NoReissue(s, Run(s, ops))
    decreases |ops|
  {
    if ops != [] {
      var s1 := Apply(s, ops[0]);
      var t := Run(s, ops);
      ApplyWellFormed(s, ops[0]);
      ApplyNoReissue(s, ops[0]);
      RunWellFormed(s1, ops[1..]);
      forall i | 0 <= i < |t.rows| && t.rows[i].id < s.nextId
        ensures exists j :: 0 <= j < |s.rows| && s.rows[j].id == t.rows[i].id
      {
        var k :| 0 <= k < |s1.rows| && s1.rows[k].id == t.rows[i].id;
        assert s1.rows[k].id < s.nextId;
      }
    }
  }

  /** A deleted id never comes back, whatever requests follow the delete. */
  lemma DeletedIdNeverReturns(s: State, id: int, ops: seq<Op>)
    requires WellFormed(s.rows, s.nextId)
    requires exists i :: 0 <= i < |s.rows| && s.rows[i].id == id
    ensures Lookup(Run(Apply(s, DeleteUser(id)), ops).rows, id) == None
  {
    var s1 := Apply(s, DeleteUser(id));
    assert s1.rows == Remove(s.rows, id) && s1.nextId == s.nextId;
    RemoveWellFormed(s.rows, s.nextId, id);
    RunWellFormed(s1, ops);
    LookupAfterRemove(s.rows, id);
    var t := Run(s1, ops);
    var i0 :| 0 <= i0 < |s.rows| && s.rows[i0].id == id;
    assert id < s1.nextId;
    assert forall j :: 0 <= j < |s1.rows| ==> s1.rows[j].id != id;
    assert NoReissue(s1, t);
  }

  /** The first cached read fills the slot with the listing of the table as it is. */
  lemma FirstCachedRead(s: State)
    requires s.cache.None?
    ensures Apply(s, ReadCache).cache == Some(CachedReply(s))
    ensures CachedReply(s) == CacheEntries(s.rows)
  {
  }

  /** Once the slot is filled, no request changes it, so every later cached read
      returns the first listing, however the table changed in between. */
  lemma {:induction false} CacheNeverInvalidated(s: State, ops: seq<Op>)
    requires s.cache.Some?
    ensures Run(s, ops).cache == s.cache
    ensures CachedReply(Run(s, ops)) == CachedReply(s)
    decreases |ops|
  {
    if ops != [] {
      assert Apply(s, ops[0]).cache == s.cache;
      CacheNeverInvalidated(Apply(s, ops[0]), ops[1..]);
    }
  }

  /** A user created after the cache was filled is missing from every later cached read. */
  lemma StaleAfterCreate(s: State, name: string, email: string, password: string)
    requires s.cache == Some(CacheEntries(s.rows))
    requires Insert(s.rows, s.nextId, name, email, password).Ok?
    ensures CachedReply(Apply(s, CreateUser(name, email, password))) != CacheEntries(Apply(s, CreateUser(name, email, password)).rows)
    ensures CachedUser(s.nextId, name, email, password) !in CachedReply(Apply(s, CreateUser(name, email, password)))
    ensures CachedUser(s.nextId, name, email, password) in CacheEntries(Apply(s, CreateUser(name, email, password)).rows)
  {
    var t := Apply(s, CreateUser(name, email, password));
    var c := CachedUser(s.nextId, name, email, password);
    assert t.cache == s.cache;
    assert FindByEmail(s.rows, email).None?;
    assert forall e :: e in CacheEntries(s.rows) ==> e.email != email;
    assert CacheEntries(t.rows)[|s.rows|] == c;
  }

  /** Create, then get-by-id of the returned id, sees the name and email just stored. */
  lemma CreateThenGet(s: State, name: string, email: string, password: string)
    requires WellFormed(s.rows, s.nextId)
    requires forall i :: 0 <= i < |s.rows| ==> s.rows[i].email != email
    ensures Lookup(Apply(s, CreateUser(name, email, password)).rows, s.nextId) == Some(User(s.nextId, name, email, password))
  {
    LookupAfterInsert(s.rows, s.nextId, User(s.nextId, name, email, password));
  }

  /** Create, update, get: the name is the literal, the email is the created one. */
  lemma CreateUpdateGet(s: State, name: string, email: string, password: string, requested: Option<string>)
    requires WellFormed(s.rows, s.nextId)
    requires forall i :: 0 <= i < |s.rows| ==> s.rows[i].email != email
    ensures var t := Apply(Apply(s, CreateUser(name, email, password)), UpdateUser(s.nextId, requested));
      Lookup(t.rows, s.nextId) == Some(User(s.nextId, UpdatedName, email, password))
  {
    var u := User(s.nextId, name, email, password);
    LookupAfterInsert(s.rows, s.nextId, u);
    LookupAfterRename(s.rows + [u], s.nextId, UpdatedName);
  }

  /** Delete, then get-by-id of the same id, finds nothing. */
  lemma DeleteThenGet(s: State, id: int)
    ensures Lookup(Apply(s, DeleteUser(id)).rows, id) == None
  {
    LookupAfterRemove(s.rows, id);
  }

  /** The service state as one object. Handlers that change the table or the
      cache say how in terms of `Apply`; read-only handlers say what they return. */
  class UserStore {
    var rows: seq<User>
    var nextId: int
    var cache: Option<seq<CachedUser>>
    /** The ids AUTOINCREMENT may have handed out so far, deleted ones included. */
    ghost var issued: set<int>

    ghost predicate Valid()
      reads this
    {
      && WellFormed(rows, nextId)
      && (forall x :: x in issued ==> 1 <= x < nextId)
      && (forall i :: 0 <= i < |rows| ==> rows[i].id in issued)
    }

    ghost function Snapshot(): State
      reads this
    {
      State(rows, nextId, cache)
    }

    /** A process start over the stored table with an empty cache. `history`
        holds the ids issued before the start: every stored id, and possibly
        deleted ones, all below the stored counter. */
    constructor (stored: seq<User>, storedNext: int, ghost history: set<int>)
      requires WellFormed(stored, storedNext)
      requires forall x :: x in history ==> 1 <= x < storedNext
      requires forall i :: 0 <= i < |stored| ==> stored[i].id in history
      ensures Valid()
      ensures rows == stored && nextId == storedNext && cache == None && issued == history
    {
      rows := stored;
      nextId := storedNext;
      cache := None;
      issued := history;
    }

    /** `POST /users` (create_user). */
    method Create(name: string, email: string, password: string) returns (r: Result<CreateReply, DbError>)
      requires Valid()
      modifies this`rows, this`nextId, this`issued
      ensures Valid()
      ensures Snapshot() == Apply(old(Snapshot()), CreateUser(name, email, password))
      ensures r.Ok? ==> r.value.id !in old(issued) && (forall x :: x in old(issued) ==> x < r.value.id)
      ensures issued == if r.Ok? then old(issued) + {r.value.id} else old(issued)
      ensures r.Err? <==> exists i :: 0 <= i < |old(rows)| && old(rows)[i].email == email
      ensures r.Err? ==> r.error == IntegrityError(UniqueEmailFailed)
      ensures r.Ok? ==> r.value == CreateReply(old(nextId), name, email, CreatedMessage)
      ensures r.Ok? ==> rows == old(rows) + [User(old(nextId), name, email, password)]
      ensures r.Ok? ==> forall i :: 0 <= i < |old(rows)| ==> old(rows)[i].id < r.value.id
    {
      InsertSpec(rows, nextId, name, email, password);
      var inserted := Insert(rows, nextId, name, email, password);
      match inserted
      case Ok(u) =>
        rows := rows + [u];
        nextId := nextId + 1;
        issued := issued + {u.id};
        r := Ok(CreateReply(u.id, name, email, CreatedMessage));
      case Err(e) =>
        r := Err(e);
    }

    /** `PUT /users/<id>` (update_user). */
    method Update(id: int, username: Option<string>) returns (r: UpdateReply)
      requires Valid()
      modifies this`rows
      ensures Valid()
      ensures Snapshot() == Apply(old(Snapshot()), UpdateUser(id, username))
      ensures r == UpdateReply(id, username, UpdatedMessage)
    {
      RenameWellFormed(rows, nextId, id, UpdatedName);
      rows := Rename(rows, id, UpdatedName);
      r := UpdateReply(id, username, UpdatedMessage);
    }

    /** `DELETE /users/<id>` (delete_user): the same message whether or not a row went. */
    method Delete(id: int) returns (message: string)
      requires Valid()
      modifies this`rows
      ensures Valid()
      ensures Snapshot() == Apply(old(Snapshot()), DeleteUser(id))
      ensures message == DeletedMessage
    {
      RemoveWellFormed(rows, nextId, id);
      RemoveMembers(rows, id);
      rows := Remove(rows, id);
      message := DeletedMessage;
    }

    /** `GET /users/<id>` (error_message). */
    method GetById(id: int) returns (r: GetReply)
      requires Valid()
      ensures r.Found? <==> exists i :: 0 <= i < |rows| && rows[i].id == id
      ensures r.Found? ==> exists i :: 0 <= i < |rows| && rows[i].id == id && r.user == View(rows[i])
      ensures r.NotFound? ==> r == NotFound(NotFoundStatus, NotFoundError)
    {
      match Lookup(rows, id)
      case Some(u) =>
        r := Found(View(u));
      case None =>
        r := NotFound(NotFoundStatus, NotFoundError);
    }

    /** `GET /users` (allusers): every row, in table order, with the create message attached. */
    method ListUsers() returns (users: seq<ListEntry>)
      requires Valid()
      ensures |users| == |rows|
      ensures forall i :: 0 <= i < |rows| ==>
        users[i] == ListEntry(rows[i].id, rows[i].name, rows[i].email, CreatedMessage)
    {
      users := [];
      var i := 0;
      while i < |rows|
        invariant 0 <= i <= |rows|
        invariant |users| == i
        invariant forall k :: 0 <= k < i ==> users[k] == ListEntry(rows[k].id, rows[k].name, rows[k].email, CreatedMessage)
      {
        users := users + [ListEntry(rows[i].id, rows[i].name, rows[i].email, CreatedMessage)];
        i := i + 1;
      }
    }

    /** `GET /users/search?name=` (search). */
    method Search(name: Option<string>) returns (users: seq<UserView>)
      requires Valid()
      ensures users == Views(SearchRows(rows, SearchPattern(name)))
    {
      var pattern := SearchPattern(name);
      users := [];
      ghost var matched: seq<User> := [];
      var i := 0;
      while i < |rows|
        invariant 0 <= i <= |rows|
        invariant matched == SearchRows(rows[..i], pattern)
        invariant users == Views(matched)
      {
        assert rows[..i + 1][..i] == rows[..i];
        if NameMatches(rows[i], pattern) {
          matched := matched + [rows[i]];
          users := users + [View(rows[i])];
        }
        i := i + 1;
      }
      assert rows[..i] == rows;
    }

    /** `GET /users/paginate?page=&limit=` (pagination). A zero limit fails
        in the page-count division after the rows were read. */
    method Paginate(page: int, limit: int) returns (r: Result<PageReply, string>)
      requires Valid()
      ensures r.Err? <==> limit == 0
      ensures r.Err? ==> r.error == DivisionByZero
      ensures r.Ok? ==> r.value == PageReply(page, limit, |rows|, TotalPages(|rows|, limit), Views(Window(rows, limit, Offset(page, limit))))
    {
      var selected := Window(rows, limit, Offset(page, limit));
      var totalUsers := |rows|;
      var users: seq<UserView> := [];
      var i := 0;
      while i < |selected|
        invariant 0 <= i <= |selected|
        invariant |users| == i
        invariant forall k :: 0 <= k < i ==> users[k] == View(selected[k])
      {
        users := users + [View(selected[i])];
        i := i + 1;
      }
      if limit == 0 {
        r := Err(DivisionByZero);
      } else {
        r := Ok(PageReply(page, limit, totalUsers, TotalPages(totalUsers, limit), users));
      }
    }

    /** `POST /loginuser` (loginuserjwt), up to issuing the token. */
    method Login(email: Option<string>, password: Option<string>) returns (r: LoginReply)
      requires Valid()
      ensures r.LoggedIn? <==> exists i :: 0 <= i < |rows| && email == Some(rows[i].email) && password == Some(rows[i].password)
      ensures r.LoggedIn? ==> Some(r.token.identity) == email && r.message == LoginSuccessful
      ensures r.Unauthorized? ==> r.error == InvalidEmail || r.error == InvalidPassword
      ensures r == Unauthorized(InvalidEmail) <==> forall i :: 0 <= i < |rows| ==> email != Some(rows[i].email)
    {
      AuthenticateSpec(rows, nextId, email, password);
      r := Authenticate(rows, email, password);
    }

    /** `GET /cached-users` (cache_response): the slot's listing if it is filled,
        otherwise the full listing with passwords, which then fills it. */
    method CachedUsers() returns (users: seq<CachedUser>)
      requires Valid()
      modifies this`cache
      ensures Valid()
      ensures Snapshot() == Apply(old(Snapshot()), ReadCache)
      ensures users == CachedReply(old(Snapshot())) && cache == Some(users)
    {
      if cache.Some? {
        return cache.value;
      }
      users := [];
      var i := 0;
      while i < |rows|
        invariant 0 <= i <= |rows|
        invariant |users| == i
        invariant forall k :: 0 <= k < i ==> users[k] == CachedUser(rows[k].id, rows[k].name, rows[k].email, rows[k].password)
      {
        users := users + [CachedUser(rows[i].id, rows[i].name, rows[i].email, rows[i].password)];
        i := i + 1;
      }
      assert users == CacheEntries(rows);
      cache := Some(users);
    }
  }
}
