/** The local persistence of registered users: a collection of user records
    whose usernames are unique, read with fetch-first lookups. */
module LocalStore {
  import opened Wrappers

  /** A persisted user record. */
  datatype LocalUserEntity = LocalUserEntity(username: string, password: string, email: string)

  /** What a record holds besides its username. */
  datatype Credentials = Credentials(password: string, email: string)

  function CredentialsOf(user: LocalUserEntity): Credentials
  {
    Credentials(user.password, user.email)
  }

  /** No two records share a username (the unique attribute on `username`). */
  ghost predicate UniqueUsernames(users: seq<LocalUserEntity>)
  {
    forall i, j :: 0 <= i < j < |users| ==> users[i].username != users[j].username
  }

  /** The store seen as a dictionary: every stored username with the password
      and email of the FIRST record that has it, which is what a fetch
      followed by `.first` finds. */
  function Records(users: seq<LocalUserEntity>): map<string, Credentials>
  {
    if users == [] then map[]
    else Records(users[1..])[users[0].username := CredentialsOf(users[0])]
  }

  /** The position of the first record with username `username`. */
  function IndexOfUsername(users: seq<LocalUserEntity>, username: string): (r: Option<nat>)
    ensures r.Some? ==> r.value < |users| && users[r.value].username == username
    ensures r.Some? ==> forall j :: 0 <= j < r.value ==> users[j].username != username
    ensures r.None? ==> forall j :: 0 <= j < |users| ==> users[j].username != username
  {
    if users == [] then None
    else if users[0].username == username then Some(0)
    else match IndexOfUsername(users[1..], username)
      case Some(i) => Some(i + 1)
      case None => None
  }

  /** The position of the first record whose username AND password match. */
  function IndexOfCredentials(users: seq<LocalUserEntity>, username: string, password: string): (r: Option<nat>)
    ensures r.Some? ==> r.value < |users|
    ensures r.Some? ==> users[r.value].username == username && users[r.value].password == password
    ensures r.Some? ==> forall j :: 0 <= j < r.value ==>
      !(users[j].username == username && users[j].password == password)
    ensures r.None? ==> forall j :: 0 <= j < |users| ==>
      !(users[j].username == username && users[j].password == password)
  {
    if users == [] then None
    else if users[0].username == username && users[0].password == password then Some(0)
    else match IndexOfCredentials(users[1..], username, password)
      case Some(i) => Some(i + 1)
      case None => None
  }

  /** The dictionary view holds a username exactly when some record has it,
      and then holds the credentials of the first such record. */
  lemma {:induction false} RecordsLookup(users: seq<LocalUserEntity>, username: string)
    ensures IndexOfUsername(users, username).None? ==> username !in Records(users)
    ensures IndexOfUsername(users, username).Some? ==>
      username in Records(users) &&
      Records(users)[username] == CredentialsOf(users[IndexOfUsername(users, username).value])
  {
    if users != [] && users[0].username != username {
      RecordsLookup(users[1..], username);
    }
  }

  /** Overwriting the first record of a username changes the view at that
      username only. */
  lemma {:induction false} RecordsOverwriteFirst(users: seq<LocalUserEntity>, i: nat, user: LocalUserEntity)
    requires IndexOfUsername(users, user.username) == Some(i)
    ensures Records(users[i := user]) == Records(users)[user.username := CredentialsOf(user)]
  {
    if i > 0 {
      var tail := users[1..];
      assert IndexOfUsername(tail, user.username) == Some(i - 1);
      RecordsOverwriteFirst(tail, i - 1, user);
      assert users[i := user][1..] == tail[i - 1 := user];
    } else {
      assert users[i := user][1..] == users[1..];
    }
  }

  /** Appending a record for a username the store lacks adds exactly that
      username to the view. */
  lemma {:induction false} RecordsAppendNew(users: seq<LocalUserEntity>, user: LocalUserEntity)
    requires IndexOfUsername(users, user.username).None?
    ensures Records(users + [user]) == Records(users)[user.username := CredentialsOf(user)]
  {
    if users == [] {
      assert Records([user]) == Records([])[user.username := CredentialsOf(user)];
    } else {
      var tail := users[1..];
      assert IndexOfUsername(tail, user.username).None?;
      RecordsAppendNew(tail, user);
      assert (users + [user])[1..] == tail + [user];
    }
  }

  /** With unique usernames, the credential lookup succeeds exactly when the
      view stores that password for that username, and finds the one record
      the username has. */
  lemma CredentialsLookup(users: seq<LocalUserEntity>, username: string, password: string)
    ensures UniqueUsernames(users) ==>
      (IndexOfCredentials(users, username, password).Some? <==>
       username in Records(users) && Records(users)[username].password == password)
    ensures UniqueUsernames(users) && IndexOfCredentials(users, username, password).Some? ==>
      CredentialsOf(users[IndexOfCredentials(users, username, password).value]) == Records(users)[username]
  {
  }

  class LocalUserStore {
    /** The persisted records, in fetch order. */
    var users: seq<LocalUserEntity>

    /** The store's invariant: usernames are unique. */
    ghost predicate Valid()
      reads this
    {
      UniqueUsernames(users)
    }

    /** Wraps the records the persistent context already holds, which may
        be left over from earlier launches. */
    constructor (users: seq<LocalUserEntity>)
      requires UniqueUsernames(users)
      ensures this.users == users && Valid()
    {
      this.users := users;
    }

    /** Upsert: overwrites the password and email of the record for
        `username` when there is one, and otherwise inserts a new record. */
    method SaveUser(username: string, password: string, email: string)
      modifies this
      ensures Records(users) == old(Records(users))[username := Credentials(password, email)]
      ensures username in old(Records(users)) ==> |users| == old(|users|)
      ensures username in old(Records(users)) ==>
        old(IndexOfUsername(users, username)).Some? &&
        users == old(users)[old(IndexOfUsername(users, username)).value := LocalUserEntity(username, password, email)]
      ensures username !in old(Records(users)) ==>
        users == old(users) + [LocalUserEntity(username, password, email)]
      ensures old(Valid()) ==> Valid()
    {
      var user := LocalUserEntity(username, password, email);
      RecordsLookup(users, username);
      match IndexOfUsername(users, username)
      case Some(i) =>
        RecordsOverwriteFirst(users, i, user);
        users := users[i := user];
      case None =>
        RecordsAppendNew(users, user);
        users := users + [user];
    }

    /** The record whose username and password both match, if any. */
    function FindUser(username: string, password: string): (r: Option<LocalUserEntity>)
      reads this
      ensures r.Some? ==> r.value in users
      ensures r.Some? ==> r.value.username == username && r.value.password == password
      ensures Valid() ==>
        (r.Some? <==> username in Records(users) && Records(users)[username].password == password)
      ensures Valid() && r.Some? ==> r.value.email == Records(users)[username].email
    {
      CredentialsLookup(users, username, password);
      match IndexOfCredentials(users, username, password)
      case Some(i) => Some(users[i])
      case None => None
    }

    /** The record with username `username`, if any. */
    function FindUserByUsername(username: string): (r: Option<LocalUserEntity>)
      reads this
      ensures r.Some? <==> username in Records(users)
      ensures r.Some? ==> r.value.username == username && CredentialsOf(r.value) == Records(users)[username]
    {
      RecordsLookup(users, username);
      match IndexOfUsername(users, username)
      case Some(i) => Some(users[i])
      case None => None
    }

    /** Persists a change made to a record that the store already holds: the
        record with the same username takes the new password and email. */
    method SaveExistingUser(user: LocalUserEntity)
      modifies this
      ensures user.username in old(Records(users)) ==>
        Records(users) == old(Records(users))[user.username := CredentialsOf(user)]
      ensures user.username !in old(Records(users)) ==> users == old(users)
      ensures |users| == old(|users|)
      ensures old(Valid()) ==> Valid()
    {
      RecordsLookup(users, user.username);
      match IndexOfUsername(users, user.username)
      case Some(i) =>
        RecordsOverwriteFirst(users, i, user);
        users := users[i := user];
      case None =>
    }
  }

  /** Saving a user and then looking its credentials up finds the saved
      record, whether the username was new or not. */
  method SaveThenFind(store: LocalUserStore, username: string, password: string, email: string)
    returns (found: Option<LocalUserEntity>)
    requires store.Valid()
    modifies store
    ensures found == Some(LocalUserEntity(username, password, email))
  {
    store.SaveUser(username, password, email);
    found := store.FindUser(username, password);
  }
}
