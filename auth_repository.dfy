/** The authentication repository backed by the local user store: register,
    login and reset-password, failing with typed errors. */
module AuthRepository {
  import opened Wrappers
  import opened LocalStore

  /** The public view of a user: no password. */
  datatype User = User(id: int, name: string, email: string)

  datatype AuthError = InvalidCredentials | UserAlreadyExists | UserNotFound

  /** The text a caller shows for an error. */
  function ErrorDescription(e: AuthError): (r: string)
    ensures |r| > 0
  {
    match e
    case InvalidCredentials => "Invalid username or password."
    case UserAlreadyExists => "This username is already registered."
    case UserNotFound => "We couldn't find an account with that username."
  }

  /** Different errors are shown with different texts. */
  lemma ErrorDescriptionsDistinct(e1: AuthError, e2: AuthError)
    requires e1 != e2
    ensures ErrorDescription(e1) != ErrorDescription(e2)
  {
  }

  /** The range `Int.random(in: 1...1_000_000)` draws user ids from. */
  const MinUserId := 1
  const MaxUserId := 1_000_000

  /** `username` is stored with password `password`. */
  ghost predicate Authenticates(store: LocalUserStore, username: string, password: string)
    reads store
  {
    username in Records(store.users) && Records(store.users)[username].password == password
  }

  class AuthRepositoryImpl {
    const localUserStore: LocalUserStore

    constructor (localUserStore: LocalUserStore)
      ensures this.localUserStore == localUserStore
    {
      this.localUserStore := localUserStore;
    }

    /** Looks the credentials up and maps the record to a `User` with a
        random id; fails with `InvalidCredentials` when nothing matches. */
    method Login(username: string, password: string) returns (r: Result<User, AuthError>)
      requires localUserStore.Valid()
      ensures r.Failure? <==> !Authenticates(localUserStore, username, password)
      ensures r.Failure? ==> r.error == InvalidCredentials
      ensures r.Success? ==> r.value.name == username
      ensures r.Success? ==> r.value.email == Records(localUserStore.users)[username].email
      ensures r.Success? ==> MinUserId <= r.value.id <= MaxUserId
    {
      var local := localUserStore.FindUser(username, password);
      if local.None? {
        return Failure(InvalidCredentials);
      }
      var id :| MinUserId <= id <= MaxUserId;
      return Success(User(id, local.value.username, local.value.email));
    }

    /** Creates the record for a new username; fails with
        `UserAlreadyExists`, leaving the store alone, when it is taken. */
    method Register(username: string, password: string, email: string) returns (r: Result<User, AuthError>)
      modifies localUserStore
      ensures r.Failure? <==> username in old(Records(localUserStore.users))
      ensures r.Failure? ==> r.error == UserAlreadyExists && localUserStore.users == old(localUserStore.users)
      ensures r.Success? ==>
        localUserStore.users == old(localUserStore.users) + [LocalUserEntity(username, password, email)]
      ensures r.Success? ==>
        Records(localUserStore.users) == old(Records(localUserStore.users))[username := Credentials(password, email)]
      ensures r.Success? ==> r.value.name == username && r.value.email == email
      ensures r.Success? ==> MinUserId <= r.value.id <= MaxUserId
      ensures old(localUserStore.Valid()) ==> localUserStore.Valid()
    {
      if localUserStore.FindUserByUsername(username) != None {
        return Failure(UserAlreadyExists);
      }
      localUserStore.SaveUser(username, password, email);
      var id :| MinUserId <= id <= MaxUserId;
      return Success(User(id, username, email));
    }

    /** Replaces the password of an existing username and keeps its email;
        fails with `UserNotFound`, leaving the store alone, otherwise. */
    method ResetPassword(username: string, newPassword: string) returns (r: Outcome<AuthError>)
      modifies localUserStore
      ensures r.Fail? <==> username !in old(Records(localUserStore.users))
      ensures r.Fail? ==> r.error == UserNotFound && localUserStore.users == old(localUserStore.users)
      ensures r.Pass? ==>
        (Records(localUserStore.users) ==
         old(Records(localUserStore.users))[username :=
           Credentials(newPassword, old(Records(localUserStore.users))[username].email)])
      ensures |localUserStore.users| == old(|localUserStore.users|)
      ensures old(localUserStore.Valid()) ==> localUserStore.Valid()
    {
      var existing := localUserStore.FindUserByUsername(username);
      if existing.None? {
        return Fail(UserNotFound);
      }
      localUserStore.SaveExistingUser(existing.value.(password := newPassword));
      return Pass;
    }
  }

  /** Registering a new username and then logging in with the same
      credentials succeeds with that name and email. */
  method RegisterThenLogin(repository: AuthRepositoryImpl, username: string, password: string, email: string)
    returns (registered: Result<User, AuthError>, loggedIn: Result<User, AuthError>)
    requires repository.localUserStore.Valid()
    requires username !in Records(repository.localUserStore.users)
    modifies repository.localUserStore
    ensures registered.Success? && registered.value.name == username
    ensures loggedIn.Success? && loggedIn.value.name == username && loggedIn.value.email == email
  {
    registered := repository.Register(username, password, email);
    loggedIn := repository.Login(username, password);
  }

  /** Registering a taken username fails and leaves its record as it was;
      the old credentials still log in. */
  method RegisterTakenThenLogin(repository: AuthRepositoryImpl, username: string, password: string,
                                otherPassword: string, otherEmail: string)
    returns (registered: Result<User, AuthError>, loggedIn: Result<User, AuthError>)
    requires repository.localUserStore.Valid()
    requires Authenticates(repository.localUserStore, username, password)
    modifies repository.localUserStore
    ensures registered == Failure(UserAlreadyExists)
    ensures repository.localUserStore.users == old(repository.localUserStore.users)
    ensures loggedIn.Success? && loggedIn.value.name == username
  {
    registered := repository.Register(username, otherPassword, otherEmail);
    loggedIn := repository.Login(username, password);
  }

  /** After a password reset the new password logs in, keeping the email,
      and the old one no longer does. */
  method ResetThenLogin(repository: AuthRepositoryImpl, username: string, oldPassword: string, newPassword: string)
    returns (reset: Outcome<AuthError>, withNew: Result<User, AuthError>, withOld: Result<User, AuthError>)
    requires repository.localUserStore.Valid()
    requires Authenticates(repository.localUserStore, username, oldPassword)
    requires oldPassword != newPassword
    modifies repository.localUserStore
    ensures reset == Pass
    ensures withNew.Success? && withNew.value.name == username
    ensures withNew.value.email == old(Records(repository.localUserStore.users))[username].email
    ensures withOld == Failure(InvalidCredentials)
  {
    reset := repository.ResetPassword(username, newPassword);
    withNew := repository.Login(username, newPassword);
    withOld := repository.Login(username, oldPassword);
  }

  /** A wrong password for a stored username is refused, and logging in
      never changes the store. */
  method WrongPasswordLogin(repository: AuthRepositoryImpl, username: string, password: string, wrong: string)
    returns (r: Result<User, AuthError>)
    requires repository.localUserStore.Valid()
    requires Authenticates(repository.localUserStore, username, password)
    requires wrong != password
    ensures r == Failure(InvalidCredentials)
  {
    r := repository.Login(username, wrong);
  }

  /** The scenario of a user "alice" who registers, logs in, mistypes the
      password, resets it and logs in again. */
  method AliceScenario(repository: AuthRepositoryImpl)
    returns (results: seq<Result<User, AuthError>>, reset: Outcome<AuthError>)
    requires repository.localUserStore.Valid()
    requires "alice" !in Records(repository.localUserStore.users)
    modifies repository.localUserStore
    ensures reset == Pass
    ensures |results| == 5
    ensures results[0].Success? && results[0].value.name == "alice"
    ensures results[1].Success? && results[1].value.name == "alice"
    ensures results[2] == Failure(InvalidCredentials)
    ensures results[3] == Failure(InvalidCredentials)
    ensures results[4].Success? && results[4].value.name == "alice"
  {
    var registered := repository.Register("alice", "secret1", "a@x.com");
    var first := repository.Login("alice", "secret1");
    var wrong := repository.Login("alice", "wrong");
    reset := repository.ResetPassword("alice", "secret2");
    var stale := repository.Login("alice", "secret1");
    var renewed := repository.Login("alice", "secret2");
    results := [registered, first, wrong, stale, renewed];
  }
}
