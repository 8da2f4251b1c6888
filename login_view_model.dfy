/** The login form: no client-side checks; the login call is one step whose
    outcome is passed in. */
module LoginScreen {
  import opened Wrappers
  import opened AuthRepository

  class LoginViewModel {
    var username: string
    var password: string
    var isLoading: bool
    var errorMessage: Option<string>
    var loggedInUser: Option<User>

    constructor ()
      ensures username == "" && password == ""
      ensures !isLoading && errorMessage.None? && loggedInUser.None?
    {
      username, password := "", "";
      isLoading := false;
      errorMessage := None;
      loggedInUser := None;
    }

    /** Clears the message, lets the call answer with `outcome` and keeps the
        user or shows the error's description. */
    method Login(outcome: Result<User, AuthError>)
      modifies this
      ensures username == old(username) && password == old(password)
      ensures !isLoading
      ensures outcome.Success? ==> loggedInUser == Some(outcome.value) && errorMessage.None?
      ensures outcome.Failure? ==>
        errorMessage == Some(ErrorDescription(outcome.error)) && loggedInUser == old(loggedInUser)
    {
      isLoading := true;
      errorMessage := None;
      match outcome {
        case Success(user) =>
          loggedInUser := Some(user);
        case Failure(e) =>
          errorMessage := Some(ErrorDescription(e));
      }
      isLoading := false;
    }
  }
}
