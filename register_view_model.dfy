/** The registration form: its fields, the ordered checks that run before
    anything is sent, and the state it shows once the register call has
    answered. The call is one step whose outcome is passed in. */
module RegisterScreen {
  import opened Wrappers
  import opened AuthRepository
  import opened FormValidation

  /** The message of the first check the form fails, or none when all pass.
      The checks run in this order: every field filled, the two passwords
      equal, the password long enough, the email well formed. */
  function RegistrationError(username: string, password: string, email: string, confirmPassword: string)
    : (r: Option<string>)
    ensures r == Some(FillAllFieldsMessage) <==> username == "" || password == "" || email == ""
    ensures r == Some(PasswordsMismatchMessage) <==>
      username != "" && password != "" && email != "" && password != confirmPassword
    ensures r == Some(PasswordTooShortMessage) <==>
      username != "" && password != "" && email != "" && password == confirmPassword &&
      |password| < MinPasswordLength
    ensures r == Some(InvalidEmailMessage) <==>
      username != "" && password != "" && email != "" && password == confirmPassword &&
      |password| >= MinPasswordLength && !IsValidEmail(email)
    ensures r.None? <==> username != "" && password != "" && email != "" && password == confirmPassword &&
                         |password| >= MinPasswordLength && IsValidEmail(email)
  {
    MessagesDistinct();
    if username == "" || password == "" || email == "" then Some(FillAllFieldsMessage)
    else if password != confirmPassword then Some(PasswordsMismatchMessage)
    else if |password| < MinPasswordLength then Some(PasswordTooShortMessage)
    else if !IsValidEmail(email) then Some(InvalidEmailMessage)
    else None
  }

  class RegisterViewModel {
    var username: string
    var password: string
    var email: string
    var confirmPassword: string
    var isLoading: bool
    var errorMessage: Option<string>
    var registeredUser: Option<User>

    constructor ()
      ensures username == "" && password == "" && email == "" && confirmPassword == ""
      ensures !isLoading && errorMessage.None? && registeredUser.None?
    {
      username, password, email, confirmPassword := "", "", "", "";
      isLoading := false;
      errorMessage := None;
      registeredUser := None;
    }

    /** Runs the checks; when one fails shows its message and stops without
        calling the use case. Otherwise the call answers with `outcome`: a
        user is kept, an error is shown by its description. */
    method Register(outcome: Result<User, AuthError>)
      modifies this
      ensures username == old(username) && password == old(password)
      ensures email == old(email) && confirmPassword == old(confirmPassword)
      ensures var error := RegistrationError(old(username), old(password), old(email), old(confirmPassword));
        error.Some? ==>
          errorMessage == error && isLoading == old(isLoading) && registeredUser == old(registeredUser)
      ensures RegistrationError(old(username), old(password), old(email), old(confirmPassword)).None? ==>
        !isLoading &&
        match outcome
        case Success(user) => registeredUser == Some(user) && errorMessage.None?
        case Failure(e) => errorMessage == Some(ErrorDescription(e)) && registeredUser == old(registeredUser)
    {
      if username == "" || password == "" || email == "" {
        errorMessage := Some(FillAllFieldsMessage);
        return;
      }
      if password != confirmPassword {
        errorMessage := Some(PasswordsMismatchMessage);
        return;
      }
      if |password| < MinPasswordLength {
        errorMessage := Some(PasswordTooShortMessage);
        return;
      }
      if !IsValidEmail(email) {
        errorMessage := Some(InvalidEmailMessage);
        return;
      }
      isLoading := true;
      errorMessage := None;
      match outcome {
        case Success(user) =>
          registeredUser := Some(user);
        case Failure(e) =>
          errorMessage := Some(ErrorDescription(e));
      }
      isLoading := false;
    }
  }
}
