/** The password-reset form: its fields, the ordered checks that run before
    anything is sent, and the state it shows once the reset call has
    answered. The call is one step whose outcome is passed in. */
module ForgotPasswordScreen {
  import opened Wrappers
  import opened AuthRepository
  import opened FormValidation

  /** The message of the first check the form fails, or none when all pass.
      The checks run in this order: every field filled, the two passwords
      equal, the password long enough. */
  function ResetError(username: string, newPassword: string, confirmPassword: string): (r: Option<string>)
    ensures r == Some(FillAllFieldsMessage) <==> username == "" || newPassword == "" || confirmPassword == ""
    ensures r == Some(PasswordsMismatchMessage) <==>
      username != "" && newPassword != "" && confirmPassword != "" && newPassword != confirmPassword
    ensures r == Some(PasswordTooShortMessage) <==>
      username != "" && newPassword != "" && confirmPassword != "" && newPassword == confirmPassword &&
      |newPassword| < MinPasswordLength
    ensures r.None? <==> username != "" && newPassword == confirmPassword && |newPassword| >= MinPasswordLength
  {
    MessagesDistinct();
    if username == "" || newPassword == "" || confirmPassword == "" then Some(FillAllFieldsMessage)
    else if newPassword != confirmPassword then Some(PasswordsMismatchMessage)
    else if |newPassword| < MinPasswordLength then Some(PasswordTooShortMessage)
    else None
  }

  class ForgotPasswordViewModel {
    var username: string
    var newPassword: string
    var confirmPassword: string
    var isLoading: bool
    var errorMessage: Option<string>
    var isSuccess: bool

    constructor ()
      ensures username == "" && newPassword == "" && confirmPassword == ""
      ensures !isLoading && errorMessage.None? && !isSuccess
    {
      username, newPassword, confirmPassword := "", "", "";
      isLoading := false;
      errorMessage := None;
      isSuccess := false;
    }

    /** Runs the checks; when one fails shows its message and stops without
        calling the use case. Otherwise it clears the message and the success
        flag, and the call answers with `outcome`. */
    method ResetPassword(outcome: Outcome<AuthError>)
      modifies this
      ensures username == old(username) && newPassword == old(newPassword)
      ensures confirmPassword == old(confirmPassword)
      ensures var error := ResetError(old(username), old(newPassword), old(confirmPassword));
        error.Some? ==> errorMessage == error && isLoading == old(isLoading) && isSuccess == old(isSuccess)
      ensures ResetError(old(username), old(newPassword), old(confirmPassword)).None? ==>
        !isLoading &&
        match outcome
        case Pass => isSuccess && errorMessage.None?
        case Fail(e) => !isSuccess && errorMessage == Some(ErrorDescription(e))
    {
      if username == "" || newPassword == "" || confirmPassword == "" {
        errorMessage := Some(FillAllFieldsMessage);
        return;
      }
      if newPassword != confirmPassword {
        errorMessage := Some(PasswordsMismatchMessage);
        return;
      }
      if |newPassword| < MinPasswordLength {
        errorMessage := Some(PasswordTooShortMessage);
        return;
      }
      isLoading := true;
      errorMessage := None;
      isSuccess := false;
      match outcome {
        case Pass =>
          isSuccess := true;
        case Fail(e) =>
          errorMessage := Some(ErrorDescription(e));
      }
      isLoading := false;
    }
  }
}
