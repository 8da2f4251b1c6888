/** The client-side checks and messages that the registration and
    password-reset forms share. */
module FormValidation {

  const FillAllFieldsMessage := "Please fill in all fields"
  const PasswordsMismatchMessage := "Passwords don't match"
  const PasswordTooShortMessage := "Password must be at least 6 characters"
  const InvalidEmailMessage := "Please enter a valid email"

  /** The fewest characters a password may have. */
  const MinPasswordLength := 6

  /** The email check of the registration form: an `@` and a `.` somewhere. */
  function IsValidEmail(email: string): (r: bool)
    ensures r <==> exists i, j :: 0 <= i < |email| && 0 <= j < |email| && email[i] == '@' && email[j] == '.'
    ensures r ==> |email| >= 2
  {
    '@' in email && '.' in email
  }

  /** The four messages differ, so a message tells which check failed. */
  lemma MessagesDistinct()
    ensures FillAllFieldsMessage != PasswordsMismatchMessage
    ensures FillAllFieldsMessage != PasswordTooShortMessage
    ensures FillAllFieldsMessage != InvalidEmailMessage
    ensures PasswordsMismatchMessage != PasswordTooShortMessage
    ensures PasswordsMismatchMessage != InvalidEmailMessage
    ensures PasswordTooShortMessage != InvalidEmailMessage
  {
  }
}
