# Verified model of the SwiftUI-Snippets authentication core

This project models, in Dafny, the non-visual core under the SwiftUI screens
of the SwiftUI-Snippets repository and its base project:

- **Router** (`Routing`, a model of `AppRouting`). It keeps a manual stack of
  `AuthFlow` destinations. A navigation path mirrors the stack and a
  `RouteFlow` picks the top-level flow. Operations: push, pop, pop to root,
  pop until a destination, and switching the route flow.
- **Local user store** (`LocalStore`). It holds user records with a unique
  username. Operations: an upsert, a lookup by username and password, a
  lookup by username, and persisting a changed record.
- **Auth repository** (`AuthRepository`). Register, login and reset-password
  run on top of the store and fail with a typed `AuthError`.
- **Session manager** (`Session`). It keeps the login flag, username, user id
  and login time in the app's key/value defaults. It can also compute the
  session duration and format it as text.
- **Form view models** (`RegisterScreen`, `ForgotPasswordScreen`,
  `LoginScreen`, with the shared messages in `FormValidation`). Each runs its
  ordered checks, then sets its loading, error and result fields around the
  use-case call.

How the model is built:

- State the source changes in place is a Dafny `class`. Its methods state the
  new state in terms of the old one.
- The store is a sequence of records in fetch order. Its invariant is that
  usernames are unique. `Records` gives the dictionary view that lookups
  see: each username maps to the credentials of its first record.
- The router's pop-until loop is proved against `PopUntil`. The lemmas about
  `PopUntil` state what the loop promises.
- The key/value defaults are a `map`. The clock is a parameter `now` in whole
  seconds. `Int.random(in: 1...1_000_000)` is a nondeterministic choice in
  that range. Each asynchronous use-case call is one step, and the view
  models take its outcome as a parameter.
- Client methods show that the contracts are enough to prove facts that span
  several operations. They cover register-then-login, a failed re-register,
  reset-then-login with the old and the new password, and the "alice"
  scenario.

The code behaves as follows in three places a reader might not expect:

- A logged-in session need not have a user id. `saveLoginSession` with id 0
  reads back as "no id" while `isLoggedIn` is true.
  `Session.UserSessionManager.SaveLoginSession` states that the session is
  all-or-nothing exactly when the id is not 0.
- The session duration is absent exactly when no login time is stored. The
  `isLoggedIn` flag plays no part in it.
- A duration can be negative when `now` is before the stored login time.
  The model then uses Swift's division, which rounds toward zero, so such a
  duration is always shown in the short `{m}m` form.

`User` is modelled with the fields `id`, `name` and `email` that
`AuthRepositoryImpl` passes to its initialiser.

## Model

| member | source | states |
|---|---|---|
| Routing.PopUntil | SwiftUiBaseProject/Routing/AppRouting.swift:57-65 | the stack the pop-until loop leaves ends with the destination on top, or is empty |
| Routing.PopUntilIsPrefix | SwiftUiBaseProject/Routing/AppRouting.swift:57-65 | popping until a destination always leaves a prefix of the original stack |
| Routing.PopUntilStopsAtLastOccurrence | SwiftUiBaseProject/Routing/AppRouting.swift:57-65 | when the destination is on the stack, the result is non-empty, has the destination on top, and no entry above that point was the destination (the last occurrence) |
| Routing.PopUntilEmptiesIffAbsent | SwiftUiBaseProject/Routing/AppRouting.swift:57-65 | the stack ends empty exactly when the destination is not on it |
| Routing.PopUntilKeepsTop | SwiftUiBaseProject/Routing/AppRouting.swift:58-61 | with the destination already on top, nothing is popped |
| Routing.AppRouting.constructor | SwiftUiBaseProject/Routing/AppRouting.swift:13-15 | empty path and stack, route flow `authModule`, stack and path in step |
| Routing.AppRouting.Navigate | SwiftUiBaseProject/Routing/AppRouting.swift:35-38 | the destination is appended to both stack and path, earlier entries unchanged, route flow unchanged, equal sizes preserved |
| Routing.AppRouting.NavigateBack | SwiftUiBaseProject/Routing/AppRouting.swift:42-46 | an empty stack changes nothing; otherwise exactly the last entry of stack and path is removed; equal sizes preserved |
| Routing.AppRouting.NavigateToRoot | SwiftUiBaseProject/Routing/AppRouting.swift:49-52 | stack and path end empty whatever they held, so a second call changes nothing; route flow unchanged |
| Routing.AppRouting.NavigateBackTo | SwiftUiBaseProject/Routing/AppRouting.swift:57-65 | the loop leaves the stack equal to `PopUntil` of the old stack and pops the path by the same count; equal sizes preserved |
| Routing.AppRouting.SetRoute | SwiftUiBaseProject/Routing/AppRouting.swift:68-72 | the route flow is the new one and stack and path are empty |
| LocalStore.IndexOfUsername | SwiftUI-Snippets/Clean-Architecture/Data/Local/LocalUserStore.swift:64-73 | the fetch by username finds the first record with that username, or reports that none has it |
| LocalStore.IndexOfCredentials | SwiftUI-Snippets/Clean-Architecture/Data/Local/LocalUserStore.swift:53-62 | the fetch by username and password finds the first record matching both, or reports that none does |
| LocalStore.RecordsLookup | SwiftUI-Snippets/Clean-Architecture/Data/Local/LocalUserStore.swift:64-73 | a username is in the dictionary view exactly when a record has it, with that record's password and email |
| LocalStore.RecordsOverwriteFirst | SwiftUI-Snippets/Clean-Architecture/Data/Local/LocalUserStore.swift:34-40 | overwriting the found record changes the view at that username only |
| LocalStore.RecordsAppendNew | SwiftUI-Snippets/Clean-Architecture/Data/Local/LocalUserStore.swift:41-44 | inserting a record for an absent username adds exactly that username to the view |
| LocalStore.CredentialsLookup | SwiftUI-Snippets/Clean-Architecture/Data/Local/LocalUserStore.swift:13-62 | with unique usernames, the credential fetch succeeds exactly when the view stores that password for that username, and finds that username's record |
| LocalStore.LocalUserStore.constructor | SwiftUI-Snippets/Clean-Architecture/Data/Local/LocalUserStore.swift:28-30 | the store wraps the records its persistent context already holds, which may be left over from earlier launches; their usernames are unique |
| LocalStore.LocalUserStore.SaveUser | SwiftUI-Snippets/Clean-Architecture/Data/Local/LocalUserStore.swift:32-51 | the view becomes the old view with the username mapped to the new password and email; an existing username's record is overwritten in place at its position with `(u, p, e)` and no record is added, an absent one appends exactly `(u, p, e)`; other usernames untouched; uniqueness preserved |
| LocalStore.LocalUserStore.FindUser | SwiftUI-Snippets/Clean-Architecture/Data/Local/LocalUserStore.swift:53-62 | returns a stored record only if username and password both match; with unique usernames, returns one exactly when the stored password is the given one, carrying the stored email |
| LocalStore.LocalUserStore.FindUserByUsername | SwiftUI-Snippets/Clean-Architecture/Data/Local/LocalUserStore.swift:64-73 | returns a record exactly when the username is stored, with its stored password and email |
| LocalStore.LocalUserStore.SaveExistingUser | SwiftUI-Snippets/Clean-Architecture/Data/Local/LocalUserStore.swift:75-82 | the stored record of that username takes the changed password and email; the record count and uniqueness are kept |
| LocalStore.SaveThenFind | SwiftUI-Snippets/Clean-Architecture/Data/Local/LocalUserStore.swift:32-62 | after saving `(u, p, e)` on a valid store, the lookup by `u` and `p` finds exactly the record `(u, p, e)`, new or overwritten |
| AuthRepository.ErrorDescription | SwiftUI-Snippets/Clean-Architecture/Data/Repositories/AuthRepositoryImpl.swift:15-24 | every error has a non-empty description |
| AuthRepository.ErrorDescriptionsDistinct | SwiftUI-Snippets/Clean-Architecture/Data/Repositories/AuthRepositoryImpl.swift:15-24 | different errors have different descriptions |
| AuthRepository.AuthRepositoryImpl.constructor | SwiftUI-Snippets/Clean-Architecture/Data/Repositories/AuthRepositoryImpl.swift:31-33 | the repository uses the store it is given |
| AuthRepository.AuthRepositoryImpl.Login | SwiftUI-Snippets/Clean-Architecture/Data/Repositories/AuthRepositoryImpl.swift:35-47 | fails with `invalidCredentials` exactly when the username is not stored with that password; on success the user has the stored username and email and an id in 1...1_000_000; the store is not modified |
| AuthRepository.AuthRepositoryImpl.Register | SwiftUI-Snippets/Clean-Architecture/Data/Repositories/AuthRepositoryImpl.swift:49-64 | fails with `userAlreadyExists` exactly when the username is stored, leaving the store as it was; otherwise appends `(u, p, e)` and returns a user named `u` with email `e` and an id in range |
| AuthRepository.AuthRepositoryImpl.ResetPassword | SwiftUI-Snippets/Clean-Architecture/Data/Repositories/AuthRepositoryImpl.swift:66-74 | fails with `userNotFound` exactly when the username is absent, leaving the store as it was; otherwise only that user's password changes and the email is kept |
| AuthRepository.RegisterThenLogin | SwiftUI-Snippets/Clean-Architecture/Data/Repositories/AuthRepositoryImpl.swift:35-64 | registering a new username and then logging in with the same credentials succeeds with that name and email |
| AuthRepository.RegisterTakenThenLogin | SwiftUI-Snippets/Clean-Architecture/Data/Repositories/AuthRepositoryImpl.swift:35-53 | registering a taken username fails, the records stay as they were, and the old credentials still log in |
| AuthRepository.ResetThenLogin | SwiftUI-Snippets/Clean-Architecture/Data/Repositories/AuthRepositoryImpl.swift:35-74 | after a reset, the new password logs in with the old email and the old password fails with `invalidCredentials` |
| AuthRepository.WrongPasswordLogin | SwiftUI-Snippets/Clean-Architecture/Data/Repositories/AuthRepositoryImpl.swift:35-39 | a wrong password for a stored username fails with `invalidCredentials` |
| AuthRepository.AliceScenario | SwiftUI-Snippets/Clean-Architecture/Data/Repositories/AuthRepositoryImpl.swift:35-74 | register, login, wrong login, reset, stale login and fresh login: the reset passes and the five results are success, success, failure, failure, success |
| Session.TruncDiv | SwiftUI-Snippets/Components/UserSessionManager.swift:70 | Swift's integer division rounds toward zero: the remainder lies in [0, b) for a >= 0 and in (-b, 0] for a < 0 |
| Session.TruncRem | SwiftUI-Snippets/Components/UserSessionManager.swift:71 | Swift's remainder takes the sign of the dividend and recombines with the quotient to `a` |
| Session.NatDigitsDenote | SwiftUI-Snippets/Components/UserSessionManager.swift:74-76 | the decimal rendering of a natural number is non-empty, all digits, and denotes that number |
| Session.DecimalString | SwiftUI-Snippets/Components/UserSessionManager.swift:74-76 | the interpolated text of an `Int` is non-empty, starts with `-` exactly when the number is negative, and is digits after that |
| Session.DecimalStringRoundTrip | SwiftUI-Snippets/Components/UserSessionManager.swift:74-76 | parsing the interpolated text of an integer gives the integer back |
| Session.DecimalStringHasNoLetters | SwiftUI-Snippets/Components/UserSessionManager.swift:74-76 | an interpolated integer contains no `h`, space or `m`, so it cannot be confused with the unit markers |
| Session.DurationHours | SwiftUI-Snippets/Components/UserSessionManager.swift:70 | `Int(duration) / 3600` rounds toward zero: for s >= 0, hours * 3600 <= s < hours * 3600 + 3600; for s < 0, hours <= 0 and s <= hours * 3600 < s + 3600 |
| Session.DurationMinutes | SwiftUI-Snippets/Components/UserSessionManager.swift:71 | `(Int(duration) % 3600) / 60` with Swift's sign-of-dividend remainder: in [0, 60) for s >= 0 and in (-60, 0] for s < 0 |
| Session.DurationString | SwiftUI-Snippets/Components/UserSessionManager.swift:73-77 | `"{h}h {m}m"` when the hours are positive and `"{m}m"` otherwise: the text always ends in `m` and holds an `h` exactly when the hours are positive |
| Session.DurationParts | SwiftUI-Snippets/Components/UserSessionManager.swift:70-71 | for a duration s >= 0, hours = s / 3600 and minutes = (s % 3600) / 60, 0 <= minutes < 60, and hours and minutes give s to the minute |
| Session.DurationStringReadsBack | SwiftUI-Snippets/Components/UserSessionManager.swift:70-77 | the duration text reads back as `{h}h {m}m` when hours > 0 and as `{m}m` otherwise, with the computed hours and minutes |
| Session.UserSessionManager.constructor | SwiftUI-Snippets/Components/UserSessionManager.swift:11 | the manager works on the defaults it is given |
| Session.UserSessionManager.IsLoggedIn | SwiftUI-Snippets/Components/UserSessionManager.swift:22-24 | true exactly when `true` is stored under `isLoggedIn`; a missing key reads as false |
| Session.UserSessionManager.CurrentUsername | SwiftUI-Snippets/Components/UserSessionManager.swift:26-28 | the stored username string, or nil when there is none |
| Session.UserSessionManager.StoredUserId | SwiftUI-Snippets/Components/UserSessionManager.swift:31 | `integer(forKey:)` reads a missing key as 0 and a stored integer as itself |
| Session.UserSessionManager.CurrentUserId | SwiftUI-Snippets/Components/UserSessionManager.swift:30-33 | nil exactly when the stored integer is 0 (a missing key included); otherwise that non-zero id |
| Session.UserSessionManager.LoginTimestamp | SwiftUI-Snippets/Components/UserSessionManager.swift:35-40 | the stored time interval, or nil when none is stored |
| Session.UserSessionManager.SaveLoginSession | SwiftUI-Snippets/Components/UserSessionManager.swift:44-50 | sets exactly the four keys: afterwards logged in, username `u`, id `userId` (nil when it is 0), timestamp `now`, duration 0 at `now`; all-or-nothing holds exactly when the id is not 0 |
| Session.UserSessionManager.ClearSession | SwiftUI-Snippets/Components/UserSessionManager.swift:52-58 | removes exactly the four keys: afterwards not logged in and the username, id and timestamp are nil |
| Session.UserSessionManager.GetSessionDuration | SwiftUI-Snippets/Components/UserSessionManager.swift:62-65 | nil exactly when there is no timestamp; otherwise timestamp plus duration is `now` |
| Session.UserSessionManager.GetSessionDurationString | SwiftUI-Snippets/Components/UserSessionManager.swift:67-78 | nil exactly when the duration is nil; otherwise the duration text of that duration |
| FormValidation.IsValidEmail | SwiftUI-Snippets/Clean-Architecture/Presentation/ViewModels/RegisterViewModel.swift:44 | an email passes exactly when some position holds `@` and some position holds `.`, so a passing email has at least two characters |
| FormValidation.MessagesDistinct | SwiftUI-Snippets/Clean-Architecture/Presentation/ViewModels/RegisterViewModel.swift:29-47 | the four validation messages differ from each other |
| RegisterScreen.RegistrationError | SwiftUI-Snippets/Clean-Architecture/Presentation/ViewModels/RegisterViewModel.swift:29-47 | each message is produced exactly when its check is the first to fail (empty field, password mismatch, length below 6, email without both `@` and `.`); none exactly when all pass |
| RegisterScreen.RegisterViewModel.constructor | SwiftUI-Snippets/Clean-Architecture/Presentation/ViewModels/RegisterViewModel.swift:13-19 | empty fields, not loading, no message, no user |
| RegisterScreen.RegisterViewModel.Register | SwiftUI-Snippets/Clean-Architecture/Presentation/ViewModels/RegisterViewModel.swift:27-64 | a failed check sets its message and leaves loading and the user as they were; otherwise loading ends false, and success keeps the user with no message while failure shows the error's description and keeps the old user |
| ForgotPasswordScreen.ResetError | SwiftUI-Snippets/Clean-Architecture/Presentation/ViewModels/ForgotPasswordViewModel.swift:28-41 | each message is produced exactly when its check is the first to fail (empty field, mismatch, length below 6); none exactly when all pass |
| ForgotPasswordScreen.ForgotPasswordViewModel.constructor | SwiftUI-Snippets/Clean-Architecture/Presentation/ViewModels/ForgotPasswordViewModel.swift:13-18 | empty fields, not loading, no message, no success |
| ForgotPasswordScreen.ForgotPasswordViewModel.ResetPassword | SwiftUI-Snippets/Clean-Architecture/Presentation/ViewModels/ForgotPasswordViewModel.swift:26-58 | a failed check sets its message and leaves loading and success as they were; otherwise loading ends false, and success sets the flag with no message while failure shows the description with the flag false |
| LoginScreen.LoginViewModel.constructor | SwiftUI-Snippets/Clean-Architecture/Presentation/ViewModels/LoginViewModel.swift:13-17 | empty fields, not loading, no message, no user |
| LoginScreen.LoginViewModel.Login | SwiftUI-Snippets/Clean-Architecture/Presentation/ViewModels/LoginViewModel.swift:25-40 | no checks; loading ends false; success keeps the user with no message; failure shows the description and keeps the old user |

## Left out

- The SwiftUI views are not part of this model: layout, colours, animations and video playback. This also covers how the views build their dependencies.
- `ApiClient` is not part of this model. It is a network client that builds an HTTP Basic `Authorization` header (RFC 7617, section 2).
- `DashboardViewModel.logout` is not part of this model. It is a sleep, a session clear (modelled as `ClearSession`) and a notification post.
- The use-case classes and the `AuthRepository` protocol are not modelled separately. Each use case only forwards to the repository.
- Persistence internals are not modelled. SwiftData `context.save()` is taken to succeed; the source discards its failures anyway. Fetches are taken to succeed too: both `findUser` overloads turn a failed fetch into `nil` (LocalUserStore.swift:59-61, 70-72), and `saveUser`'s `try?` fetch (line 34) sends a failed fetch down the insert branch; the model has neither error path. UserDefaults `synchronize()` is left out.
- Type conversions inside UserDefaults are not modelled, such as reading a stored number through `bool(forKey:)` or `string(forKey:)`. The model reads each key only at the type this class writes, and any other value reads as missing.
- The navigation path can also be popped outside the router, by the `NavigationStack` binding or a back gesture. That is not modelled, so the equal-size invariant is stated only for the router's own methods. The path is modelled as a sequence of the router's own destinations, not as a type-erased `NavigationPath`.
- `router.authDestination` is used by the app's entry view, but its definition is not part of this model.
- Concurrency is not modelled: `@MainActor`, `async` and suspension. Each use-case call is one step.
- Time is whole seconds since the epoch. The fractional part of `TimeInterval` is not modelled, and neither is `Int(duration)` trapping on an out-of-range double.
- `Int.random` is a nondeterministic choice in 1...1_000_000. No distribution is modelled.
- All of these are modelled on Dafny's `seq<char>`: Swift's `String.count`, which counts grapheme clusters, `isEmpty`, `contains` for the one-character strings `"@"` and `"."`, and `==`. Swift's `String ==` uses canonical equivalence, so a precomposed "é" equals "e" followed by a combining accent, while the model compares code points. This affects `password == confirmPassword` in the register and forgot-password forms and `last == destination` for `signUp(name:)` in the router. On such inputs `RegistrationError` and `ResetError` report "Passwords don't match" where the app would not.
- Routing.AppRouting.NavigateBack and Routing.AppRouting.NavigateBackTo: `navPath.removeLast()` traps on an empty `NavigationPath`. The model excludes that trap by its precondition, and `Valid()` (stack and path of equal length) implies that precondition, so a router that keeps its invariant never reaches the trap.
- Swift `Int` overflow is not modelled. The durations and ids involved are far from the 64-bit bounds.
- LocalStore.LocalUserStore.SaveExistingUser: this works on values, not objects. In the source, `resetPassword` writes the password into the entity object that the store tracks, and then saves it. The model writes the changed record value back into the store. So aliasing between the returned entity and the stored record is not modelled.
- RegisterScreen.RegisterViewModel.Register: states only the state after the call returns. It does not state the state while the call runs (`isLoading` true, `errorMessage` nil).
- ForgotPasswordScreen.ForgotPasswordViewModel.ResetPassword: states only the state after the call returns. It does not state the state while the call runs (`isLoading` true, `errorMessage` nil, `isSuccess` false).
- LoginScreen.LoginViewModel.Login: states only the state after the call returns. It does not state the state while the call runs (`isLoading` true, `errorMessage` nil).
- The view models take the use case's outcome as a parameter. The error text is the `AuthError` description; this repository throws no other error.
